/** Numerals as text: reading, writing, and the C library's `strtol` with base 0. */
module Numerals {
  /** The value of a digit character in any base up to 16, or -1 for a character that is no digit. */
  function DigitValue(c: char): int {
    if '0' <= c <= '9' then c as int - '0' as int
    else if 'A' <= c <= 'F' then c as int - 'A' as int + 10
    else if 'a' <= c <= 'f' then c as int - 'a' as int + 10
    else -1
  }

  /** The character printed for a digit. */
  function DigitChar(d: nat): char
    requires d < 16
  {
    if d < 10 then (d + '0' as int) as char else (d - 10 + 'A' as int) as char
  }

  predicate IsDigit(c: char, base: nat) {
    0 <= DigitValue(c) < base
  }

  predicate AllDigits(s: string, base: nat) {
    forall i | 0 <= i < |s| :: IsDigit(s[i], base)
  }

  /** The number a digit string stands for, most significant digit first. */
  function ValueOf(s: string, base: nat): int {
    if s == "" then 0 else ValueOf(s[..|s| - 1], base) * base + DigitValue(s[|s| - 1])
  }

  /** A numeral in canonical form: upper-case digits, and no leading zero except in "0". */
  predicate Canonical(s: string, base: nat) {
    && s != ""
    && (forall i | 0 <= i < |s| :: IsDigit(s[i], base) && s[i] == DigitChar(DigitValue(s[i])))
    && (s[0] == '0' ==> s == "0")
  }

  function Numeral(v: nat, base: nat): (s: string)
    requires 2 <= base <= 16
    ensures s != ""
  {
    if v < base then [DigitChar(v)] else Numeral(v / base, base) + [DigitChar(v % base)]
  }

  lemma DigitsAreDigits(d: nat)
    requires d < 16
    ensures DigitValue(DigitChar(d)) == d
    ensures DigitChar(d) == '0' <==> d == 0
  {
  }

  lemma ValueOfAppend(s: string, c: char, base: nat)
    requires AllDigits(s, base) && IsDigit(c, base)
    ensures AllDigits(s + [c], base)
    ensures ValueOf(s + [c], base) == ValueOf(s, base) * base + DigitValue(c)
  {
    assert (s + [c])[..|s|] == s;
  }

  /** The printed numeral is canonical and stands for the value. */
  lemma {:induction false} NumeralIsExact(v: nat, base: nat)
    requires 2 <= base <= 16
    ensures Canonical(Numeral(v, base), base)
    ensures ValueOf(Numeral(v, base), base) == v
    ensures v != 0 ==> Numeral(v, base)[0] != '0'
    decreases v
  {
    DigitsAreDigits(v % base);
    if v < base {
      DigitsAreDigits(v);
      ValueOfAppend("", DigitChar(v), base);
      assert "" + [DigitChar(v)] == [DigitChar(v)];
    } else {
      QuotientIsSmaller(v, base);
      var n := Numeral(v / base, base);
      NumeralIsExact(v / base, base);
      ValueOfAppend(n, DigitChar(v % base), base);
      assert (n + [DigitChar(v % base)])[0] == n[0];
    }
  }

  lemma QuotientIsSmaller(v: nat, base: nat)
    requires 2 <= base <= v
    ensures 0 < v / base < v
    ensures v / base * base + v % base == v
  {
  }

  /** A canonical string with a non-zero value does not lose its first digit when its last one goes. */
  lemma {:induction false} CanonicalPrefix(s: string, base: nat)
    requires 2 <= base <= 16 && Canonical(s, base) && |s| > 1
    ensures Canonical(s[..|s| - 1], base)
    ensures ValueOf(s[..|s| - 1], base) > 0
    decreases |s|
  {
    var t := s[..|s| - 1];
    assert t[0] == s[0] != '0';
    if |t| > 1 {
      CanonicalPrefix(t, base);
      assert IsDigit(t[|t| - 1], base);
      MulSign(ValueOf(t[..|t| - 1], base), base);
    } else {
      assert t[..0] == "";
    }
  }

  /** There is one canonical numeral for a value: whatever prints a canonical numeral prints this one. */
  lemma {:induction false} NumeralIsUnique(s: string, base: nat)
    requires 2 <= base <= 16 && Canonical(s, base)
    ensures ValueOf(s, base) >= 0 && s == Numeral(ValueOf(s, base), base)
    decreases |s|
  {
    var t, c := s[..|s| - 1], s[|s| - 1];
    assert s == t + [c];
    ValueOfAppend(t, c, base);
    if |s| == 1 {
      assert t == "";
    } else {
      CanonicalPrefix(s, base);
      NumeralIsUnique(t, base);
      DivModOf(ValueOf(t, base), base, DigitValue(c));
    }
  }

  lemma DivModOf(q: nat, base: nat, r: nat)
    requires r < base && q > 0
    ensures (q * base + r) / base == q && (q * base + r) % base == r
    ensures q * base + r >= base
  {
    var v := q * base + r;
    QuotientIsUnique(q, r, v / base, v % base, base);
    MulSign(q, base);
  }

  lemma MulSign(k: int, m: nat)
    ensures k >= 1 ==> k * m >= m
    ensures k <= -1 ==> k * m <= 0 - m
  {
    if k >= 1 {
      assert (k - 1) * m >= 0;
    } else if k <= -1 {
      assert (-1 - k) * m >= 0;
    }
  }

  lemma QuotientIsUnique(q: int, r: nat, p: int, t: nat, m: nat)
    requires r < m && t < m && q * m + r == p * m + t
    ensures q == p && r == t
  {
    assert (q - p) * m == t - r;
    MulSign(q - p, m);
  }

  function Pow(b: nat, e: nat): nat {
    if e == 0 then 1 else b * Pow(b, e - 1)
  }

  /** A value has at most n decimal digits exactly when it is below 10^n. */
  lemma {:induction false} NumeralLength(v: nat, n: nat)
    requires n > 0
    ensures |Numeral(v, 10)| <= n <==> v < Pow(10, n)
    decreases v
  {
    if v < 10 {
      PowPositive(n - 1);
    } else if n == 1 {
      assert Pow(10, 1) == 10 * Pow(10, 0);
    } else {
      NumeralLength(v / 10, n - 1);
      assert v / 10 < Pow(10, n - 1) <==> v < Pow(10, n);
    }
  }

  lemma {:induction false} PowPositive(n: nat)
    ensures Pow(10, n) >= 1
  {
    if n > 0 {
      PowPositive(n - 1);
    }
  }

  // ---------------------------------------------------------------------------------------------
  // Integer types

  /** A two's complement or unsigned integer type of the given width. */
  datatype IntType = IntType(signed: bool, bits: nat) {
    predicate Valid() {
      bits >= 8
    }

    /** One above the greatest value of the type. */
    function Bound(): (b: nat)
      requires Valid()
    {
      Pow(2, if signed then bits - 1 else bits)
    }

    predicate Holds(v: int)
      requires Valid()
    {
      (if signed then 0 - Bound() else 0) <= v < Bound()
    }

    /** `std::numeric_limits<T>::digits10`. */
    function Digits10(): nat
      requires Valid()
    {
      Log10(Bound())
    }

    /** Room for any value of the type with its sign and its terminator. */
    function SerializedValueLength(): nat
      requires Valid()
    {
      Digits10() + (if signed then 1 else 0) + 2
    }

    /** `static_cast` to this type: the value modulo 2^bits. */
    function Cast(v: int): int
      requires Valid()
    {
      PowTwoPositive(bits);
      var m := v % Pow(2, bits);
      if signed && m >= Bound() then m - Pow(2, bits) else m
    }
  }

  lemma {:induction false} PowTwoPositive(n: nat)
    ensures Pow(2, n) >= 1
    ensures n > 0 ==> Pow(2, n) == 2 * Pow(2, n - 1) && Pow(2, n) >= 2
  {
    if n > 0 {
      PowTwoPositive(n - 1);
    }
  }

  /** The number of decimal digits every value below n can use freely. */
  function Log10(n: nat): (d: nat)
  {
    if n < 10 then 0 else 1 + Log10(n / 10)
  }

  lemma {:induction false} Log10Bounds(n: nat)
    requires n > 0
    ensures Pow(10, Log10(n)) <= n < Pow(10, Log10(n) + 1)
  {
    if n >= 10 {
      Log10Bounds(n / 10);
      assert Pow(10, Log10(n)) == 10 * Pow(10, Log10(n / 10));
      assert Pow(10, Log10(n) + 1) == 10 * Pow(10, Log10(n / 10) + 1);
    } else {
      assert Pow(10, 1) == 10 * Pow(10, 0);
    }
  }

  lemma BoundIsPositive(t: IntType)
    requires t.Valid()
    ensures t.Bound() >= 128
    ensures Pow(2, t.bits) == (if t.signed then 2 * t.Bound() else t.Bound())
  {
    PowTwoPositive(t.bits);
    PowTwoMonotonic(7, if t.signed then t.bits - 1 else t.bits);
  }

  lemma {:induction false} PowTwoMonotonic(a: nat, b: nat)
    requires a <= b
    ensures Pow(2, a) <= Pow(2, b)
    ensures Pow(2, 7) == 128
    decreases b
  {
    assert Pow(2, 7) == 128 by {
      assert Pow(2, 3) == 8;
      assert Pow(2, 5) == 32;
    }
    if a < b {
      PowTwoMonotonic(a, b - 1);
      PowTwoPositive(b);
    }
  }

  /** A value of the type keeps its value when it is cast to it. */
  lemma CastKeepsHeldValues(t: IntType, v: int)
    requires t.Valid() && t.Holds(v)
    ensures t.Cast(v) == v
  {
    BoundIsPositive(t);
    if v < 0 {
      ModOfNegative(v, Pow(2, t.bits));
    } else {
      QuotientIsUnique(v / Pow(2, t.bits), v % Pow(2, t.bits), 0, v, Pow(2, t.bits));
    }
  }

  lemma ModOfNegative(v: int, m: int)
    requires m > 0 && -m <= v < 0
    ensures v % m == if v == -m then 0 else v + m
  {
    var r := if v == -m then 0 else v + m;
    QuotientIsUnique(v / m, v % m, -1, r, m);
  }

  // ---------------------------------------------------------------------------------------------
  // Printed text

  function Fill(n: nat, c: char): (s: string)
    ensures |s| == n && forall i | 0 <= i < n :: s[i] == c
  {
    seq(n, _ => c)
  }

  /** A numeral right-aligned in a field of the given width. */
  function Padded(digits: string, width: nat, fill: char): string {
    if |digits| < width then Fill(width - |digits|, fill) + digits else digits
  }

  /** Decimal text of a value: the fill goes between the minus sign and the digits. */
  function DecimalText(v: int, width: nat, fill: char): string {
    if v < 0 then "-" + Padded(Numeral(-v, 10), if width > 0 then width - 1 else 0, fill)
    else Padded(Numeral(v, 10), width, fill)
  }

  lemma NumeralFitsDigits(t: IntType, v: nat)
    requires t.Valid() && (v < t.Bound() || (t.signed && v == t.Bound()))
    ensures |Numeral(v, 10)| <= t.Digits10() + 1
  {
    BoundIsPositive(t);
    Log10Bounds(t.Bound());
    NumeralLength(v, t.Digits10() + 1);
  }

  /** Decimal text and its terminator fit the serialized value buffer exactly when the width does. */
  lemma DecimalTextFits(t: IntType, v: int, width: nat, fill: char)
    requires t.Valid() && t.Holds(v)
    ensures |DecimalText(v, width, fill)| + 1 <= t.SerializedValueLength() <==> width < t.SerializedValueLength()
  {
    NumeralFitsDigits(t, if v < 0 then -v else v);
  }

  /** Padded text is as long as the width or the digits, whichever is longer; it ends with the digits after the fill. */
  lemma PaddedIs(digits: string, width: nat, fill: char)
    ensures var t := Padded(digits, width, fill);
            && |t| == (if width > |digits| then width else |digits|)
            && t[|t| - |digits|..] == digits
            && forall i | 0 <= i < |t| - |digits| :: t[i] == fill
  {
  }

  /** The same of a printed value, where a minus sign stands before the fill. */
  lemma DecimalTextIs(v: int, width: nat, fill: char)
    ensures var t, n := DecimalText(v, width, fill), Numeral(if v < 0 then 0 - v else v, 10);
            var sign := if v < 0 then 1 else 0;
            && |t| == (if width > sign + |n| then width else sign + |n|)
            && t[|t| - |n|..] == n && (v < 0 ==> t[0] == '-')
            && forall i | sign <= i < |t| - |n| :: t[i] == fill
  {
    var n := Numeral(if v < 0 then 0 - v else v, 10);
    if v < 0 {
      var w := if width > 0 then width - 1 else 0;
      var t, inner := DecimalText(v, width, fill), Padded(n, w, fill);
      PaddedIs(n, w, fill);
      assert t == "-" + inner && t[|t| - |n|..] == inner[|inner| - |n|..];
      assert forall i | 1 <= i < |t| :: t[i] == inner[i - 1];
    } else {
      PaddedIs(n, width, fill);
    }
  }

  lemma {:induction false} Log10Is(n: nat, d: nat)
    requires Pow(10, d) <= n < Pow(10, d + 1)
    ensures Log10(n) == d
    decreases d
  {
    PowPositive(d);
    if d == 0 {
      assert Pow(10, 1) == 10 * Pow(10, 0);
    } else {
      assert Pow(10, d) == 10 * Pow(10, d - 1) && Pow(10, d + 1) == 10 * Pow(10, d);
      PowPositive(d - 1);
      Log10Is(n / 10, d - 1);
    }
  }

  lemma {:induction false} PowSum(b: nat, m: nat, n: nat)
    ensures Pow(b, m + n) == Pow(b, m) * Pow(b, n)
    decreases m
  {
    if m > 0 {
      PowSum(b, m - 1, n);
      var x, y := Pow(b, m - 1), Pow(b, n);
      assert b * (x * y) == (b * x) * y;
    }
  }

  /** The integer types of C: one above their greatest value, and the length of their serialized values. */
  lemma WidthsOfTypes()
    ensures IntType(false, 8).Bound() == 256 && IntType(false, 8).SerializedValueLength() == 4
    ensures IntType(true, 8).Bound() == 128 && IntType(true, 8).SerializedValueLength() == 5
    ensures IntType(false, 16).Bound() == 65536 && IntType(false, 16).SerializedValueLength() == 6
    ensures IntType(true, 16).Bound() == 32768 && IntType(true, 16).SerializedValueLength() == 7
    ensures IntType(false, 32).Bound() == 0x1_0000_0000 && IntType(false, 32).SerializedValueLength() == 11
    ensures IntType(true, 32).Bound() == 0x8000_0000 && IntType(true, 32).SerializedValueLength() == 12
  {
    assert Pow(2, 4) == 16;
    PowSum(2, 4, 3);
    PowSum(2, 4, 4);
    assert Pow(2, 3) == 8 && Pow(2, 7) == 128 && Pow(2, 8) == 256;
    PowSum(2, 8, 7);
    PowSum(2, 8, 8);
    assert Pow(2, 15) == 32768 && Pow(2, 16) == 65536;
    PowSum(2, 16, 15);
    PowSum(2, 16, 16);
    assert Pow(10, 2) == 100 && Pow(10, 3) == 1000 && Pow(10, 4) == 10000 && Pow(10, 5) == 100000;
    PowSum(10, 5, 4);
    PowSum(10, 5, 5);
    Log10Is(256, 2);
    Log10Is(128, 2);
    Log10Is(65536, 4);
    Log10Is(32768, 4);
    Log10Is(0x1_0000_0000, 9);
    Log10Is(0x8000_0000, 9);
  }

  /** A cast gives a value of the type that differs by a multiple of 2^bits. */
  lemma CastIsCongruent(t: IntType, v: int) returns (k: int)
    requires t.Valid()
    ensures t.Holds(t.Cast(v)) && v == t.Cast(v) + k * Pow(2, t.bits)
  {
    BoundIsPositive(t);
    var m := Pow(2, t.bits);
    k := if t.Cast(v) == v % m then v / m else v / m + 1;
    assert v == v / m * m + v % m;
    assert (v / m + 1) * m == v / m * m + m;
  }

  /** The digits of a numeral, and their values. */
  lemma DigitChars(d: nat)
    requires d < 16
    ensures DigitChar(d) == "0123456789ABCDEF"[d]
    ensures DigitValue("0123456789ABCDEF"[d]) == d == DigitValue("0123456789abcdef"[d])
  {
  }

  /** What is too great or too small for `long` becomes its nearest value. */
  lemma ClampIsNearest(v: int, limit: int, x: int)
    requires limit > 0 && -limit <= x < limit
    ensures -limit <= Clamp(v, limit) < limit
    ensures if v <= Clamp(v, limit) then Clamp(v, limit) - v <= (if x < v then v - x else x - v)
            else v - Clamp(v, limit) <= (if x < v then v - x else x - v)
  {
  }

  // ---------------------------------------------------------------------------------------------
  // strtol with base 0 (section 7.22.1.4 of ISO/IEC 9899:2011), in the "C" locale

  predicate IsSpace(c: char) {
    c == ' ' || '\t' <= c <= '\r'
  }

  function SkipSpaces(s: string, i: nat): (j: nat)
    requires i <= |s|
    ensures i <= j <= |s|
    decreases |s| - i
  {
    if i < |s| && IsSpace(s[i]) then SkipSpaces(s, i + 1) else i
  }

  datatype Conversion = Conversion(value: int, consumed: nat)

  function Clamp(v: int, limit: int): int {
    if v >= limit then limit - 1 else if v < -limit then -limit else v
  }

  /** Reads digits from i on into an accumulator, up to the first character that is no digit. */
  function ScanDigits(s: string, i: nat, base: nat, acc: int): Conversion
    requires i <= |s|
    decreases |s| - i
  {
    if i < |s| && IsDigit(s[i], base) then ScanDigits(s, i + 1, base, acc * base + DigitValue(s[i]))
    else Conversion(acc, i)
  }

  /** The digits of `strtol` from j on, where the prefix chooses base 16, 8 or 10; nothing consumed without digits. */
  function ConvertDigits(s: string, j: nat): Conversion
    requires j <= |s|
  {
    var hex := j + 2 < |s| && s[j] == '0' && (s[j + 1] == 'x' || s[j + 1] == 'X') && IsDigit(s[j + 2], 16);
    var base := if hex then 16 else if j < |s| && s[j] == '0' then 8 else 10;
    var first := if hex then j + 2 else j;
    var r := ScanDigits(s, first, base, 0);
    if r.consumed == first then Conversion(0, 0) else r
  }

  predicate MinusAt(s: string, i: nat) {
    i < |s| && s[i] == '-'
  }

  function AfterSign(s: string, i: nat): nat {
    if i < |s| && (s[i] == '+' || s[i] == '-') then i + 1 else i
  }

  /** `strtol(s, &end, 0)` where `long` holds the values from -limit to limit - 1. */
  function Strtol(s: string, limit: int): Conversion {
    var i := SkipSpaces(s, 0);
    var digits := ConvertDigits(s, AfterSign(s, i));
    Conversion(Clamp(if MinusAt(s, i) then 0 - digits.value else digits.value, limit), digits.consumed)
  }

  lemma {:induction false} ScanReads(s: string, first: nat, i: nat, end: nat, base: nat)
    requires first <= i <= end <= |s| && AllDigits(s[first..end], base)
    requires end == |s| || !IsDigit(s[end], base)
    ensures ScanDigits(s, i, base, ValueOf(s[first..i], base)) == Conversion(ValueOf(s[first..end], base), end)
    decreases end - i
  {
    if i < end {
      assert s[i] == s[first..end][i - first];
      assert s[first..i + 1][..i - first] == s[first..i];
      ScanReads(s, first, i + 1, end, base);
    }
  }

  predicate Delimited(rest: string) {
    rest == "" || (!IsDigit(rest[0], 16) && rest[0] != 'x' && rest[0] != 'X')
  }

  /** s[first..end] is a decimal digit string without a leading zero, and what follows does not continue it. */
  predicate NumeralBetween(s: string, first: nat, end: nat) {
    && first < end <= |s|
    && AllDigits(s[first..end], 10)
    && (s[first] == '0' ==> end == first + 1)
    && Delimited(s[end..])
  }

  lemma ConvertDigitsReads(s: string, first: nat, end: nat)
    requires NumeralBetween(s, first, end)
    ensures ConvertDigits(s, first) == Conversion(ValueOf(s[first..end], 10), end)
  {
    assert s[first..end][0] == s[first];
    if end < |s| {
      assert s[end] == s[end..][0];
    }
    if s[first] == '0' {
      ZeroInAnyBase(8);
      ZeroInAnyBase(10);
      assert s[first..end] == "0";
      ScanReads(s, first, first, end, 8);
    } else {
      ScanReads(s, first, first, end, 10);
    }
  }

  lemma ZeroInAnyBase(base: nat)
    requires base >= 2
    ensures AllDigits("0", base) && ValueOf("0", base) == 0
  {
    ValueOfAppend("", '0', base);
    assert "" + ['0'] == "0";
  }

  lemma SkipsBlank(s: string, blanks: nat)
    requires blanks < |s| && blanks <= 1 && !IsSpace(s[blanks])
    requires blanks == 1 ==> s[0] == ' '
    ensures SkipSpaces(s, 0) == blanks
  {
    assert SkipSpaces(s, blanks) == blanks;
  }

  /** What may stand before a number: a blank, a sign, both or neither. */
  predicate IsLead(before: string) {
    before == "" || before == " " || before == "-" || before == " -"
  }

  predicate IsMinus(before: string) {
    before == "-" || before == " -"
  }

  function LeadingBlanks(before: string): nat {
    if before == " " || before == " -" then 1 else 0
  }

  /** The value of a number after its sign. */
  function Signed(before: string, v: int): int {
    if IsMinus(before) then 0 - v else v
  }

  lemma StrtolInParts(s: string, limit: int, i: nat, j: nat, v: int, end: nat, signed: int)
    requires SkipSpaces(s, 0) == i && AfterSign(s, i) == j && signed == (if MinusAt(s, i) then 0 - v else v)
    requires ConvertDigits(s, j) == Conversion(v, end)
    ensures Strtol(s, limit) == Conversion(Clamp(signed, limit), end)
  {
  }

  lemma ConvertDigitsReadsIn(s: string, before: string, n: string, rest: string)
    requires s == before + n + rest
    requires n != "" && AllDigits(n, 10) && (n[0] == '0' ==> n == "0") && Delimited(rest)
    ensures ConvertDigits(s, |before|) == Conversion(ValueOf(n, 10), |before| + |n|)
  {
    assert s[|before|..|before| + |n|] == n && s[|before| + |n|..] == rest;
    assert s[|before|] == n[0];
    ConvertDigitsReads(s, |before|, |before| + |n|);
  }

  lemma PrefixSkipped(s: string, before: string)
    requires IsLead(before) && |before| < |s| && s[..|before|] == before && '0' <= s[|before|] <= '9'
    ensures var i := LeadingBlanks(before);
            SkipSpaces(s, 0) == i && AfterSign(s, i) == |before| && (MinusAt(s, i) <==> IsMinus(before))
  {
    if before != "" {
      assert s[0] == s[..|before|][0];
    }
    if before == " -" {
      assert s[1] == s[..2][1];
    }
    SkipsBlank(s, LeadingBlanks(before));
  }

  lemma PrefixSkippedIn(s: string, before: string, n: string, rest: string)
    requires IsLead(before) && s == before + n + rest && n != "" && AllDigits(n, 10)
    ensures var i := LeadingBlanks(before);
            SkipSpaces(s, 0) == i && AfterSign(s, i) == |before| && (MinusAt(s, i) <==> IsMinus(before))
  {
    assert s[..|before|] == before;
    assert s[|before|] == n[0] && IsDigit(n[0], 10);
    PrefixSkipped(s, before);
  }

  lemma StrtolReadsCanonical(s: string, before: string, n: string, rest: string, limit: int)
    requires IsLead(before) && s == before + n + rest
    requires n != "" && AllDigits(n, 10) && (n[0] == '0' ==> n == "0") && Delimited(rest)
    ensures Strtol(s, limit) == Conversion(Clamp(Signed(before, ValueOf(n, 10)), limit), |before| + |n|)
  {
    var v := ValueOf(n, 10);
    PrefixSkippedIn(s, before, n, rest);
    ConvertDigitsReadsIn(s, before, n, rest);
    StrtolInParts(s, limit, LeadingBlanks(before), |before|, v, |before| + |n|, Signed(before, v));
  }

  /** strtol reads a canonical decimal numeral, after a blank, a sign, both or neither, up to its end. */
  lemma StrtolReadsNumeral(before: string, v: nat, rest: string, limit: int)
    requires IsLead(before) && Delimited(rest)
    ensures Strtol(before + Numeral(v, 10) + rest, limit)
         == Conversion(Clamp(Signed(before, v), limit), |before| + |Numeral(v, 10)|)
  {
    NumeralIsExact(v, 10);
    StrtolReadsCanonical(before + Numeral(v, 10) + rest, before, Numeral(v, 10), rest, limit);
  }

  /** Unpadded decimal text reads back as its value, and to its end, whenever `long` can hold it. */
  lemma DecimalTextReadsBack(v: int, fill: char, limit: int)
    requires -limit <= v < limit
    ensures Strtol(DecimalText(v, 0, fill), limit) == Conversion(v, |DecimalText(v, 0, fill)|)
  {
    if v < 0 {
      StrtolReadsNumeral("-", -v, "", limit);
      assert "-" + Numeral(-v, 10) + "" == DecimalText(v, 0, fill);
    } else {
      StrtolReadsNumeral("", v, "", limit);
      assert "" + Numeral(v, 10) + "" == DecimalText(v, 0, fill);
    }
  }
}
