/** Number printing in a character buffer; a C pointer is an array and an index into it. */
module TerminalHelpers {
  import opened Ascii
  import opened Extremes
  import opened Numerals

  datatype Format = DEC | HEX

  /** Everything outside a[start..end] is as it was. */
  twostate predicate OnlyChanged(a: array<char>, start: nat, end: nat)
    reads a
  {
    forall k | 0 <= k < a.Length && !(start <= k < end) :: a[k] == old(a[k])
  }

  /** The text is at the given index. */
  predicate SpelledAt(a: array<char>, start: nat, text: string)
    reads a
  {
    && start + |text| <= a.Length
    && forall k | start <= k < start + |text| :: a[k] == text[k - start]
  }

  /** The text is at the given index, followed by its terminator. */
  predicate TextAt(a: array<char>, start: nat, text: string)
    reads a
  {
    SpelledAt(a, start, text) && start + |text| < a.Length && a[start + |text|] == NUL
  }

  /** a[start..output] holds the last digits of a numeral, the last one first. */
  predicate LastDigitsAt(a: array<char>, start: nat, output: nat, digits: string)
    requires start <= output <= start + |digits| && output <= a.Length
    reads a
  {
    forall k | start <= k < output :: a[k] == digits[|digits| - 1 - (k - start)]
  }

  /** One turn of a digit loop: the last digit, and the numeral of the quotient before it. */
  lemma NumeralStep(v: nat, base: nat)
    requires 2 <= base <= 16
    ensures var s := Numeral(v, base);
            && s[|s| - 1] == DigitChar(v % base)
            && (if v / base == 0 then |s| == 1 else s[..|s| - 1] == Numeral(v / base, base) && v / base < v)
  {
    if v >= base {
      QuotientIsSmaller(v, base);
    } else {
      QuotientIsUnique(0, v, v / base, v % base, base);
    }
  }

  method Reverse(a: array<char>, first: int, last: int)
    requires 0 <= first && last < a.Length && last >= first - 1
    modifies a
    ensures forall k | first <= k <= last :: a[k] == old(a[first + last - k])
    ensures OnlyChanged(a, first, last + 1)
  {
    var i, j := first, last;
    while i < j
      invariant first <= i && i <= j + 2 && j <= last && i + j == first + last
      invariant forall k | first <= k < i :: a[k] == old(a[first + last - k])
      invariant forall k | j < k <= last :: a[k] == old(a[first + last - k])
      invariant forall k | i <= k <= j :: a[k] == old(a[k])
      invariant OnlyChanged(a, first, last + 1)
    {
      var tmp := a[i];
      a[i] := a[j];
      a[j] := tmp;
      i := i + 1;
      j := j - 1;
    }
  }

  /** Moves `length` characters from `first` on right by some offset, the last one first. */
  method MoveRight(a: array<char>, first: nat, length: nat, offset: nat)
    requires first + length + offset <= a.Length
    modifies a
    ensures forall k | first + offset <= k < first + offset + length :: a[k] == old(a[k - offset])
    ensures OnlyChanged(a, first + offset, first + offset + length)
  {
    var left := length;
    while left > 0
      invariant 0 <= left <= length
      invariant forall k | first + left + offset <= k < first + offset + length :: a[k] == old(a[k - offset])
      invariant OnlyChanged(a, first + left + offset, first + offset + length)
    {
      left := left - 1;
      a[first + left + offset] := a[first + left];
    }
  }

  method FillFrom(a: array<char>, first: nat, count: nat, fill: char)
    requires first + count <= a.Length
    modifies a
    ensures forall k | first <= k < first + count :: a[k] == fill
    ensures OnlyChanged(a, first, first + count)
  {
    var offset := count;
    while offset > 0
      invariant 0 <= offset <= count
      invariant forall k | first + offset <= k < first + count :: a[k] == fill
      invariant OnlyChanged(a, first, first + count)
    {
      offset := offset - 1;
      a[first + offset] := fill;
    }
  }

  /** Moves a terminated text right to make it `width` characters long. */
  method Prepend(a: array<char>, first: nat, ghost text: string, length: nat, width: nat, fill: char)
    requires TextAt(a, first, text) && length == |text| && first + width < a.Length
    modifies a
    ensures TextAt(a, first, Padded(text, width, fill))
    ensures OnlyChanged(a, first, first + Max(length, width) + 1)
  {
    if length < width {
      ghost var terminated := text + [NUL];
      assert SpelledAt(a, first, terminated);
      MoveSpelled(a, first, terminated, length + 1, width - length);
      FillFrom(a, first, width - length, fill);
      assert forall k | first + (width - length) <= k <= first + width ::
          a[k] == terminated[k - (first + (width - length))];
    }
  }

  /** Moves a text right by some offset. */
  method MoveSpelled(a: array<char>, first: nat, ghost text: string, length: nat, offset: nat)
    requires SpelledAt(a, first, text) && length == |text| && first + length + offset <= a.Length
    modifies a
    ensures SpelledAt(a, first + offset, text)
    ensures OnlyChanged(a, first + offset, first + offset + length)
  {
    MoveRight(a, first, length, offset);
    forall k | first + offset <= k < first + offset + length
      ensures a[k] == text[k - (first + offset)]
    {
      assert a[k] == old(a[k - offset]);
    }
  }

  /** The common end of both printers: digits written last one first become padded, terminated text. */
  method Finish(a: array<char>, start: nat, ghost digits: string, output: nat, width: nat, fill: char)
    requires output == start + |digits| && start + Max(|digits|, width) < a.Length
    requires digits != "" && LastDigitsAt(a, start, output, digits)
    modifies a
    ensures TextAt(a, start, Padded(digits, width, fill))
    ensures OnlyChanged(a, start, start + Max(|digits|, width) + 1)
  {
    a[output] := NUL;
    Reverse(a, start, output - 1);
    Prepend(a, start, digits, output - start, width, fill);
  }

  method Uint2Dec(a: array<char>, start: nat, value: nat, width: nat, fill: char) returns (output: nat)
    requires start + Max(|Numeral(value, 10)|, width) < a.Length
    modifies a
    ensures TextAt(a, start, Padded(Numeral(value, 10), width, fill))
    ensures OnlyChanged(a, start, start + Max(|Numeral(value, 10)|, width) + 1)
    ensures output == start + |Numeral(value, 10)|
  {
    ghost var digits := Numeral(value, 10);
    output := start;
    var rest := value;
    while true
      invariant start <= output && output - start < |digits|
      invariant Numeral(rest, 10) == digits[..|digits| - (output - start)]
      invariant LastDigitsAt(a, start, output, digits)
      invariant OnlyChanged(a, start, output)
      decreases rest
    {
      var quotient := rest / 10;
      var remainder := rest - quotient * 10;
      NumeralStep(rest, 10);
      a[output] := (remainder + '0' as int) as char;
      assert a[output] == DigitChar(remainder);
      output := output + 1;
      rest := quotient;
      if rest == 0 {
        break;
      }
    }
    Finish(a, start, digits, output, width, fill);
  }

  /** `int2dec` for a value of the given type; the returned pointer is past the digits before padding. */
  method Int2Dec(t: IntType, a: array<char>, start: nat, value: int, width: nat, fill: char) returns (output: nat)
    requires t.Valid() && t.Holds(value)
    requires start + |DecimalText(value, width, fill)| < a.Length
    modifies a
    ensures TextAt(a, start, DecimalText(value, width, fill))
    ensures OnlyChanged(a, start, start + |DecimalText(value, width, fill)| + 1)
    ensures output == start + (if value < 0 then 1 + |Numeral(0 - value, 10)| else |Numeral(value, 10)|)
  {
    var first, v, w := start, value, width;
    if t.signed && value < 0 {
      a[start] := '-';
      first := start + 1;
      if value != 0 - t.Bound() {
        v := 0 - value;
      }
      if w > 0 {
        w := w - 1;
      }
    }
    MagnitudeOf(t, value);
    output := Uint2Dec(a, first, IntType(false, t.bits).Cast(v), w, fill);
    if value < 0 {
      TextAtPrepend(a, start, '-', Padded(Numeral(0 - value, 10), w, fill));
    }
  }

  lemma TextAtPrepend(a: array<char>, start: nat, c: char, tail: string)
    requires TextAt(a, start + 1, tail) && a[start] == c
    ensures TextAt(a, start, [c] + tail)
  {
  }

  /** The cast to the unsigned type gives the absolute value, the signed minimum included. */
  lemma MagnitudeOf(t: IntType, value: int)
    requires t.Valid() && t.Holds(value)
    ensures var v := if value < 0 && value != 0 - t.Bound() then 0 - value else value;
            IntType(false, t.bits).Cast(v) == if value < 0 then 0 - value else value
  {
    BoundIsPositive(t);
    var u := IntType(false, t.bits);
    if value == 0 - t.Bound() {
      ModOfNegative(value, Pow(2, t.bits));
    } else {
      CastKeepsHeldValues(u, if value < 0 then 0 - value else value);
    }
  }

  method HexDigit(part: nat) returns (c: char)
    requires part < 16
    ensures c == DigitChar(part)
  {
    c := if part < 10 then (part + '0' as int) as char else (part - 10 + 'A' as int) as char;
  }

  lemma LowNibble(v: nat)
    ensures v % 256 % 16 == v % 16
  {
    var m := v % 256;
    assert v == (v / 256 * 16 + m / 16) * 16 + m % 16;
    QuotientIsUnique(v / 16, v % 16, v / 256 * 16 + m / 16, m % 16, 16);
  }

  method Int2Hex(a: array<char>, start: nat, value: nat, width: nat, fill: char) returns (output: nat)
    requires start + Max(|Numeral(value, 16)|, width) < a.Length
    modifies a
    ensures TextAt(a, start, Padded(Numeral(value, 16), width, fill))
    ensures OnlyChanged(a, start, start + Max(|Numeral(value, 16)|, width) + 1)
    ensures output == start + |Numeral(value, 16)|
  {
    ghost var digits := Numeral(value, 16);
    output := start;
    var rest := value;
    while true
      invariant start <= output && output - start < |digits|
      invariant Numeral(rest, 16) == digits[..|digits| - (output - start)]
      invariant LastDigitsAt(a, start, output, digits)
      invariant OnlyChanged(a, start, output)
      decreases rest
    {
      var part := rest % 256 % 16;
      LowNibble(rest);
      NumeralStep(rest, 16);
      var digit := HexDigit(part);
      a[output] := digit;
      output := output + 1;
      rest := rest / 16;
      if rest == 0 {
        break;
      }
    }
    Finish(a, start, digits, output, width, fill);
  }

  /** A value after k turns of the hexadecimal loop: each shifts it right by four bits, and keeps its sign. */
  function Shifted(value: int, k: nat): int
    decreases k
  {
    if k == 0 then value else Shifted(value / 16, k - 1)
  }

  lemma {:induction false} ShiftedToZero(value: nat) returns (k: nat)
    ensures k > 0 && Shifted(value, k) == 0
    decreases value
  {
    if value < 16 {
      k := 1;
      assert Shifted(value / 16, 0) == 0;
    } else {
      k := ShiftedToZero(value / 16);
      k := k + 1;
    }
  }

  lemma {:induction false} ShiftedStaysNegative(value: int, k: nat)
    requires value < 0
    ensures Shifted(value, k) < 0
    decreases k
  {
    if k > 0 {
      ShiftedStaysNegative(value / 16, k - 1);
    }
  }

  /** The hexadecimal loop ends if and only if the value is not negative. */
  lemma HexLoopEndsWhen(value: int)
    ensures (exists k: nat :: k > 0 && Shifted(value, k) == 0) <==> value >= 0
  {
    if value >= 0 {
      var k := ShiftedToZero(value);
    } else {
      forall k: nat
        ensures Shifted(value, k) < 0
      {
        ShiftedStaysNegative(value, k);
      }
    }
  }

  /** `int2str` of a value in the given format; hexadecimal output is for values that are not negative. */
  method Int2Str(t: IntType, a: array<char>, start: nat, value: int, width: nat, format: Format, fill: char)
    returns (output: nat)
    requires t.Valid() && t.Holds(value) && (format == HEX ==> value >= 0)
    requires start + |Text(value, width, format, fill)| < a.Length
    modifies a
    ensures TextAt(a, start, Text(value, width, format, fill))
    ensures OnlyChanged(a, start, start + |Text(value, width, format, fill)| + 1)
    ensures output == start + |Text(value, 0, format, fill)|
  {
    assert format == DEC ==> |Text(value, 0, format, fill)| == |DecimalText(value, 0, fill)|;
    if format == HEX {
      output := Int2Hex(a, start, value, width, fill);
    } else {
      output := Int2Dec(t, a, start, value, width, fill);
    }
  }

  function Text(value: int, width: nat, format: Format, fill: char): string {
    if format == HEX && value >= 0 then Padded(Numeral(value, 16), width, fill) else DecimalText(value, width, fill)
  }

  /** Decimal text is in base 10, hexadecimal text in base 16. */
  lemma FormatsRead(value: nat)
    ensures ValueOf(Text(value, 0, DEC, ' '), 10) == value && AllDigits(Text(value, 0, DEC, ' '), 10)
    ensures ValueOf(Text(value, 0, HEX, ' '), 16) == value && AllDigits(Text(value, 0, HEX, ' '), 16)
    ensures value > 0 ==> Text(0 - value, 0, DEC, ' ') == "-" + Text(value, 0, DEC, ' ')
  {
    NumeralIsExact(value, 10);
    NumeralIsExact(value, 16);
  }

  /** Padding never changes the number read back: zero-filled text has the value it was printed from. */
  lemma {:induction false} PaddingKeepsValue(s: string, n: nat, base: nat)
    requires 2 <= base <= 16 && AllDigits(s, base)
    ensures AllDigits(Fill(n, '0') + s, base)
    ensures ValueOf(Fill(n, '0') + s, base) == ValueOf(s, base)
    decreases |s|, n
  {
    var z := Fill(n, '0');
    if s != "" {
      var t, c := s[..|s| - 1], s[|s| - 1];
      PaddingKeepsValue(t, n, base);
      ValueOfAppend(z + t, c, base);
      assert z + t + [c] == z + s;
    } else if n > 0 {
      PaddingKeepsValue("", n - 1, base);
      ValueOfAppend(Fill(n - 1, '0') + "", '0', base);
      assert Fill(n - 1, '0') + "" + ['0'] == z + "";
    }
  }

  /** With zeros for the fill, the digits of a printed value stand for its magnitude. */
  lemma ZeroFilledReads(v: int, width: nat)
    ensures var t := DecimalText(v, width, '0');
            var digits := if v < 0 then t[1..] else t;
            AllDigits(digits, 10) && ValueOf(digits, 10) == if v < 0 then 0 - v else v
  {
    var m, t := if v < 0 then 0 - v else v, DecimalText(v, width, '0');
    var n, digits := Numeral(m, 10), if v < 0 then t[1..] else t;
    NumeralIsExact(m, 10);
    DecimalTextIs(v, width, '0');
    var gap := |digits| - |n|;
    assert digits == Fill(gap, '0') + n;
    PaddingKeepsValue(n, gap, 10);
  }

  /** Prefixes choose the base: hexadecimal after 0x, octal after 0. */
  lemma PrefixesChooseBase(v: nat, limit: int)
    ensures Strtol("0x" + Numeral(v, 16), limit) == Conversion(Clamp(v, limit), 2 + |Numeral(v, 16)|)
    ensures Strtol("0" + Numeral(v, 8), limit) == Conversion(Clamp(v, limit), 1 + |Numeral(v, 8)|)
  {
    HexIsRead(v, limit);
    OctalIsRead(v, limit);
  }

  lemma HexIsRead(v: nat, limit: int)
    ensures Strtol("0x" + Numeral(v, 16), limit) == Conversion(Clamp(v, limit), 2 + |Numeral(v, 16)|)
  {
    var n := Numeral(v, 16);
    var s := "0x" + n;
    NumeralIsExact(v, 16);
    assert s[2] == n[0] && IsDigit(n[0], 16) && s[2..|s|] == n && s[2..2] == "";
    ScanReads(s, 2, 2, |s|, 16);
    assert ConvertDigits(s, 0) == Conversion(v, |s|);
    StrtolInParts(s, limit, 0, 0, v, |s|, v);
  }

  lemma OctalIsRead(v: nat, limit: int)
    ensures Strtol("0" + Numeral(v, 8), limit) == Conversion(Clamp(v, limit), 1 + |Numeral(v, 8)|)
  {
    var n := Numeral(v, 8);
    var s := "0" + n;
    NumeralIsExact(v, 8);
    PaddingKeepsValue(n, 1, 8);
    assert Fill(1, '0') + n == s && s[0..|s|] == s && s[0..0] == "";
    assert s[1] == n[0] && IsDigit(n[0], 8);
    ScanReads(s, 0, 0, |s|, 8);
    assert ConvertDigits(s, 0) == Conversion(v, |s|);
    StrtolInParts(s, limit, 0, 0, v, |s|, v);
  }

  /** `str2int<T>`: the chunk that fits the buffer of T, up to a terminator, read by `strtol` and cast to T. */
  function Str2Int(t: IntType, text: string, limit: int): Conversion
    requires t.Valid()
  {
    var c := Strtol(CString(Cut(text, t.SerializedValueLength() - 1)), limit);
    Conversion(t.Cast(c.value), c.consumed)
  }

  function Cut(s: string, room: nat): string {
    if room < |s| then s[..room] else s
  }

  /** The C string in a buffer: everything before its first terminator. */
  function CString(s: string): (r: string)
    ensures |r| <= |s| && r == s[..|r|] && NUL !in r
    ensures |r| < |s| ==> s[|r|] == NUL
  {
    if s == "" || s[0] == NUL then "" else [s[0]] + CString(s[1..])
  }

  lemma {:induction false} CStringWithoutNul(s: string)
    requires NUL !in s
    ensures CString(s) == s
  {
  }

  /** Every value of a type prints to text that its own parser reads back, when `long` can hold the value. */
  lemma PrintedValueReadsBack(t: IntType, v: int, limit: int)
    requires t.Valid() && t.Holds(v) && -limit <= v < limit
    ensures Str2Int(t, DecimalText(v, 0, ' '), limit) == Conversion(v, |DecimalText(v, 0, ' ')|)
  {
    var text := DecimalText(v, 0, ' ');
    DecimalTextFits(t, v, 0, ' ');
    NumeralIsExact(if v < 0 then -v else v, 10);
    CStringWithoutNul(text);
    DecimalTextReadsBack(v, ' ', limit);
    CastKeepsHeldValues(t, v);
  }
}
