/** Interface parameters as text: `ParamExtractor` writes a tuple of fields, `ParamParser` reads it back. */
module InterfaceParams {
  import opened Ascii
  import opened Numerals
  import opened TerminalHelpers

  /** One field of a parameter tuple, of a signed or an unsigned type. */
  datatype Field = Field(t: IntType, value: int) {
    function Magnitude(): nat {
      if value < 0 then 0 - value else value
    }
  }

  /** Every field is within its type. */
  predicate ValidFields(fields: seq<Field>) {
    forall i | 0 <= i < |fields| :: ValidField(fields[i])
  }

  predicate ValidField(f: Field) {
    f.t.Valid() && f.t.Holds(f.value)
  }

  function Prefix(later: bool): string {
    if later then " " else ""
  }

  /** What stands before the digits of a field. */
  function Lead(f: Field, later: bool): string {
    if f.value < 0 then (if later then " -" else "-") else Prefix(later)
  }

  function FieldText(f: Field, later: bool): string {
    Lead(f, later) + Numeral(f.Magnitude(), 10)
  }

  /** The text of a tuple: numbers separated by one blank, closed by CR LF. */
  function TupleText(fields: seq<Field>, later: bool): string {
    if fields == [] then "\r\n" else FieldText(fields[0], later) + TupleText(fields[1..], true)
  }

  /** Room for the fields: each one asks for the longest text of its type before it is written. */
  predicate HasRoom(fields: seq<Field>, later: bool, length: int)
    requires ValidFields(fields)
  {
    if fields == [] then length >= 2
    else
      var f := fields[0];
      && |Prefix(later)| + f.t.SerializedValueLength() <= length
      && HasRoom(fields[1..], true, length - |FieldText(f, later)|)
  }

  /** The text of one field, and the room that it needs. */
  lemma OneField(f: Field, length: int)
    requires ValidField(f)
    ensures TupleText([f], false) == DecimalText(f.value, 0, ' ') + "\r\n"
    ensures HasRoom([f], false, length) <==>
            f.t.SerializedValueLength() <= length && |DecimalText(f.value, 0, ' ')| + 2 <= length
  {
    FieldTextIs(f, false);
    assert [f][1..] == [] && FieldText(f, false) == DecimalText(f.value, 0, ' ');
    assert HasRoom([f][1..], true, length - |FieldText(f, false)|) <==> length - |FieldText(f, false)| >= 2;
  }

  /** The text of two fields, and the room that they need. */
  lemma TwoFields(f: Field, g: Field, length: int)
    requires ValidField(f) && ValidField(g)
    ensures TupleText([f, g], false) == DecimalText(f.value, 0, ' ') + (" " + DecimalText(g.value, 0, ' ') + "\r\n")
    ensures HasRoom([f, g], false, length) <==>
            && f.t.SerializedValueLength() <= length
            && |DecimalText(f.value, 0, ' ')| + 1 + g.t.SerializedValueLength() <= length
            && |TupleText([f, g], false)| <= length
  {
    FieldTextIs(f, false);
    FieldTextIs(g, true);
    assert [f, g][1..] == [g] && [g][1..] == [] && FieldText(f, false) == DecimalText(f.value, 0, ' ');
    assert TupleText([g], true) == " " + DecimalText(g.value, 0, ' ') + "\r\n";
    var left := length - |FieldText(f, false)|;
    assert HasRoom([f, g], false, length) <==> f.t.SerializedValueLength() <= length && HasRoom([g], true, left);
    assert HasRoom([g], true, left) <==>
           1 + g.t.SerializedValueLength() <= left && HasRoom([g][1..], true, left - |FieldText(g, true)|);
  }

  /** `ParamExtractor::serialize`: the number of characters written, or 0 when the room does not suffice. */
  method Serialize(fields: seq<Field>, later: bool, output: array<char>, start: nat, length: nat) returns (count: nat)
    requires ValidFields(fields) && start + length <= output.Length
    modifies output
    ensures OnlyChanged(output, start, start + length)
    ensures count == if HasRoom(fields, later, length) then |TupleText(fields, later)| else 0
    ensures count > 0 ==> count <= length && SpelledAt(output, start, TupleText(fields, later))
    decreases fields
  {
    if fields == [] {
      count := WriteEnd(output, start, length);
      return;
    }
    var f := fields[0];
    var prefix := |Prefix(later)|;
    if prefix + f.t.SerializedValueLength() > length {
      return 0;
    }
    var chunkEnd := WriteField(f, later, output, start);
    var next := Serialize(fields[1..], true, output, chunkEnd, length - (chunkEnd - start));
    if next > 0 {
      SpelledBoth(output, start, FieldText(f, later), TupleText(fields[1..], true));
    }
    count := if next > 0 then chunkEnd - start + next else 0;
  }

  lemma SpelledBoth(a: array<char>, start: nat, first: string, second: string)
    requires SpelledAt(a, start, first) && SpelledAt(a, start + |first|, second)
    ensures SpelledAt(a, start, first + second)
  {
  }

  method WriteEnd(output: array<char>, start: nat, length: nat) returns (count: nat)
    requires start + length <= output.Length
    modifies output
    ensures OnlyChanged(output, start, start + length)
    ensures count == if length >= 2 then 2 else 0
    ensures count > 0 ==> SpelledAt(output, start, "\r\n")
  {
    if length >= 2 {
      output[start] := '\r';
      output[start + 1] := '\n';
      return 2;
    }
    return 0;
  }

  method WriteField(f: Field, later: bool, output: array<char>, start: nat) returns (chunkEnd: nat)
    requires ValidField(f) && start + |Prefix(later)| + f.t.SerializedValueLength() <= output.Length
    modifies output
    ensures OnlyChanged(output, start, start + |Prefix(later)| + f.t.SerializedValueLength())
    ensures chunkEnd == start + |FieldText(f, later)| <= output.Length
    ensures chunkEnd < start + |Prefix(later)| + f.t.SerializedValueLength()
    ensures SpelledAt(output, start, FieldText(f, later))
  {
    if later {
      output[start] := ' ';
    }
    DecimalTextFits(f.t, f.value, 0, ' ');
    FieldTextIs(f, later);
    chunkEnd := Int2Str(f.t, output, start + |Prefix(later)|, f.value, 0, DEC, ' ');
    ghost var text := DecimalText(f.value, 0, ' ');
    assert forall k | start <= k < chunkEnd :: output[k] == (Prefix(later) + text)[k - start];
  }

  lemma FieldTextIs(f: Field, later: bool)
    ensures FieldText(f, later) == Prefix(later) + DecimalText(f.value, 0, ' ')
    ensures |DecimalText(f.value, 0, ' ')| == |Numeral(f.Magnitude(), 10)| + if f.value < 0 then 1 else 0
  {
  }

  /** `ParamParser::parse`: the values of the fields and the total number of characters converted. */
  function Parse(types: seq<IntType>, text: string, limit: int): (r: (seq<int>, nat))
    requires forall t <- types :: t.Valid()
    ensures |r.0| == |types|
  {
    if types == [] then ([], 0)
    else
      var c := Str2Int(types[0], text, limit);
      ConvertedInText(types[0], text, limit);
      var rest := Parse(types[1..], text[c.consumed..], limit);
      ([c.value] + rest.0, c.consumed + rest.1)
  }

  lemma {:induction false} ScanStays(s: string, i: nat, base: nat, acc: int)
    requires i <= |s|
    ensures i <= ScanDigits(s, i, base, acc).consumed <= |s|
    decreases |s| - i
  {
    if i < |s| && IsDigit(s[i], base) {
      ScanStays(s, i + 1, base, acc * base + DigitValue(s[i]));
    }
  }

  lemma ConvertedInText(t: IntType, text: string, limit: int)
    requires t.Valid()
    ensures Str2Int(t, text, limit).consumed <= |text|
  {
    var chunk := CString(Cut(text, t.SerializedValueLength() - 1));
    forall j, base, acc | 0 <= j <= |chunk|
      ensures ScanDigits(chunk, j, base, acc).consumed <= |chunk|
    {
      ScanStays(chunk, j, base, acc);
    }
  }

  function Types(fields: seq<Field>): seq<IntType> {
    if fields == [] then [] else [fields[0].t] + Types(fields[1..])
  }

  function Values(fields: seq<Field>): seq<int> {
    if fields == [] then [] else [fields[0].value] + Values(fields[1..])
  }

  lemma {:induction false} TypesValid(fields: seq<Field>)
    requires ValidFields(fields)
    ensures forall t <- Types(fields) :: t.Valid()
  {
    if fields != [] {
      TypesValid(fields[1..]);
    }
  }

  /**
   What a caller can check beforehand: the value fits `long`, and its digits fit the chunk, where a blank or a sign may
   take the place of one.
   */
  predicate Readable(f: Field, later: bool, limit: int)
    requires f.t.Valid()
  {
    && -limit <= f.value < limit
    && (|Lead(f, later)| > (if f.t.signed then 1 else 0) ==> f.Magnitude() < Pow(10, f.t.Digits10()))
  }

  predicate AllReadable(fields: seq<Field>, later: bool, limit: int)
    requires ValidFields(fields)
  {
    fields == [] || (Readable(fields[0], later, limit) && AllReadable(fields[1..], true, limit))
  }

  lemma {:induction false} TupleTextHasNoNul(fields: seq<Field>, later: bool)
    ensures NUL !in TupleText(fields, later)
    ensures later || fields == [] ==> Delimited(TupleText(fields, later))
  {
    if fields != [] {
      TupleTextHasNoNul(fields[1..], true);
      NumeralIsExact(fields[0].Magnitude(), 10);
    }
  }

  /** What `str2int` reads of a text that starts with a field: all of it, or what its buffer has room for. */
  lemma FieldReads(f: Field, later: bool, rest: string, limit: int)
    requires ValidField(f) && limit > 0 && Delimited(rest) && NUL !in rest
    ensures var c := Str2Int(f.t, FieldText(f, later) + rest, limit);
            && (c.value == f.value <==> Readable(f, later, limit))
            && (Readable(f, later, limit) ==> c.consumed == |FieldText(f, later)|)
  {
    var digits, m := f.t.Digits10(), f.Magnitude();
    NumeralFitsDigits(f.t, m);
    BoundIsPositive(f.t);
    if |Lead(f, later)| > (if f.t.signed then 1 else 0) && m >= Pow(10, digits) {
      CutFieldReads(f, later, rest, limit);
    } else {
      if m < Pow(10, digits) {
        NumeralLength(m, digits);
      }
      WholeFieldReads(f, later, rest, limit);
    }
  }

  /** The field fits the chunk: its value is read, clamped to `long`. */
  lemma WholeFieldReads(f: Field, later: bool, rest: string, limit: int)
    requires ValidField(f) && limit > 0 && Delimited(rest) && NUL !in rest
    requires |FieldText(f, later)| < f.t.SerializedValueLength()
    ensures Str2Int(f.t, FieldText(f, later) + rest, limit) == Conversion(Clamp(f.value, limit), |FieldText(f, later)|)
  {
    var head := FieldText(f, later);
    var cut := Cut(rest, f.t.SerializedValueLength() - 1 - |head|);
    WholeChunk(f, later, rest);
    StrtolReadsNumeral(Lead(f, later), f.Magnitude(), cut, limit);
    ValueIsHeld(f, later, limit);
    ChunkReads(f.t, head + rest, head + cut, Conversion(Clamp(f.value, limit), |head|), limit);
  }

  lemma ValueIsHeld(f: Field, later: bool, limit: int)
    requires ValidField(f) && limit > 0
    ensures Signed(Lead(f, later), f.Magnitude()) == f.value && f.t.Holds(Clamp(f.value, limit))
  {
    BoundIsPositive(f.t);
  }

  lemma ChunkReads(t: IntType, text: string, chunk: string, c: Conversion, limit: int)
    requires t.Valid() && t.Holds(c.value)
    requires CString(Cut(text, t.SerializedValueLength() - 1)) == chunk && Strtol(chunk, limit) == c
    ensures Str2Int(t, text, limit) == c
  {
    CastKeepsHeldValues(t, c.value);
  }

  lemma FieldHasNoNul(f: Field, later: bool)
    ensures NUL !in FieldText(f, later)
  {
    NumeralIsExact(f.Magnitude(), 10);
  }

  /** The chunk begins with the whole field. */
  lemma WholeChunk(f: Field, later: bool, rest: string)
    requires f.t.Valid() && NUL !in rest && |FieldText(f, later)| < f.t.SerializedValueLength()
    ensures var head, room := FieldText(f, later), f.t.SerializedValueLength() - 1;
            CString(Cut(head + rest, room)) == head + Cut(rest, room - |head|)
  {
    var head, room := FieldText(f, later), f.t.SerializedValueLength() - 1;
    CutAfter(head, rest, room);
    FieldHasNoNul(f, later);
    CStringWithoutNul(head + Cut(rest, room - |head|));
  }

  lemma CutAfter(head: string, rest: string, room: nat)
    requires |head| <= room
    ensures Cut(head + rest, room) == head + Cut(rest, room - |head|)
  {
  }

  /** The field is one digit too long for the chunk: it is read without its last digit, which changes its value. */
  lemma CutFieldReads(f: Field, later: bool, rest: string, limit: int)
    requires ValidField(f) && limit > 0 && f.Magnitude() >= Pow(10, f.t.Digits10())
    requires |Lead(f, later)| > if f.t.signed then 1 else 0
    ensures var v := Clamp(Signed(Lead(f, later), f.Magnitude() / 10), limit);
            Str2Int(f.t, FieldText(f, later) + rest, limit).value == v != f.value
  {
    var m, lead := f.Magnitude(), Lead(f, later);
    var chunk := lead + Numeral(m / 10, 10) + "";
    CutChunk(f, later, rest);
    CutIsOther(f, later, limit);
    CutHasNoNul(lead, m / 10);
    StrtolReadsNumeral(lead, m / 10, "", limit);
    ChunkReads(f.t, FieldText(f, later) + rest, chunk,
               Conversion(Clamp(Signed(lead, m / 10), limit), |lead| + |Numeral(m / 10, 10)|), limit);
  }

  lemma CutIsOther(f: Field, later: bool, limit: int)
    requires ValidField(f) && limit > 0 && f.Magnitude() >= 1
    ensures var v := Clamp(Signed(Lead(f, later), f.Magnitude() / 10), limit);
            f.t.Holds(v) && v != f.value
  {
    BoundIsPositive(f.t);
  }

  lemma CutChunk(f: Field, later: bool, rest: string)
    requires ValidField(f) && f.Magnitude() >= Pow(10, f.t.Digits10())
    requires |Lead(f, later)| > if f.t.signed then 1 else 0
    ensures Cut(FieldText(f, later) + rest, f.t.SerializedValueLength() - 1)
         == Lead(f, later) + Numeral(f.Magnitude() / 10, 10) + ""
    ensures f.Magnitude() >= 1
  {
    var digits, m, lead := f.t.Digits10(), f.Magnitude(), Lead(f, later);
    BoundIsPositive(f.t);
    NumeralFitsDigits(f.t, m);
    NumeralLength(m, digits);
    PowPositive(digits);
    NumeralStep(m, 10);
    var n, room := Numeral(m, 10), f.t.SerializedValueLength() - 1;
    assert |n| == digits + 1 && room == |lead| + |n| - 1;
    CutInside(lead, n, rest);
  }

  lemma CutInside(lead: string, n: string, rest: string)
    requires n != ""
    ensures Cut(lead + n + rest, |lead| + |n| - 1) == lead + n[..|n| - 1] + ""
  {
  }

  lemma CutHasNoNul(lead: string, v: nat)
    requires IsLead(lead)
    ensures CString(lead + Numeral(v, 10) + "") == lead + Numeral(v, 10) + ""
  {
    NumeralIsExact(v, 10);
    CStringWithoutNul(lead + Numeral(v, 10) + "");
  }

  /**
   Reading a tuple's own text gives the tuple back exactly when every field is readable, and then converts
   everything but the closing CR LF.
   */
  lemma {:induction false} TupleRoundTrip(fields: seq<Field>, later: bool, limit: int)
    requires ValidFields(fields) && limit > 0
    ensures forall t <- Types(fields) :: t.Valid()
    ensures var r := Parse(Types(fields), TupleText(fields, later), limit);
            && (r.0 == Values(fields) <==> AllReadable(fields, later, limit))
            && (AllReadable(fields, later, limit) ==> r.1 == |TupleText(fields, later)| - 2)
    decreases fields
  {
    TypesValid(fields);
    if fields != [] {
      var f, rest := fields[0], TupleText(fields[1..], true);
      TupleTextHasNoNul(fields[1..], true);
      FieldReads(f, later, rest, limit);
      var text := FieldText(f, later) + rest;
      var c := Str2Int(f.t, text, limit);
      assert Types(fields)[1..] == Types(fields[1..]);
      assert Values(fields)[1..] == Values(fields[1..]);
      if Readable(f, later, limit) {
        assert text[c.consumed..] == rest;
        TupleRoundTrip(fields[1..], true, limit);
      } else {
        assert Parse(Types(fields), text, limit).0[0] == c.value;
      }
    }
  }
}
