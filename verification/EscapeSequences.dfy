/** `EscapeSeqParser`: a recogniser of control sequences (section 5.4 of ECMA-48) in the typed input. */
module EscapeSequences {
  import opened Ascii
  const MAX_SEQUENCE_LENGTH := 16

  datatype Status = COMPLETED | CONSUMED | DISCARDED

  datatype Event = UNDEFINED | UP | DOWN | RIGHT | LEFT | DEL

  /** Where the recogniser is: at rest, after ESC, or after CSI with the bytes collected since. */
  datatype Recogniser = Rest | Escape | Sequence(bytes: string) {
    predicate Valid() {
      Sequence? ==> |bytes| <= MAX_SEQUENCE_LENGTH - 2
    }
  }

  /** A parameter or intermediate byte. */
  predicate IsParameter(c: char) {
    ' ' <= c <= '?'
  }

  predicate AllParameters(p: string) {
    forall i | 0 <= i < |p| :: IsParameter(p[i])
  }

  predicate IsFinal(c: char) {
    '@' <= c <= '~'
  }

  /** The event of a complete sequence, its final byte last. */
  function EventOf(s: string): Event
    requires s != ""
  {
    match s[|s| - 1]
    case 'A' => UP
    case 'B' => DOWN
    case 'C' => RIGHT
    case 'D' => LEFT
    case '~' => if |s| >= 2 && s[|s| - 2] == '3' then DEL else UNDEFINED
    case _ => UNDEFINED
  }

  datatype Outcome = Outcome(state: Recogniser, status: Status, event: Event)

  /** One byte. */
  function Step(r: Recogniser, c: char): (o: Outcome)
    ensures r.Valid() ==> o.state.Valid()
  {
    if r.Rest? && c == ESC then Outcome(Escape, CONSUMED, UNDEFINED)
    else if r.Escape? && c == '[' then Outcome(Sequence(""), CONSUMED, UNDEFINED)
    else if r.Sequence? && IsParameter(c) && |r.bytes| < MAX_SEQUENCE_LENGTH - 2 then
      Outcome(Sequence(r.bytes + [c]), CONSUMED, UNDEFINED)
    else if r.Sequence? && IsFinal(c) then Outcome(Rest, COMPLETED, EventOf(r.bytes + [c]))
    else Outcome(Rest, DISCARDED, UNDEFINED)
  }

  class EscapeSeqParser {
    const sequence: array<char>
    var length: nat
    var state: char

    ghost predicate Valid()
      reads this, sequence
    {
      && sequence.Length == MAX_SEQUENCE_LENGTH
      && (state == '\0' || state == ESC || state == '[')
      && (state == '[' ==> length <= MAX_SEQUENCE_LENGTH - 2)
      && (state == ESC ==> length == 0)
      && length < MAX_SEQUENCE_LENGTH
    }

    ghost function View(): (r: Recogniser)
      requires Valid()
      reads this, sequence
      ensures r.Valid()
    {
      if state == '\0' then Rest else if state == ESC then Escape else Sequence(sequence[..length])
    }

    constructor ()
      ensures Valid() && View() == Rest && fresh(sequence)
    {
      sequence := new char[MAX_SEQUENCE_LENGTH];
      length, state := 0, '\0';
    }

    /** The event of the sequence that was completed last. */
    function LastEvent(): (e: Event)
      requires Valid() && length >= 1
      reads this, sequence
      ensures e == EventOf(sequence[..length])
    {
      var kind := sequence[length - 1];
      if kind == 'A' then UP
      else if kind == 'B' then DOWN
      else if kind == 'C' then RIGHT
      else if kind == 'D' then LEFT
      else if kind == '~' && length >= 2 && sequence[length - 2] == '3' then DEL
      else UNDEFINED
    }

    method Parse(c: char) returns (status: Status)
      requires Valid()
      modifies this, sequence
      ensures Valid()
      ensures View() == Step(old(View()), c).state && status == Step(old(View()), c).status
      ensures status == COMPLETED ==> length >= 1 && LastEvent() == Step(old(View()), c).event
    {
      status := DISCARDED;
      if c == ESC && state == '\0' {
        length := 0;
        state := c;
        status := CONSUMED;
      } else if state == ESC && c == '[' {
        state := c;
        status := CONSUMED;
        assert sequence[..length] == "";
      } else if state == '[' {
        if ' ' <= c <= '?' {
          if length < sequence.Length - 2 {
            sequence[length] := c;
            length := length + 1;
            status := CONSUMED;
            assert sequence[..length] == old(sequence[..length]) + [c];
          } else {
            state := '\0';
          }
        } else if '@' <= c <= '~' {
          sequence[length] := c;
          length := length + 1;
          assert sequence[..length] == old(sequence[..length]) + [c];
          sequence[length] := '\0';
          assert sequence[..length] == old(sequence[..length]) + [c];
          state := '\0';
          status := COMPLETED;
        } else {
          state := '\0';
        }
      } else {
        state := '\0';
      }
    }
  }

  // ---------------------------------------------------------------------------------------------
  // Whole sequences

  /** The bytes that are not swallowed, and the events, in order of arrival. */
  datatype Trace = Trace(state: Recogniser, passed: string, events: seq<Event>)

  function Run(r: Recogniser, s: string): Trace
    decreases |s|
  {
    if s == "" then Trace(r, "", [])
    else
      var o := Step(r, s[0]);
      var rest := Run(o.state, s[1..]);
      Trace(rest.state,
            (if o.status == DISCARDED then [s[0]] else "") + rest.passed,
            (if o.status == COMPLETED then [o.event] else []) + rest.events)
  }

  lemma {:induction false} ParametersAreCollected(bytes: string, p: string, rest: string)
    requires AllParameters(p)
    requires |bytes| + |p| <= MAX_SEQUENCE_LENGTH - 2
    ensures Run(Sequence(bytes), p + rest) == Run(Sequence(bytes + p), rest)
    decreases |p|
  {
    if p == "" {
      assert p + rest == rest && bytes + p == bytes;
    } else {
      assert (p + rest)[1..] == p[1..] + rest;
      ParametersAreCollected(bytes + [p[0]], p[1..], rest);
      assert bytes + [p[0]] + p[1..] == bytes + p;
    }
  }

  lemma IntroducerIsSwallowed(rest: string)
    ensures Run(Rest, [ESC, '['] + rest) == Run(Sequence(""), rest)
  {
    var s := [ESC, '['] + rest;
    assert s[1..] == ['['] + rest && s[1..][1..] == rest;
  }

  lemma ShortSequence(p: string, final: char)
    requires AllParameters(p)
    requires IsFinal(final) && |p| <= MAX_SEQUENCE_LENGTH - 2
    ensures Run(Sequence(""), p + [final]) == Trace(Rest, "", [EventOf(p + [final])])
  {
    ParametersAreCollected("", p, [final]);
    assert "" + p == p;
    LastByte(p, final);
  }

  lemma LastByte(p: string, final: char)
    requires IsFinal(final)
    ensures Run(Sequence(p), [final]) == Trace(Rest, "", [EventOf(p + [final])])
  {
    assert Run(Rest, [final][1..]) == Trace(Rest, "", []);
  }

  lemma LongSequence(p: string, final: char)
    requires AllParameters(p)
    requires |p| > MAX_SEQUENCE_LENGTH - 2
    ensures Run(Sequence(""), p + [final]).passed != ""
  {
    var room := MAX_SEQUENCE_LENGTH - 2;
    var head, tail := p[..room], p[room..] + [final];
    assert p + [final] == head + tail;
    ParametersAreCollected("", head, tail);
    assert "" + head == head;
    assert tail[0] == p[room];
    FullSequencePassesOn(head, tail[0]);
    PassedFirst(Sequence(head), tail);
  }

  lemma FullSequencePassesOn(bytes: string, c: char)
    requires |bytes| == MAX_SEQUENCE_LENGTH - 2 && IsParameter(c)
    ensures Step(Sequence(bytes), c) == Outcome(Rest, DISCARDED, UNDEFINED)
  {
  }

  lemma PassedFirst(r: Recogniser, s: string)
    requires s != "" && Step(r, s[0]).status == DISCARDED
    ensures Run(r, s).passed != ""
  {
    var rest := Run(Step(r, s[0]).state, s[1..]);
    assert Run(r, s).passed == [s[0]] + rest.passed;
  }

  /**
   A control sequence met at rest is swallowed whole, with one event and the recogniser at rest again, exactly when it
   has at most 14 parameter and intermediate bytes.
   */
  lemma ControlSequenceIsSwallowed(p: string, final: char)
    requires AllParameters(p)
    requires IsFinal(final)
    ensures |p| <= MAX_SEQUENCE_LENGTH - 2 <==>
            Run(Rest, [ESC, '['] + (p + [final])) == Trace(Rest, "", [EventOf(p + [final])])
  {
    IntroducerIsSwallowed(p + [final]);
    if |p| <= MAX_SEQUENCE_LENGTH - 2 {
      ShortSequence(p, final);
    } else {
      LongSequence(p, final);
    }
  }

  /** The bytes of a sequence by their codes. */
  lemma ByteClasses(c: char)
    ensures IsParameter(c) <==> 0x20 <= c as int <= 0x3F
    ensures IsFinal(c) <==> 0x40 <= c as int <= 0x7E
  {
  }

  /** Where each byte leads, by its code: whatever does not go on with a sequence passes and ends it. */
  lemma StepIs(b: string, c: char)
    ensures Step(Rest, c)
         == if c as int == 27 then Outcome(Escape, CONSUMED, UNDEFINED) else Outcome(Rest, DISCARDED, UNDEFINED)
    ensures Step(Escape, c)
         == if c == '[' then Outcome(Sequence(""), CONSUMED, UNDEFINED) else Outcome(Rest, DISCARDED, UNDEFINED)
    ensures 0x20 <= c as int <= 0x3F ==>
              Step(Sequence(b), c) == if |b| < 14 then Outcome(Sequence(b + [c]), CONSUMED, UNDEFINED)
                                      else Outcome(Rest, DISCARDED, UNDEFINED)
    ensures 0x40 <= c as int <= 0x7E ==> Step(Sequence(b), c) == Outcome(Rest, COMPLETED, EventOf(b + [c]))
    ensures c as int < 0x20 || c as int > 0x7E ==> Step(Sequence(b), c) == Outcome(Rest, DISCARDED, UNDEFINED)
  {
  }

  /** The cursor keys by their final byte whatever stands before it, and the delete key by its last two bytes. */
  lemma KeyEvents(p: string, c: char)
    ensures EventOf(p + "A") == UP && EventOf(p + "B") == DOWN && EventOf(p + "C") == RIGHT && EventOf(p + "D") == LEFT
    ensures EventOf(p + "3~") == DEL
    ensures EventOf("~") == UNDEFINED && (c != '3' ==> EventOf(p + [c] + "~") == UNDEFINED)
    ensures c !in "ABCD~" ==> EventOf(p + [c]) == UNDEFINED
  {
  }

  /** A byte that is neither ESC, '[', a parameter nor a final byte always passes, and puts the recogniser at rest. */
  lemma ControlByteAlwaysPasses(r: Recogniser, c: char)
    requires c < ' ' && c != ESC
    ensures Step(r, c) == Outcome(Rest, DISCARDED, UNDEFINED)
  {
  }
}
