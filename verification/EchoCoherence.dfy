/** One line of an ECMA-48 terminal, as far as the shell uses it. */
module Screens {
  import opened Ascii
  import opened Numerals
  import opened LineEditor

  /** What an unfinished control sequence has collected. */
  datatype Control = Ground | Escaped | Csi(parameters: string)

  /** The finished lines above, the cells of the current line, the cursor column, the control state. */
  datatype Screen = Screen(above: seq<string>, cells: string, column: nat, control: Control)

  function Blanks(n: nat): (s: string)
    ensures |s| == n
  {
    seq(n, _ => ' ')
  }

  predicate IsPrintable(c: char) {
    ' ' <= c <= '~'
  }

  predicate AllPrintable(s: string) {
    forall i | 0 <= i < |s| :: IsPrintable(s[i])
  }

  /** The numeric parameter of a sequence; absent or 0 it means the default, 1. */
  function Count(parameters: string): nat {
    var n := ValueOf(parameters, 10);
    if n <= 0 then 1 else n
  }

  /** A character in the cell under the cursor; the cursor stays in the last column. */
  function Put(s: Screen, c: char): Screen
    requires s.column < |s.cells|
  {
    s.(cells := s.cells[s.column := c], column := if s.column + 1 < |s.cells| then s.column + 1 else s.column)
  }

  /** The final byte of a control sequence: CUF, CUB or EL (sections 8.3.20, 8.3.18 and 8.3.41 of ECMA-48). */
  function Final(s: Screen, parameters: string, c: char): (r: Screen)
    requires s.column < |s.cells|
    ensures r.column < |r.cells|
  {
    var n := Count(parameters);
    if c == 'C' then s.(column := if s.column + n < |s.cells| then s.column + n else |s.cells| - 1, control := Ground)
    else if c == 'D' then s.(column := if n <= s.column then s.column - n else 0, control := Ground)
    else if c == 'K' then
      s.(cells := s.cells[..s.column] + Blanks(|s.cells| - s.column), control := Ground)
    else s.(control := Ground)
  }

  /** One byte: printed, or interpreted as a control function. */
  function Feed(s: Screen, c: char): (r: Screen)
    requires s.column < |s.cells|
    ensures r.column < |r.cells| && |r.cells| == |s.cells|
  {
    match s.control
    case Ground =>
      if c == ESC then s.(control := Escaped)
      else if c == BS then s.(column := if s.column > 0 then s.column - 1 else 0)
      else if c == CR then s.(column := 0)
      else if c == LF then s.(above := s.above + [s.cells], cells := Blanks(|s.cells|))
      else if IsPrintable(c) then Put(s, c)
      else s
    case Escaped => s.(control := if c == '[' then Csi("") else Ground)
    case Csi(p) => if ' ' <= c <= '?' then s.(control := Csi(p + [c])) else Final(s, p, c)
  }

  function FeedAll(s: Screen, bytes: string): (r: Screen)
    requires s.column < |s.cells|
    ensures r.column < |r.cells| && |r.cells| == |s.cells|
    decreases |bytes|
  {
    if bytes == "" then s else FeedAll(Feed(s, bytes[0]), bytes[1..])
  }

  lemma {:induction false} FeedTwice(s: Screen, a: string, b: string)
    requires s.column < |s.cells|
    ensures FeedAll(s, a + b) == FeedAll(FeedAll(s, a), b)
    decreases |a|
  {
    if a == "" {
      assert a + b == b;
    } else {
      assert (a + b)[0] == a[0] && (a + b)[1..] == a[1..] + b;
      FeedTwice(Feed(s, a[0]), a[1..], b);
    }
  }

  lemma FeedOne(s: Screen, c: char)
    requires s.column < |s.cells|
    ensures FeedAll(s, [c]) == Feed(s, c)
  {
    assert [c][1..] == "";
  }

  /** The line under the cursor as the text before the cursor and the cells from it on. */
  function At(above: seq<string>, head: string, rest: string): Screen {
    Screen(above, head + rest, |head|, Ground)
  }

  /** Printing text over the cells from the cursor on; what lies beyond it stays. */
  lemma {:induction false} FeedText(above: seq<string>, head: string, t: string, rest: string)
    requires AllPrintable(t) && |t| < |rest|
    ensures FeedAll(At(above, head, rest), t) == At(above, head + t, rest[|t|..])
    decreases |t|
  {
    if t == "" {
      assert head + t == head;
    } else {
      var c, u, next := t[0], t[1..], rest[1..];
      assert (head + rest)[|head| := c] == head + [c] + next;
      assert Feed(At(above, head, rest), c) == At(above, head + [c], next);
      FeedText(above, head + [c], u, next);
      assert head + [c] + u == head + t;
      assert next[|u|..] == rest[|t|..];
    }
  }

  /** The bytes between CSI and the final byte are collected. */
  lemma {:induction false} FeedParameters(s: Screen, p: string, n: string, rest: string)
    requires s.column < |s.cells| && s.control == Csi(p) && AllDigits(n, 10)
    ensures FeedAll(s, n + rest) == FeedAll(s.(control := Csi(p + n)), rest)
    decreases |n|
  {
    if n == "" {
      assert n + rest == rest && p + n == p;
    } else {
      assert (n + rest)[0] == n[0] && (n + rest)[1..] == n[1..] + rest;
      assert IsDigit(n[0], 10);
      FeedParameters(s.(control := Csi(p + [n[0]])), p + [n[0]], n[1..], rest);
      assert p + [n[0]] + n[1..] == p + n;
    }
  }

  /** A whole control sequence with a decimal parameter, or none. */
  lemma FeedSequence(s: Screen, n: string, final: char)
    requires s.column < |s.cells| && s.control == Ground && AllDigits(n, 10) && final > '?'
    ensures FeedAll(s, [ESC, '['] + n + [final]) == Final(s, n, final)
  {
    var bytes := [ESC, '['] + n + [final];
    assert bytes[1..] == ['['] + n + [final];
    assert bytes[1..][1..] == n + [final];
    var csi := s.(control := Csi(""));
    assert Feed(Feed(s, ESC), '[') == csi;
    FeedParameters(csi, "", n, [final]);
    assert "" + n == n;
    FeedOne(s.(control := Csi(n)), final);
  }

  /** The rewind command moves the cursor back by exactly its number, which is why 0 must never be asked for. */
  lemma FeedRewind(s: Screen, n: nat)
    requires s.column < |s.cells| && s.control == Ground && n <= s.column
    ensures FeedAll(s, Rewind(n)) == s.(column := s.column - n) <==> n > 0 || s.column == 0
    ensures Rewind(n) == [0x1B as char, '['] + Numeral(n, 10) + "D"
  {
    NumeralIsExact(n, 10);
    FeedSequence(s, Numeral(n, 10), 'D');
  }

  lemma FeedRewindOver(above: seq<string>, head: string, t: string, rest: string)
    requires t != "" && rest != ""
    ensures FeedAll(At(above, head + t, rest), Rewind(|t|)) == At(above, head, t + rest)
  {
    FeedRewind(At(above, head + t, rest), |t|);
    assert head + t + rest == head + (t + rest);
  }

  lemma FeedClear(above: seq<string>, head: string, rest: string)
    requires rest != ""
    ensures FeedAll(At(above, head, rest), CLEAR_TO_END) == At(above, head, Blanks(|rest|))
    ensures CLEAR_TO_END == [0x1B as char, '[', 'K']
  {
    FeedSequence(At(above, head, rest), "", 'K');
    assert [ESC, '['] + "" + ['K'] == CLEAR_TO_END;
    assert (head + rest)[..|head|] == head;
  }

  lemma FeedBack(above: seq<string>, head: string, c: char, rest: string)
    requires rest != ""
    ensures FeedAll(At(above, head + [c], rest), [BS]) == At(above, head, [c] + rest)
    ensures FeedAll(At(above, head + [c], rest), [ESC, '[', 'D']) == At(above, head, [c] + rest)
    ensures FeedAll(At(above, head, [c] + rest), [ESC, '[', 'C']) == At(above, head + [c], rest)
  {
    assert head + [c] + rest == head + ([c] + rest);
    FeedOne(At(above, head + [c], rest), BS);
    FeedSequence(At(above, head + [c], rest), "", 'D');
    FeedSequence(At(above, head, [c] + rest), "", 'C');
    assert [ESC, '['] + "" + ['D'] == [ESC, '[', 'D'];
    assert [ESC, '['] + "" + ['C'] == [ESC, '[', 'C'];
  }
}

/** What the terminal shows after an edit is the edited line. */
module EchoCoherence {
  import opened Ascii
  import opened LineEditor
  import opened Screens

  /** The prompt and the line, blanks after them, the cursor where the editor has it. */
  function Shows(above: seq<string>, prompt: string, e: Editor, width: nat): Screen
    requires |prompt| + e.Length() < width
  {
    Screen(above, prompt + e.Text() + Blanks(width - |prompt| - e.Length()), |prompt| + |e.before|, Ground)
  }

  predicate PrintableEditor(e: Editor) {
    AllPrintable(e.before) && AllPrintable(e.after)
  }

  predicate PrintableEdit(edit: Edit) {
    edit.Insert? ==> IsPrintable(edit.c)
  }

  lemma ShowsAt(above: seq<string>, prompt: string, e: Editor, width: nat)
    requires |prompt| + e.Length() < width
    ensures Shows(above, prompt, e, width)
         == At(above, prompt + e.before, e.after + Blanks(width - |prompt| - e.Length()))
  {
    assert prompt + (e.before + e.after) + Blanks(width - |prompt| - e.Length())
        == prompt + e.before + (e.after + Blanks(width - |prompt| - e.Length()));
  }

  /** Text printed from the cursor on, and the cursor brought back to its start. */
  lemma FeedRedraw(above: seq<string>, head: string, t: string, rest: string)
    requires AllPrintable(t) && 0 < |t| < |rest|
    ensures FeedAll(At(above, head, rest), t + Rewind(|t|)) == At(above, head, t + rest[|t|..])
  {
    FeedTwice(At(above, head, rest), t, Rewind(|t|));
    FeedText(above, head, t, rest);
    FeedRewindOver(above, head, t, rest[|t|..]);
  }

  lemma EchoOfInsert(above: seq<string>, head: string, c: char, after: string, k: nat)
    requires IsPrintable(c) && AllPrintable(after) && k > 1 && |after| < MAX_LINE_LENGTH - 1
    ensures FeedAll(At(above, head, after + Blanks(k)), Echo(Editor("", after), Insert(c)))
         == At(above, head + [c], after + Blanks(k - 1))
  {
    var rest := after + Blanks(k);
    FeedText(above, head, [c], rest);
    if after == "" {
      assert rest[1..] == after + Blanks(k - 1);
    } else {
      FeedTwice(At(above, head, rest), [c], after + Rewind(|after|));
      FeedRedraw(above, head + [c], after, rest[1..]);
      assert rest[1..][|after|..] == Blanks(k - 1);
      assert [c] + after + Rewind(|after|) == [c] + (after + Rewind(|after|));
    }
  }

  lemma EchoOfErase(above: seq<string>, head: string, c: char, after: string, k: nat)
    requires AllPrintable(after) && k > 0
    ensures FeedAll(At(above, head, [c] + after + Blanks(k)), Echo(Editor("", [c] + after), EraseNext))
         == At(above, head, after + Blanks(k + 1))
    ensures FeedAll(At(above, head + [c], after + Blanks(k)), Echo(Editor([c], after), ErasePrevious))
         == At(above, head, after + Blanks(k + 1))
  {
    var rest := [c] + after + Blanks(k);
    var s, t := At(above, head, rest), At(above, head + [c], after + Blanks(k));
    assert rest == [c] + (after + Blanks(k));
    FeedBack(above, head, c, after + Blanks(k));
    if after == "" {
      assert [' ', BS] == [' '] + [BS] && [BS, ' ', BS] == [BS] + [' ', BS];
      FeedTwice(s, [' '], [BS]);
      FeedText(above, head, [' '], rest);
      assert rest[1..] == Blanks(k);
      FeedBack(above, head, ' ', Blanks(k));
      assert [' '] + Blanks(k) == after + Blanks(k + 1);
      FeedTwice(t, [BS], [' ', BS]);
    } else {
      var redraw := after + Rewind(|after|);
      assert ([c] + after)[1..] == after;
      FeedClear(above, head, rest);
      FeedRedraw(above, head, after, Blanks(|rest|));
      assert Blanks(|rest|)[|after|..] == Blanks(k + 1);
      assert CLEAR_TO_END + after + Rewind(|after|) == CLEAR_TO_END + redraw;
      FeedTwice(s, CLEAR_TO_END, redraw);
      assert [BS] + CLEAR_TO_END + after + Rewind(|after|) == [BS] + (CLEAR_TO_END + redraw);
      FeedTwice(t, [BS], CLEAR_TO_END + redraw);
    }
  }

  lemma ErasureIsShown(above: seq<string>, prompt: string, e: Editor, k: nat)
    requires PrintableEditor(e) && k > 0
    ensures e.after != "" ==>
              FeedAll(At(above, prompt + e.before, e.after + Blanks(k)), Echo(e, EraseNext))
              == At(above, prompt + Apply(e, EraseNext).before, Apply(e, EraseNext).after + Blanks(k + 1))
    ensures e.before != "" ==>
              FeedAll(At(above, prompt + e.before, e.after + Blanks(k)), Echo(e, ErasePrevious))
              == At(above, prompt + Apply(e, ErasePrevious).before, Apply(e, ErasePrevious).after + Blanks(k + 1))
  {
    var n := |e.before|;
    if e.after != "" {
      assert e.after == [e.after[0]] + e.after[1..];
      EchoOfErase(above, prompt + e.before, e.after[0], e.after[1..], k);
    }
    if e.before != "" {
      assert prompt + e.before == prompt + e.before[..n - 1] + [e.before[n - 1]];
      EchoOfErase(above, prompt + e.before[..n - 1], e.before[n - 1], e.after, k);
    }
  }

  lemma MoveIsShown(above: seq<string>, prompt: string, e: Editor, k: nat)
    requires k > 0
    ensures e.before != "" ==>
              FeedAll(At(above, prompt + e.before, e.after + Blanks(k)), Echo(e, MoveLeft))
              == At(above, prompt + Apply(e, MoveLeft).before, Apply(e, MoveLeft).after + Blanks(k))
    ensures e.after != "" ==>
              FeedAll(At(above, prompt + e.before, e.after + Blanks(k)), Echo(e, MoveRight))
              == At(above, prompt + Apply(e, MoveRight).before, Apply(e, MoveRight).after + Blanks(k))
  {
    if e.before != "" {
      var n, r := |e.before|, Apply(e, MoveLeft);
      assert prompt + e.before == prompt + r.before + [e.before[n - 1]];
      FeedBack(above, prompt + r.before, e.before[n - 1], e.after + Blanks(k));
      assert [e.before[n - 1]] + (e.after + Blanks(k)) == r.after + Blanks(k);
    }
    if e.after != "" {
      var r := Apply(e, MoveRight);
      assert prompt + r.before == prompt + e.before + [e.after[0]];
      FeedBack(above, prompt + e.before, e.after[0], r.after + Blanks(k));
      assert [e.after[0]] + (r.after + Blanks(k)) == e.after + Blanks(k);
    }
  }

  /** After the echo of an edit, the screen that showed the line shows the edited line. */
  lemma EditIsShown(above: seq<string>, prompt: string, e: Editor, edit: Edit, width: nat)
    requires PrintableEditor(e) && PrintableEdit(edit)
    requires |prompt| + e.Length() < width && |prompt| + Apply(e, edit).Length() < width
    ensures FeedAll(Shows(above, prompt, e, width), Echo(e, edit)) == Shows(above, prompt, Apply(e, edit), width)
  {
    var k := width - |prompt| - e.Length();
    ShowsAt(above, prompt, e, width);
    ShowsAt(above, prompt, Apply(e, edit), width);
    if Applies(e, edit) {
      match edit {
        case Insert(c) =>
          EchoOfInsert(above, prompt + e.before, c, e.after, k);
          assert prompt + e.before + [c] == prompt + (e.before + [c]);
        case EraseNext => ErasureIsShown(above, prompt, e, k);
        case ErasePrevious => ErasureIsShown(above, prompt, e, k);
        case MoveLeft => MoveIsShown(above, prompt, e, k);
        case MoveRight => MoveIsShown(above, prompt, e, k);
      }
    }
  }

  // ---------------------------------------------------------------------------------------------
  // Whole runs

  function ApplyAll(e: Editor, edits: seq<Edit>): Editor
    decreases |edits|
  {
    if edits == [] then e else ApplyAll(Apply(e, edits[0]), edits[1..])
  }

  function EchoAll(e: Editor, edits: seq<Edit>): string
    decreases |edits|
  {
    if edits == [] then "" else Echo(e, edits[0]) + EchoAll(Apply(e, edits[0]), edits[1..])
  }

  /** The prompt and the line stay within the terminal's width. */
  predicate StaysWithin(prompt: string, e: Editor, edits: seq<Edit>, width: nat)
    decreases |edits|
  {
    && |prompt| + e.Length() < width
    && (edits == [] || StaysWithin(prompt, Apply(e, edits[0]), edits[1..], width))
  }

  predicate PrintableEdits(edits: seq<Edit>) {
    forall i | 0 <= i < |edits| :: PrintableEdit(edits[i])
  }

  lemma {:induction false} RunStaysWithin(prompt: string, e: Editor, edits: seq<Edit>, width: nat)
    requires StaysWithin(prompt, e, edits, width)
    ensures |prompt| + ApplyAll(e, edits).Length() < width
    decreases |edits|
  {
    if edits != [] {
      RunStaysWithin(prompt, Apply(e, edits[0]), edits[1..], width);
    }
  }

  lemma EditKeepsPrintable(e: Editor, edit: Edit)
    requires PrintableEditor(e) && PrintableEdit(edit)
    ensures PrintableEditor(Apply(e, edit))
  {
  }

  /** After any run of edits the terminal shows the prompt, the edited line and the cursor where it is. */
  lemma {:induction false} RunIsShown(above: seq<string>, prompt: string, e: Editor, edits: seq<Edit>, width: nat)
    requires PrintableEditor(e) && PrintableEdits(edits) && StaysWithin(prompt, e, edits, width)
    ensures |prompt| + ApplyAll(e, edits).Length() < width
    ensures FeedAll(Shows(above, prompt, e, width), EchoAll(e, edits))
         == Shows(above, prompt, ApplyAll(e, edits), width)
    decreases |edits|
  {
    RunStaysWithin(prompt, e, edits, width);
    if edits != [] {
      var next := Apply(e, edits[0]);
      EditIsShown(above, prompt, e, edits[0], width);
      EditKeepsPrintable(e, edits[0]);
      FeedTwice(Shows(above, prompt, e, width), Echo(e, edits[0]), EchoAll(next, edits[1..]));
      RunIsShown(above, prompt, next, edits[1..], width);
    }
  }
}
