/** `LineParser`: a line editor on a fixed buffer, which echoes every edit as terminal control bytes. */
module LineEditor {
  import opened Ascii
  import opened Numerals
  import opened TerminalHelpers

  const MAX_LINE_LENGTH := 256
  const EOL := [CR, LF]

  // ---------------------------------------------------------------------------------------------
  // The pure editor

  /** The line under edit: the text before the cursor and the text after it. */
  datatype Editor = Editor(before: string, after: string) {
    function Text(): string {
      before + after
    }

    function Length(): nat {
      |before| + |after|
    }

    predicate Valid() {
      Length() < MAX_LINE_LENGTH
    }
  }

  datatype Edit = Insert(c: char) | EraseNext | ErasePrevious | MoveLeft | MoveRight

  /** An edit that has nothing to work on, or no room, leaves the line alone. */
  predicate Applies(e: Editor, edit: Edit) {
    match edit
    case Insert(_) => e.Length() < MAX_LINE_LENGTH - 1
    case EraseNext => e.after != ""
    case ErasePrevious => e.before != ""
    case MoveLeft => e.before != ""
    case MoveRight => e.after != ""
  }

  function Apply(e: Editor, edit: Edit): (r: Editor)
    ensures e.Valid() ==> r.Valid()
  {
    if !Applies(e, edit) then e
    else
      var n := |e.before|;
      match edit
      case Insert(c) => Editor(e.before + [c], e.after)
      case EraseNext => Editor(e.before, e.after[1..])
      case ErasePrevious => Editor(e.before[..n - 1], e.after)
      case MoveLeft => Editor(e.before[..n - 1], [e.before[n - 1]] + e.after)
      case MoveRight => Editor(e.before + [e.after[0]], e.after[1..])
  }

  // ---------------------------------------------------------------------------------------------
  // The echo

  /** CUB: the cursor n columns back. */
  function Rewind(n: nat): string {
    [ESC, '['] + Numeral(n, 10) + "D"
  }

  /** EL: the line erased from the cursor to its end. */
  const CLEAR_TO_END := [ESC, '[', 'K']

  /** The bytes that an edit sends to the terminal. */
  function Echo(e: Editor, edit: Edit): string {
    if !Applies(e, edit) then ""
    else
      match edit
      case Insert(c) => if e.after == "" then [c] else [c] + e.after + Rewind(|e.after|)
      case EraseNext =>
        if |e.after| == 1 then [' ', BS] else CLEAR_TO_END + e.after[1..] + Rewind(|e.after| - 1)
      case ErasePrevious =>
        if e.after == "" then [BS, ' ', BS] else [BS] + CLEAR_TO_END + e.after + Rewind(|e.after|)
      case MoveLeft => [ESC, '[', 'D']
      case MoveRight => [ESC, '[', 'C']
  }

  // ---------------------------------------------------------------------------------------------
  // The typed characters

  datatype Status = COMPLETED | CONSUMED | DISCARDED | TERMINATED

  /** The line under edit and the last line terminator, NUL after any other character. */
  datatype Line = Line(editor: Editor, carriage: char)

  datatype Parsed = Parsed(line: Line, status: Status, echo: string)

  /** One typed character; the second half of a CR LF or LF CR pair is dropped. */
  function ParseChar(l: Line, c: char): (p: Parsed)
    ensures l.editor.Valid() ==> p.line.editor.Valid()
  {
    if c == ETX then Parsed(l, TERMINATED, "^C" + EOL)
    else if c == CR || c == LF then
      var ends := l.carriage == NUL || l.carriage == c;
      Parsed(Line(l.editor, c), if ends then COMPLETED else CONSUMED, if ends then EOL else "")
    else
      var edit := if c == BS || c == DEL then ErasePrevious else Insert(c);
      Parsed(Line(Apply(l.editor, edit), NUL),
             if Applies(l.editor, edit) then CONSUMED else DISCARDED,
             Echo(l.editor, edit))
  }

  /** What one typed character does to the text before the cursor, the text after it and the latch. */
  ghost predicate TypedAs(e: Editor, carriage: char, c: char, r: Editor, latch: char, status: Status) {
    match c as int
    case 3 => r == e && latch == carriage && status == TERMINATED
    case 8 | 127 =>
      && r.after == e.after && latch as int == 0
      && if e.before == "" then r.before == "" && status == DISCARDED
         else r.before == e.before[..|e.before| - 1] && status == CONSUMED
    case 10 | 13 =>
      && r == e && latch == c
      && status == if carriage as int == 0 || carriage == c then COMPLETED else CONSUMED
    case _ =>
      && r.after == e.after && latch as int == 0
      && if |e.before| + |e.after| == 255 then r.before == e.before && status == DISCARDED
         else r.before == e.before + [c] && status == CONSUMED
  }

  /** Backspace erases the character before the cursor, a line end completes the line, other characters are inserted. */
  lemma TypedCharacter(l: Line, c: char)
    requires l.editor.Valid()
    ensures var p := ParseChar(l, c); TypedAs(l.editor, l.carriage, c, p.line.editor, p.line.carriage, p.status)
  {
  }

  /** A character and then a backspace leave the line as it was, wherever the cursor stands. */
  lemma ErasureUndoesTyping(l: Line, c: char, erasure: char)
    requires l.editor.Length() < 255 && erasure as int in {8, 127} && c as int !in {3, 8, 10, 13, 127}
    ensures ParseChar(ParseChar(l, c).line, erasure).line.editor == l.editor
  {
    assert (l.editor.before + [c])[..|l.editor.before|] == l.editor.before;
  }

  /** Moves keep the text and take the cursor one character on, and back again. */
  lemma MovesKeepText(e: Editor)
    ensures Apply(e, MoveLeft).Text() == e.Text() == Apply(e, MoveRight).Text()
    ensures |Apply(e, MoveLeft).before| == if e.before == "" then 0 else |e.before| - 1
    ensures |Apply(e, MoveRight).before| == |e.before| + if e.after == "" then 0 else 1
    ensures e.before != "" ==> Apply(Apply(e, MoveLeft), MoveRight) == e
    ensures e.after != "" ==> Apply(Apply(e, MoveRight), MoveLeft) == e
  {
    if e.before != "" {
      assert e.before[..|e.before| - 1] + [e.before[|e.before| - 1]] == e.before;
    }
    if e.after != "" {
      assert [e.after[0]] + e.after[1..] == e.after;
    }
  }

  /** Erasing the next character is moving over it and erasing backwards. */
  lemma ErasuresAgree(e: Editor)
    ensures e.after != "" ==> Apply(e, EraseNext) == Apply(Apply(e, MoveRight), ErasePrevious)
    ensures e.before != "" ==> Apply(e, ErasePrevious) == Apply(Apply(e, MoveLeft), EraseNext)
    ensures e.after == "" ==> Apply(e, EraseNext) == e
    ensures e.before == "" ==> Apply(e, ErasePrevious) == e
  {
    if e.after != "" {
      assert (e.before + [e.after[0]])[..|e.before|] == e.before;
    }
  }

  // ---------------------------------------------------------------------------------------------
  // The parser on its buffer

  /** The terminal that the parser writes to. */
  class Terminal {
    var output: string

    constructor ()
      ensures output == ""
    {
      output := "";
    }

    method Write(bytes: string)
      modifies this
      ensures output == old(output) + bytes
    {
      output := output + bytes;
    }

    /** Writes a text from a buffer. */
    method WriteFrom(a: array<char>, first: nat, length: nat, ghost text: string)
      requires SpelledAt(a, first, text) && length == |text|
      modifies this
      ensures output == old(output) + text
    {
      assert a[first..first + length] == text;
      output := output + a[first..first + length];
    }
  }

  /** Moves a text one cell left, the leftmost character first. */
  method ShiftLeft(a: array<char>, first: nat, length: nat, ghost text: string)
    requires SpelledAt(a, first, text) && length == |text| && first > 0
    modifies a
    ensures SpelledAt(a, first - 1, text) && OnlyChanged(a, first - 1, first - 1 + length)
  {
    var i := 0;
    while i < length
      invariant 0 <= i <= length
      invariant forall k | first - 1 <= k < first - 1 + i :: a[k] == text[k - (first - 1)]
      invariant OnlyChanged(a, first - 1, first - 1 + i)
    {
      a[first + i - 1] := a[first + i];
      i := i + 1;
    }
  }

  /** Moves a text one cell right, the rightmost character first. */
  method ShiftRight(a: array<char>, first: nat, length: nat, ghost text: string)
    requires SpelledAt(a, first, text) && length == |text| && first + length < a.Length
    modifies a
    ensures SpelledAt(a, first + 1, text) && OnlyChanged(a, first + 1, first + 1 + length)
  {
    var i := length;
    while i > 0
      invariant 0 <= i <= length
      invariant forall k | first + 1 + i <= k < first + 1 + length :: a[k] == text[k - (first + 1)]
      invariant OnlyChanged(a, first + 1 + i, first + 1 + length)
    {
      i := i - 1;
      a[first + 1 + i] := a[first + i];
    }
  }

  /** Puts a character before a text, which makes room for it. */
  method InsertAt(a: array<char>, first: nat, length: nat, c: char, ghost text: string)
    requires SpelledAt(a, first, text) && length == |text| && first + length < a.Length
    modifies a
    ensures a[first] == c && SpelledAt(a, first + 1, text) && OnlyChanged(a, first, first + 1 + length)
  {
    ShiftRight(a, first, length, text);
    a[first] := c;
  }

  /** The buffer of the rewind command holds its two introducers, the number and a terminator. */
  const REWIND_LENGTH := 12
  const REWIND_LIMIT := 1_000_000_000

  lemma RewindFits(number: nat)
    ensures 2 + |Numeral(number, 10)| + 1 <= REWIND_LENGTH <==> number < REWIND_LIMIT
  {
    NumeralLength(number, 9);
    assert Pow(10, 3) == 1000;
    assert Pow(10, 6) == 1000 * 1000;
    assert Pow(10, 9) == REWIND_LIMIT;
  }

  lemma Written(a: string, b: string, c: string, d: string)
    ensures a + b + c + d == a + (b + c + d)
  {
  }

  class LineParser {
    const terminal: Terminal
    const command: array<char>
    var cursor: nat
    var length: nat
    var carriage: char
    const echo: bool
    /** The line under edit, which the buffer holds. */
    ghost var editor: Editor

    ghost predicate Sized()
      reads this
    {
      command.Length == MAX_LINE_LENGTH && cursor <= length < MAX_LINE_LENGTH
    }

    ghost predicate Valid()
      reads this, command
    {
      && Sized() && cursor == |editor.before| && length == editor.Length()
      && SpelledAt(command, 0, editor.before) && SpelledAt(command, cursor, editor.after)
    }

    constructor (terminal: Terminal, echo: bool)
      ensures Valid() && State() == Line(Editor("", ""), NUL)
      ensures this.terminal == terminal && this.echo == echo && fresh(command)
    {
      this.terminal := terminal;
      this.command := new char[MAX_LINE_LENGTH];
      this.cursor, this.length, this.carriage := 0, 0, NUL;
      this.echo := echo;
      this.editor := Editor("", "");
    }

    /** The effect of an edit: the pure editor's on the buffer, and its echo on the terminal. */
    twostate predicate Did(edit: Edit)
      reads this, command, terminal
    {
      && Valid() && carriage == old(carriage)
      && editor == Apply(old(editor), edit)
      && terminal.output == old(terminal.output) + if echo then Echo(old(editor), edit) else ""
    }

    /** Writes the command that moves the cursor back. */
    method RewindCursor(number: nat)
      requires number < REWIND_LIMIT
      modifies terminal
      ensures terminal.output == old(terminal.output) + Rewind(number)
    {
      var rewindCommand := new char[REWIND_LENGTH];
      rewindCommand[0] := ESC;
      rewindCommand[1] := '[';
      RewindFits(number);
      var offset := Uint2Dec(rewindCommand, 2, number, 0, ' ');
      rewindCommand[offset] := 'D';
      terminal.WriteFrom(rewindCommand, 0, offset + 1, Rewind(number));
    }

    /**
     Writes some bytes, a part of the buffer, and the way back to where that part began; never a way of length 0, which
     would still move the cursor.
     */
    method Redraw(head: string, first: nat, remaining: nat, ghost text: string)
      requires SpelledAt(command, first, text) && 0 < remaining == |text| < REWIND_LIMIT
      modifies terminal
      ensures terminal.output == old(terminal.output) + (head + text + Rewind(remaining))
    {
      terminal.Write(head);
      terminal.WriteFrom(command, first, remaining, text);
      RewindCursor(remaining);
      Written(old(terminal.output), head, text, Rewind(remaining));
    }

    method EraseNext() returns (done: bool)
      requires Valid()
      modifies this, command, terminal
      ensures Did(Edit.EraseNext) && done == Applies(old(editor), Edit.EraseNext)
    {
      if cursor < length {
        ghost var tail := editor.after[1..];
        length := length - 1;
        if cursor < length {
          ShiftLeft(command, cursor + 1, length - cursor, tail);
          if echo {
            var remaining := length - cursor;
            if remaining > 0 {
              Redraw(CLEAR_TO_END, cursor, remaining, tail);
            }
          }
        } else {
          if echo {
            terminal.Write([' ', BS]);
          }
        }
        editor := Editor(editor.before, tail);
        done := true;
      } else {
        done := false;
      }
    }

    method ErasePrevious() returns (done: bool)
      requires Valid()
      modifies this, command, terminal
      ensures Did(Edit.ErasePrevious) && done == Applies(old(editor), Edit.ErasePrevious)
    {
      if cursor > 0 {
        if cursor < length {
          ShiftLeft(command, cursor, length - cursor, editor.after);
          if echo {
            var remaining := length - cursor;
            Redraw([BS] + CLEAR_TO_END, cursor - 1, remaining, editor.after);
          }
        } else {
          if echo {
            terminal.Write([BS, ' ', BS]);
          }
        }
        cursor := cursor - 1;
        length := length - 1;
        editor := Editor(editor.before[..cursor], editor.after);
        done := true;
      } else {
        done := false;
      }
    }

    method Insert(c: char) returns (done: bool)
      requires Valid()
      modifies this, command, terminal
      ensures Did(Edit.Insert(c)) && done == Applies(old(editor), Edit.Insert(c))
    {
      if length < command.Length - 1 {
        if cursor < length {
          InsertInside(c);
        } else {
          command[length] := c;
          if echo {
            terminal.Write([c]);
          }
        }
        cursor := cursor + 1;
        length := length + 1;
        editor := Editor(editor.before + [c], editor.after);
        done := true;
      } else {
        done := false;
      }
    }

    /** Inserts the character in the midst of the line, and shows it. */
    method InsertInside(c: char)
      requires Valid() && cursor < length < command.Length - 1
      modifies command, terminal
      ensures SpelledAt(command, 0, editor.before + [c]) && SpelledAt(command, cursor + 1, editor.after)
      ensures terminal.output == old(terminal.output) + if echo then Echo(editor, Edit.Insert(c)) else ""
    {
      InsertAt(command, cursor, length - cursor, c, editor.after);
      if echo {
        Redraw([c], cursor + 1, length - cursor, editor.after);
      }
    }

    method MoveCursorLeft()
      requires Valid()
      modifies this, terminal
      ensures Did(Edit.MoveLeft)
    {
      if cursor > 0 {
        cursor := cursor - 1;
        if echo {
          terminal.Write([ESC, '[', 'D']);
        }
        editor := Apply(editor, Edit.MoveLeft);
      }
    }

    method MoveCursorRight()
      requires Valid()
      modifies this, terminal
      ensures Did(Edit.MoveRight)
    {
      if cursor < length {
        cursor := cursor + 1;
        if echo {
          terminal.Write([ESC, '[', 'C']);
        }
        editor := Apply(editor, Edit.MoveRight);
      }
    }

    ghost function State(): (l: Line)
      reads this
    {
      Line(editor, carriage)
    }

    /** One character; a line that ends is followed by its terminator in the buffer. */
    method Parse(c: char) returns (status: Status)
      requires Valid()
      modifies this, command, terminal
      ensures Valid()
      ensures var p := ParseChar(old(State()), c);
              && State() == p.line && status == p.status
              && terminal.output == old(terminal.output) + if echo then p.echo else ""
      ensures TypedAs(old(editor), old(carriage), c, editor, carriage, status)
      ensures status == COMPLETED || status == TERMINATED ==> command[length] == NUL
    {
      TypedCharacter(State(), c);
      status := CONSUMED;
      if c == ETX {
        status := TERMINATED;
        command[length] := NUL;
        if echo {
          terminal.Write("^C");
          terminal.Write(EOL);
        }
      } else if c == CR || c == LF {
        if carriage == NUL || carriage == c {
          status := COMPLETED;
          command[length] := NUL;
          if echo {
            terminal.Write(EOL);
          }
        }
        carriage := c;
      } else if c == BS || c == DEL {
        var done := ErasePrevious();
        if !done {
          status := DISCARDED;
        }
        carriage := NUL;
      } else {
        var done := Insert(c);
        if !done {
          status := DISCARDED;
        }
        carriage := NUL;
      }
    }

    /** An empty line, whatever the buffer holds now. */
    method Reset()
      requires Sized()
      modifies this
      ensures Valid() && State() == Line(Editor("", ""), old(carriage))
    {
      cursor := 0;
      length := 0;
      editor := Editor("", "");
    }
  }
}
