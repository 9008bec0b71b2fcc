/** What the terminal shows over a whole interactive session: every line entered, its output, the line under edit. */
module SessionScreen {
  import opened Ascii
  import opened LineEditor
  import opened Screens
  import opened EchoCoherence
  import opened ShellRun
  import E = EscapeSequences

  /** The shell, the terminal's width, and the lines that a command's output makes the terminal show. */
  datatype Setting = Setting(c: Config, width: nat, shows: (seq<string>, seq<string>) -> seq<string>)

  /** The terminal at the beginning of a blank line. */
  function Blank(above: seq<string>, width: nat): Screen {
    Screen(above, Blanks(width), 0, Ground)
  }

  /** From the beginning of a line on, the output of a command adds lines and ends at the beginning of another one. */
  ghost predicate Adds(output: string, lines: seq<string>, width: nat)
    requires width > 0
  {
    forall above :: FeedAll(Blank(above, width), output) == Blank(above + lines, width)
  }

  /** Prompts are printable, and the output of every command adds its lines. */
  ghost predicate Tidy(g: Setting) {
    && g.c.echo && g.c.interactive && g.width > 0
    && (forall lines :: AllPrintable(g.c.prompt(lines)))
    && (forall before, a :: Adds(g.c.commands.prints(before, a), g.shows(before, a), g.width))
  }

  function Prompt(g: Setting, lines: seq<string>): string {
    g.c.prompt(lines)
  }

  /** A byte that passes the recogniser is printable, a line terminator, an erasure, or 0x03 with room for its echo. */
  predicate Typeable(g: Setting, s: Session, b: char) {
    E.Step(s.escape, b).status == E.DISCARDED ==>
      || IsPrintable(b) || b == CR || b == LF || b == BS || b == DEL
      || (b == ETX && |Prompt(g, s.lines)| + |s.line.editor.before| + 2 < g.width)
  }

  predicate FitsWidth(g: Setting, s: Session) {
    |Prompt(g, s.lines)| + s.line.editor.Length() < g.width
  }

  /** All bytes can be typed, and the prompt and the line stay within the terminal's width. */
  predicate Orderly(g: Setting, s: Session, bytes: string)
    decreases |bytes|
  {
    s.stopped ||
    (FitsWidth(g, s)
     && (bytes == "" || (Typeable(g, s, bytes[0]) && Orderly(g, Step(g.c, s, bytes[0]), bytes[1..]))))
  }

  /** A finished line of the screen: the prompt, what was entered, blanks. */
  function Finished(prompt: string, line: string, width: nat): string {
    prompt + line + if |prompt| + |line| < width then Blanks(width - |prompt| - |line|) else ""
  }

  /** A line that was given up with 0x03: its echo stands at the cursor. */
  function GivenUp(prompt: string, e: Editor, width: nat): string
    requires |prompt| + |e.before| + 2 < width && |prompt| + e.Length() < width
  {
    prompt + e.before + "^C" + (e.after + Blanks(width - |prompt| - e.Length()))[2..]
  }

  /** What the command of a line adds to the screen. */
  function Added(g: Setting, before: seq<string>, line: string): seq<string> {
    if CommandOf(line) == [] then [] else g.shows(before, CommandOf(line))
  }

  /** The lines above the current one: each line that was entered, after its prompt, and what its command printed. */
  function History(g: Setting, lines: seq<string>): seq<string> {
    if lines == [] then []
    else
      var before, line := lines[..|lines| - 1], lines[|lines| - 1];
      History(g, before) + [Finished(Prompt(g, before), line, g.width)] + Added(g, before, line)
  }

  /** A terminal that was given the whole output shows this. */
  predicate Displays(g: Setting, s: Session, screen: Screen)
    requires g.width > 0
  {
    FeedAll(Blank([], g.width), s.output) == screen
  }

  /** While the shell runs: the history, the prompt, the line and its cursor. */
  ghost predicate Shown(g: Setting, s: Session) {
    && g.width > 0 && FitsWidth(g, s) && PrintableEditor(s.line.editor)
    && Displays(g, s, Shows(History(g, s.lines), Prompt(g, s.lines), s.line.editor, g.width))
  }

  /** Once it has stopped: the history, where the last line may have been given up, and a blank line. */
  ghost predicate Closed(g: Setting, s: Session) {
    && g.width > 0 && s.lines != []
    && var before, line := s.lines[..|s.lines| - 1], s.lines[|s.lines| - 1];
       || Displays(g, s, Blank(History(g, s.lines), g.width))
       || exists e: Editor ::
            && e.Text() == line && |Prompt(g, before)| + |e.before| + 2 < g.width
            && |Prompt(g, before)| + e.Length() < g.width
            && Displays(g, s, Blank(History(g, before) + [GivenUp(Prompt(g, before), e, g.width)]
                                    + Added(g, before, line), g.width))
  }

  ghost predicate OnScreen(g: Setting, s: Session) {
    if s.stopped then Closed(g, s) else Shown(g, s)
  }

  // ---------------------------------------------------------------------------------------------
  // The parts of the output

  lemma FeedEol(above: seq<string>, line: string, column: nat)
    requires column < |line|
    ensures FeedAll(Screen(above, line, column, Ground), EOL) == Blank(above + [line], |line|)
  {
    var s := Screen(above, line, column, Ground);
    assert EOL[1..] == [LF];
    FeedOne(Feed(s, CR), LF);
  }

  lemma FeedPrompt(above: seq<string>, prompt: string, width: nat)
    requires AllPrintable(prompt) && |prompt| < width
    ensures FeedAll(Blank(above, width), prompt) == Shows(above, prompt, Editor("", ""), width)
  {
    assert Blank(above, width) == At(above, "", Blanks(width)) by {
      assert "" + Blanks(width) == Blanks(width);
    }
    FeedText(above, "", prompt, Blanks(width));
    assert "" + prompt == prompt;
    assert Blanks(width)[|prompt|..] == Blanks(width - |prompt|);
    ShowsAt(above, prompt, Editor("", ""), width);
    assert prompt + "" == prompt && "" + Blanks(width - |prompt|) == Blanks(width - |prompt|);
  }

  lemma FeedGivenUp(above: seq<string>, prompt: string, e: Editor, width: nat)
    requires |prompt| + e.Length() < width && |prompt| + |e.before| + 2 < width
    ensures FeedAll(Shows(above, prompt, e, width), "^C" + EOL) == Blank(above + [GivenUp(prompt, e, width)], width)
  {
    var rest := e.after + Blanks(width - |prompt| - e.Length());
    ShowsAt(above, prompt, e, width);
    FeedTwice(Shows(above, prompt, e, width), "^C", EOL);
    FeedText(above, prompt + e.before, "^C", rest);
    var line := GivenUp(prompt, e, width);
    assert At(above, prompt + e.before + "^C", rest[2..]) == Screen(above, line, |prompt| + |e.before| + 2, Ground);
    FeedEol(above, line, |prompt| + |e.before| + 2);
  }

  lemma FeedFinished(above: seq<string>, prompt: string, e: Editor, width: nat)
    requires |prompt| + e.Length() < width
    ensures FeedAll(Shows(above, prompt, e, width), EOL) == Blank(above + [Finished(prompt, e.Text(), width)], width)
  {
    FeedEol(above, Finished(prompt, e.Text(), width), |prompt| + |e.before|);
  }

  /** The output of the command of a line, if it has one. */
  lemma FeedPrinted(g: Setting, above: seq<string>, before: seq<string>, line: string)
    requires Tidy(g)
    ensures FeedAll(Blank(above, g.width), Printed(g.c, before, line)) == Blank(above + Added(g, before, line), g.width)
  {
    if CommandOf(line) == [] {
      assert above + [] == above;
    } else {
      assert Adds(g.c.commands.prints(before, CommandOf(line)), g.shows(before, CommandOf(line)), g.width);
    }
  }

  /** Below a line that has ended, its command adds what it prints, and the prompt follows if the shell goes on. */
  lemma FeedEvaluated(g: Setting, s: Session, t: Session, above: seq<string>, terminated: bool)
    requires Tidy(g) && Displays(g, t, Blank(above, g.width)) && t.lines == s.lines
    ensures var text, r := t.line.editor.Text(), Evaluated(g.c, t, terminated);
            var after := above + Added(g, s.lines, text);
            if r.stopped then Displays(g, r, Blank(after, g.width))
            else |Prompt(g, r.lines)| < g.width ==>
                   Displays(g, r, Shows(after, Prompt(g, r.lines), Editor("", ""), g.width))
  {
    var text, r := t.line.editor.Text(), Evaluated(g.c, t, terminated);
    var printed := t.output + Printed(g.c, t.lines, text);
    FeedTwice(Blank([], g.width), t.output, Printed(g.c, t.lines, text));
    FeedPrinted(g, above, t.lines, text);
    if r.stopped {
      assert printed + "" == printed;
    } else if |Prompt(g, r.lines)| < g.width {
      FeedTwice(Blank([], g.width), printed, Prompt(g, r.lines));
      FeedPrompt(above + Added(g, s.lines, text), Prompt(g, r.lines), g.width);
    }
  }

  // ---------------------------------------------------------------------------------------------
  // Steps

  /** An edit keeps the screen in step. */
  lemma EditKeepsShown(g: Setting, s: Session, edit: Edit)
    requires Tidy(g) && Shown(g, s) && PrintableEdit(edit)
    requires |Prompt(g, s.lines)| + Apply(s.line.editor, edit).Length() < g.width
    ensures Shown(g, Edited(g.c, s, edit))
  {
    var e := s.line.editor;
    FeedTwice(Blank([], g.width), s.output, Echo(e, edit));
    EditIsShown(History(g, s.lines), Prompt(g, s.lines), e, edit, g.width);
    EditKeepsPrintable(e, edit);
  }

  lemma HistoryOfOneMore(g: Setting, lines: seq<string>, line: string)
    ensures History(g, lines + [line])
         == History(g, lines) + [Finished(Prompt(g, lines), line, g.width)] + Added(g, lines, line)
  {
    assert (lines + [line])[..|lines|] == lines;
  }

  /** A finished line scrolls up, its command prints, and the prompt follows or the shell ends. */
  lemma LineKeepsShown(g: Setting, s: Session)
    requires Tidy(g) && Shown(g, s) && !s.stopped
    ensures var r := Evaluated(g.c, s.(output := s.output + EOL), false);
            r.stopped || |Prompt(g, r.lines)| < g.width ==> OnScreen(g, r)
  {
    var e, t := s.line.editor, s.(output := s.output + EOL);
    FeedTwice(Blank([], g.width), s.output, EOL);
    FeedFinished(History(g, s.lines), Prompt(g, s.lines), e, g.width);
    FeedEvaluated(g, s, t, History(g, s.lines) + [Finished(Prompt(g, s.lines), e.Text(), g.width)], false);
    HistoryOfOneMore(g, s.lines, e.Text());
  }

  /** 0x03 gives the line up where the cursor stands, evaluates it and ends the shell. */
  lemma EtxCloses(g: Setting, s: Session)
    requires Tidy(g) && Shown(g, s) && |Prompt(g, s.lines)| + |s.line.editor.before| + 2 < g.width
    ensures Closed(g, Evaluated(g.c, s.(output := s.output + ("^C" + EOL)), true))
  {
    var e, t := s.line.editor, s.(output := s.output + ("^C" + EOL));
    var r := Evaluated(g.c, t, true);
    FeedTwice(Blank([], g.width), s.output, "^C" + EOL);
    FeedGivenUp(History(g, s.lines), Prompt(g, s.lines), e, g.width);
    FeedEvaluated(g, s, t, History(g, s.lines) + [GivenUp(Prompt(g, s.lines), e, g.width)], true);
    assert r.lines[..|r.lines| - 1] == s.lines;
  }

  lemma CharKeepsShown(g: Setting, s: Session, b: char)
    requires Tidy(g) && !s.stopped && Shown(g, s)
    requires IsPrintable(b) || b == CR || b == LF || b == BS || b == DEL
             || (b == ETX && |Prompt(g, s.lines)| + |s.line.editor.before| + 2 < g.width)
    ensures var r := OnChar(g.c, s, b); r.stopped || FitsWidth(g, r) ==> OnScreen(g, r)
  {
    if b == ETX {
      EtxCloses(g, s);
    } else if b == CR || b == LF {
      TerminatorKeepsShown(g, s, b);
    } else {
      TypedKeepsShown(g, s, b);
    }
  }

  lemma TerminatorKeepsShown(g: Setting, s: Session, b: char)
    requires Tidy(g) && !s.stopped && Shown(g, s) && (b == CR || b == LF)
    ensures var r := OnChar(g.c, s, b); r.stopped || FitsWidth(g, r) ==> OnScreen(g, r)
  {
    var carried := s.(line := s.line.(carriage := b));
    assert Shown(g, carried);
    if s.line.carriage == NUL || s.line.carriage == b {
      assert OnChar(g.c, s, b) == Evaluated(g.c, carried.(output := s.output + EOL), false);
      LineKeepsShown(g, carried);
    } else {
      assert s.output + "" == s.output;
      assert OnChar(g.c, s, b) == carried;
    }
  }

  /** The edit of a printable character or an erasure, after any line terminator was forgotten. */
  lemma TypedIsEdit(c: Config, s: Session, b: char) returns (edit: Edit)
    requires !s.stopped && (IsPrintable(b) || b == BS || b == DEL)
    ensures PrintableEdit(edit) && OnChar(c, s, b) == Edited(c, s.(line := s.line.(carriage := NUL)), edit)
  {
    edit := if b == BS || b == DEL then ErasePrevious else Insert(b);
  }

  lemma TypedKeepsShown(g: Setting, s: Session, b: char)
    requires Tidy(g) && !s.stopped && Shown(g, s) && (IsPrintable(b) || b == BS || b == DEL)
    ensures var r := OnChar(g.c, s, b); FitsWidth(g, r) ==> Shown(g, r) && !r.stopped
  {
    var carried := s.(line := s.line.(carriage := NUL));
    var edit := TypedIsEdit(g.c, s, b);
    ShownCarried(g, s);
    if FitsWidth(g, Edited(g.c, carried, edit)) {
      EditKeepsShown(g, carried, edit);
    }
  }

  lemma ShownCarried(g: Setting, s: Session)
    requires Shown(g, s)
    ensures Shown(g, s.(line := s.line.(carriage := NUL)))
  {
  }

  /** Any byte keeps the screen in step. */
  lemma StepKeepsShown(g: Setting, s: Session, b: char)
    requires Tidy(g) && !s.stopped && Shown(g, s) && Typeable(g, s, b)
    ensures var r := Step(g.c, s, b); r.stopped || FitsWidth(g, r) ==> OnScreen(g, r)
  {
    var o := E.Step(s.escape, b);
    var t := s.(escape := o.state);
    assert Shown(g, t);
    match o.status {
      case COMPLETED => EventKeepsShown(g, t, o.event);
      case CONSUMED =>
      case DISCARDED => CharKeepsShown(g, t, b);
    }
  }

  lemma EventKeepsShown(g: Setting, s: Session, event: E.Event)
    requires Tidy(g) && Shown(g, s)
    ensures var r := OnEvent(g.c, s, event); FitsWidth(g, r) ==> Shown(g, r)
  {
    if FitsWidth(g, OnEvent(g.c, s, event)) {
      match event {
        case RIGHT => EditKeepsShown(g, s, MoveRight);
        case LEFT => EditKeepsShown(g, s, MoveLeft);
        case DEL => EditKeepsShown(g, s, EraseNext);
        case _ =>
      }
    }
  }

  /**
   Over a whole session, whatever is typed: a terminal that is given every byte of the output shows each line that was
   entered after its prompt, with what its command printed, and then the prompt, the line under edit and its cursor,
   or a blank line once the shell has stopped.
   */
  lemma {:induction false} SessionIsShown(g: Setting, s: Session, bytes: string)
    requires Tidy(g) && OnScreen(g, s) && Orderly(g, s, bytes)
    ensures OnScreen(g, RunBytes(g.c, s, bytes))
    decreases |bytes|
  {
    if s.stopped {
      StoppedStays(g.c, s, bytes);
    } else if bytes != "" {
      StepKeepsShown(g, s, bytes[0]);
      SessionIsShown(g, Step(g.c, s, bytes[0]), bytes[1..]);
    }
  }

  /** The session begins with the prompt on an empty screen. */
  lemma SessionBeginsShown(g: Setting)
    requires Tidy(g) && |Prompt(g, [])| < g.width
    ensures OnScreen(g, Prompted(g.c, Session(E.Rest, Line(Editor("", ""), NUL), [], false, "")))
  {
    FeedPrompt([], Prompt(g, []), g.width);
    assert "" + Prompt(g, []) == Prompt(g, []);
  }

  // ---------------------------------------------------------------------------------------------
  // Tidy output

  /** Lines of text, each with its end. */
  function Printout(texts: seq<string>): string {
    if texts == [] then "" else texts[0] + EOL + Printout(texts[1..])
  }

  function Padded(texts: seq<string>, width: nat): seq<string> {
    if texts == [] then [] else [Finished(texts[0], "", width)] + Padded(texts[1..], width)
  }

  lemma FeedLine(above: seq<string>, text: string, width: nat)
    requires AllPrintable(text) && |text| < width
    ensures FeedAll(Blank(above, width), text + EOL) == Blank(above + [Finished(text, "", width)], width)
  {
    FeedTwice(Blank(above, width), text, EOL);
    FeedPrompt(above, text, width);
    assert Editor("", "").Text() == "";
    FeedFinished(above, text, Editor("", ""), width);
  }

  predicate IsPrintout(texts: seq<string>, width: nat) {
    width > 0 && forall i | 0 <= i < |texts| :: AllPrintable(texts[i]) && |texts[i]| < width
  }

  /** Printable lines that are shorter than the terminal is wide add themselves; no output adds nothing. */
  lemma {:induction false} PrintoutAdds(texts: seq<string>, width: nat, above: seq<string>)
    requires IsPrintout(texts, width)
    ensures FeedAll(Blank(above, width), Printout(texts)) == Blank(above + Padded(texts, width), width)
    decreases |texts|
  {
    if texts == [] {
      assert above + [] == above;
    } else {
      var line := [Finished(texts[0], "", width)];
      FeedTwice(Blank(above, width), texts[0] + EOL, Printout(texts[1..]));
      FeedLine(above, texts[0], width);
      PrintoutAdds(texts[1..], width, above + line);
      Associate(above, line, Padded(texts[1..], width));
    }
  }

  lemma PrintoutIsTidy(texts: seq<string>, width: nat)
    requires IsPrintout(texts, width)
    ensures Adds(Printout(texts), Padded(texts, width), width)
  {
    forall above: seq<string>
      ensures FeedAll(Blank(above, width), Printout(texts)) == Blank(above + Padded(texts, width), width)
    {
      PrintoutAdds(texts, width, above);
    }
  }

  lemma Associate<T>(a: seq<T>, b: seq<T>, c: seq<T>)
    ensures a + b + c == a + (b + c)
  {
  }
}
