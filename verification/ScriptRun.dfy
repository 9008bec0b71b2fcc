/** A shell that reads its commands from a file runs exactly the lines of the file. */
module ScriptRun {
  import opened Ascii
  import opened LineEditor
  import opened Screens
  import opened ShellRun
  import E = EscapeSequences

  predicate IsTerminator(t: string) {
    t == [LF] || t == [CR] || t == [CR, LF] || t == [LF, CR]
  }

  predicate Fits(line: string) {
    AllPrintable(line) && |line| < MAX_LINE_LENGTH
  }

  /** A file: lines with their terminators, and what follows the last terminator. */
  function Content(lines: seq<string>, terminators: seq<string>, last: string): string
    requires |lines| == |terminators|
  {
    if lines == [] then last else lines[0] + terminators[0] + Content(lines[1..], terminators[1..], last)
  }

  /** The shell is running, with nothing but some text typed in the current line. */
  predicate At(s: Session, text: string, lines: seq<string>) {
    s.escape.Rest? && !s.stopped && s.line.editor == Editor(text, "") && s.lines == lines
  }

  lemma CharIsCollected(c: Config, s: Session, text: string, b: char, lines: seq<string>)
    requires At(s, text, lines) && IsPrintable(b) && |text| < MAX_LINE_LENGTH - 1
    ensures At(Step(c, s, b), text + [b], lines) && Step(c, s, b).line.carriage == NUL
  {
    assert E.Step(E.Rest, b) == E.Outcome(E.Rest, E.DISCARDED, E.UNDEFINED);
  }

  lemma {:induction false} TextIsCollected(c: Config, s: Session, text: string, more: string, lines: seq<string>)
    requires At(s, text, lines) && Fits(more) && |text| + |more| < MAX_LINE_LENGTH
    ensures At(RunBytes(c, s, more), text + more, lines)
    ensures more != "" ==> RunBytes(c, s, more).line.carriage == NUL
    decreases |more|
  {
    FirstMoved(text, more);
    if more != "" {
      CharIsCollected(c, s, text, more[0], lines);
      TextIsCollected(c, Step(c, s, more[0]), text + [more[0]], more[1..], lines);
    }
  }

  lemma FirstMoved<T>(a: seq<T>, b: seq<T>)
    ensures if b == [] then a + b == a else a + [b[0]] + b[1..] == a + b
  {
  }

  lemma TerminatorEndsLine(c: Config, s: Session, text: string, t: string, lines: seq<string>)
    requires At(s, text, lines) && s.line.carriage == NUL && IsTerminator(t) && !Stops(c, lines, text)
    ensures At(RunBytes(c, s, t), "", lines + [text])
  {
    assert Editor(text, "").Text() == text;
    var one := Step(c, s, t[0]);
    assert At(one, "", lines + [text]) && one.line.carriage == t[0];
    if |t| == 2 {
      assert t[1..][1..] == "";
      var two := Step(c, one, t[1]);
      assert At(two, "", lines + [text]);
      assert RunBytes(c, one, t[1..]) == RunBytes(c, two, "");
    } else {
      assert t[1..] == "";
    }
  }

  /** A line that is not empty, fits the buffer and does not end the shell after those before it, and its terminator. */
  predicate RunnableLine(c: Config, before: seq<string>, line: string, terminator: string) {
    line != "" && Fits(line) && !Stops(c, before, line) && IsTerminator(terminator)
  }

  lemma LineIsRun(c: Config, s: Session, line: string, t: string, before: seq<string>)
    requires At(s, "", before) && RunnableLine(c, before, line, t)
    ensures At(RunBytes(c, s, line + t), "", before + [line])
  {
    TextIsCollected(c, s, "", line, before);
    assert "" + line == line;
    RunTwice(c, s, line, t);
    TerminatorEndsLine(c, RunBytes(c, s, line), line, t, before);
  }

  lemma EtxEndsScript(c: Config, s: Session, text: string, lines: seq<string>)
    requires At(s, text, lines)
    ensures var r := RunBytes(c, s, [ETX]); r.stopped && r.lines == lines + [text]
  {
    E.ControlByteAlwaysPasses(s.escape, ETX);
    assert Editor(text, "").Text() == text;
    assert [ETX][1..] == "";
  }

  predicate Runnable(c: Config, before: seq<string>, lines: seq<string>, terminators: seq<string>)
    decreases |lines|
  {
    && |lines| == |terminators|
    && (lines == [] ||
        (RunnableLine(c, before, lines[0], terminators[0])
         && Runnable(c, before + [lines[0]], lines[1..], terminators[1..])))
  }

  /** The bytes end the shell with these lines evaluated. */
  predicate EndsWith(c: Config, s: Session, bytes: string, lines: seq<string>) {
    var r := RunBytes(c, s, bytes);
    r.stopped && r.lines == lines
  }

  /**
   The bytes of a file, and the one 0x03 that follows them: the lines of the file are evaluated in order, then what
   follows the last terminator (nothing, when a terminator ends the file), and the shell stops.
   */
  lemma {:induction false} ScriptRunsItsLines(c: Config, s: Session, before: seq<string>, lines: seq<string>,
      terminators: seq<string>, last: string)
    requires Runnable(c, before, lines, terminators) && Fits(last) && At(s, "", before)
    ensures EndsWith(c, s, Content(lines, terminators, last) + [ETX], before + lines + [last])
    decreases |lines|
  {
    if lines == [] {
      LastIsRun(c, s, last, before);
      assert before + lines == before;
    } else {
      var next := FirstLineIsRun(c, s, before, lines, terminators);
      ScriptRunsItsLines(c, next, before + [lines[0]], lines[1..], terminators[1..], last);
      FirstLine(c, s, next, before, lines, terminators, last);
    }
  }

  lemma FirstLineIsRun(c: Config, s: Session, before: seq<string>, lines: seq<string>, terminators: seq<string>)
    returns (next: Session)
    requires Runnable(c, before, lines, terminators) && lines != [] && At(s, "", before)
    ensures next == RunBytes(c, s, lines[0] + terminators[0]) && At(next, "", before + [lines[0]])
  {
    next := RunBytes(c, s, lines[0] + terminators[0]);
    LineIsRun(c, s, lines[0], terminators[0], before);
  }

  /** The first line, then the rest of the file. */
  lemma FirstLine(c: Config, s: Session, next: Session, before: seq<string>, lines: seq<string>,
      terminators: seq<string>, last: string)
    requires |lines| == |terminators| && lines != [] && next == RunBytes(c, s, lines[0] + terminators[0])
    requires EndsWith(c, next, Content(lines[1..], terminators[1..], last) + [ETX],
                      before + [lines[0]] + lines[1..] + [last])
    ensures EndsWith(c, s, Content(lines, terminators, last) + [ETX], before + lines + [last])
  {
    FirstMoved(before, lines);
    FirstOfContent(lines, terminators, last);
    RunTwice(c, s, lines[0] + terminators[0], Content(lines[1..], terminators[1..], last) + [ETX]);
  }

  lemma FirstOfContent(lines: seq<string>, terminators: seq<string>, last: string)
    requires |lines| == |terminators| && lines != []
    ensures Content(lines, terminators, last) + [ETX]
         == lines[0] + terminators[0] + (Content(lines[1..], terminators[1..], last) + [ETX])
  {
  }

  lemma LastIsRun(c: Config, s: Session, last: string, before: seq<string>)
    requires At(s, "", before) && Fits(last)
    ensures EndsWith(c, s, last + [ETX], before + [last])
  {
    TextIsCollected(c, s, "", last, before);
    assert "" + last == last;
    RunTwice(c, s, last, [ETX]);
    EtxEndsScript(c, RunBytes(c, s, last), last, before);
  }

  /** The script on its file: the proxy yields the content and a single 0x03, and the shell ends having run it. */
  method RunScript(shell: Shell, lines: seq<string>, terminators: seq<string>, last: string) returns (waiting: bool)
    requires shell.Valid() && shell.state == IDLE && shell.input.Valid() && shell.Apart() && shell.semaphore > 0
    requires shell.View() == Session(E.Rest, Line(Editor("", ""), NUL), [], false, shell.terminal.output)
    requires shell.input.node != null && shell.input.node.access.read
    requires shell.input.position == 0 && !shell.input.eof
    requires Runnable(shell.config, [], lines, terminators) && Fits(last)
    requires shell.input.node.Contents() == Content(lines, terminators, last)
    modifies shell`state, shell`lines, shell`semaphore, shell.terminal, shell.escapeParser, shell.escapeParser.sequence
    modifies shell.lineParser, shell.lineParser.command, shell.input, shell.input.keyboard
    ensures !waiting && shell.lines == lines + [last]
  {
    ghost var start := Prompted(shell.config, shell.View());
    ScriptRunsItsLines(shell.config, start, [], lines, terminators, last);
    assert shell.input.Stream() == Content(lines, terminators, last) + [ETX];
    assert [] + lines == lines;
    waiting := shell.Run();
  }
}
