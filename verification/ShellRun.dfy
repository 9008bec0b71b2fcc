/** `Shell::run` and `evaluate`: typed bytes become edits, lines and commands. */
module ShellRun {
  import opened Ascii
  import opened Xcore
  import opened TerminalHelpers
  import opened LineEditor
  import opened TerminalProxy
  import E = EscapeSequences
  import T = Tokenizer

  const ARGUMENT_COUNT := 16
  const RX_BUFFER := 32

  /**
   The commands: what one prints, and whether it raises the signal that ends the shell. Both may depend on everything
   that happened, told by the lines evaluated before, and so may the prompt, which shows the working directory.
   */
  datatype Commands = Commands(
    prints: (seq<string>, seq<string>) -> string,
    signals: (seq<string>, seq<string>) -> bool)

  datatype Config = Config(echo: bool, interactive: bool, prompt: seq<string> -> string, commands: Commands)

  // ---------------------------------------------------------------------------------------------
  // The shell as a fold over bytes

  /** What the shell has seen and done: the recogniser, the line, the lines evaluated, everything printed. */
  datatype Session = Session(escape: E.Recogniser, line: Line, lines: seq<string>, stopped: bool, output: string) {
    predicate Valid() {
      escape.Valid() && line.editor.Valid()
    }
  }

  /** Tokens as the C strings that a command gets to see. */
  function Arguments(tokens: seq<string>): (r: seq<string>)
    ensures |r| == |tokens| && forall i | 0 <= i < |tokens| :: r[i] == CString(tokens[i])
  {
    if tokens == [] then [] else [CString(tokens[0])] + Arguments(tokens[1..])
  }

  predicate IsComment(argument: string) {
    argument != "" && argument[0] == '#'
  }

  /** The arguments of a line that starts a command: a line that splits into some, the first not a comment. */
  function CommandOf(line: string): seq<string> {
    var split := T.Tokenize(line, ARGUMENT_COUNT);
    if split.Tokens? && split.list != [] && !IsComment(CString(split.list[0])) then Arguments(split.list) else []
  }

  function Printed(c: Config, before: seq<string>, line: string): string {
    if CommandOf(line) == [] then "" else c.commands.prints(before, CommandOf(line))
  }

  predicate Stops(c: Config, before: seq<string>, line: string) {
    CommandOf(line) != [] && c.commands.signals(before, CommandOf(line))
  }

  function Edited(c: Config, s: Session, edit: Edit): Session {
    s.(line := s.line.(editor := Apply(s.line.editor, edit)),
       output := s.output + if c.echo then Echo(s.line.editor, edit) else "")
  }

  function OnEvent(c: Config, s: Session, event: E.Event): Session {
    match event
    case RIGHT => Edited(c, s, MoveRight)
    case LEFT => Edited(c, s, MoveLeft)
    case DEL => Edited(c, s, EraseNext)
    case _ => s
  }

  /** The line is evaluated and a new one begins, unless the shell ends. */
  function Evaluated(c: Config, s: Session, terminated: bool): Session {
    var text := s.line.editor.Text();
    var stopped, lines := terminated || Stops(c, s.lines, text), s.lines + [text];
    Session(s.escape, s.line.(editor := Editor("", "")), lines, stopped,
            s.output + Printed(c, s.lines, text) + if c.interactive && !stopped then c.prompt(lines) else "")
  }

  function OnChar(c: Config, s: Session, b: char): Session {
    var p := ParseChar(s.line, b);
    var t := s.(line := p.line, output := s.output + if c.echo then p.echo else "");
    if p.status == COMPLETED || p.status == TERMINATED then Evaluated(c, t, p.status == TERMINATED) else t
  }

  /** One byte. A shell that has stopped reads no more. */
  function Step(c: Config, s: Session, b: char): (r: Session)
    ensures s.Valid() ==> r.Valid()
  {
    if s.stopped then s
    else
      var o := E.Step(s.escape, b);
      var t := s.(escape := o.state);
      match o.status
      case COMPLETED => OnEvent(c, t, o.event)
      case CONSUMED => t
      case DISCARDED => OnChar(c, t, b)
  }

  function RunBytes(c: Config, s: Session, bytes: string): (r: Session)
    ensures s.Valid() ==> r.Valid()
    decreases |bytes|
  {
    if bytes == "" then s else RunBytes(c, Step(c, s, bytes[0]), bytes[1..])
  }

  /** The prompt that an interactive shell starts with. */
  function Prompted(c: Config, s: Session): Session {
    s.(output := if c.interactive then s.output + c.prompt(s.lines) else s.output)
  }

  /** However the bytes are split, the shell ends up in the same place. */
  lemma {:induction false} RunTwice(c: Config, s: Session, a: string, b: string)
    ensures RunBytes(c, s, a + b) == RunBytes(c, RunBytes(c, s, a), b)
    decreases |a|
  {
    if a == "" {
      assert a + b == b;
    } else {
      assert (a + b)[0] == a[0] && (a + b)[1..] == a[1..] + b;
      RunTwice(c, Step(c, s, a[0]), a[1..], b);
    }
  }

  lemma {:induction false} StoppedStays(c: Config, s: Session, bytes: string)
    requires s.stopped
    ensures RunBytes(c, s, bytes) == s
    decreases |bytes|
  {
    if bytes != "" {
      StoppedStays(c, s, bytes[1..]);
    }
  }

  // ---------------------------------------------------------------------------------------------
  // Keys and lines

  /** The outcome of a key that is recognised at rest: nothing but the editor and, with echo, the output changes. */
  predicate KeyPressed(c: Config, s: Session, r: Session, before: string, after: string) {
    r == s.(line := s.line.(editor := Editor(before, after)), output := if c.echo then r.output else s.output)
  }

  lemma KeyIsEvent(c: Config, s: Session, p: string, final: char)
    requires s.escape.Rest? && !s.stopped && |p| <= 1 && E.AllParameters(p) && E.IsFinal(final)
    ensures RunBytes(c, s, [0x1B as char, '['] + p + [final]) == OnEvent(c, s, E.EventOf(p + [final]))
  {
    var bytes := [0x1B as char, '['] + p + [final];
    var one := s.(escape := E.Escape);
    var two := s.(escape := E.Sequence(""));
    var three := s.(escape := E.Sequence(p));
    assert bytes[1..] == ['['] + p + [final] && bytes[1..][1..] == p + [final];
    assert Step(c, s, bytes[0]) == one && Step(c, one, '[') == two;
    assert RunBytes(c, s, bytes) == RunBytes(c, two, p + [final]);
    if p != "" {
      assert p + [final] == [p[0], final] && [p[0], final][1..] == [final] && p == [p[0]] && "" + p == p;
      assert Step(c, two, p[0]) == three;
    } else {
      assert p + [final] == [final];
    }
    assert RunBytes(c, two, p + [final]) == RunBytes(c, three, [final]);
    assert [final][1..] == "";
    var last := Step(c, three, final);
    assert RunBytes(c, three, [final]) == last;
    assert three.(escape := E.Rest) == s;
  }

  /** The right and left keys move the cursor over one character, and the delete key erases the one at the cursor. */
  lemma KeysEdit(c: Config, s: Session)
    requires s.escape.Rest? && !s.stopped
    ensures var e, r := s.line.editor, RunBytes(c, s, [0x1B as char, '[', 'C']);
            if e.after == "" then KeyPressed(c, s, r, e.before, "")
            else KeyPressed(c, s, r, e.before + [e.after[0]], e.after[1..])
    ensures var e, r := s.line.editor, RunBytes(c, s, [0x1B as char, '[', 'D']);
            var n := |e.before|;
            if n == 0 then KeyPressed(c, s, r, "", e.after)
            else KeyPressed(c, s, r, e.before[..n - 1], [e.before[n - 1]] + e.after)
    ensures var e, r := s.line.editor, RunBytes(c, s, [0x1B as char, '[', '3', '~']);
            KeyPressed(c, s, r, e.before, if e.after == "" then "" else e.after[1..])
    ensures RunBytes(c, s, [0x1B as char, '[', 'A']) == s == RunBytes(c, s, [0x1B as char, '[', 'B'])
  {
    assert [0x1B as char, '['] + "" + ['C'] == [0x1B as char, '[', 'C'];
    assert [0x1B as char, '['] + "" + ['D'] == [0x1B as char, '[', 'D'];
    assert [0x1B as char, '['] + "" + ['A'] == [0x1B as char, '[', 'A'];
    assert [0x1B as char, '['] + "" + ['B'] == [0x1B as char, '[', 'B'];
    assert [0x1B as char, '['] + "3" + ['~'] == [0x1B as char, '[', '3', '~'];
    KeyIsEvent(c, s, "", 'C');
    KeyIsEvent(c, s, "", 'D');
    KeyIsEvent(c, s, "", 'A');
    KeyIsEvent(c, s, "", 'B');
    KeyIsEvent(c, s, "3", '~');
    assert s.output + "" == s.output;
  }

  lemma {:induction false} ArgumentsAre(tokens: seq<string>)
    requires forall i | 0 <= i < |tokens| :: NUL !in tokens[i]
    ensures Arguments(tokens) == tokens
    decreases |tokens|
  {
    if tokens != [] {
      CStringWithoutNul(tokens[0]);
      ArgumentsAre(tokens[1..]);
    }
  }

  /**
   Which lines start a command, and with which arguments: those of 1 to 16 written arguments, the first of which does
   not begin with '#'.
   */
  lemma LineStartsCommand(items: seq<T.Item>, controls: string)
    requires T.Writable(items) && T.EndsWell(items) && forall i | 0 <= i < |controls| :: T.ControlCode(controls[i])
    requires forall i | 0 <= i < |items| :: NUL !in items[i].text
    ensures CommandOf(T.CommandText(items) + controls)
         == if 1 <= |items| <= 16 && (items[0].text == "" || items[0].text[0] != '#') then T.Texts(items) else []
  {
    T.WriteSplitRoundTrip(items, controls, 16);
    TextsHaveNoNul(items);
    if items != [] {
      CStringWithoutNul(items[0].text);
      ArgumentsAre(T.Texts(items));
    }
  }

  lemma {:induction false} TextsHaveNoNul(items: seq<T.Item>)
    requires forall i | 0 <= i < |items| :: NUL !in items[i].text
    ensures forall i | 0 <= i < |T.Texts(items)| :: NUL !in T.Texts(items)[i]
    decreases |items|
  {
    if items != [] {
      TextsHaveNoNul(items[1..]);
    }
  }

  /** A line is evaluated once: it is added to the lines, and its command alone prints and may end the shell. */
  lemma LineIsEvaluated(c: Config, s: Session, command: seq<string>)
    requires s.escape.Rest? && !s.stopped && s.line.carriage as int == 0
    requires CommandOf(s.line.editor.Text()) == command
    ensures var text, r := s.line.editor.Text(), RunBytes(c, s, [0x0D as char]);
            && r.lines == s.lines + [text] && r.line.editor == Editor("", "") && r.escape.Rest?
            && (r.stopped <==> command != [] && c.commands.signals(s.lines, command))
            && r.output == s.output + (if c.echo then [0x0D as char, 0x0A as char] else "")
                           + (if command == [] then "" else c.commands.prints(s.lines, command))
                           + (if c.interactive && !r.stopped then c.prompt(s.lines + [text]) else "")
  {
    assert [0x0D as char][1..] == "";
    E.ControlByteAlwaysPasses(s.escape, 0x0D as char);
    assert s.(escape := E.Rest) == s;
    assert Step(c, s, 0x0D as char) == OnChar(c, s, 0x0D as char);
  }

  /** Only an interactive shell begins with the prompt. */
  lemma PromptComesFirst(c: Config, s: Session)
    ensures Prompted(c, s).output == if c.interactive then s.output + c.prompt(s.lines) else s.output
    ensures Prompted(c, s) == s.(output := Prompted(c, s).output)
  {
  }

  /** Any other byte at rest that begins no key edits the line as typed, and neither evaluates nor ends anything. */
  lemma ByteIsTyped(c: Config, s: Session, b: char)
    requires s.Valid() && s.escape.Rest? && !s.stopped && b as int !in {3, 10, 13, 27}
    ensures var r := RunBytes(c, s, [b]);
            && r.escape.Rest? && !r.stopped && r.lines == s.lines && (!c.echo ==> r.output == s.output)
            && exists status :: TypedAs(s.line.editor, s.line.carriage, b, r.line.editor, r.line.carriage, status)
  {
    assert [b][1..] == "";
    TypedCharacter(s.line, b);
    assert s.(escape := E.Rest) == s;
    assert Step(c, s, b) == OnChar(c, s, b);
    assert s.output + "" == s.output;
  }

  /** 0x03 evaluates the line as well, and always ends the shell. */
  lemma EtxEndsShell(c: Config, s: Session)
    requires s.escape.Rest? && !s.stopped
    ensures var r := RunBytes(c, s, [0x03 as char]);
            && r.stopped && r.lines == s.lines + [s.line.editor.Text()] && r.line.editor == Editor("", "")
            && r.output == s.output + (if c.echo then "^C" + [0x0D as char, 0x0A as char] else "")
                           + Printed(c, s.lines, s.line.editor.Text())
  {
    assert [0x03 as char][1..] == "";
    E.ControlByteAlwaysPasses(s.escape, 0x03 as char);
    assert s.(escape := E.Rest) == s;
    assert Step(c, s, 0x03 as char) == OnChar(c, s, 0x03 as char);
  }

  // ---------------------------------------------------------------------------------------------
  // The shell on its parsers

  datatype State = IDLE | EXEC | STOP

  class Shell {
    const config: Config
    const input: Input
    const terminal: Terminal
    const escapeParser: E.EscapeSeqParser
    const lineParser: LineParser
    var state: State
    var semaphore: nat
    var lines: seq<string>

    /** A shell reads commands from the terminal, or from a script that is opened for it. */
    constructor (config: Config, input: Input, terminal: Terminal)
      requires input.Valid()
      ensures Valid() && this.config == config && this.input == input && this.terminal == terminal
      ensures semaphore == if input.node != null then 1 else 0
      ensures View() == Session(E.Rest, Line(Editor("", ""), NUL), [], false, terminal.output)
      ensures fresh(escapeParser) && fresh(escapeParser.sequence) && fresh(lineParser) && fresh(lineParser.command)
    {
      this.config, this.input, this.terminal := config, input, terminal;
      escapeParser := new E.EscapeSeqParser();
      lineParser := new LineParser(terminal, config.echo);
      state := IDLE;
      semaphore := if input.node != null then 1 else 0;
      lines := [];
    }

    /** The parts belong together, whatever the line's buffer holds. */
    ghost predicate Wired()
      reads this, escapeParser, escapeParser.sequence, lineParser
    {
      && lineParser.terminal == terminal && lineParser.echo == config.echo
      && escapeParser.sequence != lineParser.command
      && escapeParser.Valid() && lineParser.Sized()
    }

    ghost predicate Valid()
      reads this, escapeParser, escapeParser.sequence, lineParser, lineParser.command
    {
      Wired() && lineParser.Valid() && state != EXEC
    }

    ghost function View(): (s: Session)
      requires escapeParser.Valid()
      reads this, terminal, escapeParser, escapeParser.sequence, lineParser
    {
      Session(escapeParser.View(), lineParser.State(), lines, state == STOP, terminal.output)
    }

    /** Splits the line in its own buffer and runs the command; the state is EXEC while it runs. */
    method Evaluate()
      requires Valid() && state == IDLE
      modifies this`state, this`lines, terminal, lineParser.command
      ensures Wired() && escapeParser.View() == old(escapeParser.View())
      ensures var text := lineParser.editor.Text();
              && lines == old(lines) + [text]
              && state == (if Stops(config, old(lines), text) then STOP else IDLE)
              && terminal.output == old(terminal.output) + Printed(config, old(lines), text)
    {
      var before := lines;
      ghost var text := lineParser.editor.Text();
      assert lineParser.command[..lineParser.length] == text;
      lines := lines + [lineParser.command[..lineParser.length]];
      var arguments := new nat[ARGUMENT_COUNT](_ => 0);
      var res, count := T.ParseCommandString(arguments, lineParser.command, lineParser.length);
      if res == E_OK {
        ghost var tokens := T.Tokenize(text, ARGUMENT_COUNT).list;
        var argv := ReadArguments(arguments, count, lineParser.command, tokens);
        if !IsComment(argv[0]) {
          state := EXEC;
          terminal.Write(config.commands.prints(before, argv));
          state := if config.commands.signals(before, argv) then STOP else IDLE;
        }
      }
    }

    method HandleEvent(event: E.Event)
      requires Valid() && state == IDLE
      modifies terminal, lineParser, lineParser.command
      ensures Valid() && View() == OnEvent(config, old(View()), event)
    {
      if event == E.RIGHT {
        lineParser.MoveCursorRight();
      } else if event == E.LEFT {
        lineParser.MoveCursorLeft();
      } else if event == E.DEL {
        var done := lineParser.EraseNext();
      }
    }

    /** A line that is complete, or the last one: it is evaluated, and the parser starts afresh. */
    method EvaluateLine(lineStatus: Status)
      requires Valid() && state == IDLE && (lineStatus == COMPLETED || lineStatus == TERMINATED)
      modifies this`state, this`lines, terminal, lineParser, lineParser.command
      ensures Valid() && View() == Evaluated(config, old(View()), lineStatus == TERMINATED)
    {
      var promptRequired := false;
      Evaluate();
      lineParser.Reset();
      if lineStatus != TERMINATED {
        promptRequired := state != STOP;
      } else {
        state := STOP;
      }
      if state == STOP {
        return;
      }
      if promptRequired && config.interactive {
        terminal.Write(config.prompt(lines));
      }
    }

    method HandleChar(b: char)
      requires Valid() && state == IDLE
      modifies this`state, this`lines, terminal, lineParser, lineParser.command
      ensures Valid() && View() == OnChar(config, old(View()), b)
    {
      var lineStatus := lineParser.Parse(b);
      if lineStatus == COMPLETED || lineStatus == TERMINATED {
        EvaluateLine(lineStatus);
      }
    }

    /** One byte of the input. */
    method HandleByte(b: char)
      requires Valid() && state == IDLE
      modifies this`state, this`lines, terminal, escapeParser, escapeParser.sequence, lineParser, lineParser.command
      ensures Valid() && View() == Step(config, old(View()), b)
    {
      var escapeStatus := escapeParser.Parse(b);
      if escapeStatus == E.COMPLETED {
        HandleEvent(escapeParser.LastEvent());
      } else if escapeStatus == E.DISCARDED {
        HandleChar(b);
      }
    }

    /** The loop over one buffer, left as soon as the shell stops. */
    method HandleBuffer(rxBuffer: string)
      requires Valid() && state == IDLE
      modifies this`state, this`lines, terminal, escapeParser, escapeParser.sequence, lineParser, lineParser.command
      ensures Valid() && View() == RunBytes(config, old(View()), rxBuffer)
    {
      var i := 0;
      while i < |rxBuffer| && state != STOP
        invariant i <= |rxBuffer| && Valid()
        invariant RunBytes(config, old(View()), rxBuffer) == RunBytes(config, View(), rxBuffer[i..])
      {
        HandleByte(rxBuffer[i]);
        assert rxBuffer[i..][1..] == rxBuffer[i + 1..];
        i := i + 1;
      }
      if state == STOP {
        StoppedStays(config, View(), rxBuffer[i..]);
      }
    }

    /**
     Handles input until the shell stops, or waits for input that never comes. However the bytes arrive and however they
     are read, the outcome is that of all of them in order.
     */
    method Run() returns (waiting: bool)
      requires Valid() && state == IDLE && input.Valid() && Apart()
      requires semaphore > 0 || Drained()
      modifies this`state, this`lines, this`semaphore, terminal, escapeParser, escapeParser.sequence
      modifies lineParser, lineParser.command, input, input.keyboard
      ensures Valid() && waiting == (state != STOP)
      ensures View() == RunBytes(config, Prompted(config, old(View())), old(input.Stream()))
    {
      if config.interactive {
        terminal.Write(config.prompt(lines));
      }
      waiting := HandleInput(RunBytes(config, View(), input.Stream()));
      if state == STOP {
        StoppedStays(config, View(), input.Stream());
      }
    }

    /** Everything that has arrived was read. */
    ghost predicate Drained()
      requires input.Valid()
      reads this, input, input.keyboard, input.node, if input.node == null then {} else {input.node.dataBuffer}
    {
      if input.node != null then input.Stream() == "" else input.keyboard.unread == ""
    }

    /** The outer loop: waits, and drains the input. */
    method HandleInput(ghost outcome: Session) returns (waiting: bool)
      requires Valid() && state == IDLE && input.Valid() && Apart()
      requires semaphore > 0 || Drained()
      requires outcome == RunBytes(config, View(), input.Stream())
      modifies this`state, this`lines, this`semaphore, terminal, escapeParser, escapeParser.sequence
      modifies lineParser, lineParser.command, input, input.keyboard
      ensures Valid() && input.Valid() && waiting == (state != STOP)
      ensures outcome == RunBytes(config, View(), input.Stream())
      ensures waiting ==> input.Stream() == ""
    {
      waiting := false;
      while state != STOP
        invariant Valid() && input.Valid() && (state == STOP || semaphore > 0 || Drained())
        invariant outcome == RunBytes(config, View(), input.Stream())
        decreases |input.keyboard.coming|, semaphore
      {
        var woken := WaitAndDrain(outcome);
        if !woken {
          return true;
        }
      }
    }

    /** One turn of the outer loop. */
    method WaitAndDrain(ghost outcome: Session) returns (woken: bool)
      requires Valid() && state == IDLE && input.Valid() && Apart()
      requires semaphore > 0 || Drained()
      requires outcome == RunBytes(config, View(), input.Stream())
      modifies this`state, this`lines, this`semaphore, terminal, escapeParser, escapeParser.sequence
      modifies lineParser, lineParser.command, input, input.keyboard
      ensures Valid() && input.Valid()
      ensures outcome == RunBytes(config, View(), input.Stream())
      ensures if woken then
                && (state == STOP || Drained())
                && Fewer(|input.keyboard.coming|, semaphore, old(|input.keyboard.coming|), old(semaphore))
              else state == IDLE && input.Stream() == ""
    {
      woken := Wait();
      if woken {
        Drain(outcome);
      }
    }

    /** Waits for a post, which the next burst brings when none is pending. */
    method Wait() returns (woken: bool)
      requires input.Valid() && (semaphore > 0 || Drained())
      modifies this`semaphore, input.keyboard
      ensures input.Stream() == old(input.Stream())
      ensures if woken then Fewer(|input.keyboard.coming|, semaphore, old(|input.keyboard.coming|), old(semaphore))
              else input.Stream() == ""
    {
      if semaphore > 0 {
        semaphore := semaphore - 1;
        woken := true;
      } else {
        woken := input.keyboard.Await();
      }
    }

    /** Nothing else of the shell is the buffer of its script. */
    ghost predicate Apart()
      reads input.node
    {
      input.node != null ==>
        input.node.dataBuffer != escapeParser.sequence && input.node.dataBuffer != lineParser.command
    }

    /** The inner loop: reads until nothing has arrived, or the shell stops. */
    method Drain(ghost outcome: Session)
      requires Valid() && state == IDLE && input.Valid() && Apart()
      requires outcome == RunBytes(config, View(), input.Stream())
      modifies this`state, this`lines, this`semaphore, terminal, escapeParser, escapeParser.sequence
      modifies lineParser, lineParser.command, input, input.keyboard
      ensures Valid() && input.Valid() && (state == STOP || Drained())
      ensures outcome == RunBytes(config, View(), input.Stream())
      ensures Posted(|input.keyboard.coming|, semaphore, old(|input.keyboard.coming|), old(semaphore))
    {
      var more := true;
      while state != STOP && more
        invariant Valid() && input.Valid() && (more || Drained())
        invariant outcome == RunBytes(config, View(), input.Stream())
        invariant Posted(|input.keyboard.coming|, semaphore, old(|input.keyboard.coming|), old(semaphore))
        decreases |input.Stream()|, more
      {
        more := ReadAndHandle(outcome);
      }
    }

    /** One buffer: read, and handled unless nothing has arrived. */
    method ReadAndHandle(ghost outcome: Session) returns (more: bool)
      requires Valid() && state == IDLE && input.Valid() && Apart()
      requires outcome == RunBytes(config, View(), input.Stream())
      modifies this`state, this`lines, this`semaphore, terminal, escapeParser, escapeParser.sequence
      modifies lineParser, lineParser.command, input, input.keyboard
      ensures Valid() && input.Valid() && (more || Drained())
      ensures outcome == RunBytes(config, View(), input.Stream())
      ensures more ==> |input.Stream()| < |old(input.Stream())|
      ensures !more ==> |input.Stream()| == |old(input.Stream())|
      ensures Posted(|input.keyboard.coming|, semaphore, old(|input.keyboard.coming|), old(semaphore))
    {
      var rxBuffer := ReadBuffer();
      more := rxBuffer != "";
      if more {
        ghost var stream := input.Stream();
        RunTwice(config, View(), rxBuffer, stream);
        HandleBuffer(rxBuffer);
        assert input.Stream() == stream;
      } else {
        assert rxBuffer + input.Stream() == input.Stream();
      }
    }

    /** One read. Bursts may arrive before it, and the callbacks of some of them may post. */
    method ReadBuffer() returns (rxBuffer: string)
      requires input.Valid()
      modifies this`semaphore, input, input.keyboard
      ensures input.Valid() && old(input.Stream()) == rxBuffer + input.Stream()
      ensures rxBuffer == "" ==> Drained()
      ensures Posted(|input.keyboard.coming|, semaphore, old(|input.keyboard.coming|), old(semaphore))
    {
      var coming := |input.keyboard.coming|;
      rxBuffer := input.Read(RX_BUFFER);
      var posts: nat :| posts <= coming - |input.keyboard.coming|;
      semaphore := semaphore + posts;
    }
  }

  /** Posts only come with bursts. */
  predicate Posted(coming: nat, posts: nat, comingBefore: nat, postsBefore: nat) {
    coming < comingBefore || (coming == comingBefore && posts == postsBefore)
  }

  /** Fewer bursts to come, or as many and fewer posts. */
  predicate Fewer(coming: nat, posts: nat, comingBefore: nat, postsBefore: nat) {
    coming < comingBefore || (coming == comingBefore && posts < postsBefore)
  }

  /** The arguments as a command reads them: from each pointer up to the terminator. */
  method ReadArguments(arguments: array<nat>, count: nat, command: array<char>, ghost tokens: seq<string>)
    returns (argv: seq<string>)
    requires T.StoredAt(command, arguments, tokens) && count == |tokens|
    ensures argv == Arguments(tokens)
  {
    argv := [];
    for i := 0 to count
      invariant |argv| == i && forall k | 0 <= k < i :: argv[k] == CString(tokens[k])
    {
      TerminatedText(command[arguments[i]..], tokens[i]);
      argv := argv + [CString(command[arguments[i]..])];
    }
  }

  lemma {:induction false} TerminatedText(s: string, token: string)
    requires |token| < |s| && s[|token|] == NUL && forall k | 0 <= k < |token| :: s[k] == token[k]
    ensures CString(s) == CString(token)
    decreases |token|
  {
    if token != "" && token[0] != NUL {
      TerminatedText(s[1..], token[1..]);
    }
  }
}
