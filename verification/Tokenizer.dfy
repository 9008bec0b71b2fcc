/** `ShellHelpers::parseCommandString`: an in-place splitter that writes terminators into its own input. */
module Tokenizer {
  import opened Ascii
  import opened Xcore
  import opened TerminalHelpers

  const QUOTE := '"'

  predicate IsBlank(c: char) {
    c == ' ' || c == '\t'
  }

  /** `iscntrl` in the "C" locale. */
  predicate IsControl(c: char) {
    c < ' ' || c as int == 0x7F
  }

  /** The text without its trailing control characters. */
  function Trim(s: string): (r: string)
    ensures |r| <= |s| && r == s[..|r|]
  {
    if s != "" && IsControl(s[|s| - 1]) then Trim(s[..|s| - 1]) else s
  }

  datatype Split = Tokens(list: seq<string>) | Overflow

  /** Tokens found earlier, then the ones found later. */
  function Join(first: seq<string>, rest: Split): Split {
    if rest.Tokens? then Tokens(first + rest.list) else Overflow
  }

  // The tokenizer as a function of the original text, in its three modes: between tokens, in a bare word,
  // in a quoted token. `slots` is the number of arguments that may still be stored.

  function Between(s: string, slots: nat): Split
    decreases |s|
  {
    if s == "" then Tokens([])
    else if IsBlank(s[0]) then Between(s[1..], slots)
    else if slots == 0 then Overflow
    else if s[0] == QUOTE then InQuotes("", s[1..], slots)
    else InWord([s[0]], s[1..], slots)
  }

  /** A quote inside a bare word drops the word and starts a quoted token. */
  function InWord(w: string, s: string, slots: nat): Split
    requires slots > 0
    decreases |s|
  {
    if s == "" then Tokens([w])
    else if IsBlank(s[0]) then Join([w], Between(s[1..], slots - 1))
    else if s[0] == QUOTE then InQuotes("", s[1..], slots)
    else InWord(w + [s[0]], s[1..], slots)
  }

  /** An unterminated quoted token ends with the text, and is dropped when it is empty. */
  function InQuotes(w: string, s: string, slots: nat): Split
    requires slots > 0
    decreases |s|
  {
    if s == "" then Tokens(if w == "" then [] else [w])
    else if s[0] == QUOTE then Join([w], Between(s[1..], slots - 1))
    else InQuotes(w + [s[0]], s[1..], slots)
  }

  function Tokenize(text: string, slots: nat): Split {
    Between(Trim(text), slots)
  }

  // ---------------------------------------------------------------------------------------------
  // The loop

  /** The tokenizer resumed at pos, with the current token begun at start. */
  function Resume(t: string, start: nat, pos: nat, braces: bool, spaces: bool, slots: nat): Split
    requires pos <= |t| && (!spaces ==> start <= pos && slots > 0)
  {
    if spaces then Between(t[pos..], slots)
    else if braces then InQuotes(t[start..pos], t[pos..], slots)
    else InWord(t[start..pos], t[pos..], slots)
  }

  /** One character of the text, in each mode. */
  lemma ResumeStep(t: string, start: nat, pos: nat, braces: bool, spaces: bool, slots: nat)
    requires pos < |t| && (braces ==> !spaces) && (!spaces ==> start <= pos && slots > 0)
    ensures var c := t[pos];
            Resume(t, start, pos, braces, spaces, slots) ==
            if !braces && IsBlank(c) then
              if spaces then Resume(t, start, pos + 1, false, true, slots)
              else Join([t[start..pos]], Resume(t, start, pos + 1, false, true, slots - 1))
            else if slots == 0 then Overflow
            else if c == QUOTE then
              if !braces then Resume(t, pos + 1, pos + 1, true, false, slots)
              else Join([t[start..pos]], Resume(t, start, pos + 1, false, true, slots - 1))
            else Resume(t, if spaces then pos else start, pos + 1, braces, false, slots)
  {
    var first := if spaces then pos else start;
    assert t[pos..][1..] == t[pos + 1..];
    assert t[first..pos + 1] == t[first..pos] + [t[pos]];
    assert t[pos..pos + 1] == [t[pos]];
    assert t[pos + 1..pos + 1] == "";
  }

  /** The end of the text. */
  lemma ResumeEnd(t: string, start: nat, braces: bool, spaces: bool, slots: nat)
    requires !spaces ==> start <= |t| && slots > 0
    ensures Resume(t, start, |t|, braces, spaces, slots)
         == Tokens(if spaces || (braces && start == |t|) then [] else [t[start..]])
  {
    if !spaces {
      assert t[start..|t|] == t[start..];
    }
  }

  lemma JoinTwice(a: seq<string>, b: seq<string>, r: Split)
    ensures Join(a, Join(b, r)) == Join(a + b, r)
  {
    if r.Tokens? {
      assert a + (b + r.list) == a + b + r.list;
    }
  }

  /** What is still to come: nothing once the last character was handled. */
  function Rest(t: string, start: nat, pos: nat, braces: bool, spaces: bool, slots: nat): Split
    requires pos <= |t| && (pos < |t| && !spaces ==> start <= pos && slots > 0)
  {
    if pos < |t| then Resume(t, start, pos, braces, spaces, slots) else Tokens([])
  }

  /** One turn of the loop, which also ends a token that reaches the last character. */
  lemma RestStep(t: string, start: nat, pos: nat, braces: bool, spaces: bool, slots: nat, done: seq<string>)
    requires pos < |t| && (braces ==> !spaces) && (!spaces ==> start <= pos && slots > 0)
    ensures var c, first := t[pos], if spaces then pos else start;
            Join(done, Rest(t, start, pos, braces, spaces, slots)) ==
            if !braces && IsBlank(c) && spaces then Join(done, Rest(t, start, pos + 1, false, true, slots))
            else if slots == 0 then Overflow
            else if (!braces && IsBlank(c)) || (braces && c == QUOTE) then
              Join(done + [t[start..pos]], Rest(t, start, pos + 1, false, true, slots - 1))
            else if c == QUOTE then Join(done, Rest(t, pos + 1, pos + 1, true, false, slots))
            else if pos + 1 == |t| then Join(done + [t[first..pos + 1]], Tokens([]))
            else Join(done, Rest(t, first, pos + 1, braces, false, slots))
  {
    ResumeStep(t, start, pos, braces, spaces, slots);
    var c, first := t[pos], if spaces then pos else start;
    if !spaces {
      JoinTwice(done, [t[start..pos]], Rest(t, start, pos + 1, false, true, slots - 1));
    }
    if pos + 1 == |t| {
      if slots > 0 {
        ResumeEnd(t, first, braces, false, slots);
        ResumeEnd(t, pos + 1, true, false, slots);
      }
      if !spaces {
        ResumeEnd(t, start, false, true, slots - 1);
      }
      ResumeEnd(t, start, false, true, slots);
    }
  }

  /** The variables of the loop: the current token begins at start, of all tokens count were stored. */
  datatype Scanner = Scanner(start: nat, pos: nat, braces: bool, spaces: bool, count: nat)

  /** The outcome is what the tokens found and the rest of the text lead to. */
  ghost predicate OnTrack(split: Split, t: string, s: Scanner, tokens: seq<string>, slots: nat) {
    && s.pos <= |t| && s.count == |tokens| <= slots
    && (s.braces ==> !s.spaces) && (s.pos < |t| && !s.spaces ==> s.start <= s.pos && s.count < slots)
    && split == Join(tokens, Rest(t, s.start, s.pos, s.braces, s.spaces, slots - s.count))
  }

  // The turns of the loop: a blank between tokens, the end of a token, a quote that opens one, any other character

  function Skip(s: Scanner): Scanner {
    s.(pos := s.pos + 1)
  }

  function End(s: Scanner): Scanner {
    Scanner(s.start, s.pos + 1, false, true, s.count + 1)
  }

  function Open(s: Scanner): Scanner {
    Scanner(s.pos + 1, s.pos + 1, true, false, s.count)
  }

  function First(s: Scanner): nat {
    if s.spaces then s.pos else s.start
  }

  /** The last character of the text ends its token as well. */
  function Extend(s: Scanner, last: bool): Scanner {
    Scanner(First(s), s.pos + 1, s.braces, false, if last then s.count + 1 else s.count)
  }

  lemma SkipStaysOnTrack(split: Split, t: string, s: Scanner, tokens: seq<string>, slots: nat)
    requires OnTrack(split, t, s, tokens, slots) && s.pos < |t| && !s.braces && s.spaces && IsBlank(t[s.pos])
    ensures OnTrack(split, t, Skip(s), tokens, slots)
  {
    RestStep(t, s.start, s.pos, s.braces, s.spaces, slots - s.count, tokens);
  }

  lemma EndStaysOnTrack(split: Split, t: string, s: Scanner, tokens: seq<string>, slots: nat)
    requires OnTrack(split, t, s, tokens, slots) && s.pos < |t| && !s.spaces
    requires if s.braces then t[s.pos] == QUOTE else IsBlank(t[s.pos])
    ensures OnTrack(split, t, End(s), tokens + [t[s.start..s.pos]], slots)
  {
    RestStep(t, s.start, s.pos, s.braces, s.spaces, slots - s.count, tokens);
  }

  lemma OpenStaysOnTrack(split: Split, t: string, s: Scanner, tokens: seq<string>, slots: nat)
    requires OnTrack(split, t, s, tokens, slots) && s.pos < |t| && !s.braces && t[s.pos] == QUOTE && s.count < slots
    ensures OnTrack(split, t, Open(s), tokens, slots)
  {
    RestStep(t, s.start, s.pos, s.braces, s.spaces, slots - s.count, tokens);
  }

  lemma ExtendStaysOnTrack(split: Split, t: string, s: Scanner, tokens: seq<string>, slots: nat)
    requires OnTrack(split, t, s, tokens, slots) && s.pos < |t| && t[s.pos] != QUOTE && s.count < slots
    requires s.braces || !IsBlank(t[s.pos])
    ensures var last := s.pos + 1 == |t|;
            OnTrack(split, t, Extend(s, last), if last then tokens + [t[First(s)..s.pos + 1]] else tokens, slots)
  {
    RestStep(t, s.start, s.pos, s.braces, s.spaces, slots - s.count, tokens);
  }

  lemma OverflowWhenFull(split: Split, t: string, s: Scanner, tokens: seq<string>, slots: nat)
    requires OnTrack(split, t, s, tokens, slots) && s.pos < |t| && s.count == slots && !IsBlank(t[s.pos])
    ensures split == Overflow
  {
    RestStep(t, s.start, s.pos, s.braces, s.spaces, 0, tokens);
  }

  lemma BeginsOnTrack(text: string, slots: nat)
    ensures OnTrack(Tokenize(text, slots), Trim(text), Scanner(0, 0, false, true, 0), [], slots)
  {
    var split := Tokenize(text, slots);
    assert Trim(text)[0..] == Trim(text);
    if split.Tokens? {
      assert [] + split.list == split.list;
    }
  }

  lemma EndsOnTrack(split: Split, t: string, s: Scanner, tokens: seq<string>, slots: nat)
    requires OnTrack(split, t, s, tokens, slots) && s.pos == |t|
    ensures split == Tokens(tokens)
  {
    assert tokens + [] == tokens;
  }

  /** Every stored pointer leads to its token and the terminator after it. */
  predicate StoredAt(input: array<char>, arguments: array<nat>, tokens: seq<string>)
    reads input, arguments
  {
    && |tokens| <= arguments.Length
    && forall k | 0 <= k < |tokens| :: TextAt(input, arguments[k], tokens[k])
  }

  /** The stored tokens and their terminators lie before the given position. */
  predicate StoredBefore(input: array<char>, arguments: array<nat>, tokens: seq<string>, limit: nat)
    reads input, arguments
  {
    && StoredAt(input, arguments, tokens)
    && forall k | 0 <= k < |tokens| :: arguments[k] + |tokens[k]| < limit
  }

  /** The text from pos on is untouched, and so is the current token; what was stored lies before them. */
  ghost predicate Held(input: array<char>, arguments: array<nat>, t: string, s: Scanner, tokens: seq<string>,
      limit: nat)
    reads input, arguments
  {
    && s.pos <= |t| < input.Length && SpelledAt(input, s.pos, t[s.pos..])
    && (s.pos < |t| && !s.spaces ==> limit <= s.start <= s.pos && SpelledAt(input, s.start, t[s.start..s.pos]))
    && StoredBefore(input, arguments, tokens, limit)
    && limit <= if s.pos < |t| then s.pos else |t| + 1
  }

  method TrimLength(input: array<char>, inputLength: nat) returns (length: nat)
    requires inputLength <= input.Length
    ensures length <= inputLength && input[..length] == Trim(input[..inputLength])
  {
    length := inputLength;
    while length > 0
      invariant length <= inputLength && Trim(input[..inputLength]) == Trim(input[..length])
    {
      assert input[..length][..length - 1] == input[..length - 1];
      if IsControl(input[length - 1]) {
        length := length - 1;
      } else {
        break;
      }
    }
  }

  /** Ends the current token at pos: stores its pointer and writes its terminator. */
  method Store(arguments: array<nat>, count: nat, input: array<char>, ghost tokens: seq<string>, ghost limit: nat,
    ghost token: string, start: nat, pos: nat)
    requires limit <= start && start + |token| == pos < input.Length && SpelledAt(input, start, token)
    requires count == |tokens| < arguments.Length
    requires StoredBefore(input, arguments, tokens, limit)
    modifies arguments, input
    ensures StoredBefore(input, arguments, tokens + [token], pos + 1)
    ensures OnlyChanged(input, pos, pos + 1)
  {
    arguments[count] := start;
    input[pos] := NUL;
  }

  /** A blank or a quote ends the current token. */
  method EndToken(arguments: array<nat>, input: array<char>, s: Scanner, ghost t: string, ghost split: Split,
      ghost tokens: seq<string>, ghost limit: nat)
    returns (next: Scanner, ghost all: seq<string>, ghost after: nat)
    requires OnTrack(split, t, s, tokens, arguments.Length) && Held(input, arguments, t, s, tokens, limit)
    requires s.pos < |t| && !s.spaces && if s.braces then t[s.pos] == QUOTE else IsBlank(t[s.pos])
    modifies arguments, input
    ensures next == End(s) && OnTrack(split, t, next, all, arguments.Length)
    ensures Held(input, arguments, t, next, all, after) && OnlyChanged(input, s.pos, s.pos + 1)
  {
    EndStaysOnTrack(split, t, s, tokens, arguments.Length);
    all, after := tokens + [t[s.start..s.pos]], s.pos + 1;
    Store(arguments, s.count, input, tokens, limit, t[s.start..s.pos], s.start, s.pos);
    next := Scanner(s.start, s.pos + 1, false, true, s.count + 1);
  }

  /** Any other character belongs to the current token, or begins one. */
  method ExtendToken(arguments: array<nat>, input: array<char>, length: nat, s: Scanner, ghost t: string,
      ghost split: Split, ghost tokens: seq<string>, ghost limit: nat)
    returns (next: Scanner, ghost all: seq<string>, ghost after: nat)
    requires OnTrack(split, t, s, tokens, arguments.Length) && Held(input, arguments, t, s, tokens, limit)
    requires s.pos < |t| == length && t[s.pos] != QUOTE && (s.braces || !IsBlank(t[s.pos]))
    requires s.count < arguments.Length
    modifies arguments, input
    ensures next.pos == s.pos + 1 && OnTrack(split, t, next, all, arguments.Length)
    ensures Held(input, arguments, t, next, all, after) && OnlyChanged(input, s.pos + 1, s.pos + 2)
  {
    ExtendStaysOnTrack(split, t, s, tokens, arguments.Length);
    ghost var token := t[First(s)..s.pos + 1];
    assert SpelledAt(input, First(s), token);
    next, all, after := Scanner(First(s), s.pos + 1, s.braces, false, s.count), tokens, limit;
    if s.pos == length - 1 {
      all, after := tokens + [token], s.pos + 2;
      Store(arguments, s.count, input, tokens, limit, token, next.start, s.pos + 1);
      next := next.(count := s.count + 1);
    }
  }

  /** One character, unless it needs a slot and all are taken. */
  method HandleCharacter(arguments: array<nat>, input: array<char>, length: nat, s: Scanner, ghost t: string,
      ghost split: Split, ghost tokens: seq<string>, ghost limit: nat)
    returns (full: bool, next: Scanner, ghost all: seq<string>, ghost after: nat)
    requires OnTrack(split, t, s, tokens, arguments.Length) && Held(input, arguments, t, s, tokens, limit)
    requires s.pos < |t| == length
    modifies arguments, input
    ensures OnlyChanged(input, s.pos, s.pos + 2)
    ensures if full then split == Overflow
            else next.pos == s.pos + 1 && OnTrack(split, t, next, all, arguments.Length)
                 && Held(input, arguments, t, next, all, after)
  {
    full, next, all, after := false, s, tokens, limit;
    var c := input[s.pos];
    assert c == t[s.pos..][0];
    if !s.braces && IsBlank(c) {
      if s.spaces {
        SkipStaysOnTrack(split, t, s, tokens, arguments.Length);
        next := s.(pos := s.pos + 1);
      } else {
        next, all, after := EndToken(arguments, input, s, t, split, tokens, limit);
      }
    } else if s.count == arguments.Length {
      OverflowWhenFull(split, t, s, tokens, arguments.Length);
      full := true;
    } else if c == QUOTE {
      if !s.braces {
        OpenStaysOnTrack(split, t, s, tokens, arguments.Length);
        next := Scanner(s.pos + 1, s.pos + 1, true, false, s.count);
      } else {
        next, all, after := EndToken(arguments, input, s, t, split, tokens, limit);
      }
    } else {
      next, all, after := ExtendToken(arguments, input, length, s, t, split, tokens, limit);
    }
  }

  method ParseCommandString(arguments: array<nat>, input: array<char>, inputLength: nat)
    returns (res: Result, argumentCount: nat)
    requires inputLength < input.Length
    modifies arguments, input
    ensures OnlyChanged(input, 0, inputLength + 1)
    ensures var split := Tokenize(old(input[..inputLength]), arguments.Length);
            if split.Tokens? && split.list != [] then
              res == E_OK && argumentCount == |split.list|
              && StoredAt(input, arguments, split.list)
            else res == E_EMPTY
  {
    var length := TrimLength(input, inputLength);
    ghost var t, split := Trim(input[..inputLength]), Tokenize(input[..inputLength], arguments.Length);
    ghost var tokens, limit := [], 0;
    var s := Scanner(0, 0, false, true, 0);
    BeginsOnTrack(input[..inputLength], arguments.Length);
    while s.pos < length
      invariant OnTrack(split, t, s, tokens, arguments.Length) && Held(input, arguments, t, s, tokens, limit)
      invariant OnlyChanged(input, 0, inputLength + 1)
      decreases length - s.pos
    {
      var full;
      full, s, tokens, limit := HandleCharacter(arguments, input, length, s, t, split, tokens, limit);
      if full {
        return E_EMPTY, 0;
      }
    }
    EndsOnTrack(split, t, s, tokens, arguments.Length);
    argumentCount := s.count;
    res := if s.count != 0 then E_OK else E_EMPTY;
  }

  // ---------------------------------------------------------------------------------------------
  // What the tokens are

  /** Every character is a character of the text, and none is a quote. */
  predicate Clean(w: string, chars: set<char>) {
    forall j | 0 <= j < |w| :: w[j] in chars && w[j] != QUOTE
  }

  ghost predicate MadeOf(split: Split, chars: set<char>) {
    split.Tokens? ==> forall i | 0 <= i < |split.list| :: Clean(split.list[i], chars)
  }

  lemma {:induction false} TokensMadeOf(s: string, slots: nat, w: string, chars: set<char>)
    requires (forall j | 0 <= j < |s| :: s[j] in chars) && Clean(w, chars)
    ensures MadeOf(Between(s, slots), chars)
    ensures slots > 0 ==> MadeOf(InWord(w, s, slots), chars) && MadeOf(InQuotes(w, s, slots), chars)
    decreases |s|
  {
    if s != "" {
      var c, rest := s[0], s[1..];
      TokensMadeOf(rest, slots, "", chars);
      if slots > 0 {
        TokensMadeOf(rest, slots - 1, "", chars);
        if c != QUOTE {
          TokensMadeOf(rest, slots, w + [c], chars);
          TokensMadeOf(rest, slots, [c], chars);
        }
      }
    }
  }

  /** A text without a terminator yields tokens that C code reads back whole, whatever was written after them. */
  lemma ReturnedStringsAreTokens(text: string, slots: nat, input: array<char>, arguments: array<nat>, k: nat)
    requires NUL !in text && Tokenize(text, slots).Tokens? && k < |Tokenize(text, slots).list|
    requires StoredAt(input, arguments, Tokenize(text, slots).list)
    ensures CString(input[arguments[k]..]) == Tokenize(text, slots).list[k]
  {
    var token, t := Tokenize(text, slots).list[k], Trim(text);
    var chars := set c | c in t;
    TokensMadeOf(t, slots, "", chars);
    assert Clean(token, chars);
    assert input[arguments[k]..][..|token|] == token;
    CStringOf(input[arguments[k]..], token);
  }

  lemma {:induction false} CStringOf(s: string, token: string)
    requires |token| < |s| && s[..|token|] == token && s[|token|] == NUL && NUL !in token
    ensures CString(s) == token
    decreases |token|
  {
    if token != "" {
      assert s[0] == token[0];
      assert s[1..][..|token| - 1] == token[1..];
      CStringOf(s[1..], token[1..]);
    }
  }

  // ---------------------------------------------------------------------------------------------
  // What is lost

  datatype Mode = Gap | Word | Quoted

  /** The mode after a character. */
  function After(mode: Mode, c: char): Mode {
    match mode
    case Quoted => if c == QUOTE then Gap else Quoted
    case _ => if IsBlank(c) then Gap else if c == QUOTE then Quoted else Word
  }

  /** A quote stands inside a bare word. */
  predicate QuoteCutsWord(s: string, mode: Mode)
    decreases |s|
  {
    s != "" && ((mode == Word && s[0] == QUOTE) || QuoteCutsWord(s[1..], After(mode, s[0])))
  }

  /** How many tokens begin, not counting the current one. */
  function Begun(s: string, mode: Mode): nat
    decreases |s|
  {
    if s == "" then 0
    else (if mode == Gap && !IsBlank(s[0]) then 1 else 0) + Begun(s[1..], After(mode, s[0]))
  }

  /** The characters of a text that are neither blanks nor quotes. */
  function Solid(s: string): string {
    if s == "" then "" else (if IsBlank(s[0]) || s[0] == QUOTE then "" else [s[0]]) + Solid(s[1..])
  }

  function Concat(list: seq<string>): string {
    if list == [] then "" else list[0] + Concat(list[1..])
  }

  lemma {:induction false} SolidBoth(a: string, b: string)
    ensures Solid(a + b) == Solid(a) + Solid(b)
    decreases |a|
  {
    if a == "" {
      assert a + b == b;
    } else {
      assert (a + b)[1..] == a[1..] + b;
      SolidBoth(a[1..], b);
    }
  }

  /** The tokens hold all of these characters in order, or fewer when some are lost. */
  ghost predicate Keeps(split: Split, solid: string, lost: bool) {
    split.Tokens? ==>
      var kept := Solid(Concat(split.list));
      if lost then |kept| < |solid| else kept == solid
  }

  lemma KeepsJoined(w: string, rest: Split, solid: string, lost: bool, whole: string)
    requires Keeps(rest, solid, lost) && whole == Solid(w) + solid
    ensures Keeps(Join([w], rest), whole, lost)
  {
    if rest.Tokens? {
      assert ([w] + rest.list)[1..] == rest.list;
      SolidBoth(w, Concat(rest.list));
    }
  }

  lemma KeepsLast(w: string)
    ensures Keeps(Tokens([w]), Solid(w), false)
  {
    assert [w][1..] == [] && w + "" == w;
  }

  lemma SolidOfOne(c: char)
    ensures Solid([c]) == if IsBlank(c) || c == QUOTE then "" else [c]
  {
    assert [c][1..] == "";
  }

  lemma SolidHead(s: string)
    requires s != ""
    ensures Solid(s) == Solid([s[0]]) + Solid(s[1..])
  {
    SolidOfOne(s[0]);
  }

  lemma Associate(a: string, b: string, c: string)
    ensures a + (b + c) == a + b + c
  {
  }

  lemma MoreOfToken(w: string, s: string, whole: string)
    requires s != "" && s[0] != QUOTE && whole == Solid(w) + Solid(s)
    ensures whole == Solid(w + [s[0]]) + Solid(s[1..])
    ensures !IsBlank(s[0]) ==> Solid(w + [s[0]]) != ""
  {
    SolidBoth(w, [s[0]]);
    SolidOfOne(s[0]);
    SolidHead(s);
    Associate(Solid(w), Solid([s[0]]), Solid(s[1..]));
  }

  lemma {:induction false} GapKeeps(s: string, slots: nat)
    ensures Keeps(Between(s, slots), Solid(s), QuoteCutsWord(s, Gap))
    decreases |s|, 1
  {
    if s != "" {
      if IsBlank(s[0]) {
        GapKeeps(s[1..], slots);
      } else if slots > 0 && s[0] == QUOTE {
        QuotedKeeps("", s[1..], slots, Solid(s));
      } else if slots > 0 {
        MoreOfToken("", s, Solid(s));
        assert "" + [s[0]] == [s[0]];
        WordKeeps([s[0]], s[1..], slots, Solid(s));
      }
    }
  }

  lemma {:induction false} WordKeeps(w: string, s: string, slots: nat, whole: string)
    requires slots > 0 && Solid(w) != "" && whole == Solid(w) + Solid(s)
    ensures Keeps(InWord(w, s, slots), whole, QuoteCutsWord(s, Word))
    decreases |s|, 0
  {
    if s == "" {
      KeepsLast(w);
    } else if IsBlank(s[0]) {
      GapKeeps(s[1..], slots - 1);
      KeepsJoined(w, Between(s[1..], slots - 1), Solid(s[1..]), QuoteCutsWord(s[1..], Gap), whole);
    } else if s[0] == QUOTE {
      QuotedKeeps("", s[1..], slots, Solid(s[1..]));
    } else {
      MoreOfToken(w, s, whole);
      WordKeeps(w + [s[0]], s[1..], slots, whole);
    }
  }

  lemma {:induction false} QuotedKeeps(w: string, s: string, slots: nat, whole: string)
    requires slots > 0 && whole == Solid(w) + Solid(s)
    ensures Keeps(InQuotes(w, s, slots), whole, QuoteCutsWord(s, Quoted))
    decreases |s|, 0
  {
    if s == "" {
      KeepsLast(w);
    } else if s[0] == QUOTE {
      GapKeeps(s[1..], slots - 1);
      KeepsJoined(w, Between(s[1..], slots - 1), Solid(s[1..]), QuoteCutsWord(s[1..], Gap), whole);
    } else {
      MoreOfToken(w, s, whole);
      QuotedKeeps(w + [s[0]], s[1..], slots, whole);
    }
  }

  /** The slots suffice exactly when no more tokens begin than there are slots. */
  lemma {:induction false} SlotsSuffice(s: string, slots: nat, w: string)
    ensures Between(s, slots).Tokens? <==> Begun(s, Gap) <= slots
    ensures slots > 0 ==> (InWord(w, s, slots).Tokens? <==> Begun(s, Word) < slots)
    ensures slots > 0 ==> (InQuotes(w, s, slots).Tokens? <==> Begun(s, Quoted) < slots)
    decreases |s|
  {
    if s != "" {
      SlotsSuffice(s[1..], slots, "");
      SlotsSuffice(s[1..], slots, [s[0]]);
      SlotsSuffice(s[1..], slots, w + [s[0]]);
      if slots > 0 {
        SlotsSuffice(s[1..], slots - 1, "");
      }
    }
  }

  /**
   Every character of the trimmed text but blanks and quotes is in a token, in order, if and only if the slots suffice
   and no quote stands inside a bare word.
   */
  lemma NothingIsLostWhen(text: string, slots: nat)
    ensures var t, split := Trim(text), Tokenize(text, slots);
            split.Tokens? && Solid(Concat(split.list)) == Solid(t) <==> Begun(t, Gap) <= slots && !QuoteCutsWord(t, Gap)
  {
    GapKeeps(Trim(text), slots);
    SlotsSuffice(Trim(text), slots, "");
  }

  // ---------------------------------------------------------------------------------------------
  // Writing arguments

  /** One argument as it is written: after some blanks, in quotes or bare. */
  datatype Item = Item(blanks: string, text: string, quoted: bool)

  function Written(item: Item): string {
    if item.quoted then "\"" + item.text + "\"" else item.text
  }

  function CommandText(items: seq<Item>): string {
    if items == [] then "" else items[0].blanks + (Written(items[0]) + CommandText(items[1..]))
  }

  function Texts(items: seq<Item>): seq<string> {
    if items == [] then [] else [items[0].text] + Texts(items[1..])
  }

  predicate SpacesAndTabs(s: string) {
    forall i | 0 <= i < |s| :: s[i] == ' ' || s[i] == '\t'
  }

  /** Without double quotes; a bare word is not empty and has neither spaces nor tabs. */
  predicate WritableItem(item: Item) {
    && SpacesAndTabs(item.blanks)
    && (forall i | 0 <= i < |item.text| :: item.text[i] != '"')
    && (item.quoted || item.text != "")
    && (item.quoted || forall i | 0 <= i < |item.text| :: item.text[i] != ' ' && item.text[i] != '\t')
  }

  /** What follows a bare word is set off by a space or a tab. */
  predicate Writable(items: seq<Item>) {
    items == [] ||
    (WritableItem(items[0]) && (items[0].quoted || |items| == 1 || items[1].blanks != "") && Writable(items[1..]))
  }

  /** The text does not end in a bare word that ends in a control character. */
  predicate EndsWell(items: seq<Item>) {
    items == [] ||
    if |items| > 1 then EndsWell(items[1..])
    else items[0].quoted || (items[0].text != "" && !ControlCode(items[0].text[|items[0].text| - 1]))
  }

  predicate ControlCode(c: char) {
    c as int < 32 || c as int == 127
  }

  lemma {:induction false} BlanksAreSkipped(b: string, s: string, slots: nat)
    requires SpacesAndTabs(b)
    ensures Between(b + s, slots) == Between(s, slots)
    decreases |b|
  {
    if b == "" {
      assert b + s == s;
    } else {
      assert (b + s)[1..] == b[1..] + s;
      BlanksAreSkipped(b[1..], s, slots);
    }
  }

  lemma {:induction false} QuotedTokenIsRead(w: string, a: string, s: string, slots: nat)
    requires slots > 0 && forall i | 0 <= i < |a| :: a[i] != '"'
    ensures InQuotes(w, a + "\"" + s, slots) == Join([w + a], Between(s, slots - 1))
    decreases |a|
  {
    var t := a + "\"" + s;
    if a == "" {
      assert t[1..] == s && w + a == w;
    } else {
      assert t[0] == a[0] && t[1..] == a[1..] + "\"" + s;
      QuotedTokenIsRead(w + [a[0]], a[1..], s, slots);
      assert w + [a[0]] + a[1..] == w + a;
    }
  }

  lemma {:induction false} BareWordIsRead(w: string, a: string, s: string, slots: nat)
    requires slots > 0 && (s == "" || s[0] == ' ' || s[0] == '\t')
    requires forall i | 0 <= i < |a| :: a[i] != '"' && a[i] != ' ' && a[i] != '\t'
    ensures InWord(w, a + s, slots) == Join([w + a], Between(s, slots - 1))
    decreases |a|
  {
    if a == "" {
      assert a + s == s && w + a == w;
      assert [w] + [] == [w];
    } else {
      assert (a + s)[0] == a[0] && (a + s)[1..] == a[1..] + s;
      BareWordIsRead(w + [a[0]], a[1..], s, slots);
      assert w + [a[0]] + a[1..] == w + a;
    }
  }

  /** The first argument is read, and then the rest of the text. */
  lemma ItemIsRead(item: Item, s: string, slots: nat)
    requires WritableItem(item) && (item.quoted || s == "" || s[0] == ' ' || s[0] == '\t')
    ensures Between(item.blanks + (Written(item) + s), slots)
         == if slots == 0 then Overflow else Join([item.text], Between(s, slots - 1))
  {
    var a, t := item.text, Written(item) + s;
    BlanksAreSkipped(item.blanks, t, slots);
    if item.quoted {
      assert t[0] == '"' && t[1..] == a + "\"" + s;
      if slots > 0 {
        QuotedTokenIsRead("", a, s, slots);
        assert "" + a == a;
      }
    } else {
      assert t[0] == a[0] && t[1..] == a[1..] + s;
      if slots > 0 {
        BareWordIsRead([a[0]], a[1..], s, slots);
        assert [a[0]] + a[1..] == a;
      }
    }
  }

  lemma {:induction false} ItemsAreSplit(items: seq<Item>, slots: nat)
    requires Writable(items)
    ensures Between(CommandText(items), slots) == if |items| <= slots then Tokens(Texts(items)) else Overflow
    ensures |Texts(items)| == |items|
    decreases |items|
  {
    if items != [] {
      var rest := CommandText(items[1..]);
      ItemIsRead(items[0], rest, slots);
      if slots > 0 {
        ItemsAreSplit(items[1..], slots - 1);
      } else {
        TextsInLength(items);
      }
    }
  }

  lemma {:induction false} TextsInLength(items: seq<Item>)
    ensures |Texts(items)| == |items|
    decreases |items|
  {
    if items != [] {
      TextsInLength(items[1..]);
    }
  }

  lemma {:induction false} ControlsAreTrimmed(s: string, controls: string)
    requires forall i | 0 <= i < |controls| :: ControlCode(controls[i])
    requires s == "" || !ControlCode(s[|s| - 1])
    ensures Trim(s + controls) == s
    decreases |controls|
  {
    if controls == "" {
      assert s + controls == s;
    } else {
      var n := |controls| - 1;
      assert (s + controls)[..|s| + n] == s + controls[..n];
      ControlsAreTrimmed(s, controls[..n]);
    }
  }

  lemma {:induction false} TextEndsWell(items: seq<Item>)
    requires EndsWell(items)
    ensures var t := CommandText(items); items == [] || (t != "" && !ControlCode(t[|t| - 1]))
    decreases |items|
  {
    if |items| > 1 {
      TextEndsWell(items[1..]);
    }
  }

  /**
   Writing and splitting: any arguments without double quotes, each in quotes or, when it is a word, bare, after spaces
   and tabs and before any control characters, are split back into exactly themselves, or refused when there are more
   than slots.
   */
  lemma WriteSplitRoundTrip(items: seq<Item>, controls: string, slots: nat)
    requires Writable(items) && EndsWell(items) && forall i | 0 <= i < |controls| :: ControlCode(controls[i])
    ensures Tokenize(CommandText(items) + controls, slots)
         == if |items| <= slots then Tokens(Texts(items)) else Overflow
    ensures |Texts(items)| == |items|
  {
    ItemsAreSplit(items, slots);
    TextEndsWell(items);
    ControlsAreTrimmed(CommandText(items), controls);
  }

  /** A quote that is not closed ends with the text; an empty one is no argument. */
  lemma UnclosedQuote(text: string, slots: nat)
    requires slots > 0 && (forall i | 0 <= i < |text| :: text[i] != '"')
    requires text == "" || !ControlCode(text[|text| - 1])
    ensures Tokenize("\"" + text, slots) == Tokens(if text == "" then [] else [text])
  {
    var t := "\"" + text;
    assert t + "" == t && t[1..] == text;
    ControlsAreTrimmed(t, "");
    UnclosedIsRead("", text, slots);
    assert "" + text == text;
  }

  lemma {:induction false} UnclosedIsRead(w: string, a: string, slots: nat)
    requires slots > 0 && forall i | 0 <= i < |a| :: a[i] != '"'
    ensures InQuotes(w, a, slots) == Tokens(if w + a == "" then [] else [w + a])
    decreases |a|
  {
    if a == "" {
      assert w + a == w;
    } else {
      UnclosedIsRead(w + [a[0]], a[1..], slots);
      assert w + [a[0]] + a[1..] == w + a;
    }
  }
}
