/** `ArgParser`: `parseImpl` fills a container through callbacks, `invoke` walks the same arguments on its own. */
module ArgParser {
  datatype Key = NoKey | Key(name: string)

  /** A descriptor; without a key it is positional. */
  datatype Descriptor = Descriptor(key: Key, count: nat, callback: bool)

  /** A call of a descriptor's callback, with an argument or without; a descriptor may take its part without one. */
  datatype Call = Flag(d: nat) | Given(d: nat, argument: string)

  // ---------------------------------------------------------------------------------------------
  // Looking descriptors up

  /** The first descriptor with this key from here on, or the number of descriptors. */
  function FindKey(ds: seq<Descriptor>, name: string, from: nat): (i: nat)
    requires from <= |ds|
    ensures from <= i <= |ds| && (i < |ds| ==> ds[i].key == Key(name))
    decreases |ds| - from
  {
    if from == |ds| || ds[from].key == Key(name) then from else FindKey(ds, name, from + 1)
  }

  function FindOptional(ds: seq<Descriptor>, name: string): (i: nat)
    ensures i <= |ds| && (i < |ds| ==> ds[i].key == Key(name))
  {
    FindKey(ds, name, 0)
  }

  /** The first positional descriptor from here on, or the number of descriptors. */
  function FindPositional(ds: seq<Descriptor>, from: nat): (i: nat)
    requires from <= |ds|
    ensures from <= i <= |ds| && (i < |ds| ==> ds[i].key == NoKey)
    decreases |ds| - from
  {
    if from == |ds| || ds[from].key == NoKey then from else FindPositional(ds, from + 1)
  }

  /** The first descriptor with this key, or the number of descriptors when none has it. */
  predicate IsFirstWith(ds: seq<Descriptor>, name: string, i: nat) {
    && i <= |ds| && (i < |ds| ==> ds[i].key == Key(name))
    && forall j | 0 <= j < i :: ds[j].key != Key(name)
  }

  lemma {:induction false} FindKeyIsFirst(ds: seq<Descriptor>, name: string, from: nat)
    requires from <= |ds|
    ensures forall j | from <= j < FindKey(ds, name, from) :: ds[j].key != Key(name)
    decreases |ds| - from
  {
    if from < |ds| && ds[from].key != Key(name) {
      FindKeyIsFirst(ds, name, from + 1);
    }
  }

  lemma FindOptionalIsFirst(ds: seq<Descriptor>, name: string)
    ensures IsFirstWith(ds, name, FindOptional(ds, name))
  {
    FindKeyIsFirst(ds, name, 0);
  }

  lemma {:induction false} FindPositionalIsFirst(ds: seq<Descriptor>, from: nat)
    requires from <= |ds|
    ensures forall j | from <= j < FindPositional(ds, from) :: ds[j].key != NoKey
    decreases |ds| - from
  {
    if from < |ds| && ds[from].key != NoKey {
      FindPositionalIsFirst(ds, from + 1);
    }
  }

  method SearchOptional(ds: seq<Descriptor>, name: string) returns (i: nat)
    ensures i == FindOptional(ds, name) && IsFirstWith(ds, name, i)
  {
    i := 0;
    while i < |ds| && ds[i].key != Key(name)
      invariant i <= |ds| && FindOptional(ds, name) == FindKey(ds, name, i)
      invariant forall j | 0 <= j < i :: ds[j].key != Key(name)
    {
      i := i + 1;
    }
  }

  method SearchPositional(ds: seq<Descriptor>, from: nat) returns (i: nat)
    requires from <= |ds|
    ensures i == FindPositional(ds, from) && from <= i <= |ds| && (i < |ds| ==> ds[i].key == NoKey)
    ensures forall j | from <= j < i :: ds[j].key != NoKey
  {
    i := from;
    while i < |ds| && ds[i].key != NoKey
      invariant from <= i <= |ds| && FindPositional(ds, from) == FindPositional(ds, i)
      invariant forall j | from <= j < i :: ds[j].key != NoKey
    {
      i := i + 1;
    }
  }

  // ---------------------------------------------------------------------------------------------
  // Positional arguments

  /** The positional descriptor, from here on, that takes free argument number k: a count of 0 takes all the rest. */
  function Slot(ds: seq<Descriptor>, from: nat, k: nat): (p: nat)
    requires from <= |ds|
    ensures from <= p <= |ds| && (p < |ds| ==> ds[p].key == NoKey)
    decreases |ds| - from
  {
    var p := FindPositional(ds, from);
    if p == |ds| || ds[p].count == 0 || k < ds[p].count then p else Slot(ds, p + 1, k - ds[p].count)
  }

  /** How many free arguments that descriptor has taken before. */
  function Taken(ds: seq<Descriptor>, from: nat, k: nat): nat
    requires from <= |ds|
    decreases |ds| - from
  {
    var p := FindPositional(ds, from);
    if p == |ds| || ds[p].count == 0 || k < ds[p].count then k else Taken(ds, p + 1, k - ds[p].count)
  }

  /** One more free argument: the descriptor goes on, or is full and the next one follows. */
  lemma {:induction false} SlotStep(ds: seq<Descriptor>, from: nat, k: nat)
    requires from <= |ds|
    ensures var p, n := Slot(ds, from, k), Taken(ds, from, k);
            && (p < |ds| && ds[p].count > 0 ==> n < ds[p].count)
            && (if p < |ds| && n + 1 == ds[p].count then
                  Slot(ds, from, k + 1) == FindPositional(ds, p + 1) && Taken(ds, from, k + 1) == 0
                else
                  Slot(ds, from, k + 1) == p && Taken(ds, from, k + 1) == n + 1)
    decreases |ds| - from
  {
    var p := FindPositional(ds, from);
    if p < |ds| && ds[p].count > 0 {
      if k >= ds[p].count {
        SlotStep(ds, p + 1, k - ds[p].count);
      } else if k + 1 == ds[p].count {
        var q := FindPositional(ds, p + 1);
        assert Slot(ds, p + 1, 0) == q && Taken(ds, p + 1, 0) == 0;
      }
    }
  }

  // ---------------------------------------------------------------------------------------------
  // Parsing as a function

  datatype Parsed = Parsed(calls: seq<Call>, complete: bool, free: nat)

  /** The calls for the parameters of an option. */
  function GivenAll(d: nat, arguments: seq<string>): seq<Call> {
    if arguments == [] then [] else [Given(d, arguments[0])] + GivenAll(d, arguments[1..])
  }

  function OptionCalls(ds: seq<Descriptor>, i: nat, parameters: seq<string>): seq<Call>
    requires i < |ds|
  {
    if ds[i].count == 0 then [Flag(i)] else GivenAll(i, parameters)
  }

  /** The call for a free argument. */
  function FreeCalls(p: nat, argument: string): seq<Call> {
    [Given(p, argument)]
  }

  /** The calls for the arguments, k free ones before them; incomplete when an option is cut short or nothing fits. */
  function Parse(ds: seq<Descriptor>, arguments: seq<string>, k: nat): Parsed
    decreases |arguments|
  {
    if arguments == [] then Parsed([], true, k)
    else
      var i := FindOptional(ds, arguments[0]);
      if i < |ds| then
        if |arguments| >= ds[i].count + 1 then
          var rest := Parse(ds, arguments[1 + ds[i].count..], k);
          rest.(calls := OptionCalls(ds, i, arguments[1..1 + ds[i].count]) + rest.calls)
        else Parsed([], false, k)
      else
        var p := Slot(ds, 0, k);
        if p < |ds| then
          var rest := Parse(ds, arguments[1..], k + 1);
          rest.(calls := FreeCalls(p, arguments[0]) + rest.calls)
        else Parsed([], false, k)
  }

  /** The descriptor at the end of parsing still wants arguments. */
  predicate Unfilled(ds: seq<Descriptor>, k: nat) {
    var p := Slot(ds, 0, k);
    p < |ds| && ds[p].count > 0
  }

  function Status(ds: seq<Descriptor>, arguments: seq<string>): bool {
    var r := Parse(ds, arguments, 0);
    r.complete && !Unfilled(ds, r.free)
  }

  /** The arguments that `invoke` passes on, k free ones before them. */
  function Invoked(ds: seq<Descriptor>, arguments: seq<string>, k: nat): seq<string>
    decreases |arguments|
  {
    if arguments == [] then []
    else
      var i := FindOptional(ds, arguments[0]);
      if i < |ds| then
        if |arguments| > ds[i].count then Invoked(ds, arguments[1 + ds[i].count..], k) else []
      else
        (if Unfilled(ds, k) then [] else [arguments[0]]) + Invoked(ds, arguments[1..], k + 1)
  }

  // ---------------------------------------------------------------------------------------------
  // The two loops

  /** The calls that are really made: those of descriptors with a callback. */
  function Made(ds: seq<Descriptor>, calls: seq<Call>): seq<Call> {
    if calls == [] then []
    else (if calls[0].d < |ds| && ds[calls[0].d].callback then [calls[0]] else []) + Made(ds, calls[1..])
  }

  lemma {:induction false} MadeBoth(ds: seq<Descriptor>, a: seq<Call>, b: seq<Call>)
    ensures Made(ds, a + b) == Made(ds, a) + Made(ds, b)
    decreases |a|
  {
    if a == [] {
      assert a + b == b;
    } else {
      assert (a + b)[1..] == a[1..] + b;
      MadeBoth(ds, a[1..], b);
    }
  }

  lemma {:induction false} MadeOfOne(ds: seq<Descriptor>, i: nat, parameters: seq<string>)
    requires i < |ds|
    ensures Made(ds, GivenAll(i, parameters)) == if ds[i].callback then GivenAll(i, parameters) else []
    ensures Made(ds, [Flag(i)]) == if ds[i].callback then [Flag(i)] else []
    decreases |parameters|
  {
    assert [Flag(i)][1..] == [];
    if parameters != [] {
      assert GivenAll(i, parameters)[1..] == GivenAll(i, parameters[1..]);
      MadeOfOne(ds, i, parameters[1..]);
    }
  }

  lemma MadeOption(ds: seq<Descriptor>, calls: seq<Call>, i: nat, parameters: seq<string>)
    requires i < |ds|
    ensures Made(ds, calls + OptionCalls(ds, i, parameters))
         == Made(ds, calls) + if ds[i].callback then OptionCalls(ds, i, parameters) else []
  {
    MadeBoth(ds, calls, OptionCalls(ds, i, parameters));
    MadeOfOne(ds, i, parameters);
  }

  /** A parse of what is left, after some calls. */
  function After(calls: seq<Call>, r: Parsed): Parsed {
    r.(calls := calls + r.calls)
  }

  /** Where a loop is: what it has collected, the arguments that are left, the number of free ones before them. */
  datatype Progress<T> = Progress(collected: seq<T>, rest: seq<string>, k: nat)

  /** The result r is what the calls so far and the arguments that are left lead to. */
  ghost predicate Leads(r: Parsed, ds: seq<Descriptor>, p: Progress<Call>) {
    r == After(p.collected, Parse(ds, p.rest, p.k))
  }

  /** One turn of the loop in `parseImpl`, at an option: its calls are made when it has a callback. */
  lemma LeadsOption(r: Parsed, ds: seq<Descriptor>, p: Progress<Call>, i: nat) returns (q: Progress<Call>)
    requires p.rest != [] && i == FindOptional(ds, p.rest[0]) && i < |ds| && Leads(r, ds, p)
    ensures var n := ds[i].count;
            if |p.rest| > n then
              && q.rest == p.rest[1 + n..] && q.k == p.k && Leads(r, ds, q)
              && Made(ds, q.collected)
                 == Made(ds, p.collected) + if ds[i].callback then OptionCalls(ds, i, p.rest[1..1 + n]) else []
            else q == p && r == Parsed(p.collected, false, p.k)
  {
    var n := ds[i].count;
    q := p;
    if |p.rest| > n {
      var more := OptionCalls(ds, i, p.rest[1..1 + n]);
      q := Progress(p.collected + more, p.rest[1 + n..], p.k);
      MadeOption(ds, p.collected, i, p.rest[1..1 + n]);
      Associate(p.collected, more, Parse(ds, q.rest, p.k).calls);
    } else {
      assert p.collected + [] == p.collected;
    }
  }

  /** One turn of the loop in `parseImpl`, at a free argument. */
  lemma LeadsFree(r: Parsed, ds: seq<Descriptor>, p: Progress<Call>, slot: nat) returns (q: Progress<Call>)
    requires p.rest != [] && FindOptional(ds, p.rest[0]) == |ds| && slot == Slot(ds, 0, p.k) && Leads(r, ds, p)
    ensures if slot < |ds| then
              && q.rest == p.rest[1..] && q.k == p.k + 1 && Leads(r, ds, q)
              && Made(ds, q.collected)
                 == Made(ds, p.collected) + if ds[slot].callback then FreeCalls(slot, p.rest[0]) else []
            else q == p && r == Parsed(p.collected, false, p.k)
  {
    q := p;
    if slot < |ds| {
      var more := FreeCalls(slot, p.rest[0]);
      q := Progress(p.collected + more, p.rest[1..], p.k + 1);
      MadeBoth(ds, p.collected, more);
      MadeOfOne(ds, slot, [p.rest[0]]);
      assert more == GivenAll(slot, [p.rest[0]]);
      Associate(p.collected, more, Parse(ds, q.rest, q.k).calls);
    } else {
      assert p.collected + [] == p.collected;
    }
  }

  lemma LeadsFromStart(ds: seq<Descriptor>, arguments: seq<string>)
    ensures Leads(Parse(ds, arguments, 0), ds, Progress([], arguments, 0))
  {
    assert [] + Parse(ds, arguments, 0).calls == Parse(ds, arguments, 0).calls;
  }

  lemma LeadsEnd(r: Parsed, ds: seq<Descriptor>, p: Progress<Call>)
    requires Leads(r, ds, p) && p.rest == []
    ensures r == Parsed(p.collected, true, p.k)
  {
    assert p.collected + [] == p.collected;
  }

  lemma Associate<T>(a: seq<T>, b: seq<T>, c: seq<T>)
    ensures a + (b + c) == a + b + c
  {
  }

  /** The arguments left after some more of those left. */
  lemma SkipMore(arguments: seq<string>, current: nat, n: nat)
    requires current + n <= |arguments|
    ensures arguments[current..][n..] == arguments[current + n..]
    ensures n > 0 ==> arguments[current..][1..n] == arguments[current + 1..current + n]
  {
  }

  /** A free argument is counted, and a descriptor that is full makes way for the next one. */
  method TakeFree(ds: seq<Descriptor>, positional: nat, positionalCounter: nat, ghost k: nat)
    returns (next: nat, counter: nat)
    requires positional == Slot(ds, 0, k) && positional < |ds| && positionalCounter == Taken(ds, 0, k)
    ensures next == Slot(ds, 0, k + 1) && counter == Taken(ds, 0, k + 1)
  {
    SlotStep(ds, 0, k);
    next, counter := positional, positionalCounter + 1;
    if counter == ds[positional].count {
      next := SearchPositional(ds, positional + 1);
      counter := 0;
    }
  }

  method ParseImpl(ds: seq<Descriptor>, arguments: seq<string>) returns (calls: seq<Call>, status: bool)
    ensures calls == Made(ds, Parse(ds, arguments, 0).calls) && status == Status(ds, arguments)
  {
    var positional;
    ghost var k;
    calls, status, positional, k := ParseLoop(ds, arguments);
    if positional < |ds| && ds[positional].count > 0 {
      status := false;
    }
  }

  method ParseLoop(ds: seq<Descriptor>, arguments: seq<string>)
    returns (calls: seq<Call>, parsingStatus: bool, positional: nat, ghost k: nat)
    ensures var r := Parse(ds, arguments, 0);
            calls == Made(ds, r.calls) && parsingStatus == r.complete && k == r.free && positional == Slot(ds, 0, k)
  {
    calls, parsingStatus := [], true;
    var positionalCounter := 0;
    positional := SearchPositional(ds, 0);
    var current := 0;
    ghost var r, p := Parse(ds, arguments, 0), Progress([], arguments, 0);
    LeadsFromStart(ds, arguments);
    k := 0;
    while current < |arguments|
      invariant current <= |arguments| && p.rest == arguments[current..] && p.k == k
      invariant positional == Slot(ds, 0, k) && positionalCounter == Taken(ds, 0, k)
      invariant parsingStatus && Leads(r, ds, p) && calls == Made(ds, p.collected)
    {
      var optional := SearchOptional(ds, arguments[current]);
      if optional < |ds| {
        p := LeadsOption(r, ds, p, optional);
        parsingStatus, calls, current := TakeOption(ds, arguments, current, optional, calls);
      } else if positional < |ds| {
        p := LeadsFree(r, ds, p, positional);
        SkipMore(arguments, current, 1);
        if ds[positional].callback {
          calls := calls + [Given(positional, arguments[current])];
        } else {
          assert calls + [] == calls;
        }
        current := current + 1;
        positional, positionalCounter := TakeFree(ds, positional, positionalCounter, k);
        k := k + 1;
      } else {
        p := LeadsFree(r, ds, p, positional);
        parsingStatus := false;
      }
      if !parsingStatus {
        return;
      }
    }
    LeadsEnd(r, ds, p);
  }

  /** An option with its parameters, or one that requires more arguments than are left. */
  method TakeOption(ds: seq<Descriptor>, arguments: seq<string>, current: nat, optional: nat, calls: seq<Call>)
    returns (taken: bool, after: seq<Call>, next: nat)
    requires current < |arguments| && optional < |ds|
    ensures var rest, n := arguments[current..], ds[optional].count;
            && taken == (|rest| > n)
            && next == (if taken then current + 1 + n else current) <= |arguments|
            && (taken ==> arguments[next..] == rest[1 + n..])
            && after == if !taken then calls
                        else calls + if ds[optional].callback then OptionCalls(ds, optional, rest[1..1 + n]) else []
  {
    var count := ds[optional].count;
    taken, after, next := |arguments| - current >= count + 1, calls, current;
    if taken {
      SkipMore(arguments, current, 1 + count);
      if ds[optional].callback {
        var made := CallOption(ds, optional, arguments[current + 1..current + 1 + count]);
        after := calls + made;
      } else {
        assert calls + [] == calls;
      }
      next := current + 1 + count;
    }
  }

  method CallOption(ds: seq<Descriptor>, optional: nat, parameters: seq<string>) returns (calls: seq<Call>)
    requires optional < |ds| && |parameters| == ds[optional].count
    ensures calls == OptionCalls(ds, optional, parameters)
  {
    calls := [];
    if ds[optional].count > 0 {
      var i := 0;
      while i < ds[optional].count
        invariant i <= |parameters| && GivenAll(optional, parameters) == calls + GivenAll(optional, parameters[i..])
      {
        assert parameters[i..][1..] == parameters[i + 1..];
        calls := calls + [Given(optional, parameters[i])];
        i := i + 1;
      }
    } else {
      calls := [Flag(optional)];
    }
  }

  /** The result r is what was passed on so far, and what `invoke` passes on of the arguments that are left. */
  ghost predicate Passes(r: seq<string>, ds: seq<Descriptor>, p: Progress<string>) {
    r == p.collected + Invoked(ds, p.rest, p.k)
  }

  /** One turn of the loop in `invoke`, at an option. */
  lemma PassesOption(r: seq<string>, ds: seq<Descriptor>, p: Progress<string>, i: nat)
    requires p.rest != [] && i == FindOptional(ds, p.rest[0]) && i < |ds| && Passes(r, ds, p)
    ensures if |p.rest| > ds[i].count then Passes(r, ds, p.(rest := p.rest[1 + ds[i].count..]))
            else r == p.collected
  {
  }

  /** One turn of the loop in `invoke`, at a free argument. */
  lemma PassesFree(r: seq<string>, ds: seq<Descriptor>, p: Progress<string>) returns (q: Progress<string>)
    requires p.rest != [] && FindOptional(ds, p.rest[0]) == |ds| && Passes(r, ds, p)
    ensures q == Progress(if Unfilled(ds, p.k) then p.collected else p.collected + [p.rest[0]], p.rest[1..], p.k + 1)
    ensures Passes(r, ds, q)
  {
    var more := if Unfilled(ds, p.k) then [] else [p.rest[0]];
    q := Progress(if Unfilled(ds, p.k) then p.collected else p.collected + more, p.rest[1..], p.k + 1);
    assert p.collected + [] == p.collected;
    Associate(p.collected, more, Invoked(ds, q.rest, q.k));
  }

  /** The counter of `invoke`, which only counts for descriptors that want arguments. */
  function Counted(ds: seq<Descriptor>, k: nat): nat {
    if Unfilled(ds, k) then Taken(ds, 0, k) else 0
  }

  lemma CountedStep(ds: seq<Descriptor>, k: nat)
    ensures var p, n := Slot(ds, 0, k), Counted(ds, k);
            if Unfilled(ds, k) && n + 1 == ds[p].count then
              Slot(ds, 0, k + 1) == FindPositional(ds, p + 1) && Counted(ds, k + 1) == 0
            else Slot(ds, 0, k + 1) == p && Counted(ds, k + 1) == if Unfilled(ds, k) then n + 1 else 0
    ensures Unfilled(ds, k) ==> Counted(ds, k) == Taken(ds, 0, k) && Counted(ds, k + 1) == Taken(ds, 0, k + 1)
  {
    SlotStep(ds, 0, k);
  }

  method Invoke(ds: seq<Descriptor>, arguments: seq<string>) returns (passed: seq<string>)
    ensures passed == Invoked(ds, arguments, 0)
  {
    passed := [];
    var positionalCounter := 0;
    var positional := SearchPositional(ds, 0);
    var current := 0;
    ghost var r, p := Invoked(ds, arguments, 0), Progress([], arguments, 0);
    assert [] + r == r;
    while current < |arguments|
      invariant current <= |arguments| && p.rest == arguments[current..] && p.collected == passed
      invariant positional == Slot(ds, 0, p.k) && positionalCounter == Counted(ds, p.k)
      invariant Passes(r, ds, p)
    {
      var optional := SearchOptional(ds, arguments[current]);
      if optional < |ds| {
        PassesOption(r, ds, p, optional);
        if |arguments| - current > ds[optional].count {
          SkipMore(arguments, current, 1 + ds[optional].count);
          p := p.(rest := p.rest[1 + ds[optional].count..]);
          current := current + 1 + ds[optional].count;
        } else {
          return;
        }
      } else {
        ghost var k := p.k;
        p := PassesFree(r, ds, p);
        CountedStep(ds, k);
        SkipMore(arguments, current, 1);
        if positional < |ds| && ds[positional].count > 0 {
          positional, positionalCounter := TakeFree(ds, positional, positionalCounter, k);
        } else {
          passed := passed + [arguments[current]];
        }
        current := current + 1;
      }
    }
    assert passed + [] == passed;
  }

  // ---------------------------------------------------------------------------------------------
  // Agreement

  /** The first positional descriptor of count 0 from here on, or the number of descriptors. */
  function FirstOpen(ds: seq<Descriptor>, from: nat): (z: nat)
    requires from <= |ds|
    ensures from <= z <= |ds| && (z < |ds| ==> ds[z].key == NoKey && ds[z].count == 0)
    decreases |ds| - from
  {
    if from == |ds| || (ds[from].key == NoKey && ds[from].count == 0) then from else FirstOpen(ds, from + 1)
  }

  /** The number of free arguments that the positional descriptors before the first open one want. */
  function WantedBefore(ds: seq<Descriptor>, from: nat): nat
    requires from <= |ds|
    decreases |ds| - from
  {
    if from == |ds| || (ds[from].key == NoKey && ds[from].count == 0) then 0
    else (if ds[from].key == NoKey then ds[from].count else 0) + WantedBefore(ds, from + 1)
  }

  lemma {:induction false} SkipKeys(ds: seq<Descriptor>, from: nat)
    requires from <= |ds|
    ensures var p := FindPositional(ds, from);
            FirstOpen(ds, from) == FirstOpen(ds, p) && WantedBefore(ds, from) == WantedBefore(ds, p)
    decreases |ds| - from
  {
    if from < |ds| && ds[from].key != NoKey {
      SkipKeys(ds, from + 1);
    }
  }

  /** Once the wanted arguments are there, free arguments go to the first open descriptor, or nowhere without one. */
  lemma {:induction false} SlotOfLate(ds: seq<Descriptor>, from: nat, k: nat)
    requires from <= |ds|
    ensures var p := Slot(ds, from, k);
            if k >= WantedBefore(ds, from) then p == FirstOpen(ds, from)
            else p < |ds| && ds[p].count > 0 && p != FirstOpen(ds, from)
    decreases |ds| - from
  {
    SkipKeys(ds, from);
    var p := FindPositional(ds, from);
    if p < |ds| && ds[p].count > 0 {
      assert FirstOpen(ds, p) == FirstOpen(ds, p + 1);
      if k >= ds[p].count {
        SlotOfLate(ds, p + 1, k - ds[p].count);
      }
    }
  }

  /** The arguments that a descriptor's callback was given. */
  function Delivered(calls: seq<Call>, d: nat): seq<string> {
    if calls == [] then []
    else (if calls[0].Given? && calls[0].d == d then [calls[0].argument] else []) + Delivered(calls[1..], d)
  }

  lemma {:induction false} DeliveredBoth(a: seq<Call>, b: seq<Call>, d: nat)
    ensures Delivered(a + b, d) == Delivered(a, d) + Delivered(b, d)
    decreases |a|
  {
    if a == [] {
      assert a + b == b;
    } else {
      assert (a + b)[1..] == a[1..] + b;
      DeliveredBoth(a[1..], b, d);
    }
  }

  lemma {:induction false} NothingForOthers(i: nat, parameters: seq<string>, d: nat)
    requires d != i
    ensures Delivered(GivenAll(i, parameters), d) == []
    decreases |parameters|
  {
    if parameters != [] {
      assert GivenAll(i, parameters)[1..] == GivenAll(i, parameters[1..]);
      NothingForOthers(i, parameters[1..], d);
    }
  }

  lemma OptionDeliversNothing(ds: seq<Descriptor>, i: nat, parameters: seq<string>, d: nat)
    requires i < |ds| && d != i
    ensures Delivered(OptionCalls(ds, i, parameters), d) == []
  {
    NothingForOthers(i, parameters, d);
  }

  /** A free argument is delivered to the first open descriptor exactly when `invoke` passes it on. */
  lemma FreeDelivered(ds: seq<Descriptor>, argument: string, k: nat)
    requires FirstOpen(ds, 0) < |ds|
    ensures var p := Slot(ds, 0, k);
            && p < |ds|
            && Delivered(FreeCalls(p, argument), FirstOpen(ds, 0))
               == if Unfilled(ds, k) then [] else [argument]
  {
    SlotOfLate(ds, 0, k);
  }

  /** A descriptor with a callback is really given all that is delivered to it. */
  lemma {:induction false} MadeIsDelivered(ds: seq<Descriptor>, calls: seq<Call>, d: nat)
    requires d < |ds| && ds[d].callback
    ensures Delivered(Made(ds, calls), d) == Delivered(calls, d)
    decreases |calls|
  {
    if calls != [] {
      MadeIsDelivered(ds, calls[1..], d);
      var one := if calls[0].d < |ds| && ds[calls[0].d].callback then [calls[0]] else [];
      DeliveredBoth(one, Made(ds, calls[1..]), d);
      assert [calls[0]][1..] == [];
    }
  }

  /**
   Both loops agree: what `parse` delivers to the first positional descriptor of count 0 is exactly what `invoke` passes
   on, in the same order, also when an option is cut short.
   */
  lemma {:induction false} ParseAndInvokeAgree(ds: seq<Descriptor>, arguments: seq<string>, k: nat)
    requires FirstOpen(ds, 0) < |ds|
    ensures Delivered(Parse(ds, arguments, k).calls, FirstOpen(ds, 0)) == Invoked(ds, arguments, k)
    decreases |arguments|
  {
    if arguments != [] {
      var i := FindOptional(ds, arguments[0]);
      if i == |ds| {
        ParseAndInvokeAgree(ds, arguments[1..], k + 1);
        AgreeOnFree(ds, arguments, k);
      } else if |arguments| > ds[i].count {
        ParseAndInvokeAgree(ds, arguments[1 + ds[i].count..], k);
        AgreeOnOption(ds, arguments, k, i);
      }
    }
  }

  lemma AgreeOnOption(ds: seq<Descriptor>, arguments: seq<string>, k: nat, i: nat)
    requires arguments != [] && i == FindOptional(ds, arguments[0]) && i < |ds|
    requires |arguments| > ds[i].count && FirstOpen(ds, 0) < |ds|
    ensures Delivered(Parse(ds, arguments, k).calls, FirstOpen(ds, 0))
         == Delivered(Parse(ds, arguments[1 + ds[i].count..], k).calls, FirstOpen(ds, 0))
  {
    var parameters, rest := arguments[1..1 + ds[i].count], Parse(ds, arguments[1 + ds[i].count..], k);
    assert Parse(ds, arguments, k).calls == OptionCalls(ds, i, parameters) + rest.calls;
    OptionDeliversNothing(ds, i, parameters, FirstOpen(ds, 0));
    DeliveredBoth(OptionCalls(ds, i, parameters), rest.calls, FirstOpen(ds, 0));
  }

  lemma AgreeOnFree(ds: seq<Descriptor>, arguments: seq<string>, k: nat)
    requires arguments != [] && FindOptional(ds, arguments[0]) == |ds|
    requires FirstOpen(ds, 0) < |ds|
    ensures Delivered(Parse(ds, arguments, k).calls, FirstOpen(ds, 0))
         == (if Unfilled(ds, k) then [] else [arguments[0]])
            + Delivered(Parse(ds, arguments[1..], k + 1).calls, FirstOpen(ds, 0))
  {
    FreeDelivered(ds, arguments[0], k);
    var p := Slot(ds, 0, k);
    DeliveredBoth(FreeCalls(p, arguments[0]), Parse(ds, arguments[1..], k + 1).calls,
                  FirstOpen(ds, 0));
  }

  // ---------------------------------------------------------------------------------------------
  // Acceptance

  /** The role of an argument: an option's key, one of its parameters, or free. */
  datatype Role = IsKey(d: nat) | IsParameter(d: nat) | IsFree

  /** The roles of the arguments, without regard to positional descriptors, up to an option that is cut short. */
  datatype Scanned = Scanned(roles: seq<Role>, cut: bool)

  function Repeat(r: Role, n: nat): (s: seq<Role>)
    ensures |s| == n
  {
    seq(n, _ => r)
  }

  function Scan(ds: seq<Descriptor>, arguments: seq<string>): Scanned
    decreases |arguments|
  {
    if arguments == [] then Scanned([], false)
    else
      var i := FindOptional(ds, arguments[0]);
      if i == |ds| then
        var rest := Scan(ds, arguments[1..]);
        Scanned([IsFree] + rest.roles, rest.cut)
      else if |arguments| <= ds[i].count then Scanned([], true)
      else
        var rest := Scan(ds, arguments[1 + ds[i].count..]);
        Scanned([IsKey(i)] + Repeat(IsParameter(i), ds[i].count) + rest.roles, rest.cut)
  }

  function FreeCount(roles: seq<Role>): nat {
    if roles == [] then 0 else (if roles[0] == IsFree then 1 else 0) + FreeCount(roles[1..])
  }

  lemma {:induction false} FreeCountBoth(a: seq<Role>, b: seq<Role>)
    ensures FreeCount(a + b) == FreeCount(a) + FreeCount(b)
    decreases |a|
  {
    if a == [] {
      assert a + b == b;
    } else {
      assert (a + b)[1..] == a[1..] + b;
      FreeCountBoth(a[1..], b);
    }
  }

  lemma {:induction false} NoneFree(i: nat, n: nat)
    ensures FreeCount(Repeat(IsParameter(i), n)) == 0
    decreases n
  {
    if n > 0 {
      assert Repeat(IsParameter(i), n)[1..] == Repeat(IsParameter(i), n - 1);
      NoneFree(i, n - 1);
    }
  }

  /** Parsing is complete exactly when no option is cut short and every free argument finds a descriptor. */
  lemma {:induction false} CompleteWhen(ds: seq<Descriptor>, arguments: seq<string>, k: nat)
    ensures var r, s := Parse(ds, arguments, k), Scan(ds, arguments);
            && (r.complete <==> !s.cut && (FirstOpen(ds, 0) < |ds| || FreeCount(s.roles) == 0
                                           || k + FreeCount(s.roles) <= WantedBefore(ds, 0)))
            && (r.complete ==> r.free == k + FreeCount(s.roles))
    decreases |arguments|
  {
    if arguments != [] {
      var i := FindOptional(ds, arguments[0]);
      if i == |ds| {
        SlotOfLate(ds, 0, k);
        CompleteWhen(ds, arguments[1..], k + 1);
        var rest := Scan(ds, arguments[1..]);
        assert ([IsFree] + rest.roles)[1..] == rest.roles;
      } else if |arguments| > ds[i].count {
        var rest := Scan(ds, arguments[1 + ds[i].count..]);
        CompleteWhen(ds, arguments[1 + ds[i].count..], k);
        OptionRoles(i, ds[i].count, rest.roles);
      }
    }
  }

  lemma OptionRoles(i: nat, n: nat, roles: seq<Role>)
    ensures FreeCount([IsKey(i)] + Repeat(IsParameter(i), n) + roles) == FreeCount(roles)
  {
    FreeCountBoth([IsKey(i)] + Repeat(IsParameter(i), n), roles);
    FreeCountBoth([IsKey(i)], Repeat(IsParameter(i), n));
    NoneFree(i, n);
    assert [IsKey(i)][1..] == [];
  }

  /**
   Arguments are accepted exactly when no option is cut short and the number of free arguments is the sum of the
   positional counts, or at least the sum of those before the first count of 0.
   */
  lemma AcceptedWhen(ds: seq<Descriptor>, arguments: seq<string>)
    ensures var s := Scan(ds, arguments);
            Status(ds, arguments) <==>
              && !s.cut
              && if FirstOpen(ds, 0) < |ds| then FreeCount(s.roles) >= WantedBefore(ds, 0)
                 else FreeCount(s.roles) == WantedBefore(ds, 0)
  {
    CompleteWhen(ds, arguments, 0);
    SlotOfLate(ds, 0, Parse(ds, arguments, 0).free);
  }

  /** The call that one argument in its role causes. */
  function RoleCalls(ds: seq<Descriptor>, role: Role, argument: string, k: nat): seq<Call> {
    match role
    case IsKey(d) => if d < |ds| && ds[d].count == 0 then [Flag(d)] else []
    case IsParameter(d) => [Given(d, argument)]
    case IsFree => if Slot(ds, 0, k) < |ds| then FreeCalls(Slot(ds, 0, k), argument) else []
  }

  function AllRoleCalls(ds: seq<Descriptor>, roles: seq<Role>, arguments: seq<string>, k: nat): seq<Call>
    requires |roles| <= |arguments|
    decreases |roles|
  {
    if roles == [] then []
    else
      RoleCalls(ds, roles[0], arguments[0], k)
      + AllRoleCalls(ds, roles[1..], arguments[1..], if roles[0] == IsFree then k + 1 else k)
  }

  lemma {:induction false} ScannedInLength(ds: seq<Descriptor>, arguments: seq<string>)
    ensures |Scan(ds, arguments).roles| <= |arguments|
    ensures !Scan(ds, arguments).cut ==> |Scan(ds, arguments).roles| == |arguments|
    decreases |arguments|
  {
    if arguments != [] {
      var i := FindOptional(ds, arguments[0]);
      if i == |ds| {
        ScannedInLength(ds, arguments[1..]);
      } else if |arguments| > ds[i].count {
        ScannedInLength(ds, arguments[1 + ds[i].count..]);
      }
    }
  }

  lemma {:induction false} ParameterCalls(ds: seq<Descriptor>, i: nat, n: nat, parameters: seq<string>,
      more: seq<string>, roles: seq<Role>, k: nat)
    requires i < |ds| && |parameters| == n && |roles| <= |more|
    ensures AllRoleCalls(ds, Repeat(IsParameter(i), n) + roles, parameters + more, k)
         == GivenAll(i, parameters) + AllRoleCalls(ds, roles, more, k)
    decreases n
  {
    var all := Repeat(IsParameter(i), n) + roles;
    if n == 0 {
      assert all == roles && parameters + more == more;
    } else {
      assert all[1..] == Repeat(IsParameter(i), n - 1) + roles;
      assert (parameters + more)[1..] == parameters[1..] + more;
      ParameterCalls(ds, i, n - 1, parameters[1..], more, roles, k);
    }
  }

  lemma OptionOnce(ds: seq<Descriptor>, i: nat, arguments: seq<string>, roles: seq<Role>, k: nat)
    requires i < |ds| && |arguments| > ds[i].count && |roles| <= |arguments| - 1 - ds[i].count
    ensures var n := ds[i].count;
            AllRoleCalls(ds, [IsKey(i)] + Repeat(IsParameter(i), n) + roles, arguments, k)
            == OptionCalls(ds, i, arguments[1..1 + n]) + AllRoleCalls(ds, roles, arguments[1 + n..], k)
  {
    var n := ds[i].count;
    var all := [IsKey(i)] + Repeat(IsParameter(i), n) + roles;
    assert all[1..] == Repeat(IsParameter(i), n) + roles;
    assert arguments[1..] == arguments[1..1 + n] + arguments[1 + n..];
    ParameterCalls(ds, i, n, arguments[1..1 + n], arguments[1 + n..], roles, k);
  }

  /** The argument where parsing stops: an option that is cut short, or a free argument without a descriptor. */
  predicate Refused(ds: seq<Descriptor>, arguments: seq<string>, n: nat, k: nat)
    requires n < |arguments|
  {
    var i := FindOptional(ds, arguments[n]);
    if i < |ds| then |arguments| - n <= ds[i].count else Slot(ds, 0, k) == |ds|
  }

  /** The calls are those of the first n arguments in their roles: of all, or of those before the refused one. */
  predicate ConsumedUpTo(ds: seq<Descriptor>, arguments: seq<string>, k: nat, n: nat) {
    var roles, r := Scan(ds, arguments).roles, Parse(ds, arguments, k);
    && n <= |roles| <= |arguments|
    && r.calls == AllRoleCalls(ds, roles[..n], arguments, k)
    && if r.complete then n == |arguments|
       else n < |arguments| && Refused(ds, arguments, n, k + FreeCount(roles[..n]))
  }

  lemma ConsumedFree(ds: seq<Descriptor>, arguments: seq<string>, k: nat, n: nat)
    requires arguments != [] && FindOptional(ds, arguments[0]) == |ds| && Slot(ds, 0, k) < |ds|
    requires ConsumedUpTo(ds, arguments[1..], k + 1, n)
    ensures ConsumedUpTo(ds, arguments, k, n + 1)
  {
    var roles, rest := Scan(ds, arguments).roles, Scan(ds, arguments[1..]).roles;
    assert roles[..n + 1][1..] == rest[..n];
    if n < |arguments| - 1 {
      assert arguments[1..][n] == arguments[n + 1];
    }
  }

  lemma ConsumedOption(ds: seq<Descriptor>, arguments: seq<string>, k: nat, i: nat, n: nat)
    requires arguments != [] && i == FindOptional(ds, arguments[0]) && i < |ds| && |arguments| > ds[i].count
    requires ConsumedUpTo(ds, arguments[1 + ds[i].count..], k, n)
    ensures ConsumedUpTo(ds, arguments, k, 1 + ds[i].count + n)
  {
    var later := arguments[1 + ds[i].count..];
    var rest := Scan(ds, later).roles;
    ScanOption(ds, arguments, i, n);
    OptionOnce(ds, i, arguments, rest[..n], k);
    if n < |later| {
      assert later[n] == arguments[1 + ds[i].count + n];
    }
  }

  lemma ScanOption(ds: seq<Descriptor>, arguments: seq<string>, i: nat, n: nat)
    requires arguments != [] && i == FindOptional(ds, arguments[0]) && i < |ds| && |arguments| > ds[i].count
    requires n <= |Scan(ds, arguments[1 + ds[i].count..]).roles|
    ensures var roles, rest := Scan(ds, arguments).roles, Scan(ds, arguments[1 + ds[i].count..]).roles;
            && |roles| == 1 + ds[i].count + |rest|
            && roles[..1 + ds[i].count + n] == [IsKey(i)] + Repeat(IsParameter(i), ds[i].count) + rest[..n]
            && FreeCount(roles[..1 + ds[i].count + n]) == FreeCount(rest[..n])
  {
    var rest := Scan(ds, arguments[1 + ds[i].count..]).roles;
    var head := [IsKey(i)] + Repeat(IsParameter(i), ds[i].count);
    assert Scan(ds, arguments).roles == head + rest;
    assert (head + rest)[..|head| + n] == head + rest[..n];
    OptionRoles(i, ds[i].count, rest[..n]);
  }

  /**
   Every argument up to the stop is consumed once, in its one role: the calls of a parse are those of the first n
   arguments one by one, which are all of them when parsing is complete, and otherwise those before the refused one.
   */
  lemma {:induction false} EachArgumentOnce(ds: seq<Descriptor>, arguments: seq<string>, k: nat) returns (n: nat)
    ensures ConsumedUpTo(ds, arguments, k, n)
    decreases |arguments|
  {
    n := 0;
    var i := if arguments == [] then |ds| else FindOptional(ds, arguments[0]);
    if arguments == [] || (if i < |ds| then |arguments| <= ds[i].count else Slot(ds, 0, k) == |ds|) {
      ConsumedNone(ds, arguments, k);
    } else if i == |ds| {
      n := EachArgumentOnce(ds, arguments[1..], k + 1);
      ConsumedFree(ds, arguments, k, n);
      n := n + 1;
    } else {
      n := EachArgumentOnce(ds, arguments[1 + ds[i].count..], k);
      ConsumedOption(ds, arguments, k, i, n);
      n := 1 + ds[i].count + n;
    }
  }

  lemma ConsumedNone(ds: seq<Descriptor>, arguments: seq<string>, k: nat)
    requires arguments == [] || Refused(ds, arguments, 0, k)
    ensures ConsumedUpTo(ds, arguments, k, 0)
  {
    ScannedInLength(ds, arguments);
    assert FreeCount([]) == 0;
  }

  // ---------------------------------------------------------------------------------------------
  // Roles and places, told by the descriptors

  predicate NoneHas(ds: seq<Descriptor>, name: string) {
    forall j | 0 <= j < |ds| :: ds[j].key != Key(name)
  }

  /** The role of one argument: the key of the first descriptor that has it, one of that key's parameters, or free. */
  predicate RoleIs(ds: seq<Descriptor>, arguments: seq<string>, roles: seq<Role>, i: nat)
    requires i < |roles| <= |arguments|
  {
    match roles[i]
    case IsKey(d) =>
      && d < |ds| && IsFirstWith(ds, arguments[i], d) && i + ds[d].count < |roles|
      && forall j | i < j <= i + ds[d].count :: roles[j] == IsParameter(d)
    case IsParameter(d) => d < |ds| && exists k :: 0 <= k < i <= k + ds[d].count && roles[k] == IsKey(d)
    case IsFree => NoneHas(ds, arguments[i])
  }

  /** All arguments have their roles, or those before an option that is cut short. */
  ghost predicate ScannedAs(ds: seq<Descriptor>, arguments: seq<string>, s: Scanned) {
    var n := |s.roles|;
    && n <= |arguments|
    && (forall i | 0 <= i < n :: RoleIs(ds, arguments, s.roles, i))
    && if s.cut then
         && n < |arguments|
         && exists d: nat :: d < |ds| && IsFirstWith(ds, arguments[n], d) && |arguments| - n <= ds[d].count
       else n == |arguments|
  }

  lemma RoleShifted(ds: seq<Descriptor>, arguments: seq<string>, head: seq<Role>, rest: seq<Role>, i: nat)
    requires |head| <= |arguments| && i < |rest| <= |arguments| - |head|
    requires RoleIs(ds, arguments[|head|..], rest, i)
    ensures RoleIs(ds, arguments, head + rest, |head| + i)
  {
    var all, n := head + rest, |head|;
    assert forall j | 0 <= j < |rest| :: all[n + j] == rest[j];
    match rest[i]
    case IsParameter(d) =>
      var k :| 0 <= k < i <= k + ds[d].count && rest[k] == IsKey(d);
      assert all[n + k] == IsKey(d);
    case IsKey(d) =>
      forall j | n + i < j <= n + i + ds[d].count
        ensures all[j] == IsParameter(d)
      {
        assert all[j] == rest[j - n];
      }
    case IsFree =>
  }

  lemma OptionRoleIs(ds: seq<Descriptor>, arguments: seq<string>, d: nat, rest: seq<Role>, i: nat)
    requires d < |ds| && arguments != [] && IsFirstWith(ds, arguments[0], d)
    requires |arguments| > ds[d].count && |rest| <= |arguments| - 1 - ds[d].count && i <= ds[d].count
    ensures RoleIs(ds, arguments, [IsKey(d)] + Repeat(IsParameter(d), ds[d].count) + rest, i)
  {
    var all := [IsKey(d)] + Repeat(IsParameter(d), ds[d].count) + rest;
    RepeatIs(IsParameter(d), ds[d].count);
    assert all[0] == IsKey(d);
    forall j | 0 < j <= ds[d].count
      ensures all[j] == IsParameter(d)
    {
      assert all[j] == Repeat(IsParameter(d), ds[d].count)[j - 1];
    }
  }

  lemma RepeatIs(r: Role, n: nat)
    ensures forall j | 0 <= j < n :: Repeat(r, n)[j] == r
  {
  }

  lemma {:induction false} ScanIs(ds: seq<Descriptor>, arguments: seq<string>)
    ensures ScannedAs(ds, arguments, Scan(ds, arguments))
    decreases |arguments|
  {
    if arguments != [] {
      FindOptionalIsFirst(ds, arguments[0]);
      var d := FindOptional(ds, arguments[0]);
      if d == |ds| {
        ScanIs(ds, arguments[1..]);
        ScanAfter(ds, arguments, [IsFree]);
      } else if |arguments| > ds[d].count {
        var head := [IsKey(d)] + Repeat(IsParameter(d), ds[d].count);
        ScanIs(ds, arguments[1 + ds[d].count..]);
        ScannedInLength(ds, arguments[1 + ds[d].count..]);
        forall i | 0 <= i < |head|
          ensures RoleIs(ds, arguments, head + Scan(ds, arguments[|head|..]).roles, i)
        {
          OptionRoleIs(ds, arguments, d, Scan(ds, arguments[|head|..]).roles, i);
        }
        ScanAfter(ds, arguments, head);
      }
    }
  }

  /** The roles of the first arguments, and then those of the others. */
  lemma ScanAfter(ds: seq<Descriptor>, arguments: seq<string>, head: seq<Role>)
    requires |head| <= |arguments| && ScannedAs(ds, arguments[|head|..], Scan(ds, arguments[|head|..]))
    requires var rest := Scan(ds, arguments[|head|..]);
             Scan(ds, arguments) == Scanned(head + rest.roles, rest.cut)
             && (forall i | 0 <= i < |head| :: RoleIs(ds, arguments, head + rest.roles, i))
    ensures ScannedAs(ds, arguments, Scan(ds, arguments))
  {
    var rest := Scan(ds, arguments[|head|..]);
    forall i | 0 <= i < |head + rest.roles|
      ensures RoleIs(ds, arguments, head + rest.roles, i)
    {
      if i >= |head| {
        RoleShifted(ds, arguments, head, rest.roles, i - |head|);
      }
    }
    if rest.cut {
      assert arguments[|head|..][|rest.roles|] == arguments[|head| + |rest.roles|];
    }
  }

  /** The positional counts before a place in the list, added up. */
  function SumBefore(ds: seq<Descriptor>, p: nat): nat
    requires p <= |ds|
  {
    if p == 0 then 0 else SumBefore(ds, p - 1) + if ds[p - 1].key == NoKey then ds[p - 1].count else 0
  }

  predicate AllCounted(ds: seq<Descriptor>, from: nat, end: nat)
    requires from <= end <= |ds|
  {
    forall j | from <= j < end && ds[j].key == NoKey :: ds[j].count > 0
  }

  /**
   A free argument goes to the descriptor whose share it falls into when the counts are laid end to end, to the first
   one of count 0 after that, or nowhere.
   */
  lemma {:induction false} SlotIs(ds: seq<Descriptor>, from: nat, k: nat)
    requires from <= |ds|
    ensures var p := Slot(ds, from, k);
            && AllCounted(ds, from, p)
            && SumBefore(ds, p) <= SumBefore(ds, from) + k
            && (p < |ds| ==> ds[p].key == NoKey
                             && (ds[p].count == 0 || SumBefore(ds, from) + k < SumBefore(ds, p) + ds[p].count))
    decreases |ds| - from
  {
    FindPositionalIsFirst(ds, from);
    var p := FindPositional(ds, from);
    SumOverKeys(ds, from, p);
    if p < |ds| && ds[p].count > 0 && k >= ds[p].count {
      SlotIs(ds, p + 1, k - ds[p].count);
    }
  }

  lemma {:induction false} SumOverKeys(ds: seq<Descriptor>, from: nat, end: nat)
    requires from <= end <= |ds| && forall j | from <= j < end :: ds[j].key != NoKey
    ensures SumBefore(ds, end) == SumBefore(ds, from)
    decreases end
  {
    if end > from {
      SumOverKeys(ds, from, end - 1);
    }
  }

  // ---------------------------------------------------------------------------------------------
  // Small lists of descriptors

  predicate EachGiven(calls: seq<Call>, d: nat, arguments: seq<string>) {
    |calls| == |arguments| && forall i | 0 <= i < |arguments| :: calls[i] == Given(d, arguments[i])
  }

  lemma {:induction false} GivenAllIs(d: nat, arguments: seq<string>)
    ensures EachGiven(GivenAll(d, arguments), d, arguments)
    decreases |arguments|
  {
    if arguments != [] {
      GivenAllIs(d, arguments[1..]);
    }
  }

  /** An option that has all its parameters is called with each of them, or once without any when it takes none. */
  lemma OptionAlone(name: string, n: nat, parameters: seq<string>)
    requires |parameters| <= n
    ensures var ds, arguments := [Descriptor(Key(name), n, true)], [name] + parameters;
            var calls := Made(ds, Parse(ds, arguments, 0).calls);
            if |parameters| < n then calls == [] && !Status(ds, arguments)
            else Status(ds, arguments) && if n == 0 then calls == [Flag(0)] else EachGiven(calls, 0, parameters)
  {
    var ds, arguments := [Descriptor(Key(name), n, true)], [name] + parameters;
    assert FindPositional(ds, 0) == FindPositional(ds, 1) == 1;
    assert FindOptional(ds, arguments[0]) == 0;
    if |parameters| == n {
      assert arguments[1..1 + n] == parameters && arguments[1 + n..] == [];
      assert OptionCalls(ds, 0, parameters) + [] == OptionCalls(ds, 0, parameters);
      MadeOfOne(ds, 0, parameters);
      GivenAllIs(0, parameters);
    }
  }

  /** Without descriptors that have keys all arguments are free, and each goes to its slot. */
  lemma {:induction false} FreeArguments(ds: seq<Descriptor>, arguments: seq<string>, k: nat)
    requires forall j | 0 <= j < |ds| :: ds[j].key == NoKey && ds[j].callback
    requires forall i | k <= i < k + |arguments| :: Slot(ds, 0, i) < |ds|
    ensures var r := Parse(ds, arguments, k);
            && r.complete && r.free == k + |arguments| && |r.calls| == |arguments| && Made(ds, r.calls) == r.calls
            && forall i | 0 <= i < |arguments| :: r.calls[i] == Given(Slot(ds, 0, k + i), arguments[i])
    decreases |arguments|
  {
    if arguments != [] {
      assert FindOptional(ds, arguments[0]) == |ds|;
      assert Slot(ds, 0, k) < |ds|;
      FreeArguments(ds, arguments[1..], k + 1);
      var rest := Parse(ds, arguments[1..], k + 1);
      var one := FreeCalls(Slot(ds, 0, k), arguments[0]);
      assert Parse(ds, arguments, k).calls == one + rest.calls;
      MadeBoth(ds, one, rest.calls);
      assert one[1..] == [];
    }
  }

  function Positional(n: nat): Descriptor {
    Descriptor(NoKey, n, true)
  }

  lemma TwoSlots(n: nat, m: nat, k: nat)
    requires n > 0
    ensures var ds := [Positional(n), Positional(m)];
            Slot(ds, 0, k) == if k < n then 0 else if m == 0 || k < n + m then 1 else 2
  {
    var ds := [Positional(n), Positional(m)];
    assert FindPositional(ds, 0) == 0 && FindPositional(ds, 1) == 1 && FindPositional(ds, 2) == 2;
    assert Slot(ds, 2, if k >= n + m then k - n - m else 0) == 2;
  }

  /** Two positional descriptors: the first takes its count, the second its own count, or all the rest with count 0. */
  lemma TwoPositionals(n: nat, m: nat, arguments: seq<string>)
    requires n > 0
    ensures var ds := [Positional(n), Positional(m)];
            Status(ds, arguments) <==> if m == 0 then |arguments| >= n else |arguments| == n + m
    ensures var ds := [Positional(n), Positional(m)];
            m == 0 || |arguments| <= n + m ==>
              var calls := Made(ds, Parse(ds, arguments, 0).calls);
              && |calls| == |arguments|
              && forall i | 0 <= i < |arguments| :: calls[i] == Given(if i < n then 0 else 1, arguments[i])
  {
    var ds := [Positional(n), Positional(m)];
    forall k: nat
      ensures Slot(ds, 0, k) == if k < n then 0 else if m == 0 || k < n + m then 1 else 2
    {
      TwoSlots(n, m, k);
    }
    if m == 0 || |arguments| <= n + m {
      FreeArguments(ds, arguments, 0);
    } else {
      TooMany(ds, arguments, 0, n + m);
    }
  }

  /** More free arguments than there are places for. */
  lemma {:induction false} TooMany(ds: seq<Descriptor>, arguments: seq<string>, k: nat, places: nat)
    requires (forall j | 0 <= j < |ds| :: ds[j].key == NoKey) && Slot(ds, 0, places) == |ds|
    requires k <= places < k + |arguments|
    ensures !Parse(ds, arguments, k).complete
    decreases |arguments|
  {
    assert FindOptional(ds, arguments[0]) == |ds|;
    if k < places && Slot(ds, 0, k) < |ds| {
      TooMany(ds, arguments[1..], k + 1, places);
    }
  }

  /** `invoke` passes over the arguments of counted positional descriptors, and passes on the others. */
  lemma InvokedAfter(n: nat, arguments: seq<string>)
    requires n > 0
    ensures Invoked([Positional(n), Positional(0)], arguments, 0)
         == arguments[(if n <= |arguments| then n else |arguments|)..]
  {
    InvokedFrom(n, arguments, 0);
  }

  /** How many of some arguments go to a descriptor of count n, with k before them. */
  function Passed(n: nat, arguments: nat, k: nat): (r: nat)
    ensures r <= arguments
  {
    if k >= n then 0 else if n <= k + arguments then n - k else arguments
  }

  lemma {:induction false} InvokedFrom(n: nat, arguments: seq<string>, k: nat)
    requires n > 0
    ensures Invoked([Positional(n), Positional(0)], arguments, k)
         == arguments[Passed(n, |arguments|, k)..]
    decreases |arguments|
  {
    var ds := [Positional(n), Positional(0)];
    if arguments != [] {
      assert FindOptional(ds, arguments[0]) == 2;
      TwoSlots(n, 0, k);
      InvokedFrom(n, arguments[1..], k + 1);
    }
  }

  /** Every call that is made is that of a descriptor with a callback, and with callbacks everywhere all are made. */
  lemma {:induction false} MadeAreWithCallback(ds: seq<Descriptor>, calls: seq<Call>)
    ensures forall i | 0 <= i < |Made(ds, calls)| ::
              Made(ds, calls)[i].d < |ds| && ds[Made(ds, calls)[i].d].callback && Made(ds, calls)[i] in calls
    ensures (forall i | 0 <= i < |calls| :: calls[i].d < |ds| && ds[calls[i].d].callback) ==> Made(ds, calls) == calls
    decreases |calls|
  {
    if calls != [] {
      MadeAreWithCallback(ds, calls[1..]);
    }
  }
}
