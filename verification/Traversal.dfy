/** Enumeration of a directory, one node at a time, while the tree changes in between. */
module Traversal {
  import opened VfsHeap
  import opened VfsDirectory

  /** A walk over the list of a directory: the tree, and the nodes visited so far, the current one last. */
  datatype Walk = Walk(f: Forest, d: Id, visited: seq<Id>)

  function Current(w: Walk): Id
    requires w.visited != []
  {
    w.visited[|w.visited| - 1]
  }

  function List(w: Walk): seq<Id>
    requires w.d in w.f.nodes
  {
    w.f.nodes[w.d].children
  }

  /** Up to place k, which holds the current node, the list was visited; after it, nothing was. */
  predicate SplitAt(list: seq<Id>, visited: seq<Id>, k: nat) {
    && k < |list| && visited != [] && list[k] == visited[|visited| - 1]
    && (forall i | 0 <= i <= k :: list[i] in visited)
    && (forall i | k < i < |list| :: list[i] !in visited)
  }

  ghost predicate Invariant(w: Walk) {
    && ValidForest(w.f) && IsDirectory(w.f, w.d) && w.f.nodes[w.d].access.read
    && Distinct(w.visited)
    && (forall i | 0 <= i < |w.visited| ::
          w.visited[i] < w.f.next && (w.visited[i] in w.f.nodes ==> w.f.nodes[w.visited[i]].attached))
    && exists k: nat :: SplitAt(List(w), w.visited, k)
  }

  /** A step of the cursor, or a change of the tree by anyone. */
  datatype Step = Advance | Meanwhile(c: Change)

  /** Any change but one that takes the current node away, or the permission to read the directory. */
  predicate Enabled(w: Walk, s: Step)
    requires ValidForest(w.f) && w.visited != [] && Current(w) in w.f.nodes
  {
    match s
    case Advance => Following(w.f, Current(w)).To?
    case Meanwhile(c) =>
      && Possible(w.f, c)
      && var g := Apply(w.f, c);
         Current(w) in g.nodes && (w.d in g.nodes ==> g.nodes[w.d].access.read)
  }

  function Effect(w: Walk, s: Step): Walk
    requires ValidForest(w.f) && w.visited != [] && Current(w) in w.f.nodes && Enabled(w, s)
  {
    match s
    case Advance => w.(visited := w.visited + [Following(w.f, Current(w)).id])
    case Meanwhile(c) => w.(f := Apply(w.f, c))
  }

  lemma CurrentIsListed(w: Walk)
    requires Invariant(w)
    ensures w.visited != [] && Current(w) in w.f.nodes && w.f.nodes[Current(w)].parent == To(w.d)
    ensures Current(w) in List(w)
  {
    var k: nat :| SplitAt(List(w), w.visited, k);
    ListedHasParent(w.f, w.d, Current(w));
  }

  /** From a split list, the successor of the current node is the first one not visited yet. */
  lemma SuccessorOfSplit(list: seq<Id>, visited: seq<Id>, k: nat)
    requires Distinct(list) && SplitAt(list, visited, k)
    ensures Successor(list, list[k]) == if k + 1 < |list| then To(list[k + 1]) else None
    ensures k + 1 < |list| ==> SplitAt(list, visited + [list[k + 1]], k + 1) && list[k + 1] !in visited
  {
    SuccessorAt(list, list[k], k);
  }

  lemma AdvanceKeepsInvariant(w: Walk)
    requires Invariant(w)
    ensures w.visited != [] && Current(w) in w.f.nodes
    ensures Enabled(w, Advance) ==> Invariant(Effect(w, Advance))
    ensures !Enabled(w, Advance) ==> forall n <- List(w) :: n in w.visited
  {
    CurrentIsListed(w);
    var k: nat :| SplitAt(List(w), w.visited, k);
    SuccessorOfSplit(List(w), w.visited, k);
    if Enabled(w, Advance) {
      var n := Following(w.f, Current(w)).id;
      assert n == List(w)[k + 1];
      ListedHasParent(w.f, w.d, n);
      assert SplitAt(List(Effect(w, Advance)), w.visited + [n], k + 1);
    }
  }

  lemma SplitWithout(list: seq<Id>, visited: seq<Id>, k: nat, n: Id)
    requires Distinct(list) && SplitAt(list, visited, k) && n != list[k]
    ensures exists j: nat :: SplitAt(Without(list, n), visited, j)
  {
    if n in list {
      var j :| 0 <= j < |list| && list[j] == n;
      EraseIsWithout(list, j);
      var rest := list[..j] + list[j + 1..];
      assert SplitAt(rest, visited, if j < k then k - 1 else k);
    } else {
      assert Without(list, n) == list;
    }
  }

  lemma SplitAppend(list: seq<Id>, visited: seq<Id>, k: nat, n: Id)
    requires SplitAt(list, visited, k) && n !in visited
    ensures SplitAt(list + [n], visited, k)
  {
  }

  /** What a change does to nodes that stay: handles and parents stay, and a list loses or gains at most one node. */
  lemma ChangeOnList(f: Forest, c: Change, d: Id)
    requires ValidForest(f) && Possible(f, c) && IsDirectory(f, d) && d in Apply(f, c).nodes
    ensures var g := Apply(f, c);
            && ValidForest(g) && IsDirectory(g, d)
            && g.nodes[d].children ==
               match c
               case Attach(e, n) => if e == d then f.nodes[d].children + [n] else f.nodes[d].children
               case Insert(e, _, _, _) => if e == d then f.nodes[d].children + [f.next] else f.nodes[d].children
               case Prune(e, n) => if e == d then Without(f.nodes[d].children, n) else f.nodes[d].children
               case _ => f.nodes[d].children
  {
    ChangeKeepsValid(f, c);
    if c.Prune? {
      PruneTakesSubtree(f, c.d, c.n);
    }
  }

  lemma ChangeOnNode(f: Forest, c: Change, v: Id)
    requires ValidForest(f) && Possible(f, c) && v < f.next && (v in f.nodes ==> f.nodes[v].attached)
    ensures var g := Apply(f, c);
            && v < g.next
            && (v in g.nodes ==> v in f.nodes && g.nodes[v].attached && g.nodes[v].parent == f.nodes[v].parent)
  {
    if c.Prune? {
      PruneTakesSubtree(f, c.d, c.n);
    }
  }

  lemma MeanwhileKeepsInvariant(w: Walk, c: Change)
    requires Invariant(w) && w.visited != [] && Current(w) in w.f.nodes && Enabled(w, Meanwhile(c))
    ensures Invariant(Effect(w, Meanwhile(c)))
  {
    var g, cur := Apply(w.f, c), Current(w);
    CurrentIsListed(w);
    ChangeKeepsValid(w.f, c);
    forall i | 0 <= i < |w.visited|
      ensures w.visited[i] < g.next && (w.visited[i] in g.nodes ==> g.nodes[w.visited[i]].attached)
    {
      ChangeOnNode(w.f, c, w.visited[i]);
    }
    ChangeOnNode(w.f, c, cur);
    ParentRanksBelow(g.nodes, g.rank, cur);
    ChangeOnList(w.f, c, w.d);
    var k: nat :| SplitAt(List(w), w.visited, k);
    var after := List(Effect(w, Meanwhile(c)));
    if after == List(w) {
      assert SplitAt(after, w.visited, k);
    } else if c.Prune? {
      PruneTakesSubtree(w.f, w.d, c.n);
      SplitWithout(List(w), w.visited, k, c.n);
    } else {
      SplitAppend(List(w), w.visited, k, if c.Attach? then c.n else w.f.next);
      assert SplitAt(after, w.visited, k);
    }
  }

  // ---------------------------------------------------------------------------------------------
  // Whole walks

  ghost predicate IsRun(w: Walk, steps: seq<Step>)
    decreases |steps|
  {
    steps == [] ||
    (&& ValidForest(w.f) && w.visited != [] && Current(w) in w.f.nodes && Enabled(w, steps[0])
     && IsRun(Effect(w, steps[0]), steps[1..]))
  }

  ghost function After(w: Walk, steps: seq<Step>): Walk
    requires IsRun(w, steps)
    decreases |steps|
  {
    if steps == [] then w else After(Effect(w, steps[0]), steps[1..])
  }

  lemma {:induction false} RunKeepsInvariant(w: Walk, steps: seq<Step>)
    requires Invariant(w) && IsRun(w, steps)
    ensures Invariant(After(w, steps))
    decreases |steps|
  {
    if steps != [] {
      match steps[0]
      case Advance =>
        AdvanceKeepsInvariant(w);
        RunKeepsInvariant(Effect(w, steps[0]), steps[1..]);
      case Meanwhile(c) =>
        MeanwhileKeepsInvariant(w, c);
        RunKeepsInvariant(Effect(w, steps[0]), steps[1..]);
    }
  }

  /** The head of a readable directory begins a walk, and is missing only when no node has that directory for parent. */
  lemma HeadBeginsWalk(f: Forest, d: Id)
    requires ValidForest(f) && IsDirectory(f, d)
    ensures First(f, d).To? ==> Invariant(Walk(f, d, [First(f, d).id]))
    ensures First(f, d) == None <==> (f.nodes[d].access.read ==> forall n <- f.nodes :: f.nodes[n].parent != To(d))
  {
    if First(f, d).To? {
      var w := Walk(f, d, [First(f, d).id]);
      ListedHasParent(f, d, First(f, d).id);
      assert SplitAt(List(w), w.visited, 0);
    }
  }

  /**
   A walk from the head of a readable directory, with any changes in between that spare the current node: no node is
   visited twice, and when the walk ends every node of the list was visited, those present throughout among them.
   */
  lemma WalkVisitsEachOnce(f: Forest, d: Id, steps: seq<Step>)
    requires ValidForest(f) && IsDirectory(f, d) && First(f, d).To?
    requires IsRun(Walk(f, d, [First(f, d).id]), steps)
    ensures var w := After(Walk(f, d, [First(f, d).id]), steps);
            && ValidForest(w.f) && Distinct(w.visited) && w.visited != [] && Current(w) in w.f.nodes && w.d in w.f.nodes
            && (Following(w.f, Current(w)) == None ==> forall n <- List(w) :: n in w.visited)
  {
    var w := Walk(f, d, [First(f, d).id]);
    HeadBeginsWalk(f, d);
    RunKeepsInvariant(w, steps);
    CurrentIsListed(After(w, steps));
    AdvanceKeepsInvariant(After(w, steps));
  }
}
