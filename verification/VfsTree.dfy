/** The nodes of the virtual file system as a heap: a node pointer is an id, and an id is never used again. */
module VfsHeap {
  import opened DataNode

  type Id = nat

  datatype Link = None | To(id: Id)

  datatype Kind = Directory | Data | Other

  /** `attached` tells whether the node has the handle of the file system; `data` is what it was created with. */
  datatype Node = Node(kind: Kind, access: Access, data: string, parent: Link, attached: bool, children: seq<Id>)

  type Heap = map<Id, Node>

  predicate Distinct(s: seq<Id>) {
    forall i, j | 0 <= i < j < |s| :: s[i] != s[j]
  }

  /** Child lists and parent links agree, every node is in at most one list, and children rank above their parent. */
  predicate Linked(h: Heap, rank: map<Id, nat>) {
    && h.Keys <= rank.Keys
    && (forall d <- h :: Distinct(h[d].children) && (h[d].children != [] ==> h[d].kind == Directory))
    && (forall d <- h, i | 0 <= i < |h[d].children| :: IsChild(h, rank, d, h[d].children[i]))
    && (forall n <- h :: h[n].parent.To? ==> h[n].parent.id in h && n in h[h[n].parent.id].children)
  }

  predicate IsChild(h: Heap, rank: map<Id, nat>, d: Id, c: Id)
    requires h.Keys <= rank.Keys && d in h
  {
    c in h && h[c].parent == To(d) && h[c].attached && rank[c] > rank[d]
  }

  /** The tree invariant: linked, with a root directory; whatever else has no parent is detached and childless. */
  predicate Tree(h: Heap, rank: map<Id, nat>, root: Id) {
    && Linked(h, rank)
    && root in h && h[root].kind == Directory && h[root].parent == None && h[root].attached
    && (forall n <- h :: n != root && h[n].parent == None ==> !h[n].attached && h[n].children == [])
  }

  /** y is x or a descendant of it, by way of parent links. */
  predicate Under(h: Heap, rank: map<Id, nat>, x: Id, y: Id)
    decreases if y in rank then rank[y] else 0
  {
    y in h &&
    (y == x ||
     (h[y].parent.To? && y in rank && h[y].parent.id in rank && rank[h[y].parent.id] < rank[y]
      && Under(h, rank, x, h[y].parent.id)))
  }

  function Subtree(h: Heap, rank: map<Id, nat>, x: Id): set<Id> {
    set y | y in h && Under(h, rank, x, y)
  }

  /** `enter` and the push to the back of the list. */
  function Entered(h: Heap, d: Id, n: Id): Heap
    requires d in h && n in h
  {
    var k := h[n := h[n].(parent := To(d), attached := true)];
    k[d := k[d].(children := k[d].children + [n])]
  }

  // ---------------------------------------------------------------------------------------------
  // Taking a child away

  function Without(s: seq<Id>, n: Id): (r: seq<Id>)
    ensures n !in s ==> r == s
  {
    if s == [] then [] else if s[0] == n then s[1..] else [s[0]] + Without(s[1..], n)
  }

  lemma {:induction false} WithoutDistinct(s: seq<Id>, n: Id)
    requires Distinct(s)
    ensures Distinct(Without(s, n)) && forall m :: m in Without(s, n) <==> m in s && m != n
  {
    if s != [] {
      WithoutDistinct(s[1..], n);
      assert forall m :: m in s <==> m == s[0] || m in s[1..];
      assert s[0] !in s[1..];
    }
  }

  /** The child c out of the list of d, and left. */
  function Detached(h: Heap, d: Id, c: Id): Heap
    requires d in h && c in h
  {
    h[d := h[d].(children := Without(h[d].children, c))][c := h[c].(parent := None, attached := false)]
  }

  lemma DetachKeepsLinked(h: Heap, rank: map<Id, nat>, d: Id, c: Id)
    requires Linked(h, rank) && d in h && c in h[d].children
    ensures c in h && c != d
    ensures Linked(Detached(h, d, c), rank)
  {
    var k := Detached(h, d, c);
    assert IsChild(h, rank, d, c);
    WithoutDistinct(h[d].children, c);
    forall e <- k, i | 0 <= i < |k[e].children|
      ensures IsChild(k, rank, e, k[e].children[i])
    {
      DetachKeepsChild(h, rank, d, c, e, k[e].children[i]);
    }
    forall n <- k | k[n].parent.To?
      ensures k[n].parent.id in k && n in k[k[n].parent.id].children
    {
      assert n != c && n in h[h[n].parent.id].children;
    }
  }

  lemma DetachKeepsChild(h: Heap, rank: map<Id, nat>, d: Id, c: Id, e: Id, m: Id)
    requires Linked(h, rank) && d in h && c in h[d].children && c in h && c != d && e in h
    requires m in Detached(h, d, c)[e].children
    ensures IsChild(Detached(h, d, c), rank, e, m)
  {
    WithoutDistinct(h[d].children, c);
    var i :| 0 <= i < |h[e].children| && h[e].children[i] == m;
    assert IsChild(h, rank, e, h[e].children[i]) && IsChild(h, rank, d, c);
  }

  /** Taking a child away parts the subtree in two. */
  lemma {:induction false} DetachSplits(h: Heap, rank: map<Id, nat>, d: Id, c: Id, x: Id, y: Id)
    requires Linked(h, rank) && d in h && c in h[d].children && c in h && c != d && y in h
    requires x == d && h[x].parent == None
    ensures Under(h, rank, x, y) <==> Under(Detached(h, d, c), rank, x, y) || Under(Detached(h, d, c), rank, c, y)
    decreases rank[y]
  {
    assert IsChild(h, rank, d, c);
    if y != x && y != c && h[y].parent.To? {
      var p := h[y].parent.id;
      assert IsChild(h, rank, p, y);
      DetachSplits(h, rank, d, c, x, p);
    }
  }

  /** Dropping the subtree of a node without a parent leaves links and other subtrees alone. */
  lemma DropKeepsLinked(h: Heap, rank: map<Id, nat>, x: Id)
    requires Linked(h, rank) && x in h && h[x].parent == None
    ensures Linked(h - Subtree(h, rank, x), rank)
  {
    var k := h - Subtree(h, rank, x);
    forall d <- k, i | 0 <= i < |k[d].children|
      ensures IsChild(k, rank, d, k[d].children[i])
    {
      assert IsChild(h, rank, d, h[d].children[i]);
    }
    forall n <- k | k[n].parent.To?
      ensures k[n].parent.id in k
    {
      assert n in h[h[n].parent.id].children;
      var i :| 0 <= i < |h[h[n].parent.id].children| && h[h[n].parent.id].children[i] == n;
      assert IsChild(h, rank, h[n].parent.id, n);
    }
  }

  lemma {:induction false} DropKeepsUnder(h: Heap, rank: map<Id, nat>, c: Id, x: Id, y: Id)
    requires Linked(h, rank) && c in h && h[c].parent == None && y in h - Subtree(h, rank, c)
    ensures Under(h - Subtree(h, rank, c), rank, x, y) <==> Under(h, rank, x, y)
    decreases rank[y]
  {
    DropKeepsLinked(h, rank, c);
    if y != x && h[y].parent.To? {
      assert h[y].parent.id in h - Subtree(h, rank, c);
      ParentRanksBelow(h, rank, y);
      DropKeepsUnder(h, rank, c, x, h[y].parent.id);
    }
  }

  lemma ParentRanksBelow(h: Heap, rank: map<Id, nat>, y: Id)
    requires Linked(h, rank) && y in h && h[y].parent.To?
    ensures h[y].parent.id in h && rank[h[y].parent.id] < rank[y]
  {
    var p := h[y].parent.id;
    var i :| 0 <= i < |h[p].children| && h[p].children[i] == y;
    assert IsChild(h, rank, p, h[p].children[i]);
  }

  /** A node without children is alone in its subtree. */
  lemma {:induction false} ChildlessAlone(h: Heap, rank: map<Id, nat>, x: Id, y: Id)
    requires Linked(h, rank) && x in h && h[x].children == [] && y in h
    ensures Under(h, rank, x, y) <==> y == x
    decreases rank[y]
  {
    if y != x && h[y].parent.To? {
      ParentRanksBelow(h, rank, y);
      ChildlessAlone(h, rank, x, h[y].parent.id);
    }
  }

  // ---------------------------------------------------------------------------------------------
  // Deletion

  /** A log that lists each member of a set once. */
  ghost predicate Lists(log: seq<Id>, s: set<Id>) {
    Distinct(log) && forall n :: n in log <==> n in s
  }

  lemma ListsBoth(a: seq<Id>, s: set<Id>, b: seq<Id>, t: set<Id>)
    requires Lists(a, s) && Lists(b, t) && s !! t
    ensures Lists(a + b, s + t)
  {
    forall i, j | 0 <= i < j < |a + b|
      ensures (a + b)[i] != (a + b)[j]
    {
      if i < |a| <= j {
        assert a[i] in s && b[j - |a|] in t;
      }
    }
  }

  /** The nodes in the log are gone from h, the others are as they were or wait in the list of x. */
  ghost predicate Remaining(h: Heap, k: Heap, rank: map<Id, nat>, x: Id, log: seq<Id>) {
    && Linked(h, rank) && Linked(k, rank) && x in k && k[x].parent == None
    && k.Keys <= h.Keys && (forall y <- k :: y != x ==> k[y] == h[y])
    && Distinct(log) && (forall y <- h :: y in k <==> y !in log) && (forall y <- log :: y in h)
  }

  function Members(log: seq<Id>): set<Id> {
    set y | y in log
  }

  /** Of the subtree of x in h, the nodes in the log are gone, and what is left of it hangs below x. */
  ghost predicate Dying(h: Heap, k: Heap, rank: map<Id, nat>, x: Id, log: seq<Id>) {
    && Remaining(h, k, rank, x, log)
    && Subtree(h, rank, x) == Members(log) + Subtree(k, rank, x)
  }

  /** The subtrees of x and of its child once that is taken away. */
  lemma DetachParts(k: Heap, rank: map<Id, nat>, x: Id, c: Id)
    requires Linked(k, rank) && x in k && k[x].parent == None && c in k[x].children
    ensures c in k && c != x
    ensures Subtree(k, rank, x) == Subtree(Detached(k, x, c), rank, x) + Subtree(Detached(k, x, c), rank, c)
    ensures Linked(Detached(k, x, c), rank) && x !in Subtree(Detached(k, x, c), rank, c)
  {
    DetachKeepsLinked(k, rank, x, c);
    forall y <- k
      ensures Under(k, rank, x, y) <==> Under(Detached(k, x, c), rank, x, y) || Under(Detached(k, x, c), rank, c, y)
    {
      DetachSplits(k, rank, x, c, x, y);
    }
  }

  /** What is left of a subtree when another one is dropped. */
  lemma DropParts(k: Heap, rank: map<Id, nat>, x: Id, c: Id)
    requires Linked(k, rank) && c in k && k[c].parent == None
    ensures Subtree(k - Subtree(k, rank, c), rank, x) == Subtree(k, rank, x) - Subtree(k, rank, c)
  {
    var e := k - Subtree(k, rank, c);
    forall y <- e
      ensures Under(e, rank, x, y) <==> Under(k, rank, x, y)
    {
      DropKeepsUnder(k, rank, c, x, y);
    }
  }

  lemma DyingDetach(h: Heap, k: Heap, rank: map<Id, nat>, x: Id, c: Id, log: seq<Id>)
    requires Dying(h, k, rank, x, log) && c in k[x].children
    ensures c in k && c != x
    ensures var d := Detached(k, x, c);
            && Linked(d, rank) && x !in Subtree(d, rank, c) && x in Subtree(h, rank, x)
            && Subtree(d, rank, c) <= Subtree(h, rank, x)
  {
    DetachParts(k, rank, x, c);
  }

  lemma DyingDrop(h: Heap, k: Heap, rank: map<Id, nat>, x: Id, c: Id, log: seq<Id>, more: seq<Id>)
    requires Dying(h, k, rank, x, log) && c in k[x].children && c in k && c != x
    requires Lists(more, Subtree(Detached(k, x, c), rank, c))
    ensures var d := Detached(k, x, c); Dying(h, d - Subtree(d, rank, c), rank, x, log + more)
  {
    var d := Detached(k, x, c);
    RemainingDrop(h, k, rank, x, c, log, more);
    DetachParts(k, rank, x, c);
    DropParts(d, rank, x, c);
    MembersBoth(h, rank, x, log, more, Subtree(k, rank, x), Subtree(d, rank, x), Subtree(d, rank, c));
  }

  lemma MembersBoth(h: Heap, rank: map<Id, nat>, x: Id, log: seq<Id>, more: seq<Id>, all: set<Id>, left: set<Id>,
      gone: set<Id>)
    requires Lists(more, gone) && all == left + gone && Subtree(h, rank, x) == Members(log) + all
    ensures Subtree(h, rank, x) == Members(log + more) + (left - gone)
  {
  }

  lemma RemainingDrop(h: Heap, k: Heap, rank: map<Id, nat>, x: Id, c: Id, log: seq<Id>, more: seq<Id>)
    requires Remaining(h, k, rank, x, log) && c in k[x].children && c in k && c != x
    requires Lists(more, Subtree(Detached(k, x, c), rank, c))
    ensures var d := Detached(k, x, c); Remaining(h, d - Subtree(d, rank, c), rank, x, log + more)
  {
    DetachParts(k, rank, x, c);
    var d := Detached(k, x, c);
    DropKeepsLinked(d, rank, c);
    assert c in Subtree(d, rank, c);
    RemainingWithout(h, k, rank, x, c, log, more, Subtree(d, rank, c));
  }

  lemma RemainingWithout(h: Heap, k: Heap, rank: map<Id, nat>, x: Id, c: Id, log: seq<Id>, more: seq<Id>, gone: set<Id>)
    requires Remaining(h, k, rank, x, log) && c in k && c != x
    requires Lists(more, gone) && c in gone && x !in gone && gone <= k.Keys
    requires Linked(Detached(k, x, c) - gone, rank)
    ensures Remaining(h, Detached(k, x, c) - gone, rank, x, log + more)
  {
    ListsBoth(log, Members(log), more, gone);
  }

  lemma AloneInSubtree(k: Heap, rank: map<Id, nat>, x: Id)
    requires Linked(k, rank) && x in k && k[x].parent == None && k[x].children == []
    ensures Subtree(k, rank, x) == {x} && Linked(k - {x}, rank)
  {
    forall y <- k
      ensures Under(k, rank, x, y) <==> y == x
    {
      ChildlessAlone(k, rank, x, y);
    }
    assert Subtree(k, rank, x) == {x};
    DropKeepsLinked(k, rank, x);
  }

  lemma SameRemains(h: Heap, k: Heap, gone: set<Id>, x: Id)
    requires x in k && k.Keys <= h.Keys && (forall y <- k :: y != x ==> k[y] == h[y])
    requires forall y <- h :: y in gone <==> y !in k || y == x
    ensures k - {x} == h - gone
  {
  }

  lemma DyingEnds(h: Heap, k: Heap, rank: map<Id, nat>, x: Id, log: seq<Id>)
    requires Dying(h, k, rank, x, log) && k[x].children == []
    ensures k - {x} == h - Subtree(h, rank, x)
    ensures Lists(log + [x], Subtree(h, rank, x))
    ensures Linked(k - {x}, rank)
  {
    DyingDistinct(h, k, rank, x, log);
    AloneInSubtree(k, rank, x);
    SameRemains(h, k, Subtree(h, rank, x), x);
  }

  lemma DyingDistinct(h: Heap, k: Heap, rank: map<Id, nat>, x: Id, log: seq<Id>)
    requires Dying(h, k, rank, x, log)
    ensures Distinct(log + [x])
    ensures forall y <- h :: y in log + [x] <==> y !in k || y == x
  {
  }

  lemma DyingBegins(h: Heap, rank: map<Id, nat>, x: Id)
    requires Linked(h, rank) && x in h && h[x].parent == None
    ensures Dying(h, h, rank, x, [])
  {
  }

  /** The nodes of a file system. */
  class NodeHeap {
    var nodes: Heap
    var freed: seq<Id>

    constructor ()
      ensures nodes == map[] && freed == []
    {
      nodes, freed := map[], [];
    }

    /** `VfsNode::enter`, and the push of the node to the back of the list. */
    method EnterAndPush(d: Id, n: Id)
      requires d in nodes && n in nodes
      modifies this`nodes
      ensures nodes == Entered(old(nodes), d, n)
    {
      nodes := nodes[n := nodes[n].(parent := To(d), attached := true)];
      nodes := nodes[d := nodes[d].(children := nodes[d].children + [n])];
    }

    /** The node at this place goes out of the list and leaves. */
    method EraseAndLeave(d: Id, n: Id, i: nat)
      requires d in nodes && n in nodes && n != d && i < |nodes[d].children|
      requires nodes[d].children[..i] + nodes[d].children[i + 1..] == Without(nodes[d].children, n)
      modifies this`nodes
      ensures nodes == Detached(old(nodes), d, n)
    {
      nodes := nodes[d := nodes[d].(children := nodes[d].children[..i] + nodes[d].children[i + 1..])];
      Leave(n);
    }

    /** `VfsNode::leave`. */
    method Leave(n: Id)
      requires n in nodes
      modifies this`nodes
      ensures nodes == old(nodes)[n := old(nodes)[n].(parent := None, attached := false)]
    {
      nodes := nodes[n := nodes[n].(parent := None, attached := false)];
    }

    /**
     The destructor of a node that has left its directory, and the release of its memory: children are taken out of the
     list one by one, leave, and are deleted in turn. Exactly the subtree goes, each node once.
     */
    method Delete(x: Id, ghost rank: map<Id, nat>) returns (ghost log: seq<Id>)
      requires Linked(nodes, rank) && x in nodes && nodes[x].parent == None
      modifies this
      ensures nodes == old(nodes) - Subtree(old(nodes), rank, x)
      ensures freed == old(freed) + log && Lists(log, Subtree(old(nodes), rank, x))
      ensures Linked(nodes, rank)
      decreases Subtree(nodes, rank, x), 2
    {
      ghost var h := nodes;
      log := DeleteChildren(x, rank);
      DyingEnds(h, nodes, rank, x, log);
      nodes := nodes - {x};
      freed := freed + [x];
      log := log + [x];
    }

    /** The destructor's loop. */
    method DeleteChildren(x: Id, ghost rank: map<Id, nat>) returns (ghost log: seq<Id>)
      requires Linked(nodes, rank) && x in nodes && nodes[x].parent == None
      modifies this
      ensures Dying(old(nodes), nodes, rank, x, log) && nodes[x].children == []
      ensures freed == old(freed) + log
      decreases Subtree(nodes, rank, x), 1
    {
      log := [];
      ghost var h := nodes;
      DyingBegins(h, rank, x);
      while nodes[x].children != []
        invariant Dying(h, nodes, rank, x, log)
        invariant freed == old(freed) + log
        decreases |nodes[x].children|
      {
        ghost var more := DeleteFirst(x, h, rank, log);
        log := log + more;
      }
    }

    /** One turn of the destructor's loop. */
    method DeleteFirst(x: Id, ghost h: Heap, ghost rank: map<Id, nat>, ghost log: seq<Id>) returns (ghost more: seq<Id>)
      requires Dying(h, nodes, rank, x, log) && nodes[x].children != []
      modifies this
      ensures Dying(h, nodes, rank, x, log + more) && freed == old(freed) + more
      ensures nodes[x].children == old(nodes[x].children)[1..]
      decreases Subtree(h, rank, x), 0
    {
      var c := nodes[x].children[0];
      ghost var before := nodes;
      DyingDetach(h, before, rank, x, c, log);
      nodes := nodes[x := nodes[x].(children := nodes[x].children[1..])];
      Leave(c);
      assert nodes == Detached(before, x, c);
      more := Delete(c, rank);
      DyingDrop(h, before, rank, x, c, log, more);
    }
  }
}
