/** `VfsDirectory`: creation, attachment, removal and enumeration of nodes, and what they keep. */
module VfsDirectory {
  import opened Xcore
  import opened DataNode
  import opened VfsHeap

  const ACCESS_SIZE := 1
  const TIME_SIZE := 8
  const POINTER_SIZE := 4
  const DEFAULT_ACCESS := Access(true, true)

  // ---------------------------------------------------------------------------------------------
  // Changes of the tree

  /** The live nodes, a ranking of them, the root, and the next id to be handed out. */
  datatype Forest = Forest(nodes: Heap, rank: map<Id, nat>, root: Id, next: Id)

  predicate ValidForest(f: Forest) {
    Tree(f.nodes, f.rank, f.root) && forall n <- f.rank :: n < f.next
  }

  datatype Change =
    | Nothing
    | Allocate(kind: Kind, access: Access, data: string)
    | AllocateAndFree
    | Attach(d: Id, n: Id)
    | Insert(d: Id, kind: Kind, access: Access, data: string)
    | Prune(d: Id, n: Id)
    | SetAccess(n: Id, access: Access)

  /** A directory of the file system; its handle is needed to change it. */
  predicate IsDirectory(f: Forest, d: Id) {
    d in f.nodes && f.nodes[d].kind == Directory && f.nodes[d].attached
  }

  /** A node that belongs to no directory. */
  predicate IsDetached(f: Forest, n: Id) {
    n in f.nodes && n != f.root && f.nodes[n].parent == None
  }

  predicate Possible(f: Forest, c: Change) {
    match c
    case Attach(d, n) => IsDirectory(f, d) && IsDetached(f, n) && n != d
    case Insert(d, _, _, _) => IsDirectory(f, d)
    case Prune(d, n) => IsDirectory(f, d) && n in f.nodes[d].children
    case SetAccess(n, _) => n in f.nodes
    case _ => true
  }

  function Apply(f: Forest, c: Change): Forest
    requires ValidForest(f) && Possible(f, c)
  {
    match c
    case Nothing => f
    case Allocate(kind, access, data) =>
      f.(nodes := f.nodes[f.next := Node(kind, access, data, None, false, [])], rank := f.rank[f.next := 0],
         next := f.next + 1)
    case AllocateAndFree => f.(rank := f.rank[f.next := 0], next := f.next + 1)
    case Attach(d, n) => f.(nodes := Entered(f.nodes, d, n), rank := f.rank[n := f.rank[d] + 1])
    case Insert(d, kind, access, data) =>
      f.(nodes := Entered(f.nodes[f.next := Node(kind, access, data, None, false, [])], d, f.next),
         rank := f.rank[f.next := f.rank[d] + 1], next := f.next + 1)
    case Prune(d, n) =>
      PruneIsDefined(f, d, n);
      f.(nodes := Detached(f.nodes, d, n) - Subtree(Detached(f.nodes, d, n), f.rank, n))
    case SetAccess(n, access) => f.(nodes := f.nodes[n := f.nodes[n].(access := access)])
  }

  /** A node in a list has that directory for its parent. */
  lemma ListedHasParent(f: Forest, d: Id, n: Id)
    requires ValidForest(f) && d in f.nodes
    ensures n in f.nodes[d].children ==>
              n in f.nodes && f.nodes[n].parent == To(d) && f.nodes[n].attached && f.rank[n] > f.rank[d]
  {
    if n in f.nodes[d].children {
      var i :| 0 <= i < |f.nodes[d].children| && f.nodes[d].children[i] == n;
      assert IsChild(f.nodes, f.rank, d, f.nodes[d].children[i]);
    }
  }

  lemma PruneIsDefined(f: Forest, d: Id, n: Id)
    requires ValidForest(f) && Possible(f, Prune(d, n))
    ensures n in f.nodes && n != d
  {
    ListedHasParent(f, d, n);
  }

  /** The old nodes keep their place in the tree, and new ones belong to no directory. */
  predicate SamePlaces(f: Forest, g: Forest) {
    && g.nodes.Keys <= g.rank.Keys
    && (forall n <- f.nodes :: n in g.nodes && n in f.rank && SamePlace(f, g, n))
    && (forall n <- g.nodes :: n !in f.nodes ==> g.nodes[n].parent == None && g.nodes[n].children == [])
  }

  predicate SamePlace(f: Forest, g: Forest, n: Id)
    requires n in f.nodes && n in f.rank && n in g.nodes && n in g.rank
  {
    && g.nodes[n].kind == f.nodes[n].kind && g.nodes[n].parent == f.nodes[n].parent
    && g.nodes[n].attached == f.nodes[n].attached && g.nodes[n].children == f.nodes[n].children
    && g.rank[n] == f.rank[n]
  }

  lemma SamePlacesLinked(f: Forest, g: Forest)
    requires Linked(f.nodes, f.rank) && SamePlaces(f, g)
    ensures Linked(g.nodes, g.rank)
  {
    forall d <- g.nodes, i | 0 <= i < |g.nodes[d].children|
      ensures IsChild(g.nodes, g.rank, d, g.nodes[d].children[i])
    {
      assert SamePlace(f, g, d);
      assert IsChild(f.nodes, f.rank, d, f.nodes[d].children[i]);
      assert SamePlace(f, g, f.nodes[d].children[i]);
    }
    forall n <- g.nodes | g.nodes[n].parent.To?
      ensures g.nodes[n].parent.id in g.nodes && n in g.nodes[g.nodes[n].parent.id].children
    {
      assert SamePlace(f, g, n) && SamePlace(f, g, f.nodes[n].parent.id);
    }
  }

  lemma AllocateKeepsValid(f: Forest, kind: Kind, access: Access, data: string)
    requires ValidForest(f)
    ensures ValidForest(Apply(f, Allocate(kind, access, data)))
    ensures IsDetached(Apply(f, Allocate(kind, access, data)), f.next)
  {
    SamePlacesLinked(f, Apply(f, Allocate(kind, access, data)));
  }

  lemma AllocateAndFreeKeepsValid(f: Forest)
    requires ValidForest(f)
    ensures ValidForest(Apply(f, AllocateAndFree))
  {
    SamePlacesLinked(f, Apply(f, AllocateAndFree));
  }

  /** A detached node has no children, so it can take any rank. */
  lemma AttachKeepsValid(f: Forest, d: Id, n: Id)
    requires ValidForest(f) && Possible(f, Attach(d, n))
    ensures ValidForest(Apply(f, Attach(d, n)))
  {
    var g := Apply(f, Attach(d, n));
    ListedHasParent(f, d, n);
    forall e <- g.nodes, i | 0 <= i < |g.nodes[e].children|
      ensures IsChild(g.nodes, g.rank, e, g.nodes[e].children[i])
    {
      if e != d || i < |f.nodes[d].children| {
        assert IsChild(f.nodes, f.rank, e, f.nodes[e].children[i]);
      }
    }
    forall m <- g.nodes | g.nodes[m].parent.To?
      ensures g.nodes[m].parent.id in g.nodes && m in g.nodes[g.nodes[m].parent.id].children
    {
      if m == n {
        assert g.nodes[d].children[|f.nodes[d].children|] == n;
      } else {
        assert m in f.nodes[f.nodes[m].parent.id].children;
      }
    }
    assert Linked(g.nodes, g.rank);
  }

  /** Attaching a node leaves a tree, under any ranking, if and only if the node belonged to no directory. */
  lemma AttachKeepsTreeWhen(f: Forest, d: Id, n: Id)
    requires ValidForest(f) && IsDirectory(f, d) && n in f.nodes
    ensures (exists rank :: Tree(Entered(f.nodes, d, n), rank, f.root)) <==> IsDetached(f, n)
  {
    if IsDetached(f, n) {
      AttachKeepsValid(f, d, n);
      assert Tree(Entered(f.nodes, d, n), Apply(f, Attach(d, n)).rank, f.root);
    } else {
      forall rank: map<Id, nat>
        ensures !Tree(Entered(f.nodes, d, n), rank, f.root)
      {
        AttachedTwice(f, d, n, rank);
      }
    }
  }

  lemma AttachedTwice(f: Forest, d: Id, n: Id, rank: map<Id, nat>)
    requires ValidForest(f) && IsDirectory(f, d) && n in f.nodes && !IsDetached(f, n)
    ensures !Tree(Entered(f.nodes, d, n), rank, f.root)
  {
    var k := Entered(f.nodes, d, n);
    if f.nodes[n].parent.To? {
      var p := f.nodes[n].parent.id;
      ListedHasParent(f, p, n);
      var i :| 0 <= i < |f.nodes[p].children| && f.nodes[p].children[i] == n;
      assert k[p].children[i] == n;
      if p == d {
        assert k[d].children[|f.nodes[d].children|] == n && !Distinct(k[d].children);
      } else if k.Keys <= rank.Keys {
        assert !IsChild(k, rank, p, k[p].children[i]);
      }
    }
  }

  lemma InsertIsAllocateAndAttach(f: Forest, d: Id, kind: Kind, access: Access, data: string)
    requires ValidForest(f) && Possible(f, Insert(d, kind, access, data))
    ensures ValidForest(Apply(f, Allocate(kind, access, data)))
    ensures Possible(Apply(f, Allocate(kind, access, data)), Attach(d, f.next))
    ensures Apply(f, Insert(d, kind, access, data)) == Apply(Apply(f, Allocate(kind, access, data)), Attach(d, f.next))
  {
    AllocateKeepsValid(f, kind, access, data);
  }

  lemma PruneKeepsValid(f: Forest, d: Id, n: Id)
    requires ValidForest(f) && Possible(f, Prune(d, n))
    ensures ValidForest(Apply(f, Prune(d, n)))
  {
    PruneIsDefined(f, d, n);
    DetachKeepsLinked(f.nodes, f.rank, d, n);
    var k := Detached(f.nodes, d, n);
    DropKeepsLinked(k, f.rank, n);
    RootIsUnderNothing(k, f.rank, n, f.root);
  }

  lemma RootIsUnderNothing(h: Heap, rank: map<Id, nat>, x: Id, root: Id)
    requires root in h && h[root].parent == None && x != root
    ensures !Under(h, rank, x, root)
  {
  }

  lemma SetAccessKeepsValid(f: Forest, n: Id, access: Access)
    requires ValidForest(f) && n in f.nodes
    ensures ValidForest(Apply(f, SetAccess(n, access)))
  {
    SamePlacesLinked(f, Apply(f, SetAccess(n, access)));
  }

  /** Every change keeps the tree a tree. */
  lemma ChangeKeepsValid(f: Forest, c: Change)
    requires ValidForest(f) && Possible(f, c)
    ensures ValidForest(Apply(f, c))
  {
    match c
    case Nothing =>
    case Allocate(kind, access, data) => AllocateKeepsValid(f, kind, access, data);
    case AllocateAndFree => AllocateAndFreeKeepsValid(f);
    case Attach(d, n) => AttachKeepsValid(f, d, n);
    case Insert(d, kind, access, data) =>
      InsertIsAllocateAndAttach(f, d, kind, access, data);
      AttachKeepsValid(Apply(f, Allocate(kind, access, data)), d, f.next);
    case Prune(d, n) => PruneKeepsValid(f, d, n);
    case SetAccess(n, access) => SetAccessKeepsValid(f, n, access);
  }

  function ApplyAll(f: Forest, changes: seq<Change>): Forest
    requires ValidForest(f) && AllPossible(f, changes)
    decreases |changes|
  {
    if changes == [] then f
    else
      ChangeKeepsValid(f, changes[0]);
      ApplyAll(Apply(f, changes[0]), changes[1..])
  }

  predicate AllPossible(f: Forest, changes: seq<Change>)
    requires ValidForest(f)
    decreases |changes|
  {
    changes == [] ||
    (Possible(f, changes[0]) &&
     (ChangeKeepsValid(f, changes[0]);
      AllPossible(Apply(f, changes[0]), changes[1..])))
  }

  /** Over any run of changes the tree stays a tree. */
  lemma {:induction false} RunKeepsValid(f: Forest, changes: seq<Change>)
    requires ValidForest(f) && AllPossible(f, changes)
    ensures ValidForest(ApplyAll(f, changes))
    decreases |changes|
  {
    if changes != [] {
      ChangeKeepsValid(f, changes[0]);
      RunKeepsValid(Apply(f, changes[0]), changes[1..]);
    }
  }

  // ---------------------------------------------------------------------------------------------
  // What the invariant says of single nodes

  /** A node sits at this place of this directory's list. */
  predicate SitsAt(f: Forest, d: Id, i: nat, n: Id) {
    d in f.nodes && i < |f.nodes[d].children| && f.nodes[d].children[i] == n
  }

  /**
   Every attached node but the root sits at exactly one place of exactly one list, its parent and handle are those of
   that directory, and it is below the root. A detached node sits nowhere.
   */
  lemma OnePlace(f: Forest, n: Id) returns (d: Id, i: nat)
    requires ValidForest(f) && n in f.nodes && n != f.root
    ensures f.nodes[n].attached ==> SitsAt(f, d, i, n) && f.nodes[n].parent == To(d) && f.nodes[d].attached
    ensures f.nodes[n].attached ==> forall e, j: nat | SitsAt(f, e, j, n) :: e == d && j == i
    ensures f.nodes[n].attached <==> Under(f.nodes, f.rank, f.root, n)
    ensures !f.nodes[n].attached ==> forall e, j: nat :: !SitsAt(f, e, j, n)
  {
    d, i := 0, 0;
    forall e, j: nat | SitsAt(f, e, j, n)
      ensures f.nodes[n].parent == To(e) && f.nodes[n].attached
    {
      ListedHasParent(f, e, n);
    }
    if f.nodes[n].parent.To? {
      d := f.nodes[n].parent.id;
      ParentRanksBelow(f.nodes, f.rank, n);
      i :| 0 <= i < |f.nodes[d].children| && f.nodes[d].children[i] == n;
      BelowRoot(f, n);
    }
  }

  lemma {:induction false} BelowRoot(f: Forest, n: Id)
    requires ValidForest(f) && n in f.nodes && f.nodes[n].parent.To?
    ensures Under(f.nodes, f.rank, f.root, n) && f.nodes[n].attached && f.nodes[f.nodes[n].parent.id].attached
    decreases f.rank[n]
  {
    var p := f.nodes[n].parent.id;
    ParentRanksBelow(f.nodes, f.rank, n);
    ListedHasParent(f, p, n);
    if p != f.root {
      assert f.nodes[p].children != [];
      BelowRoot(f, p);
    }
  }

  // ---------------------------------------------------------------------------------------------
  // Removal takes exactly the subtree

  /** Detaching does not change who is under the node: the pruned nodes are its subtree in the old tree. */
  lemma {:induction false} PrunedIsSubtree(f: Forest, d: Id, n: Id, y: Id)
    requires ValidForest(f) && Possible(f, Prune(d, n)) && y in f.nodes
    ensures n in f.nodes && n != d
    ensures Under(Detached(f.nodes, d, n), f.rank, n, y) <==> Under(f.nodes, f.rank, n, y)
    decreases f.rank[y]
  {
    PruneIsDefined(f, d, n);
    if y != n && f.nodes[y].parent.To? {
      ParentRanksBelow(f.nodes, f.rank, y);
      PrunedIsSubtree(f, d, n, f.nodes[y].parent.id);
    }
  }

  lemma SubtreeOfPruned(f: Forest, d: Id, n: Id)
    requires ValidForest(f) && Possible(f, Prune(d, n))
    ensures n in f.nodes && n != d && d !in Subtree(f.nodes, f.rank, n)
    ensures Subtree(Detached(f.nodes, d, n), f.rank, n) == Subtree(f.nodes, f.rank, n)
  {
    ListedHasParent(f, d, n);
    forall y <- f.nodes
      ensures Under(Detached(f.nodes, d, n), f.rank, n, y) <==> Under(f.nodes, f.rank, n, y)
    {
      PrunedIsSubtree(f, d, n, y);
    }
    UnderRanks(f, n, d);
  }

  /** Once the node is out of the list and has left, deleting its subtree completes the removal. */
  lemma PruneInSteps(f: Forest, d: Id, n: Id)
    requires ValidForest(f) && Possible(f, Prune(d, n))
    ensures n in f.nodes && n != d
    ensures var k := Detached(f.nodes, d, n);
            && Linked(k, f.rank) && n in k && k[n].parent == None
            && Subtree(k, f.rank, n) == Subtree(f.nodes, f.rank, n)
            && Apply(f, Prune(d, n)) == f.(nodes := k - Subtree(k, f.rank, n))
    ensures ValidForest(Apply(f, Prune(d, n)))
  {
    SubtreeOfPruned(f, d, n);
    PruneKeepsValid(f, d, n);
    DetachKeepsLinked(f.nodes, f.rank, d, n);
  }

  /** A removal takes the node and its descendants, and of the rest changes only the list of the directory. */
  lemma PruneTakesSubtree(f: Forest, d: Id, n: Id)
    requires ValidForest(f) && Possible(f, Prune(d, n))
    ensures n in f.nodes && n != d
    ensures var g := Apply(f, Prune(d, n)).nodes;
            && g.Keys == f.nodes.Keys - Subtree(f.nodes, f.rank, n)
            && d in g && g[d] == f.nodes[d].(children := Without(f.nodes[d].children, n))
            && forall m <- g :: m != d ==> g[m] == f.nodes[m]
  {
    SubtreeOfPruned(f, d, n);
    assert n in Subtree(f.nodes, f.rank, n);
  }

  lemma {:induction false} UnderRanks(f: Forest, x: Id, y: Id)
    requires ValidForest(f) && x in f.nodes && y in f.nodes
    ensures Under(f.nodes, f.rank, x, y) ==> f.rank[x] <= f.rank[y]
    decreases f.rank[y]
  {
    if y != x && Under(f.nodes, f.rank, x, y) {
      UnderRanks(f, x, f.nodes[y].parent.id);
    }
  }

  // ---------------------------------------------------------------------------------------------
  // Descriptors

  /** A field descriptor with its declared length. */
  datatype Descriptor =
    | AccessField(length: nat, access: Access)
    | DataField(bytes: string)
    | NameField(length: nat, name: string)
    | TimeField(length: nat)
    | ObjectField(length: nat, node: Link)
    | OtherField

  /** What a list of descriptors asks for. */
  datatype Request = Request(access: Access, hasData: bool, data: string, hasName: bool, node: Link, create: bool)

  const EMPTY_REQUEST := Request(DEFAULT_ACCESS, false, "", false, None, false)

  predicate WellFormed(d: Descriptor) {
    match d
    case AccessField(length, _) => length == ACCESS_SIZE
    case NameField(length, name) => length == |name| + 1
    case TimeField(length) => length == TIME_SIZE
    case ObjectField(length, _) => length == POINTER_SIZE
    case _ => true
  }

  function Take(r: Request, d: Descriptor): Request {
    match d
    case AccessField(_, access) => r.(access := access, create := true)
    case DataField(bytes) => r.(hasData := true, data := bytes, create := true)
    case NameField(_, _) => r.(hasName := true, create := true)
    case TimeField(_) => r.(create := true)
    case ObjectField(_, node) => r.(node := node)
    case OtherField => r
  }

  function TakeAll(r: Request, descriptors: seq<Descriptor>): Request
    decreases |descriptors|
  {
    if descriptors == [] then r else TakeAll(Take(r, descriptors[0]), descriptors[1..])
  }

  /** The nodes offered for attachment are nodes. */
  predicate OffersNodes(f: Forest, descriptors: seq<Descriptor>) {
    forall i | 0 <= i < |descriptors| ::
      descriptors[i].ObjectField? && descriptors[i].node.To? ==> descriptors[i].node.id in f.nodes
  }

  lemma {:induction false} RequestedNodeWasOffered(f: Forest, r: Request, descriptors: seq<Descriptor>)
    requires OffersNodes(f, descriptors) && (r.node.To? ==> r.node.id in f.nodes)
    ensures TakeAll(r, descriptors).node.To? ==> TakeAll(r, descriptors).node.id in f.nodes
    decreases |descriptors|
  {
    if descriptors != [] {
      RequestedNodeWasOffered(f, Take(r, descriptors[0]), descriptors[1..]);
    }
  }

  /** Whether allocations succeed: the node itself, the copy of its data, its name. */
  datatype Memory = Memory(node: bool, data: bool, name: bool)

  datatype Created = Created(res: Result, change: Change)

  /** The outcome of `create`: a result and the one change it makes. */
  function Creation(f: Forest, d: Id, descriptors: seq<Descriptor>, memory: Memory): Created
    requires d in f.nodes
  {
    var node := f.nodes[d];
    if node.kind != Directory then Created(E_INVALID, Nothing)
    else if !node.access.write then Created(E_ACCESS, Nothing)
    else if exists i | 0 <= i < |descriptors| :: !WellFormed(descriptors[i]) then Created(E_VALUE, Nothing)
    else
      var r := TakeAll(EMPTY_REQUEST, descriptors);
      if r.create && r.node.To? then Created(E_INVALID, Nothing)
      else if r.node.To? then Created(E_OK, Attach(d, r.node.id))
      else if !r.hasName then Created(E_VALUE, Nothing)
      else if !memory.node then Created(E_MEMORY, Nothing)
      else
        var kind := if r.hasData then Data else Directory;
        // A data node whose contents cannot be copied is neither attached nor freed
        if r.hasData && r.data != "" && !memory.data then Created(E_MEMORY, Allocate(kind, r.access, ""))
        else if !memory.name then Created(E_MEMORY, AllocateAndFree)
        else Created(E_OK, Insert(d, kind, r.access, r.data))
  }

  /** The outcome of `remove`. */
  function Removal(f: Forest, d: Id, n: Id): Created
    requires d in f.nodes && n in f.nodes
  {
    if f.nodes[d].kind != Directory then Created(E_INVALID, Nothing)
    else if !f.nodes[d].access.write then Created(E_ACCESS, Nothing)
    else if !f.nodes[n].access.write then Created(E_ACCESS, Nothing)
    else if n in f.nodes[d].children then Created(E_OK, Prune(d, n))
    else Created(E_ENTRY, Nothing)
  }

  /** Whatever fails changes no list: every node that was there still is, as it was. */
  lemma FailureChangesNoList(f: Forest, d: Id, n: Id, descriptors: seq<Descriptor>, memory: Memory)
    requires ValidForest(f) && d in f.nodes && n in f.nodes && IsDirectory(f, d)
    ensures var o := Creation(f, d, descriptors, memory);
            o.res != E_OK ==> Possible(f, o.change) && forall m <- f.nodes ::
              m in Apply(f, o.change).nodes && Apply(f, o.change).nodes[m] == f.nodes[m]
    ensures var o := Removal(f, d, n);
            o.res != E_OK ==> Possible(f, o.change) && Apply(f, o.change) == f
  {
  }

  // What a list of descriptors asks for, told by the list itself

  datatype FieldKind = AccessKind | DataKind | NameKind | TimeKind | ObjectKind | OtherKind

  function KindOf(d: Descriptor): FieldKind {
    match d
    case AccessField(_, _) => AccessKind
    case DataField(_) => DataKind
    case NameField(_, _) => NameKind
    case TimeField(_) => TimeKind
    case ObjectField(_, _) => ObjectKind
    case OtherField => OtherKind
  }

  predicate Has(ds: seq<Descriptor>, k: FieldKind) {
    exists i :: 0 <= i < |ds| && KindOf(ds[i]) == k
  }

  /** The last descriptor of its kind. */
  predicate LastAt(ds: seq<Descriptor>, i: int, k: FieldKind) {
    0 <= i < |ds| && KindOf(ds[i]) == k && forall j | i < j < |ds| :: KindOf(ds[j]) != k
  }

  /** Some descriptor other than an object asks for a new node. */
  predicate AsksForNode(ds: seq<Descriptor>) {
    Has(ds, AccessKind) || Has(ds, DataKind) || Has(ds, NameKind) || Has(ds, TimeKind)
  }

  /** The access of the last such descriptor, or read and write. */
  ghost predicate AccessAsked(ds: seq<Descriptor>, access: Access) {
    if Has(ds, AccessKind) then exists i :: LastAt(ds, i, AccessKind) && ds[i].access == access
    else access == Access(true, true)
  }

  /** The bytes of the last data descriptor, or none. */
  ghost predicate DataAsked(ds: seq<Descriptor>, data: string) {
    if Has(ds, DataKind) then exists i :: LastAt(ds, i, DataKind) && ds[i].bytes == data else data == ""
  }

  /** The node of the last object descriptor, or none. */
  ghost predicate ObjectAsked(ds: seq<Descriptor>, node: Link) {
    if Has(ds, ObjectKind) then exists i :: LastAt(ds, i, ObjectKind) && ds[i].node == node else node == None
  }

  ghost predicate Asked(ds: seq<Descriptor>, r: Request) {
    && (r.hasName <==> Has(ds, NameKind)) && (r.hasData <==> Has(ds, DataKind)) && (r.create <==> AsksForNode(ds))
    && AccessAsked(ds, r.access) && DataAsked(ds, r.data) && ObjectAsked(ds, r.node)
  }

  lemma TakenLast(ds: seq<Descriptor>, last: Descriptor, k: FieldKind)
    ensures Has(ds + [last], k) <==> KindOf(last) == k || Has(ds, k)
    ensures KindOf(last) == k ==> LastAt(ds + [last], |ds|, k)
    ensures forall i | LastAt(ds, i, k) && KindOf(last) != k :: LastAt(ds + [last], i, k) && (ds + [last])[i] == ds[i]
  {
    var all := ds + [last];
    assert all[|ds|] == last;
    assert forall i | 0 <= i < |ds| :: all[i] == ds[i];
  }

  lemma {:induction false} TakeAllLast(r: Request, ds: seq<Descriptor>, last: Descriptor)
    ensures TakeAll(r, ds + [last]) == Take(TakeAll(r, ds), last)
    decreases |ds|
  {
    if ds == [] {
      assert ds + [last] == [last] && [last][1..] == [];
    } else {
      assert (ds + [last])[0] == ds[0] && (ds + [last])[1..] == ds[1..] + [last];
      TakeAllLast(Take(r, ds[0]), ds[1..], last);
    }
  }

  /** One more descriptor at the end. */
  lemma TakeOneMore(r: Request, ds: seq<Descriptor>, last: Descriptor)
    requires Asked(ds, r)
    ensures Asked(ds + [last], Take(r, last))
  {
    TakenLast(ds, last, NameKind);
    TakenLast(ds, last, TimeKind);
    TakenAccess(r, ds, last);
    TakenData(r, ds, last);
    TakenObject(r, ds, last);
  }

  lemma TakenAccess(r: Request, ds: seq<Descriptor>, last: Descriptor)
    requires AccessAsked(ds, r.access)
    ensures AccessAsked(ds + [last], Take(r, last).access)
    ensures Has(ds + [last], AccessKind) <==> last.AccessField? || Has(ds, AccessKind)
  {
    TakenLast(ds, last, AccessKind);
  }

  lemma TakenData(r: Request, ds: seq<Descriptor>, last: Descriptor)
    requires DataAsked(ds, r.data)
    ensures DataAsked(ds + [last], Take(r, last).data)
    ensures Has(ds + [last], DataKind) <==> last.DataField? || Has(ds, DataKind)
  {
    TakenLast(ds, last, DataKind);
  }

  lemma TakenObject(r: Request, ds: seq<Descriptor>, last: Descriptor)
    requires ObjectAsked(ds, r.node)
    ensures ObjectAsked(ds + [last], Take(r, last).node)
  {
    TakenLast(ds, last, ObjectKind);
  }

  lemma {:induction false} RequestIsAsked(ds: seq<Descriptor>)
    ensures Asked(ds, TakeAll(EMPTY_REQUEST, ds))
    decreases |ds|
  {
    if ds != [] {
      var n := |ds| - 1;
      RequestIsAsked(ds[..n]);
      assert ds == ds[..n] + [ds[n]];
      TakeAllLast(EMPTY_REQUEST, ds[..n], ds[n]);
      TakeOneMore(TakeAll(EMPTY_REQUEST, ds[..n]), ds[..n], ds[n]);
    }
  }

  /** The lengths that are asked of descriptors: one byte of permissions, eight of time, four of a pointer. */
  lemma WellFormedWhen(d: Descriptor)
    ensures d.AccessField? ==> (WellFormed(d) <==> d.length == 1)
    ensures d.NameField? ==> (WellFormed(d) <==> d.length == |d.name| + 1)
    ensures d.TimeField? ==> (WellFormed(d) <==> d.length == 8)
    ensures d.ObjectField? ==> (WellFormed(d) <==> d.length == 4)
    ensures d.DataField? || d.OtherField? ==> WellFormed(d)
  {
  }

  ghost predicate AllWellFormed(ds: seq<Descriptor>) {
    forall i | 0 <= i < |ds| :: WellFormed(ds[i])
  }

  /** The result and the change of `create`, in the order of its checks. */
  ghost predicate CreatedAs(f: Forest, d: Id, ds: seq<Descriptor>, memory: Memory, o: Created)
    requires d in f.nodes
  {
    if f.nodes[d].kind != Directory then o == Created(E_INVALID, Nothing)
    else if !f.nodes[d].access.write then o == Created(E_ACCESS, Nothing)
    else if !AllWellFormed(ds) then o == Created(E_VALUE, Nothing)
    else
      forall node, access, data | ObjectAsked(ds, node) && AccessAsked(ds, access) && DataAsked(ds, data) ::
        o == if node.To? && AsksForNode(ds) then Created(E_INVALID, Nothing)
             else if node.To? then Created(E_OK, Attach(d, node.id))
             else if !Has(ds, NameKind) then Created(E_VALUE, Nothing)
             else if !memory.node then Created(E_MEMORY, Nothing)
             else if data != "" && !memory.data then Created(E_MEMORY, Allocate(Data, access, ""))
             else if !memory.name then Created(E_MEMORY, AllocateAndFree)
             else Created(E_OK, Insert(d, if Has(ds, DataKind) then Data else Directory, access, data))
  }

  lemma LastIsOne(ds: seq<Descriptor>, i: int, j: int, k: FieldKind)
    requires LastAt(ds, i, k) && LastAt(ds, j, k)
    ensures i == j
  {
  }

  lemma ObjectIsOne(ds: seq<Descriptor>, a: Link, b: Link)
    requires ObjectAsked(ds, a) && ObjectAsked(ds, b)
    ensures a == b
  {
    if Has(ds, ObjectKind) {
      var i :| LastAt(ds, i, ObjectKind) && ds[i].node == a;
      var j :| LastAt(ds, j, ObjectKind) && ds[j].node == b;
      LastIsOne(ds, i, j, ObjectKind);
    }
  }

  lemma AccessIsOne(ds: seq<Descriptor>, a: Access, b: Access)
    requires AccessAsked(ds, a) && AccessAsked(ds, b)
    ensures a == b
  {
    if Has(ds, AccessKind) {
      var i :| LastAt(ds, i, AccessKind) && ds[i].access == a;
      var j :| LastAt(ds, j, AccessKind) && ds[j].access == b;
      LastIsOne(ds, i, j, AccessKind);
    }
  }

  lemma DataIsOne(ds: seq<Descriptor>, a: string, b: string)
    requires DataAsked(ds, a) && DataAsked(ds, b)
    ensures a == b
  {
    if Has(ds, DataKind) {
      var i :| LastAt(ds, i, DataKind) && ds[i].bytes == a;
      var j :| LastAt(ds, j, DataKind) && ds[j].bytes == b;
      LastIsOne(ds, i, j, DataKind);
    }
  }

  /** There is one answer to what a list asks for. */
  lemma AskedIsOne(ds: seq<Descriptor>, r: Request, node: Link, access: Access, data: string)
    requires Asked(ds, r) && ObjectAsked(ds, node) && AccessAsked(ds, access) && DataAsked(ds, data)
    ensures r.node == node && r.access == access && r.data == data
  {
    ObjectIsOne(ds, r.node, node);
    AccessIsOne(ds, r.access, access);
    DataIsOne(ds, r.data, data);
  }

  lemma CreationIs(f: Forest, d: Id, ds: seq<Descriptor>, memory: Memory)
    requires d in f.nodes
    ensures CreatedAs(f, d, ds, memory, Creation(f, d, ds, memory))
  {
    var r := TakeAll(EMPTY_REQUEST, ds);
    RequestIsAsked(ds);
    assert r.data != "" ==> r.hasData;
    forall node, access, data | ObjectAsked(ds, node) && AccessAsked(ds, access) && DataAsked(ds, data)
      ensures r.node == node && r.access == access && r.data == data
    {
      AskedIsOne(ds, r, node, access, data);
    }
  }

  /** A removal needs a writable directory and a writable node, and takes a node whose parent is that directory. */
  lemma RemovalIs(f: Forest, d: Id, n: Id)
    requires ValidForest(f) && d in f.nodes && n in f.nodes
    ensures Removal(f, d, n)
         == if f.nodes[d].kind != Directory then Created(E_INVALID, Nothing)
            else if !f.nodes[d].access.write || !f.nodes[n].access.write then Created(E_ACCESS, Nothing)
            else if f.nodes[n].parent == To(d) then Created(E_OK, Prune(d, n))
            else Created(E_ENTRY, Nothing)
  {
    ListedHasParent(f, d, n);
  }

  /** What the changes do to the node they are about. */
  lemma ChangedNode(f: Forest, c: Change)
    requires ValidForest(f) && Possible(f, c)
    ensures c.Attach? ==>
              Apply(f, c).nodes[c.n] == f.nodes[c.n].(parent := To(c.d), attached := true)
              && Apply(f, c).nodes[c.d].children == f.nodes[c.d].children + [c.n]
    ensures c.Insert? ==>
              && f.next !in f.nodes
              && f.next in Apply(f, c).nodes
              && Apply(f, c).nodes[f.next] == Node(c.kind, c.access, c.data, To(c.d), true, [])
              && Apply(f, c).nodes[c.d].children == f.nodes[c.d].children + [f.next]
    ensures c.SetAccess? ==> Apply(f, c).nodes == f.nodes[c.n := f.nodes[c.n].(access := c.access)]
    ensures c.Nothing? ==> Apply(f, c) == f
    ensures c.AllocateAndFree? ==> Apply(f, c).nodes == f.nodes
  {
  }

  /** From a place of a readable directory the next node is that of the next place; from other nodes there is none. */
  lemma FollowingIs(f: Forest, d: Id, i: nat, n: Id)
    requires ValidForest(f) && n in f.nodes
    ensures f.nodes[n].parent == None ==> Following(f, n) == None
    ensures SitsAt(f, d, i, n) && !f.nodes[d].access.read ==> Following(f, n) == None
    ensures SitsAt(f, d, i, n) && f.nodes[d].access.read ==>
              Following(f, n) == if i + 1 < |f.nodes[d].children| then To(f.nodes[d].children[i + 1]) else None
  {
    if SitsAt(f, d, i, n) {
      ListedHasParent(f, d, n);
      assert n !in f.nodes[d].children[..i];
      SuccessorAt(f.nodes[d].children, n, i);
    }
  }

  /**
   A failed `create` leaves a node behind, outside the tree, if and only if everything else was in order and the node
   was allocated, but the copy of its data was not.
   */
  lemma LeavesNodeBehindWhen(f: Forest, d: Id, ds: seq<Descriptor>, memory: Memory, data: string)
    requires ValidForest(f) && d in f.nodes && DataAsked(ds, data)
    ensures var o := Creation(f, d, ds, memory);
            o.res != E_OK && Apply(f, o.change).nodes != f.nodes <==>
              && f.nodes[d].kind == Directory && f.nodes[d].access.write && AllWellFormed(ds)
              && Has(ds, NameKind) && ObjectAsked(ds, None) && data != "" && memory.node && !memory.data
    ensures var o := Creation(f, d, ds, memory);
            o.res != E_OK && Apply(f, o.change).nodes != f.nodes ==> IsDetached(Apply(f, o.change), f.next)
  {
    var r := TakeAll(EMPTY_REQUEST, ds);
    RequestIsAsked(ds);
    AskedIsOne(ds, r, r.node, r.access, data);
    if ObjectAsked(ds, None) {
      AskedIsOne(ds, r, None, r.access, data);
    }
    assert r.data != "" ==> r.hasData;
    var c := Creation(f, d, ds, memory).change;
    if c.Allocate? {
      AllocateKeepsValid(f, c.kind, c.access, c.data);
      assert f.next !in f.nodes;
    }
  }

  /** After a successful creation the list of the directory has one more node, last, and no other list has changed. */
  lemma SuccessAppends(f: Forest, d: Id, descriptors: seq<Descriptor>, memory: Memory)
    requires ValidForest(f) && IsDirectory(f, d)
    requires Creation(f, d, descriptors, memory).res == E_OK && Possible(f, Creation(f, d, descriptors, memory).change)
    ensures var g, h := f.nodes, Apply(f, Creation(f, d, descriptors, memory).change).nodes;
            && (exists n :: n in h && n !in g[d].children && h[d].children == g[d].children + [n]
                            && h[n].parent == To(d) && h[n].attached && (n in g ==> IsDetached(f, n)))
            && forall m <- g :: m in h && (m != d ==> h[m].children == g[m].children)
  {
    var c := Creation(f, d, descriptors, memory).change;
    var n := if c.Attach? then c.n else f.next;
    ListedHasParent(f, d, n);
    var h := Apply(f, c).nodes;
    assert h[d].children == f.nodes[d].children + [n];
  }

  // ---------------------------------------------------------------------------------------------
  // The operations on the heap

  class FileSystem {
    const heap: NodeHeap
    const root: Id
    var next: Id
    ghost var rank: map<Id, nat>

    ghost function View(): Forest
      reads this, heap
    {
      Forest(heap.nodes, rank, root, next)
    }

    ghost predicate Valid()
      reads this, heap
    {
      ValidForest(View())
    }

    /** An empty root directory. */
    constructor ()
      ensures Valid() && fresh(heap) && heap.freed == []
      ensures heap.nodes == map[root := Node(Directory, DEFAULT_ACCESS, "", None, true, [])]
    {
      heap := new NodeHeap();
      root, next := 0, 1;
      rank := map[0 := 0];
      new;
      heap.nodes := map[0 := Node(Directory, DEFAULT_ACCESS, "", None, true, [])];
    }

    /** The change was made, and these nodes were freed, each once. */
    twostate predicate Did(c: Change, log: seq<Id>)
      reads this, heap
    {
      && old(Valid()) && old(Possible(View(), c)) && Valid()
      && View() == old(Apply(View(), c))
      && heap.freed == old(heap.freed) + log
    }

    /** A new node outside the tree. */
    method New(kind: Kind, access: Access, data: string) returns (n: Id)
      requires Valid()
      modifies this, heap
      ensures Did(Allocate(kind, access, data), []) && n == old(next)
    {
      AllocateKeepsValid(View(), kind, access, data);
      n := next;
      next := next + 1;
      rank := rank[n := 0];
      heap.nodes := heap.nodes[n := Node(kind, access, data, None, false, [])];
    }

    /** `enter`, and the push to the back of the list; of a node that sits in a directory already, as well. */
    method Enter(d: Id, n: Id)
      requires Valid() && IsDirectory(View(), d) && n in heap.nodes
      modifies this`rank, heap`nodes
      ensures heap.nodes == Entered(old(heap.nodes), d, n)
      ensures old(IsDetached(View(), n)) ==> Did(Attach(d, n), [])
    {
      ghost var f := View();
      heap.EnterAndPush(d, n);
      if IsDetached(f, n) {
        AttachKeepsValid(f, d, n);
        rank := Apply(f, Attach(d, n)).rank;
      }
    }

    /** The loop over the descriptors: the first one of a wrong length ends it. */
    method ReadDescriptors(descriptors: seq<Descriptor>) returns (valid: bool, r: Request)
      ensures valid <==> forall i | 0 <= i < |descriptors| :: WellFormed(descriptors[i])
      ensures valid ==> r == TakeAll(EMPTY_REQUEST, descriptors) && Asked(descriptors, r)
    {
      r := EMPTY_REQUEST;
      RequestIsAsked(descriptors);
      var index := 0;
      while index < |descriptors|
        invariant index <= |descriptors| && forall i | 0 <= i < index :: WellFormed(descriptors[i])
        invariant TakeAll(EMPTY_REQUEST, descriptors) == TakeAll(r, descriptors[index..])
      {
        var desc := descriptors[index];
        if !WellFormed(desc) {
          return false, r;
        }
        assert descriptors[index..][1..] == descriptors[index + 1..];
        r := Take(r, desc);
        index := index + 1;
      }
      valid := true;
    }

    method Create(d: Id, descriptors: seq<Descriptor>, memory: Memory) returns (res: Result, ghost log: seq<Id>)
      requires Valid() && d in heap.nodes && (heap.nodes[d].kind == Directory ==> heap.nodes[d].attached)
      requires OffersNodes(View(), descriptors)
      modifies this, heap
      ensures CreatedAs(old(View()), d, descriptors, memory, Creation(old(View()), d, descriptors, memory))
      ensures res == Creation(old(View()), d, descriptors, memory).res
      ensures var c := Creation(old(View()), d, descriptors, memory).change;
              && (c.Attach? ==> c.n in old(heap.nodes) && heap.nodes == Entered(old(heap.nodes), c.d, c.n))
              && (!c.Attach? || old(IsDetached(View(), c.n)) ==> Did(c, log))
              && Lists(log, if c.AllocateAndFree? then {old(next)} else {})
    {
      log := [];
      CreationIs(View(), d, descriptors, memory);
      if heap.nodes[d].kind != Directory {
        return E_INVALID, log;
      }
      if !heap.nodes[d].access.write {
        return E_ACCESS, log;
      }
      var valid, r := ReadDescriptors(descriptors);
      if !valid {
        return E_VALUE, log;
      }
      if r.create && r.node.To? {
        return E_INVALID, log;
      }
      RequestedNodeWasOffered(View(), EMPTY_REQUEST, descriptors);
      if r.node.To? {
        Enter(d, r.node.id);
        return E_OK, log;
      }
      if !r.hasName {
        return E_VALUE, log;
      }
      if !memory.node {
        return E_MEMORY, log;
      }
      res, log := CreateNode(d, r, memory);
    }

    /** The end of `create`: a directory, or a data node with its contents, and its name. */
    method CreateNode(d: Id, r: Request, memory: Memory) returns (res: Result, ghost log: seq<Id>)
      requires Valid() && IsDirectory(View(), d)
      modifies this, heap
      ensures var kind := if r.hasData then Data else Directory;
              if r.hasData && r.data != "" && !memory.data then
                res == E_MEMORY && log == [] && Did(Allocate(kind, r.access, ""), log)
              else if !memory.name then
                res == E_MEMORY && Lists(log, {old(next)}) && Did(AllocateAndFree, log)
              else res == E_OK && log == [] && Did(Insert(d, kind, r.access, r.data), log)
    {
      ghost var before := View();
      var kind := if r.hasData then Data else Directory;
      InsertIsAllocateAndAttach(before, d, kind, r.access, r.data);
      log := [];
      if r.hasData && r.data != "" && !memory.data {
        var stray := New(kind, r.access, "");
        return E_MEMORY, log;
      }
      var n := New(kind, r.access, r.data);
      if !memory.name {
        log := Discard(n, before);
        return E_MEMORY, log;
      }
      Enter(d, n);
      res := E_OK;
    }

    /** Deletes a new node whose name could not be stored. */
    method Discard(n: Id, ghost before: Forest) returns (ghost log: seq<Id>)
      requires Valid() && ValidForest(before) && n == before.next && n !in before.nodes && n in heap.nodes
      requires heap.nodes == before.nodes[n := heap.nodes[n]] && IsDetached(View(), n)
      requires View() == Apply(before, AllocateAndFree).(nodes := heap.nodes)
      modifies heap
      ensures Valid() && View() == Apply(before, AllocateAndFree)
      ensures heap.freed == old(heap.freed) + log && Lists(log, {n})
    {
      AloneInSubtree(heap.nodes, rank, n);
      AllocateAndFreeKeepsValid(before);
      log := heap.Delete(n, rank);
      assert heap.nodes == before.nodes;
    }

    /** `std::find` on a list. */
    method Find(list: seq<Id>, n: Id) returns (i: nat)
      ensures i <= |list| && n !in list[..i] && (i < |list| ==> list[i] == n)
    {
      i := 0;
      while i < |list| && list[i] != n
        invariant i <= |list| && n !in list[..i]
      {
        i := i + 1;
      }
    }

    method Remove(d: Id, n: Id) returns (res: Result, ghost log: seq<Id>)
      requires Valid() && d in heap.nodes && n in heap.nodes
      requires heap.nodes[d].kind == Directory ==> heap.nodes[d].attached
      modifies this, heap
      ensures res == Removal(old(View()), d, n).res
      ensures Did(Removal(old(View()), d, n).change, log)
      ensures Lists(log, if res == E_OK then Subtree(old(heap.nodes), old(rank), n) else {})
    {
      log := [];
      if heap.nodes[d].kind != Directory {
        return E_INVALID, log;
      }
      if !heap.nodes[d].access.write {
        return E_ACCESS, log;
      }
      if !heap.nodes[n].access.write {
        return E_ACCESS, log;
      }
      var i := Find(heap.nodes[d].children, n);
      if i == |heap.nodes[d].children| {
        return E_ENTRY, log;
      }
      log := Erase(d, n, i);
      res := E_OK;
    }

    /** The end of `remove`: the node at this place goes out of the list, leaves and is deleted. */
    method Erase(d: Id, n: Id, i: nat) returns (ghost log: seq<Id>)
      requires Valid() && IsDirectory(View(), d)
      requires i < |heap.nodes[d].children| && heap.nodes[d].children[i] == n && n !in heap.nodes[d].children[..i]
      modifies heap
      ensures Did(Prune(d, n), log) && Lists(log, Subtree(old(heap.nodes), rank, n))
    {
      PruneInSteps(View(), d, n);
      EraseIsWithout(heap.nodes[d].children, i);
      heap.EraseAndLeave(d, n, i);
      log := heap.Delete(n, rank);
    }

    /** `VfsNode::write` of the access field. */
    method WriteAccess(n: Id, position: nat, length: nat, access: Access) returns (res: Result)
      requires Valid() && n in heap.nodes
      modifies heap
      ensures res == if position != 0 || length != ACCESS_SIZE then E_VALUE else E_OK
      ensures Did(if res == E_OK then SetAccess(n, access) else Nothing, [])
    {
      if position != 0 || length != ACCESS_SIZE {
        return E_VALUE;
      }
      SetAccessKeepsValid(View(), n, access);
      heap.nodes := heap.nodes[n := heap.nodes[n].(access := access)];
      res := E_OK;
    }

    /** The first node of a readable directory. */
    method Head(d: Id) returns (n: Link)
      requires Valid() && d in heap.nodes
      ensures n == First(View(), d)
    {
      if heap.nodes[d].access.read {
        if heap.nodes[d].children != [] {
          return To(heap.nodes[d].children[0]);
        }
      }
      return None;
    }

    /** `VfsDirectory::fetch`: the node after the current one. */
    method Fetch(d: Id, current: Id) returns (n: Link)
      requires Valid() && d in heap.nodes
      ensures n == if heap.nodes[d].access.read then Successor(heap.nodes[d].children, current) else None
    {
      if heap.nodes[d].access.read {
        var list := heap.nodes[d].children;
        var i := Find(list, current);
        SuccessorAt(list, current, i);
        if i < |list| && i + 1 < |list| {
          return To(list[i + 1]);
        }
      }
      return None;
    }

    /** `VfsNode::next`. */
    method Next(n: Id) returns (m: Link)
      requires Valid() && n in heap.nodes
      ensures m == Following(View(), n)
    {
      if heap.nodes[n].parent.To? {
        ParentRanksBelow(heap.nodes, rank, n);
        m := Fetch(heap.nodes[n].parent.id, n);
      } else {
        m := None;
      }
    }
  }

  /** `VfsNodeProxy`: a cursor on a node. */
  class NodeProxy {
    var node: Id

    constructor (node: Id)
      ensures this.node == node
    {
      this.node := node;
    }

    /** Moves on to the following node, or reports that there is none. */
    method Next(fs: FileSystem) returns (res: Result)
      requires fs.Valid() && node in fs.heap.nodes
      modifies this
      ensures var following := Following(fs.View(), old(node));
              if following.To? then res == E_OK && node == following.id else res == E_ENTRY && node == old(node)
    {
      var next := fs.Next(node);
      match next
      case To(n) =>
        node := n;
        res := E_OK;
      case None =>
        res := E_ENTRY;
    }
  }

  function First(f: Forest, d: Id): Link
    requires d in f.nodes
  {
    if f.nodes[d].access.read && f.nodes[d].children != [] then To(f.nodes[d].children[0]) else None
  }

  function Successor(list: seq<Id>, current: Id): Link {
    if |list| < 2 then None
    else if list[0] == current then To(list[1])
    else Successor(list[1..], current)
  }

  /** The node that follows in the list of the parent, if that is readable. */
  function Following(f: Forest, n: Id): Link
    requires n in f.nodes
  {
    var p := f.nodes[n].parent;
    if p.To? && p.id in f.nodes && f.nodes[p.id].access.read then Successor(f.nodes[p.id].children, n) else None
  }

  lemma {:induction false} SuccessorAt(list: seq<Id>, current: Id, i: nat)
    requires i <= |list| && current !in list[..i] && (i < |list| ==> list[i] == current)
    ensures Successor(list, current) == if i + 1 < |list| then To(list[i + 1]) else None
    decreases |list|
  {
    if |list| >= 2 && i > 0 {
      assert list[0] == list[..i][0];
      assert list[1..][..i - 1] == list[..i][1..];
      SuccessorAt(list[1..], current, i - 1);
    }
  }

  lemma {:induction false} EraseIsWithout(s: seq<Id>, i: nat)
    requires i < |s| && s[i] !in s[..i]
    ensures s[..i] + s[i + 1..] == Without(s, s[i])
    decreases |s|
  {
    if i > 0 {
      assert s[0] == s[..i][0];
      assert s[1..][..i - 1] == s[..i][1..];
      EraseIsWithout(s[1..], i - 1);
      assert s[..i] + s[i + 1..] == [s[0]] + (s[1..][..i - 1] + s[1..][i..]);
    }
  }
}
