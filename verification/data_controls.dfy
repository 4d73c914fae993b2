/**
 * The scoped lock queue behind the `ATOMIC_OPERATION` control of
 * packages/data-controls/src/index.js.
 *
 * Callers submit a descriptor `{exclusive, scope, handler}`. The control puts a
 * request at the front of the module-level `enqueued` array and runs the queue:
 * the queue is scanned from its last (oldest) entry to its first, every request
 * is judged against a lazily built tree of scopes, and the requests that may
 * run are spliced out of the queue, recorded as operations of their scope's
 * node and started. When a handler settles, its operation is spliced out of its
 * node and the queue runs again.
 *
 * The tree `inProgress = {operations, nestedScopes}` is modelled as a map from
 * the path of a node (its sequence of scope segments from the root) to the
 * node's own `operations` and the names of its children in insertion order.
 */
module DataControls {

  /** A segment of a scope: the key of a child in `nestedScopes`. */
  type Segment = string

  /** The path from the root of the tree to a node. The root is `[]`. */
  type Path = seq<Segment>

  /** The unit of work a caller hands over; only its identity matters to the queue. */
  type Handler = nat

  /** The action object built by `atomicOperation`. */
  datatype Descriptor = Descriptor(kind: string, exclusive: bool, scope: seq<Segment>, handler: Handler)

  /**
   * A queued or running request. `id` stands for the identity of the JavaScript
   * object that the control puts in the queue and later in a node's
   * `operations` (`indexOf` compares objects by identity).
   */
  datatype Operation = Operation(id: nat, exclusive: bool, scope: seq<Segment>, handler: Handler)

  /** A node of the `inProgress` tree. */
  datatype Node = Node(operations: seq<Operation>, nestedScopes: seq<Segment>)

  type Tree = map<Path, Node>

  const ATOMIC_OPERATION: string := "ATOMIC_OPERATION"

  /** The key JavaScript uses for `nestedScopes[undefined]`. */
  const UNDEFINED_KEY: string := "undefined"

  // ---------------------------------------------------------------------------
  // Descriptor and conflict rule
  // ---------------------------------------------------------------------------

  /** `atomicOperation( exclusive, scope, handler )`: the descriptor carries its arguments unchanged. */
  function AtomicOperation(exclusive: bool, scope: seq<Segment>, handler: Handler): (d: Descriptor)
    ensures d.kind == ATOMIC_OPERATION
    ensures d.exclusive == exclusive && d.scope == scope && d.handler == handler
  {
    Descriptor(ATOMIC_OPERATION, exclusive, scope, handler)
  }

  /** `operations.filter( ( op ) => op.exclusive ).length` */
  function CountExclusive(operations: seq<Operation>): (n: nat)
    ensures n <= |operations|
    ensures n > 0 <==> exists k :: 0 <= k < |operations| && operations[k].exclusive
  {
    if operations == [] then 0
    else (if operations[0].exclusive then 1 else 0) + CountExclusive(operations[1..])
  }

  /**
   * `hasConflictingLock`: an exclusive request conflicts with any operation of
   * the node, a shared request only with an exclusive one.
   */
  function HasConflictingLock(exclusive: bool, operations: seq<Operation>): (conflict: bool)
    ensures exclusive ==> (conflict <==> operations != [])
    ensures !exclusive ==> (conflict <==> exists k :: 0 <= k < |operations| && operations[k].exclusive)
  {
    if exclusive && |operations| > 0 then true
    else if !exclusive && CountExclusive(operations) > 0 then true
    else false
  }

  /** Shared requests never conflict with a node that holds only shared operations. */
  lemma SharedCompatible(operations: seq<Operation>)
    requires forall k :: 0 <= k < |operations| ==> !operations[k].exclusive
    ensures !HasConflictingLock(false, operations)
    ensures operations != [] ==> HasConflictingLock(true, operations)
  {
  }

  // ---------------------------------------------------------------------------
  // Paths and the shape of the tree
  // ---------------------------------------------------------------------------

  /**
   * The path of the node a scope targets. The walk shifts one segment per step
   * and always takes at least one step, so the empty scope reaches the child
   * stored under `nestedScopes[undefined]`, whose key is "undefined".
   */
  function Target(scope: seq<Segment>): (t: Path)
    ensures |t| > 0
    ensures scope != [] ==> t == scope
    ensures scope == [] ==> t == [UNDEFINED_KEY]
  {
    if scope == [] then [UNDEFINED_KEY] else scope
  }

  predicate IsPrefix(p: Path, q: Path) {
    |p| <= |q| && q[..|p|] == p
  }

  predicate Distinct(s: seq<Segment>) {
    forall i, j :: 0 <= i < j < |s| ==> s[i] != s[j]
  }

  /**
   * The map describes a tree: the root exists, a node exists exactly when its
   * parent exists and lists it among its children, and no child is listed twice.
   */
  ghost predicate WellFormedTree(tree: Tree) {
    && [] in tree
    && (forall p, s {:trigger IsChild(tree, p, s)} :: IsChild(tree, p, s) ==> p in tree && s in tree[p].nestedScopes)
    && (forall p, s {:trigger Lists(tree, p, s)} :: Lists(tree, p, s) ==> p + [s] in tree)
    && (forall p :: p in tree ==> Distinct(tree[p].nestedScopes))
  }

  /** `p + [s]` is a node; named so that the fact about its parent is drawn only on request. */
  predicate IsChild(tree: Tree, p: Path, s: Segment) {
    p + [s] in tree
  }

  /** `s` is listed among the children of node `p`. */
  predicate Lists(tree: Tree, p: Path, s: Segment) {
    p in tree && s in tree[p].nestedScopes
  }

  /** A child listed by a node is a node. */
  lemma ChildOf(tree: Tree, p: Path, s: Segment)
    requires WellFormedTree(tree) && p in tree && s in tree[p].nestedScopes
    ensures p + [s] in tree
  {
    assert Lists(tree, p, s);
  }

  /** The parent of a node is a node that lists it among its children. */
  lemma ParentOf(tree: Tree, p: Path, s: Segment)
    requires WellFormedTree(tree) && p + [s] in tree
    ensures p in tree && s in tree[p].nestedScopes
  {
    assert IsChild(tree, p, s);
  }

  /** Every prefix of a node is a node. */
  lemma {:induction false} PrefixInTree(tree: Tree, q: Path, m: nat)
    requires WellFormedTree(tree) && q in tree && m <= |q|
    ensures q[..m] in tree
    decreases |q| - m
  {
    if m < |q| {
      PrefixInTree(tree, q, m + 1);
      assert q[..m + 1] == q[..m] + [q[m]];
      ParentOf(tree, q[..m], q[m]);
    } else {
      assert q[..m] == q;
    }
  }

  /** The operations held at a path; a node that does not exist yet holds none. */
  function OpsAt(tree: Tree, p: Path): seq<Operation> {
    if p in tree then tree[p].operations else []
  }

  /** Two trees hold the same operations at every path (they may differ in empty nodes). */
  ghost predicate SameLocks(t1: Tree, t2: Tree) {
    forall p :: OpsAt(t1, p) == OpsAt(t2, p)
  }

  /**
   * Creating the missing child `branch` under `leaf`, as the walk does with
   * `leaf.nestedScopes[ branchName ] = { operations: [], nestedScopes: {} }`.
   */
  function AddChild(tree: Tree, leaf: Path, branch: Segment): (r: Tree)
    requires WellFormedTree(tree) && leaf in tree && branch !in tree[leaf].nestedScopes
    ensures WellFormedTree(r)
    ensures leaf + [branch] !in tree
    ensures r.Keys == tree.Keys + {leaf + [branch]}
    ensures r[leaf + [branch]].operations == []
    ensures forall p :: p in tree ==> r[p].operations == tree[p].operations
    ensures branch in r[leaf].nestedScopes
  {
    var r := tree[leaf := tree[leaf].(nestedScopes := tree[leaf].nestedScopes + [branch])][leaf + [branch] := Node([], [])];
    AddChildKeepsShape(tree, leaf, branch, r);
    r
  }

  lemma AddChildKeepsShape(tree: Tree, leaf: Path, branch: Segment, r: Tree)
    requires WellFormedTree(tree) && leaf in tree && branch !in tree[leaf].nestedScopes
    requires r == tree[leaf := tree[leaf].(nestedScopes := tree[leaf].nestedScopes + [branch])][leaf + [branch] := Node([], [])]
    ensures leaf + [branch] !in tree
    ensures WellFormedTree(r)
  {
    var c := leaf + [branch];
    assert c !in tree by {
      if c in tree {
        ParentOf(tree, leaf, branch);
      }
    }
    assert r.Keys == tree.Keys + {c};
    assert r[c] == Node([], []);
    assert r[leaf].nestedScopes == tree[leaf].nestedScopes + [branch];
    assert forall p :: p in tree && p != leaf ==> r[p] == tree[p];
    AddedChildShape(tree, leaf, branch, r);
  }

  lemma AddedChildShape(tree: Tree, leaf: Path, branch: Segment, r: Tree)
    requires WellFormedTree(tree) && leaf in tree && branch !in tree[leaf].nestedScopes
    requires r.Keys == tree.Keys + {leaf + [branch]}
    requires r[leaf + [branch]] == Node([], [])
    requires r[leaf].nestedScopes == tree[leaf].nestedScopes + [branch]
    requires forall p :: p in tree && p != leaf ==> r[p] == tree[p]
    ensures leaf + [branch] !in tree
    ensures WellFormedTree(r)
  {
    var c := leaf + [branch];
    assert c !in tree by {
      if c in tree {
        ParentOf(tree, leaf, branch);
      }
    }
    forall p, s | IsChild(r, p, s)
      ensures p in r && s in r[p].nestedScopes
    {
      if p + [s] == c {
        assert |p| == |leaf|;
        assert p == (p + [s])[..|p|] == c[..|leaf|] == leaf;
        assert s == (p + [s])[|p|] == c[|leaf|] == branch;
      } else {
        ParentOf(tree, p, s);
      }
    }
    forall p, s | Lists(r, p, s)
      ensures p + [s] in r
    {
      if p != c && p != leaf {
        assert r[p] == tree[p];
        ChildOf(tree, p, s);
      } else if p == leaf && s != branch {
        ChildOf(tree, p, s);
      }
    }
    forall p | p in r
      ensures Distinct(r[p].nestedScopes)
    {
      if p == leaf {
        var names := tree[leaf].nestedScopes;
        assert Distinct(names);
        forall i, j | 0 <= i < j < |names| + 1
          ensures r[p].nestedScopes[i] != r[p].nestedScopes[j]
        {
          if j == |names| {
            assert r[p].nestedScopes[j] == branch;
            assert r[p].nestedScopes[i] == names[i];
          }
        }
      } else if p != c {
        assert r[p] == tree[p];
      }
    }
  }

  // ---------------------------------------------------------------------------
  // What one pass of the queue decides, as functions of the tree at its start
  // ---------------------------------------------------------------------------

  /**
   * How far the walk from the root towards `t` gets, starting at depth `j`: the
   * depth of the first node on the way (root included, target excluded) that
   * conflicts, or `|t|` when none does.
   */
  function WalkDepth(tree: Tree, exclusive: bool, t: Path, j: nat): (k: nat)
    requires j <= |t|
    decreases |t| - j
    ensures j <= k <= |t|
    ensures forall m :: j <= m < k ==> !HasConflictingLock(exclusive, OpsAt(tree, t[..m]))
    ensures k < |t| ==> HasConflictingLock(exclusive, OpsAt(tree, t[..k]))
  {
    if j == |t| then |t|
    else if HasConflictingLock(exclusive, OpsAt(tree, t[..j])) then j
    else WalkDepth(tree, exclusive, t, j + 1)
  }

  /** The walk gets to the target exactly when no node above it conflicts. */
  lemma WalkReachesAll(tree: Tree, exclusive: bool, t: Path)
    ensures WalkDepth(tree, exclusive, t, 0) == |t| <==> AncestorsFree(tree, exclusive, t)
  {
  }

  /** No node from the root down to, but excluding, `t` conflicts. */
  predicate AncestorsFree(tree: Tree, exclusive: bool, t: Path) {
    forall j :: 0 <= j < |t| ==> !HasConflictingLock(exclusive, OpsAt(tree, t[..j]))
  }

  /** No node of the subtree rooted at `t` (`t` included) conflicts. */
  predicate SubtreeFree(tree: Tree, exclusive: bool, t: Path) {
    forall p :: p in tree && IsPrefix(t, p) ==> !HasConflictingLock(exclusive, tree[p].operations)
  }

  /** The request may run: its whole ancestor chain and its whole subtree are free. */
  predicate Runnable(tree: Tree, operation: Operation) {
    var t := Target(operation.scope);
    AncestorsFree(tree, operation.exclusive, t) && SubtreeFree(tree, operation.exclusive, t)
  }

  /** The paths `t[..1]`, ..., `t[..k]`. */
  function Prefixes(t: Path, k: nat): set<Path>
    requires k <= |t|
  {
    if k == 0 then {} else Prefixes(t, k - 1) + {t[..k]}
  }

  /** One step of the walk: the child `branch` of `leaf` exists afterwards. */
  function EnsureChild(tree: Tree, leaf: Path, branch: Segment): (r: Tree)
    requires WellFormedTree(tree) && leaf in tree
    ensures WellFormedTree(r)
    ensures r.Keys == tree.Keys + {leaf + [branch]}
    ensures forall p :: p in r ==> r[p].operations == OpsAt(tree, p)
  {
    if branch in tree[leaf].nestedScopes then
      ChildOf(tree, leaf, branch);
      tree
    else
      AddChild(tree, leaf, branch)
  }

  /** The tree once the walk towards `t` has passed its first `k` levels. */
  function Extend(tree: Tree, t: Path, k: nat): (r: Tree)
    requires WellFormedTree(tree) && k <= |t|
    ensures WellFormedTree(r)
    ensures r.Keys == tree.Keys + Prefixes(t, k)
    ensures forall p :: p in r ==> r[p].operations == OpsAt(tree, p)
    ensures t[..k] in r
  {
    if k == 0 then tree
    else
      var r0 := Extend(tree, t, k - 1);
      assert t[..k] == t[..k - 1] + [t[k - 1]];
      EnsureChild(r0, t[..k - 1], t[k - 1])
  }

  /**
   * The walk itself, from depth `j`: the tree it leaves behind and whether it
   * got to the target. It only ever adds empty nodes.
   */
  function Walk(tree: Tree, exclusive: bool, t: Path, j: nat): (r: (Tree, bool))
    requires WellFormedTree(tree) && j <= |t| && t[..j] in tree
    ensures WellFormedTree(r.0) && tree.Keys <= r.0.Keys
    ensures forall p :: p in r.0 ==> r.0[p].operations == OpsAt(tree, p)
    ensures r.1 ==> t[..|t|] in r.0
    decreases |t| - j
  {
    if j == |t| then (tree, true)
    else if HasConflictingLock(exclusive, tree[t[..j]].operations) then (tree, false)
    else
      assert t[..j + 1] == t[..j] + [t[j]];
      Walk(EnsureChild(tree, t[..j], t[j]), exclusive, t, j + 1)
  }

  /** The walk leaves the tree extended down to the first conflict, and reaches the target when there is none. */
  lemma WalkSpec(tree: Tree, exclusive: bool, t: Path)
    requires WellFormedTree(tree) && |t| > 0
    ensures Walk(tree, exclusive, t, 0)
         == (Extend(tree, t, WalkDepth(tree, exclusive, t, 0)), WalkDepth(tree, exclusive, t, 0) == |t|)
  {
    assert Extend(tree, t, 0) == tree;
    WalkFrom(tree, exclusive, t, 0);
  }

  lemma {:induction false} WalkFrom(tree: Tree, exclusive: bool, t: Path, j: nat)
    requires WellFormedTree(tree) && j <= |t|
    ensures Walk(Extend(tree, t, j), exclusive, t, j)
         == (Extend(tree, t, WalkDepth(tree, exclusive, t, j)), WalkDepth(tree, exclusive, t, j) == |t|)
    decreases |t| - j
  {
    var r := Extend(tree, t, j);
    if j < |t| {
      assert r[t[..j]].operations == OpsAt(tree, t[..j]);
      if !HasConflictingLock(exclusive, OpsAt(tree, t[..j])) {
        assert t[..j + 1] == t[..j] + [t[j]];
        assert EnsureChild(r, t[..j], t[j]) == Extend(tree, t, j + 1);
        WalkFrom(tree, exclusive, t, j + 1);
      }
    }
  }

  lemma WholePrefix(t: Path)
    ensures t[..|t|] == t
  {
  }

  /** Extending the tree creates only empty nodes. */
  lemma ExtendKeepsLocks(tree: Tree, t: Path, k: nat)
    requires WellFormedTree(tree) && k <= |t|
    ensures SameLocks(Extend(tree, t, k), tree)
  {
    var r := Extend(tree, t, k);
    forall p
      ensures OpsAt(r, p) == OpsAt(tree, p)
    {
    }
  }

  /** The nodes the walk for one request creates if they are missing. */
  function WalkNodes(tree: Tree, operation: Operation): set<Path> {
    var t := Target(operation.scope);
    Prefixes(t, WalkDepth(tree, operation.exclusive, t, 0))
  }

  /** The nodes the walks of a whole pass create if they are missing. */
  function PassNodes(queue: seq<Operation>, tree: Tree): set<Path> {
    if queue == [] then {} else WalkNodes(tree, queue[0]) + PassNodes(queue[1..], tree)
  }

  /** The requests a pass leaves in the queue, in queue order. */
  function Waiting(queue: seq<Operation>, tree: Tree): seq<Operation> {
    if queue == [] then []
    else (if Runnable(tree, queue[0]) then [] else [queue[0]]) + Waiting(queue[1..], tree)
  }

  /** The requests a pass takes out of the queue, in queue order (newest first). */
  function Admitted(queue: seq<Operation>, tree: Tree): seq<Operation> {
    if queue == [] then []
    else (if Runnable(tree, queue[0]) then [queue[0]] else []) + Admitted(queue[1..], tree)
  }

  /** The requests a pass starts, in the order of the scan (oldest first). */
  function Grants(queue: seq<Operation>, tree: Tree): seq<Operation> {
    if queue == [] then []
    else Grants(queue[1..], tree) + (if Runnable(tree, queue[0]) then [queue[0]] else [])
  }

  /** The started operations that are pushed onto the node at `p`, in push order. */
  function OnPath(started: seq<Operation>, p: Path): (r: seq<Operation>)
    ensures forall x :: x in r ==> x in started && Target(x.scope) == p
  {
    if started == [] then []
    else
      var last := started[|started| - 1];
      OnPath(started[..|started| - 1], p) + (if Target(last.scope) == p then [last] else [])
  }

  /**
   * One step of the scan, at index `i` of the queue `q` as it was when the
   * pass began; `e` is the queue as the scan has left it so far.
   */
  lemma ScanStep(q: seq<Operation>, i: nat, tree: Tree, e: seq<Operation>)
    requires i < |q| && e == q[..i + 1] + Waiting(q[i + 1..], tree)
    ensures i < |e| && e[i] == q[i]
    ensures Runnable(tree, q[i]) ==> e[..i] + e[i + 1..] == q[..i] + Waiting(q[i..], tree)
    ensures !Runnable(tree, q[i]) ==> e == q[..i] + Waiting(q[i..], tree)
    ensures Grants(q[i..], tree) == Grants(q[i + 1..], tree) + (if Runnable(tree, q[i]) then [q[i]] else [])
    ensures PassNodes(q[i..], tree) == WalkNodes(tree, q[i]) + PassNodes(q[i + 1..], tree)
  {
    PassStep(q, i, tree);
    SplitAt(q, i, Waiting(q[i + 1..], tree), e);
  }

  lemma PassStep(q: seq<Operation>, i: nat, tree: Tree)
    requires i < |q|
    ensures Waiting(q[i..], tree) == (if Runnable(tree, q[i]) then [] else [q[i]]) + Waiting(q[i + 1..], tree)
    ensures Grants(q[i..], tree) == Grants(q[i + 1..], tree) + (if Runnable(tree, q[i]) then [q[i]] else [])
    ensures PassNodes(q[i..], tree) == WalkNodes(tree, q[i]) + PassNodes(q[i + 1..], tree)
  {
    assert q[i..][1..] == q[i + 1..];
  }

  lemma SplitAt(q: seq<Operation>, i: nat, w: seq<Operation>, e: seq<Operation>)
    requires i < |q| && e == q[..i + 1] + w
    ensures i < |e| && e[i] == q[i]
    ensures e[..i] == q[..i] && e[i + 1..] == w
    ensures e == q[..i] + ([q[i]] + w)
  {
    assert q[..i + 1] == q[..i] + [q[i]];
  }

  /** The queue, the tree and the started requests after one pass from `queue0` and `tree0`. */
  ghost predicate PassResult(queue0: seq<Operation>, tree0: Tree,
                             queue: seq<Operation>, tree: Tree, started: seq<Operation>)
  {
    && queue == Waiting(queue0, tree0)
    && started == Grants(queue0, tree0)
    && tree.Keys == tree0.Keys + PassNodes(queue0, tree0)
    && forall p :: p in tree ==> tree[p].operations == OpsAt(tree0, p) + OnPath(started, p)
  }

  function Reverse(s: seq<Operation>): (r: seq<Operation>)
    ensures |r| == |s|
  {
    if s == [] then [] else Reverse(s[1..]) + [s[0]]
  }

  // ---------------------------------------------------------------------------
  // Properties of a pass
  // ---------------------------------------------------------------------------

  /**
   * A pass splits the queue: every request either stays (exactly when it is not
   * runnable) or is started (exactly when it is), and none is lost or duplicated.
   */
  lemma {:induction false} PassPartition(queue: seq<Operation>, tree: Tree)
    ensures multiset(Waiting(queue, tree)) + multiset(Grants(queue, tree)) == multiset(queue)
    ensures forall x :: x in Waiting(queue, tree) <==> x in queue && !Runnable(tree, x)
    ensures forall x :: x in Grants(queue, tree) <==> x in queue && Runnable(tree, x)
  {
    if queue != [] {
      PassPartition(queue[1..], tree);
      assert queue == [queue[0]] + queue[1..];
      assert multiset(queue) == multiset{queue[0]} + multiset(queue[1..]);
    }
  }

  lemma {:induction false} ReverseAppend(a: seq<Operation>, b: seq<Operation>)
    ensures Reverse(a + b) == Reverse(b) + Reverse(a)
  {
    if a == [] {
      assert a + b == b;
    } else {
      assert (a + b)[1..] == a[1..] + b;
      ReverseAppend(a[1..], b);
    }
  }

  /**
   * The scan runs from the oldest request (the end of the queue) to the newest:
   * the started requests are the admitted ones in reverse queue order.
   */
  lemma {:induction false} GrantsOldestFirst(queue: seq<Operation>, tree: Tree)
    ensures Grants(queue, tree) == Reverse(Admitted(queue, tree))
  {
    if queue != [] {
      GrantsOldestFirst(queue[1..], tree);
      var head := if Runnable(tree, queue[0]) then [queue[0]] else [];
      ReverseAppend(head, Admitted(queue[1..], tree));
      assert Reverse(head) == head by {
        if head != [] {
          assert head[1..] == [];
        }
      }
    }
  }

  /** The number of requests started by a pass plus those left waiting is the queue's length. */
  lemma QueueCount(queue: seq<Operation>, tree: Tree)
    ensures |Waiting(queue, tree)| + |Grants(queue, tree)| == |queue|
  {
    PassPartition(queue, tree);
    assert |multiset(Waiting(queue, tree)) + multiset(Grants(queue, tree))| == |multiset(queue)|;
  }

  /** With no operation held anywhere, a pass starts every queued request and leaves none waiting. */
  lemma {:induction false} NoLocksStartsAll(queue: seq<Operation>, tree: Tree)
    requires forall p :: p in tree ==> tree[p].operations == []
    ensures Waiting(queue, tree) == []
    ensures Grants(queue, tree) == Reverse(queue)
  {
    if queue != [] {
      NoLocksStartsAll(queue[1..], tree);
      assert Runnable(tree, queue[0]);
    }
  }

  /** Judgements about the tree depend only on the operations it holds, not on empty nodes. */
  lemma SameLocksAgree(t1: Tree, t2: Tree, exclusive: bool, t: Path)
    requires SameLocks(t1, t2)
    ensures WalkDepth(t1, exclusive, t, 0) == WalkDepth(t2, exclusive, t, 0)
    ensures AncestorsFree(t1, exclusive, t) == AncestorsFree(t2, exclusive, t)
    ensures SubtreeFree(t1, exclusive, t) == SubtreeFree(t2, exclusive, t)
  {
    forall j | 0 <= j < |t|
      ensures OpsAt(t1, t[..j]) == OpsAt(t2, t[..j])
    {
    }
    if SubtreeFree(t1, exclusive, t) {
      forall p | p in t2 && IsPrefix(t, p)
        ensures !HasConflictingLock(exclusive, t2[p].operations)
      {
        assert OpsAt(t1, p) == OpsAt(t2, p);
      }
    }
    if SubtreeFree(t2, exclusive, t) {
      forall p | p in t1 && IsPrefix(t, p)
        ensures !HasConflictingLock(exclusive, t1[p].operations)
      {
        assert OpsAt(t1, p) == OpsAt(t2, p);
      }
    }
  }

  /**
   * Whole-subtree isolation: no two distinct operations on one ancestor /
   * descendant line of the tree where either of them is exclusive.
   */
  ghost predicate Isolated(tree: Tree) {
    forall p, q, i, j :: CompatiblePair(tree, p, q, i, j)
  }

  /** The `i`-th operation at `p` and the `j`-th at `q` may be held together. */
  ghost predicate CompatiblePair(tree: Tree, p: Path, q: Path, i: int, j: int) {
    p in tree && q in tree && IsPrefix(p, q) &&
    0 <= i < |tree[p].operations| && 0 <= j < |tree[q].operations| && (p != q || i != j)
    ==> !tree[p].operations[i].exclusive && !tree[q].operations[j].exclusive
  }

  /** Pushing a started operation onto its target node (`leaf.operations.push( operation )`). */
  function Grant(tree: Tree, operation: Operation): (r: Tree)
    requires Target(operation.scope) in tree
    ensures r.Keys == tree.Keys
    ensures forall p :: p in tree && p != Target(operation.scope) ==> r[p] == tree[p]
    ensures r[Target(operation.scope)].operations == tree[Target(operation.scope)].operations + [operation]
    ensures r[Target(operation.scope)].nestedScopes == tree[Target(operation.scope)].nestedScopes
  {
    var t := Target(operation.scope);
    tree[t := tree[t].(operations := tree[t].operations + [operation])]
  }

  /** Pushing every started request onto its node, in order. */
  function GrantAll(tree: Tree, started: seq<Operation>): (r: Tree)
    requires forall x :: x in started ==> Target(x.scope) in tree
    ensures r.Keys == tree.Keys
    ensures forall p :: p in r ==> r[p].nestedScopes == tree[p].nestedScopes
    decreases |started|
  {
    if started == [] then tree
    else
      var last := started[|started| - 1];
      assert last in started;
      Grant(GrantAll(tree, started[..|started| - 1]), last)
  }

  /** Each node ends up with its own operations followed by the started requests that target it, in order. */
  lemma {:induction false} GrantAllOperations(tree: Tree, started: seq<Operation>, p: Path)
    requires forall x :: x in started ==> Target(x.scope) in tree
    requires p in tree
    ensures GrantAll(tree, started)[p].operations == tree[p].operations + OnPath(started, p)
    decreases |started|
  {
    if started != [] {
      var init := started[..|started| - 1];
      var last := started[|started| - 1];
      assert forall x :: x in init ==> x in started;
      GrantAllOperations(tree, init, p);
      var extra := if Target(last.scope) == p then [last] else [];
      assert OnPath(started, p) == OnPath(init, p) + extra;
      assert tree[p].operations + OnPath(init, p) + extra == tree[p].operations + (OnPath(init, p) + extra);
    }
  }

  /** Granting ONE runnable request keeps whole-subtree isolation. */
  lemma SingleGrantPreservesIsolation(tree: Tree, operation: Operation)
    requires Isolated(tree)
    requires Target(operation.scope) in tree
    requires Runnable(tree, operation)
    ensures Isolated(Grant(tree, operation))
  {
    var t := Target(operation.scope);
    var r := Grant(tree, operation);
    var n := |tree[t].operations|;
    forall p, q, i, j
      ensures CompatiblePair(r, p, q, i, j)
    {
      if p in r && q in r && IsPrefix(p, q) &&
         0 <= i < |r[p].operations| && 0 <= j < |r[q].operations| && (p != q || i != j)
      {
        var newP := p == t && i == n;
        var newQ := q == t && j == n;
        if newP {
          // q lies in the subtree of t
          assert !HasConflictingLock(operation.exclusive, tree[q].operations);
          assert r[q].operations[j] == tree[q].operations[j];
        } else if newQ {
          if p == t {
            assert !HasConflictingLock(operation.exclusive, tree[p].operations);
          } else {
            assert |p| < |t| && t[..|p|] == p;
            assert !HasConflictingLock(operation.exclusive, OpsAt(tree, t[..|p|]));
          }
          assert r[p].operations[i] == tree[p].operations[i];
        } else {
          assert r[p].operations[i] == tree[p].operations[i];
          assert r[q].operations[j] == tree[q].operations[j];
          assert CompatiblePair(tree, p, q, i, j);
        }
      }
    }
  }

  /**
   * Grants are applied only after the scan, so two requests for the same
   * scope that exclude each other are both started by one pass over an idle
   * tree: the code does not keep whole-subtree isolation across one pass.
   */
  lemma SameScopeExclusivesBothStarted(a: Operation, b: Operation)
    requires a.exclusive && b.exclusive && a.scope == b.scope == ["a"] && a != b
    ensures var tree := map[[] := Node([], ["a"]), ["a"] := Node([], [])];
      && Waiting([b, a], tree) == []
      && Grants([b, a], tree) == [a, b]
      && !Isolated(Grant(Grant(tree, a), b))
  {
    var tree := map[[] := Node([], ["a"]), ["a"] := Node([], [])];
    NoLocksStartsAll([b, a], tree);
    assert [b, a][1..] == [a];
    var g := Grant(Grant(tree, a), b);
    assert g[["a"]].operations == [a, b];
    assert IsPrefix(["a"], ["a"]);
    assert g[["a"]].operations[0].exclusive && g[["a"]].operations[1].exclusive;
    assert !CompatiblePair(g, ["a"], ["a"], 0, 1);
  }

  /**
   * An exclusive operation held at ["x"] blocks an exclusive request for
   * ["x", "y"]; once it is spliced out, the request is runnable. A request for
   * the unrelated scope ["z"] is runnable all along.
   */
  lemma ReleaseUnblocksDescendant(held: Operation, waiting: Operation, other: Operation)
    requires held.exclusive && held.scope == ["x"]
    requires waiting.exclusive && waiting.scope == ["x", "y"]
    requires other.exclusive && other.scope == ["z"]
    ensures var tree := map[[] := Node([], ["x"]), ["x"] := Node([held], [])];
      && !Runnable(tree, waiting)
      && Runnable(tree, other)
      && Runnable(WithoutOperation(tree, ["x"], held), waiting)
  {
    var tree := map[[] := Node([], ["x"]), ["x"] := Node([held], [])];
    var t := Target(waiting.scope);
    assert t[..1] == ["x"];
    assert !AncestorsFree(tree, true, t);
    forall p | p in tree
      ensures !IsPrefix(["z"], p)
    {
      assert p == [] || p == ["x"];
      if p == ["x"] {
        assert p[..1][0] == "x";
      }
    }
    var released := WithoutOperation(tree, ["x"], held);
    assert released[["x"]].operations == [] by {
      assert IndexOf([held], held) == 0;
    }
    assert forall p :: p in released ==> released[p].operations == [];
  }

  /**
   * A blocked request does not hold up the queue: with the oldest request
   * blocked, a younger request for an unrelated scope is still started and
   * the blocked one stays queued.
   */
  lemma BlockedRequestSkipped(held: Operation, waiting: Operation, other: Operation)
    requires held.exclusive && held.scope == ["x"]
    requires waiting.exclusive && waiting.scope == ["x", "y"]
    requires other.exclusive && other.scope == ["z"]
    ensures var tree := map[[] := Node([], ["x"]), ["x"] := Node([held], [])];
      && Waiting([other, waiting], tree) == [waiting]
      && Grants([other, waiting], tree) == [other]
  {
    var tree := map[[] := Node([], ["x"]), ["x"] := Node([held], [])];
    ReleaseUnblocksDescendant(held, waiting, other);
    var q := [other, waiting];
    assert q[1..] == [waiting];
    assert [waiting][1..] == [];
    assert Waiting([waiting], tree) == [waiting];
    assert Grants([waiting], tree) == [];
  }

  // ---------------------------------------------------------------------------
  // Release: `leaf.operations.splice( leaf.operations.indexOf( operation ), 1 )`
  // ---------------------------------------------------------------------------

  /** `indexOf`: the first position of `x`, or -1. */
  function IndexOf(operations: seq<Operation>, x: Operation): (k: int)
    ensures -1 <= k < |operations|
    ensures k == -1 <==> x !in operations
    ensures k >= 0 ==> operations[k] == x && x !in operations[..k]
  {
    if operations == [] then -1
    else if operations[0] == x then 0
    else
      var k := IndexOf(operations[1..], x);
      if k == -1 then -1
      else
        assert operations[..k + 1] == [operations[0]] + operations[1..][..k];
        k + 1
  }

  /**
   * `splice( indexOf( x ), 1 )`: removes the first occurrence of `x`. When `x`
   * is absent, `indexOf` gives -1 and `splice( -1, 1 )` removes the LAST
   * element, if any.
   */
  function SpliceOut(operations: seq<Operation>, x: Operation): (r: seq<Operation>)
    ensures x in operations ==>
      && |r| == |operations| - 1
      && multiset(r) == multiset(operations) - multiset{x}
      && exists k :: 0 <= k < |operations| && operations[k] == x && x !in operations[..k]
                     && r == operations[..k] + operations[k + 1..]
    ensures x !in operations && operations != [] ==> r == operations[..|operations| - 1]
    ensures operations == [] ==> r == []
  {
    var k := IndexOf(operations, x);
    if k >= 0 then
      assert operations == operations[..k] + [x] + operations[k + 1..];
      operations[..k] + operations[k + 1..]
    else if operations != [] then operations[..|operations| - 1]
    else []
  }

  /** The tree after the settled operation is spliced out of its node. */
  function WithoutOperation(tree: Tree, leaf: Path, operation: Operation): (r: Tree)
    requires leaf in tree
    ensures r.Keys == tree.Keys
    ensures forall p :: p in tree && p != leaf ==> r[p] == tree[p]
    ensures r[leaf].nestedScopes == tree[leaf].nestedScopes
    ensures operation in tree[leaf].operations ==>
      multiset(r[leaf].operations) == multiset(tree[leaf].operations) - multiset{operation}
  {
    tree[leaf := tree[leaf].(operations := SpliceOut(tree[leaf].operations, operation))]
  }

  // ---------------------------------------------------------------------------
  // The module-level state and the control
  // ---------------------------------------------------------------------------

  /** Every queued or held operation has an identity below `next`. */
  predicate IdsBelow(queue: seq<Operation>, tree: Tree, next: nat) {
    && (forall x :: x in queue ==> x.id < next)
    && (forall p, x :: p in tree && x in tree[p].operations ==> x.id < next)
  }

  /** Replacing the operations of one node by some of its own keeps identities below the bound. */
  lemma IdsBelowSubset(queue: seq<Operation>, tree: Tree, r: Tree, next: nat)
    requires IdsBelow(queue, tree, next)
    requires r.Keys == tree.Keys
    requires forall p, x :: p in r && x in r[p].operations ==> x in tree[p].operations
    ensures IdsBelow(queue, r, next)
  {
  }

  /** Adding nodes without operations keeps identities below the bound. */
  lemma IdsBelowKept(queue: seq<Operation>, tree: Tree, r: Tree, next: nat)
    requires IdsBelow(queue, tree, next)
    requires forall p :: p in r ==> r[p].operations == OpsAt(tree, p)
    ensures IdsBelow(queue, r, next)
  {
  }

  /** Pushing requests whose identities are below the bound keeps identities below it. */
  lemma IdsBelowGranted(queue: seq<Operation>, tree: Tree, started: seq<Operation>, next: nat)
    requires IdsBelow(queue, tree, next)
    requires forall x :: x in started ==> Target(x.scope) in tree && x.id < next
    ensures IdsBelow(queue, GrantAll(tree, started), next)
  {
  }

  /** A tree whose shape is that of a well-formed tree is well formed, whatever its operations. */
  lemma ShapeKeepsWellFormed(tree: Tree, r: Tree)
    requires WellFormedTree(tree)
    requires r.Keys == tree.Keys
    requires forall p :: p in tree ==> r[p].nestedScopes == tree[p].nestedScopes
    ensures WellFormedTree(r)
  {
    forall p, s | IsChild(r, p, s)
      ensures p in r && s in r[p].nestedScopes
    {
      ParentOf(tree, p, s);
    }
    forall p, s | Lists(r, p, s)
      ensures p + [s] in r
    {
      ChildOf(tree, p, s);
    }
  }

  /** The `enqueued` queue and the `inProgress` tree. */
  class AtomicControl {
    /** Pending requests; index 0 is the newest (`unshift`). */
    var enqueued: seq<Operation>
    /** The `inProgress` tree. */
    var inProgress: Tree
    /** The identity the next queued object receives. */
    var nextId: nat

    ghost predicate Valid()
      reads this
    {
      WellFormedTree(inProgress) && IdsBelow(enqueued, inProgress, nextId)
    }

    /** The initial state: an empty queue and a root without operations or children. */
    constructor ()
      ensures Valid()
      ensures enqueued == [] && inProgress == map[[] := Node([], [])] && nextId == 0
    {
      enqueued := [];
      inProgress := map[[] := Node([], [])];
      nextId := 0;
    }

    /**
     * The `do ... while` walk from the root to the node of `t`: stops at the
     * first conflicting node before the target, creating missing nodes on the
     * way; creates nothing else and changes no operation.
     */
    method WalkToLeaf(exclusive: bool, t: Path) returns (reached: bool)
      requires WellFormedTree(inProgress) && |t| > 0
      modifies this
      ensures enqueued == old(enqueued) && nextId == old(nextId)
      ensures inProgress == Extend(old(inProgress), t, WalkDepth(old(inProgress), exclusive, t, 0))
      ensures reached <==> WalkDepth(old(inProgress), exclusive, t, 0) == |t|
    {
      ghost var tree0 := inProgress;
      var j := 0;
      while j < |t|
        invariant 0 <= j <= |t|
        invariant enqueued == old(enqueued) && nextId == old(nextId)
        invariant WellFormedTree(inProgress) && t[..j] in inProgress
        invariant Walk(inProgress, exclusive, t, j) == Walk(tree0, exclusive, t, 0)
      {
        var leaf := t[..j];
        if HasConflictingLock(exclusive, inProgress[leaf].operations) {
          reached := false;
          break;
        }
        var branch := t[j];
        CreateChild(leaf, branch);
        assert t[..j + 1] == leaf + [branch];
        j := j + 1;
      }
      if j == |t| {
        reached := true;
      }
      WalkSpec(tree0, exclusive, t);
    }

    /** `leaf.nestedScopes[ branchName ]` is created when missing. */
    method CreateChild(leaf: Path, branch: Segment)
      requires WellFormedTree(inProgress) && leaf in inProgress
      modifies this
      ensures enqueued == old(enqueued) && nextId == old(nextId)
      ensures inProgress == EnsureChild(old(inProgress), leaf, branch)
    {
      if branch !in inProgress[leaf].nestedScopes {
        inProgress := AddChild(inProgress, leaf, branch);
      }
    }

    /**
     * The explicit-stack search of the target's subtree ("Validate all nested
     * scopes"): pops a node, fails on a conflict, pushes its children.
     */
    method NestedScopesFree(exclusive: bool, t: Path) returns (free: bool)
      requires Valid() && t in inProgress
      ensures free <==> SubtreeFree(inProgress, exclusive, t)
    {
      var stack := [t];
      assert Covered(inProgress, stack) == set q | q in inProgress && IsPrefix(t, q) by {
        forall q | q in inProgress && IsPrefix(t, q)
          ensures q in Covered(inProgress, stack)
        {
          assert IsPrefix(stack[0], q);
        }
      }
      while |stack| > 0
        invariant forall k :: 0 <= k < |stack| ==> stack[k] in inProgress && IsPrefix(t, stack[k])
        invariant Antichain(stack)
        invariant forall q :: q in inProgress && IsPrefix(t, q) && q !in Covered(inProgress, stack)
                    ==> !HasConflictingLock(exclusive, inProgress[q].operations)
        decreases |Covered(inProgress, stack)|
      {
        var leaf := stack[|stack| - 1];
        ghost var before := stack;
        stack := stack[..|stack| - 1];
        if HasConflictingLock(exclusive, inProgress[leaf].operations) {
          return false;
        }
        var children := Children(inProgress, leaf);
        ChildrenOfTree(inProgress, leaf);
        PopCovered(inProgress, before, t);
        stack := stack + children;
      }
      assert Covered(inProgress, stack) == {};
      return true;
    }

    /**
     * The checks of one request in the scan: the walk to its node, then the
     * search of its subtree. The walk may create nodes; no operation changes.
     * `tree0` is the tree at the start of the pass, which holds the same locks.
     */
    method CheckRequest(operation: Operation, ghost tree0: Tree) returns (ok: bool)
      requires Valid() && SameLocks(inProgress, tree0)
      modifies this
      ensures Valid() && enqueued == old(enqueued) && nextId == old(nextId)
      ensures ok == Runnable(tree0, operation)
      ensures ok ==> Target(operation.scope) in inProgress
      ensures inProgress.Keys == old(inProgress).Keys + WalkNodes(tree0, operation)
      ensures forall p :: p in inProgress ==> inProgress[p].operations == OpsAt(old(inProgress), p)
    {
      ghost var mid := inProgress;
      var t := Target(operation.scope);
      SameLocksAgree(mid, tree0, operation.exclusive, t);
      ok := WalkToLeaf(operation.exclusive, t);
      WalkSpec(mid, operation.exclusive, t);
      WalkReachesAll(mid, operation.exclusive, t);
      IdsBelowKept(enqueued, mid, inProgress, nextId);
      ExtendKeepsLocks(mid, t, WalkDepth(mid, operation.exclusive, t, 0));
      if ok {
        WholePrefix(t);
        ok := NestedScopesFree(operation.exclusive, t);
        SameLocksAgree(inProgress, tree0, operation.exclusive, t);
      }
    }

    /**
     * The scan of `runQueue`: from the oldest request to the newest, every
     * request whose checks pass is spliced out of the queue and collected.
     */
    method Scan() returns (runnable: seq<Operation>)
      requires Valid()
      modifies this
      ensures Valid() && nextId == old(nextId)
      ensures enqueued == Waiting(old(enqueued), old(inProgress))
      ensures runnable == Grants(old(enqueued), old(inProgress))
      ensures forall x :: x in runnable ==> Target(x.scope) in inProgress
      ensures inProgress.Keys == old(inProgress).Keys + PassNodes(old(enqueued), old(inProgress))
      ensures forall p :: p in inProgress ==> inProgress[p].operations == OpsAt(old(inProgress), p)
    {
      ghost var queue0 := enqueued;
      ghost var tree0 := inProgress;
      runnable := [];
      var i := |enqueued| - 1;
      while i >= 0
        invariant -1 <= i < |queue0|
        invariant Valid() && nextId == old(nextId)
        invariant enqueued == queue0[..i + 1] + Waiting(queue0[i + 1..], tree0)
        invariant runnable == Grants(queue0[i + 1..], tree0)
        invariant forall x :: x in runnable ==> Target(x.scope) in inProgress
        invariant inProgress.Keys == tree0.Keys + PassNodes(queue0[i + 1..], tree0)
        invariant forall p :: p in inProgress ==> inProgress[p].operations == OpsAt(tree0, p)
      {
        var operation := enqueued[i];
        var ok := CheckRequest(operation, tree0);
        ScanStep(queue0, i, tree0, enqueued);
        if ok {
          enqueued := enqueued[..i] + enqueued[i + 1..];
          runnable := runnable + [operation];
        }
        i := i - 1;
      }
      assert queue0[0..] == queue0;
    }

    /** The grants of `runQueue`: each collected request is pushed onto its node, oldest first. */
    method PushAll(started: seq<Operation>)
      requires forall x :: x in started ==> Target(x.scope) in inProgress
      modifies this
      ensures enqueued == old(enqueued) && nextId == old(nextId)
      ensures inProgress == GrantAll(old(inProgress), started)
    {
      ghost var scanned := inProgress;
      var k := 0;
      while k < |started|
        invariant 0 <= k <= |started|
        invariant enqueued == old(enqueued) && nextId == old(nextId)
        invariant inProgress == GrantAll(scanned, started[..k])
      {
        var operation := started[k];
        assert started[..k + 1][..k] == started[..k];
        inProgress := Grant(inProgress, operation);
        k := k + 1;
      }
      assert started[..k] == started;
    }

    /** `runQueue`: the scan, then the grants. */
    method RunQueue() returns (started: seq<Operation>)
      requires Valid()
      modifies this
      ensures Valid() && nextId == old(nextId)
      ensures PassResult(old(enqueued), old(inProgress), enqueued, inProgress, started)
    {
      ghost var tree0 := inProgress;
      started := Scan();
      PassPartition(old(enqueued), tree0);
      ghost var scanned := inProgress;
      PushAll(started);
      forall p | p in scanned
        ensures inProgress[p].operations == scanned[p].operations + OnPath(started, p)
      {
        GrantAllOperations(scanned, started, p);
      }
      ShapeKeepsWellFormed(scanned, inProgress);
      IdsBelowGranted(enqueued, scanned, started, nextId);
    }

    /**
     * `controls.ATOMIC_OPERATION`: puts a new request (a fresh object) at the
     * front of the queue and runs the queue. The returned promise never settles:
     * its `resolve` is stored with the request and never called.
     */
    method Submit(descriptor: Descriptor) returns (operation: Operation, started: seq<Operation>)
      requires Valid()
      modifies this
      ensures Valid()
      ensures operation == Operation(old(nextId), descriptor.exclusive, descriptor.scope, descriptor.handler)
      ensures forall x :: x in old(enqueued) ==> x.id != operation.id
      ensures forall p, x :: p in old(inProgress) && x in old(inProgress)[p].operations ==> x.id != operation.id
      ensures PassResult([operation] + old(enqueued), old(inProgress), enqueued, inProgress, started)
    {
      operation := Operation(nextId, descriptor.exclusive, descriptor.scope, descriptor.handler);
      enqueued := [operation] + enqueued;
      nextId := nextId + 1;
      started := RunQueue();
    }

    /**
     * The `finally` of a started handler: splices its operation out of its node
     * and runs the queue again.
     */
    method Release(leaf: Path, operation: Operation) returns (started: seq<Operation>)
      requires Valid() && leaf in inProgress
      modifies this
      ensures Valid() && nextId == old(nextId)
      ensures PassResult(old(enqueued), WithoutOperation(old(inProgress), leaf, operation),
                         enqueued, inProgress, started)
    {
      var node := inProgress[leaf];
      ghost var tree0 := inProgress;
      inProgress := inProgress[leaf := node.(operations := SpliceOut(node.operations, operation))];
      assert inProgress == WithoutOperation(tree0, leaf, operation);
      ShapeKeepsWellFormed(tree0, inProgress);
      started := RunQueue();
    }
  }

  // ---------------------------------------------------------------------------
  // The explicit stack of the subtree search
  // ---------------------------------------------------------------------------

  /** `Object.values( leaf.nestedScopes )`, as paths. */
  function Children(tree: Tree, leaf: Path): (cs: seq<Path>)
    requires leaf in tree
    ensures |cs| == |tree[leaf].nestedScopes|
    ensures forall i :: 0 <= i < |cs| ==> cs[i] == leaf + [tree[leaf].nestedScopes[i]]
  {
    var names := tree[leaf].nestedScopes;
    seq(|names|, i requires 0 <= i < |names| => leaf + [names[i]])
  }

  /** The children of a node are nodes, are distinct, and are every node one level below it. */
  lemma ChildrenOfTree(tree: Tree, leaf: Path)
    requires WellFormedTree(tree) && leaf in tree
    ensures forall i :: 0 <= i < |Children(tree, leaf)| ==> Children(tree, leaf)[i] in tree
    ensures Antichain(Children(tree, leaf))
  {
    var cs := Children(tree, leaf);
    var names := tree[leaf].nestedScopes;
    forall i | 0 <= i < |cs|
      ensures cs[i] in tree
    {
      ChildOf(tree, leaf, names[i]);
    }
    forall i, j | 0 <= i < |cs| && 0 <= j < |cs| && i != j
      ensures !IsPrefix(cs[i], cs[j])
    {
      assert names[i] != names[j];
      assert cs[j][|leaf|] == names[j];
    }
  }

  /** No path on the stack is a prefix of another one (nor equal to it). */
  ghost predicate Antichain(stack: seq<Path>) {
    forall i, j :: 0 <= i < |stack| && 0 <= j < |stack| && i != j ==> !IsPrefix(stack[i], stack[j])
  }

  /** The nodes still to be examined: those below some path on the stack. */
  ghost function Covered(tree: Tree, stack: seq<Path>): set<Path> {
    set q | q in tree && exists k :: 0 <= k < |stack| && IsPrefix(stack[k], q)
  }

  /** A node strictly below `leaf` lies below one of `leaf`'s children. */
  lemma BelowSomeChild(tree: Tree, leaf: Path, q: Path) returns (i: nat)
    requires WellFormedTree(tree) && leaf in tree && q in tree
    requires IsPrefix(leaf, q) && q != leaf
    ensures i < |Children(tree, leaf)| && IsPrefix(Children(tree, leaf)[i], q)
  {
    assert |q| > |leaf|;
    var c := q[..|leaf| + 1];
    PrefixInTree(tree, q, |leaf| + 1);
    assert c == leaf + [q[|leaf|]];
    ParentOf(tree, leaf, q[|leaf|]);
    var names := tree[leaf].nestedScopes;
    assert q[|leaf|] in names;
    i :| 0 <= i < |names| && names[i] == q[|leaf|];
    assert Children(tree, leaf)[i] == c;
  }

  /**
   * Popping `leaf` and pushing its children removes exactly `leaf` from the
   * nodes still to be examined, and keeps the stack an antichain in t's subtree.
   */
  lemma PopCovered(tree: Tree, stack: seq<Path>, t: Path)
    requires WellFormedTree(tree) && |stack| > 0
    requires forall k :: 0 <= k < |stack| ==> stack[k] in tree && IsPrefix(t, stack[k])
    requires Antichain(stack)
    ensures var leaf := stack[|stack| - 1];
      var next := stack[..|stack| - 1] + Children(tree, leaf);
      && Covered(tree, next) == Covered(tree, stack) - {leaf}
      && leaf in Covered(tree, stack)
      && Antichain(next)
      && forall k :: 0 <= k < |next| ==> next[k] in tree && IsPrefix(t, next[k])
  {
    var n := |stack| - 1;
    var leaf := stack[n];
    var next := stack[..n] + Children(tree, leaf);
    ChildrenOfTree(tree, leaf);
    PopCoveredShrinks(tree, stack);
    PopCoveredKeeps(tree, stack);
    PopAntichain(tree, stack);
    var cs := Children(tree, leaf);
    forall k | 0 <= k < |next|
      ensures next[k] in tree && IsPrefix(t, next[k])
    {
      if k >= n {
        assert next[k] == cs[k - n];
        assert IsPrefix(t, leaf);
      }
    }
    assert IsPrefix(stack[n], leaf);
  }

  lemma PopCoveredShrinks(tree: Tree, stack: seq<Path>)
    requires |stack| > 0 && stack[|stack| - 1] in tree
    requires Antichain(stack)
    ensures var leaf := stack[|stack| - 1];
      Covered(tree, stack[..|stack| - 1] + Children(tree, leaf)) <= Covered(tree, stack) - {leaf}
  {
    var n := |stack| - 1;
    var leaf := stack[n];
    var next := stack[..n] + Children(tree, leaf);
    forall q | q in Covered(tree, next)
      ensures q in Covered(tree, stack) - {leaf}
    {
      var k :| 0 <= k < |next| && IsPrefix(next[k], q);
      if k < n {
        assert next[k] == stack[k];
      } else {
        ChildBelow(tree, leaf, k - n, q);
        assert IsPrefix(stack[n], q);
      }
    }
  }

  lemma PopCoveredKeeps(tree: Tree, stack: seq<Path>)
    requires WellFormedTree(tree) && |stack| > 0 && stack[|stack| - 1] in tree
    ensures var leaf := stack[|stack| - 1];
      Covered(tree, stack) - {leaf} <= Covered(tree, stack[..|stack| - 1] + Children(tree, leaf))
  {
    var n := |stack| - 1;
    var leaf := stack[n];
    var cs := Children(tree, leaf);
    var next := stack[..n] + cs;
    forall q | q in Covered(tree, stack) - {leaf}
      ensures q in Covered(tree, next)
    {
      var k :| 0 <= k < |stack| && IsPrefix(stack[k], q);
      if k < n {
        assert next[k] == stack[k];
      } else {
        var i := BelowSomeChild(tree, leaf, q);
        assert next[n + i] == cs[i];
      }
    }
  }

  lemma PopAntichain(tree: Tree, stack: seq<Path>)
    requires WellFormedTree(tree) && |stack| > 0 && stack[|stack| - 1] in tree
    requires Antichain(stack)
    ensures Antichain(stack[..|stack| - 1] + Children(tree, stack[|stack| - 1]))
  {
    var n := |stack| - 1;
    var leaf := stack[n];
    var cs := Children(tree, leaf);
    var next := stack[..n] + cs;
    ChildrenOfTree(tree, leaf);
    forall i, j | 0 <= i < |next| && 0 <= j < |next| && i != j
      ensures !IsPrefix(next[i], next[j])
    {
      if i < n && j < n {
        assert next[i] == stack[i] && next[j] == stack[j];
      } else if i < n {
        assert next[i] == stack[i];
        assert next[j] == cs[j - n];
      } else if j < n {
        assert next[j] == stack[j];
        assert next[i] == cs[i - n];
        assert IsPrefix(cs[i - n], stack[j]) ==> IsPrefix(leaf, stack[j]);
      } else {
        assert next[i] == cs[i - n] && next[j] == cs[j - n];
      }
    }
  }

  /** A node below a child of `leaf` is strictly below `leaf`. */
  lemma ChildBelow(tree: Tree, leaf: Path, i: nat, q: Path)
    requires leaf in tree && i < |Children(tree, leaf)|
    requires IsPrefix(Children(tree, leaf)[i], q)
    ensures IsPrefix(leaf, q) && q != leaf
  {
    var c := Children(tree, leaf)[i];
    assert q[..|leaf|] == c[..|leaf|];
  }
}
