/** TupleBST (db_generator/TupleBST.cc): a binary search tree of filter tuples keyed by scope,
    with equal scopes going right, whose nodes hold lists of filter indices. */
module TupleBst {
  import opened Power

  datatype FiveTuple = FiveTuple(saLen: int, daLen: int, spWid: int, dpWid: int, prot: int, flag: int)

  function Log2(n: int): nat {
    if n < 2 then 0 else 1 + Log2(n / 2)
  }

  /** The base-2 logarithm of the number of headers that the tuple leaves open, rounded down. */
  function Scope(t: FiveTuple): int {
    (32 - t.saLen) + (32 - t.daLen) + Log2(t.spWid * t.dpWid) + 8 * (1 - t.prot) + (1 - t.flag)
  }

  /** The headers that filters of the tuple match: addresses under both prefixes, ports in both
      ranges, one of 256 protocols if any is allowed, one of two flag settings if any is. */
  function HeaderCount(t: FiveTuple): int
    requires 0 <= t.saLen <= 32 && 0 <= t.daLen <= 32
  {
    Pow2(32 - t.saLen) * Pow2(32 - t.daLen) * (if t.prot == 0 then 256 else 1) * (if t.flag == 0 then 2 else 1)
    * (t.spWid * t.dpWid)
  }

  lemma {:induction false} Log2Is(n: int)
    requires n >= 1
    ensures Pow2(Log2(n)) <= n < 2 * Pow2(Log2(n))
  {
    if n >= 2 { Log2Is(n / 2); }
  }

  /** The scope is the base-2 logarithm of that number, rounded down. */
  lemma {:induction false} ScopeCounts(t: FiveTuple)
    requires 0 <= t.saLen <= 32 && 0 <= t.daLen <= 32 && t.spWid * t.dpWid >= 1
    requires 0 <= t.prot <= 1 && 0 <= t.flag <= 1
    ensures Scope(t) >= 0 && Pow2(Scope(t)) <= HeaderCount(t) < Pow2(Scope(t) + 1)
  {
    hide Pow2, Log2, HeaderCount;
    var w := t.spWid * t.dpWid;
    var a, b, p, f := 32 - t.saLen, 32 - t.daLen, 8 * (1 - t.prot), 1 - t.flag;
    Log2Is(w);
    CountIs(t, a, b, p, f);
    FourPowers(a, b, p, f);
    Between(a + b + p + f, Log2(w), w);
  }

  lemma {:induction false} CountIs(t: FiveTuple, a: nat, b: nat, p: nat, f: nat)
    requires 0 <= t.saLen <= 32 && 0 <= t.daLen <= 32 && 0 <= t.prot <= 1 && 0 <= t.flag <= 1
    requires a == 32 - t.saLen && b == 32 - t.daLen && p == 8 * (1 - t.prot) && f == 1 - t.flag
    ensures HeaderCount(t) == Pow2(a) * Pow2(b) * Pow2(p) * Pow2(f) * (t.spWid * t.dpWid)
  {
    SmallPowers();
    hide Pow2;
  }

  lemma {:induction false} FourPowers(a: nat, b: nat, c: nat, d: nat)
    ensures Pow2(a) * Pow2(b) * Pow2(c) * Pow2(d) == Pow2(a + b + c + d)
  {
    hide Pow2;
    Pow2Add(a, b);
    Pow2Add(a + b, c);
    Pow2Add(a + b + c, d);
  }

  lemma {:induction false} Between(e: nat, l: nat, w: nat)
    requires Pow2(l) <= w < 2 * Pow2(l)
    ensures Pow2(e + l) <= Pow2(e) * w < Pow2(e + l + 1)
  {
    Pow2Add(e, l);
    assert Pow2(e + l + 1) == 2 * Pow2(e + l);
    hide Pow2;
    Larger(Pow2(l), w, Pow2(e));
    Larger(w, 2 * Pow2(l), Pow2(e));
  }

  lemma {:induction false} SmallPowers()
    ensures Pow2(0) == 1 && Pow2(1) == 2 && Pow2(8) == 256
  {
    assert Pow2(4) == 16;
  }

  class Node {
    const tuple: FiveTuple
    const scope: int
    var left: Node?
    var right: Node?
    var items: seq<nat>

    constructor (tuple: FiveTuple)
      ensures this.tuple == tuple && scope == Scope(tuple)
      ensures left == null && right == null && items == []
    {
      this.tuple, scope, left, right, items := tuple, Scope(tuple), null, null, [];
    }
  }

  /** The tree as a value: which node hangs where. */
  datatype Shape = Leaf | Branch(left: Shape, node: Node, right: Shape)

  ghost function Nodes(s: Shape): set<Node> {
    match s
    case Leaf => {}
    case Branch(l, n, r) => Nodes(l) + {n} + Nodes(r)
  }

  ghost function Inorder(s: Shape): seq<Node> {
    match s
    case Leaf => []
    case Branch(l, n, r) => Inorder(l) + [n] + Inorder(r)
  }

  ghost function Top(s: Shape): Node? {
    if s.Leaf? then null else s.node
  }

  /** What the child pointers of node m of the shape are. */
  ghost function LeftOf(s: Shape, m: Node): Node? {
    match s
    case Leaf => null
    case Branch(l, n, r) => if m == n then Top(l) else if m in Nodes(l) then LeftOf(l, m) else LeftOf(r, m)
  }

  ghost function RightOf(s: Shape, m: Node): Node? {
    match s
    case Leaf => null
    case Branch(l, n, r) => if m == n then Top(r) else if m in Nodes(l) then RightOf(l, m) else RightOf(r, m)
  }

  /** Smaller scopes to the left, the others to the right; no node hangs in two places and no
      two nodes have the same tuple. */
  ghost predicate Ordered(s: Shape) {
    match s
    case Leaf => true
    case Branch(l, n, r) =>
      && Ordered(l) && Ordered(r)
      && n.scope == Scope(n.tuple)
      && (forall m :: m in Nodes(l) ==> m.scope < n.scope)
      && (forall m :: m in Nodes(r) ==> n.scope <= m.scope && m.tuple != n.tuple)
  }

  // ---------- the search as a function on shapes ----------

  /** The node with the tuple that the search meets, if any. */
  ghost function Find(s: Shape, t: FiveTuple): Node? {
    match s
    case Leaf => null
    case Branch(l, n, r) =>
      if n.tuple == t && n.scope == Scope(t) then n
      else if Scope(t) < n.scope then Find(l, t)
      else Find(r, t)
  }

  /** The last node on the search path for a scope. */
  ghost function Last(s: Shape, scope: int): Node?
  {
    match s
    case Leaf => null
    case Branch(l, n, r) =>
      var next := if scope < n.scope then l else r;
      if next.Leaf? then n else Last(next, scope)
  }

  /** The shape with z hung below the last node. */
  ghost function Attach(s: Shape, z: Node): Shape {
    match s
    case Leaf => Branch(Leaf, z, Leaf)
    case Branch(l, n, r) => if z.scope < n.scope then Branch(Attach(l, z), n, r) else Branch(l, n, Attach(r, z))
  }

  /** The search finds every tuple of the tree, although it looks at one path only. */
  lemma {:induction false} FindComplete(s: Shape, t: FiveTuple)
    requires Ordered(s)
    ensures Find(s, t) != null ==> Find(s, t) in Nodes(s) && Find(s, t).tuple == t
    ensures forall m :: m in Nodes(s) && m.tuple == t ==> Find(s, t) == m
  {
    match s
    case Leaf =>
    case Branch(l, n, r) =>
      FindComplete(l, t);
      FindComplete(r, t);
      forall m | m in Nodes(s) && m.tuple == t
        ensures Find(s, t) == m
      {
        ScopesFit(l);
        ScopesFit(r);
      }
  }

  lemma {:induction false} ScopesFit(s: Shape)
    requires Ordered(s)
    ensures forall m :: m in Nodes(s) ==> m.scope == Scope(m.tuple)
  {
    match s
    case Leaf =>
    case Branch(l, n, r) =>
      ScopesFit(l);
      ScopesFit(r);
  }

  lemma {:induction false} AttachNodes(s: Shape, z: Node)
    ensures Nodes(Attach(s, z)) == Nodes(s) + {z}
  {
    match s
    case Leaf =>
    case Branch(l, n, r) =>
      AttachNodes(l, z);
      AttachNodes(r, z);
  }

  lemma {:induction false} AttachOrdered(s: Shape, z: Node)
    requires Ordered(s) && z.scope == Scope(z.tuple)
    requires forall m :: m in Nodes(s) ==> m.tuple != z.tuple
    ensures Ordered(Attach(s, z))
  {
    match s
    case Leaf =>
    case Branch(l, n, r) =>
      AttachNodes(l, z);
      AttachNodes(r, z);
      if z.scope < n.scope { AttachOrdered(l, z); } else { AttachOrdered(r, z); }
  }

  // ---------- the inorder walk ----------

  /** x in front of the first element of larger scope. */
  ghost function InsertByScope(ns: seq<Node>, x: Node): seq<Node> {
    if ns == [] then [x]
    else if x.scope < ns[|ns| - 1].scope then InsertByScope(ns[..|ns| - 1], x) + [ns[|ns| - 1]]
    else ns + [x]
  }

  ghost predicate AllAbove(ns: seq<Node>, scope: int) {
    forall i :: 0 <= i < |ns| ==> scope < ns[i].scope
  }

  ghost predicate AllUpTo(ns: seq<Node>, scope: int) {
    forall i :: 0 <= i < |ns| ==> ns[i].scope <= scope
  }

  lemma {:induction false} InsertAtEnd(ns: seq<Node>, x: Node)
    requires ns != [] ==> ns[|ns| - 1].scope <= x.scope
    ensures InsertByScope(ns, x) == ns + [x]
  {
  }

  lemma {:induction false} InsertBefore(a: seq<Node>, b: seq<Node>, x: Node)
    requires AllAbove(b, x.scope)
    ensures InsertByScope(a + b, x) == InsertByScope(a, x) + b
  {
    if b == [] {
      assert a + b == a;
    } else {
      var b' := b[..|b| - 1];
      InsertBefore(a, b', x);
      assert (a + b)[..|a + b| - 1] == a + b';
      assert b == b' + [b[|b| - 1]];
    }
  }

  lemma {:induction false} InsertAfter(a: seq<Node>, b: seq<Node>, x: Node)
    requires AllUpTo(a, x.scope)
    ensures InsertByScope(a + b, x) == a + InsertByScope(b, x)
  {
    if b == [] {
      assert a + b == a;
      InsertAtEnd(a, x);
    } else {
      var b' := b[..|b| - 1];
      InsertAfter(a, b', x);
      assert (a + b)[..|a + b| - 1] == a + b';
      assert b == b' + [b[|b| - 1]];
    }
  }

  lemma {:induction false} InorderNodes(s: Shape)
    ensures forall i :: 0 <= i < |Inorder(s)| ==> Inorder(s)[i] in Nodes(s)
    ensures forall m :: m in Nodes(s) ==> m in Inorder(s)
  {
    match s
    case Leaf =>
    case Branch(l, n, r) =>
      InorderNodes(l);
      InorderNodes(r);
  }

  /** Hanging a node into the tree puts it behind all nodes of the same or a smaller scope. */
  lemma {:induction false} AttachInorder(s: Shape, z: Node)
    requires Ordered(s)
    ensures Inorder(Attach(s, z)) == InsertByScope(Inorder(s), z)
  {
    match s
    case Leaf =>
    case Branch(l, n, r) =>
      if z.scope < n.scope {
        AttachInorder(l, z);
        LargerInorder(n, r, z.scope);
        JoinLow(Inorder(l), n, Inorder(r), z);
      } else {
        AttachInorder(r, z);
        SmallerInorder(l, n, z.scope);
        InsertAfter(Inorder(l) + [n], Inorder(r), z);
      }
  }

  lemma {:induction false} LargerInorder(n: Node, r: Shape, scope: int)
    requires scope < n.scope && forall m :: m in Nodes(r) ==> n.scope <= m.scope
    ensures AllAbove([n] + Inorder(r), scope)
  {
    InorderNodes(r);
  }

  lemma {:induction false} SmallerInorder(l: Shape, n: Node, scope: int)
    requires n.scope <= scope && forall m :: m in Nodes(l) ==> m.scope < n.scope
    ensures AllUpTo(Inorder(l) + [n], scope)
  {
    InorderNodes(l);
  }

  lemma {:induction false} JoinLow(a: seq<Node>, n: Node, b: seq<Node>, z: Node)
    requires AllAbove([n] + b, z.scope)
    ensures InsertByScope(a + [n] + b, z) == InsertByScope(a, z) + [n] + b
  {
    InsertBefore(a, [n] + b, z);
    assert a + [n] + b == a + ([n] + b);
  }

  // ---------- the tree as an object ----------

  lemma {:induction false} LastIn(s: Shape, scope: int)
    requires s.Branch?
    ensures Last(s, scope) != null && Last(s, scope) in Nodes(s)
  {
    var next := if scope < s.node.scope then s.left else s.right;
    if next.Branch? { LastIn(next, scope); }
  }

  lemma {:induction false} SidesApart(s: Shape)
    requires s.Branch? && Ordered(s)
    ensures s.node !in Nodes(s.left) && s.node !in Nodes(s.right) && Nodes(s.left) !! Nodes(s.right)
  {
  }

  ghost predicate IsSub(sub: Shape, s: Shape) {
    sub == s || (s.Branch? && (IsSub(sub, s.left) || IsSub(sub, s.right)))
  }

  /** The child pointers of a node lead to the tops of its subtrees. */
  lemma {:induction false} SubLinks(sub: Shape, s: Shape)
    requires IsSub(sub, s) && sub.Branch? && Ordered(s)
    ensures sub.node in Nodes(s)
    ensures LeftOf(s, sub.node) == Top(sub.left) && RightOf(s, sub.node) == Top(sub.right)
    ensures Ordered(sub) && IsSub(sub.left, s) && IsSub(sub.right, s)
  {
    if sub != s {
      SidesApart(s);
      if IsSub(sub, s.left) { SubLinks(sub, s.left); } else { SubLinks(sub, s.right); }
    } else {
      assert IsSub(s.left, s.left) && IsSub(s.right, s.right);
    }
  }

  /** What hanging z into the tree does to the child pointers of node m. */
  ghost predicate LinksAfter(s: Shape, z: Node, m: Node) {
    var y := Last(s, z.scope);
    var s' := Attach(s, z);
    && LeftOf(s', m) == (if m == y && z.scope < m.scope then z else if m == z then null else LeftOf(s, m))
    && RightOf(s', m) == (if m == y && z.scope >= m.scope then z else if m == z then null else RightOf(s, m))
  }

  /** Hanging z into the tree changes one pointer, of the last node on the search path. */
  lemma {:induction false} AttachLinks(s: Shape, z: Node, m: Node)
    requires Ordered(s) && z !in Nodes(s) && (m == z || m in Nodes(s))
    ensures LinksAfter(s, z, m)
    decreases s, 1
  {
    if s.Branch? {
      if z.scope < s.node.scope {
        AttachLinksLeft(s, z, m);
      } else {
        AttachLinksRight(s, z, m);
      }
    }
  }

  lemma {:induction false} AttachLinksLeft(s: Shape, z: Node, m: Node)
    requires s.Branch? && Ordered(s) && z !in Nodes(s) && (m == z || m in Nodes(s)) && z.scope < s.node.scope
    ensures LinksAfter(s, z, m)
    decreases s, 0
  {
    SidesApart(s);
    AttachNodes(s.left, z);
    if s.left.Branch? { LastIn(s.left, z.scope); }
    if m == z || m in Nodes(s.left) { AttachLinks(s.left, z, m); }
  }

  lemma {:induction false} AttachLinksRight(s: Shape, z: Node, m: Node)
    requires s.Branch? && Ordered(s) && z !in Nodes(s) && (m == z || m in Nodes(s)) && z.scope >= s.node.scope
    ensures LinksAfter(s, z, m)
    decreases s, 0
  {
    SidesApart(s);
    AttachNodes(s.right, z);
    if s.right.Branch? { LastIn(s.right, z.scope); }
    if m == z || m in Nodes(s.right) { AttachLinks(s.right, z, m); }
  }

  /** The tree holds the created nodes, in the order of a stable sort by scope. */
  ghost predicate Coherent(s: Shape, created: seq<Node>) {
    && Ordered(s) && Inorder(s) == SortByScope(created)
    && (forall m :: m in created ==> m in Nodes(s))
    && (forall m :: m in Nodes(s) ==> m in created)
  }

  lemma {:induction false} CoherentGrows(s: Shape, created: seq<Node>, z: Node)
    requires Coherent(s, created) && z.scope == Scope(z.tuple)
    requires forall m :: m in Nodes(s) ==> m.tuple != z.tuple
    ensures Coherent(Attach(s, z), created + [z])
    ensures Nodes(Attach(s, z)) == Nodes(s) + {z}
  {
    AttachNodes(s, z);
    AttachOrdered(s, z);
    AttachInorder(s, z);
    assert (created + [z])[..|created|] == created;
  }

  class TupleBst {
    var root: Node?
    var n: nat
    var ptrIndex: nat
    ghost var shape: Shape
    ghost var nodes: set<Node>
    /** The nodes in the order in which their tuples were first inserted. */
    ghost var created: seq<Node>

    ghost predicate Linked()
      reads this`root, this`shape, this`nodes, nodes
    {
      && root == Top(shape) && nodes == Nodes(shape)
      && forall m :: m in nodes ==> m.left == LeftOf(shape, m) && m.right == RightOf(shape, m)
    }

    ghost predicate Valid()
      reads this`root, this`shape, this`nodes, this`created, this`n, nodes
    {
      Linked() && Coherent(shape, created) && |created| == n
    }

    constructor ()
      ensures Valid() && created == [] && ptrIndex == 0
    {
      root, n, ptrIndex, shape, nodes, created := null, 0, 0, Leaf, {}, [];
    }

    /** The search loop of Insert: the node with the tuple, or the last node on its path. */
    method Search(ftuple: FiveTuple) returns (found: bool, y: Node?)
      requires Valid()
      ensures if found then y != null && y in Nodes(shape) && y.tuple == ftuple && y.scope == Scope(ftuple)
              else y == Last(shape, Scope(ftuple)) && forall m :: m in Nodes(shape) ==> m.tuple != ftuple
    {
      var fscope := Scope(ftuple);
      y := null;
      var x := root;
      ghost var sub := shape;
      FindComplete(shape, ftuple);
      while x != null
        invariant IsSub(sub, shape) && x == Top(sub)
        invariant Find(sub, ftuple) == Find(shape, ftuple)
        invariant if sub.Leaf? then y == Last(shape, fscope) else Last(sub, fscope) == Last(shape, fscope)
        decreases sub
      {
        SubLinks(sub, shape);
        y := x;
        if fscope == x.scope && ftuple == x.tuple {
          return true, x;
        }
        if fscope < x.scope {
          x, sub := x.left, sub.left;
        } else {
          x, sub := x.right, sub.right;
        }
      }
      return false, y;
    }

    lemma NodesOfShape()
      requires Valid()
      ensures nodes == Nodes(shape) && Ordered(shape)
    {
    }

    lemma {:induction false} TuplesUnique(item: Node)
      requires Valid() && item in created
      ensures item in nodes
      ensures forall m :: m in created && m.tuple == item.tuple ==> m == item
    {
      FindComplete(shape, item.tuple);
    }

    /** Append to the list of a node. */
    method Append(item: Node, i: nat)
      requires Valid() && item in nodes
      modifies item`items
      ensures Valid() && item.items == old(item.items) + [i]
    {
      item.items := item.items + [i];
    }

    /** Link a new node below the last one on its search path. */
    method Hang(y: Node?, z: Node)
      requires Linked() && Ordered(shape) && y == Last(shape, z.scope)
      requires z !in Nodes(shape) && z.left == null && z.right == null
      modifies this`root, this`shape, this`nodes, nodes
      ensures Linked() && shape == Attach(old(shape), z) && nodes == old(nodes) + {z}
      ensures forall a :: 0 <= a < |created| ==> created[a].items == old(created[a].items)
    {
      if shape.Branch? { LastIn(shape, z.scope); }
      if y == null {
        root := z;
      } else if z.scope < y.scope {
        y.left := z;
      } else {
        y.right := z;
      }
      AttachNodes(shape, z);
      forall m | m in Nodes(Attach(shape, z))
        ensures LeftOf(Attach(shape, z), m) == m.left && RightOf(Attach(shape, z), m) == m.right
      {
        AttachLinks(shape, z, m);
      }
      shape := Attach(shape, z);
      nodes := nodes + {z};
    }

    /** The node that holds the list of filters of this tuple, created if there is none. */
    method Insert(ftuple: FiveTuple) returns (item: Node)
      requires Valid()
      modifies this, nodes
      ensures Valid() && ptrIndex == old(ptrIndex) && fresh(nodes - old(nodes))
      ensures item in created && item.tuple == ftuple && item.scope == Scope(ftuple)
      ensures if HasTuple(old(created), ftuple) then created == old(created)
              else fresh(item) && item.items == [] && created == old(created) + [item]
      ensures forall a :: 0 <= a < |old(created)| ==> created[a].items == old(created[a].items)
    {
      hide Linked, Ordered, Inorder, SortByScope, Last, Scope;
      var found, y := Search(ftuple);
      if found {
        return y;
      }
      item := Add(ftuple, y);
    }

    /** The second half of Insert, for a tuple that is not in the tree. */
    method Add(ftuple: FiveTuple, y: Node?) returns (z: Node)
      requires Valid() && y == Last(shape, Scope(ftuple)) && forall m :: m in Nodes(shape) ==> m.tuple != ftuple
      modifies this, nodes
      ensures Valid() && ptrIndex == old(ptrIndex) && fresh(nodes - old(nodes))
      ensures fresh(z) && z.tuple == ftuple && z.scope == Scope(ftuple) && z.items == []
      ensures created == old(created) + [z]
      ensures forall a :: 0 <= a < |old(created)| ==> created[a].items == old(created[a].items)
    {
      hide Ordered, Attach, Inorder, SortByScope, Last, Scope, Linked;
      NodesOfShape();
      z := new Node(ftuple);
      CoherentGrows(shape, created, z);
      Hang(y, z);
      n := n + 1;
      created := created + [z];
    }

    /** InorderTreeWalk: write the nodes of a subtree into the array, from ptrIndex on. */
    method InorderTreeWalk(p: Node?, ghost sub: Shape, lists: array<Node?>)
      requires Linked() && Ordered(shape) && IsSub(sub, shape) && p == Top(sub)
      requires ptrIndex + |Inorder(sub)| <= lists.Length
      modifies this`ptrIndex, lists
      ensures ptrIndex == old(ptrIndex) + |Inorder(sub)|
      ensures lists[..ptrIndex] == old(lists[..ptrIndex]) + Inorder(sub)
      decreases sub
    {
      if p != null {
        SubLinks(sub, shape);
        InorderTreeWalk(p.left, sub.left, lists);
        PutNext(p, lists);
        InorderTreeWalk(p.right, sub.right, lists);
        AppendAround(old(lists[..ptrIndex]), Inorder(sub.left), p, Inorder(sub.right));
      }
    }

    method PutNext(p: Node, lists: array<Node?>)
      requires ptrIndex < lists.Length
      modifies this`ptrIndex, lists
      ensures ptrIndex == old(ptrIndex) + 1 && lists[..ptrIndex] == old(lists[..ptrIndex]) + [p]
    {
      lists[ptrIndex] := p;
      ptrIndex := ptrIndex + 1;
    }

    /** GetTupleLists, to be called once: the nodes in the order of the stable sort. */
    method GetTupleLists() returns (lists: array<Node?>)
      requires Valid() && ptrIndex == 0
      modifies this`ptrIndex
      ensures Valid() && fresh(lists) && lists.Length == n == |created|
      ensures lists[..] == SortByScope(created)
    {
      lists := new Node?[n](_ => null);
      SortByScopeLength(created);
      InorderTreeWalk(root, shape, lists);
      assert lists[..] == lists[..ptrIndex];
    }
  }

  lemma {:induction false} AppendAround(done: seq<Node?>, l: seq<Node?>, p: Node?, r: seq<Node?>)
    ensures done + l + [p] + r == done + (l + [p] + r)
  {
  }

  ghost predicate HasTuple(ns: seq<Node>, t: FiveTuple) {
    exists i :: 0 <= i < |ns| && ns[i].tuple == t
  }

  /** The stable sort by scope: each node goes behind the earlier ones of the same scope. */
  ghost function SortByScope(ns: seq<Node>): seq<Node> {
    if ns == [] then [] else InsertByScope(SortByScope(ns[..|ns| - 1]), ns[|ns| - 1])
  }

  // ---------- what the order means ----------

  /** Strictly ordered by scope and, within a scope, by rank. */
  ghost predicate RankSorted(ns: seq<Node>, rank: Node -> int) {
    forall i, j :: 0 <= i < j < |ns| ==> Precedes(ns[i], ns[j], rank)
  }

  ghost predicate Precedes(x: Node, y: Node, rank: Node -> int) {
    x.scope < y.scope || (x.scope == y.scope && rank(x) < rank(y))
  }

  ghost predicate Increasing(ns: seq<Node>, rank: Node -> int) {
    forall i, j :: 0 <= i < j < |ns| ==> rank(ns[i]) < rank(ns[j])
  }

  lemma {:induction false} InsertKeeps(ns: seq<Node>, x: Node)
    ensures multiset(InsertByScope(ns, x)) == multiset(ns) + multiset{x}
  {
    if ns != [] {
      assert ns == ns[..|ns| - 1] + [ns[|ns| - 1]];
      if x.scope < ns[|ns| - 1].scope { InsertKeeps(ns[..|ns| - 1], x); }
    }
  }

  lemma {:induction false} InsertByScopeIs(ns: seq<Node>, x: Node, rank: Node -> int)
    requires RankSorted(ns, rank) && forall i :: 0 <= i < |ns| ==> rank(ns[i]) < rank(x)
    ensures RankSorted(InsertByScope(ns, x), rank)
  {
    if ns != [] {
      var rest, last := ns[..|ns| - 1], ns[|ns| - 1];
      assert ns == rest + [last];
      if x.scope < last.scope {
        InsertByScopeIs(rest, x, rank);
        InsertKeeps(rest, x);
        var s := InsertByScope(rest, x);
        forall i | 0 <= i < |s|
          ensures Precedes(s[i], last, rank)
        {
          assert s[i] in multiset(rest) + multiset{x};
        }
      } else {
        forall i | 0 <= i < |ns|
          ensures Precedes(ns[i], x, rank)
        {
          assert i < |ns| - 1 ==> Precedes(ns[i], last, rank);
        }
      }
    }
  }

  /** The walk's order is a permutation of the nodes, in nondecreasing scope, and nodes of
      equal scope keep the order in which they were created. */
  lemma {:induction false} SortByScopeIs(ns: seq<Node>, rank: Node -> int)
    requires Increasing(ns, rank)
    ensures multiset(SortByScope(ns)) == multiset(ns) && RankSorted(SortByScope(ns), rank)
  {
    if ns != [] {
      var rest, last := ns[..|ns| - 1], ns[|ns| - 1];
      SortByScopeIs(rest, rank);
      assert ns == rest + [last];
      var s := SortByScope(rest);
      forall i | 0 <= i < |s|
        ensures rank(s[i]) < rank(last)
      {
        assert s[i] in multiset(rest);
      }
      InsertKeeps(s, last);
      InsertByScopeIs(s, last, rank);
    }
  }

  lemma {:induction false} InsertByScopeLength(ns: seq<Node>, x: Node)
    ensures |InsertByScope(ns, x)| == |ns| + 1
  {
    if ns != [] && x.scope < ns[|ns| - 1].scope {
      InsertByScopeLength(ns[..|ns| - 1], x);
    }
  }

  lemma {:induction false} SortByScopeLength(ns: seq<Node>)
    ensures |SortByScope(ns)| == |ns|
  {
    if ns != [] {
      SortByScopeLength(ns[..|ns| - 1]);
      InsertByScopeLength(SortByScope(ns[..|ns| - 1]), ns[|ns| - 1]);
    }
  }
}
