/** The profiler's search tree of function symbols against a scan of all symbols. */
module SymbolTree {

  const WORD := 0x1_0000_0000

  datatype Sym = Sym(value: nat, size: nat)

  datatype Option<T> = None | Some(value: T)

  /** The address after the function, truncated to a word. */
  function End(s: Sym): nat {
    (s.value + s.size) % WORD
  }

  predicate IsMatch(s: Sym, addr: nat) {
    s.value <= addr < End(s)
  }

  /** The truncated test is the range test unless the range reaches the end of the address space. */
  lemma MatchIsRange(s: Sym)
    requires s.value < WORD && s.size < WORD
    ensures (forall a: nat :: IsMatch(s, a) <==> s.value <= a < s.value + s.size) <==> s.value + s.size < WORD || s.size == 0
  {
    assert s.size > 0 ==> s.value <= s.value < s.value + s.size;
    if s.value + s.size >= WORD {
      assert End(s) == s.value + s.size - WORD;
      assert !IsMatch(s, s.value);
    }
  }

  // ---------- The tree as a value ----------

  datatype Tree = Leaf | Node(sym: Sym, left: Tree, right: Tree)

  function Insert(t: Tree, s: Sym): Tree {
    match t
    case Leaf => Node(s, Leaf, Leaf)
    case Node(x, l, r) => if s.value < x.value then Node(x, Insert(l, s), r) else Node(x, l, Insert(r, s))
  }

  function Find(t: Tree, addr: nat): Option<Sym> {
    match t
    case Leaf => None
    case Node(x, l, r) => if IsMatch(x, addr) then Some(x) else if addr < x.value then Find(l, addr) else Find(r, addr)
  }

  /** The tree after adding the symbols in order. */
  function Build(order: seq<Sym>): Tree {
    if order == [] then Leaf else Insert(Build(order[..|order| - 1]), order[|order| - 1])
  }

  function Elems(t: Tree): set<Sym> {
    match t
    case Leaf => {}
    case Node(x, l, r) => {x} + Elems(l) + Elems(r)
  }

  /** Smaller start addresses to the left, equal and larger ones to the right. */
  ghost predicate Ordered(t: Tree) {
    match t
    case Leaf => true
    case Node(x, l, r) =>
      && (forall s :: s in Elems(l) ==> s.value < x.value)
      && (forall s :: s in Elems(r) ==> x.value <= s.value)
      && Ordered(l) && Ordered(r)
  }

  lemma {:induction false} InsertAdds(t: Tree, s: Sym)
    ensures Elems(Insert(t, s)) == Elems(t) + {s}
  {
    if t.Node? {
      if s.value < t.sym.value { InsertAdds(t.left, s); } else { InsertAdds(t.right, s); }
    }
  }

  lemma {:induction false} InsertOrdered(t: Tree, s: Sym)
    requires Ordered(t)
    ensures Ordered(Insert(t, s))
  {
    if t.Node? {
      if s.value < t.sym.value {
        InsertOrdered(t.left, s);
        InsertAdds(t.left, s);
      } else {
        InsertOrdered(t.right, s);
        InsertAdds(t.right, s);
      }
    }
  }

  lemma {:induction false} BuildGood(order: seq<Sym>)
    ensures Ordered(Build(order)) && forall s :: s in Elems(Build(order)) <==> s in order
  {
    if order != [] {
      var init, last := order[..|order| - 1], order[|order| - 1];
      BuildGood(init);
      InsertOrdered(Build(init), last);
      InsertAdds(Build(init), last);
      assert order == init + [last];
    }
  }

  lemma {:induction false} FindSound(t: Tree, addr: nat)
    ensures Find(t, addr).Some? ==> Find(t, addr).value in Elems(t) && IsMatch(Find(t, addr).value, addr)
  {
    if t.Node? {
      FindSound(t.left, addr);
      FindSound(t.right, addr);
    }
  }

  /** No symbol starts between the start of `s` and the address. */
  ghost predicate Nearest(xs: set<Sym>, s: Sym, addr: nat) {
    forall u :: u in xs && u.value <= addr ==> u.value <= s.value
  }

  /** A matching symbol with the nearest start is never missed. */
  lemma {:induction false} FindNearest(t: Tree, s: Sym, addr: nat)
    requires Ordered(t) && s in Elems(t) && IsMatch(s, addr) && Nearest(Elems(t), s, addr)
    ensures Find(t, addr).Some?
  {
    if !IsMatch(t.sym, addr) {
      if addr < t.sym.value {
        FindNearest(t.left, s, addr);
      } else {
        FindNearest(t.right, s, addr);
      }
    }
  }

  // ---------- The tree against a scan, over every insertion order ----------

  ghost predicate Covered(syms: seq<Sym>, addr: nat) {
    exists s :: s in syms && IsMatch(s, addr)
  }

  ghost predicate NearestIn(syms: seq<Sym>, s: Sym, addr: nat) {
    forall u :: u in syms && u.value <= addr ==> u.value <= s.value
  }

  ghost predicate HasNearestMatch(syms: seq<Sym>, addr: nat) {
    exists s :: s in syms && IsMatch(s, addr) && NearestIn(syms, s, addr)
  }

  /** Wherever a symbol covers an address, one with the nearest start does. */
  ghost predicate Separable(syms: seq<Sym>) {
    forall a: nat :: Covered(syms, a) ==> HasNearestMatch(syms, a)
  }

  ghost predicate AgreesWithScan(syms: seq<Sym>, order: seq<Sym>, addr: nat) {
    Find(Build(order), addr).Some? <==> Covered(syms, addr)
  }

  lemma SameMembers(xs: seq<Sym>, ys: seq<Sym>)
    requires multiset(xs) == multiset(ys)
    ensures forall s :: s in xs <==> s in ys
  {
    assert forall s :: s in xs <==> s in multiset(xs);
    assert forall s :: s in ys <==> s in multiset(ys);
  }

  /** What the tree returns is always a symbol that matches. */
  lemma {:induction false} FoundIsSymbol(order: seq<Sym>, addr: nat)
    ensures Find(Build(order), addr).Some? ==> Find(Build(order), addr).value in order && IsMatch(Find(Build(order), addr).value, addr)
  {
    FindSound(Build(order), addr);
    BuildGood(order);
  }

  lemma {:induction false} SeparableAgrees(syms: seq<Sym>, order: seq<Sym>, addr: nat)
    requires Separable(syms) && multiset(order) == multiset(syms)
    ensures AgreesWithScan(syms, order, addr)
  {
    SameMembers(order, syms);
    BuildGood(order);
    FoundIsSymbol(order, addr);
    if Covered(syms, addr) {
      var s :| s in syms && IsMatch(s, addr) && NearestIn(syms, s, addr);
      FindNearest(Build(order), s, addr);
    }
  }

  /** Later symbols never displace the first one from the root. */
  lemma {:induction false} RootIsFirst(x: Sym, rest: seq<Sym>)
    ensures Build([x] + rest).Node? && Build([x] + rest).sym == x
  {
    var order := [x] + rest;
    if rest == [] {
      assert order[..0] == [];
    } else {
      assert order[..|order| - 1] == [x] + rest[..|rest| - 1];
      RootIsFirst(x, rest[..|rest| - 1]);
    }
  }

  /** A nearest symbol that does not match hides every other one when it is added first. */
  lemma {:induction false} NearestHides(x: Sym, rest: seq<Sym>, addr: nat)
    requires x.value <= addr && NearestIn([x] + rest, x, addr) && !HasNearestMatch([x] + rest, addr)
    ensures Find(Build([x] + rest), addr).None?
  {
    var syms := [x] + rest;
    var t := Build(syms);
    RootIsFirst(x, rest);
    BuildGood(syms);
    assert x in syms;
    FindSound(t.right, addr);
    assert forall s :: s in syms && s.value == x.value ==> NearestIn(syms, s, addr);
  }

  lemma {:induction false} SomeNearest(syms: seq<Sym>, addr: nat) returns (k: nat)
    requires exists s :: s in syms && s.value <= addr
    ensures k < |syms| && syms[k].value <= addr && NearestIn(syms, syms[k], addr)
  {
    var s :| s in syms && s.value <= addr;
    k :| k < |syms| && syms[k] == s;
    var i := 0;
    while i < |syms|
      invariant i <= |syms| && k < |syms| && syms[k].value <= addr
      invariant forall j :: 0 <= j < i && syms[j].value <= addr ==> syms[j].value <= syms[k].value
    {
      if syms[k].value < syms[i].value <= addr { k := i; }
      i := i + 1;
    }
  }

  /** If an address is covered only by symbols that start further away, some order hides it. */
  lemma {:induction false} InseparableMisses(syms: seq<Sym>, addr: nat) returns (order: seq<Sym>)
    requires Covered(syms, addr) && !HasNearestMatch(syms, addr)
    ensures multiset(order) == multiset(syms) && !AgreesWithScan(syms, order, addr)
  {
    var s :| s in syms && IsMatch(s, addr);
    assert s.value <= addr;
    var k := SomeNearest(syms, addr);
    var rest := syms[..k] + syms[k + 1..];
    order := [syms[k]] + rest;
    assert syms == syms[..k] + [syms[k]] + syms[k + 1..];
    assert multiset(order) == multiset(syms);
    SameMembers(order, syms);
    assert forall u :: NearestIn(order, u, addr) ==> NearestIn(syms, u, addr);
    NearestHides(syms[k], rest, addr);
  }

  /** Lookup agrees with the scan for every insertion order exactly when the symbols are separable. */
  lemma {:induction false} LookupAgreesIff(syms: seq<Sym>)
    ensures Separable(syms) <==>
      forall order: seq<Sym>, a: nat :: multiset(order) == multiset(syms) ==> AgreesWithScan(syms, order, a)
  {
    if Separable(syms) {
      forall order: seq<Sym>, a: nat | multiset(order) == multiset(syms) ensures AgreesWithScan(syms, order, a) {
        SeparableAgrees(syms, order, a);
      }
    } else {
      var a: nat :| Covered(syms, a) && !HasNearestMatch(syms, a);
      var order := InseparableMisses(syms, a);
    }
  }

  /** Symbols none of which starts strictly inside another are separable. */
  lemma DisjointStartsSeparable(syms: seq<Sym>)
    requires forall s, u :: s in syms && u in syms && s.value < u.value ==> !IsMatch(s, u.value)
    ensures Separable(syms)
  {
    forall a: nat | Covered(syms, a) ensures HasNearestMatch(syms, a) {
      var s :| s in syms && IsMatch(s, a);
      forall u | u in syms && u.value <= a ensures u.value <= s.value {
        assert s.value < u.value ==> IsMatch(s, u.value);
      }
      assert NearestIn(syms, s, a);
    }
  }

  // ---------- The linked nodes ----------

  class SymNode {
    const sym: Sym
    var left: SymNode?
    var right: SymNode?

    constructor (s: Sym)
      ensures sym == s && left == null && right == null
    {
      sym, left, right := s, null, null;
    }
  }

  /** The nodes reachable from a pointer, as a tree. */
  datatype Shape = Empty | Branch(node: SymNode, left: Shape, right: Shape)

  function Nodes(h: Shape): set<SymNode> {
    match h
    case Empty => {}
    case Branch(n, l, r) => {n} + Nodes(l) + Nodes(r)
  }

  /** The pointer leads to exactly these nodes, linked as in the shape, without sharing. */
  ghost predicate Linked(p: SymNode?, h: Shape)
    reads Nodes(h)
    decreases h
  {
    match h
    case Empty => p == null
    case Branch(n, l, r) =>
      && p == n && n !in Nodes(l) && n !in Nodes(r) && Nodes(l) !! Nodes(r)
      && Linked(n.left, l) && Linked(n.right, r)
  }

  function AsTree(h: Shape): Tree {
    match h
    case Empty => Leaf
    case Branch(n, l, r) => Node(n.sym, AsTree(l), AsTree(r))
  }

  /** The shape after hanging a new node where its symbol belongs. */
  ghost function Grown(h: Shape, n: SymNode): Shape {
    match h
    case Empty => Branch(n, Empty, Empty)
    case Branch(m, l, r) => if n.sym.value < m.sym.value then Branch(m, Grown(l, n), r) else Branch(m, l, Grown(r, n))
  }

  /** The last node an insertion passes. */
  ghost function Parent(h: Shape, s: Sym): (p: SymNode)
    requires h.Branch?
    ensures p in Nodes(h)
  {
    if s.value < h.node.sym.value then (if h.left.Branch? then Parent(h.left, s) else h.node)
    else (if h.right.Branch? then Parent(h.right, s) else h.node)
  }

  lemma {:induction false} GrownNodes(h: Shape, n: SymNode)
    ensures Nodes(Grown(h, n)) == Nodes(h) + {n} && AsTree(Grown(h, n)) == Insert(AsTree(h), n.sym)
  {
    if h.Branch? {
      if n.sym.value < h.node.sym.value { GrownNodes(h.left, n); } else { GrownNodes(h.right, n); }
    }
  }

  /** The links of some nodes, as they were at one moment. */
  datatype Links = Links(left: map<SymNode, SymNode?>, right: map<SymNode, SymNode?>)

  /** As Linked, for recorded links. */
  ghost predicate LinkedBy(k: Links, p: SymNode?, h: Shape) {
    match h
    case Empty => p == null
    case Branch(n, l, r) =>
      && p == n && n !in Nodes(l) && n !in Nodes(r) && Nodes(l) !! Nodes(r) && n in k.left && n in k.right
      && LinkedBy(k, k.left[n], l) && LinkedBy(k, k.right[n], r)
  }

  /** The node's links are the recorded ones. */
  ghost predicate Agrees(k: Links, m: SymNode)
    reads m
  {
    m in k.left && m in k.right && k.left[m] == m.left && k.right[m] == m.right
  }

  lemma {:induction false} RecordedLinks(k: Links, p: SymNode?, h: Shape)
    requires forall m :: m in Nodes(h) ==> Agrees(k, m)
    ensures LinkedBy(k, p, h) <==> Linked(p, h)
    decreases h
  {
    if h.Branch? {
      assert Agrees(k, h.node);
      RecordedLinks(k, h.node.left, h.left);
      RecordedLinks(k, h.node.right, h.right);
    }
  }

  /** The new node hangs below its parent, on the side its symbol belongs. */
  ghost predicate Hung(k: Links, q: SymNode, n: SymNode)
    reads q
  {
    && q in k.left && q in k.right
    && q.left == (if n.sym.value < q.sym.value then n else k.left[q])
    && q.right == (if n.sym.value < q.sym.value then k.right[q] else n)
  }

  /** Linking a fresh node below its parent, and nothing else, grows the structure by that node. */
  lemma {:induction false} LinkGrows(k: Links, p: SymNode?, h: Shape, n: SymNode)
    requires h.Branch? && LinkedBy(k, p, h) && n !in Nodes(h) && n.left == null && n.right == null
    requires forall m :: m in Nodes(h) - {Parent(h, n.sym)} ==> Agrees(k, m)
    requires Hung(k, Parent(h, n.sym), n)
    ensures Linked(p, Grown(h, n))
    decreases h
  {
    if n.sym.value < h.node.sym.value {
      GrownNodes(h.left, n);
      RecordedLinks(k, k.right[h.node], h.right);
      if h.left.Branch? {
        LinkGrows(k, k.left[h.node], h.left, n);
        assert Agrees(k, h.node);
      }
    } else {
      GrownNodes(h.right, n);
      RecordedLinks(k, k.left[h.node], h.left);
      if h.right.Branch? {
        LinkGrows(k, k.right[h.node], h.right, n);
        assert Agrees(k, h.node);
      }
    }
  }

  lemma {:induction false} NodesAllocated(h: Shape)
    ensures forall m :: m in Nodes(h) ==> allocated(m)
  {
    if h.Branch? {
      NodesAllocated(h.left);
      NodesAllocated(h.right);
    }
  }

  /** Go down from the root and link the node at the first free place. */
  method Hang(root: SymNode, ghost h: Shape, node: SymNode)
    requires Linked(root, h) && node !in Nodes(h) && node.left == null && node.right == null
    modifies Nodes(h)
    ensures Linked(root, Grown(h, node))
  {
    ghost var links := Links(map m | m in Nodes(h) :: m.left, map m | m in Nodes(h) :: m.right);
    RecordedLinks(links, root, h);
    var leaf := root;
    ghost var sub := h;
    while true
      invariant sub.Branch? && Linked(leaf, sub) && Nodes(sub) <= Nodes(h)
      invariant Parent(sub, node.sym) == Parent(h, node.sym)
      invariant node.left == null && node.right == null && forall m :: m in Nodes(h) ==> Agrees(links, m)
      decreases sub
    {
      if node.sym.value < leaf.sym.value {
        if leaf.left == null {
          leaf.left := node;
          break;
        } else {
          leaf := leaf.left;
          sub := sub.left;
        }
      } else {
        if leaf.right == null {
          leaf.right := node;
          break;
        } else {
          leaf := leaf.right;
          sub := sub.right;
        }
      }
    }
    LinkGrows(links, root, h, node);
  }

  class SymTable {
    var root: SymNode?
    ghost var shape: Shape

    ghost predicate Valid()
      reads this, Nodes(shape)
    {
      Linked(root, shape)
    }

    ghost function Contents(): Tree
      reads this
    {
      AsTree(shape)
    }

    constructor ()
      ensures Valid() && Contents() == Leaf && shape == Empty
    {
      root, shape := null, Empty;
    }

    method AddSym(s: Sym)
      requires Valid()
      modifies this, Nodes(shape)
      ensures Valid() && Contents() == Insert(old(Contents()), s)
      ensures fresh(Nodes(shape) - old(Nodes(shape)))
    {
      NodesAllocated(shape);
      var node := new SymNode(s);
      GrownNodes(shape, node);
      if root == null {
        root := node;
      } else {
        Hang(root, shape, node);
      }
      shape := Grown(shape, node);
    }

    method Lookup(addr: nat) returns (r: Option<Sym>)
      requires Valid()
      ensures r == Find(Contents(), addr)
    {
      var node := root;
      ghost var sub := shape;
      while node != null
        invariant Linked(node, sub) && Find(AsTree(sub), addr) == Find(Contents(), addr)
        decreases sub
      {
        if IsMatch(node.sym, addr) {
          return Some(node.sym);
        } else if addr < node.sym.value {
          node := node.left;
          sub := sub.left;
        } else {
          node := node.right;
          sub := sub.right;
        }
      }
      return None;
    }
  }
}
