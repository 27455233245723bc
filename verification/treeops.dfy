/** What the tree macros of kernel/malloc.c do to memory (2879-3016). */
module TreeOps {
  import opened Words
  import opened Tries
  import opened SmallOps

  // nodes lie at least 32 bytes apart, so their link words are distinct
  ghost predicate Clear32(x: int, y: int) { x == y || x + 32 <= y || y + 32 <= x }
  ghost predicate Spread(s: set<int>) { forall x, y {:trigger Clear32(x, y)} :: x in s && y in s ==> Clear32(x, y) }

  // ---- insertion ----

  // the stores that hang X on the word `slot` as a node of its own
  ghost function LeafStores(m: Mem, x: int, par: int, slot: int, idx: int): Mem {
    m[x + INDEX := idx][x + CHILD1 := 0][x + CHILD0 := 0][slot := x][x + PARENT := par][x + BK := x][x + FD := x]
  }
  lemma LeafSelf(m: Mem, x: int, par: int, slot: int, idx: int, s: int)
    requires slot < x + 8 || slot >= x + 32
    ensures InTree(LeafStores(m, x, par, slot, idx), Node([x], s, Nil, Nil), par, idx)
    ensures Fld(LeafStores(m, x, par, slot, idx), slot, 0) == x
  {}
  lemma LeafOther(m: Mem, x: int, par: int, slot: int, idx: int, y: int, o: int)
    requires x != y && Clear32(x, y) && 8 <= o < 32 && y + o != slot
    ensures Fld(LeafStores(m, x, par, slot, idx), y, o) == Fld(m, y, o)
  {}
  lemma LeafAt(m: Mem, t: Tree, d: bool, parent: int, idx: int, x: int, s: int)
    requires t.Node? && Kid(t, d).Nil? && InTree(m, t, parent, idx) && Proper(t)
    requires x !in Members(t) && Spread(Members(t) + {x})
    ensures InTree(LeafStores(m, x, Root(t), Root(t) + KidField(d), idx), WithKid(t, d, Node([x], s, Nil, Nil)), parent,
      idx)
  {
    var r, f := Root(t), KidField(d);
    var m' := LeafStores(m, x, r, r + f, idx);
    RootIn(t);
    assert Clear32(x, r);
    LeafSelf(m, x, r, r + f, idx, s);
    forall y, o | y in Members(t) && 8 <= o < 32 && !(y == r && o == f) ensures Fld(m', y, o) == Fld(m, y, o) {
      assert Clear32(x, y) && Clear32(y, r);
      LeafOther(m, x, r, r + f, idx, y, o);
    }
    assert forall y :: y in t.ring ==> y in Members(t);
    RingNodeFrame(m, m', t.ring, idx);
    InTreeFrame(m, m', Kid(t, !d), r, idx);
    assert Fld(m', r, f) == Fld(m', r + f, 0);
  }
  // the stores that chain X to the node T of its own size
  ghost function ChainStores(m: Mem, x: int, t: int, f: int, idx: int): Mem {
    m[x + INDEX := idx][x + CHILD1 := 0][x + CHILD0 := 0][f + BK := x][t + FD := x][x + FD := f][x + BK := t][x
      + PARENT := 0]
  }
  lemma ChainOther(m: Mem, x: int, t: int, f: int, idx: int, y: int, o: int)
    requires Clear32(x, y) && Clear32(t, y) && Clear32(f, y) && Clear32(x, t) && Clear32(x, f) && x != t && x != f
      && 8 <= o < 32
    ensures Fld(ChainStores(m, x, t, f, idx), y, o) ==
            if y == x then (if o == FD then f else if o == BK then t else if o == INDEX then idx else if o == PARENT
              || o == CHILD0 || o == CHILD1 then 0 else Fld(m, y, o))
            else if y == t && o == FD then x else if y == f && o == BK then x else Fld(m, y, o)
  {}
  lemma ChainWords(m: Mem, t: Tree, idx: int, x: int)
    requires Proper(t) && t.Node? && x !in Members(t) && Spread(Members(t) + {x})
    ensures var r, f := Root(t), Prv(t.ring, 0); var m' := ChainStores(m, x, r, f, idx);
      && (forall y, o :: y in Members(t) && 8 <= o < 32 ==>
            Fld(m', y, o) == if y == r && o == FD then x else if y == f && o == BK then x else Fld(m, y, o))
      && Fld(m', x, FD) == f && Fld(m', x, BK) == r && Fld(m', x, INDEX) == idx
      && Fld(m', x, PARENT) == 0 && Fld(m', x, CHILD0) == 0 && Fld(m', x, CHILD1) == 0
  {
    var r, f := Root(t), Prv(t.ring, 0);
    var m' := ChainStores(m, x, r, f, idx);
    RootIn(t);
    assert f in t.ring && f in Members(t);
    assert Clear32(x, r) && Clear32(x, f);
    forall y, o | y in Members(t) && 8 <= o < 32
      ensures Fld(m', y, o) == if y == r && o == FD then x else if y == f && o == BK then x else Fld(m, y, o)
    {
      assert Clear32(x, y) && Clear32(r, y) && Clear32(f, y);
      ChainOther(m, x, r, f, idx, y, o);
    }
    assert Clear32(x, x) && Clear32(r, x) && Clear32(f, x);
    ChainOther(m, x, r, f, idx, x, FD); ChainOther(m, x, r, f, idx, x, BK); ChainOther(m, x, r, f, idx, x, INDEX);
    ChainOther(m, x, r, f, idx, x, PARENT); ChainOther(m, x, r, f, idx, x, CHILD0);
      ChainOther(m, x, r, f, idx, x, CHILD1);
  }
  lemma ChainAt(m: Mem, t: Tree, parent: int, idx: int, x: int)
    requires t.Node? && InTree(m, t, parent, idx) && Proper(t)
    requires x !in Members(t) && Spread(Members(t) + {x})
    ensures InTree(ChainStores(m, x, Root(t), Prv(t.ring, 0), idx), t.(ring := t.ring + [x]), parent, idx)
  {
    var m' := ChainStores(m, x, Root(t), Prv(t.ring, 0), idx);
    ChainWords(m, t, idx, x);
    RootIn(t);
    ChainRing(m, m', t, parent, idx, x);
    ChainKids(m, m', t, x, parent, idx);
    assert (t.ring + [x])[0] == Root(t);
  }
  lemma ChainRing(m: Mem, m': Mem, t: Tree, parent: int, idx: int, x: int)
    requires t.Node? && InTree(m, t, parent, idx) && x !in t.ring
    requires forall y, o :: y in Members(t) && 8 <= o < 32 ==>
      Fld(m', y, o) == if y == Root(t) && o == FD then x else if y == Prv(t.ring, 0) && o == BK then x else Fld(m, y, o)
    requires Fld(m', x, FD) == Prv(t.ring, 0) && Fld(m', x, BK) == Root(t) && Fld(m', x, INDEX) == idx
    requires Fld(m', x, PARENT) == 0 && Fld(m', x, CHILD0) == 0 && Fld(m', x, CHILD1) == 0
    ensures RingNode(m', t.ring + [x], idx)
  {
    assert t.ring[|t.ring|-1] in t.ring;
    forall y | y in t.ring
      ensures Fld(m', y, FD) == if y == t.ring[0] then x else Fld(m, y, FD)
      ensures Fld(m', y, BK) == if y == Prv(t.ring, 0) then x else Fld(m, y, BK)
      ensures Fld(m', y, INDEX) == Fld(m, y, INDEX) && Fld(m', y, PARENT) == Fld(m, y, PARENT)
      ensures Fld(m', y, CHILD0) == Fld(m, y, CHILD0) && Fld(m', y, CHILD1) == Fld(m, y, CHILD1)
    { assert y in Members(t); }
    RingInsert(m, t.ring, x, m');
    assert (t.ring + [x])[0] == t.ring[0];
  }
  lemma ChainKids(m: Mem, m': Mem, t: Tree, x: int, parent: int, idx: int)
    requires t.Node? && InTree(m, t, parent, idx) && Proper(t)
    requires forall y, o :: y in Members(t) && 8 <= o < 32 ==>
      Fld(m', y, o) == if y == Root(t) && o == FD then x else if y == Prv(t.ring, 0) && o == BK then x else Fld(m, y, o)
    ensures InTree(m', t.left, t.ring[0], idx) && InTree(m', t.right, t.ring[0], idx)
  {
    RootIn(t);
    var f := Prv(t.ring, 0);
    assert f in t.ring;
    forall y, o | (y in Members(t.left) || y in Members(t.right)) && 8 <= o < 32 ensures Fld(m', y, o) == Fld(m, y, o) {
      assert y in Members(t) && y != f && y != Root(t);
    }
    InTreeFrame(m, m', t.left, t.ring[0], idx);
    InTreeFrame(m, m', t.right, t.ring[0], idx);
  }

  // ---- removal ----

  lemma UnlinkedOther(m: Mem, f: int, b: int, y: int, o: int)
    requires Clear32(f, y) && Clear32(b, y) && 8 <= o < 32
    ensures Fld(Unlinked(m, f, b), y, o)
      == if y == b && o == FD then f else if y == f && o == BK then b else Fld(m, y, o)
  {}
  lemma UnlinkedWords(m: Mem, n: Tree, k: int)
    requires n.Node? && Proper(n) && Spread(Members(n)) && 0 <= k < |n.ring|
    ensures var f, b := Prv(n.ring, k), Nxt(n.ring, k); var m' := Unlinked(m, f, b);
      forall y, o :: y in Members(n) && 8 <= o < 32 ==>
        Fld(m', y, o) == if y == b && o == FD then f else if y == f && o == BK then b else Fld(m, y, o)
  {
    var f, b := Prv(n.ring, k), Nxt(n.ring, k);
    assert f in n.ring && b in n.ring;
    forall y, o | y in Members(n) && 8 <= o < 32
      ensures Fld(Unlinked(m, f, b), y, o)
        == if y == b && o == FD then f else if y == f && o == BK then b else Fld(m, y, o)
    { assert Clear32(f, y) && Clear32(b, y); UnlinkedOther(m, f, b, y, o); }
  }
  // the k-th chunk leaves the ring of node n
  lemma RingOut(m: Mem, n: Tree, parent: int, idx: int, k: int)
    requires n.Node? && InTree(m, n, parent, idx) && Proper(n) && Spread(Members(n))
    requires 0 <= k < |n.ring| && |n.ring| > 1
    ensures var m' := Unlinked(m, Prv(n.ring, k), Nxt(n.ring, k));
      && Ring(m', Without(n.ring, k))
      && (forall y, o :: y in n.ring && 8 <= o < 32 && o != FD && o != BK ==> Fld(m', y, o) == Fld(m, y, o))
      && InTree(m', n.left, n.ring[0], idx) && InTree(m', n.right, n.ring[0], idx)
  {
    var f, b := Prv(n.ring, k), Nxt(n.ring, k);
    var m' := Unlinked(m, f, b);
    UnlinkedWords(m, n, k);
    forall y, o | y in n.ring && 8 <= o < 32
      ensures Fld(m', y, o) == if y == b && o == FD then f else if y == f && o == BK then b else Fld(m, y, o)
    { assert y in Members(n); }
    RingRemove(m, n.ring, k, m');
    RingKids(m, m', n, f, b, parent, idx);
  }
  lemma RingKids(m: Mem, m': Mem, n: Tree, f: int, b: int, parent: int, idx: int)
    requires n.Node? && InTree(m, n, parent, idx) && Proper(n) && f in n.ring && b in n.ring
    requires forall y, o :: y in Members(n) && 8 <= o < 32 ==>
      Fld(m', y, o) == if y == b && o == FD then f else if y == f && o == BK then b else Fld(m, y, o)
    ensures InTree(m', n.left, n.ring[0], idx) && InTree(m', n.right, n.ring[0], idx)
  {
    hide RingNode, Trie, Sizes;
    InTreeFrame(m, m', n.left, n.ring[0], idx);
    InTreeFrame(m, m', n.right, n.ring[0], idx);
  }
  lemma ChainOut(m: Mem, n: Tree, parent: int, idx: int, k: int)
    requires n.Node? && InTree(m, n, parent, idx) && Proper(n) && Spread(Members(n))
    requires 0 < k < |n.ring|
    ensures InTree(Unlinked(m, Prv(n.ring, k), Nxt(n.ring, k)), n.(ring := Without(n.ring, k)), parent, idx)
  {
    RingOut(m, n, parent, idx, k);
    var r := Without(n.ring, k);
    assert r[0] == n.ring[0];
    assert forall x :: x in r ==> x in n.ring;
  }
  lemma HeadOut(m: Mem, n: Tree, parent: int, idx: int)
    requires n.Node? && InTree(m, n, parent, idx) && Proper(n) && Spread(Members(n)) && |n.ring| > 1
    ensures var m' := Unlinked(m, Prv(n.ring, 0), n.ring[1]);
      && RingNode(m', n.ring[1..], idx) && Fld(m', n.ring[1], CHILD0) == 0 && Fld(m', n.ring[1], CHILD1) == 0
      && InTree(m', n.left, n.ring[0], idx) && InTree(m', n.right, n.ring[0], idx)
  {
    RingOut(m, n, parent, idx, 0);
    var r := n.ring[1..];
    assert Without(n.ring, 0) == r;
    assert n.ring[1] in r && r[0] == n.ring[1] != n.ring[0];
    assert forall x :: x in r ==> x in n.ring && x != n.ring[0];
  }
  // the replacement R takes over X's parent and children, and the word that pointed to X
  ghost function Adopt(m: Mem, r: int, off: int, c: int): Mem { if c != 0 then m[r + off := c][c + PARENT := r] else m }
  ghost function Relinked(m: Mem, slot: int, r: int, par: int, c0: int, c1: int): Mem {
    Adopt(Adopt(m[slot := r][r + PARENT := par], r, CHILD0, c0), r, CHILD1, c1)
  }
  ghost predicate ClearKid(r: int, c: int, y: int) { c != 0 ==> Clear32(c, y) && Clear32(r, c) && r != c }
  lemma AdoptOther(m: Mem, r: int, off: int, c: int, y: int, o: int)
    requires 8 <= o < 32 && 8 <= off < 32 && Clear32(r, y) && ClearKid(r, c, y)
    ensures Fld(Adopt(m, r, off, c), y, o)
      == if c != 0 && y == r && o == off then c else if c != 0 && y == c && o == PARENT then r else Fld(m, y, o)
  {}
  ghost function RelinkedFld(m: Mem, r: int, par: int, c0: int, c1: int, y: int, o: int): int {
    if y == r && o == CHILD0 && c0 != 0 then c0
    else if y == r && o == CHILD1 && c1 != 0 then c1
    else if y == r && o == PARENT then par
    else if o == PARENT && ((c0 != 0 && y == c0) || (c1 != 0 && y == c1)) then r
    else Fld(m, y, o)
  }
  lemma RelinkedOther(m: Mem, slot: int, r: int, par: int, c0: int, c1: int, y: int, o: int)
    requires 8 <= o < 32 && Clear32(r, y) && ClearKid(r, c0, y) && ClearKid(r, c1, y) && slot != y + o
    ensures Fld(Relinked(m, slot, r, par, c0, c1), y, o) == RelinkedFld(m, r, par, c0, c1, y, o)
  {
    var m1 := m[slot := r][r + PARENT := par];
    AdoptOther(m1, r, CHILD0, c0, y, o);
    AdoptOther(Adopt(m1, r, CHILD0, c0), r, CHILD1, c1, y, o);
  }
  lemma ReParent(m: Mem, m': Mem, t: Tree, p: int, p': int, idx: int)
    requires InTree(m, t, p, idx) && Proper(t)
    requires forall y, o ::
               y in Members(t) && 8 <= o < 32 && !(y == Root(t) && o == PARENT) ==> Fld(m', y, o) == Fld(m, y, o)
    requires t.Node? ==> Fld(m', Root(t), PARENT) == p'
    ensures InTree(m', t, p', idx)
  {
    if t.Node? {
      RootIn(t);
      assert forall x :: x in t.ring ==> x in Members(t);
      RingFrame(m, t.ring, m');
      InTreeFrame(m, m', t.left, Root(t), idx);
      InTreeFrame(m, m', t.right, Root(t), idx);
    }
  }
  // the replacement n takes over the place and the children of x
  lemma Relink(m: Mem, slot: int, n: Tree, x: int, parent: int, idx: int)
    requires n.Node? && Proper(n) && Spread(Members(n)) && 0 !in Members(n)
    requires RingNode(m, n.ring, idx) && Fld(m, Root(n), CHILD0) == 0 && Fld(m, Root(n), CHILD1) == 0
    requires InTree(m, n.left, x, idx) && InTree(m, n.right, x, idx)
    requires forall y :: y in Members(n) ==> slot < y + 8 || y + 32 <= slot
    ensures InTree(Relinked(m, slot, Root(n), parent, Root(n.left), Root(n.right)), n, parent, idx)
  {
    var r, c0, c1 := Root(n), Root(n.left), Root(n.right);
    var m' := Relinked(m, slot, r, parent, c0, c1);
    RootIn(n);
    if n.left.Node? { RootIn(n.left); }
    if n.right.Node? { RootIn(n.right); }
    forall y, o | y in Members(n) && 8 <= o < 32 ensures Fld(m', y, o) == RelinkedFld(m, r, parent, c0, c1, y, o) {
      assert Clear32(r, y);
      if c0 != 0 { assert c0 in Members(n) && Clear32(c0, y) && Clear32(r, c0); }
      if c1 != 0 { assert c1 in Members(n) && Clear32(c1, y) && Clear32(r, c1); }
      RelinkedOther(m, slot, r, parent, c0, c1, y, o);
    }
    RelinkParts(m, m', n, x, parent, idx);
  }
  lemma RelinkParts(m: Mem, m': Mem, n: Tree, x: int, parent: int, idx: int)
    requires n.Node? && Proper(n) && 0 !in Members(n)
    requires RingNode(m, n.ring, idx) && Fld(m, Root(n), CHILD0) == 0 && Fld(m, Root(n), CHILD1) == 0
    requires InTree(m, n.left, x, idx) && InTree(m, n.right, x, idx)
    requires forall y, o :: y in Members(n) && 8 <= o < 32 ==>
      Fld(m', y, o) == RelinkedFld(m, Root(n), parent, Root(n.left), Root(n.right), y, o)
    ensures InTree(m', n, parent, idx)
  {
    hide RingNode;
    var r, c0, c1 := Root(n), Root(n.left), Root(n.right);
    RootIn(n);
    if n.left.Node? { RootIn(n.left); }
    if n.right.Node? { RootIn(n.right); }
    ReParent(m, m', n.left, x, r, idx);
    ReParent(m, m', n.right, x, r, idx);
    assert forall y :: y in n.ring ==> y in Members(n) && y != c0 && y != c1;
    RelinkRing(m, m', n.ring, parent, c0, c1, idx);
  }
  lemma RelinkRing(m: Mem, m': Mem, ring: seq<int>, parent: int, c0: int, c1: int, idx: int)
    requires RingNode(m, ring, idx) && |ring| > 0 && forall y :: y in ring ==> y != c0 && y != c1
    requires forall y, o :: y in ring && 8 <= o < 32 ==> Fld(m', y, o) == RelinkedFld(m, ring[0], parent, c0, c1, y, o)
    ensures RingNode(m', ring, idx)
  {
    RingFrame(m, ring, m');
  }
  lemma RelinkedSlot(m: Mem, slot: int, r: int, par: int, c0: int, c1: int)
    requires slot < r + 8 || r + 32 <= slot
    requires (c0 != 0 ==> slot < c0 + 8 || c0 + 32 <= slot) && (c1 != 0 ==> slot < c1 + 8 || c1 + 32 <= slot)
    ensures Fld(Relinked(m, slot, r, par, c0, c1), slot, 0) == r
  {}
}
