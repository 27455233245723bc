/** unlink_large_chunk (kernel/malloc.c:2930-3016) on one tree: every way a chunk can leave it. */
module TreeCuts {
  import opened Words
  import opened Tries
  import opened SmallOps
  import opened TreeOps
  import opened TreeBins

  // a tree in memory, hung on the bin header word at h
  ghost predicate Rooted(m: Mem, t: Tree, h: int, idx: int) {
    && InTree(m, t, h, idx) && Fld(m, h, 0) == Root(t)
    && Proper(t) && Uniq(t) && Spread(Members(t)) && 0 !in Members(t)
    && (forall y :: y in Members(t) ==> h + 4 <= y)
  }
  ghost predicate At(t: Tree, n: Tree) { n.Node? && n.size in Sizes(t) && Sub(t, n.size) == n }
  ghost function SlotAddr(t: Tree, s: int, h: int): int
    requires s in Sizes(t)
  {
    Slot(t, s, (h, 0)).0 + Slot(t, s, (h, 0)).1
  }

  // stores that only reach the link words of the tree
  ghost predicate InNode(s: set<int>, y: int, a: int) { y in s && y + 8 <= a < y + 32 }
  ghost predicate OnlyLinks(m: Mem, m': Mem, s: set<int>, h: int) {
    forall a {:trigger Fld(m', a, 0)} :: Fld(m', a, 0) != Fld(m, a, 0) ==> a == h || exists y :: InNode(s, y, a)
  }
  lemma OneLink(m: Mem, m1: Mem, s: set<int>, h: int, y: int, o: int, v: int)
    requires OnlyLinks(m, m1, s, h) && y in s && 8 <= o < 32
    ensures OnlyLinks(m, m1[y + o := v], s, h)
  {
    assert InNode(s, y, y + o);
    OneWord(m, m1, s, h, y + o, v);
  }
  lemma OneWord(m: Mem, m1: Mem, s: set<int>, h: int, b: int, v: int)
    requires OnlyLinks(m, m1, s, h) && (b == h || exists y :: InNode(s, y, b))
    ensures OnlyLinks(m, m1[b := v], s, h)
  {
    forall a | Fld(m1[b := v], a, 0) != Fld(m, a, 0) ensures a == h || exists y :: InNode(s, y, a) {
      assert a == b || Fld(m1[b := v], a, 0) == Fld(m1, a, 0);
    }
  }

  lemma NodePlace(m: Mem, t: Tree, h: int, idx: int, n: Tree)
    requires Rooted(m, t, h, idx) && At(t, n)
    ensures InTree(m, n, Parent(t, n.size, h), idx) && Proper(n) && Uniq(n) && Distinct(n.ring)
    ensures Members(n) <= Members(t) && Spread(Members(n))
    ensures forall y :: y in Others(t, n.size) ==> y in Members(t) && y !in Members(n)
  {
    SubSizes(t, n.size); SubInTree(m, t, n.size, h, (h, 0), idx); SubProper(t, n.size); SubUniq(t, n.size);
    SpreadSub(Members(t), Members(n));
    OthersApart(t, n.size);
  }
  // the word that points to the node: the header, or a child field of a node above
  lemma SlotPlace(m: Mem, t: Tree, h: int, idx: int, n: Tree)
    requires Rooted(m, t, h, idx) && At(t, n)
    ensures var a := SlotAddr(t, n.size, h);
      && Fld(m, a, 0) == Root(n)
      && (forall y :: y in Members(n) ==> a < y + 8 || y + 32 <= a)
      && (n.size == t.size ==> a == h)
      && (n.size != t.size ==> h < a && exists y :: InNode(Members(t), y, a))
  {
    if n.size != t.size { SlotBelow(m, t, h, idx, n); } else { assert t == n; }
  }
  lemma SlotBelow(m: Mem, t: Tree, h: int, idx: int, n: Tree)
    requires InTree(m, t, h, idx) && Proper(t) && Spread(Members(t)) && At(t, n) && n.size != t.size
      && forall y :: y in Members(t) ==> h + 4 <= y
    ensures var a := SlotAddr(t, n.size, h);
      Fld(m, a, 0) == Root(n) && h < a && InNode(Members(t), Slot(t, n.size, (h, 0)).0, a)
        && forall y :: y in Members(n) ==> a < y + 8 || y + 32 <= a
  {
    hide InTree, Others, Members, Proper, Spread;
    var sl := Slot(t, n.size, (h, 0));
    SubInTree(m, t, n.size, h, (h, 0), idx);
    SlotIn(t, n.size, (h, 0));
    SlotFar(t, h, n, sl);
  }
  lemma SlotFar(t: Tree, h: int, n: Tree, sl: (int, int))
    requires Proper(t) && Spread(Members(t)) && At(t, n) && sl.0 in Others(t, n.size)
      && (sl.1 == CHILD0 || sl.1 == CHILD1)
    ensures forall y :: y in Members(n) ==> sl.0 + sl.1 < y + 8 || y + 32 <= sl.0 + sl.1
  {
    OthersApart(t, n.size); SubSizes(t, n.size);
    forall y | y in Members(n) ensures sl.0 + sl.1 < y + 8 || y + 32 <= sl.0 + sl.1 { assert Clear32(sl.0, y); }
  }
  lemma SlotWord(m: Mem, t: Tree, h: int, idx: int, n: Tree, y: int, o: int)
    requires Rooted(m, t, h, idx) && At(t, n) && y in Others(t, n.size) && 8 <= o < 32
      && (y, o) != Slot(t, n.size, (h, 0))
    ensures y + o != SlotAddr(t, n.size, h)
  {
    var sl := Slot(t, n.size, (h, 0));
    OthersApart(t, n.size);
    if n.size != t.size { SlotIn(t, n.size, (h, 0)); assert Clear32(sl.0, y); }
  }
  lemma SwapIn(m: Mem, m': Mem, t: Tree, h: int, idx: int, n: Tree, n': Tree)
    requires Rooted(m, t, h, idx) && At(t, n)
    requires InTree(m', n', Parent(t, n.size, h), idx) && Fld(m', SlotAddr(t, n.size, h), 0) == Root(n')
    requires forall y, o ::
               y in Others(t, n.size) && 8 <= o < 32 && y + o != SlotAddr(t, n.size, h)
               ==> Fld(m', y, o) == Fld(m, y, o)
    requires n.size != t.size ==> Fld(m', h, 0) == Fld(m, h, 0)
    ensures InTree(m', Put(t, n.size, n'), h, idx) && Fld(m', h, 0) == Root(Put(t, n.size, n'))
  {
    hide InTree, Others, Members, Uniq, Spread, Sub;
    SwapSame(m, m', t, h, idx, n);
    PutInTree(m, m', t, n.size, n', h, (h, 0), idx);
  }
  lemma SwapSame(m: Mem, m': Mem, t: Tree, h: int, idx: int, n: Tree)
    requires Rooted(m, t, h, idx) && At(t, n)
    requires forall y, o ::
               y in Others(t, n.size) && 8 <= o < 32 && y + o != SlotAddr(t, n.size, h)
               ==> Fld(m', y, o) == Fld(m, y, o)
    ensures SameBut(m, m', Others(t, n.size), Slot(t, n.size, (h, 0)))
  {
    var sl := Slot(t, n.size, (h, 0));
    forall y, o | y in Others(t, n.size) && 8 <= o < 32 && (y, o) != sl ensures Fld(m', y, o) == Fld(m, y, o) {
      SlotWord(m, t, h, idx, n, y, o);
    }
  }

  // a chained chunk leaves its ring: nothing else changes
  lemma CutChained(m: Mem, t: Tree, h: int, idx: int, n: Tree, k: int)
    requires Rooted(m, t, h, idx) && At(t, n) && 0 < k < |n.ring|
    ensures var t' := Put(t, n.size, DelNode(n, k)); var m' := Unlinked(m, Prv(n.ring, k), Nxt(n.ring, k));
      InTree(m', t', h, idx) && Fld(m', h, 0) == Root(t') && OnlyLinks(m, m', Members(t), h)
  {
    var f, b := Prv(n.ring, k), Nxt(n.ring, k);
    var m' := Unlinked(m, f, b);
    NodePlace(m, t, h, idx, n);
    ChainOut(m, n, Parent(t, n.size, h), idx, k);
    assert f in n.ring && b in n.ring && f in Members(n) && b in Members(n);
    UnlinkedFar(m, Members(t), Others(t, n.size), f, b, h);
    PutSameRoot(m, m', t, n.size, DelNode(n, k), h, idx);
  }
  lemma UnlinkedFar(m: Mem, all: set<int>, others: set<int>, f: int, b: int, h: int)
    requires Spread(all) && f in all && b in all && h + 4 <= f && h + 4 <= b
    requires forall y :: y in others ==> y in all && y != f && y != b
    ensures Same(m, Unlinked(m, f, b), others) && Fld(Unlinked(m, f, b), h, 0) == Fld(m, h, 0)
    ensures OnlyLinks(m, Unlinked(m, f, b), all, h)
  {
    forall y, o | y in others && 8 <= o < 32 ensures Fld(Unlinked(m, f, b), y, o) == Fld(m, y, o) {
      assert Clear32(f, y) && Clear32(b, y);
      UnlinkedOther(m, f, b, y, o);
    }
    OneLink(m, m, all, h, f, BK, b);
    OneLink(m, m[f + BK := b], all, h, b, FD, f);
  }
  // The place of x goes to the replacement n', whose words are in m1 but for its own links.
  lemma CutReplaced(m: Mem, m1: Mem, t: Tree, h: int, idx: int, n: Tree, n': Tree)
    requires Rooted(m, t, h, idx) && At(t, n) && |n.ring| > 0
    requires n'.Node? && Proper(n') && forall y :: y in Members(n') ==> y in Members(n)
    requires RingNode(m1, n'.ring, idx) && Fld(m1, Root(n'), CHILD0) == 0 && Fld(m1, Root(n'), CHILD1) == 0
    requires InTree(m1, n'.left, n.ring[0], idx) && InTree(m1, n'.right, n.ring[0], idx)
    requires Same(m, m1, Others(t, n.size)) && Fld(m1, h, 0) == Fld(m, h, 0) && OnlyLinks(m, m1, Members(t), h)
    ensures var t' := Put(t, n.size, n');
      var m' := Relinked(m1, SlotAddr(t, n.size, h), Root(n'), Parent(t, n.size, h), Root(n'.left), Root(n'.right));
      InTree(m', t', h, idx) && Fld(m', h, 0) == Root(t') && OnlyLinks(m, m', Members(t), h)
  {
    hide InTree, Others, Spread, Uniq, Put, SlotAddr, Parent, OnlyLinks;
    var a, p := SlotAddr(t, n.size, h), Parent(t, n.size, h);
    var m' := Relinked(m1, a, Root(n'), p, Root(n'.left), Root(n'.right));
    NodePlace(m, t, h, idx, n);
    SlotPlace(m, t, h, idx, n);
    ReplacedNode(m1, Members(n), a, n', n.ring[0], p, idx);
    ReplacedRest(m, m1, t, n, n', a, p, h);
    SwapIn(m, m', t, h, idx, n, n');
  }
  lemma ReplacedNode(m1: Mem, all: set<int>, a: int, n': Tree, x: int, p: int, idx: int)
    requires n'.Node? && Proper(n') && Spread(all) && 0 !in all && forall y :: y in Members(n') ==> y in all
    requires RingNode(m1, n'.ring, idx) && Fld(m1, Root(n'), CHILD0) == 0 && Fld(m1, Root(n'), CHILD1) == 0
    requires InTree(m1, n'.left, x, idx) && InTree(m1, n'.right, x, idx)
    requires forall y :: y in all ==> a < y + 8 || y + 32 <= a
    ensures var m' := Relinked(m1, a, Root(n'), p, Root(n'.left), Root(n'.right));
      InTree(m', n', p, idx) && Fld(m', a, 0) == Root(n')
  {
    SpreadSub(all, Members(n'));
    KidRoots(n');
    Relink(m1, a, n', x, p, idx);
    RelinkedSlot(m1, a, Root(n'), p, Root(n'.left), Root(n'.right));
  }
  lemma KidRoots(n: Tree)
    requires n.Node? && Proper(n)
    ensures Root(n) in Members(n) && KidOf(Members(n), Root(n), Root(n.left))
      && KidOf(Members(n), Root(n), Root(n.right))
  {
    RootIn(n);
    if n.left.Node? { RootIn(n.left); }
    if n.right.Node? { RootIn(n.right); }
  }
  lemma ReplacedRest(m: Mem, m1: Mem, t: Tree, n: Tree, n': Tree, a: int, p: int, h: int)
    requires At(t, n) && Proper(t) && Spread(Members(t)) && 0 !in Members(t)
      && forall y :: y in Members(t) ==> h + 4 <= y
    requires n'.Node? && Proper(n') && forall y :: y in Members(n') ==> y in Members(n)
    requires Same(m, m1, Others(t, n.size)) && Fld(m1, h, 0) == Fld(m, h, 0) && OnlyLinks(m, m1, Members(t), h)
    requires a == h || exists y :: InNode(Members(t), y, a)
    ensures var m' := Relinked(m1, a, Root(n'), p, Root(n'.left), Root(n'.right));
      && (forall y, o :: y in Others(t, n.size) && 8 <= o < 32 && y + o != a ==> Fld(m', y, o) == Fld(m, y, o))
      && (a != h ==> Fld(m', h, 0) == Fld(m, h, 0))
      && OnlyLinks(m, m', Members(t), h)
  {
    var r, c0, c1 := Root(n'), Root(n'.left), Root(n'.right);
    KidRoots(n');
    SubSizes(t, n.size);
    OthersApart(t, n.size);
    RelinkedFar(m, m1, Members(t), Others(t, n.size), a, r, p, c0, c1, h);
  }
  ghost predicate KidOf(all: set<int>, r: int, c: int) { c != 0 ==> c in all && c != r }
  lemma RelinkedFar(m: Mem, m1: Mem, all: set<int>, others: set<int>, a: int, r: int, p: int, c0: int, c1: int, h: int)
    requires Spread(all) && r in all && KidOf(all, r, c0) && KidOf(all, r, c1)
    requires forall y :: y in all ==> h + 4 <= y
    requires forall y :: y in others ==> y in all && y != r && y != c0 && y != c1
    requires Same(m, m1, others) && Fld(m1, h, 0) == Fld(m, h, 0) && OnlyLinks(m, m1, all, h)
    requires a == h || exists y :: InNode(all, y, a)
    ensures var m' := Relinked(m1, a, r, p, c0, c1);
      && (forall y, o :: y in others && 8 <= o < 32 && y + o != a ==> Fld(m', y, o) == Fld(m, y, o))
      && (a != h ==> Fld(m', h, 0) == Fld(m, h, 0))
      && OnlyLinks(m, m', all, h)
  {
    var m' := Relinked(m1, a, r, p, c0, c1);
    forall y, o | y in others && 8 <= o < 32 && y + o != a ensures Fld(m', y, o) == Fld(m, y, o) {
      assert Clear32(r, y);
      if c0 != 0 { assert Clear32(c0, y) && Clear32(r, c0); }
      if c1 != 0 { assert Clear32(c1, y) && Clear32(r, c1); }
      RelinkedOther(m1, a, r, p, c0, c1, y, o);
    }
    if a != h { RelinkedHeader(m1, a, r, p, c0, c1, h); }
    RelinkedOnly(m, m1, all, a, r, p, c0, c1, h);
  }
  lemma RelinkedHeader(m: Mem, slot: int, r: int, par: int, c0: int, c1: int, h: int)
    requires h < r + 8 && h != slot && (c0 != 0 ==> h < c0 + 8) && (c1 != 0 ==> h < c1 + 8)
    ensures Fld(Relinked(m, slot, r, par, c0, c1), h, 0) == Fld(m, h, 0)
  {}
  lemma RelinkedOnly(m: Mem, m1: Mem, all: set<int>, a: int, r: int, p: int, c0: int, c1: int, h: int)
    requires r in all && KidOf(all, r, c0) && KidOf(all, r, c1) && OnlyLinks(m, m1, all, h)
    requires a == h || exists y :: InNode(all, y, a)
    ensures OnlyLinks(m, Relinked(m1, a, r, p, c0, c1), all, h)
  {
    var m2 := m1[a := r];
    OneWord(m, m1, all, h, a, r);
    OneLink(m, m2, all, h, r, PARENT, p);
    var m3 := m2[r + PARENT := p];
    AdoptOnly(m, m3, all, r, CHILD0, c0, h);
    AdoptOnly(m, Adopt(m3, r, CHILD0, c0), all, r, CHILD1, c1, h);
  }
  lemma AdoptOnly(m: Mem, m1: Mem, all: set<int>, r: int, off: int, c: int, h: int)
    requires r in all && KidOf(all, r, c) && OnlyLinks(m, m1, all, h) && 8 <= off < 32
    ensures OnlyLinks(m, Adopt(m1, r, off, c), all, h)
  {
    if c != 0 {
      OneLink(m, m1, all, h, r, off, c);
      OneLink(m, m1[r + off := c], all, h, c, PARENT, r);
    }
  }
  // the chunk in the tree leaves its ring: the next one of the ring takes its place
  lemma CutHead(m: Mem, t: Tree, h: int, idx: int, n: Tree)
    requires Rooted(m, t, h, idx) && At(t, n) && |n.ring| > 1
    ensures var t' := Put(t, n.size, DelNode(n, 0));
      var m' := Relinked(Unlinked(m, Prv(n.ring, 0), n.ring[1]), SlotAddr(t, n.size, h), n.ring[1],
        Parent(t, n.size, h), Root(n.left), Root(n.right));
      InTree(m', t', h, idx) && Fld(m', h, 0) == Root(t') && OnlyLinks(m, m', Members(t), h)
  {
    hide InTree, Others, Spread, Relinked, Unlinked, OnlyLinks, Uniq, SlotAddr, Parent, Put, Ring;
    var f, b := Prv(n.ring, 0), n.ring[1];
    NodePlace(m, t, h, idx, n);
    HeadOut(m, n, Parent(t, n.size, h), idx);
    assert f in n.ring && b in n.ring && f in Members(n) && b in Members(n);
    assert Without(n.ring, 0) == n.ring[1..];
    UnlinkedFar(m, Members(t), Others(t, n.size), f, b, h);
    DelNodeMembers(n, 0);
    CutReplaced(m, Unlinked(m, f, b), t, h, idx, n, DelNode(n, 0));
  }
  // a leaf without a ring goes
  lemma CutLeaf(m: Mem, t: Tree, h: int, idx: int, n: Tree)
    requires Rooted(m, t, h, idx) && At(t, n) && |n.ring| == 1 && n.left.Nil? && n.right.Nil?
    ensures var t' := Put(t, n.size, Nil); var m' := m[SlotAddr(t, n.size, h) := 0];
      InTree(m', t', h, idx) && Fld(m', h, 0) == Root(t') && OnlyLinks(m, m', Members(t), h)
  {
    SlotPlace(m, t, h, idx, n);
    SwapIn(m, m[SlotAddr(t, n.size, h) := 0], t, h, idx, n, Nil);
  }
  // an inner node without a ring goes: its right leaf, cut from the word rp, takes its place
  lemma CutInner(m: Mem, t: Tree, h: int, idx: int, n: Tree)
    requires Rooted(m, t, h, idx) && At(t, n) && |n.ring| == 1 && (n.left.Node? || n.right.Node?)
    ensures var f := RightLeaf(n); var t' := Put(t, n.size, DelNode(n, 0)); var m1 := m[SlotAddr(n, f.size, 0) := 0];
      var m' := Relinked(m1, SlotAddr(t, n.size, h), Root(f), Parent(t, n.size, h), Fld(m1, n.ring[0], CHILD0),
        Fld(m1, n.ring[0], CHILD1));
      InTree(m', t', h, idx) && Fld(m', h, 0) == Root(t') && OnlyLinks(m, m', Members(t), h)
  {
    var f, n' := RightLeaf(n), DelNode(n, 0);
    var m1 := m[SlotAddr(n, f.size, 0) := 0];
    NodePlace(m, t, h, idx, n);
    InnerGone(m, n, Parent(t, n.size, h), idx);
    InnerRest(m, t, n, h);
    CutReplaced(m, m1, t, h, idx, n, n');
  }
  lemma InnerGone(m: Mem, n: Tree, parent: int, idx: int)
    requires n.Node? && InTree(m, n, parent, idx) && Proper(n) && Uniq(n) && Spread(Members(n)) && |n.ring| == 1
      && (n.left.Node? || n.right.Node?)
    ensures var f, n' := RightLeaf(n), DelNode(n, 0); var m1 := m[SlotAddr(n, f.size, 0) := 0];
      && n'.Node? && Proper(n') && Root(n') == Root(f) && (forall y :: y in Members(n') ==> y in Members(n))
      && RingNode(m1, n'.ring, idx) && Fld(m1, Root(n'), CHILD0) == 0 && Fld(m1, Root(n'), CHILD1) == 0
      && InTree(m1, n'.left, n.ring[0], idx) && InTree(m1, n'.right, n.ring[0], idx)
      && Fld(m1, n.ring[0], CHILD0) == Root(n'.left) && Fld(m1, n.ring[0], CHILD1) == Root(n'.right)
  {
    LeafGone(m, n, parent, idx);
    DelNodeMembers(n, 0);
    var f := RightLeaf(n);
    assert DelNode(n, 0) == Node(f.ring, f.size, Put(n, f.size, Nil).left, Put(n, f.size, Nil).right);
  }
  lemma InnerRest(m: Mem, t: Tree, n: Tree, h: int)
    requires At(t, n) && Proper(t) && Spread(Members(t)) && forall y :: y in Members(t) ==> h + 4 <= y
    requires Proper(n) && Uniq(n) && (n.left.Node? || n.right.Node?)
    ensures var m1 := m[SlotAddr(n, RightLeaf(n).size, 0) := 0];
      Same(m, m1, Others(t, n.size)) && Fld(m1, h, 0) == Fld(m, h, 0) && OnlyLinks(m, m1, Members(t), h)
  {
    RightLeafIs(n);
    SlotIn(n, RightLeaf(n).size, (0, 0));
    SubSizes(t, n.size);
    OthersApart(t, n.size);
    ZeroFar(m, Members(t), Others(t, n.size), Slot(n, RightLeaf(n).size, (0, 0)), h);
  }
  lemma ZeroFar(m: Mem, all: set<int>, others: set<int>, p: (int, int), h: int)
    requires Spread(all) && p.0 in all && (p.1 == CHILD0 || p.1 == CHILD1) && h + 4 <= p.0
    requires forall y :: y in others ==> y in all && y != p.0
    ensures var m1 := m[p.0 + p.1 := 0];
            Same(m, m1, others) && Fld(m1, h, 0) == Fld(m, h, 0) && OnlyLinks(m, m1, all, h)
  {
    OneLink(m, m, all, h, p.0, p.1, 0);
    forall y, o | y in others && 8 <= o < 32 ensures Fld(m[p.0 + p.1 := 0], y, o) == Fld(m, y, o) {
      assert Clear32(p.0, y);
    }
  }
  lemma LeafGone(m: Mem, n: Tree, parent: int, idx: int)
    requires n.Node? && InTree(m, n, parent, idx) && Proper(n) && Uniq(n) && Spread(Members(n))
      && (n.left.Node? || n.right.Node?)
    ensures var f := RightLeaf(n); var m1 := m[SlotAddr(n, f.size, 0) := 0]; var rest := Put(n, f.size, Nil);
      && rest.Node? && rest.ring == n.ring && InTree(m1, rest, parent, idx)
      && RingNode(m1, f.ring, idx) && Fld(m1, Root(f), CHILD0) == 0 && Fld(m1, Root(f), CHILD1) == 0
  {
    hide Uniq, Spread, Proper, Members, Others;
    var f := RightLeaf(n);
    var m1 := m[SlotAddr(n, f.size, 0) := 0];
    var p := Slot(n, f.size, (0, 0));
    RightLeafIs(n);
    SlotIn(n, f.size, (0, 0)); OthersApart(n, f.size); SubSizes(n, f.size);
    SubInTree(m, n, f.size, parent, (0, 0), idx);
    SlotSame(n, f.size, (0, 0), (parent, 0));
    ZeroWords(m, Members(n), p, Others(n, f.size), Members(f));
    PutInTree(m, m1, n, f.size, Nil, parent, (parent, 0), idx);
    InTreeFrame(m, m1, f, Parent(n, f.size, parent), idx);
  }
  lemma ZeroWords(m: Mem, all: set<int>, p: (int, int), others: set<int>, leaf: set<int>)
    requires Spread(all) && p.0 in all && p.0 !in leaf && (forall y :: y in others || y in leaf ==> y in all)
      && (p.1 == CHILD0 || p.1 == CHILD1)
    ensures var m1 := m[p.0 + p.1 := 0]; SameBut(m, m1, others, p) && Same(m, m1, leaf)
  {
    var m1 := m[p.0 + p.1 := 0];
    forall y, o | y in others && 8 <= o < 32 && (y, o) != p ensures Fld(m1, y, o) == Fld(m, y, o) {
      assert Clear32(p.0, y);
    }
    forall y, o | y in leaf && 8 <= o < 32 ensures Fld(m1, y, o) == Fld(m, y, o) { assert Clear32(p.0, y); }
  }
  lemma SlotSame(t: Tree, s: int, a: (int, int), b: (int, int))
    requires s in Sizes(t) && t.size != s
    ensures Slot(t, s, a) == Slot(t, s, b)
  {}
}
