/** unlink_large_chunk (kernel/malloc.c:2930-3016). */
module TreeUnlinkMacro {
  import opened Words
  import opened Chunks
  import opened Bits
  import opened Tries
  import opened Bins
  import opened SmallOps
  import opened TreeOps
  import opened TreeBins
  import opened TreeCuts
  import opened TreeRemoval
  import opened Mspaces
  import opened TreeInsertMacro
  import SmallBinMacros

  // x is the k-th chunk of the ring of node n in tree bin i
  ghost predicate InNodeAt(s: St, i: int, n: Tree, k: int, x: int) {
    SoundSt(s) && 0 <= i < 32 && At(s.B.tree[i], n) && 0 <= k < |n.ring| && n.ring[k] == x
  }
  lemma NodeWords(s: St, i: int, n: Tree, k: int, x: int)
    requires InNodeAt(s, i, n, k, x)
    ensures x in Members(s.B.tree[i]) && NodeAddr(x, s.base, s.end)
    ensures Fld(s.mem, x, BK) == Nxt(n.ring, k) && Fld(s.mem, x, FD) == Prv(n.ring, k) && Fld(s.mem, x, INDEX) == i
    ensures NodeAddr(Nxt(n.ring, k), s.base, s.end) && NodeAddr(Prv(n.ring, k), s.base, s.end)
    ensures Nxt(n.ring, k) == x <==> |n.ring| == 1
    ensures k > 0 ==> Fld(s.mem, x, PARENT) == 0
    ensures k == 0
            ==> Fld(s.mem, x, PARENT) == Parent(s.B.tree[i], n.size, TreebinAt(s.base, i)) && Fld(s.mem, x, PARENT) != 0
    ensures k == 0 ==> Fld(s.mem, x, CHILD0) == Root(n.left) && Fld(s.mem, x, CHILD1) == Root(n.right)
    ensures (Root(n.left) == 0 <==> n.left.Nil?) && (Root(n.right) == 0 <==> n.right.Nil?)
  {
    BinAt(s, i);
    var t, h := s.B.tree[i], TreebinAt(s.base, i);
    BinRooted(s.mem, s.C, s.base, s.top, s.treemap, t, i);
    NodePlace(s.mem, t, h, i, n);
    var f, b := Prv(n.ring, k), Nxt(n.ring, k);
    assert x in n.ring && f in n.ring && b in n.ring;
    MemberAddr(s, i, x); MemberAddr(s, i, f); MemberAddr(s, i, b);
    KidNonzero(s, i, n);
    if k == 0 { ParentNonzero(s, i, n); }
  }
  lemma ParentNonzero(s: St, i: int, n: Tree)
    requires SoundSt(s) && 0 <= i < 32 && At(s.B.tree[i], n)
    ensures 0 < Parent(s.B.tree[i], n.size, TreebinAt(s.base, i)) < W32
    ensures n.size != s.B.tree[i].size ==> NodeAddr(Parent(s.B.tree[i], n.size, TreebinAt(s.base, i)), s.base, s.end)
  {
    BinAt(s, i); HeaderAddr(s, i);
    var t, h := s.B.tree[i], TreebinAt(s.base, i);
    BinRooted(s.mem, s.C, s.base, s.top, s.treemap, t, i);
    if n.size != t.size {
      SlotIn(t, n.size, (h, 0));
      SubInTree(s.mem, t, n.size, h, (h, 0), i);
      MemberAddr(s, i, Slot(t, n.size, (h, 0)).0);
    }
  }

  // ---- the replacement for a node without a ring ----

  lemma KidAt(t: Tree, n: Tree, d: bool)
    requires Uniq(t) && At(t, n) && Kid(n, d).Node?
    ensures At(t, Kid(n, d)) && Kid(n, d).size != t.size
    ensures SlotAddr(t, Kid(n, d).size, 0) == Root(n) + KidField(d)
  {
    var z := Kid(n, d).size;
    SubUniq(t, n.size);
    assert z in Sizes(n) && Dir(n, z) == d;
    SubSub(t, n.size, z, (0, 0), 0);
    SubSizes(t, n.size);
    if t.size == z { assert Sub(t, z) == t; SizeDepth(t, n); }
  }
  // a proper subtree does not hold the size of the root
  lemma SizeDepth(t: Tree, n: Tree)
    requires Uniq(t) && At(t, n) && t.size in Sizes(n)
    ensures n == t
  {
    if t.size != n.size {
      SubSizes(Kid(t, Dir(t, n.size)), n.size);
    }
  }

  // the walk to the right leaf is at cur, a node below n that rp points to
  ghost predicate Leafward(s: St, i: int, n: Tree, x: int, cur: Tree, r: int, rp: int) {
    && InNodeAt(s, i, n, 0, x) && At(n, cur) && cur.size != n.size && At(s.B.tree[i], cur)
    && r == Root(cur) && rp == SlotAddr(n, cur.size, 0) && RightLeaf(cur) == RightLeaf(n)
  }
  lemma LeafwardKid(s: St, i: int, n: Tree, x: int, cur: Tree, d: bool)
    requires InNodeAt(s, i, n, 0, x) && At(n, cur) && At(s.B.tree[i], cur)
    requires RightLeaf(cur) == RightLeaf(n) && Kid(cur, d).Node? && (!d ==> cur.right.Nil?)
    ensures Leafward(s, i, n, x, Kid(cur, d), Root(Kid(cur, d)), Root(cur) + KidField(d))
  {
    BinAt(s, i);
    TrieUniq(s.B.tree[i], Lo(i), Span(i));
    SubUniq(s.B.tree[i], n.size);
    KidAt(n, cur, d);
    KidAt(s.B.tree[i], cur, d);
  }
  lemma CurWords(s: St, i: int, cur: Tree)
    requires SoundSt(s) && 0 <= i < 32 && At(s.B.tree[i], cur)
    ensures NodeAddr(Root(cur), s.base, s.end) && |cur.ring| > 0
    ensures Fld(s.mem, Root(cur), CHILD0) == Root(cur.left) && Fld(s.mem, Root(cur), CHILD1) == Root(cur.right)
    ensures (Root(cur.left) == 0 <==> cur.left.Nil?) && (Root(cur.right) == 0 <==> cur.right.Nil?)
  {
    BinAt(s, i);
    BinRooted(s.mem, s.C, s.base, s.top, s.treemap, s.B.tree[i], i);
    NodePlace(s.mem, s.B.tree[i], TreebinAt(s.base, i), i, cur);
    NodeWords(s, i, cur, 0, Root(cur));
  }
  // down from R, to the right where there is a right child and else to the left, with the word that points to R
  method RightmostLeaf(m: Mspace, r0: int, rp0: int, ghost s: St, ghost i: int, ghost n: Tree, ghost x: int,
    ghost cur0: Tree)
    returns (r: int, rp: int)
    requires m.Rep() && s.mem == m.mem && s.base == m.base && s.end == m.base + m.capacity
    requires Leafward(s, i, n, x, cur0, r0, rp0)
    ensures r == Root(RightLeaf(n)) && rp == SlotAddr(n, RightLeaf(n).size, 0)
  {
    r, rp := r0, rp0;
    ghost var cur := cur0;
    while true
      invariant Leafward(s, i, n, x, cur, r, rp)
      decreases cur
    {
      CurWords(s, i, cur);
      var cp := r + CHILD1;
      var c := m.Get(r, CHILD1);
      ghost var right := true;
      if c == 0 {
        cp := r + CHILD0;
        c := m.Get(r, CHILD0);
        right := false;
      }
      if c == 0 { return; }
      LeafwardKid(s, i, n, x, cur, right);
      cur := Kid(cur, right);
      r, rp := c, cp;
    }
  }
  lemma LeafSlot(s: St, i: int, n: Tree, x: int)
    requires InNodeAt(s, i, n, 0, x) && (n.left.Node? || n.right.Node?)
    ensures var a := SlotAddr(n, RightLeaf(n).size, 0); s.base <= a && IsAddr(a, 0, s.base, s.end)
  {
    hide InTree, RingNode, Uniq, Proper, Spread, RightLeaf;
    BinAt(s, i);
    var t, h := s.B.tree[i], TreebinAt(s.base, i);
    BinRooted(s.mem, s.C, s.base, s.top, s.treemap, t, i);
    NodePlace(s.mem, t, h, i, n);
    RightLeafIs(n);
    SlotIn(n, RightLeaf(n).size, (0, 0));
    var sl := Slot(n, RightLeaf(n).size, (0, 0));
    MemberAddr(s, i, sl.0);
    assert IsAddr(sl.0, sl.1, s.base, s.end);
  }
  method DetachLeaf(m: Mspace, x: int, ghost i: int, ghost n: Tree) returns (r: int)
    requires m.Sound() && InNodeAt(m.S(), i, n, 0, x) && |n.ring| == 1
    modifies m`mem, m.words
    ensures m.Rep()
    ensures if n.left.Nil? && n.right.Nil? then r == 0 && m.mem == old(m.mem)
            else r == Root(RightLeaf(n)) && m.mem == old(m.mem)[SlotAddr(n, RightLeaf(n).size, 0) := 0]
  {
    ghost var s := m.S();
    NodeWords(s, i, n, 0, x);
    var rp := x + CHILD1;
    r := m.Get(x, CHILD1);
    ghost var right := true;
    if r == 0 {
      rp := x + CHILD0;
      r := m.Get(x, CHILD0);
      right := false;
    }
    if r != 0 {
      SubSelf(n);
      LeafwardKid(s, i, n, x, n, right);
      r, rp := RightmostLeaf(m, r, rp, s, i, n, x, Kid(n, right));
      LeafSlot(s, i, n, x);
      if rp >= m.base {
        m.Set(rp, 0, 0);
      } else {
        assert false;
      }
    }
  }
  lemma SubSelf(n: Tree)
    requires n.Node?
    ensures At(n, n)
  {}

  // ---- the place of the node in the tree ----

  // The words that phase one leaves as they were: the bin header, the parent's links and the index.
  ghost predicate Ready(s: St, i: int, n: Tree, x: int, m1: Mem) {
    && InNodeAt(s, i, n, 0, x) && Fld(m1, TreebinAt(s.base, i), 0) == Root(s.B.tree[i]) && Fld(m1, x, INDEX) == i
    && (n.size != s.B.tree[i].size ==>
          var p := Parent(s.B.tree[i], n.size, TreebinAt(s.base, i)); Fld(m1, p, CHILD0) == Fld(s.mem, p, CHILD0))
  }
  lemma SlotChoice(s: St, i: int, n: Tree, x: int)
    requires InNodeAt(s, i, n, 0, x)
    ensures var t, h := s.B.tree[i], TreebinAt(s.base, i); var p := Parent(t, n.size, h);
      && (Root(t) == x <==> n.size == t.size)
      && (n.size == t.size ==> SlotAddr(t, n.size, h) == h)
      && (n.size != t.size
          ==> SlotAddr(t, n.size, h) == p + (if Fld(s.mem, p, CHILD0) == x then CHILD0 else CHILD1)
              && NodeAddr(p, s.base, s.end))
  {
    BinAt(s, i);
    var t, h := s.B.tree[i], TreebinAt(s.base, i);
    BinRooted(s.mem, s.C, s.base, s.top, s.treemap, t, i);
    ParentNonzero(s, i, n);
    RootApart(t, n);
    if n.size != t.size { SlotSide(s.mem, t, n, h, h, i); }
  }
  lemma RootApart(t: Tree, n: Tree)
    requires Proper(t) && At(t, n) && |n.ring| > 0
    ensures Root(t) == Root(n) <==> n.size == t.size
  {
    if n.size != t.size {
      OthersApart(t, n.size);
      SubProper(t, n.size);
      RootIn(t); RootIn(n);
      assert Root(t) in Others(t, n.size);
    }
  }
  lemma {:induction false} SlotSide(m: Mem, t: Tree, n: Tree, h: int, par: int, idx: int)
    requires Proper(t) && At(t, n) && |n.ring| > 0 && n.size != t.size && InTree(m, t, par, idx) && 0 !in Members(t)
    ensures var p := Parent(t, n.size, h);
      Slot(t, n.size, (h, 0)) == (p, if Fld(m, p, CHILD0) == Root(n) then CHILD0 else CHILD1)
  {
    var d := Dir(t, n.size);
    var kid := Kid(t, d);
    assert n.size in Sizes(kid) && kid.Node?;
    if kid.size != n.size {
      SlotSide(m, kid, n, Root(t), Root(t), idx);
      SlotSame(kid, n.size, (Root(t), KidField(d)), (Root(t), 0));
      ParentSame(kid, n.size, Root(t), h);
    } else {
      assert Sub(t, n.size) == Sub(kid, n.size) == kid;
      if d { LeftApart(t); }
    }
  }
  lemma LeftApart(t: Tree)
    requires Proper(t) && t.Node? && t.right.Node? && 0 !in Members(t)
    ensures Root(t.left) != Root(t.right)
  {
    RootIn(t.right);
    if t.left.Node? { RootIn(t.left); }
  }
  lemma ParentSame(t: Tree, s: int, a: int, b: int)
    requires s in Sizes(t) && t.size != s
    ensures Parent(t, s, a) == Parent(t, s, b)
  {}
  // R adopts a child of X, if there is one
  method AdoptChild(m: Mspace, r: int, x: int, off: int)
    requires m.Rep() && NodeAddr(r, m.base, m.base + m.capacity) && NodeAddr(x, m.base, m.base + m.capacity)
      && (off == CHILD0 || off == CHILD1)
    requires Fld(m.mem, x, off) != 0 ==> NodeAddr(Fld(m.mem, x, off), m.base, m.base + m.capacity)
    modifies m`mem, m.words
    ensures m.Rep() && m.mem == Adopt(old(m.mem), r, off, Fld(old(m.mem), x, off))
  {
    var c := m.Get(x, off);
    if c != 0 {
      if c >= m.base {
        m.Set(r, off, c);
        m.Set(c, PARENT, r);
      } else {
        assert false;
      }
    }
  }
  // the word that pointed to X now points to R
  method Redirect(m: Mspace, x: int, xp: int, r: int, ghost i: int, ghost n: Tree, ghost s: St)
    requires m.Rep() && Ready(s, i, n, x, m.mem) && s.base == m.base && s.end == m.base + m.capacity
      && m.treemap == s.treemap
    requires xp == Parent(s.B.tree[i], n.size, TreebinAt(s.base, i)) && 0 <= r < W32
    modifies m`mem, m.words, m`treemap
    ensures m.Rep() && m.mem == old(m.mem)[SlotAddr(s.B.tree[i], n.size, TreebinAt(s.base, i)) := r]
    ensures m.treemap == if r == 0 && n.size == s.B.tree[i].size then Clear(s.treemap, i) else s.treemap
  {
    NodeWords(s, i, n, 0, x); SlotChoice(s, i, n, x); HeaderAddr(s, i);
    var idx := m.Get(x, INDEX);
    var h := TreebinAt(m.base, idx);
    if x == m.Get(h, 0) {
      m.Set(h, 0, r);
      if r == 0 { m.treemap := Clear(m.treemap, idx); }
    } else if xp >= m.base {
      if m.Get(xp, CHILD0) == x {
        m.Set(xp, CHILD0, r);
      } else {
        m.Set(xp, CHILD1, r);
      }
    } else {
      assert false;
    }
  }

  // ---- the whole macro ----

  lemma UnlinkPost(s: St, i: int, n: Tree, k: int, x: int, mem: Mem)
    requires InNodeAt(s, i, n, k, x)
    requires var t', h := Removed(s.B.tree[i], n, k), TreebinAt(s.base, i);
      InTree(mem, t', h, i) && Fld(mem, h, 0) == Root(t') && OnlyLinks(s.mem, mem, Members(s.B.tree[i]), h)
    ensures var t' := Removed(s.B.tree[i], n, k);
      && SoundSt(WithTree(s, mem, BitsAfter(s.treemap, t', i), i, t')) && SamePayload(s.mem, mem, s.C, s.base)
      && forall y :: y in Members(t') <==> y in Members(s.B.tree[i]) && y != x
  {
    BinAt(s, i);
    var t' := Removed(s.B.tree[i], n, k);
    BinRemoved(s.mem, mem, s.C, s.base, s.top, s.treemap, s.B.tree[i], i, n, k);
    ClearAgrees(s.treemap, i);
    TreeSound(s, mem, BitsAfter(s.treemap, t', i), i, t');
  }
  lemma RemovedNil(s: St, i: int, n: Tree, k: int, x: int)
    requires InNodeAt(s, i, n, k, x)
    ensures Removed(s.B.tree[i], n, k).Nil? <==> n.size == s.B.tree[i].size && DelNode(n, k).Nil?
    ensures DelNode(n, k).Nil? <==> |n.ring| == 1 && n.left.Nil? && n.right.Nil?
  {
    BinAt(s, i);
    TrieUniq(s.B.tree[i], Lo(i), Span(i));
    SubUniq(s.B.tree[i], n.size);
    if |n.ring| == 1 && (n.left.Node? || n.right.Node?) { RightLeafIs(n); }
  }
  // phase one for a chunk that has others of its size behind it
  lemma AfterRing(s: St, i: int, n: Tree, x: int)
    requires InNodeAt(s, i, n, 0, x) && |n.ring| > 1
    ensures var m1 := Unlinked(s.mem, Prv(n.ring, 0), n.ring[1]);
      && Ready(s, i, n, x, m1) && Fld(m1, x, CHILD0) == Root(n.left) && Fld(m1, x, CHILD1) == Root(n.right)
  {
    BinAt(s, i);
    var t, h := s.B.tree[i], TreebinAt(s.base, i);
    BinRooted(s.mem, s.C, s.base, s.top, s.treemap, t, i);
    NodePlace(s.mem, t, h, i, n);
    NodeWords(s, i, n, 0, x);
    var f, b := Prv(n.ring, 0), n.ring[1];
    assert f in n.ring && b in n.ring && x in n.ring;
    UnlinkedFar(s.mem, Members(t), Others(t, n.size), f, b, h);
    assert Clear32(f, x) && Clear32(b, x);
    UnlinkedOther(s.mem, f, b, x, CHILD0); UnlinkedOther(s.mem, f, b, x, CHILD1); UnlinkedOther(s.mem, f, b, x, INDEX);
    if n.size != t.size { SlotIn(t, n.size, (h, 0)); SubInTree(s.mem, t, n.size, h, (h, 0), i); }
  }
  lemma AfterLeaf(s: St, i: int, n: Tree, x: int)
    requires InNodeAt(s, i, n, 0, x) && |n.ring| == 1 && (n.left.Node? || n.right.Node?)
    ensures var m1 := s.mem[SlotAddr(n, RightLeaf(n).size, 0) := 0];
      && Ready(s, i, n, x, m1) && DelNode(n, 0).Node?
      && Fld(m1, x, CHILD0) == Root(DelNode(n, 0).left) && Fld(m1, x, CHILD1) == Root(DelNode(n, 0).right)
      && Root(DelNode(n, 0)) == Root(RightLeaf(n))
  {
    hide Same, OnlyLinks, Uniq, DelNode, RightLeaf, RingNode, InTree, Proper, Shape, Tags;
    BinAt(s, i);
    var t, h := s.B.tree[i], TreebinAt(s.base, i);
    BinRooted(s.mem, s.C, s.base, s.top, s.treemap, t, i);
    NodePlace(s.mem, t, h, i, n);
    NodeWords(s, i, n, 0, x);
    InnerGone(s.mem, n, Parent(t, n.size, h), i);
    InnerRest(s.mem, t, n, h);
    RightLeafIs(n);
    SlotIn(n, RightLeaf(n).size, (0, 0));
    var sl := Slot(n, RightLeaf(n).size, (0, 0));
    assert x in n.ring && Clear32(sl.0, x);
    if n.size != t.size { ParentKept(s.mem, s.mem[SlotAddr(n, RightLeaf(n).size, 0) := 0], t, n.size, h, i); }
  }
  lemma ParentKept(m: Mem, m1: Mem, t: Tree, z: int, h: int, idx: int)
    requires z in Sizes(t) && InTree(m, t, h, idx) && Proper(t) && t.size != z && Same(m, m1, Others(t, z))
    ensures Fld(m1, Parent(t, z, h), CHILD0) == Fld(m, Parent(t, z, h), CHILD0)
  {
    hide InTree, Proper, Others, Sizes;
    SlotIn(t, z, (h, 0)); SubInTree(m, t, z, h, (h, 0), idx);
  }

  // the replacement's own links and those of the children it takes over
  lemma HeirWords(s: St, i: int, n: Tree, x: int, m1: Mem)
    requires InNodeAt(s, i, n, 0, x) && DelNode(n, 0).Node?
    ensures var n' := DelNode(n, 0); var r, c0, c1 := Root(n'), Root(n'.left), Root(n'.right);
      var t, h := s.B.tree[i], TreebinAt(s.base, i); var a, p := SlotAddr(t, n.size, h), Parent(t, n.size, h);
      && NodeAddr(r, s.base, s.end) && (c0 != 0 ==> NodeAddr(c0, s.base, s.end))
        && (c1 != 0 ==> NodeAddr(c1, s.base, s.end))
      && Fld(m1[a := r][r + PARENT := p], x, CHILD0) == Fld(m1, x, CHILD0)
      && Fld(Adopt(m1[a := r][r + PARENT := p], r, CHILD0, c0), x, CHILD1) == Fld(m1, x, CHILD1)
  {
    BinAt(s, i);
    var t, h := s.B.tree[i], TreebinAt(s.base, i);
    var n' := DelNode(n, 0);
    BinRooted(s.mem, s.C, s.base, s.top, s.treemap, t, i);
    HeirMembers(s.mem, t, h, i, n);
    MemberAddr(s, i, Root(n'));
    if n'.left.Node? { MemberAddr(s, i, Root(n'.left)); }
    if n'.right.Node? { MemberAddr(s, i, Root(n'.right)); }
    HeirClear(m1, Members(n), x, Root(n'), Root(n'.left), SlotAddr(t, n.size, h), Parent(t, n.size, h));
  }
  ghost predicate HeirOf(all: set<int>, x: int, y: int) { y in all && y != x }
  lemma HeirMembers(m: Mem, t: Tree, h: int, idx: int, n: Tree)
    requires Rooted(m, t, h, idx) && At(t, n) && |n.ring| > 0 && DelNode(n, 0).Node?
    ensures var n', x, a := DelNode(n, 0), n.ring[0], SlotAddr(t, n.size, h);
      && x in Members(n) && HeirOf(Members(n), x, Root(n')) && Root(n') in Members(t)
      && (n'.left.Node? ==> HeirOf(Members(n), x, Root(n'.left)) && Root(n'.left) in Members(t))
      && (n'.right.Node? ==> HeirOf(Members(n), x, Root(n'.right)) && Root(n'.right) in Members(t))
      && KidOf(Members(n), Root(n'), Root(n'.left))
      && Spread(Members(n)) && (a < x + 8 || x + 32 <= a)
  {
    NodePlace(m, t, h, idx, n); SlotPlace(m, t, h, idx, n);
    HeirRoots(n);
    assert n.ring[0] in n.ring;
  }
  lemma HeirRoots(n: Tree)
    requires n.Node? && |n.ring| > 0 && Uniq(n) && Proper(n) && Distinct(n.ring) && DelNode(n, 0).Node?
    ensures var n', x := DelNode(n, 0), n.ring[0];
      && HeirOf(Members(n), x, Root(n')) && KidOf(Members(n), Root(n'), Root(n'.left))
      && (n'.left.Node? ==> HeirOf(Members(n), x, Root(n'.left)))
        && (n'.right.Node? ==> HeirOf(Members(n), x, Root(n'.right)))
  {
    var n' := DelNode(n, 0);
    DelNodeMembers(n, 0);
    RootIn(n');
    if n'.left.Node? { RootIn(n'.left); }
    if n'.right.Node? { RootIn(n'.right); }
  }
  lemma HeirClear(m1: Mem, all: set<int>, x: int, r: int, c0: int, a: int, p: int)
    requires Spread(all) && x in all && r in all && x != r && KidOf(all, r, c0) && (c0 != 0 ==> c0 != x)
      && (a < x + 8 || x + 32 <= a)
    ensures Fld(m1[a := r][r + PARENT := p], x, CHILD0) == Fld(m1, x, CHILD0)
    ensures Fld(Adopt(m1[a := r][r + PARENT := p], r, CHILD0, c0), x, CHILD1) == Fld(m1, x, CHILD1)
  {
    assert Clear32(r, x);
    if c0 != 0 { assert Clear32(c0, x) && Clear32(r, c0); }
    AdoptOther(m1[a := r][r + PARENT := p], r, CHILD0, c0, x, CHILD1);
  }
  // the second phase: the link of X's parent, and the replacement's parent and children, if there is one
  method Relocate(m: Mspace, x: int, xp: int, r: int, ghost i: int, ghost n: Tree, ghost s: St)
    requires m.Rep() && Ready(s, i, n, x, m.mem) && s.base == m.base && s.end == m.base + m.capacity
      && m.treemap == s.treemap
    requires xp == Parent(s.B.tree[i], n.size, TreebinAt(s.base, i))
    requires r == Root(DelNode(n, 0)) && (r != 0 <==> DelNode(n, 0).Node?)
    requires r != 0
             ==> Fld(m.mem, x, CHILD0) == Root(DelNode(n, 0).left) && Fld(m.mem, x, CHILD1) == Root(DelNode(n, 0).right)
    modifies m`mem, m.words, m`treemap
    ensures m.Rep() && m.treemap == BitsAfter(s.treemap, Removed(s.B.tree[i], n, 0), i)
    ensures var a := SlotAddr(s.B.tree[i], n.size, TreebinAt(s.base, i));
      m.mem == if r == 0 then old(m.mem)[a := 0] else Relinked(old(m.mem), a, r, xp, Root(DelNode(n, 0).left),
        Root(DelNode(n, 0).right))
  {
    ghost var m1 := m.mem;
    if r != 0 { HeirWords(s, i, n, x, m1); }
    RemovedNil(s, i, n, 0, x);
    NodeWords(s, i, n, 0, x); ParentNonzero(s, i, n);
    Redirect(m, x, xp, r, i, n, s);
    if r != 0 {
      if r >= m.base {
        m.Set(r, PARENT, xp);
        AdoptChild(m, r, x, CHILD0);
        AdoptChild(m, r, x, CHILD1);
      } else {
        assert false;
      }
    }
  }

  lemma UnlinkedCase(s: St, i: int, n: Tree, k: int, x: int)
    requires InNodeAt(s, i, n, k, x)
    ensures Rooted(s.mem, s.B.tree[i], TreebinAt(s.base, i), i)
  {
    BinAt(s, i);
    BinRooted(s.mem, s.C, s.base, s.top, s.treemap, s.B.tree[i], i);
  }
  lemma ChainedPost(s: St, i: int, n: Tree, k: int, x: int, mem: Mem)
    requires InNodeAt(s, i, n, k, x) && k > 0 && mem == Unlinked(s.mem, Prv(n.ring, k), Nxt(n.ring, k))
    ensures UnlinkDone(s, i, n, k, x, mem, s.treemap)
  {
    UnlinkedCase(s, i, n, k, x);
    CutChained(s.mem, s.B.tree[i], TreebinAt(s.base, i), i, n, k);
    RemovedNil(s, i, n, k, x);
    UnlinkPost(s, i, n, k, x, mem);
  }
  lemma HeadPost(s: St, i: int, n: Tree, x: int, mem: Mem)
    requires InNodeAt(s, i, n, 0, x) && |n.ring| > 1
    requires var t, h := s.B.tree[i], TreebinAt(s.base, i);
      mem == Relinked(Unlinked(s.mem, Prv(n.ring, 0), n.ring[1]), SlotAddr(t, n.size, h), n.ring[1],
        Parent(t, n.size, h), Root(n.left), Root(n.right))
    ensures UnlinkDone(s, i, n, 0, x, mem, BitsAfter(s.treemap, Removed(s.B.tree[i], n, 0), i))
  {
    UnlinkedCase(s, i, n, 0, x);
    CutHead(s.mem, s.B.tree[i], TreebinAt(s.base, i), i, n);
    UnlinkPost(s, i, n, 0, x, mem);
  }
  lemma LonePost(s: St, i: int, n: Tree, x: int, m1: Mem, mem: Mem)
    requires InNodeAt(s, i, n, 0, x) && |n.ring| == 1
    requires var t, h := s.B.tree[i], TreebinAt(s.base, i); var a, p := SlotAddr(t, n.size, h), Parent(t, n.size, h);
      if n.left.Nil? && n.right.Nil?
      then mem == s.mem[a := 0]
      else m1 == s.mem[SlotAddr(n, RightLeaf(n).size, 0) := 0]
           && mem == Relinked(m1, a, Root(RightLeaf(n)), p, Fld(m1, x, CHILD0), Fld(m1, x, CHILD1))
    ensures UnlinkDone(s, i, n, 0, x, mem, BitsAfter(s.treemap, Removed(s.B.tree[i], n, 0), i))
  {
    UnlinkedCase(s, i, n, 0, x);
    if n.left.Nil? && n.right.Nil? { CutLeaf(s.mem, s.B.tree[i], TreebinAt(s.base, i), i, n); }
    else { CutInner(s.mem, s.B.tree[i], TreebinAt(s.base, i), i, n); }
    UnlinkPost(s, i, n, 0, x, mem);
  }
  ghost predicate UnlinkDone(s: St, i: int, n: Tree, k: int, x: int, mem: Mem, bits: int) {
    && InNodeAt(s, i, n, k, x)
    && var t' := Removed(s.B.tree[i], n, k);
      && SoundSt(WithTree(s, mem, bits, i, t')) && SamePayload(s.mem, mem, s.C, s.base)
      && forall y :: y in Members(t') <==> y in Members(s.B.tree[i]) && y != x
  }
  // what phase one leaves behind: the memory m1 and the replacement r
  ghost predicate PhaseOne(s: St, i: int, n: Tree, k: int, x: int, m1: Mem, r: int) {
    && InNodeAt(s, i, n, k, x)
    && (if |n.ring| > 1 then m1 == Unlinked(s.mem, Prv(n.ring, k), Nxt(n.ring, k)) && r == Nxt(n.ring, k)
        else if n.left.Nil? && n.right.Nil? then m1 == s.mem && r == 0
        else m1 == s.mem[SlotAddr(n, RightLeaf(n).size, 0) := 0] && r == Root(RightLeaf(n)))
  }
  method Detach(m: Mspace, x: int, ghost i: int, ghost n: Tree, ghost k: int) returns (r: int)
    requires m.Sound() && InNodeAt(m.S(), i, n, k, x)
    modifies m`mem, m.words
    ensures m.Rep() && PhaseOne(old(m.S()), i, n, k, x, m.mem, r)
  {
    NodeWords(m.S(), i, n, k, x);
    if m.Get(x, BK) != x {
      var f := m.Get(x, FD);
      r := m.Get(x, BK);
      if f >= m.base {
        SmallBinMacros.Unlink(m, f, r);
      } else {
        assert false;
      }
    } else {
      r := DetachLeaf(m, x, i, n);
    }
  }
  lemma PhaseOneReady(s: St, i: int, n: Tree, x: int, m1: Mem, r: int)
    requires PhaseOne(s, i, n, 0, x, m1, r)
    ensures Ready(s, i, n, x, m1) && r == Root(DelNode(n, 0)) && (r != 0 <==> DelNode(n, 0).Node?)
    ensures r != 0 ==> Fld(m1, x, CHILD0) == Root(DelNode(n, 0).left) && Fld(m1, x, CHILD1) == Root(DelNode(n, 0).right)
  {
    NodeWords(s, i, n, 0, x);
    BinAt(s, i);
    if |n.ring| > 1 {
      assert DelNode(n, 0) == n.(ring := Without(n.ring, 0)) && Without(n.ring, 0) == n.ring[1..];
      AfterRing(s, i, n, x);
    } else if n.left.Nil? && n.right.Nil? {
    } else {
      AfterLeaf(s, i, n, x);
      HeirWords(s, i, n, x, m1);
    }
  }
  lemma PhaseTwoPost(s: St, i: int, n: Tree, k: int, x: int, m1: Mem, r: int, mem: Mem, bits: int)
    requires PhaseOne(s, i, n, k, x, m1, r)
    requires k > 0 ==> mem == m1 && bits == s.treemap
    requires k == 0 ==>
      var a, p := SlotAddr(s.B.tree[i], n.size, TreebinAt(s.base, i)),
        Parent(s.B.tree[i], n.size, TreebinAt(s.base, i));
      && bits == BitsAfter(s.treemap, Removed(s.B.tree[i], n, 0), i)
      && (r == 0 ==> mem == m1[a := 0])
      && (r != 0
          ==> DelNode(n, 0).Node? && mem == Relinked(m1, a, r, p, Root(DelNode(n, 0).left), Root(DelNode(n, 0).right)))
    ensures UnlinkDone(s, i, n, k, x, mem, bits)
  {
    BinAt(s, i);
    if k > 0 {
      ChainedPost(s, i, n, k, x, mem);
    } else {
      PhaseOneReady(s, i, n, x, m1, r);
      if |n.ring| > 1 {
        assert DelNode(n, 0) == n.(ring := Without(n.ring, 0));
        HeadPost(s, i, n, x, mem);
      } else {
        RemovedNil(s, i, n, 0, x);
        LonePost(s, i, n, x, m1, mem);
      }
    }
  }
  method UnlinkLargeChunk(m: Mspace, x: int, ghost i: int)
    requires m.Sound() && 0 <= i < 32 && x in Members(m.B.tree[i])
    modifies m`mem, m.words, m`treemap, m`B
    ensures m.Sound() && SamePayload(old(m.mem), m.mem, m.C, m.base)
    ensures m.B.small == old(m.B).small && |old(m.B).tree| == 32 && m.B.tree == old(m.B).tree[i := m.B.tree[i]]
    ensures forall y :: y in Members(m.B.tree[i]) <==> y in Members(old(m.B).tree[i]) && y != x
  {
    ghost var s := m.S();
    ghost var n, k := WhereIs(s, i, x);
    NodeWords(s, i, n, k, x);
    var xp := m.Get(x, PARENT);
    var r := Detach(m, x, i, n, k);
    ghost var m1 := m.mem;
    if xp != 0 {
      PhaseOneReady(s, i, n, x, m1, r);
      Relocate(m, x, xp, r, i, n, s);
    }
    PhaseTwoPost(s, i, n, k, x, m1, r, m.mem, m.treemap);
    m.B := m.B.(tree := m.B.tree[i := Removed(s.B.tree[i], n, k)]);
    assert m.S() == WithTree(s, m.mem, m.treemap, i, m.B.tree[i]);
  }
  lemma WhereIs(s: St, i: int, x: int) returns (n: Tree, k: int)
    requires SoundSt(s) && 0 <= i < 32 && x in Members(s.B.tree[i])
    ensures InNodeAt(s, i, n, k, x)
  {
    BinAt(s, i); TrieUniq(s.B.tree[i], Lo(i), Span(i));
    n, k := Find(s.B.tree[i], s.C, x);
  }
}
