/** Insertion into and removal from one tree bin (kernel/malloc.c:2879-3016), on the words of memory. */
module TreeBins {
  import opened Words
  import opened Chunks
  import opened Bits
  import opened TreeIndexing
  import opened Tries
  import opened Bins
  import opened TreeOps

  lemma LargeApart(C: Chunks, base: int, top: int, x: int, y: int)
    requires Shape(C, base, top) && x in C && y in C && C[x].size >= 32 && C[y].size >= 32
    ensures Clear32(x, y)
  {
    assert Sep(C, x, y) && Sep(C, y, x);
  }
  lemma BinTree(m: Mem, C: Chunks, base: int, top: int, bits: int, t: Tree, i: int)
    requires Shape(C, base, top) && top < W32 && TreeBin(m, C, base, bits, t, i)
    ensures Uniq(t) && Proper(t) && Spread(Members(t)) && 0 !in Members(t)
    ensures forall y :: y in Members(t) ==> TreebinAt(base, i) + 4 <= y
  {
    TrieUniq(t, Lo(i), Span(i));
    FitsProper(m, t, TreebinAt(base, i), i, C);
    forall x, y ensures x in Members(t) && y in Members(t) ==> Clear32(x, y) {
      if x in Members(t) && y in Members(t) {
        TreeMember(m, C, base, top, bits, t, i, x); TreeMember(m, C, base, top, bits, t, i, y);
        LargeApart(C, base, top, x, y);
      }
    }
    forall y | y in Members(t) ensures TreebinAt(base, i) + 4 <= y && y != 0 {
      TreeMember(m, C, base, top, bits, t, i, y);
    }
  }
  ghost predicate NewFor(C: Chunks, t: Tree, i: int, x: int, s: int) {
    0 <= i < 32 && Free(C, x, s) && x !in Members(t) && MinSize(i) <= s < W32 && s < Lo(i) + Span(i)
  }
  lemma NewSpread(m: Mem, C: Chunks, base: int, top: int, bits: int, t: Tree, i: int, x: int, s: int)
    requires Shape(C, base, top) && top < W32 && TreeBin(m, C, base, bits, t, i) && NewFor(C, t, i, x, s)
    ensures Spread(Members(t) + {x})
    ensures BinOf(s) == 32 + i && s >= 0x100 && x >= base + HEADER
  {
    BinTree(m, C, base, top, bits, t, i);
    RangeIs(s, i);
    assert Sep(C, base, x) && ChunkOK(C, x, base, top);
    forall y | y in Members(t) ensures Clear32(x, y) && Clear32(y, x) {
      TreeMember(m, C, base, top, bits, t, i, y);
      LargeApart(C, base, top, x, y);
    }
    forall a, b ensures a in Members(t) + {x} && b in Members(t) + {x} ==> Clear32(a, b) {}
  }
  lemma SpreadSub(s: set<int>, s': set<int>)
    requires Spread(s) && s' <= s
    ensures Spread(s')
  {
    forall a, b ensures a in s' && b in s' ==> Clear32(a, b) {}
  }

  // ---- insertion ----

  lemma FirstLeaf(m: Mem, C: Chunks, base: int, top: int, bits: int, i: int, x: int, s: int)
    requires Shape(C, base, top) && top < W32 && TreeBin(m, C, base, bits, Nil, i) && NewFor(C, Nil, i, x, s)
    ensures var h := TreebinAt(base, i); var m' := LeafStores(m, x, h, h, i);
      TreeBin(m', C, base, Mark(bits, i), Ins(Nil, Lo(i), Span(i), s, x), i) && OnlyBin(m, m', C, base, 32 + i)
  {
    var h := TreebinAt(base, i);
    NewSpread(m, C, base, top, bits, Nil, i, x, s);
    LeafSelf(m, x, h, h, i, s);
    MarkBit(bits, i, i);
    LeafOnly(m, C, base, i, x, s, h, h);
  }
  lemma LeafOnly(m: Mem, C: Chunks, base: int, i: int, x: int, s: int, par: int, slot: int)
    requires Free(C, x, s) && s >= 0x100 && BinOf(s) == 32 + i && InBin(C, base, 32 + i, slot)
    ensures OnlyBin(m, LeafStores(m, x, par, slot, i), C, base, 32 + i)
  {
    InsideBin(C, base, x, INDEX); InsideBin(C, base, x, CHILD1); InsideBin(C, base, x, CHILD0);
    InsideBin(C, base, x, PARENT); InsideBin(C, base, x, BK); InsideBin(C, base, x, FD);
  }
  // `cur` is the node of t that the descent for size s has reached
  ghost predicate Reached(t: Tree, cur: Tree, lo: int, w: int, i: int, s: int, x: int) {
    && 0 <= i < 32 && cur.Node? && cur.size in Sizes(t) && Sub(t, cur.size) == cur
    && Trie(cur, lo, w) && lo <= s < lo + w
    && Ins(t, Lo(i), Span(i), s, x) == Put(t, cur.size, Ins(cur, lo, w, s, x))
  }
  lemma ReachedRoot(t: Tree, i: int, s: int, x: int)
    requires 0 <= i < 32 && t.Node? && Trie(t, Lo(i), Span(i)) && Lo(i) <= s < Lo(i) + Span(i)
    ensures Reached(t, t, Lo(i), Span(i), i, s, x)
  {}
  lemma ReachedKid(t: Tree, cur: Tree, lo: int, w: int, i: int, s: int, x: int, d: bool)
    requires Uniq(t) && Reached(t, cur, lo, w, i, s, x) && cur.size != s && d == (s >= lo + w / 2) && Kid(cur, d).Node?
    ensures Reached(t, Kid(cur, d), if d then lo + w / 2 else lo, if d then w - w / 2 else w / 2, i, s, x)
  {
    var kid, z := Kid(cur, d), Kid(cur, d).size;
    SubUniq(t, cur.size);
    assert z in Sizes(cur);
    assert Dir(cur, z) == d;
    SubSub(t, cur.size, z, (0, 0), 0);
    var n := if d then Ins(kid, lo + w / 2, w - w / 2, s, x) else Ins(kid, lo, w / 2, s, x);
    PutPut(t, cur.size, z, n);
    assert Put(cur, z, n) == WithKid(cur, d, n);
  }
  // a new subtree with the old root, and the rest of the tree untouched
  lemma Grown(m: Mem, m': Mem, C: Chunks, base: int, top: int, bits: int, t: Tree, cur: Tree, n: Tree, lo: int, w: int,
    i: int, s: int, x: int)
    requires Shape(C, base, top) && top < W32 && TreeBin(m, C, base, bits, t, i) && NewFor(C, t, i, x, s)
    requires Reached(t, cur, lo, w, i, s, x) && n == Ins(cur, lo, w, s, x) && Root(n) == Root(cur)
    requires InTree(m', n, Parent(t, cur.size, TreebinAt(base, i)), i)
    requires Same(m, m', Others(t, cur.size)) && Fld(m', TreebinAt(base, i), 0) == Fld(m, TreebinAt(base, i), 0)
    ensures TreeBin(m', C, base, bits, Ins(t, Lo(i), Span(i), s, x), i)
  {
    BinTree(m, C, base, top, bits, t, i);
    PutSameRoot(m, m', t, cur.size, n, TreebinAt(base, i), i);
    InsTrie(t, Lo(i), Span(i), s, x);
    InsFits(t, Lo(i), Span(i), s, x, C);
  }
  lemma NewLeaf(m: Mem, C: Chunks, base: int, top: int, bits: int, t: Tree, cur: Tree, lo: int, w: int, i: int, s: int,
    x: int, d: bool)
    requires Shape(C, base, top) && top < W32 && TreeBin(m, C, base, bits, t, i) && NewFor(C, t, i, x, s)
    requires Reached(t, cur, lo, w, i, s, x) && cur.size != s && d == (s >= lo + w / 2) && Kid(cur, d).Nil?
    ensures var m' := LeafStores(m, x, Root(cur), Root(cur) + KidField(d), i);
      TreeBin(m', C, base, bits, Ins(t, Lo(i), Span(i), s, x), i) && OnlyBin(m, m', C, base, 32 + i)
  {
    hide TreeBin, Shape, OnlyBin, InTree, RingNode, Trie, Uniq, Others, Members, LeafStores;
    var r, f := Root(cur), KidField(d);
    CurFacts(m, C, base, top, bits, t, cur, i, x, s);
    LeafAt(m, cur, d, Parent(t, cur.size, TreebinAt(base, i)), i, x, s);
    LeafOthers(m, Members(t), Others(t, cur.size), x, r, r, f, i);
    LeafHeader(m, x, r, r + f, i, TreebinAt(base, i));
    assert Ins(cur, lo, w, s, x) == WithKid(cur, d, Node([x], s, Nil, Nil));
    Grown(m, LeafStores(m, x, r, r + f, i), C, base, top, bits, t, cur, WithKid(cur, d, Node([x], s, Nil, Nil)), lo, w,
      i, s, x);
    MemberWord(m, C, base, top, bits, t, i, r, f);
    LeafOnly(m, C, base, i, x, s, r, r + f);
  }
  lemma MemberWord(m: Mem, C: Chunks, base: int, top: int, bits: int, t: Tree, i: int, r: int, o: int)
    requires Shape(C, base, top) && top < W32 && TreeBin(m, C, base, bits, t, i) && r in Members(t) && 8 <= o < 32
    ensures InBin(C, base, 32 + i, r + o)
  {
    TreeMember(m, C, base, top, bits, t, i, r);
    InsideBin(C, base, r, o);
  }
  lemma LeafHeader(m: Mem, x: int, par: int, slot: int, i: int, h: int)
    requires h < x + 8 && h != slot
    ensures Fld(LeafStores(m, x, par, slot, i), h, 0) == Fld(m, h, 0)
  {}
  lemma ChainHeader(m: Mem, x: int, r: int, f: int, i: int, h: int)
    requires h < x + 8 && h < r + 8 && h < f + 8
    ensures Fld(ChainStores(m, x, r, f, i), h, 0) == Fld(m, h, 0)
  {}
  lemma LeafOthers(m: Mem, all: set<int>, others: set<int>, x: int, par: int, r: int, f: int, i: int)
    requires Spread(all + {x}) && r in all && x !in all && (f == CHILD0 || f == CHILD1)
    requires forall y :: y in others ==> y in all && y != r
    ensures Same(m, LeafStores(m, x, par, r + f, i), others)
  {
    forall y, o | y in others && 8 <= o < 32 ensures Fld(LeafStores(m, x, par, r + f, i), y, o) == Fld(m, y, o) {
      assert Clear32(x, y) && Clear32(r, y);
      LeafOther(m, x, par, r + f, i, y, o);
    }
  }
  lemma CurFacts(m: Mem, C: Chunks, base: int, top: int, bits: int, t: Tree, cur: Tree, i: int, x: int, s: int)
    requires Shape(C, base, top) && top < W32 && TreeBin(m, C, base, bits, t, i) && NewFor(C, t, i, x, s)
    requires cur.Node? && cur.size in Sizes(t) && Sub(t, cur.size) == cur
    ensures InTree(m, cur, Parent(t, cur.size, TreebinAt(base, i)), i) && Proper(cur) && Members(cur) <= Members(t)
    ensures x !in Members(cur) && Spread(Members(cur) + {x}) && Spread(Members(t) + {x})
    ensures Root(cur) in Members(t) && Root(cur) in Members(cur)
    ensures forall y :: y in Others(t, cur.size) ==> y in Members(t) && y != Root(cur) && y != x
    ensures forall y :: y in Members(t) + {x} ==> TreebinAt(base, i) + 4 <= y
    ensures BinOf(s) == 32 + i && s >= 0x100
  {
    BinTree(m, C, base, top, bits, t, i);
    NewSpread(m, C, base, top, bits, t, i, x, s);
    SubSizes(t, cur.size);
    SubInTree(m, t, cur.size, TreebinAt(base, i), (0, 0), i);
    SubProper(t, cur.size);
    SpreadSub(Members(t) + {x}, Members(cur) + {x});
    RootIn(cur);
    OthersApart(t, cur.size);
  }
  lemma NewLink(m: Mem, C: Chunks, base: int, top: int, bits: int, t: Tree, cur: Tree, lo: int, w: int, i: int, s: int,
    x: int)
    requires Shape(C, base, top) && top < W32 && TreeBin(m, C, base, bits, t, i) && NewFor(C, t, i, x, s)
    requires Reached(t, cur, lo, w, i, s, x) && cur.size == s && |cur.ring| > 0
    ensures var m' := ChainStores(m, x, Root(cur), Prv(cur.ring, 0), i);
      TreeBin(m', C, base, bits, Ins(t, Lo(i), Span(i), s, x), i) && OnlyBin(m, m', C, base, 32 + i)
  {
    var r, f := Root(cur), Prv(cur.ring, 0);
    CurFacts(m, C, base, top, bits, t, cur, i, x, s);
    ChainAt(m, cur, Parent(t, cur.size, TreebinAt(base, i)), i, x);
    assert f in cur.ring && f in Members(cur);
    OthersApart2(m, C, base, top, bits, t, cur, i);
    ChainOthers(m, Members(t), Others(t, cur.size), x, r, f, i);
    ChainHeader(m, x, r, f, i, TreebinAt(base, i));
    Grown(m, ChainStores(m, x, r, f, i), C, base, top, bits, t, cur, cur.(ring := cur.ring + [x]), lo, w, i, s, x);
    ChainOnly(m, C, base, top, bits, t, i, x, s, r, f);
  }
  lemma ChainOthers(m: Mem, all: set<int>, others: set<int>, x: int, r: int, f: int, i: int)
    requires Spread(all + {x}) && r in all && f in all && x !in all
    requires forall y :: y in others ==> y in all && y != r && y != f
    ensures Same(m, ChainStores(m, x, r, f, i), others)
  {
    forall y, o | y in others && 8 <= o < 32 ensures Fld(ChainStores(m, x, r, f, i), y, o) == Fld(m, y, o) {
      assert Clear32(x, y) && Clear32(r, y) && Clear32(f, y) && Clear32(x, r) && Clear32(x, f);
      ChainOther(m, x, r, f, i, y, o);
    }
  }
  lemma OthersApart2(m: Mem, C: Chunks, base: int, top: int, bits: int, t: Tree, cur: Tree, i: int)
    requires Shape(C, base, top) && top < W32 && TreeBin(m, C, base, bits, t, i)
    requires cur.Node? && cur.size in Sizes(t) && Sub(t, cur.size) == cur
    ensures forall y :: y in Others(t, cur.size) ==> y in Members(t) && y !in Members(cur)
  {
    BinTree(m, C, base, top, bits, t, i);
    OthersApart(t, cur.size);
  }
  lemma ChainOnly(m: Mem, C: Chunks, base: int, top: int, bits: int, t: Tree, i: int, x: int, s: int, r: int, f: int)
    requires Shape(C, base, top) && top < W32 && TreeBin(m, C, base, bits, t, i)
    requires Free(C, x, s) && s >= 0x100 && BinOf(s) == 32 + i && r in Members(t) && f in Members(t)
    ensures OnlyBin(m, ChainStores(m, x, r, f, i), C, base, 32 + i)
  {
    hide Shape, TreeBin, BinOf;
    MemberWord(m, C, base, top, bits, t, i, r, FD); MemberWord(m, C, base, top, bits, t, i, f, BK);
    InsideBin(C, base, x, INDEX); InsideBin(C, base, x, CHILD1); InsideBin(C, base, x, CHILD0);
    InsideBin(C, base, x, PARENT); InsideBin(C, base, x, BK); InsideBin(C, base, x, FD);
  }

  // ---- removal ----

  lemma DelNodeSizes(n: Tree, k: int, lo: int, w: int)
    requires n.Node? && 0 <= k < |n.ring| && Trie(n, lo, w)
    ensures Trie(DelNode(n, k), lo, w) && Sizes(DelNode(n, k)) <= Sizes(n)
  {
    if |n.ring| == 1 && (n.left.Node? || n.right.Node?) { LiftLeafTrie(n, lo, w); }
  }
  lemma DelNodeMembers(n: Tree, k: int)
    requires n.Node? && 0 <= k < |n.ring| && Uniq(n) && Proper(n) && Distinct(n.ring)
    ensures forall y :: y in Members(DelNode(n, k)) <==> y in Members(n) && y != n.ring[k]
    ensures Proper(DelNode(n, k))
  {
    if |n.ring| > 1 {
      WithoutIs(n.ring, k);
    } else if n.left.Node? || n.right.Node? {
      LiftLeafMembers(n);
    } else {
      assert forall y :: y in n.ring <==> y == n.ring[0];
    }
  }
  lemma DelNodeFits(n: Tree, k: int, C: Chunks)
    requires n.Node? && 0 <= k < |n.ring| && Uniq(n) && Fits(n, C)
    ensures Fits(DelNode(n, k), C)
  {
    if |n.ring| > 1 { assert forall y :: y in Without(n.ring, k) ==> y in n.ring; }
    else if n.left.Node? || n.right.Node? { LiftLeafFits(n, C); }
  }
}
