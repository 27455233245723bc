/** insert_large_chunk (kernel/malloc.c:2879-2928). */
module TreeInsertMacro {
  import opened Words
  import opened Chunks
  import opened Bits
  import opened TreeIndexing
  import opened Tries
  import opened Bins
  import opened SmallOps
  import opened TreeOps
  import opened TreeBins
  import opened TrieBits
  import opened Mspaces

  ghost function WithTree(s: St, mem: Mem, bits: int, i: int, t: Tree): St
    requires 0 <= i < |s.B.tree|
  {
    s.(mem := mem, treemap := bits, B := s.B.(tree := s.B.tree[i := t]))
  }
  lemma TreeSound(s: St, mem: Mem, bits: int, i: int, t: Tree)
    requires SoundSt(s) && 0 <= i < 32 && OnlyBin(s.mem, mem, s.C, s.base, 32 + i)
    requires TreeBin(mem, s.C, s.base, bits, t, i) && bits < W32 && AgreeBut(s.treemap, bits, i)
    ensures SoundSt(WithTree(s, mem, bits, i, t)) && SamePayload(s.mem, mem, s.C, s.base)
  {
    OnlyBinKeeps(s.mem, mem, s.C, s.base, s.top, s.topsize, 32 + i);
    OneTreeBin(s.mem, mem, s.C, s.base, s.top, s.smallmap, s.treemap, bits, s.B, i, t);
  }
  lemma BinAt(s: St, i: int)
    requires SoundSt(s) && 0 <= i < 32
    ensures TreeBin(s.mem, s.C, s.base, s.treemap, s.B.tree[i], i) && s.top < W32
  {
    assert TreeAt(s.mem, s.C, s.base, s.treemap, s.B.tree, i);
    assert ChunkOK(s.C, s.base, s.base, s.top);
  }
  // a size occurs once in a tree bin
  lemma BinUniq(s: St, i: int)
    requires SoundSt(s) && 0 <= i < 32
    ensures |s.B.tree| == 32 && Uniq(s.B.tree[i])
  {
    BinAt(s, i);
    TrieUniq(s.B.tree[i], Lo(i), Span(i));
  }
  ghost predicate Fresh(s: St, x: int, sz: int, i: int) {
    SoundSt(s) && 0x100 <= sz && Free(s.C, x, sz) && 0 <= i < 32 && i == TreeIndex(sz) && x !in Members(s.B.tree[i])
  }
  lemma FreshFor(s: St, x: int, sz: int, i: int)
    requires Fresh(s, x, sz, i)
    ensures NewFor(s.C, s.B.tree[i], i, x, sz) && Lo(i) <= sz < Lo(i) + Span(i)
    ensures NodeAddr(x, s.base, s.end)
    ensures IsAddr(TreebinAt(s.base, i), 0, s.base, s.end) && 0 < TreebinAt(s.base, i) < W32
  {
    assert ChunkOK(s.C, x, s.base, s.top) && Sep(s.C, s.base, x);
    TreeIndexOK(sz); MinSizeStep(i);
    HeaderAddr(s, i);
    LargeAddr(s, x);
  }

  // X gets its bin index and no children
  ghost function Prepared(m: Mem, x: int, i: int): Mem { m[x + INDEX := i][x + CHILD1 := 0][x + CHILD0 := 0] }
  method Prepare(m: Mspace, x: int, i: int)
    requires m.Rep() && 0 <= i < 32 && NodeAddr(x, m.base, m.base + m.capacity)
    modifies m`mem, m.words
    ensures m.Rep() && m.mem == Prepared(old(m.mem), x, i)
  {
    m.Set(x, INDEX, i);
    m.Set(x, CHILD1, 0);
    m.Set(x, CHILD0, 0);
  }
  // X hangs in a child slot of T, alone in its ring
  method Hang(m: Mspace, x: int, par: int, slot: int)
    requires m.Rep() && NodeAddr(x, m.base, m.base + m.capacity) && 0 <= par < W32
      && IsAddr(slot, 0, m.base, m.base + m.capacity)
    modifies m`mem, m.words
    ensures m.Rep() && m.mem == old(m.mem)[slot := x][x + PARENT := par][x + BK := x][x + FD := x]
  {
    m.Set(slot, 0, x);
    m.Set(x, PARENT, par);
    m.Set(x, BK, x);
    m.Set(x, FD, x);
  }
  // X joins the ring between T and F, with no place in the tree
  method Chain(m: Mspace, x: int, t: int, f: int)
    requires m.Rep() && NodeAddr(x, m.base, m.base + m.capacity)
    requires NodeAddr(t, m.base, m.base + m.capacity) && NodeAddr(f, m.base, m.base + m.capacity)
    modifies m`mem, m.words
    ensures m.Rep() && m.mem == old(m.mem)[f + BK := x][t + FD := x][x + FD := f][x + BK := t][x + PARENT := 0]
  {
    m.Set(f, BK, x);
    m.Set(t, FD, x);
    m.Set(x, FD, f);
    m.Set(x, BK, t);
    m.Set(x, PARENT, 0);
  }

  // the descent has come to the node cur of bin i, with K the bits of the size still to be used
  ghost predicate Walking(s: St, x: int, sz: int, i: int, cur: Tree, lo: int, e: nat, k: int) {
    && Fresh(s, x, sz, i) && Reached(s.B.tree[i], cur, lo, Pow2(e), i, sz, x) && Holds(k, sz - lo, e)
  }
  lemma WalkStart(s: St, x: int, sz: int, i: int)
    requires Fresh(s, x, sz, i) && s.B.tree[i].Node?
    ensures Walking(s, x, sz, i, s.B.tree[i], Lo(i), SpanBits(i), SizeBits(sz, i))
    ensures Fld(Prepared(s.mem, x, i), TreebinAt(s.base, i), 0) == Root(s.B.tree[i])
  {
    BinAt(s, i); FreshFor(s, x, sz, i);
    SpanIs(i); SizeBitsHold(sz, i);
    ReachedRoot(s.B.tree[i], i, sz, x);
    NewSpread(s.mem, s.C, s.base, s.top, s.treemap, s.B.tree[i], i, x, sz);
  }
  lemma WalkDir(s: St, x: int, sz: int, i: int, cur: Tree, lo: int, e: nat, k: int, d: bool)
    requires Walking(s, x, sz, i, cur, lo, e, k) && cur.size != sz && d == SignBit(k)
    ensures e > 0 && (d <==> sz >= lo + Pow2(e) / 2) && 0 <= k < W32
    ensures Holds(ShiftLeft(k), if d then sz - (lo + Pow2(e - 1)) else sz - lo, e - 1)
  {
    assert lo <= cur.size < lo + Pow2(e);
    Descend(k, sz - lo, e);
    assert Pow2(e) / 2 == Pow2(e - 1);
  }
  lemma WalkStep(s: St, x: int, sz: int, i: int, cur: Tree, lo: int, e: nat, k: int, d: bool)
    requires Walking(s, x, sz, i, cur, lo, e, k) && cur.size != sz && d == SignBit(k) && Kid(cur, d).Node?
    ensures e > 0 && Walking(s, x, sz, i, Kid(cur, d), if d then lo + Pow2(e - 1) else lo, e - 1, ShiftLeft(k))
  {
    hide SignBit, ShiftLeft, Holds, Reached;
    FreshFor(s, x, sz, i);
    BinAt(s, i);
    TrieUniq(s.B.tree[i], Lo(i), Span(i));
    WalkDir(s, x, sz, i, cur, lo, e, k, d);
    ReachedHalf(s.B.tree[i], cur, lo, e, i, sz, x, d);
    if d { assert sz - (lo + Pow2(e - 1)) == sz - lo - Pow2(e - 1); }
  }
  lemma ReachedHalf(t: Tree, cur: Tree, lo: int, e: nat, i: int, sz: int, x: int, d: bool)
    requires e > 0 && Uniq(t) && Reached(t, cur, lo, Pow2(e), i, sz, x) && cur.size != sz
      && d == (sz >= lo + Pow2(e) / 2) && Kid(cur, d).Node?
    ensures Reached(t, Kid(cur, d), if d then lo + Pow2(e - 1) else lo, Pow2(e - 1), i, sz, x)
  {
    hide Reached, Uniq;
    ReachedKid(t, cur, lo, Pow2(e), i, sz, x, d);
    assert Pow2(e) / 2 == Pow2(e - 1) && Pow2(e) - Pow2(e) / 2 == Pow2(e - 1);
  }
  ghost predicate Shown(s: St, x: int, i: int, cur: Tree) {
    && cur.Node? && 0 <= i < 32
    && var t := Root(cur); var mem := Prepared(s.mem, x, i);
      && |cur.ring| > 0 && NodeAddr(t, s.base, s.end) && NodeAddr(Prv(cur.ring, 0), s.base, s.end)
      && ChunkSize(Fld(mem, t, HEAD)) == cur.size && Fld(mem, t, FD) == Prv(cur.ring, 0)
      && Fld(mem, t, CHILD0) == Root(cur.left) && Fld(mem, t, CHILD1) == Root(cur.right)
      && (Root(cur.left) == 0 <==> cur.left.Nil?) && (Root(cur.right) == 0 <==> cur.right.Nil?)
  }
  // what the walk reads at the node
  lemma WalkReads(s: St, x: int, sz: int, i: int, cur: Tree)
    requires Fresh(s, x, sz, i) && cur.Node? && cur.size in Sizes(s.B.tree[i]) && Sub(s.B.tree[i], cur.size) == cur
    ensures Shown(s, x, i, cur)
  {
    BinAt(s, i);
    CurFacts(s.mem, s.C, s.base, s.top, s.treemap, s.B.tree[i], cur, i, x, sz) by { FreshFor(s, x, sz, i); }
    var t, f := Root(cur), Prv(cur.ring, 0);
    assert f in cur.ring && f in Members(cur);
    ReadNode(s, i, cur);
    PreparedReads(s, x, sz, i, t);
    MemberAddr(s, i, t); MemberAddr(s, i, f);
    KidNonzero(s, i, cur);
  }
  lemma KidNonzero(s: St, i: int, cur: Tree)
    requires SoundSt(s) && 0 <= i < 32 && cur.Node? && Proper(cur) && Members(cur) <= Members(s.B.tree[i])
    ensures (Root(cur.left) == 0 <==> cur.left.Nil?) && (Root(cur.right) == 0 <==> cur.right.Nil?)
  {
    BinAt(s, i);
    BinTree(s.mem, s.C, s.base, s.top, s.treemap, s.B.tree[i], i);
    if cur.left.Node? { RootIn(cur.left); }
    if cur.right.Node? { RootIn(cur.right); }
  }
  lemma MemberAddr(s: St, i: int, y: int)
    requires SoundSt(s) && 0 <= i < 32 && y in Members(s.B.tree[i])
    ensures y in s.C && !s.C[y].used && s.C[y].size >= 0x100 && s.base + HEADER <= y < W32
    ensures NodeAddr(y, s.base, s.end)
  {
    BinAt(s, i);
    TreeMember(s.mem, s.C, s.base, s.top, s.treemap, s.B.tree[i], i, y);
    LargeAddr(s, y);
  }
  lemma ReadNode(s: St, i: int, cur: Tree)
    requires SoundSt(s) && 0 <= i < 32 && cur.Node? && |cur.ring| > 0
    requires cur.size in Sizes(s.B.tree[i]) && Sub(s.B.tree[i], cur.size) == cur
    ensures ChunkSize(Fld(s.mem, Root(cur), HEAD)) == cur.size && Fld(s.mem, Root(cur), FD) == Prv(cur.ring, 0)
    ensures Fld(s.mem, Root(cur), CHILD0) == Root(cur.left) && Fld(s.mem, Root(cur), CHILD1) == Root(cur.right)
  {
    BinAt(s, i);
    SubInTree(s.mem, s.B.tree[i], cur.size, TreebinAt(s.base, i), (0, 0), i);
    SubFits(s.B.tree[i], cur.size, s.C);
    assert Free(s.C, cur.ring[0], cur.size);
    HeadIs(s, Root(cur));
  }
  lemma PreparedReads(s: St, x: int, sz: int, i: int, t: int)
    requires Fresh(s, x, sz, i) && t in Members(s.B.tree[i])
    ensures forall o {:trigger Fld(s.mem, t, o)} :: 4 <= o < 32 ==> Fld(Prepared(s.mem, x, i), t, o) == Fld(s.mem, t, o)
  {
    MemberAddr(s, i, t);
    LargeApart(s.C, s.base, s.top, x, t);
  }

  ghost function Inserted(s: St, x: int, sz: int, i: int): Tree
    requires 0 <= i < |s.B.tree| && i < 32
  {
    Ins(s.B.tree[i], Lo(i), Span(i), sz, x)
  }
  lemma FirstPost(s: St, x: int, sz: int, i: int, mem: Mem)
    requires Fresh(s, x, sz, i) && !Marked(s.treemap, i)
    requires mem == LeafStores(s.mem, x, TreebinAt(s.base, i), TreebinAt(s.base, i), i)
    ensures var s' := WithTree(s, mem, Mark(s.treemap, i), i, Inserted(s, x, sz, i));
            SoundSt(s') && SamePayload(s.mem, mem, s.C, s.base)
  {
    BinAt(s, i); FreshFor(s, x, sz, i); MarkAgrees(s.treemap, i);
    FirstLeaf(s.mem, s.C, s.base, s.top, s.treemap, i, x, sz);
    TreeSound(s, mem, Mark(s.treemap, i), i, Inserted(s, x, sz, i));
  }
  lemma LeafPost(s: St, x: int, sz: int, i: int, cur: Tree, lo: int, e: nat, k: int, d: bool, mem: Mem)
    requires Walking(s, x, sz, i, cur, lo, e, k) && cur.size != sz && d == SignBit(k) && Kid(cur, d).Nil?
    requires mem == LeafStores(s.mem, x, Root(cur), Root(cur) + KidField(d), i)
    ensures var s' := WithTree(s, mem, s.treemap, i, Inserted(s, x, sz, i));
            SoundSt(s') && SamePayload(s.mem, mem, s.C, s.base)
  {
    BinAt(s, i); FreshFor(s, x, sz, i);
    WalkDir(s, x, sz, i, cur, lo, e, k, d);
    NewLeaf(s.mem, s.C, s.base, s.top, s.treemap, s.B.tree[i], cur, lo, Pow2(e), i, sz, x, d);
    TreeSound(s, mem, s.treemap, i, Inserted(s, x, sz, i));
  }
  lemma ChainPost(s: St, x: int, sz: int, i: int, cur: Tree, lo: int, e: nat, k: int, mem: Mem)
    requires Walking(s, x, sz, i, cur, lo, e, k) && cur.size == sz && |cur.ring| > 0
    requires mem == ChainStores(s.mem, x, Root(cur), Prv(cur.ring, 0), i)
    ensures var s' := WithTree(s, mem, s.treemap, i, Inserted(s, x, sz, i));
            SoundSt(s') && SamePayload(s.mem, mem, s.C, s.base)
  {
    BinAt(s, i); FreshFor(s, x, sz, i);
    NewLink(s.mem, s.C, s.base, s.top, s.treemap, s.B.tree[i], cur, lo, Pow2(e), i, sz, x);
    TreeSound(s, mem, s.treemap, i, Inserted(s, x, sz, i));
  }
  // The loop of insert_large_chunk up to its break: the node with X's size, or the node whose child X becomes.
  method Seek(m: Mspace, x: int, sz: int, i: int, ghost s0: St)
    returns (t: int, k: int, ghost cur: Tree, ghost lo: int, ghost e: nat)
    requires Fresh(s0, x, sz, i) && s0.B.tree[i].Node? && s0.base == m.base && s0.end == m.base + m.capacity
    requires m.Rep() && m.mem == Prepared(s0.mem, x, i)
    ensures Walking(s0, x, sz, i, cur, lo, e, k) && t == Root(cur)
    ensures Shown(s0, x, i, cur) && (cur.size == sz || Kid(cur, SignBit(k)).Nil?)
  {
    hide SignBit, ShiftLeft, TreeIndex, SizeBits, Mspace.Rep;
    FreshFor(s0, x, sz, i); WalkStart(s0, x, sz, i);
    t := m.Get(TreebinAt(m.base, i), 0);
    k := SizeBits(sz, i);
    cur, lo, e := s0.B.tree[i], Lo(i), SpanBits(i);
    while true
      invariant Walking(s0, x, sz, i, cur, lo, e, k) && t == Root(cur)
      decreases e
    {
      WalkReads(s0, x, sz, i, cur);
      if ChunkSize(m.Get(t, HEAD)) == sz { return; }
      var right := SignBit(k);
      var c := m.Get(t, if right then CHILD1 else CHILD0);
      if c == 0 { return; }
      WalkStep(s0, x, sz, i, cur, lo, e, k, right);
      cur, lo, e := Kid(cur, right), if right then lo + Pow2(e - 1) else lo, e - 1;
      t, k := c, ShiftLeft(k);
    }
  }
  method InsertBelow(m: Mspace, x: int, sz: int, i: int, ghost s0: St)
    requires Fresh(s0, x, sz, i) && s0.B.tree[i].Node? && s0.base == m.base && s0.end == m.base + m.capacity
    requires m.Rep() && m.mem == Prepared(s0.mem, x, i)
    modifies m`mem, m.words
    ensures m.Rep()
    ensures SoundSt(WithTree(s0, m.mem, s0.treemap, i, Inserted(s0, x, sz, i)))
      && SamePayload(s0.mem, m.mem, s0.C, s0.base)
  {
    hide SignBit, Inserted, ChunkSize, Walking, Fresh, SoundSt, SamePayload, WithTree, Prepared;
    ghost var cur, lo, e;
    var t, k;
    t, k, cur, lo, e := Seek(m, x, sz, i, s0);
    if ChunkSize(m.Get(t, HEAD)) != sz {
      InsertLeaf(m, x, sz, i, t, k, s0, cur, lo, e);
    } else {
      InsertLink(m, x, sz, i, t, k, s0, cur, lo, e);
    }
  }
  // X becomes the missing child of the node
  method InsertLeaf(m: Mspace, x: int, sz: int, i: int, t: int, k: int, ghost s0: St, ghost cur: Tree, ghost lo: int,
    ghost e: nat)
    requires Walking(s0, x, sz, i, cur, lo, e, k) && Shown(s0, x, i, cur) && t == Root(cur) && cur.size != sz
      && Kid(cur, SignBit(k)).Nil?
    requires m.Rep() && m.mem == Prepared(s0.mem, x, i) && s0.base == m.base && s0.end == m.base + m.capacity
    modifies m`mem, m.words
    ensures m.Rep()
    ensures SoundSt(WithTree(s0, m.mem, s0.treemap, i, Inserted(s0, x, sz, i)))
      && SamePayload(s0.mem, m.mem, s0.C, s0.base)
  {
    hide SignBit, Inserted, ChunkSize, Fresh, SoundSt, SamePayload, WithTree;
    FreshFor(s0, x, sz, i);
    var c := if SignBit(k) then CHILD1 else CHILD0;
    if t + c >= m.base {
      HangAt(m, x, t, c);
      LeafPost(s0, x, sz, i, cur, lo, e, k, SignBit(k), m.mem);
    } else {
      assert false;
    }
  }
  // X joins the ring of the node
  method InsertLink(m: Mspace, x: int, sz: int, i: int, t: int, k: int, ghost s0: St, ghost cur: Tree, ghost lo: int,
    ghost e: nat)
    requires Walking(s0, x, sz, i, cur, lo, e, k) && Shown(s0, x, i, cur) && t == Root(cur) && cur.size == sz
    requires m.Rep() && m.mem == Prepared(s0.mem, x, i) && s0.base == m.base && s0.end == m.base + m.capacity
    modifies m`mem, m.words
    ensures m.Rep()
    ensures SoundSt(WithTree(s0, m.mem, s0.treemap, i, Inserted(s0, x, sz, i)))
      && SamePayload(s0.mem, m.mem, s0.C, s0.base)
  {
    hide SignBit, Inserted, ChunkSize, Fresh, SoundSt, SamePayload, WithTree, Mspace.Rep;
    FreshFor(s0, x, sz, i);
    var f := m.Get(t, FD);
    if t >= m.base && f >= m.base {
      Chain(m, x, t, f);
      ChainPost(s0, x, sz, i, cur, lo, e, k, m.mem);
    } else {
      assert false;
    }
  }
  method HangAt(m: Mspace, x: int, t: int, c: int)
    requires m.Rep() && NodeAddr(x, m.base, m.base + m.capacity) && NodeAddr(t, m.base, m.base + m.capacity)
      && (c == CHILD0 || c == CHILD1)
    modifies m`mem, m.words
    ensures m.Rep() && m.mem == old(m.mem)[t + c := x][x + PARENT := t][x + BK := x][x + FD := x]
  {
    assert IsAddr(t, c, m.base, m.base + m.capacity);
    Hang(m, x, t, t + c);
  }
  method InsertLargeChunk(m: Mspace, x: int, s: int)
    requires m.Sound() && s >= 0x100 && Fresh(m.S(), x, s, TreeIndex(s))
    modifies m`mem, m.words, m`treemap, m`B
    ensures m.Sound() && SamePayload(old(m.mem), m.mem, m.C, m.base)
    ensures var i := TreeIndex(s);
      m.B == old(m.B).(tree := old(m.B.tree)[i := Ins(old(m.B.tree[i]), Lo(i), Span(i), s, x)])
  {
    hide TreeIndex, SamePayload, Fresh, Marked, Mark, Mspace.Rep, Shape, Tags;
    var i := TreeIndex(s);
    var h := TreebinAt(m.base, i);
    ghost var s0 := m.S();
    FreshFor(s0, x, s, i); BinAt(s0, i);
    Prepare(m, x, i);
    if !Marked(m.treemap, i) {
      m.treemap := Mark(m.treemap, i);
      Hang(m, x, h, h);
      FirstPost(s0, x, s, i, m.mem);
    } else {
      InsertBelow(m, x, s, i, s0);
    }
    m.B := m.B.(tree := m.B.tree[i := Inserted(s0, x, s, i)]);
    assert m.S() == WithTree(s0, m.mem, m.treemap, i, m.B.tree[i]);
  }
}
