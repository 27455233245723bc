/** The searches of tmalloc_large and tmalloc_small (kernel/malloc.c:3549-3598, 3619-3637). */
module BestFit {
  import opened Words
  import opened Chunks
  import opened Bits
  import opened TreeIndexing
  import opened Tries
  import opened Bins
  import opened TreeCuts
  import opened TrieBits
  import opened Mspaces
  import TreeInsertMacro
  import TreeUnlinkMacro
  import TreeRemoval

  // z is the size of a chunk in a tree bin
  ghost predicate Has(s: St, z: int) {
    0x100 <= z < W32 && |s.B.tree| == 32 && TreeIndex(z) < 32 && z in Sizes(s.B.tree[TreeIndex(z)])
  }
  lemma HasBin(s: St, i: int, z: int)
    requires SoundSt(s) && 0 <= i < 32 && z in Sizes(s.B.tree[i])
    ensures Has(s, z) && TreeIndex(z) == i
  {
    TreeInsertMacro.BinAt(s, i);
    TrieRange(s.B.tree[i], Lo(i), Span(i));
    if i < 31 { MinSizeStep(i); MinSizeMono(i + 1, 31); LastMin(); }
    RangeIs(z, i);
    TreeIndexOK(z);
  }
  lemma HasListed(s: St, q: int)
    requires SoundSt(s) && Listed(s.B, q) && q in s.C && s.C[q].size >= 0x100
    ensures Has(s, s.C[q].size)
  {
    TreeInsertMacro.BinAt(s, 0);
    ListedHome(s.mem, s.C, s.base, s.top, s.smallmap, s.treemap, s.B, q);
    assert ChunkOK(s.C, q, s.base, s.top);
    TreeIndexOK(s.C[q].size);
    var i := TreeIndex(s.C[q].size);
    TreeInsertMacro.BinAt(s, i);
    FitsMember(s.B.tree[i], s.C, q);
  }

  // the sizes from z up need not be looked at once the tree t has been
  ghost predicate Dominated(t: Tree, z: int) { t.Node? && (z in Sizes(t) || forall y :: y in Sizes(t) ==> y <= z) }
  ghost predicate Goal(s: St, nb: int, rsize: int, t: Tree, z: int) {
    Has(s, z) && z >= nb ==> rsize <= z - nb || Dominated(t, z)
  }
  ghost predicate Best(s: St, nb: int, rsize: int, t: Tree) {
    forall z {:trigger Goal(s, nb, rsize, t, z)} :: Goal(s, nb, rsize, t, z)
  }
  // v is the chunk chosen so far, with rsize to spare
  ghost predicate Chosen(s: St, nb: int, v: int, rsize: int) {
    if v == 0
    then rsize == W32 - nb
    else Listed(s.B, v) && Free(s.C, v, nb + rsize) && nb + rsize >= 0x100 && Has(s, nb + rsize)
         && 0 <= rsize < W32 - nb
  }
  // the unsigned subtraction chunksize(t) - nb
  function Spare(size: int, nb: int): int { if size < nb then size - nb + W32 else size - nb }
  // the chunk that stands for the node cur
  lemma NodeChunk(s: St, i: int, cur: Tree)
    requires SoundSt(s) && 0 <= i < 32 && At(s.B.tree[i], cur)
    ensures var c := Root(cur); NodeAddr(c, s.base, s.end) && c != 0 && ChunkSize(Fld(s.mem, c, HEAD)) == cur.size
    ensures var c := Root(cur); Free(s.C, c, cur.size) && Listed(s.B, c) && Has(s, cur.size) && 0x100 <= cur.size < W32
  {
    hide ChunkSize, TreeIndex;
    HasBin(s, i, cur.size);
    TreeUnlinkMacro.CurWords(s, i, cur);
    TreeInsertMacro.ReadNode(s, i, cur);
    NodeListed(s, i, cur);
  }
  lemma NodeListed(s: St, i: int, cur: Tree)
    requires SoundSt(s) && 0 <= i < 32 && At(s.B.tree[i], cur) && |cur.ring| > 0
    ensures Free(s.C, Root(cur), cur.size) && Listed(s.B, Root(cur))
  {
    TreeInsertMacro.BinAt(s, i);
    SubFits(s.B.tree[i], cur.size, s.C);
    SubSizes(s.B.tree[i], cur.size);
    assert cur.ring[0] in cur.ring && Root(cur) in Members(cur);
    assert InOne(s.B, 32 + i, Root(cur));
  }
  lemma Considered(s: St, i: int, nb: int, cur: Tree, v: int, rsize: int)
    requires SoundSt(s) && 0 <= i < 32 && At(s.B.tree[i], cur) && Chosen(s, nb, v, rsize) && 0 < nb < W32
    ensures var c := Root(cur);
            NodeAddr(c, s.base, s.end) && c != 0 && Free(s.C, c, cur.size) && ChunkSize(Fld(s.mem, c, HEAD)) == cur.size
    ensures var trem := Spare(cur.size, nb);
      && (trem < rsize <==> cur.size >= nb && cur.size - nb < rsize)
      && (trem < rsize ==> trem == cur.size - nb && Chosen(s, nb, Root(cur), trem))
      && (trem == 0 <==> cur.size == nb)
  {
    hide ChunkSize, NodeAddr, Free, Listed, Has, Root;
    NodeChunk(s, i, cur);
  }

  // ---- the descent in the bin of nb ----

  ghost predicate Seen(t: Tree, nb: int, rsize: int, cur: Tree, rst: Tree, z: int) {
    z in Sizes(t) && z >= nb ==> rsize <= z - nb || z in Sizes(cur) || Dominated(rst, z)
  }
  ghost predicate AllSeen(t: Tree, nb: int, rsize: int, cur: Tree, rst: Tree) {
    forall z {:trigger Seen(t, nb, rsize, cur, rst, z)} :: Seen(t, nb, rsize, cur, rst, z)
  }
  ghost predicate Over(t: Tree, bound: int) { forall y :: y in Sizes(t) ==> bound <= y }
  // the descent has come to cur, whose sizes are lo up to 2^e more; rst is the deepest right subtree left aside
  ghost predicate PathTo(t: Tree, nb: int, cur: Tree, lo: int, w: int, rst: Tree, rsize: int) {
    && At(t, cur) && Trie(cur, lo, w) && 0 < rsize
    && (rst.Node? ==> At(t, rst) && Over(rst, nb + 1) && Over(rst, lo + w))
    && AllSeen(t, nb, rsize, cur, rst)
  }
  ghost predicate Path(t: Tree, nb: int, cur: Tree, lo: int, e: nat, k: int, rst: Tree, rsize: int) {
    PathTo(t, nb, cur, lo, Pow2(e), rst, rsize) && Holds(k, nb - lo, e)
  }
  // what the descent leaves to be searched: the subtree rest
  ghost predicate PathEnd(t: Tree, nb: int, rest: Tree, rsize: int) {
    && (rest.Node? ==> At(t, rest) && (rsize == 0 || Over(rest, nb)))
    && AllSeen(t, nb, rsize, Nil, rest)
  }
  ghost predicate ChosenHere(s: St, i: int, nb: int, v: int, rsize: int) {
    && SoundSt(s) && 0 <= i < 32 && 0 < nb < W32 && Chosen(s, nb, v, rsize)
    && (v != 0 ==> nb + rsize in Sizes(s.B.tree[i]))
  }
  ghost predicate Descending(s: St, i: int, nb: int, cur: Tree, lo: int, e: nat, k: int, rst: Tree, v: int,
    rsize: int) {
    ChosenHere(s, i, nb, v, rsize) && Path(s.B.tree[i], nb, cur, lo, e, k, rst, rsize)
  }
  ghost predicate Descended(s: St, i: int, nb: int, t: Tree, v: int, rsize: int) {
    ChosenHere(s, i, nb, v, rsize) && PathEnd(s.B.tree[i], nb, t, rsize)
  }
  lemma DescendStart(s: St, i: int, nb: int)
    requires SoundSt(s) && 0x100 <= nb < W32 && i == TreeIndex(nb) && i < 32 && s.B.tree[i].Node?
    ensures Descending(s, i, nb, s.B.tree[i], Lo(i), SpanBits(i), SizeBits(nb, i), Nil, 0, W32 - nb)
    ensures IsAddr(TreebinAt(s.base, i), 0, s.base, s.end) && Fld(s.mem, TreebinAt(s.base, i), 0) == Root(s.B.tree[i])
  {
    TreeInsertMacro.BinAt(s, i);
    HeaderAddr(s, i);
    TreeIndexOK(nb); MinSizeStep(i);
    SpanIs(i); SizeBitsHold(nb, i);
    var rsize := W32 - nb;
    forall z ensures Seen(s.B.tree[i], nb, rsize, s.B.tree[i], Nil, z) {}
  }
  lemma DescendExact(s: St, i: int, nb: int, cur: Tree, lo: int, e: nat, k: int, rst: Tree, v: int, rsize: int)
    requires Descending(s, i, nb, cur, lo, e, k, rst, v, rsize) && cur.size == nb
    ensures Chosen(s, nb, Root(cur), 0) && Descended(s, i, nb, cur, Root(cur), 0)
  {
    Considered(s, i, nb, cur, v, rsize);
    forall z ensures Seen(s.B.tree[i], nb, 0, Nil, cur, z) {}
  }
  ghost function NextRst(cur: Tree, d: bool, rst: Tree): Tree
    requires cur.Node?
  {
    if !d && cur.right.Node? then cur.right else rst
  }
  ghost predicate PathNext(t: Tree, nb: int, cur: Tree, lo: int, e: nat, k: int, rst: Tree, rsize: int, d: bool)
    requires cur.Node? && e > 0
  {
    if Kid(cur, d).Node? then Path(t, nb, Kid(cur, d), if d then lo + Pow2(e - 1) else lo, e - 1, k, rst, rsize)
    else PathEnd(t, nb, rst, rsize)
  }
  lemma PathStep(t: Tree, nb: int, cur: Tree, lo: int, e: nat, k: int, rst: Tree, rsize: int, rsize': int, d: bool,
    k': int)
    requires Uniq(t) && Path(t, nb, cur, lo, e, k, rst, rsize) && cur.size != nb && d == SignBit(k)
      && k' == ShiftLeft(k)
    requires rsize' == if cur.size >= nb && cur.size - nb < rsize then cur.size - nb else rsize
    ensures e > 0 && PathNext(t, nb, cur, lo, e, k', NextRst(cur, d, rst), rsize', d)
  {
    DescendOn(k, nb, lo, cur.size, e, d, k');
    PathKid(t, nb, cur, lo, Pow2(e - 1), rst, rsize, rsize', d);
  }
  lemma DescendOn(k: int, nb: int, lo: int, size: int, e: nat, d: bool, k': int)
    requires Holds(k, nb - lo, e) && lo <= size < lo + Pow2(e) && size != nb && d == SignBit(k) && k' == ShiftLeft(k)
    ensures e > 0 && Pow2(e) == 2 * Pow2(e - 1) && (d <==> nb >= lo + Pow2(e - 1))
    ensures Holds(k', nb - (if d then lo + Pow2(e - 1) else lo), e - 1)
  {
    if e == 0 { assert false; }
    Descend(k, nb - lo, e);
  }
  lemma PathKid(t: Tree, nb: int, cur: Tree, lo: int, h: int, rst: Tree, rsize: int, rsize': int, d: bool)
    requires Uniq(t) && PathTo(t, nb, cur, lo, 2 * h, rst, rsize) && cur.size != nb && h > 0
    requires d <==> nb >= lo + h
    requires rsize' == if cur.size >= nb && cur.size - nb < rsize then cur.size - nb else rsize
    ensures var rst' := NextRst(cur, d, rst);
      if Kid(cur, d).Node? then PathTo(t, nb, Kid(cur, d),
        if d then lo + h else lo, h, rst', rsize') else PathEnd(t, nb, rst', rsize')
  {
    TrieRange(cur.left, lo, h);
    TrieRange(cur.right, lo + h, h);
    if cur.left.Node? { TreeUnlinkMacro.KidAt(t, cur, false); }
    if cur.right.Node? { TreeUnlinkMacro.KidAt(t, cur, true); }
    StepSeen(t, nb, rsize, rsize', cur, rst, d, lo, h);
  }
  lemma DescendStep(s: St, i: int, nb: int, cur: Tree, lo: int, e: nat, k: int, rst: Tree, v: int, rsize: int, v': int,
    rsize': int, d: bool, k': int)
    requires Descending(s, i, nb, cur, lo, e, k, rst, v, rsize) && cur.size != nb && d == SignBit(k)
      && k' == ShiftLeft(k)
    requires if cur.size >= nb && cur.size - nb < rsize
             then v' == Root(cur) && rsize' == cur.size - nb
             else v' == v && rsize' == rsize
    ensures e > 0 && ChosenHere(s, i, nb, v', rsize')
      && PathNext(s.B.tree[i], nb, cur, lo, e, k', NextRst(cur, d, rst), rsize', d)
  {
    hide SoundSt, PathNext, Holds, ShiftLeft, SignBit, NextRst, ChunkSize, NodeAddr, Free, Fld, Spare, Uniq;
    Considered(s, i, nb, cur, v, rsize);
    TreeInsertMacro.BinUniq(s, i);
    PathStep(s.B.tree[i], nb, cur, lo, e, k, rst, rsize, rsize', d, k');
  }
  lemma StepSeen(t: Tree, nb: int, rsize: int, rsize': int, cur: Tree, rst: Tree, d: bool, lo: int, h: int)
    requires AllSeen(t, nb, rsize, cur, rst) && cur.Node? && h > 0 && (d <==> nb >= lo + h)
    requires rsize' <= rsize && (cur.size >= nb ==> rsize' <= cur.size - nb)
    requires forall z :: z in Sizes(cur.left) ==> z < lo + h
    requires forall z :: z in Sizes(cur.right) ==> z < lo + 2 * h
    requires rst.Node? ==> Over(rst, lo + 2 * h)
    ensures AllSeen(t, nb, rsize', Kid(cur, d), NextRst(cur, d, rst))
  {
    forall z ensures Seen(t, nb, rsize', Kid(cur, d), NextRst(cur, d, rst), z) {
      assert Seen(t, nb, rsize, cur, rst, z);
      if z in Sizes(cur) { assert z == cur.size || z in Sizes(cur.left) || z in Sizes(cur.right); }
      if Dominated(rst, z) { assert rst.size in Sizes(rst); assert z >= lo + 2 * h; }
    }
  }
  // the right child is left aside exactly when the descent goes left
  lemma RightChild(s: St, i: int, cur: Tree, d: bool)
    requires SoundSt(s) && 0 <= i < 32 && At(s.B.tree[i], cur)
    ensures Root(cur.right) != 0 && Root(cur.right) != Root(Kid(cur, d)) <==> !d && cur.right.Node?
  {
    TreeUnlinkMacro.CurWords(s, i, cur);
    TreeUnlinkMacro.UnlinkedCase(s, i, cur, 0, Root(cur));
    NodePlace(s.mem, s.B.tree[i], TreebinAt(s.base, i), i, cur);
    if cur.right.Node? { TreeUnlinkMacro.LeftApart(cur); }
  }
  method SearchBin(m: Mspace, nb: int, i: int) returns (v: int, rsize: int, t: int, ghost rest: Tree)
    requires m.Sound() && 0x100 <= nb < W32 && i == TreeIndex(nb) && i < 32 && m.B.tree[i].Node?
    ensures Descended(m.S(), i, nb, rest, v, rsize) && t == Root(rest)
  {
    hide Mspace.Rep, ChunkSize, SignBit, ShiftLeft, SizeBits;
    ghost var s := m.S();
    DescendStart(s, i, nb);
    t := m.Get(TreebinAt(m.base, i), 0);
    v, rsize := 0, W32 - nb;
    var sizebits, rst := SizeBits(nb, i), 0;
    ghost var cur, lo, e: nat, aside := s.B.tree[i], Lo(i), SpanBits(i), Nil;
    while true
      invariant Descending(s, i, nb, cur, lo, e, sizebits, aside, v, rsize) && t == Root(cur) && rst == Root(aside)
      decreases e
    {
      Considered(s, i, nb, cur, v, rsize);
      ghost var v0, rsize0 := v, rsize;
      var trem := Spare(ChunkSize(m.Get(t, HEAD)), nb);
      if trem < rsize {
        v, rsize := t, trem;
        if rsize == 0 {
          DescendExact(s, i, nb, cur, lo, e, sizebits, aside, v0, rsize0);
          return v, rsize, t, cur;
        }
      }
      TreeUnlinkMacro.CurWords(s, i, cur);
      ghost var d := SignBit(sizebits);
      DescendStep(s, i, nb, cur, lo, e, sizebits, aside, v0, rsize0, v, rsize, d, ShiftLeft(sizebits));
      RightChild(s, i, cur, d);
      var rt := m.Get(t, CHILD1);
      t := m.Get(t, if SignBit(sizebits) then CHILD1 else CHILD0);
      if rt != 0 && rt != t {
        rst := rt;
      }
      aside := NextRst(cur, d, aside);
      if t == 0 { return v, rsize, rst, aside; }
      sizebits := ShiftLeft(sizebits);
      cur, lo, e := Kid(cur, d), if d then lo + Pow2(e - 1) else lo, e - 1;
    }
  }

  // ---- over all tree bins ----

  // only the sizes in t, a subtree of bin k, can still improve on rsize
  ghost predicate Narrowed(s: St, nb: int, k: int, t: Tree, v: int, rsize: int) {
    && SoundSt(s) && 0 <= k < 32 && 0 < nb < W32 && Chosen(s, nb, v, rsize)
    && (t.Node? ==> At(s.B.tree[k], t) && (rsize == 0 || Over(t, nb)))
    && Best(s, nb, rsize, t)
  }
  lemma HigherBin(s: St, i: int, y: int, z: int)
    requires SoundSt(s) && 0 <= i < 32 && y in Sizes(s.B.tree[i]) && Has(s, z) && i < TreeIndex(z)
    ensures y < z
  {
    HasBin(s, i, y);
    TreeIndexMono(y, z);
  }
  // the bin of nb holds what is wanted
  lemma OwnBin(s: St, i: int, nb: int, t: Tree, v: int, rsize: int)
    requires Descended(s, i, nb, t, v, rsize) && 0x100 <= nb && i == TreeIndex(nb) && (t.Node? || v != 0)
    ensures Narrowed(s, nb, i, t, v, rsize)
  {
    forall z ensures Goal(s, nb, rsize, t, z) {
      if Has(s, z) && z >= nb {
        if TreeIndex(z) == i {
          assert Seen(s.B.tree[i], nb, rsize, Nil, t, z);
        } else {
          if TreeIndex(z) < i { TreeIndexMono(z, nb); }
          if v != 0 { HigherBin(s, i, nb + rsize, z); } else { Above(s, i, t, z); }
        }
      }
    }
  }
  lemma Above(s: St, i: int, t: Tree, z: int)
    requires SoundSt(s) && 0 <= i < 32 && At(s.B.tree[i], t) && Has(s, z) && i < TreeIndex(z)
    ensures Dominated(t, z)
  {
    SubSizes(s.B.tree[i], t.size);
    forall y | y in Sizes(t) ensures y <= z { HigherBin(s, i, y, z); }
  }
  // it does not: the least non-empty bin above does, if there is one
  lemma BinRoot(s: St, k: int)
    requires SoundSt(s) && 0 <= k < 32
    ensures IsAddr(TreebinAt(s.base, k), 0, s.base, s.end) && Fld(s.mem, TreebinAt(s.base, k), 0) == Root(s.B.tree[k])
    ensures Marked(s.treemap, k) <==> s.B.tree[k].Node?
    ensures Root(s.B.tree[k]) != 0 <==> s.B.tree[k].Node?
  {
    TreeInsertMacro.BinAt(s, k);
    HeaderAddr(s, k);
    if s.B.tree[k].Node? { TreeUnlinkMacro.SubSelf(s.B.tree[k]); TreeUnlinkMacro.CurWords(s, k, s.B.tree[k]); }
  }
  lemma FromBin(s: St, nb: int, k: int)
    requires SoundSt(s) && 0 <= k < 32 && 0 < nb < W32 && s.B.tree[k].Node?
    requires forall z :: Has(s, z) && z >= nb ==> k <= TreeIndex(z)
    requires Over(s.B.tree[k], nb)
    ensures Narrowed(s, nb, k, s.B.tree[k], 0, W32 - nb)
  {
    var rsize, t := W32 - nb, s.B.tree[k];
    TreeUnlinkMacro.SubSelf(t);
    forall z ensures Goal(s, nb, rsize, t, z) {
      if Has(s, z) && z >= nb && TreeIndex(z) != k { Above(s, k, t, z); }
    }
  }
  lemma NextBin(s: St, i: int, nb: int)
    requires Descended(s, i, nb, Nil, 0, W32 - nb) && 0x100 <= nb && i == TreeIndex(nb)
    ensures Pow2(i) < W32
    ensures var b := And(LeftBits(Pow2(i)), s.treemap);
      b < W32
      && if b == 0
         then Narrowed(s, nb, i, Nil, 0, W32 - nb)
         else LeastBit(b) > 0 && Bit2Idx(LeastBit(b)) < 32
              && var k := Bit2Idx(LeastBit(b)); s.B.tree[k].Node? && Narrowed(s, nb, k, s.B.tree[k], 0, W32 - nb)
  {
    var rsize := W32 - nb;
    NextIdx(s.treemap, i);
    var b := And(LeftBits(Pow2(i)), s.treemap);
    forall z | Has(s, z) && z >= nb ensures i < TreeIndex(z) && Marked(s.treemap, TreeIndex(z)) {
      assert Seen(s.B.tree[i], nb, rsize, Nil, Nil, z);
      if TreeIndex(z) < i { TreeIndexMono(z, nb); }
      BinRoot(s, TreeIndex(z));
    }
    if b == 0 {
      forall z ensures Goal(s, nb, rsize, Nil, z) {}
    } else {
      var k := Bit2Idx(LeastBit(b));
      BinRoot(s, k);
      forall y | y in Sizes(s.B.tree[k]) ensures nb <= y { HasBin(s, k, y); TreeIndexMono(nb, y); }
      FromBin(s, nb, k);
    }
  }

  // ---- the walk to the left ----

  ghost function LeftmostChild(t: Tree): Tree requires t.Node? { if t.left.Node? then t.left else t.right }
  lemma LeftmostStep(s: St, nb: int, k: int, t: Tree, v: int, rsize: int, v': int, rsize': int)
    requires Narrowed(s, nb, k, t, v, rsize) && t.Node?
    requires if t.size >= nb && t.size - nb < rsize
             then v' == Root(t) && rsize' == t.size - nb
             else v' == v && rsize' == rsize
    ensures Narrowed(s, nb, k, LeftmostChild(t), v', rsize')
  {
    Considered(s, k, nb, t, v, rsize);
    TreeInsertMacro.BinAt(s, k);
    TrieUniq(s.B.tree[k], Lo(k), Span(k));
    var c := LeftmostChild(t);
    if c.Node? { TreeUnlinkMacro.KidAt(s.B.tree[k], t, !t.left.Node?); }
    var lo, w := TreeRange(s, k, t);
    assert t.size in Sizes(t);
    LeftmostBest(s, nb, t, rsize, rsize', lo, w);
  }
  lemma LeftmostBest(s: St, nb: int, t: Tree, rsize: int, rsize': int, lo: int, w: int)
    requires Best(s, nb, rsize, t) && t.Node? && Trie(t, lo, w)
    requires rsize' <= rsize && (t.size >= nb ==> rsize' <= t.size - nb)
    requires rsize' == 0 || Over(t, nb)
    ensures Best(s, nb, rsize', LeftmostChild(t))
  {
    TrieRange(t.left, lo, w / 2); TrieRange(t.right, lo + w / 2, w - w / 2);
    assert t.size in Sizes(t);
    forall z ensures Goal(s, nb, rsize', LeftmostChild(t), z) { assert Goal(s, nb, rsize, t, z); }
  }
  lemma TreeRange(s: St, k: int, t: Tree) returns (lo: int, w: int)
    requires SoundSt(s) && 0 <= k < 32 && At(s.B.tree[k], t)
    ensures Trie(t, lo, w)
  {
    TreeInsertMacro.BinAt(s, k);
    lo, w := TreeRemoval.SubTrie(s.B.tree[k], t.size, Lo(k), Span(k));
  }
  // one step down the left edge
  method GoLeft(m: Mspace, t: int, ghost k: int, ghost cur: Tree) returns (c: int)
    requires m.Sound() && 0 <= k < 32 && At(m.B.tree[k], cur) && t == Root(cur)
    ensures c == Root(LeftmostChild(cur)) && (c != 0 <==> LeftmostChild(cur).Node?)
  {
    TreeUnlinkMacro.CurWords(m.S(), k, cur);
    c := m.Get(t, CHILD0);
    if c == 0 { c := m.Get(t, CHILD1); }
  }
  // the walk down the left edge that ends both searches: it keeps the tightest chunk it meets
  method WalkLeft(m: Mspace, nb: int, t0: int, v0: int, rsize0: int, ghost k: int, ghost cur0: Tree)
    returns (v: int, rsize: int)
    requires m.Sound() && Narrowed(m.S(), nb, k, cur0, v0, rsize0) && t0 == Root(cur0) && (t0 != 0 <==> cur0.Node?)
    ensures Narrowed(m.S(), nb, k, Nil, v, rsize)
  {
    ghost var s := m.S();
    v, rsize := v0, rsize0;
    var t := t0;
    ghost var cur := cur0;
    while t != 0
      invariant Narrowed(s, nb, k, cur, v, rsize) && t == Root(cur) && (t != 0 <==> cur.Node?)
      decreases cur
    {
      Considered(s, k, nb, cur, v, rsize);
      ghost var vb, rb := v, rsize;
      var trem := Spare(ChunkSize(m.Get(t, HEAD)), nb);
      if trem < rsize {
        rsize := trem;
        v := t;
      }
      LeftmostStep(s, nb, k, cur, vb, rb, v, rsize);
      t := GoLeft(m, t, k, cur);
      cur := LeftmostChild(cur);
    }
  }

  // ---- the two searches ----

  // v is 0 if no tree chunk has nb bytes, and otherwise one of the smallest that do
  ghost predicate Fittest(s: St, nb: int, v: int, rsize: int) {
    && Chosen(s, nb, v, rsize)
    && forall q {:trigger Listed(s.B, q)} ::
         Listed(s.B, q) && q in s.C && s.C[q].size >= nb && s.C[q].size >= 0x100 ==> v != 0 && nb + rsize <= s.C[q].size
  }
  lemma NarrowedFittest(s: St, nb: int, k: int, v: int, rsize: int)
    requires Narrowed(s, nb, k, Nil, v, rsize)
    ensures Fittest(s, nb, v, rsize)
  {
    forall q | Listed(s.B, q) && q in s.C && s.C[q].size >= nb && s.C[q].size >= 0x100 ensures v != 0
      && nb + rsize <= s.C[q].size {
      HasListed(s, q);
      assert Goal(s, nb, rsize, Nil, s.C[q].size);
    }
  }
  method SearchLarge(m: Mspace, nb: int) returns (v: int, rsize: int)
    requires m.Sound() && 0x100 <= nb < W32
    ensures Fittest(m.S(), nb, v, rsize)
  {
    hide Shape, Tags, Mspace.Rep, ChunkSize;
    ghost var s := m.S();
    TreeIndexOK(nb);
    var idx := TreeIndex(nb);
    BinRoot(s, idx);
    var t := m.Get(TreebinAt(m.base, idx), 0);
    v, rsize := 0, W32 - nb;
    ghost var rest, k := Nil, idx;
    if t != 0 {
      v, rsize, t, rest := SearchBin(m, nb, idx);
      if rest.Node? { TreeUnlinkMacro.CurWords(s, idx, rest); }
    } else {
      forall z ensures Seen(s.B.tree[idx], nb, rsize, Nil, Nil, z) {}
    }
    if t == 0 && v == 0 {
      NextBin(s, idx, nb);
      var leftbits := And(LeftBits(Pow2(idx)), m.treemap);
      if leftbits != 0 {
        var i := Bit2Idx(LeastBit(leftbits));
        BinRoot(s, i);
        t := m.Get(TreebinAt(m.base, i), 0);
        rest, k := s.B.tree[i], i;
      }
    } else {
      OwnBin(s, idx, nb, rest, v, rsize);
    }
    v, rsize := WalkLeft(m, nb, t, v, rsize, k, rest);
    NarrowedFittest(s, nb, k, v, rsize);
  }
  method SearchSmall(m: Mspace, nb: int) returns (v: int, rsize: int)
    requires m.Sound() && 0 < nb < 0x100 && m.treemap != 0
    ensures v != 0 && Fittest(m.S(), nb, v, rsize)
  {
    ghost var s := m.S();
    LeastIdx(m.treemap);
    var i := Bit2Idx(LeastBit(m.treemap));
    BinRoot(s, i);
    LowestBin(s, nb, i);
    v := m.Get(TreebinAt(m.base, i), 0);
    ghost var cur := s.B.tree[i];
    Considered(s, i, nb, cur, 0, W32 - nb);
    rsize := ChunkSize(m.Get(v, HEAD)) - nb;
    LeftmostStep(s, nb, i, cur, 0, W32 - nb, v, rsize);
    var t := GoLeft(m, v, i, cur);
    v, rsize := WalkLeft(m, nb, t, v, rsize, i, LeftmostChild(cur));
    NarrowedFittest(s, nb, i, v, rsize);
    assert Goal(s, nb, rsize, Nil, cur.size);
  }
  lemma LowestBin(s: St, nb: int, k: int)
    requires SoundSt(s) && 0 < nb < 0x100 && 0 <= k < 32 && s.B.tree[k].Node?
      && forall j: nat :: j < k ==> !Marked(s.treemap, j)
    ensures Narrowed(s, nb, k, s.B.tree[k], 0, W32 - nb) && s.B.tree[k].size >= 0x100 && Has(s, s.B.tree[k].size)
  {
    forall z | Has(s, z) && z >= nb ensures k <= TreeIndex(z) { BinRoot(s, TreeIndex(z)); }
    forall y | y in Sizes(s.B.tree[k]) ensures nb <= y { HasBin(s, k, y); }
    HasBin(s, k, s.B.tree[k].size);
    FromBin(s, nb, k);
  }
}
