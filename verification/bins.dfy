/** The 64 bins of a malloc_state (kernel/malloc.c): which words they occupy, and what they hold. */
module Bins {
  import opened Words
  import opened Chunks
  import opened Bits
  import opened TreeIndexing
  import opened Tries

  function SmallbinAt(base: int, i: int): int { base + 44 + 8 * i }
  function TreebinAt(base: int, i: int): int { base + 308 + 4 * i }

  // ---- the words of a bin: its header, and the inside of the free chunks of its sizes ----

  // Bins 0..31 are the small ones, 32..63 the trees.
  ghost function BinOf(s: int): int { if 0 <= s < 0x100 then s / 8 else if s >= 0x100 then 32 + TreeIndex(s) else -1 }
  ghost function LinksLo(base: int, b: int): int { if b < 32 then SmallbinAt(base, b) + 8 else TreebinAt(base, b - 32) }
  ghost function LinksHi(base: int, b: int): int {
    if b < 32 then SmallbinAt(base, b) + 16 else TreebinAt(base, b - 32) + 4
  }
  ghost predicate Inside(C: Chunks, b: int, q: int, a: int) {
    q in C && !C[q].used && BinOf(C[q].size) == b && q + 8 <= a < q + C[q].size
  }
  ghost predicate InBin(C: Chunks, base: int, b: int, a: int) {
    LinksLo(base, b) <= a < LinksHi(base, b) || exists q :: Inside(C, b, q, a)
  }
  ghost predicate OnlyBin(m: Mem, m': Mem, C: Chunks, base: int, b: int) {
    forall a {:trigger Fld(m', a, 0)} :: Fld(m', a, 0) != Fld(m, a, 0) ==> InBin(C, base, b, a)
  }
  lemma InsideBin(C: Chunks, base: int, x: int, o: int)
    requires x in C && !C[x].used && 8 <= o < C[x].size
    ensures InBin(C, base, BinOf(C[x].size), x + o)
  {
    assert Inside(C, BinOf(C[x].size), x, x + o);
  }
  // Tags, payloads of chunks in use and the insides of other bins' chunks are not words of the bin.
  lemma Outside(C: Chunks, base: int, top: int, b: int, q: int, k: int, m: Mem, m': Mem)
    requires Shape(C, base, top) && 0 <= b < 64 && OnlyBin(m, m', C, base, b)
    requires (q == top && k >= 0)
      || (q in C && (k == FOOT || k == HEAD
      || (8 <= k < C[q].size + 4 && q != base && (C[q].used || (k < C[q].size && BinOf(C[q].size) != b)))))
    ensures Fld(m', q, k) == Fld(m, q, k)
  {
    assert ChunkOK(C, base, base, top);
    assert Fld(m', q, k) == Fld(m', q + k, 0) && Fld(m, q, k) == Fld(m, q + k, 0);
    assert ChunkOK(C, q, base, top) && Sep(C, base, q);
    var a := q + k;
    forall x ensures !Inside(C, b, x, a) { assert ChunkOK(C, x, base, top) && Sep(C, x, q) && Sep(C, q, x); }
    assert !InBin(C, base, b, a);
  }
  lemma HeaderOther(m: Mem, m': Mem, C: Chunks, base: int, top: int, i: int, b: int, a: int)
    requires Shape(C, base, top) && 0 <= b < 64 && OnlyBin(m, m', C, base, b)
    requires 0 <= i < 64 && i != b && LinksLo(base, i) <= a < LinksHi(base, i)
    ensures Fld(m', a, 0) == Fld(m, a, 0)
  {
    forall x ensures !Inside(C, b, x, a) { assert Sep(C, base, x) && ChunkOK(C, x, base, top); }
    assert !InBin(C, base, b, a);
  }
  lemma OnlyBinKeeps(m: Mem, m': Mem, C: Chunks, base: int, top: int, topsize: int, b: int)
    requires Shape(C, base, top) && Tags(m, C, top, topsize) && 0 <= b < 64 && OnlyBin(m, m', C, base, b)
    ensures Tags(m', C, top, topsize) && SamePayload(m, m', C, base)
  {
    forall p ensures TagOK(m', C, p) {
      assert TagOK(m, C, p);
      if p in C { Outside(C, base, top, b, p, FOOT, m, m'); Outside(C, base, top, b, p, HEAD, m, m'); }
    }
    Outside(C, base, top, b, top, HEAD, m, m');
    Outside(C, base, top, b, top, topsize + HEAD, m, m');
    forall q, o | q in C && C[q].used && q != base && 8 <= o < C[q].size + 4 ensures Fld(m', q, o) == Fld(m, q, o) {
      Outside(C, base, top, b, q, o, m, m');
    }
  }

  // ---- one bin ----

  // A small bin is empty when its bit is clear, whatever its header's stale links say.
  ghost predicate SmallBin(m: Mem, C: Chunks, base: int, bits: int, s: seq<int>, i: int) {
    && 0 <= i < 32 && 0 <= bits && (Marked(bits, i) <==> s != [])
    && (s != [] ==> Ring(m, [SmallbinAt(base, i)] + s))
    && (forall x :: x in s ==> Free(C, x, 8 * i))
  }
  // The sizes a tree bin's trie divides. The last bin branches on every bit of the size.
  ghost function Lo(i: nat): int { if i == 31 then 0 else MinSize(i) }
  ghost function Span(i: nat): int { if i == 31 then W32 else Width(i) }
  ghost predicate TreeBin(m: Mem, C: Chunks, base: int, bits: int, t: Tree, i: int) {
    && 0 <= i < 32 && 0 <= bits && (Marked(bits, i) <==> t.Node?)
    && Fld(m, TreebinAt(base, i), 0) == Root(t)
    && InTree(m, t, TreebinAt(base, i), i)
    && Trie(t, Lo(i), Span(i)) && Fits(t, C)
    && (forall z :: z in Sizes(t) ==> MinSize(i) <= z)
  }
  lemma SmallMember(C: Chunks, base: int, top: int, x: int, i: int)
    requires Shape(C, base, top) && Free(C, x, 8 * i) && 0 <= i < 32
    ensures x % 8 == 0 && x >= base + HEADER && x + 16 <= x + 8 * i <= top && BinOf(C[x].size) == i
  {
    assert ChunkOK(C, x, base, top) && Sep(C, base, x);
  }
  lemma IndexIs(s: nat, i: nat)
    requires i < 32 && MinSize(i) <= s < W32 && (i < 31 ==> s < MinSize(i + 1))
    ensures s >= 0x100 && TreeIndex(s) == i
  {
    MinSizeMono(0, i); Pow14(); TreeIndexOK(s);
    var j := TreeIndex(s);
    if j < i { MinSizeMono(j + 1, i); } else if i < j { MinSizeMono(i + 1, j); }
  }
  lemma RangeIs(s: nat, i: nat)
    requires i < 32 && MinSize(i) <= s < W32 && s < Lo(i) + Span(i)
    ensures s >= 0x100 && BinOf(s) == 32 + i
  {
    MinSizeStep(i);
    IndexIs(s, i);
  }
  lemma TreeMember(m: Mem, C: Chunks, base: int, top: int, bits: int, t: Tree, i: int, x: int)
    requires Shape(C, base, top) && top < W32 && TreeBin(m, C, base, bits, t, i) && x in Members(t)
    ensures x in C && !C[x].used && 0x100 <= C[x].size < W32 && BinOf(C[x].size) == 32 + i && C[x].size in Sizes(t)
    ensures x % 8 == 0 && x >= base + HEADER && x + C[x].size <= top
  {
    hide InTree, Uniq, Marked;
    FitsMember(t, C, x);
    TrieRange(t, Lo(i), Span(i));
    assert ChunkOK(C, x, base, top) && Sep(C, base, x);
    RangeIs(C[x].size, i);
  }

  // ---- a bin that is not written to ----

  lemma SmallWords(m: Mem, m': Mem, C: Chunks, base: int, top: int, b: int, x: int, i: int)
    requires Shape(C, base, top) && 0 <= b < 64 && OnlyBin(m, m', C, base, b) && 0 <= i < 32 && i != b
             && Free(C, x, 8 * i)
    ensures Fld(m', x, FD) == Fld(m, x, FD) && Fld(m', x, BK) == Fld(m, x, BK)
  {
    SmallMember(C, base, top, x, i);
    Outside(C, base, top, b, x, FD, m, m'); Outside(C, base, top, b, x, BK, m, m');
  }
  lemma SmallHeader(m: Mem, m': Mem, C: Chunks, base: int, top: int, i: int, b: int)
    requires Shape(C, base, top) && 0 <= b < 64 && OnlyBin(m, m', C, base, b) && 0 <= i < 32 && i != b
    ensures var h := SmallbinAt(base, i); Fld(m', h, FD) == Fld(m, h, FD) && Fld(m', h, BK) == Fld(m, h, BK)
  {
    var h := SmallbinAt(base, i);
    HeaderOther(m, m', C, base, top, i, b, h + FD);
    HeaderOther(m, m', C, base, top, i, b, h + BK);
    assert Fld(m', h, FD) == Fld(m', h + FD, 0) && Fld(m', h, BK) == Fld(m', h + BK, 0);
  }
  lemma SmallOther(m: Mem, m': Mem, C: Chunks, base: int, top: int, bits: int, bits': int, s: seq<int>, i: int, b: int)
    requires Shape(C, base, top) && 0 <= b < 64 && OnlyBin(m, m', C, base, b)
    requires i != b && SmallBin(m, C, base, bits, s, i)
    requires 0 <= bits' && (Marked(bits', i) <==> Marked(bits, i))
    ensures SmallBin(m', C, base, bits', s, i)
  {
    hide Shape, OnlyBin, Fld;
    if s != [] {
      var h := SmallbinAt(base, i);
      forall x | x in s ensures Fld(m', x, FD) == Fld(m, x, FD) && Fld(m', x, BK) == Fld(m, x, BK) {
        SmallWords(m, m', C, base, top, b, x, i);
      }
      SmallHeader(m, m', C, base, top, i, b);
      RingFrame(m, [h] + s, m');
    }
  }
  lemma TreeOther(m: Mem, m': Mem, C: Chunks, base: int, top: int, bits: int, bits': int, t: Tree, i: int, b: int)
    requires Shape(C, base, top) && top < W32 && 0 <= b < 64 && OnlyBin(m, m', C, base, b)
    requires 32 + i != b && TreeBin(m, C, base, bits, t, i)
    requires 0 <= bits' && (Marked(bits', i) <==> Marked(bits, i))
    ensures TreeBin(m', C, base, bits', t, i)
  {
    HeaderOther(m, m', C, base, top, 32 + i, b, TreebinAt(base, i));
    forall x, o | x in Members(t) && 8 <= o < 32 ensures Fld(m', x, o) == Fld(m, x, o) {
      TreeMember(m, C, base, top, bits, t, i, x);
      Outside(C, base, top, b, x, o, m, m');
    }
    InTreeFrame(m, m', t, TreebinAt(base, i), i);
  }

  // ---- all bins ----

  datatype Bins = Bins(small: seq<seq<int>>, tree: seq<Tree>)
  ghost predicate SmallAt(m: Mem, C: Chunks, base: int, bits: int, s: seq<seq<int>>, i: int) {
    |s| == 32 && (0 <= i < 32 ==> SmallBin(m, C, base, bits, s[i], i))
  }
  ghost predicate TreeAt(m: Mem, C: Chunks, base: int, bits: int, s: seq<Tree>, i: int) {
    |s| == 32 && (0 <= i < 32 ==> TreeBin(m, C, base, bits, s[i], i))
  }
  ghost predicate BinsOK(m: Mem, C: Chunks, base: int, smallmap: int, treemap: int, B: Bins) {
    && 0 <= smallmap < W32 && 0 <= treemap < W32 && |B.small| == 32 && |B.tree| == 32
    && (forall i {:trigger SmallAt(m, C, base, smallmap, B.small, i)} :: SmallAt(m, C, base, smallmap, B.small, i))
    && (forall i {:trigger TreeAt(m, C, base, treemap, B.tree, i)} :: TreeAt(m, C, base, treemap, B.tree, i))
  }
  ghost predicate AgreeBut(a: int, b: int, i: int) {
    0 <= a && 0 <= b && forall j :: 0 <= j < 32 && j != i ==> (Marked(b, j) <==> Marked(a, j))
  }
  lemma OneSmallBin(m: Mem, m': Mem, C: Chunks, base: int, top: int, smallmap: int, treemap: int, smallmap': int,
    B: Bins, i: int, s: seq<int>)
    requires Shape(C, base, top) && top < W32 && BinsOK(m, C, base, smallmap, treemap, B)
    requires OnlyBin(m, m', C, base, i) && SmallBin(m', C, base, smallmap', s, i)
    requires smallmap' < W32 && AgreeBut(smallmap, smallmap', i)
    ensures BinsOK(m', C, base, smallmap', treemap, B.(small := B.small[i := s]))
  {
    var S := B.small[i := s];
    forall j ensures SmallAt(m', C, base, smallmap', S, j) {
      assert SmallAt(m, C, base, smallmap, B.small, j);
      if 0 <= j < 32 && j != i { SmallOther(m, m', C, base, top, smallmap, smallmap', B.small[j], j, i); }
    }
    forall j ensures TreeAt(m', C, base, treemap, B.tree, j) {
      assert TreeAt(m, C, base, treemap, B.tree, j);
      if 0 <= j < 32 { TreeOther(m, m', C, base, top, treemap, treemap, B.tree[j], j, i); }
    }
  }
  lemma OneTreeBin(m: Mem, m': Mem, C: Chunks, base: int, top: int, smallmap: int, treemap: int, treemap': int, B: Bins,
    i: int, t: Tree)
    requires Shape(C, base, top) && top < W32 && BinsOK(m, C, base, smallmap, treemap, B)
    requires OnlyBin(m, m', C, base, 32 + i) && TreeBin(m', C, base, treemap', t, i)
    requires treemap' < W32 && AgreeBut(treemap, treemap', i)
    ensures BinsOK(m', C, base, smallmap, treemap', B.(tree := B.tree[i := t]))
  {
    var T := B.tree[i := t];
    forall j ensures TreeAt(m', C, base, treemap', T, j) {
      assert TreeAt(m, C, base, treemap, B.tree, j);
      if 0 <= j < 32 && j != i { TreeOther(m, m', C, base, top, treemap, treemap', B.tree[j], j, 32 + i); }
    }
    forall j ensures SmallAt(m', C, base, smallmap, B.small, j) {
      assert SmallAt(m, C, base, smallmap, B.small, j);
      if 0 <= j < 32 { SmallOther(m, m', C, base, top, smallmap, smallmap, B.small[j], j, 32 + i); }
    }
  }

  // ---- which chunks are in bins ----

  ghost predicate InOne(B: Bins, b: int, x: int) {
    if 0 <= b < 32
    then b < |B.small| && x in B.small[b]
    else 32 <= b < 64 && b - 32 < |B.tree| && x in Members(B.tree[b - 32])
  }
  ghost predicate Listed(B: Bins, x: int) { exists b :: InOne(B, b, x) }
  lemma ListedIs(m: Mem, C: Chunks, base: int, top: int, smallmap: int, treemap: int, B: Bins, b: int, x: int)
    requires Shape(C, base, top) && top < W32 && BinsOK(m, C, base, smallmap, treemap, B) && InOne(B, b, x)
    ensures x in C && !C[x].used && BinOf(C[x].size) == b && x >= base + HEADER && Listed(B, x)
  {
    if b < 32 {
      assert SmallAt(m, C, base, smallmap, B.small, b);
      assert Free(C, x, 8 * b);
      SmallMember(C, base, top, x, b);
    } else {
      assert TreeAt(m, C, base, treemap, B.tree, b - 32);
      TreeMember(m, C, base, top, treemap, B.tree[b - 32], b - 32, x);
    }
  }
  lemma ListedHome(m: Mem, C: Chunks, base: int, top: int, smallmap: int, treemap: int, B: Bins, x: int)
    requires Shape(C, base, top) && top < W32 && BinsOK(m, C, base, smallmap, treemap, B) && Listed(B, x)
    ensures x in C && !C[x].used && InOne(B, BinOf(C[x].size), x) && x >= base + HEADER
  {
    var b :| InOne(B, b, x);
    ListedIs(m, C, base, top, smallmap, treemap, B, b, x);
  }
}
