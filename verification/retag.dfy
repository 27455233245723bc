/** Boundary-tag updates (kernel/malloc.c:1652-1657, 2312-2332): splitting, merging and handing out chunks. */
module Retagging {
  import opened Words
  import opened Chunks
  import opened Bits
  import opened Tries
  import opened Bins
  import opened Mspaces

  ghost predicate Used(C: Chunks, q: int, k: int) { q in C && C[q].used && C[q].size == k }
  // the chunks in use, but for p, are the same
  ghost predicate UsedBut(C: Chunks, C': Chunks, p: int) {
    forall q, k {:trigger Used(C', q, k)} {:trigger Used(C, q, k)} :: q != p ==> (Used(C', q, k) <==> Used(C, q, k))
  }
  ghost predicate SamePayloadBut(m: Mem, m': Mem, C: Chunks, base: int, p: int) {
    forall q, o {:trigger Fld(m', q, o)} :: q in C && C[q].used && q != base && q != p && 8 <= o < C[q].size + 4
      ==> Fld(m', q, o) == Fld(m, q, o)
  }
  // the listed chunks are the free ones that are neither dv nor in the making
  ghost predicate Cover(C: Chunks, B: Bins, dv: int, loose: int) {
    forall q {:trigger Listed(B, q)} :: Listed(B, q) <==> q in C && !C[q].used && q != dv && q != loose
  }

  // Changes are confined to the region [p, e) from its head word to the head word of the chunk that follows.
  ghost predicate OnlyRegion(m: Mem, m': Mem, p: int, e: int) {
    forall a {:trigger Fld(m', a, 0)} :: Fld(m', a, 0) != Fld(m, a, 0) ==> p + 4 <= a < e + 8
  }
  lemma RegionFld(m: Mem, m': Mem, p: int, e: int, q: int, o: int)
    requires OnlyRegion(m, m', p, e) && (q + o < p + 4 || q + o >= e + 8)
    ensures Fld(m', q, o) == Fld(m, q, o)
  {
    assert Fld(m', q, o) == Fld(m', q + o, 0) && Fld(m, q, o) == Fld(m, q + o, 0);
  }
  ghost predicate Edge(C: Chunks, base: int, p: int) {
    base + HEADER <= p && p % 8 == 0 && forall q {:trigger C[q]} :: q in C && q < p ==> q + C[q].size <= p
  }
  // chunk q lies outside the region and is in both maps
  ghost predicate Stays(C: Chunks, C': Chunks, p: int, e: int, q: int) {
    q in C && q in C' && C'[q].size == C[q].size && C'[q].used == C[q].used && (q < p || q >= e)
  }
  lemma StaysWord(s: St, mem: Mem, C': Chunks, p: int, e: int, q: int, o: int)
    requires SoundSt(s) && OnlyRegion(s.mem, mem, p, e) && Edge(s.C, s.base, p) && e % 8 == 0
    requires q in s.C && ((q < p && o < s.C[q].size + 4) || (q >= e && o >= 8))
    ensures Fld(mem, q, o) == Fld(s.mem, q, o)
  {
    assert ChunkOK(s.C, q, s.base, s.top);
    RegionFld(s.mem, mem, p, e, q, o);
  }
  lemma SmallRetag(s: St, mem: Mem, C': Chunks, p: int, e: int, l: seq<int>, i: int)
    requires SoundSt(s) && OnlyRegion(s.mem, mem, p, e) && Edge(s.C, s.base, p) && e % 8 == 0
    requires SmallBin(s.mem, s.C, s.base, s.smallmap, l, i) && forall x :: x in l ==> Stays(s.C, C', p, e, x)
    ensures SmallBin(mem, C', s.base, s.smallmap, l, i)
  {
    if l != [] {
      var h := SmallbinAt(s.base, i);
      forall x | x in l ensures Fld(mem, x, FD) == Fld(s.mem, x, FD) && Fld(mem, x, BK) == Fld(s.mem, x, BK) {
        assert Free(s.C, x, 8 * i);
        SmallMember(s.C, s.base, s.top, x, i);
        StaysWord(s, mem, C', p, e, x, FD); StaysWord(s, mem, C', p, e, x, BK);
      }
      RegionFld(s.mem, mem, p, e, h, FD); RegionFld(s.mem, mem, p, e, h, BK);
      RingFrame(s.mem, [h] + l, mem);
    }
    forall x | x in l ensures Free(C', x, 8 * i) { assert Free(s.C, x, 8 * i) && Stays(s.C, C', p, e, x); }
  }
  lemma {:induction false} FitsStay(t: Tree, C: Chunks, C': Chunks, p: int, e: int)
    requires Fits(t, C) && forall x :: x in Members(t) ==> Stays(C, C', p, e, x)
    ensures Fits(t, C')
  {
    if t.Node? {
      forall x | x in t.ring ensures Free(C', x, t.size) { assert x in Members(t) && Free(C, x, t.size); }
      FitsStay(t.left, C, C', p, e);
      FitsStay(t.right, C, C', p, e);
    }
  }
  lemma TreeRetag(s: St, mem: Mem, C': Chunks, p: int, e: int, t: Tree, i: int)
    requires SoundSt(s) && s.top < W32 && OnlyRegion(s.mem, mem, p, e) && Edge(s.C, s.base, p) && e % 8 == 0
    requires TreeBin(s.mem, s.C, s.base, s.treemap, t, i) && forall x :: x in Members(t) ==> Stays(s.C, C', p, e, x)
    ensures TreeBin(mem, C', s.base, s.treemap, t, i)
  {
    forall x, o | x in Members(t) && 8 <= o < 32 ensures Fld(mem, x, o) == Fld(s.mem, x, o) {
      TreeMember(s.mem, s.C, s.base, s.top, s.treemap, t, i, x);
      assert Stays(s.C, C', p, e, x);
      StaysWord(s, mem, C', p, e, x, o);
    }
    InTreeFrame(s.mem, mem, t, TreebinAt(s.base, i), i);
    RegionFld(s.mem, mem, p, e, TreebinAt(s.base, i), 0);
    FitsStay(t, s.C, C', p, e);
  }
  lemma BinsRetag(s: St, mem: Mem, C': Chunks, p: int, e: int)
    requires SoundSt(s) && s.top < W32 && OnlyRegion(s.mem, mem, p, e) && Edge(s.C, s.base, p) && e % 8 == 0
    requires forall q {:trigger Listed(s.B, q)} :: Listed(s.B, q) ==> Stays(s.C, C', p, e, q)
    ensures BinsOK(mem, C', s.base, s.smallmap, s.treemap, s.B)
  {
    forall i ensures SmallAt(mem, C', s.base, s.smallmap, s.B.small, i) {
      assert SmallAt(s.mem, s.C, s.base, s.smallmap, s.B.small, i);
      if 0 <= i < 32 {
        forall x | x in s.B.small[i] ensures Stays(s.C, C', p, e, x) { assert InOne(s.B, i, x); assert Listed(s.B, x); }
        SmallRetag(s, mem, C', p, e, s.B.small[i], i);
      }
    }
    forall i ensures TreeAt(mem, C', s.base, s.treemap, s.B.tree, i) {
      assert TreeAt(s.mem, s.C, s.base, s.treemap, s.B.tree, i);
      if 0 <= i < 32 {
        forall x | x in Members(s.B.tree[i]) ensures Stays(s.C, C', p, e, x) {
          assert InOne(s.B, 32 + i, x); assert Listed(s.B, x);
        }
        TreeRetag(s, mem, C', p, e, s.B.tree[i], i);
      }
    }
  }
  ghost function Retagged(s: St, mem: Mem, C': Chunks, top': int, topsize': int): St {
    s.(mem := mem, C := C', top := top', topsize := topsize')
  }
  lemma Retag(s: St, mem: Mem, C': Chunks, top': int, topsize': int, p: int, e: int)
    requires SoundSt(s) && OnlyRegion(s.mem, mem, p, e) && Edge(s.C, s.base, p) && e % 8 == 0
    requires forall q {:trigger Listed(s.B, q)} :: Listed(s.B, q) ==> Stays(s.C, C', p, e, q)
    requires Shape(C', s.base, top') && top' + topsize' == s.top + s.topsize && 0 < topsize' && topsize' % 8 == 0
    requires forall q :: q in C' && !(p <= q <= e) ==> q in s.C && C'[q] == s.C[q]
    requires forall q {:trigger TagOK(mem, C', q)} :: p <= q <= e ==> TagOK(mem, C', q)
    requires Fld(mem, top', HEAD) == topsize' + 1 && Fld(mem, s.top + s.topsize, HEAD) == TOP_FOOT_SIZE
    ensures SoundSt(Retagged(s, mem, C', top', topsize'))
  {
    assert ChunkOK(s.C, s.base, s.base, s.top);
    BinsRetag(s, mem, C', p, e);
    forall q ensures TagOK(mem, C', q) {
      if q in C' && !(p <= q <= e) {
        assert TagOK(s.mem, s.C, q) && ChunkOK(s.C, q, s.base, s.top);
        if q > e { Gap8(e, q); }
        RegionFld(s.mem, mem, p, e, q, HEAD); RegionFld(s.mem, mem, p, e, q, FOOT);
      }
    }
  }
  lemma RegionPayload(s: St, mem: Mem, p: int, e: int, x: int)
    requires SoundSt(s) && OnlyRegion(s.mem, mem, p, e) && Edge(s.C, s.base, p) && e % 8 == 0
    requires forall q {:trigger s.C[q]} :: q in s.C && s.C[q].used && q != x ==> q < p || q >= e
    ensures SamePayloadBut(s.mem, mem, s.C, s.base, x)
  {
    forall q, o | q in s.C && s.C[q].used && q != s.base && q != x
      && 8 <= o < s.C[q].size + 4 ensures Fld(mem, q, o) == Fld(s.mem, q, o) {
      assert ChunkOK(s.C, q, s.base, s.top);
      RegionFld(s.mem, mem, p, e, q, o);
    }
  }

  lemma Gap8(a: int, b: int)
    requires a % 8 == 0 && b % 8 == 0 && a < b
    ensures a + 8 <= b
  {
    assert a == 8 * (a / 8) && b == 8 * (b / 8);
  }

  // ---- one chunk of the map and its edges ----

  lemma ChunkEdge(s: St, p: int)
    requires SoundSt(s) && p in s.C && p != s.base
    ensures Edge(s.C, s.base, p) && s.base + HEADER <= p
    ensures (p + s.C[p].size) % 8 == 0 && p < p + s.C[p].size <= s.top
      && (p + s.C[p].size < s.top ==> p + s.C[p].size in s.C)
    ensures forall q {:trigger s.C[q]} :: q in s.C && q != p ==> q < p || q >= p + s.C[p].size
  {
    assert ChunkOK(s.C, p, s.base, s.top) && Sep(s.C, s.base, p) && ChunkOK(s.C, s.base, s.base, s.top);
    forall q | q in s.C && q != p ensures q < p || q >= p + s.C[p].size { assert Sep(s.C, p, q); }
    forall q | q in s.C && q < p ensures q + s.C[q].size <= p { assert Sep(s.C, q, p); }
  }
  lemma TopEdge(s: St)
    requires SoundSt(s)
    ensures Edge(s.C, s.base, s.top) && s.top !in s.C && s.base + HEADER <= s.top
    ensures forall q {:trigger s.C[q]} :: q in s.C ==> q < s.top
  {
    assert ChunkOK(s.C, s.base, s.base, s.top);
    forall q | q in s.C ensures q < s.top && q + s.C[q].size <= s.top { assert ChunkOK(s.C, q, s.base, s.top); }
  }

  ghost predicate SameAt(C: Chunks, C': Chunks, q: int) { (q in C <==> q in C') && (q in C ==> C'[q] == C[q]) }
  // new tags for the region [p, e): chunks move only there, and the only chunk in use there is x
  lemma RegionStep(s: St, mem: Mem, C': Chunks, top': int, topsize': int, p: int, e: int, x: int)
    requires SoundSt(s) && OnlyRegion(s.mem, mem, p, e) && Edge(s.C, s.base, p) && e % 8 == 0 && p <= e
    requires Shape(C', s.base, top') && top' + topsize' == s.top + s.topsize && 0 < topsize' && topsize' % 8 == 0
    requires forall q {:trigger SameAt(s.C, C', q)} :: !(p <= q <= e) ==> SameAt(s.C, C', q)
    requires forall q {:trigger TagOK(mem, C', q)} :: p <= q <= e ==> TagOK(mem, C', q)
    requires forall q {:trigger Listed(s.B, q)} :: p <= q <= e ==> !Listed(s.B, q)
    requires forall q {:trigger s.C[q]} :: q in s.C && s.C[q].used && q != x ==> q < p || q >= e
    requires Fld(mem, top', HEAD) == topsize' + 1 && Fld(mem, s.top + s.topsize, HEAD) == TOP_FOOT_SIZE
    ensures SoundSt(Retagged(s, mem, C', top', topsize'))
    ensures SamePayloadBut(s.mem, mem, s.C, s.base, x)
  {
    forall q ensures Listed(s.B, q) ==> Stays(s.C, C', p, e, q) {
      if Listed(s.B, q) { ListedFacts(s, q); assert SameAt(s.C, C', q); }
    }
    forall q | q in C' && !(p <= q <= e) ensures q in s.C && C'[q] == s.C[q] { assert SameAt(s.C, C', q); }
    Retag(s, mem, C', top', topsize', p, e);
    RegionPayload(s, mem, p, e, x);
  }
  // the chunks that are not listed in and around an unlisted chunk p
  lemma NoneListed(s: St, p: int)
    requires SoundSt(s) && p in s.C && !s.C[p].used && !Listed(s.B, p)
    ensures forall q {:trigger Listed(s.B, q)} :: p <= q <= p + s.C[p].size ==> !Listed(s.B, q)
  {
    assert ChunkOK(s.C, p, s.base, s.top);
    forall q | Listed(s.B, q) ensures q < p || q > p + s.C[p].size { ListedFacts(s, q); assert Sep(s.C, p, q); }
  }
  // set_inuse_and_pinuse on a free chunk
  lemma TakeStep(s: St, p: int, sz: int, mem: Mem)
    requires SoundSt(s) && Free(s.C, p, sz) && !Listed(s.B, p)
    requires mem == s.mem[p + HEAD := sz + 3][p + sz + HEAD := WithPinuse(Fld(s.mem, p + sz, HEAD))]
    ensures p + sz in s.C && SoundSt(Retagged(s, mem, Take(s.C, p), s.top, s.topsize))
    ensures UsedBut(s.C, Take(s.C, p), p) && SamePayload(s.mem, mem, s.C, s.base)
    ensures Used(Take(s.C, p), p, sz) && Take(s.C, p)[p].psize == 0
  {
    TakeShape(s.C, p, s.base, s.top);
    var e, C' := p + sz, Take(s.C, p);
    ChunkEdge(s, p); NoneListed(s, p);
    assert ChunkOK(s.C, p, s.base, s.top) && TagOK(s.mem, s.C, p) && TagOK(s.mem, s.C, e);
    HeadIs(s, e);
    assert TagOK(mem, C', p) && TagOK(mem, C', e);
    RegionStep(s, mem, C', s.top, s.topsize, p, e, s.base);
  }
  // set_size_and_pinuse_of_inuse_chunk on the front of a free chunk, set_size_and_pinuse_of_free_chunk on the rest
  lemma CarveStep(s: St, p: int, sz: int, nb: int, mem: Mem)
    requires SoundSt(s) && Free(s.C, p, sz) && !Listed(s.B, p) && 16 <= nb && nb % 8 == 0 && nb + 16 <= sz
    requires mem == s.mem[p + HEAD := nb + 3][p + nb + HEAD := sz - nb + 1][p + sz + FOOT := sz - nb]
    ensures p + sz in s.C && p + nb !in s.C && SoundSt(Retagged(s, mem, Carve(s.C, p, nb), s.top, s.topsize))
    ensures UsedBut(s.C, Carve(s.C, p, nb), p) && SamePayload(s.mem, mem, s.C, s.base)
    ensures Used(Carve(s.C, p, nb), p, nb) && Carve(s.C, p, nb)[p].psize == 0
      && Free(Carve(s.C, p, nb), p + nb, sz - nb)
  {
    hide BinsOK, TagOK, OnlyRegion, ChunkSize, Pinuse, Cinuse, Fld, Sep;
    CarveShape(s.C, p, nb, s.base, s.top);
    var e, C' := p + sz, Carve(s.C, p, nb);
    ChunkEdge(s, p); NoneListed(s, p); TopEdge(s);
    assert ChunkOK(s.C, p, s.base, s.top) && TagOK(s.mem, s.C, p) && TagOK(s.mem, s.C, e);
    NoneInside(s, p);
    CarveTags(s.C, s.mem, p, nb, mem);
    Gap8(e, s.top + s.topsize);
    RegionFld(s.mem, mem, p, e, s.top, HEAD); RegionFld(s.mem, mem, p, e, s.top + s.topsize, HEAD);
    RegionStep(s, mem, C', s.top, s.topsize, p, e, s.base);
  }
  lemma CarveTags(C: Chunks, m: Mem, p: int, nb: int, mem: Mem)
    requires p in C && !C[p].used && 16 <= nb && nb + 16 <= C[p].size && C[p].psize == 0
    requires var e := p + C[p].size; e in C && C[e].used && C[e].psize == C[p].size && TagOK(m, C, e)
    requires forall q {:trigger q in C} :: p < q < p + C[p].size ==> q !in C
    requires mem == m[p + HEAD := nb + 3][p + nb + HEAD := C[p].size - nb + 1][p + C[p].size + FOOT := C[p].size - nb]
    ensures forall q {:trigger TagOK(mem, Carve(C, p, nb), q)} ::
              p <= q <= p + C[p].size ==> TagOK(mem, Carve(C, p, nb), q)
    ensures OnlyRegion(m, mem, p, p + C[p].size)
  {}
  // splitting top
  lemma TopStep(s: St, nb: int, mem: Mem)
    requires SoundSt(s) && 16 <= nb < s.topsize && nb % 8 == 0
    requires mem == s.mem[s.top + nb + HEAD := s.topsize - nb + 1][s.top + HEAD := nb + 3]
    ensures s.top !in s.C && SoundSt(Retagged(s, mem, s.C[s.top := Chunk(nb, true, 0)], s.top + nb, s.topsize - nb))
    ensures UsedBut(s.C, s.C[s.top := Chunk(nb, true, 0)], s.top) && SamePayload(s.mem, mem, s.C, s.base)
  {
    var p, e, C' := s.top, s.top + nb, s.C[s.top := Chunk(nb, true, 0)];
    TopShape(s.C, nb, s.base, p);
    TopEdge(s);
    forall q | Listed(s.B, q) ensures q < p { ListedFacts(s, q); }
    assert TagOK(mem, C', p);
    RegionStep(s, mem, C', e, s.topsize - nb, p, e, s.base);
  }
  // the chunks of [p, e) become one free chunk
  lemma MergeStep(s: St, p: int, e: int, x: int, mem: Mem)
    requires SoundSt(s) && p in s.C && p != s.base && s.C[p].psize == 0 && e in s.C && s.C[e].used && p < e
    requires forall q {:trigger Listed(s.B, q)} :: p <= q <= e ==> !Listed(s.B, q)
    requires forall q {:trigger s.C[q]} :: q in s.C && s.C[q].used && q != x ==> q < p || q >= e
    requires OnlyRegion(s.mem, mem, p, e) && Fld(mem, p, HEAD) == e - p + 1
    requires Fld(mem, e, HEAD) == WithoutPinuse(Fld(s.mem, e, HEAD)) && Fld(mem, e, FOOT) == e - p
    ensures SoundSt(Retagged(s, mem, Merge(s.C, p, e), s.top, s.topsize))
    ensures SamePayloadBut(s.mem, mem, s.C, s.base, x) && Free(Merge(s.C, p, e), p, e - p)
  {
    hide BinsOK, TagOK, OnlyRegion, ChunkSize, Pinuse, Cinuse, Fld, Sep, WithoutPinuse;
    var C' := Merge(s.C, p, e);
    MergeShape(s.C, p, e, s.base, s.top);
    ChunkEdge(s, p);
    assert ChunkOK(s.C, e, s.base, s.top) && TagOK(s.mem, s.C, e);
    MergeTags(s.C, s.mem, p, e, mem);
    Gap8(e, s.top);
    RegionFld(s.mem, mem, p, e, s.top, HEAD);
    RegionFld(s.mem, mem, p, e, s.top + s.topsize, HEAD);
    RegionStep(s, mem, C', s.top, s.topsize, p, e, x);
  }
  lemma MergeTags(C: Chunks, m: Mem, p: int, e: int, mem: Mem)
    requires p < e && e in C && C[e].used && C[e].size % 8 == 0 && C[e].size >= 0 && C[e].psize >= 0 && TagOK(m, C, e)
    requires Fld(mem, p, HEAD) == e - p + 1 && Fld(mem, e, FOOT) == e - p
    requires Fld(mem, e, HEAD) == WithoutPinuse(Fld(m, e, HEAD))
    ensures forall q {:trigger TagOK(mem, Merge(C, p, e), q)} :: p <= q <= e ==> TagOK(mem, Merge(C, p, e), q)
  {
    HeadBits(C[e].size, 1, 0); HeadBits(C[e].size, 1, 1);
  }
  // the chunks from p up become part of top
  lemma MergeTopStep(s: St, p: int, x: int, mem: Mem)
    requires SoundSt(s) && p in s.C && p != s.base && s.C[p].psize == 0
    requires forall q {:trigger Listed(s.B, q)} :: p <= q ==> !Listed(s.B, q)
    requires forall q {:trigger s.C[q]} :: q in s.C && s.C[q].used && q != x ==> q < p
    requires mem == s.mem[p + HEAD := s.top + s.topsize - p + 1]
    ensures SoundSt(Retagged(s, mem, Below(s.C, p), p, s.top + s.topsize - p))
    ensures SamePayloadBut(s.mem, mem, s.C, s.base, x)
  {
    hide BinsOK, ChunkSize, Pinuse, Cinuse;
    var C' := Below(s.C, p);
    BelowShape(s.C, p, s.base, s.top);
    ChunkEdge(s, p); TopEdge(s);
    assert ChunkOK(s.C, p, s.base, s.top);
    RegionStep(s, mem, C', p, s.top + s.topsize - p, p, s.top, x);
  }
  // a chunk in use becomes two
  lemma CutStep(s: St, p: int, k: int, mem: Mem)
    requires SoundSt(s) && p in s.C && s.C[p].used && p != s.base && 16 <= k && k % 8 == 0 && k + 16 <= s.C[p].size
    requires mem == s.mem[p + HEAD := k + 2 + (if s.C[p].psize == 0 then 1 else 0)][p + k + HEAD := s.C[p].size - k + 3]
    ensures p + k !in s.C && SoundSt(Retagged(s, mem, Cut(s.C, p, k), s.top, s.topsize))
    ensures SamePayloadBut(s.mem, mem, s.C, s.base, p)
    ensures forall o :: 8 <= o < k + 4 ==> Fld(mem, p, o) == Fld(s.mem, p, o)
  {
    hide BinsOK, TagOK, OnlyRegion, ChunkSize, Pinuse, Cinuse, Fld, Sep;
    var C', e := Cut(s.C, p, k), p + k;
    CutShape(s.C, p, k, s.base, s.top);
    ChunkEdge(s, p); TopEdge(s);
    assert ChunkOK(s.C, p, s.base, s.top) && TagOK(s.mem, s.C, p);
    NoneInside(s, p);
    CutTags(s.C, s.mem, p, k, mem);
    forall q | Listed(s.B, q) ensures q < p || q > e { ListedFacts(s, q); }
    RegionFld(s.mem, mem, p, e, s.top, HEAD); RegionFld(s.mem, mem, p, e, s.top + s.topsize, HEAD);
    RegionStep(s, mem, C', s.top, s.topsize, p, e, p);
  }
  // no chunk starts inside another
  lemma NoneInside(s: St, p: int)
    requires SoundSt(s) && p in s.C
    ensures forall q {:trigger q in s.C} :: p < q < p + s.C[p].size ==> q !in s.C
  {
    forall q | p < q < p + s.C[p].size ensures q !in s.C { assert Sep(s.C, p, q); }
  }
  lemma CutTags(C: Chunks, m: Mem, p: int, k: int, mem: Mem)
    requires p in C && C[p].used && 16 <= k && k + 16 <= C[p].size && TagOK(m, C, p)
    requires forall q {:trigger q in C} :: p < q < p + C[p].size ==> q !in C
    requires mem == m[p + HEAD := k + 2 + (if C[p].psize == 0 then 1 else 0)][p + k + HEAD := C[p].size - k + 3]
    ensures forall q {:trigger TagOK(mem, Cut(C, p, k), q)} :: p <= q <= p + k ==> TagOK(mem, Cut(C, p, k), q)
    ensures OnlyRegion(m, mem, p, p + k) && forall o :: 8 <= o < k + 4 ==> Fld(mem, p, o) == Fld(m, p, o)
  {}
  // the last chunk below top, in use, grows into top
  lemma GrowStep(s: St, p: int, k: int, mem: Mem)
    requires SoundSt(s) && p in s.C && s.C[p].used && p != s.base && p + s.C[p].size == s.top
    requires s.C[p].size < k < s.C[p].size + s.topsize && k % 8 == 0
    requires OnlyRegion(s.mem, mem, p, p + k)
    requires Fld(mem, p, HEAD) == k + 2 + (if s.C[p].psize == 0 then 1 else 0)
      && Fld(mem, p + k, HEAD) == s.C[p].size + s.topsize - k + 1
    requires Fld(mem, p, FOOT) == Fld(s.mem, p, FOOT)
    ensures SoundSt(Retagged(s, mem, s.C[p := s.C[p].(size := k)], p + k, s.C[p].size + s.topsize - k))
    ensures SamePayloadBut(s.mem, mem, s.C, s.base, p)
  {
    hide BinsOK, TagOK, OnlyRegion, ChunkSize, Pinuse, Cinuse, Fld, Sep;
    var e, C' := p + k, s.C[p := s.C[p].(size := k)];
    GrowPre(s, p, k);
    ChunkEdge(s, p); TopEdge(s); LastListed(s, p);
    GrowTags(s.C, s.mem, p, k, mem);
    RegionFld(s.mem, mem, p, e, s.top + s.topsize, HEAD);
    RegionStep(s, mem, C', e, s.C[p].size + s.topsize - k, p, e, p);
  }
  lemma GrowPre(s: St, p: int, k: int)
    requires SoundSt(s) && p in s.C && s.C[p].used && p != s.base && p + s.C[p].size == s.top
    requires s.C[p].size < k < s.C[p].size + s.topsize && k % 8 == 0
    ensures Shape(s.C[p := s.C[p].(size := k)], s.base, p + k) && TagOK(s.mem, s.C, p) && (p + k) % 8 == 0
    ensures s.topsize % 8 == 0 && s.C[p].size % 8 == 0
  {
    hide BinsOK;
    assert ChunkOK(s.C, p, s.base, s.top) && TagOK(s.mem, s.C, p);
    GrowShape(s.C, p, k, s.base, s.top);
  }
  lemma LastListed(s: St, p: int)
    requires SoundSt(s) && p in s.C && s.C[p].used && p + s.C[p].size == s.top
    ensures forall q {:trigger Listed(s.B, q)} :: Listed(s.B, q) ==> q < p
    ensures forall q {:trigger q in s.C} :: p < q ==> q !in s.C
  {
    hide BinsOK;
    forall q | q in s.C ensures q <= p { assert Sep(s.C, p, q) && ChunkOK(s.C, q, s.base, s.top); }
    forall q | Listed(s.B, q) ensures q < p { ListedFacts(s, q); }
  }
  lemma GrowTags(C: Chunks, m: Mem, p: int, k: int, mem: Mem)
    requires p in C && C[p].used && TagOK(m, C, p) && forall q {:trigger q in C} :: p < q ==> q !in C
    requires Fld(mem, p, HEAD) == k + 2 + (if C[p].psize == 0 then 1 else 0) && Fld(mem, p, FOOT) == Fld(m, p, FOOT)
    ensures var C' := C[p := C[p].(size := k)];
            forall q {:trigger TagOK(mem, C', q)} :: p <= q ==> TagOK(mem, C', q)
  {}
  // a head with its PINUSE bit set, and cleared
  function WithPinuse(h: int): int { if Pinuse(h) then h else h + 1 }
  function WithoutPinuse(h: int): int { h - h % 2 }
  lemma ListedFacts(s: St, q: int)
    requires SoundSt(s) && Listed(s.B, q)
    ensures q in s.C && !s.C[q].used && q >= s.base + HEADER
  {
    assert ChunkOK(s.C, s.base, s.base, s.top);
    ListedHome(s.mem, s.C, s.base, s.top, s.smallmap, s.treemap, s.B, q);
  }
}
