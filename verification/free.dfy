/** mspace_free (kernel/malloc.c:4497-4586) and the part of sys_trim (3440-3544) left without mmap and morecore. */
module Freeing {
  import opened Words
  import opened Chunks
  import opened Bits
  import opened Bins
  import opened Mspaces
  import opened Retagging
  import opened BinAccess
  import opened Heap
  import opened ChunkChecks
  import opened Malloc

  const MAX_SIZE_T := W32 - 1

  // x, a chunk in use before, is one no longer; nothing else in use has changed
  ghost predicate Freed(s: St, s': St, x: int) {
    && s'.base == s.base && s'.end == s.end
    && (x in s'.C ==> !s'.C[x].used) && UsedBut(s.C, s'.C, x) && SamePayloadBut(s.mem, s'.mem, s.C, s.base, x)
  }
  // The victim stays the victim, with what has been merged with it, unless it has become part of top.
  ghost predicate VictimKept(s': St, dv: int, dv': int) {
    if dv == 0 || s'.top <= dv then dv' == 0
    else dv' in s'.C && !s'.C[dv'].used && dv' <= dv < dv' + s'.C[dv'].size
  }
  lemma SameVictim(s': St, dv: int, dvsize: int)
    requires Steady(s', dv, dvsize)
    ensures VictimKept(s', dv, dv)
  {
    if dv != 0 { FreeAbove(s', dv); DvBelowTop(s', dv, dvsize); }
  }
  // the threshold for trimming
  ghost predicate Trimmed(topsize: int, topsize': int, check: int, check': int) {
    check' == if topsize' > topsize && topsize' > check then MAX_SIZE_T else check
  }
  // [p, e) holds x and chunks that are in no bin; the rest of the heap is in order
  ghost predicate Gap(s: St, dv: int, p: int, e: int, x: int) {
    && SoundSt(s) && p in s.C && p != s.base && x in s.C && s.C[x].used && p <= x < e && (e == s.top || e in s.C)
    && (forall q {:trigger s.C[q]} :: q in s.C && s.C[q].used && q != x ==> q < p || q >= e)
    && (forall q {:trigger Listed(s.B, q)} :: Listed(s.B, q) <==> q in s.C && !s.C[q].used && q != dv && !(p <= q < e))
  }
  lemma GapStart(s: St, dv: int, dvsize: int, x: int)
    requires Steady(s, dv, dvsize) && x in s.C && s.C[x].used && x != s.base
    ensures Gap(s, dv, x, x + s.C[x].size, x) && x >= s.base + HEADER && x + s.C[x].size + 8 <= W32
  {
    ChunkEdge(s, x);
    assert ChunkOK(s.C, x, s.base, s.top);
    forall q ensures Listed(s.B, q) <==> q in s.C && !s.C[q].used && q != dv && !(x <= q < x + s.C[x].size) {
      if q in s.C && !s.C[q].used { FreeAbove(s, q); }
    }
  }
  // prev has been unlinked, or is dv
  lemma GapBack(s: St, s': St, dv: int, p: int, e: int, x: int)
    requires Gap(s, dv, p, e, x) && p in s.C && s.C[p].psize != 0 && SoundSt(s') && s'.C == s.C && s'.base == s.base
      && s'.top == s.top
    requires var prev := p - s.C[p].psize; if prev == dv then s'.B == s.B else ListedMinus(s.B, s'.B, prev)
    ensures Gap(s', dv, p - s.C[p].psize, e, x)
  {
    var prev := p - s.C[p].psize;
    assert ChunkOK(s.C, p, s.base, s.top) && ChunkOK(s.C, prev, s.base, s.top);
    FreeAbove(s, prev);
    forall q | q in s.C && s.C[q].used && q != x ensures q < prev || q >= e { assert Sep(s.C, prev, q); }
    forall q ensures Listed(s'.B, q) <==> q in s.C && !s.C[q].used && q != dv && !(prev <= q < e) {
      assert Sep(s.C, prev, q);
      assert Listed(s.B, q) <==> q in s.C && !s.C[q].used && q != dv && !(p <= q < e);
    }
  }
  lemma GapForth(s: St, s': St, dv: int, p: int, e: int, x: int)
    requires Gap(s, dv, p, e, x) && e in s.C && !s.C[e].used && SoundSt(s') && s'.C == s.C && s'.base == s.base
      && s'.top == s.top
    requires if e == dv then s'.B == s.B else ListedMinus(s.B, s'.B, e)
    ensures Gap(s', dv, p, e + s.C[e].size, x) && e + s.C[e].size in s.C && s.C[e + s.C[e].size].used
  {
    var n := e + s.C[e].size;
    assert ChunkOK(s.C, e, s.base, s.top);
    forall q | q in s.C && s.C[q].used && q != x ensures q < p || q >= n { assert Sep(s.C, e, q); }
    forall q ensures Listed(s'.B, q) <==> q in s.C && !s.C[q].used && q != dv && !(p <= q < n) {
      assert Sep(s.C, e, q);
      assert Listed(s.B, q) <==> q in s.C && !s.C[q].used && q != dv && !(p <= q < e);
    }
  }
  // the region becomes one free chunk
  lemma GapMerged(s: St, dv: int, p: int, e: int, x: int, mem: Mem)
    requires Gap(s, dv, p, e, x) && s.C[p].psize == 0 && e in s.C && s.C[e].used
    requires OnlyRegion(s.mem, mem, p, e) && Fld(mem, p, HEAD) == e - p + 1
    requires Fld(mem, e, HEAD) == WithoutPinuse(Fld(s.mem, e, HEAD)) && Fld(mem, e, FOOT) == e - p
    ensures var s' := Retagged(s, mem, Merge(s.C, p, e), s.top, s.topsize);
      SoundSt(s') && Freed(s, s', x) && Free(s'.C, p, e - p) && Cover(s'.C, s.B, if p <= dv < e then p else dv, p)
  {
    MergeStep(s, p, e, x, mem);
    var C' := Merge(s.C, p, e);
    forall q ensures Listed(s.B, q) <==> q in C' && !C'[q].used && q != (if p <= dv < e then p else dv) && q != p {
      assert Listed(s.B, q) <==> q in s.C && !s.C[q].used && q != dv && !(p <= q < e);
    }
    forall q, k | q != x ensures Used(C', q, k) <==> Used(s.C, q, k) {}
  }
  // the region becomes part of top
  lemma GapTop(s: St, dv: int, dvsize: int, p: int, x: int, mem: Mem)
    requires Gap(s, dv, p, s.top, x) && s.C[p].psize == 0 && DvOK(s.C, dv, dvsize)
    requires mem == s.mem[p + HEAD := s.top + s.topsize - p + 1]
    ensures var s' := Retagged(s, mem, Below(s.C, p), p, s.top + s.topsize - p);
      Freed(s, s', x) && Steady(s', if p <= dv then 0 else dv, if p <= dv then 0 else dvsize)
  {
    TopEdge(s);
    MergeTopStep(s, p, x, mem);
    var C' := Below(s.C, p);
    var dv' := if p <= dv then 0 else dv;
    forall q ensures Listed(s.B, q) <==> q in C' && !C'[q].used && q != dv' && q != 0 {
      if q in s.C && !s.C[q].used { FreeAbove(s, q); }
    }
    forall q, k | q != x ensures Used(C', q, k) <==> Used(s.C, q, k) { if Used(s.C, q, k) { assert s.C[q].used; } }
  }
  lemma FreedAfter(s: St, s0: St, s1: St, x: int)
    requires s0.C == s.C && s0.base == s.base && s0.end == s.end && SamePayload(s.mem, s0.mem, s.C, s.base)
      && Freed(s0, s1, x)
    ensures Freed(s, s1, x)
  {
    forall q, o | q in s.C && s.C[q].used && q != s.base && q != x
      && 8 <= o < s.C[q].size + 4 ensures Fld(s1.mem, q, o) == Fld(s.mem, q, o) {
      assert Fld(s0.mem, q, o) == Fld(s.mem, q, o);
    }
  }
  lemma FreedThen(s: St, s0: St, s1: St, x: int)
    requires Freed(s, s0, x) && s1.C == s0.C && s1.base == s0.base && s1.end == s0.end
      && SamePayload(s0.mem, s1.mem, s0.C, s0.base)
    ensures Freed(s, s1, x)
  {
    forall q, o | q in s.C && s.C[q].used && q != s.base && q != x
      && 8 <= o < s.C[q].size + 4 ensures Fld(s1.mem, q, o) == Fld(s.mem, q, o) {
      assert Used(s.C, q, s.C[q].size) && Used(s0.C, q, s.C[q].size);
      assert Fld(s0.mem, q, o) == Fld(s.mem, q, o);
    }
  }

  // ---- the code ----

  // the next chunk learns that p is free, and p gets its head and foot
  method SetFreeWithPinuse(m: Mspace, p: int, s: int, n: int)
    requires m.Rep() && IsAddr(p, HEAD, m.base, m.base + m.capacity) && IsAddr(n, HEAD, m.base, m.base + m.capacity)
    requires IsAddr(p, s + FOOT, m.base, m.base + m.capacity) && 0 < s && s + 3 < W32
    modifies m`mem, m.words
    ensures m.Rep() && m.mem
      == old(m.mem)[n + HEAD := WithoutPinuse(Fld(old(m.mem), n, HEAD))][p + HEAD := s + 1][p + s + FOOT := s]
  {
    var h := m.Get(n, HEAD);
    m.Set(n, HEAD, WithoutPinuse(h));
    SetSizeAndPinuseOfFreeChunk(m, p, s);
  }
  const GRANULARITY := 0x1_0000
  // What could be given back is worked out, but without mmap and morecore nothing is released, and trimming is switched
  // off.
  method SysTrim(m: Mspace, pad0: int) returns (r: int)
    requires 0 <= pad0 < W32
    modifies m`trimCheck
    ensures r == 0 && m.trimCheck == if pad0 < MAX_REQUEST && m.top != 0 then MAX_SIZE_T else old(m.trimCheck)
  {
    var released := 0;
    if pad0 < MAX_REQUEST && m.top != 0 {
      var pad := pad0 + TOP_FOOT_SIZE;
      if m.topsize > pad {
        var extra := ((m.topsize - pad + (GRANULARITY - 1)) / GRANULARITY - 1) * GRANULARITY;
        assert 0 <= extra < m.topsize - pad;
      }
      if released == 0 { m.trimCheck := MAX_SIZE_T; }
    }
    r := if released != 0 then 1 else 0;
  }
  // mspace_trim: nothing but the threshold changes
  method MspaceTrim(m: Mspace, pad: int) returns (r: int)
    requires Valid(m) && 0 <= pad < W32
    modifies m`trimCheck
    ensures Valid(m) && r == 0 && m.S() == old(m.S())
  {
    ghost var s := m.S();
    r := SysTrim(m, pad);
    assert m.S() == s;
  }
  // the region's ends, as words
  lemma GapAddr(s: St, dv: int, p: int, e: int, x: int)
    requires Gap(s, dv, p, e, x) && e in s.C
    ensures IsAddr(p, HEAD, s.base, s.end) && IsAddr(e, HEAD, s.base, s.end) && IsAddr(p, e - p + FOOT, s.base, s.end)
    ensures p > 0 && s.base + HEADER <= p && e - p + 3 < W32 && Edge(s.C, s.base, p) && p % 8 == 0 && e % 8 == 0
    ensures s.C[e].psize == 0 ==> WithoutPinuse(Fld(s.mem, e, HEAD)) == Fld(s.mem, e, HEAD) - 1
    ensures s.C[e].psize != 0 ==> WithoutPinuse(Fld(s.mem, e, HEAD)) == Fld(s.mem, e, HEAD)
    ensures 0 <= WithoutPinuse(Fld(s.mem, e, HEAD)) < W32
  {
    ChunkEdge(s, p);
    assert ChunkOK(s.C, p, s.base, s.top) && ChunkOK(s.C, e, s.base, s.top) && TagOK(s.mem, s.C, e);
    ChunkAddr(s, p, HEAD); ChunkAddr(s, e, HEAD); ChunkAddr(s, e, FOOT); HeadIs(s, e);
  }
  lemma FreeStores(m: Mem, p: int, e: int, h: int)
    requires p + 8 <= e
    ensures var m' := m[e + HEAD := h][p + HEAD := e - p + 1][p + (e - p) + FOOT := e - p];
      OnlyRegion(m, m', p, e) && Fld(m', p, HEAD) == e - p + 1 && Fld(m', e, HEAD) == h && Fld(m', e, FOOT) == e - p
  {}
  lemma FreeStoresKept(m: Mem, p: int, e: int)
    requires p + 8 <= e
    ensures var m' := m[p + HEAD := e - p + 1][p + (e - p) + FOOT := e - p];
      OnlyRegion(m, m', p, e) && Fld(m', p, HEAD) == e - p + 1 && Fld(m', e, HEAD) == Fld(m, e, HEAD)
        && Fld(m', e, FOOT) == e - p
  {}

  // x is being freed: [p, e) has been gathered so far
  ghost predicate Gathered(s: St, dv: int, dvsize: int, p: int, e: int, x: int) {
    Gap(s, dv, p, e, x) && s.C[p].psize == 0 && DvOK(s.C, dv, dvsize)
  }
  lemma Joined(s: St, dv: int, dvsize: int, p: int, e: int, x: int, mem: Mem)
    requires Gathered(s, dv, dvsize, p, e, x) && e in s.C && s.C[e].used
    requires OnlyRegion(s.mem, mem, p, e) && Fld(mem, p, HEAD) == e - p + 1
    requires Fld(mem, e, HEAD) == WithoutPinuse(Fld(s.mem, e, HEAD)) && Fld(mem, e, FOOT) == e - p
    ensures var s' := Retagged(s, mem, Merge(s.C, p, e), s.top, s.topsize);
      Freed(s, s', x) && Free(s'.C, p, e - p) && if p <= dv < e then Steady(s', p, e - p) else Loose(s', dv, dvsize, p)
  {
    GapMerged(s, dv, p, e, x, mem);
    var s' := Retagged(s, mem, Merge(s.C, p, e), s.top, s.topsize);
    FreeAbove(s', p);
    var dv' := if p <= dv < e then p else dv;
    forall q ensures Listed(s.B, q) <==> q in s'.C && !s'.C[q].used && q != dv' && q != (if dv' == p then 0 else p) {
      if q in s'.C && !s'.C[q].used { FreeAbove(s', q); }
    }
    assert dv' == p ==> Cover(s'.C, s'.B, p, 0);
    assert dv' != p ==> Cover(s'.C, s'.B, dv, p);
  }
  method FreeInto(m: Mspace, p: int, psize: int, n: int, ghost x: int, ghost dv: int, ghost dvsize: int)
    requires m.Rep() && Gathered(m.S(), dv, dvsize, p, n, x) && n in m.C && m.C[n].used && psize == n - p
    modifies m`mem, m.words, m`C
    ensures m.Rep() && Freed(old(m.S()), m.S(), x) && Free(m.C, p, psize)
    ensures if p <= dv < n then Steady(m.S(), p, psize) else Loose(m.S(), dv, dvsize, p)
  {
    ghost var s0 := m.S();
    GapAddr(s0, dv, p, n, x); Gap8(p, n);
    SetFreeWithPinuse(m, p, psize, n);
    FreeStores(s0.mem, p, n, WithoutPinuse(Fld(s0.mem, n, HEAD)));
    Joined(s0, dv, dvsize, p, n, x, m.mem);
    m.C := Merge(m.C, p, n);
    assert m.S() == Retagged(s0, m.mem, m.C, s0.top, s0.topsize);
  }
  // the same where the chunk before n is free already
  method FreeOver(m: Mspace, p: int, psize: int, ghost n: int, ghost x: int, ghost dv: int, ghost dvsize: int)
    requires m.Rep() && Gathered(m.S(), dv, dvsize, p, n, x) && n in m.C && m.C[n].used && m.C[n].psize != 0
      && psize == n - p
    modifies m`mem, m.words, m`C
    ensures m.Rep() && Freed(old(m.S()), m.S(), x) && Free(m.C, p, psize)
    ensures if p <= dv < n then Steady(m.S(), p, psize) else Loose(m.S(), dv, dvsize, p)
  {
    ghost var s0 := m.S();
    GapAddr(s0, dv, p, n, x); Gap8(p, n);
    SetSizeAndPinuseOfFreeChunk(m, p, psize);
    FreeStoresKept(s0.mem, p, n);
    Joined(s0, dv, dvsize, p, n, x, m.mem);
    m.C := Merge(m.C, p, n);
    assert m.S() == Retagged(s0, m.mem, m.C, s0.top, s0.topsize);
  }
  method InsertFreed(m: Mspace, p: int, psize: int, ghost s0: St, ghost x: int)
    requires m.Rep() && Loose(m.S(), m.dv, m.dvsize, p) && Free(m.C, p, psize) && Freed(s0, m.S(), x)
    modifies m`mem, m.words, m`smallmap, m`treemap, m`B
    ensures Valid(m) && Freed(s0, m.S(), x)
  {
    ghost var s1 := m.S();
    InsertChunk(m, p, psize);
    Inserted(s1, m.S(), m.dv, m.dvsize, p);
    FreedThen(s0, s1, m.S(), x);
  }
  // x and perhaps a free chunk p before it
  ghost predicate Span2(C: Chunks, p: int, e: int, x: int) {
    p in C && x in C && C[x].used && x + C[x].size == e && (p == x || (p + C[p].size == x && !C[p].used))
  }
  lemma DvIn(s: St, dv: int, dvsize: int, p: int, e: int, x: int)
    requires SoundSt(s) && DvOK(s.C, dv, dvsize) && Span2(s.C, p, e, x) && p > 0
    ensures p <= dv < e <==> dv == p
  {
    if p <= dv < e { assert Sep(s.C, p, dv) && Sep(s.C, x, dv); }
    if dv == p { assert ChunkOK(s.C, p, s.base, s.top) && ChunkOK(s.C, x, s.base, s.top); }
  }
  // top is next: it takes the gathered chunks in
  method FreeTop(m: Mspace, p: int, psize: int, ghost x: int)
    requires m.Rep() && Gathered(m.S(), m.dv, m.dvsize, p, m.top, x) && psize == m.top - p && Span2(m.C, p, m.top, x)
    modifies m`mem, m.words, m`C, m`top, m`topsize, m`dv, m`dvsize, m`trimCheck
    ensures Valid(m) && Freed(old(m.S()), m.S(), x) && VictimKept(m.S(), old(m.dv), m.dv)
    ensures Trimmed(old(m.topsize), m.topsize, old(m.trimCheck), m.trimCheck)
  {
    hide Mspace.Rep, Gathered, Gap, SoundSt, Steady, Freed, Span2, DvOK, Cover;
    ghost var s0, dv, dvsize := m.S(), m.dv, m.dvsize;
    TopTaken(s0, dv, dvsize, p, x);
    m.topsize := m.topsize + psize;
    var tsize := m.topsize;
    m.top := p;
    m.Set(p, HEAD, tsize + 1);
    if p == m.dv {
      m.dv := 0;
      m.dvsize := 0;
    }
    if tsize > m.trimCheck {
      var _ := SysTrim(m, 0);
    }
    TopGiven(s0, dv, dvsize, p, x, m.mem);
    m.C := Below(m.C, p);
    assert m.S() == Retagged(s0, m.mem, m.C, p, s0.top + s0.topsize - p);
    if dv < p { SameVictim(m.S(), dv, dvsize); }
  }
  lemma TopTaken(s: St, dv: int, dvsize: int, p: int, x: int)
    requires Gathered(s, dv, dvsize, p, s.top, x) && Span2(s.C, p, s.top, x)
    ensures IsAddr(p, HEAD, s.base, s.end) && s.base <= p < s.top && 0 < p && 0 < s.topsize
      && s.topsize + (s.top - p) + 1 < W32 && dv < s.top && (p <= dv <==> dv == p)
  {
    ChunkEdge(s, p); TopAddr(s, 0);
    assert ChunkOK(s.C, p, s.base, s.top);
    ChunkAddr(s, p, HEAD);
    DvIn(s, dv, dvsize, p, s.top, x);
    DvBelowTop(s, dv, dvsize);
  }
  lemma TopGiven(s: St, dv: int, dvsize: int, p: int, x: int, mem: Mem)
    requires Gathered(s, dv, dvsize, p, s.top, x) && mem == s.mem[p + HEAD := s.top + s.topsize - p + 1]
    ensures var s' := Retagged(s, mem, Below(s.C, p), p, s.top + s.topsize - p);
      Freed(s, s', x) && Steady(s', if p <= dv then 0 else dv, if p <= dv then 0 else dvsize)
  {
    GapTop(s, dv, dvsize, p, x, mem);
  }
  lemma DvBelowTop(s: St, dv: int, dvsize: int)
    requires SoundSt(s) && DvOK(s.C, dv, dvsize)
    ensures dv < s.top
  {
    TopEdge(s);
  }
  // the designated victim is next: it grows downwards
  method FreeNextDv(m: Mspace, p: int, psize: int, next: int, ghost x: int)
    requires m.Rep() && Gathered(m.S(), m.dv, m.dvsize, p, next, x) && psize == next - p && Span2(m.C, p, next, x)
      && next == m.dv && next in m.C
    modifies m`mem, m.words, m`C, m`dv, m`dvsize
    ensures Valid(m) && Freed(old(m.S()), m.S(), x) && VictimKept(m.S(), old(m.dv), m.dv)
  {
    ghost var s0, dv, dvsize := m.S(), m.dv, m.dvsize;
    NextDv(s0, dv, dvsize, p, next, x); DvBelowTop(s0, dv, dvsize);
    GapForth(s0, s0, dv, p, next, x);
    m.dvsize := m.dvsize + psize;
    var dsize := m.dvsize;
    m.dv := p;
    FreeOver(m, p, dsize, next + dvsize, x, dv, dvsize);
  }
  lemma NextDv(s: St, dv: int, dvsize: int, p: int, next: int, x: int)
    requires Gathered(s, dv, dvsize, p, next, x) && next == dv && next in s.C
    ensures !s.C[next].used && dvsize == s.C[next].size > 0 && p < dv && p > 0
    ensures next + dvsize in s.C && s.C[next + dvsize].used && s.C[next + dvsize].psize != 0
  {
    ChunkEdge(s, p);
    assert ChunkOK(s.C, next, s.base, s.top);
  }
  // next is a chunk in a bin
  method FreeNext(m: Mspace, p: int, psize0: int, next: int, nsize: int, ghost x: int) returns (psize: int)
    requires m.Rep() && Gathered(m.S(), m.dv, m.dvsize, p, next, x) && psize0 == next - p && Span2(m.C, p, next, x)
    requires Free(m.C, next, nsize) && next != m.dv
    modifies m`mem, m.words, m`smallmap, m`treemap, m`B, m`C
    ensures m.Rep() && Freed(old(m.S()), m.S(), x) && Free(m.C, p, psize)
    ensures if p == m.dv then Steady(m.S(), p, psize) else Loose(m.S(), m.dv, m.dvsize, p)
  {
    ghost var s0, dv, dvsize := m.S(), m.dv, m.dvsize;
    NextHome(s0, dv, dvsize, p, next, x);
    psize := psize0 + nsize;
    UnlinkChunk(m, next, nsize);
    ghost var s1 := m.S();
    GapForth(s0, s1, dv, p, next, x);
    FreeOver(m, p, psize, next + nsize, x, dv, dvsize);
    FreedAfter(s0, s1, m.S(), x);
  }
  lemma NextHome(s: St, dv: int, dvsize: int, p: int, next: int, x: int)
    requires Gathered(s, dv, dvsize, p, next, x) && Span2(s.C, p, next, x) && next in s.C && !s.C[next].used
      && next != dv
    ensures Listed(s.B, next) && next + s.C[next].size in s.C && s.C[next + s.C[next].size].psize != 0 && p > 0
    ensures p <= dv < next + s.C[next].size <==> dv == p
  {
    ChunkEdge(s, p);
    assert ChunkOK(s.C, next, s.base, s.top);
    DvIn(s, dv, dvsize, p, next, x);
    assert Sep(s.C, next, dv);
    DvAt(s, dv, dvsize);
  }
  lemma DvAt(s: St, dv: int, dvsize: int)
    requires SoundSt(s) && DvOK(s.C, dv, dvsize)
    ensures dv == 0 || (dv in s.C && !s.C[dv].used && dv >= s.base + HEADER)
  {
    if dv != 0 { FreeAbove(s, dv); }
  }
  // what follows the gathered chunk decides how it is given back
  method FreeForth(m: Mspace, p: int, psize0: int, next: int, ghost x: int)
    requires m.Rep() && Gathered(m.S(), m.dv, m.dvsize, p, next, x) && psize0 == next - p && Span2(m.C, p, next, x)
    requires p == m.dv && next in m.C ==> !m.C[next].used
    modifies m`mem, m.words, m`smallmap, m`treemap, m`B, m`C, m`top, m`topsize, m`dv, m`dvsize, m`trimCheck
    ensures Valid(m) && Freed(old(m.S()), m.S(), x) && VictimKept(m.S(), old(m.dv), m.dv)
    ensures Trimmed(old(m.topsize), m.topsize, old(m.trimCheck), m.trimCheck)
  {
    hide VictimKept, Mspace.Rep, Cover, Freed;
    var psize := psize0;
    ghost var s0 := m.S();
    NextHead(s0, p, next, x);
    DvIn(s0, m.dv, m.dvsize, p, next, x);
    var nhead := m.Get(next, HEAD);
    if p < next && Pinuse(nhead) {
      if !Cinuse(nhead) {
        if next == m.top {
          FreeTop(m, p, psize, x);
          return;
        } else if next == m.dv {
          FreeNextDv(m, p, psize, next, x);
          return;
        } else {
          psize := FreeNext(m, p, psize, next, ChunkSize(nhead), x);
          if p == m.dv {
            m.dvsize := psize;
            SameVictim(m.S(), m.dv, m.dvsize);
            return;
          }
        }
      } else {
        FreeInto(m, p, psize, next, x, m.dv, m.dvsize);
      }
      InsertFreed(m, p, psize, s0, x);
      SameVictim(m.S(), m.dv, m.dvsize);
      CheckFreeChunk(m, p);
    } else {
      assert false;
    }
  }
  lemma NextHead(s: St, p: int, e: int, x: int)
    requires SoundSt(s) && Span2(s.C, p, e, x) && p != s.base && (e == s.top || e in s.C)
    ensures IsAddr(e, HEAD, s.base, s.end) && p < e && p > 0 && Pinuse(Fld(s.mem, e, HEAD))
    ensures s.top !in s.C
            && if e == s.top
               then !Cinuse(Fld(s.mem, e, HEAD))
               else e in s.C && (Cinuse(Fld(s.mem, e, HEAD)) <==> s.C[e].used)
                    && ChunkSize(Fld(s.mem, e, HEAD)) == s.C[e].size
  {
    assert ChunkOK(s.C, x, s.base, s.top) && ChunkOK(s.C, p, s.base, s.top);
    ChunkEdge(s, p); TopEdge(s);
    TopAddr(s, 0);
    TopHead(s.topsize);
    if e != s.top { HeadIs(s, e); }
  }
  method MspaceFree(m: Mspace, mem: int)
    requires Valid(m) && (mem != 0 ==> mem - 8 in m.C && m.C[mem - 8].used && mem - 8 != m.base)
    modifies m`mem, m.words, m`smallmap, m`treemap, m`B, m`C, m`top, m`topsize, m`dv, m`dvsize, m`trimCheck
    ensures Valid(m)
    ensures mem == 0 ==> m.S() == old(m.S()) && m.dv == old(m.dv) && m.dvsize == old(m.dvsize)
    ensures mem != 0 ==> Freed(old(m.S()), m.S(), mem - 8) && VictimKept(m.S(), old(m.dv), m.dv)
    ensures Trimmed(old(m.topsize), m.topsize, old(m.trimCheck), m.trimCheck)
  {
    if mem != 0 {
      var p := mem - 8;
      ghost var s0, x := m.S(), p;
      GapStart(s0, m.dv, m.dvsize, x);
      HeadIs(s0, p);
      CheckInuseChunk(m, p);
      var head := m.Get(p, HEAD);
      if p >= m.base && Cinuse(head) {
        var psize := ChunkSize(head);
        var next := p + psize;
        if !Pinuse(head) {
          FreeBack(m, p, psize, next);
        } else {
          NotDv(s0, m.dv, m.dvsize, x);
          FreeForth(m, p, psize, next, x);
        }
      } else {
        assert false;
      }
    }
  }
  lemma NotDv(s: St, dv: int, dvsize: int, x: int)
    requires SoundSt(s) && DvOK(s.C, dv, dvsize) && x in s.C && s.C[x].used && x != s.base
    ensures x != dv && x > 0
  {
    ChunkEdge(s, x);
  }
  // consolidate backward, then forward
  method FreeBack(m: Mspace, x: int, xsize: int, next: int)
    requires Valid(m) && x in m.C && m.C[x].used && x != m.base && m.C[x].psize != 0 && xsize == m.C[x].size
      && next == x + xsize
    modifies m`mem, m.words, m`smallmap, m`treemap, m`B, m`C, m`top, m`topsize, m`dv, m`dvsize, m`trimCheck
    ensures Valid(m) && Freed(old(m.S()), m.S(), x) && VictimKept(m.S(), old(m.dv), m.dv)
    ensures Trimmed(old(m.topsize), m.topsize, old(m.trimCheck), m.trimCheck)
  {
    ghost var s0 := m.S();
    PrevIs(s0, m.dv, m.dvsize, x);
    var prevsize := m.Get(x, FOOT);
    var prev := x - prevsize;
    var psize := xsize + prevsize;
    if prev >= m.base {
      GapStart(s0, m.dv, m.dvsize, x);
      if prev != m.dv {
        UnlinkChunk(m, prev, prevsize);
        GapBack(s0, m.S(), m.dv, x, next, x);
      } else {
        GapBack(s0, s0, m.dv, x, next, x);
        NextHead(s0, prev, next, x);
        var nhead := m.Get(next, HEAD);
        if Cinuse(nhead) && Pinuse(nhead) {
          m.dvsize := psize;
          DvIn(s0, prev, prevsize, prev, next, x);
          FreeInto(m, prev, psize, next, x, prev, prevsize);
          SameVictim(m.S(), prev, psize);
          return;
        }
      }
      ghost var s1 := m.S();
      FreeForth(m, prev, psize, next, x);
      FreedAfter(s0, s1, m.S(), x);
    } else {
      assert false;
    }
  }
  lemma PrevIs(s: St, dv: int, dvsize: int, x: int)
    requires Steady(s, dv, dvsize) && x in s.C && s.C[x].used && x != s.base && s.C[x].psize != 0
    ensures Fld(s.mem, x, FOOT) == s.C[x].psize && IsAddr(x, FOOT, s.base, s.end)
    ensures var prev := x - s.C[x].psize;
      && Free(s.C, prev, s.C[x].psize) && s.C[prev].psize == 0 && prev >= s.base + HEADER && prev > 0
      && (Listed(s.B, prev) <==> prev != dv) && (prev == dv ==> dvsize == s.C[x].psize)
        && Span2(s.C, prev, x + s.C[x].size, x)
  {
    HeadIs(s, x);
    var prev := x - s.C[x].psize;
    assert ChunkOK(s.C, x, s.base, s.top) && ChunkOK(s.C, prev, s.base, s.top);
    FreeAbove(s, prev);
  }
}
