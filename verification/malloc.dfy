/** mspace_malloc, tmalloc_large and tmalloc_small (kernel/malloc.c:3549-3658, 4383-4495). */
module Malloc {
  import opened Words
  import opened Chunks
  import opened Bits
  import opened Bins
  import opened Mspaces
  import opened Retagging
  import opened BinAccess
  import opened BestFit
  import opened Heap
  import opened Choices
  import opened ChunkChecks

  const MAX_REQUEST := 0xFFFF_FFC0
  const MIN_REQUEST := 11
  const MAX_SMALL_REQUEST := 244

  function PadRequest(req: nat): nat { var x := (req + 11) % W32; x - x % 8 }
  function Request2Size(req: nat): nat { if req < MIN_REQUEST then MIN_CHUNK_SIZE else PadRequest(req) }
  lemma RequestSize(req: nat)
    requires req < MAX_REQUEST
    ensures var nb := Request2Size(req);
            16 <= nb < W32 && nb % 8 == 0 && req + 4 <= nb && (nb == 16 || nb < req + 12)
            && (req <= MAX_SMALL_REQUEST <==> nb < 0x100)
  {}

  // ---- tag stores ----

  method SetInuseAndPinuse(m: Mspace, p: int, s: int)
    requires m.Rep() && IsAddr(p, HEAD, m.base, m.base + m.capacity) && IsAddr(p, s + HEAD, m.base, m.base + m.capacity)
      && 0 < s && s + 3 < W32
    modifies m`mem, m.words
    ensures m.Rep() && m.mem == old(m.mem)[p + HEAD := s + 3][p + s + HEAD := WithPinuse(Fld(old(m.mem), p + s, HEAD))]
  {
    m.Set(p, HEAD, s + 3);
    var next := m.Get(p + s, HEAD);
    m.Set(p + s, HEAD, WithPinuse(next));
  }
  method SetSizeAndPinuseOfInuseChunk(m: Mspace, p: int, s: int)
    requires m.Rep() && IsAddr(p, HEAD, m.base, m.base + m.capacity) && 0 < s && s + 3 < W32
    modifies m`mem, m.words
    ensures m.Rep() && m.mem == old(m.mem)[p + HEAD := s + 3]
  {
    m.Set(p, HEAD, s + 3);
  }
  method SetSizeAndPinuseOfFreeChunk(m: Mspace, p: int, s: int)
    requires m.Rep() && IsAddr(p, HEAD, m.base, m.base + m.capacity) && IsAddr(p, s + FOOT, m.base, m.base + m.capacity)
      && 0 < s && s + 3 < W32
    modifies m`mem, m.words
    ensures m.Rep() && m.mem == old(m.mem)[p + HEAD := s + 1][p + s + FOOT := s]
  {
    m.Set(p, HEAD, s + 1);
    m.Set(p + s, FOOT, s);
  }

  // ---- handing out a chunk that is in no bin ----

  lemma EightFour(n: int)
    requires n % 8 == 0
    ensures n % 4 == 0 && (n + 4) % 4 == 0
  {
    assert n == 4 * (2 * (n / 8));
  }
  lemma LooseAddr(s: St, dv: int, dvsize: int, p: int, nb: int)
    requires Loose(s, dv, dvsize, p) && 0 < nb <= s.C[p].size && nb % 8 == 0
    ensures IsAddr(p, HEAD, s.base, s.end) && IsAddr(p, nb + HEAD, s.base, s.end)
    ensures IsAddr(p, s.C[p].size + FOOT, s.base, s.end) && IsAddr(p, s.C[p].size + HEAD, s.base, s.end)
    ensures 16 <= s.C[p].size && s.C[p].size + 3 < W32 && p > 0
  {
    FreeAbove(s, p);
    assert s.C[p].size + 8 <= W32 by { assert ChunkOK(s.C, p, s.base, s.top); }
    EightFour(nb); EightFour(s.C[p].size);
    ChunkAddr(s, p, HEAD); ChunkAddr(s, p, nb + HEAD); ChunkAddr(s, p, s.C[p].size + FOOT);
      ChunkAddr(s, p, s.C[p].size + HEAD);
  }
  lemma LooseSize(s: St, dv: int, dvsize: int, p: int)
    requires Loose(s, dv, dvsize, p)
    ensures s.C[p].size % 8 == 0 && 16 <= s.C[p].size
  {
    FreeAbove(s, p);
  }
  method UseWhole(m: Mspace, p: int, s: int, ghost nb: int)
    requires m.Rep() && Loose(m.S(), m.dv, m.dvsize, p) && m.C[p].size == s && nb <= s < nb + 16
    modifies m`mem, m.words, m`C
    ensures Valid(m) && Granted(old(m.S()), m.S(), p, nb) && m.C[p].size == s
      && m.S().(mem := m.mem, C := m.C) == old(m.S()).(mem := m.mem, C := m.C)
  {
    ghost var s0 := m.S();
    LooseSize(s0, m.dv, m.dvsize, p);
    LooseAddr(s0, m.dv, m.dvsize, p, s);
    SetInuseAndPinuse(m, p, s);
    TakeLoose(s0, m.dv, m.dvsize, p, s, nb, m.mem);
    m.C := Take(m.C, p);
    assert m.S() == Retagged(s0, m.mem, m.C, s0.top, s0.topsize);
  }
  method CarveTags(m: Mspace, p: int, s: int, nb: int)
    requires m.Rep() && IsAddr(p, HEAD, m.base, m.base + m.capacity)
      && IsAddr(p, nb + HEAD, m.base, m.base + m.capacity)
    requires IsAddr(p, s + FOOT, m.base, m.base + m.capacity) && 0 < nb < s && s + 3 < W32
    modifies m`mem, m.words
    ensures m.Rep() && m.mem == old(m.mem)[p + HEAD := nb + 3][p + nb + HEAD := s - nb + 1][p + s + FOOT := s - nb]
  {
    SetSizeAndPinuseOfInuseChunk(m, p, nb);
    SetSizeAndPinuseOfFreeChunk(m, p + nb, s - nb);
  }
  method UseFront(m: Mspace, p: int, s: int, nb: int)
    requires m.Rep() && Loose(m.S(), m.dv, m.dvsize, p) && m.C[p].size == s && 16 <= nb && nb % 8 == 0 && nb + 16 <= s
    modifies m`mem, m.words, m`C
    ensures m.Rep() && Loose(m.S(), m.dv, m.dvsize, p + nb) && Granted(old(m.S()), m.S(), p, nb)
      && Free(m.C, p + nb, s - nb) && m.C[p].size == nb
    ensures m.S().(mem := m.mem, C := m.C) == old(m.S()).(mem := m.mem, C := m.C)
  {
    ghost var s0 := m.S();
    LooseAddr(s0, m.dv, m.dvsize, p, nb);
    CarveTags(m, p, s, nb);
    CarveLoose(s0, m.dv, m.dvsize, p, s, nb, m.mem);
    m.C := Carve(m.C, p, nb);
    assert m.S() == Retagged(s0, m.mem, m.C, s0.top, s0.topsize);
  }

  // ---- the tree bins ----

  // unlink_large_chunk on the chunk found
  method Obtain(m: Mspace, v: int, s: int)
    requires Valid(m) && Free(m.C, v, s) && Listed(m.B, v) && s >= 0x100
    modifies m`mem, m.words, m`treemap, m`B
    ensures m.Rep() && Loose(m.S(), m.dv, m.dvsize, v) && SamePayload(old(m.mem), m.mem, m.C, m.base)
  {
    ghost var s0 := m.S();
    UnlinkLarge(m, v, s);
    Unlisted(s0, m.S(), m.dv, m.dvsize, v);
  }
  method TmallocLarge(m: Mspace, nb: int) returns (mem: int)
    requires Valid(m) && 0x100 <= nb < W32 && nb % 8 == 0
    modifies m`mem, m.words, m`smallmap, m`treemap, m`B, m`C
    ensures Valid(m)
    ensures mem == 0 <==> DvTighter(old(m.S()), nb, m.dvsize)
    ensures mem == 0 ==> m.S() == old(m.S())
    ensures mem != 0 ==> Granted(old(m.S()), m.S(), mem - 8, nb) && Picked(old(m.S()), m.dv, m.dvsize, nb, mem - 8)
    ensures mem != 0 ==> CutOff(old(m.S()), m.dv, m.dvsize, nb, mem - 8, m.C, m.dv, m.dvsize)
  {
    hide Picked, Tightest, HasFit, Mspace.Rep, Cover;
    ghost var s0 := m.S();
    var v, rsize := SearchLarge(m, nb);
    DvBound(s0, m.dv, m.dvsize);
    if v != 0 && rsize < Spare(m.dvsize, nb) {
      LargeChosen(s0, nb, v, rsize, m.dvsize); LargeTreeChoice(s0, m.dv, m.dvsize, nb, v);
      FreeFits(s0, nb, v);
      if v >= m.base {
        var r := v + nb;
        HeadIs(s0, v);
        assert ChunkSize(m.Get(v, HEAD)) == rsize + nb;
        if v < r {
          Obtain(m, v, rsize + nb);
          ghost var s1 := m.S();
          if rsize < MIN_CHUNK_SIZE {
            UseWhole(m, v, rsize + nb, nb);
          } else {
            UseFront(m, v, rsize + nb, nb);
            InsertRest(m, s1, v, r, rsize, nb);
          }
          GrantedAfter(s0, s1, m.S(), v, nb);
          return v + 8;
        } else {
          assert false;
        }
      } else {
        assert false;
      }
    }
    NoneBetter(s0, nb, v, rsize, m.dvsize);
    return 0;
  }
  method InsertRest(m: Mspace, ghost s1: St, ghost p: int, r: int, rsize: int, ghost nb: int)
    requires m.Rep() && Loose(m.S(), m.dv, m.dvsize, r) && Free(m.C, r, rsize) && Granted(s1, m.S(), p, nb)
    modifies m`mem, m.words, m`smallmap, m`treemap, m`B
    ensures Valid(m) && Granted(s1, m.S(), p, nb)
  {
    ghost var s2 := m.S();
    InsertChunk(m, r, rsize);
    Inserted(s2, m.S(), m.dv, m.dvsize, r);
    GrantedThen(s1, s2, m.S(), p, nb);
  }
  method RestToDv(m: Mspace, ghost s1: St, ghost p: int, r: int, rsize: int, ghost nb: int)
    requires m.Rep() && Loose(m.S(), m.dv, m.dvsize, r) && Free(m.C, r, rsize) && Granted(s1, m.S(), p, nb)
      && m.dvsize < 0x100
    modifies m`mem, m.words, m`smallmap, m`treemap, m`B, m`dv, m`dvsize
    ensures Valid(m) && Granted(s1, m.S(), p, nb) && m.dv == r && m.dvsize == rsize
  {
    ghost var s2, dv, dvsize := m.S(), m.dv, m.dvsize;
    ReplaceDv(m, r, rsize);
    Replaced(s2, m.S(), dv, dvsize, r);
    GrantedThen(s1, s2, m.S(), p, nb);
  }
  lemma DvBound(s: St, dv: int, dvsize: int)
    requires Steady(s, dv, dvsize)
    ensures 0 <= dvsize < W32
  {
    if dvsize != 0 { FreeAbove(s, dv); }
  }
  lemma SpareIs(size: int, nb: int)
    requires 0 <= size < W32 && 0 < nb < W32
    ensures Spare(size, nb) == if size < nb then size - nb + W32 else size - nb
  {}
  lemma LargeChosen(s: St, nb: int, v: int, rsize: int, dvsize: int)
    requires SoundSt(s) && 0x100 <= nb < W32 && Fittest(s, nb, v, rsize) && 0 <= dvsize < W32
    requires v != 0 && rsize < Spare(dvsize, nb)
    ensures Free(s.C, v, rsize + nb) && Listed(s.B, v) && v >= s.base + HEADER && v % 8 == 0
    ensures Tightest(s, nb, v) && !DvTighter(s, nb, dvsize)
  {
    FreeAbove(s, v);
    SpareIs(dvsize, nb);
  }
  lemma NoneBetter(s: St, nb: int, v: int, rsize: int, dvsize: int)
    requires SoundSt(s) && 0x100 <= nb < W32 && Fittest(s, nb, v, rsize) && 0 <= dvsize < W32
    requires v == 0 || rsize >= Spare(dvsize, nb)
    ensures DvTighter(s, nb, dvsize)
  {
    if v != 0 { FreeAbove(s, v); }
    SpareIs(dvsize, nb);
  }
  method TmallocSmall(m: Mspace, nb: int) returns (mem: int)
    requires Valid(m) && 16 <= nb < 0x100 && nb % 8 == 0 && m.treemap != 0 && m.dvsize < 0x100
    modifies m`mem, m.words, m`smallmap, m`treemap, m`B, m`C, m`dv, m`dvsize
    ensures Valid(m) && mem > 8 && Granted(old(m.S()), m.S(), mem - 8, nb)
    ensures Tightest(old(m.S()), nb, mem - 8) && Free(old(m.C), mem - 8, old(m.C)[mem - 8].size)
      && old(m.C)[mem - 8].size >= 0x100
    ensures CutOff(old(m.S()), old(m.dv), old(m.dvsize), nb, mem - 8, m.C, m.dv, m.dvsize)
  {
    hide HasFit, Mspace.Rep, Cover;
    ghost var s0 := m.S();
    var v, rsize := SearchSmall(m, nb);
    FreeAbove(s0, v); FreeFits(s0, nb, v);
    if v >= m.base {
      var r := v + nb;
      HeadIs(s0, v);
      assert ChunkSize(m.Get(v, HEAD)) == rsize + nb;
      if v < r {
        Obtain(m, v, rsize + nb);
        ghost var s1 := m.S();
        if rsize < MIN_CHUNK_SIZE {
          UseWhole(m, v, rsize + nb, nb);
        } else {
          UseFront(m, v, rsize + nb, nb);
          RestToDv(m, s1, v, r, rsize, nb);
        }
        GrantedAfter(s0, s1, m.S(), v, nb);
        return v + 8;
      } else {
        assert false;
      }
    } else {
      assert false;
    }
  }

  // ---- the small bins ----

  lemma NothingListed(s: St, i: int)
    requires SoundSt(s) && 0 <= i < 32 && (forall j: nat :: i <= j < 32 ==> !Marked(s.smallmap, j)) && s.treemap == 0
    ensures NoneListedFits(s, 8 * i)
  {
    forall q | Listed(s.B, q) && q in s.C ensures s.C[q].size < 8 * i {
      ListedFacts(s, q); BinRange(s, q); Home(s, q);
      var b := BinOf(s.C[q].size);
      if b < 32 { BinMark(s, b); } else { BinRoot(s, b - 32); ZeroBit(b - 32); }
    }
  }
  // the newest chunk of a small bin is taken out
  method TakeFirst(m: Mspace, i: int) returns (p: int)
    requires Valid(m) && 0 <= i < 32 && Marked(m.smallmap, i)
    modifies m`mem, m.words, m`smallmap, m`B
    ensures m.Rep() && Loose(m.S(), m.dv, m.dvsize, p) && m.C[p].size == 8 * i && p > 0 && p % 8 == 0
    ensures SamePayload(old(m.mem), m.mem, m.C, m.base) && Newest(old(m.B), i, p)
  {
    ghost var s0 := m.S();
    BinMark(s0, i);
    FirstFree(s0, i, m.B.small[i][|m.B.small[i]|-1]);
    var b := SmallbinAt(m.base, i);
    p := m.Get(b, FD);
    HeadIs(s0, p); FreeAbove(s0, p);
    assert ChunkSize(m.Get(p, HEAD)) == 8 * i;
    UnlinkFirst(m, b, p, i);
    Unlisted(s0, m.S(), m.dv, m.dvsize, p);
  }
  // a chunk of bin idx fits, with eight bytes to spare at most
  method UseFirst(m: Mspace, idx: int, nb: int) returns (mem: int)
    requires Valid(m) && 2 <= nb / 8 <= idx <= nb / 8 + 1 && nb % 8 == 0 && idx < 32 && Marked(m.smallmap, idx)
    modifies m`mem, m.words, m`smallmap, m`B, m`C
    ensures Valid(m) && mem > 8 && Granted(old(m.S()), m.S(), mem - 8, nb) && Newest(old(m.B), idx, mem - 8)
    ensures CutOff(old(m.S()), old(m.dv), old(m.dvsize), nb, mem - 8, m.C, m.dv, m.dvsize)
  {
    ghost var s0 := m.S();
    var p := TakeFirst(m, idx);
    ghost var s1 := m.S();
    UseWhole(m, p, 8 * idx, nb);
    NewestFree(s0, idx, p); FreeFits(s0, nb, p);
    GrantedAfter(s0, s1, m.S(), p, nb);
    return p + 8;
  }
  // a chunk of the larger bin i is cut; what is left becomes the victim
  method SplitFirst(m: Mspace, i: int, nb: int) returns (mem: int)
    requires Valid(m) && 16 <= nb && nb % 8 == 0 && nb + 16 <= 8 * i && i < 32 && Marked(m.smallmap, i)
      && m.dvsize < nb < 0x100
    modifies m`mem, m.words, m`smallmap, m`treemap, m`B, m`C, m`dv, m`dvsize
    ensures Valid(m) && mem > 8 && Granted(old(m.S()), m.S(), mem - 8, nb) && Newest(old(m.B), i, mem - 8)
    ensures CutOff(old(m.S()), old(m.dv), old(m.dvsize), nb, mem - 8, m.C, m.dv, m.dvsize)
  {
    ghost var s0 := m.S();
    var p := TakeFirst(m, i);
    ghost var s1 := m.S();
    var rsize := 8 * i - nb;
    UseFront(m, p, 8 * i, nb);
    RestToDv(m, s1, p, p + nb, rsize, nb);
    NewestFree(s0, i, p); FreeFits(s0, nb, p);
    GrantedAfter(s0, s1, m.S(), p, nb);
    return p + 8;
  }
  // the part of mspace_malloc for small requests that goes before the use of dv
  method SmallRequest(m: Mspace, nb: int) returns (mem: int)
    requires Valid(m) && 16 <= nb < 0x100 && nb % 8 == 0
    modifies m`mem, m.words, m`smallmap, m`treemap, m`B, m`C, m`dv, m`dvsize
    ensures Valid(m)
    ensures mem == 0
            ==> m.S() == old(m.S()) && m.dv == old(m.dv) && m.dvsize == old(m.dvsize)
                && Bin(m.B, nb / 8) == [] && Bin(m.B, nb / 8 + 1) == [] && (nb <= m.dvsize || NoneListedFits(m.S(), nb))
    ensures mem != 0 ==> mem > 8 && Granted(old(m.S()), m.S(), mem - 8, nb) && HasFit(old(m.S()), nb)
    ensures mem != 0 ==> Picked(old(m.S()), old(m.dv), old(m.dvsize), nb, mem - 8)
    ensures mem != 0 ==> CutOff(old(m.S()), old(m.dv), old(m.dvsize), nb, mem - 8, m.C, m.dv, m.dvsize)
  {
    hide Granted, Picked, CutOff, Tightest, HasFit, Mspace.Rep, Cover, DvOK, SoundSt, Newest;
    ghost var s0 := m.S();
    var idx := nb / 8;
    ghost var dv, dvsize := m.dv, m.dvsize;
    BinMark(s0, idx); BinMark(s0, idx + 1);
    SmallBits(m.smallmap, idx);
    var smallbits := Shr(m.smallmap, idx);
    if And(smallbits, 3) != 0 {
      idx := idx + And(Not(smallbits), 1);
      mem := UseFirst(m, idx, nb);
      FirstChoice(s0, dv, dvsize, nb, idx, mem - 8);
    } else if nb > m.dvsize {
      if smallbits != 0 {
        NextSmall(m.smallmap, idx);
        var leftbits := And(Shl(smallbits, idx), LeftBits(Pow2(idx)));
        var k := Bit2Idx(LeastBit(leftbits));
        BinMarks(s0, idx, k);
        mem := SplitFirst(m, k, nb);
        NextChoice(s0, dv, dvsize, nb, k, mem - 8);
      } else if m.treemap != 0 {
        BinMarks(s0, idx, 32);
        mem := TmallocSmall(m, nb);
        TreeChoice(s0, dv, dvsize, nb, mem - 8);
      } else {
        NothingListed(s0, idx);
        mem := 0;
      }
    } else {
      mem := 0;
    }
  }
  // ---- dv, top, and the whole ----

  method UseDv(m: Mspace, nb: int) returns (mem: int)
    requires Valid(m) && 16 <= nb <= m.dvsize && nb % 8 == 0
    modifies m`mem, m.words, m`C, m`dv, m`dvsize
    ensures Valid(m) && mem == old(m.dv) + 8 > 8 && Granted(old(m.S()), m.S(), mem - 8, nb)
    ensures CutOff(old(m.S()), old(m.dv), old(m.dvsize), nb, mem - 8, m.C, m.dv, m.dvsize)
  {
    ghost var s0 := m.S();
    DvLoose(s0, m.dv, m.dvsize);
    LooseAddr(s0, 0, 0, m.dv, nb);
    LooseSize(s0, 0, 0, m.dv); FreeFits(s0, nb, m.dv);
    var rsize := m.dvsize - nb;
    var p := m.dv;
    if rsize >= MIN_CHUNK_SIZE {
      var r := p + nb;
      m.dv := r;
      m.dvsize := rsize;
      SplitTags(m, p, nb, rsize);
      CarveLoose(s0, 0, 0, p, nb + rsize, nb, m.mem);
      m.C := Carve(m.C, p, nb);
      assert m.S() == Retagged(s0, m.mem, m.C, s0.top, s0.topsize);
      LooseDv(m.S(), r);
    } else {
      var dvs := m.dvsize;
      m.dvsize := 0;
      m.dv := 0;
      UseWhole(m, p, dvs, nb);
    }
    return p + 8;
  }
  method SplitTags(m: Mspace, p: int, nb: int, rsize: int)
    requires m.Rep() && 0 < nb && 0 < rsize && nb + rsize + 3 < W32
    requires IsAddr(p, nb + HEAD, m.base, m.base + m.capacity)
      && IsAddr(p, nb + rsize + FOOT, m.base, m.base + m.capacity) && IsAddr(p, HEAD, m.base, m.base + m.capacity)
    modifies m`mem, m.words
    ensures m.Rep() && m.mem
      == old(m.mem)[p + HEAD := nb + 3][p + nb + HEAD := rsize + 1][p + (nb + rsize) + FOOT := rsize]
  {
    ghost var mem := m.mem;
    SetSizeAndPinuseOfFreeChunk(m, p + nb, rsize);
    SetSizeAndPinuseOfInuseChunk(m, p, nb);
    StoreFirst(mem, p + HEAD, nb + 3, p + nb + HEAD, rsize + 1, p + (nb + rsize) + FOOT, rsize);
  }
  lemma StoreFirst(m: Mem, a: int, x: int, b: int, y: int, c: int, z: int)
    requires a != b && a != c
    ensures m[b := y][c := z][a := x] == m[a := x][b := y][c := z]
  {}
  method UseTop(m: Mspace, nb: int) returns (mem: int)
    requires Valid(m) && 16 <= nb < m.topsize && nb % 8 == 0
    modifies m`mem, m.words, m`C, m`top, m`topsize
    ensures Valid(m) && mem == old(m.top) + 8 > 8 && Granted(old(m.S()), m.S(), mem - 8, nb)
    ensures CutOff(old(m.S()), old(m.dv), old(m.dvsize), nb, mem - 8, m.C, m.dv, m.dvsize)
  {
    ghost var s0 := m.S();
    TopAddr(s0, nb);
    m.topsize := m.topsize - nb;
    var rsize := m.topsize;
    var p := m.top;
    var r := p + nb;
    m.top := r;
    m.Set(r, HEAD, rsize + 1);
    SetSizeAndPinuseOfInuseChunk(m, p, nb);
    TopGranted(s0, m.dv, m.dvsize, nb, m.mem);
    m.C := m.C[p := Chunk(nb, true, 0)];
    assert m.S() == Retagged(s0, m.mem, m.C, p + nb, s0.topsize - nb);
    return p + 8;
  }
  // no free chunk has nb bytes and top cannot spare them
  ghost predicate NoFit(s: St, nb: int) {
    s.topsize <= nb && forall q {:trigger s.C[q]} :: q in s.C && !s.C[q].used ==> s.C[q].size < nb
  }
  lemma FitIs(s: St, dv: int, dvsize: int, nb: int)
    requires Steady(s, dv, dvsize) && nb > 0
    ensures NoneListedFits(s, nb) && dvsize < nb && s.topsize <= nb <==> NoFit(s, nb)
    ensures nb >= 0x100 && DvTighter(s, nb, dvsize) && dvsize < nb ==> NoneListedFits(s, nb)
    ensures !DvTighter(s, nb, dvsize) ==> !NoneListedFits(s, nb)
    ensures HasFit(s, nb) ==> !NoFit(s, nb)
  {
    if NoneListedFits(s, nb) && dvsize < nb {
      forall q | q in s.C && !s.C[q].used ensures s.C[q].size < nb {
        FreeAbove(s, q); assert q == dv || Listed(s.B, q);
      }
    }
    if forall q {:trigger s.C[q]} :: q in s.C && !s.C[q].used ==> s.C[q].size < nb {
      forall q | Listed(s.B, q) && q in s.C ensures s.C[q].size < nb { ListedFacts(s, q); }
    }
  }
  method MspaceMalloc(m: Mspace, bytes: int) returns (mem: int)
    requires Valid(m) && 0 <= bytes < W32
    modifies m`mem, m.words, m`smallmap, m`treemap, m`B, m`C, m`dv, m`dvsize, m`top, m`topsize
    ensures Valid(m)
    ensures mem == 0 <==> bytes >= MAX_REQUEST || NoFit(old(m.S()), Request2Size(bytes))
    ensures mem == 0 ==> m.S() == old(m.S()) && m.dv == old(m.dv) && m.dvsize == old(m.dvsize)
    ensures mem != 0 ==> mem > 8 && Granted(old(m.S()), m.S(), mem - 8, Request2Size(bytes))
    ensures mem != 0 ==> Picked(old(m.S()), old(m.dv), old(m.dvsize), Request2Size(bytes), mem - 8)
    ensures mem != 0 ==> CutOff(old(m.S()), old(m.dv), old(m.dvsize), Request2Size(bytes), mem - 8, m.C, m.dv, m.dvsize)
  {
    hide Mspace.Rep, Granted, Cover, DvOK, NoFit, HasFit, Picked, CutOff, NoneListedFits, DvTighter, Bin;
    ghost var dv, dvsize := m.dv, m.dvsize;
    ghost var s0 := m.S();
    var nb;
    mem := 0;
    DvBound(s0, m.dv, m.dvsize);
    TopAddr(s0, 0);
    if bytes >= MAX_REQUEST {
      nb := W32 - 1;
      FreeBound(s0, m.dv, m.dvsize);
    } else {
      nb := Request2Size(bytes);
      RequestSize(bytes);
      FitIs(s0, m.dv, m.dvsize, nb);
      if bytes <= MAX_SMALL_REQUEST {
        mem := SmallRequest(m, nb);
      } else if m.treemap != 0 {
        mem := TmallocLarge(m, nb);
      } else {
        NoTrees(s0, nb, m.dvsize);
      }
    }
    if mem != 0 {
      GrantedAddr(s0, m.S(), mem - 8, nb);
      CheckMallocedChunk(m, mem, nb, s0);
    } else if nb <= m.dvsize {
      DvChoice(s0, dv, dvsize, nb);
      mem := UseDv(m, nb);
      CheckMallocedChunk(m, mem, nb, s0);
    } else if nb < m.topsize {
      TopChoice(s0, dv, dvsize, nb);
      mem := UseTop(m, nb);
      CheckTopChunk(m);
      CheckMallocedChunk(m, mem, nb, s0);
    }
  }
  lemma FreeBound(s: St, dv: int, dvsize: int)
    requires Steady(s, dv, dvsize)
    ensures dvsize < W32 - 1 && s.topsize < W32 - 1
  {
    if dvsize != 0 { FreeAbove(s, dv); }
    TopEdge(s);
  }
  lemma NoTrees(s: St, nb: int, dvsize: int)
    requires SoundSt(s) && s.treemap == 0 && nb >= 0x100
    ensures DvTighter(s, nb, dvsize)
  {
    forall q | Listed(s.B, q) && q in s.C ensures s.C[q].size < 0x100 {
      ListedFacts(s, q); BinRange(s, q); Home(s, q);
      var b := BinOf(s.C[q].size);
      if b >= 32 { BinRoot(s, b - 32); ZeroBit(b - 32); }
    }
  }
  lemma GrantedAddr(s: St, s': St, p: int, nb: int)
    requires SoundSt(s') && Granted(s, s', p, nb)
    ensures p > 0
  {
    assert ChunkOK(s'.C, p, s'.base, s'.top) && Sep(s'.C, s'.base, p);
  }
}
