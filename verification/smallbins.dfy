/** The small-bin macros of kernel/malloc.c (2806-2861). */
module SmallBinMacros {
  import opened Words
  import opened Chunks
  import opened Bits
  import opened Bins
  import opened SmallOps
  import opened Mspaces

  // P comes between the header B and the chunk F before it
  method Link(m: Mspace, b: int, f: int, p: int)
    requires m.Rep() && IsAddr(b, FD, m.base, m.base + m.capacity) && IsAddr(f, BK, m.base, m.base + m.capacity)
    requires IsAddr(p, FD, m.base, m.base + m.capacity) && IsAddr(p, BK, m.base, m.base + m.capacity)
    requires 0 <= b < W32 && 0 <= f < W32 && 0 <= p < W32
    modifies m`mem, m.words
    ensures m.Rep() && m.mem == Linked(old(m.mem), b, f, p)
  {
    m.Set(b, FD, p);
    m.Set(f, BK, p);
    m.Set(p, FD, f);
    m.Set(p, BK, b);
  }
  // the neighbours B and F of the removed chunk are linked
  method Unlink(m: Mspace, f: int, b: int)
    requires m.Rep() && IsAddr(f, BK, m.base, m.base + m.capacity) && IsAddr(b, FD, m.base, m.base + m.capacity)
    requires 0 <= b < W32 && 0 <= f < W32
    modifies m`mem, m.words
    ensures m.Rep() && m.mem == Unlinked(old(m.mem), f, b)
  {
    m.Set(f, BK, b);
    m.Set(b, FD, f);
  }

  ghost function WithSmall(s: St, mem: Mem, bits: int, i: int, l: seq<int>): St
    requires 0 <= i < |s.B.small|
  {
    s.(mem := mem, smallmap := bits, B := s.B.(small := s.B.small[i := l]))
  }
  // the new state of bin i is a new state of everything
  lemma SmallSound(s: St, mem: Mem, bits: int, i: int, l: seq<int>)
    requires SoundSt(s) && 0 <= i < 32 && OnlyBin(s.mem, mem, s.C, s.base, i)
    requires SmallBin(mem, s.C, s.base, bits, l, i) && bits < W32 && AgreeBut(s.smallmap, bits, i)
    ensures SoundSt(WithSmall(s, mem, bits, i, l)) && SamePayload(s.mem, mem, s.C, s.base)
  {
    OnlyBinKeeps(s.mem, mem, s.C, s.base, s.top, s.topsize, i);
    OneSmallBin(s.mem, mem, s.C, s.base, s.top, s.smallmap, s.treemap, bits, s.B, i, l);
  }
  lemma BinAt(s: St, i: int)
    requires SoundSt(s) && 0 <= i < 32
    ensures SmallBin(s.mem, s.C, s.base, s.smallmap, s.B.small[i], i)
  {
    assert SmallAt(s.mem, s.C, s.base, s.smallmap, s.B.small, i);
  }
  lemma InsertPre(s: St, p: int, i: int)
    requires SoundSt(s) && Free(s.C, p, 8 * i) && i < 32
    ensures 2 <= i && IsAddr(p, FD, s.base, s.end) && IsAddr(p, BK, s.base, s.end) && 0 <= p < W32
    ensures IsAddr(SmallbinAt(s.base, i), FD, s.base, s.end) && IsAddr(SmallbinAt(s.base, i), BK, s.base, s.end)
    ensures 0 <= SmallbinAt(s.base, i) < W32 && 0 <= s.smallmap
    ensures var l := s.B.small[i];
      && (Marked(s.smallmap, i) <==> l != [])
      && (l != []
          ==> Fld(s.mem, SmallbinAt(s.base, i), FD) == l[|l|-1] >= s.base && IsAddr(l[|l|-1], BK, s.base, s.end))
  {
    assert ChunkOK(s.C, p, s.base, s.top);
    BinAt(s, i);
    HeaderAddr(s, i); ChunkAddr(s, p, FD); ChunkAddr(s, p, BK);
    var l := s.B.small[i];
    if l != [] {
      var r := [SmallbinAt(s.base, i)] + l;
      assert r[0] == SmallbinAt(s.base, i) && r[|r|-1] == l[|l|-1] && l[|l|-1] in l;
      SmallMember(s.C, s.base, s.top, l[|l|-1], i);
      ChunkAddr(s, l[|l|-1], BK);
    }
  }
  lemma InsertPost(s: St, p: int, i: int, mem: Mem)
    requires SoundSt(s) && Free(s.C, p, 8 * i) && 0 <= i < 32 && p !in s.B.small[i]
    requires mem == Linked(s.mem, SmallbinAt(s.base, i), LastOr(s.B.small[i], SmallbinAt(s.base, i)), p)
    ensures var s' := WithSmall(s, mem, Mark(s.smallmap, i), i, s.B.small[i] + [p]);
      SoundSt(s') && SamePayload(s.mem, mem, s.C, s.base)
    ensures Marked(s.smallmap, i) ==> Mark(s.smallmap, i) == s.smallmap
  {
    BinAt(s, i);
    MarkAgrees(s.smallmap, i);
    SmallInsert(s.mem, s.C, s.base, s.top, s.smallmap, s.B.small[i], i, p);
    SmallSound(s, mem, Mark(s.smallmap, i), i, s.B.small[i] + [p]);
  }
  method InsertSmallChunk(m: Mspace, p: int, s: int)
    requires m.Sound() && Free(m.C, p, s) && 0 <= s / 8 < 32 && s % 8 == 0 && p !in m.B.small[s / 8]
    modifies m`mem, m.words, m`smallmap, m`B
    ensures m.Sound() && SamePayload(old(m.mem), m.mem, m.C, m.base)
    ensures m.B == old(m.B).(small := old(m.B.small)[s / 8 := old(m.B.small[s / 8]) + [p]])
  {
    var i := s / 8;
    var b := SmallbinAt(m.base, i);
    var f := b;
    ghost var s0 := m.S();
    InsertPre(s0, p, i);
    assert s >= 16;
    if !Marked(m.smallmap, i) {
      m.smallmap := Mark(m.smallmap, i);
    } else if m.Get(b, FD) >= m.base {
      f := m.Get(b, FD);
    } else {
      assert false;
    }
    Link(m, b, f, p);
    InsertPost(s0, p, i, m.mem);
    m.B := m.B.(small := m.B.small[i := m.B.small[i] + [p]]);
    assert m.S() == WithSmall(s0, m.mem, m.smallmap, i, m.B.small[i]);
  }

  // p's neighbours in its bin: headers or chunks
  lemma RemovePre(s: St, p: int, i: int)
    requires SoundSt(s) && 0 <= i < 32 && p in s.B.small[i]
    ensures Free(s.C, p, 8 * i) && IsAddr(p, FD, s.base, s.end) && IsAddr(p, BK, s.base, s.end)
    ensures var r := [SmallbinAt(s.base, i)] + s.B.small[i]; var k := Pos(s.B.small[i], p) + 1;
      var f, b := Fld(s.mem, p, FD), Fld(s.mem, p, BK);
      && f == Prv(r, k) && b == Nxt(r, k) && p != f && p != b && (f == b <==> |s.B.small[i]| == 1)
      && s.base <= f < W32 && s.base <= b < W32 && IsAddr(f, BK, s.base, s.end) && IsAddr(b, FD, s.base, s.end)
  {
    BinAt(s, i);
    var h, l := SmallbinAt(s.base, i), s.B.small[i];
    var r, k := [h] + l, Pos(l, p) + 1;
    assert r[k] == p;
    RingPair(s.mem, r, k);
    SmallMember(s.C, s.base, s.top, p, i);
    ChunkAddr(s, p, FD); ChunkAddr(s, p, BK);
    ElemAddr(s, Prv(r, k), i); ElemAddr(s, Nxt(r, k), i);
  }
  lemma ElemAddr(s: St, x: int, i: int)
    requires SoundSt(s) && 0 <= i < 32 && x in [SmallbinAt(s.base, i)] + s.B.small[i]
    ensures s.base <= x < W32 && IsAddr(x, BK, s.base, s.end) && IsAddr(x, FD, s.base, s.end)
  {
    BinAt(s, i);
    HeaderAddr(s, i);
    if x != SmallbinAt(s.base, i) {
      assert Free(s.C, x, 8 * i);
      SmallMember(s.C, s.base, s.top, x, i);
      ChunkAddr(s, x, FD); ChunkAddr(s, x, BK);
    }
  }
  lemma RemovePost(s: St, p: int, i: int, mem: Mem, bits: int)
    requires SoundSt(s) && 0 <= i < 32 && p in s.B.small[i]
    requires if |s.B.small[i]| == 1 then mem == s.mem && bits == Clear(s.smallmap, i)
             else mem == Unlinked(s.mem, Fld(s.mem, p, FD), Fld(s.mem, p, BK)) && bits == s.smallmap
    ensures var s' := WithSmall(s, mem, bits, i, Minus(s.B.small[i], p));
            SoundSt(s') && SamePayload(s.mem, mem, s.C, s.base)
  {
    BinAt(s, i);
    RemovePre(s, p, i);
    ClearAgrees(s.smallmap, i);
    var l := s.B.small[i];
    if |l| == 1 {
      SmallEmpty(s.mem, s.C, s.base, s.smallmap, l, i);
      assert Minus(l, p) == [];
    } else {
      SmallRemove(s.mem, s.C, s.base, s.top, s.smallmap, l, i, Pos(l, p));
    }
    SmallSound(s, mem, bits, i, Minus(l, p));
  }
  method UnlinkSmallChunk(m: Mspace, p: int, s: int)
    requires m.Sound() && 0 <= s / 8 < 32 && s % 8 == 0 && p in m.B.small[s / 8]
    modifies m`mem, m.words, m`smallmap, m`B
    ensures m.Sound() && SamePayload(old(m.mem), m.mem, m.C, m.base)
    ensures m.B == old(m.B).(small := old(m.B.small)[s / 8 := Minus(old(m.B.small[s / 8]), p)])
  {
    var i := s / 8;
    ghost var s0 := m.S();
    RemovePre(s0, p, i); HeadIs(s0, p); HeaderAddr(s0, i);
    var f, b := m.Get(p, FD), m.Get(p, BK);
    assert p != b;
    assert p != f;
    assert ChunkSize(m.Get(p, HEAD)) == 8 * i;
    if f == b {
      m.smallmap := Clear(m.smallmap, i);
    } else if (f == SmallbinAt(m.base, i) || f >= m.base) && (b == SmallbinAt(m.base, i) || b >= m.base) {
      Unlink(m, f, b);
    } else {
      assert false;
    }
    RemovePost(s0, p, i, m.mem, m.smallmap);
    m.B := m.B.(small := m.B.small[i := Minus(m.B.small[i], p)]);
    assert m.S() == WithSmall(s0, m.mem, m.smallmap, i, m.B.small[i]);
  }
  // the first chunk of a bin is the header's fd
  lemma FirstPre(s: St, p: int, i: int)
    requires SoundSt(s) && 0 <= i < 32 && s.B.small[i] != []
    requires p == s.B.small[i][|s.B.small[i]|-1]
    ensures p in s.B.small[i] && Fld(s.mem, SmallbinAt(s.base, i), FD) == p
      && Fld(s.mem, p, BK) == SmallbinAt(s.base, i)
    ensures |s.B.small[i]| > 1 ==> Fld(s.mem, p, FD) >= s.base + HEADER
  {
    BinAt(s, i);
    var l := s.B.small[i];
    var r := [SmallbinAt(s.base, i)] + l;
    assert r[|r|-1] == p && r[0] == SmallbinAt(s.base, i);
    if |l| > 1 { assert r[|r|-2] == l[|l|-2] && l[|l|-2] in l; SmallMember(s.C, s.base, s.top, l[|l|-2], i); }
  }
  method UnlinkFirstSmallChunk(m: Mspace, b: int, p: int, i: int)
    requires m.Sound() && 0 <= i < 32 && b == SmallbinAt(m.base, i)
    requires m.B.small[i] != [] && p == m.B.small[i][|m.B.small[i]|-1]
    modifies m`mem, m.words, m`smallmap, m`B
    ensures m.Sound() && SamePayload(old(m.mem), m.mem, m.C, m.base)
    ensures m.B == old(m.B).(small := old(m.B.small)[i := Minus(old(m.B.small[i]), p)])
  {
    ghost var s0 := m.S();
    FirstPre(s0, p, i); RemovePre(s0, p, i); HeadIs(s0, p); HeaderAddr(s0, i);
    var f := m.Get(p, FD);
    assert p != b;
    assert p != f;
    assert ChunkSize(m.Get(p, HEAD)) == 8 * i;
    if b == f {
      m.smallmap := Clear(m.smallmap, i);
    } else if f >= m.base {
      m.Set(b, FD, f);
      m.Set(f, BK, b);
      StoreOrder(s0.mem, f, b);
    } else {
      assert false;
    }
    RemovePost(s0, p, i, m.mem, m.smallmap);
    m.B := m.B.(small := m.B.small[i := Minus(m.B.small[i], p)]);
    assert m.S() == WithSmall(s0, m.mem, m.smallmap, i, m.B.small[i]);
  }
  lemma StoreOrder(m: Mem, f: int, b: int)
    requires f + BK != b + FD
    ensures m[b + FD := f][f + BK := b] == Unlinked(m, f, b)
  {}
}
