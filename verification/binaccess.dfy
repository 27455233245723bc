/** insert_chunk, unlink_chunk and replace_dv (kernel/malloc.c:2865-2874, 3018-3026), in terms of what is listed in the
    bins. */
module BinAccess {
  import opened Words
  import opened Chunks
  import opened Bits
  import opened TreeIndexing
  import opened Tries
  import opened Bins
  import opened Mspaces
  import SmallBinMacros
  import TreeInsertMacro
  import TreeUnlinkMacro

  // the listed chunks are those listed before, with or without p
  ghost predicate ListedPlus(B: Bins, B': Bins, p: int) {
    forall q {:trigger Listed(B', q)} {:trigger Listed(B, q)} :: Listed(B', q) <==> Listed(B, q) || q == p
  }
  ghost predicate ListedMinus(B: Bins, B': Bins, p: int) {
    forall q {:trigger Listed(B', q)} {:trigger Listed(B, q)} :: Listed(B', q) <==> Listed(B, q) && q != p
  }

  lemma BinRange(s: St, p: int)
    requires SoundSt(s) && p in s.C && !s.C[p].used
    ensures var sz := s.C[p].size; sz % 8 == 0 && 16 <= sz < W32 && p > 0
    ensures var sz := s.C[p].size; if sz < 0x100 then 0 <= sz / 8 < 32 && 8 * (sz / 8) == sz && BinOf(sz) == sz / 8
            else 0 <= TreeIndex(sz) < 32 && BinOf(sz) == 32 + TreeIndex(sz)
  {
    assert ChunkOK(s.C, p, s.base, s.top) && Sep(s.C, s.base, p);
    if s.C[p].size >= 0x100 { TreeIndexOK(s.C[p].size); }
  }
  // a listed chunk is in the bin of its size and in no other
  lemma Home(s: St, p: int)
    requires SoundSt(s) && p in s.C && !s.C[p].used
    ensures forall b {:trigger InOne(s.B, b, p)} :: InOne(s.B, b, p) ==> b == BinOf(s.C[p].size)
    ensures Listed(s.B, p) <==> InOne(s.B, BinOf(s.C[p].size), p)
  {
    assert ChunkOK(s.C, s.base, s.base, s.top);
    forall b | InOne(s.B, b, p) ensures b == BinOf(s.C[p].size) {
      ListedIs(s.mem, s.C, s.base, s.top, s.smallmap, s.treemap, s.B, b, p);
    }
  }
  // one bin changes, by p
  ghost predicate BinPlus(B: Bins, B': Bins, c: int, p: int) {
    forall b, q {:trigger InOne(B', b, q)} {:trigger InOne(B, b, q)} ::
      InOne(B', b, q) <==> InOne(B, b, q) || (b == c && q == p)
  }
  ghost predicate BinMinus(B: Bins, B': Bins, c: int, p: int) {
    forall b, q {:trigger InOne(B', b, q)} {:trigger InOne(B, b, q)} ::
      InOne(B', b, q) <==> InOne(B, b, q) && !(b == c && q == p)
  }
  lemma PlusListed(B: Bins, B': Bins, c: int, p: int)
    requires BinPlus(B, B', c, p)
    ensures ListedPlus(B, B', p)
  {
    assert InOne(B', c, p);
    forall q ensures Listed(B', q) <==> Listed(B, q) || q == p {
      if Listed(B', q) { var b :| InOne(B', b, q); assert InOne(B, b, q) || q == p; }
      if Listed(B, q) { var b :| InOne(B, b, q); assert InOne(B', b, q); }
    }
  }
  lemma MinusListed(s: St, B': Bins, p: int)
    requires SoundSt(s) && p in s.C && !s.C[p].used && BinMinus(s.B, B', BinOf(s.C[p].size), p)
    ensures ListedMinus(s.B, B', p)
  {
    Home(s, p);
    forall q ensures Listed(B', q) <==> Listed(s.B, q) && q != p {
      if Listed(B', q) { var b :| InOne(B', b, q); assert InOne(s.B, b, q); }
      if Listed(s.B, q) && q != p { var b :| InOne(s.B, b, q); assert InOne(B', b, q); }
    }
  }
  lemma SmallPlus(B: Bins, i: int, p: int)
    requires |B.small| == 32 && 0 <= i < 32
    ensures BinPlus(B, B.(small := B.small[i := B.small[i] + [p]]), i, p)
  {}
  lemma SmallMinus(B: Bins, i: int, p: int)
    requires |B.small| == 32 && 0 <= i < 32 && p in B.small[i] && Distinct(B.small[i])
    ensures BinMinus(B, B.(small := B.small[i := Minus(B.small[i], p)]), i, p)
  {
    MinusIs(B.small[i], p);
  }
  lemma TreePlus(B: Bins, i: int, p: int, t: Tree)
    requires |B.tree| == 32 && 0 <= i < 32 && forall y :: y in Members(t) <==> y in Members(B.tree[i]) || y == p
    ensures BinPlus(B, B.(tree := B.tree[i := t]), 32 + i, p)
  {}
  lemma TreeMinus(B: Bins, i: int, p: int, t: Tree)
    requires |B.tree| == 32 && 0 <= i < 32 && forall y :: y in Members(t) <==> y in Members(B.tree[i]) && y != p
    ensures BinMinus(B, B.(tree := B.tree[i := t]), 32 + i, p)
  {}
  lemma SmallDistinct(s: St, i: int)
    requires SoundSt(s) && 0 <= i < 32
    ensures Distinct(s.B.small[i])
  {
    SmallBinMacros.BinAt(s, i);
    var r := [SmallbinAt(s.base, i)] + s.B.small[i];
    assert forall k :: 0 <= k < |s.B.small[i]| ==> s.B.small[i][k] == r[k + 1];
  }
  predicate IsSmall(s: int) { s / 8 < 32 }

  method InsertChunk(m: Mspace, p: int, s: int)
    requires m.Sound() && Free(m.C, p, s) && !Listed(m.B, p)
    modifies m`mem, m.words, m`smallmap, m`treemap, m`B
    ensures m.Sound() && SamePayload(old(m.mem), m.mem, m.C, m.base)
    ensures ListedPlus(old(m.B), m.B, p)
  {
    ghost var s0 := m.S();
    BinRange(s0, p); Home(s0, p);
    if IsSmall(s) {
      SmallBinMacros.InsertSmallChunk(m, p, s);
      SmallPlus(s0.B, s / 8, p);
      PlusListed(s0.B, m.B, s / 8, p);
    } else {
      TreeInsertMacro.InsertLargeChunk(m, p, s);
      ghost var i := TreeIndex(s);
      InsMembers(s0.B.tree[i], Lo(i), Span(i), s, p);
      TreePlus(s0.B, i, p, m.B.tree[i]);
      PlusListed(s0.B, m.B, 32 + i, p);
    }
  }
  method UnlinkSmall(m: Mspace, p: int, s: int)
    requires m.Sound() && Free(m.C, p, s) && Listed(m.B, p) && IsSmall(s)
    modifies m`mem, m.words, m`smallmap, m`B
    ensures m.Sound() && SamePayload(old(m.mem), m.mem, m.C, m.base)
    ensures ListedMinus(old(m.B), m.B, p)
  {
    ghost var s0 := m.S();
    BinRange(s0, p); Home(s0, p);
    SmallDistinct(s0, s / 8);
    SmallBinMacros.UnlinkSmallChunk(m, p, s);
    SmallMinus(s0.B, s / 8, p);
    MinusListed(s0, m.B, p);
  }
  method UnlinkFirst(m: Mspace, b: int, p: int, i: int)
    requires m.Sound() && 0 <= i < 32 && b == SmallbinAt(m.base, i) && m.B.small[i] != []
      && p == m.B.small[i][|m.B.small[i]|-1]
    modifies m`mem, m.words, m`smallmap, m`B
    ensures m.Sound() && SamePayload(old(m.mem), m.mem, m.C, m.base)
    ensures ListedMinus(old(m.B), m.B, p)
  {
    ghost var s0 := m.S();
    FirstFree(s0, i, p);
    SmallDistinct(s0, i);
    BinRange(s0, p);
    SmallBinMacros.UnlinkFirstSmallChunk(m, b, p, i);
    SmallMinus(s0.B, i, p);
    MinusListed(s0, m.B, p);
  }
  // the newest chunk of a small bin is a free chunk of the bin's size
  lemma FirstFree(s: St, i: int, p: int)
    requires SoundSt(s) && 0 <= i < 32 && s.B.small[i] != [] && p == s.B.small[i][|s.B.small[i]|-1]
    ensures Free(s.C, p, 8 * i) && Listed(s.B, p) && i >= 2 && BinOf(8 * i) == i
    ensures Fld(s.mem, SmallbinAt(s.base, i), FD) == p && IsAddr(SmallbinAt(s.base, i), FD, s.base, s.end)
  {
    SmallBinMacros.FirstPre(s, p, i); SmallBinMacros.RemovePre(s, p, i);
    HeaderAddr(s, i);
    assert InOne(s.B, i, p);
    assert ChunkOK(s.C, p, s.base, s.top);
  }
  method UnlinkLarge(m: Mspace, p: int, s: int)
    requires m.Sound() && Free(m.C, p, s) && Listed(m.B, p) && !IsSmall(s)
    modifies m`mem, m.words, m`treemap, m`B
    ensures m.Sound() && SamePayload(old(m.mem), m.mem, m.C, m.base)
    ensures ListedMinus(old(m.B), m.B, p)
  {
    ghost var s0 := m.S();
    BinRange(s0, p); Home(s0, p);
    ghost var i := TreeIndex(s);
    TreeUnlinkMacro.UnlinkLargeChunk(m, p, i);
    TreeMinus(s0.B, i, p, m.B.tree[i]);
    assert m.B == s0.B.(tree := s0.B.tree[i := m.B.tree[i]]);
    MinusListed(s0, m.B, p);
  }
  method UnlinkChunk(m: Mspace, p: int, s: int)
    requires m.Sound() && Free(m.C, p, s) && Listed(m.B, p)
    modifies m`mem, m.words, m`smallmap, m`treemap, m`B
    ensures m.Sound() && SamePayload(old(m.mem), m.mem, m.C, m.base)
    ensures ListedMinus(old(m.B), m.B, p)
  {
    if IsSmall(s) {
      UnlinkSmall(m, p, s);
    } else {
      UnlinkLarge(m, p, s);
    }
  }
  method ReplaceDv(m: Mspace, p: int, s: int)
    requires m.Sound() && m.dvsize < 0x100 && (m.dvsize != 0 ==> Free(m.C, m.dv, m.dvsize) && !Listed(m.B, m.dv))
    modifies m`mem, m.words, m`smallmap, m`treemap, m`B, m`dv, m`dvsize
    ensures m.Sound() && SamePayload(old(m.mem), m.mem, m.C, m.base)
    ensures if old(m.dvsize) == 0 then m.B == old(m.B) else ListedPlus(old(m.B), m.B, old(m.dv))
    ensures m.dv == p && m.dvsize == s
  {
    var dvs := m.dvsize;
    if dvs != 0 {
      var dv := m.dv;
      ghost var s0 := m.S();
      BinRange(s0, dv); Home(s0, dv);
      assert IsSmall(dvs);
      SmallBinMacros.InsertSmallChunk(m, dv, dvs);
      SmallPlus(s0.B, dvs / 8, dv);
      PlusListed(s0.B, m.B, dvs / 8, dv);
    }
    m.dvsize := s;
    m.dv := p;
  }
}
