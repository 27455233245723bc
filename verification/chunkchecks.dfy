/** The checks of single chunks, do_check_inuse_chunk and its siblings (kernel/malloc.c:2461-2540), called where a debug
    build of malloc calls them. */
module ChunkChecks {
  import opened Words
  import opened Chunks
  import opened Bits
  import opened Tries
  import opened Bins
  import opened TreeCuts
  import opened Mspaces
  import opened Retagging
  import opened BinAccess
  import opened Heap
  import SmallBinMacros
  import TreeUnlinkMacro

  // ---- top ----

  lemma TopAddr(s: St, nb: int)
    requires SoundSt(s) && 0 <= nb < s.topsize && nb % 8 == 0
    ensures IsAddr(s.top, nb + HEAD, s.base, s.end) && IsAddr(s.top, HEAD, s.base, s.end) && s.top > 0 && s.top % 8 == 0
    ensures s.topsize + 1 < W32 && s.top + s.topsize < W32
  {
    TopEdge(s);
    FourOver(nb);
    Multiple(s.top, nb + 4); Multiple(s.top, 4);
  }
  lemma FourOver(nb: int) requires nb % 8 == 0 ensures (nb + 4) % 4 == 0 {}
  lemma TopSize(t: int)
    requires t % 8 == 0
    ensures ChunkSize(t + 1) == t
  {
    HeadBits(t, 0, 1);
  }
  lemma TopHead(t: int)
    requires t % 8 == 0
    ensures !Cinuse(t + 1) && Pinuse(t + 1)
  {
    HeadBits(t, 0, 1);
  }

  // ---- one chunk ----

  // q is where the chunk p ends: a chunk or top
  lemma NextOf(s: St, p: int)
    requires SoundSt(s) && p in s.C
    ensures var n := p + s.C[p].size;
      && (n == s.top || n in s.C) && IsAddr(n, HEAD, s.base, s.end) && IsAddr(n, FOOT, s.base, s.end) && n <= s.top
        && n % 8 == 0
      && (Pinuse(Fld(s.mem, n, HEAD)) <==> s.C[p].used) && (n == s.top ==> s.C[p].used)
      && (n in s.C && !s.C[p].used ==> s.C[n].used && s.C[n].psize == s.C[p].size && Fld(s.mem, n, FOOT) == s.C[p].size)
      && (n in s.C && s.C[p].used ==> s.C[n].psize == 0)
  {
    hide ChunkSize, Pinuse, Cinuse;
    assert ChunkOK(s.C, p, s.base, s.top);
    var n := p + s.C[p].size;
    TopEdge(s); TopAddr(s, 0); TopHead(s.topsize);
    if n == s.top { assert IsAddr(n, FOOT, s.base, s.end) by { Multiple(n, 0); } } else { HeadIs(s, n); }
  }
  // do_check_inuse_chunk
  method CheckInuseChunk(m: Mspace, p: int)
    requires m.Sound() && p in m.C && m.C[p].used
  {
    ghost var s := m.S();
    HeadIs(s, p); NextOf(s, p);
    assert ChunkOK(s.C, p, s.base, s.top);
    var head := m.Get(p, HEAD);
    assert (p + 8) % 8 == 0;
    assert p >= m.base;
    assert Cinuse(head);
    assert Pinuse(m.Get(p + ChunkSize(head), HEAD));
    if !Pinuse(head) {
      var prev := p - m.Get(p, FOOT);
      HeadIs(s, prev);
      assert prev + ChunkSize(m.Get(prev, HEAD)) == p;
    }
  }
  lemma RingBack(m: Mem, r: seq<int>, k: int)
    requires Ring(m, r) && 0 <= k < |r|
    ensures Fld(m, Prv(r, k), BK) == r[k] && Fld(m, Nxt(r, k), FD) == r[k]
    ensures Fld(m, r[k], FD) == Prv(r, k) && Fld(m, r[k], BK) == Nxt(r, k) && Prv(r, k) in r && Nxt(r, k) in r
  {
    var i, j := if k > 0 then k - 1 else |r| - 1, if k + 1 < |r| then k + 1 else 0;
    assert r[i] == Prv(r, k) && r[j] == Nxt(r, k);
  }
  // the neighbours of a chunk in its list point back to it
  ghost predicate Linked2(s: St, p: int) {
    var f, b := Fld(s.mem, p, FD), Fld(s.mem, p, BK);
    && IsAddr(p, FD, s.base, s.end) && IsAddr(p, BK, s.base, s.end) && IsAddr(f, BK, s.base, s.end)
      && IsAddr(b, FD, s.base, s.end)
    && Fld(s.mem, f, BK) == p && Fld(s.mem, b, FD) == p
  }
  lemma LinksBack(s: St, p: int)
    requires SoundSt(s) && Listed(s.B, p)
    ensures p in s.C && Linked2(s, p)
  {
    ListedFacts(s, p); BinRange(s, p); Home(s, p);
    var b := BinOf(s.C[p].size);
    if b < 32 { SmallLinks(s, b, p);
      } else { var n, k := TreeUnlinkMacro.WhereIs(s, b - 32, p); NodeLinks(s, b - 32, n, k, p); }
  }
  lemma SmallLinks(s: St, i: int, p: int)
    requires SoundSt(s) && 0 <= i < 32 && p in s.B.small[i]
    ensures Linked2(s, p)
  {
    SmallBinMacros.BinAt(s, i); SmallBinMacros.RemovePre(s, p, i);
    var r, k := [SmallbinAt(s.base, i)] + s.B.small[i], Pos(s.B.small[i], p) + 1;
    RingBack(s.mem, r, k);
  }
  lemma NodeLinks(s: St, i: int, n: Tree, k: int, p: int)
    requires TreeUnlinkMacro.InNodeAt(s, i, n, k, p)
    ensures Linked2(s, p)
  {
    TreeUnlinkMacro.NodeWords(s, i, n, k, p);
    TreeUnlinkMacro.UnlinkedCase(s, i, n, k, p);
    NodePlace(s.mem, s.B.tree[i], TreebinAt(s.base, i), i, n);
    RingBack(s.mem, n.ring, k);
    assert IsAddr(p, FD, s.base, s.end) && IsAddr(p, BK, s.base, s.end);
    assert IsAddr(Prv(n.ring, k), BK, s.base, s.end) && IsAddr(Nxt(n.ring, k), FD, s.base, s.end);
  }
  // do_check_free_chunk
  method CheckFreeChunk(m: Mspace, p: int)
    requires Valid(m) && p in m.C && !m.C[p].used
  {
    ghost var s := m.S();
    HeadIs(s, p); NextOf(s, p); FreeAbove(s, p);
    assert ChunkOK(s.C, p, s.base, s.top);
    var head := m.Get(p, HEAD);
    var sz := ChunkSize(head);
    var next := p + sz;
    assert (p + 8) % 8 == 0 && p >= m.base;
    assert !Cinuse(head);
    assert !Pinuse(m.Get(next, HEAD));
    if p != m.dv && p != m.top {
      LinksBack(s, p);
      if sz >= MIN_CHUNK_SIZE {
        assert sz % 8 == 0;
        assert m.Get(next, FOOT) == sz;
        assert Pinuse(head);
        NextCinuse(s, p);
        assert next == m.top || Cinuse(m.Get(next, HEAD));
        assert m.Get(m.Get(p, FD), BK) == p;
        assert m.Get(m.Get(p, BK), FD) == p;
      } else {
        assert false;
      }
    }
  }
  lemma NextCinuse(s: St, p: int)
    requires SoundSt(s) && p in s.C && !s.C[p].used
    ensures var n := p + s.C[p].size; n in s.C && Cinuse(Fld(s.mem, n, HEAD))
  {
    assert ChunkOK(s.C, p, s.base, s.top);
    HeadIs(s, p + s.C[p].size);
  }
  lemma EightsTogether(a: int, b: int) requires a % 8 == 0 && b % 8 == 0 ensures (a + b) % 8 == 0 {}
  lemma FootFree() ensures !Pinuse(TOP_FOOT_SIZE) {}
  // do_check_top_chunk
  method CheckTopChunk(m: Mspace)
    requires Valid(m)
  {
    hide Mspace.Rep, ChunkSize, Pinuse, Cinuse, Cover, DvOK;
    ghost var s := m.S();
    TopEdge(s); TopAddr(s, 0); TopHead(s.topsize); TopSize(s.topsize);
    EightsTogether(s.top, s.topsize); Multiple(s.top + s.topsize, 4); FootFree();
    var p := m.top;
    var head := m.Get(p, HEAD);
    var sz := ChunkSize(head);
    assert m.base <= p < m.base + m.capacity;
    assert (p + 8) % 8 == 0;
    assert sz == m.topsize;
    assert sz > 0;
    assert sz == m.base + m.capacity - p - TOP_FOOT_SIZE;
    assert Pinuse(head);
    assert !Pinuse(m.Get(p + sz, HEAD));
  }
  // do_check_malloced_chunk, at the point the chunk is handed out
  method CheckMallocedChunk(m: Mspace, mem: int, nb: int, ghost s0: St)
    requires m.Sound() && (mem != 0 ==> Granted(s0, m.S(), mem - 8, nb))
  {
    if mem != 0 {
      var p := mem - 8;
      HeadIs(m.S(), p);
      assert ChunkOK(m.C, p, m.base, m.top);
      var sz := ChunkSize(m.Get(p, HEAD));
      CheckInuseChunk(m, p);
      assert sz % 8 == 0;
      assert sz >= MIN_CHUNK_SIZE;
      assert sz >= nb;
      assert sz < nb + MIN_CHUNK_SIZE;
    }
  }
}
