/** create_mspace_with_base (kernel/malloc.c:4282-4299, 4321-4332) with init_top and init_bins (3122-3145). */
module Creation {
  import opened Words
  import opened Chunks
  import opened Bits
  import opened Tries
  import opened Bins
  import opened Mspaces
  import opened Retagging
  import opened Heap
  import opened ChunkChecks

  const PAGE_SIZE := 4096
  const TRIM_THRESHOLD := 0x20_0000

  // the heap that holds nothing: the chunk with the malloc_state, and top
  ghost predicate Pristine(m: Mspace)
    reads m
  {
    && m.C == map[m.base := Chunk(HEADER, true, 0)] && m.top == m.base + HEADER
      && m.topsize == m.capacity - HEADER - TOP_FOOT_SIZE
    && m.dv == 0 && m.dvsize == 0 && m.smallmap == 0 && m.treemap == 0
  }
  lemma {:induction false} NoMembers(b: Bins, x: int)
    requires b == Bins(seq(32, i => []), seq(32, i => Nil))
    ensures !Listed(b, x)
  {
    forall i ensures !InOne(b, i, x) {}
  }
  // what the stores of init_user_mstate leave behind
  ghost predicate Laid(m: Mem, base: int, capacity: int) {
    && Fld(m, base, HEAD) == HEADER + 3 && Fld(m, base + HEADER, HEAD) == capacity - HEADER - TOP_FOOT_SIZE + 1
    && Fld(m, base + capacity - TOP_FOOT_SIZE, HEAD) == TOP_FOOT_SIZE
    && forall i {:trigger TreebinAt(base, i)} :: 0 <= i < 32 ==> Fld(m, TreebinAt(base, i), 0) == 0
  }
  lemma LaidSteady(m: Mem, base: int, capacity: int)
    requires Laid(m, base, capacity) && 0 <= base && base % 8 == 0 && capacity % 8 == 0
      && HEADER + TOP_FOOT_SIZE < capacity && base + capacity <= W32
    ensures Steady(St(m, map[base := Chunk(HEADER, true, 0)], Bins(seq(32, i => []), seq(32, i => Nil)), base,
      base + capacity, base + HEADER, capacity - HEADER - TOP_FOOT_SIZE, 0, 0), 0, 0)
  {
    var C: Chunks := map[base := Chunk(HEADER, true, 0)];
    var b := Bins(seq(32, i => []), seq(32, i => Nil));
    var top := base + HEADER;
    forall p ensures ChunkOK(C, p, base, top) {}
    forall p ensures TagOK(m, C, p) {}
    forall i ensures SmallAt(m, C, base, 0, b.small, i) { if 0 <= i < 32 { ZeroBit(i); } }
    forall i ensures TreeAt(m, C, base, 0, b.tree, i) { if 0 <= i < 32 { ZeroBit(i); } }
    forall q ensures !Listed(b, q) { NoMembers(b, q); }
  }
  ghost predicate ZeroAt(m: Mem, base: int, k: int) { Fld(m, base + 8 + 4 * k, 0) == 0 }
  // the words of the malloc_state are cleared
  method Memset(m: Mspace)
    requires m.Rep() && m.capacity > HEADER + TOP_FOOT_SIZE
    modifies m`mem, m.words
    ensures m.Rep() && forall j {:trigger ZeroAt(m.mem, m.base, j)} :: 0 <= j < HEADER / 4 ==> ZeroAt(m.mem, m.base, j)
  {
    var k := 0;
    while k < HEADER / 4
      invariant 0 <= k <= HEADER / 4 && m.Rep()
      invariant forall j {:trigger ZeroAt(m.mem, m.base, j)} :: 0 <= j < k ==> ZeroAt(m.mem, m.base, j)
    {
      ghost var mem := m.mem;
      Multiple(m.base, 8 + 4 * k);
      m.Set(m.base + 8 + 4 * k, 0, 0);
      forall j | 0 <= j < k + 1 ensures ZeroAt(m.mem, m.base, j) { assert j < k ==> ZeroAt(mem, m.base, j); }
      k := k + 1;
    }
  }
  ghost predicate SelfLinked(m: Mem, base: int, i: int) {
    Fld(m, SmallbinAt(base, i), FD) == SmallbinAt(base, i) == Fld(m, SmallbinAt(base, i), BK)
  }
  method InitBins(m: Mspace)
    requires m.Rep() && m.capacity > HEADER + TOP_FOOT_SIZE
    modifies m`mem, m.words
    ensures m.Rep()
    ensures forall i {:trigger SelfLinked(m.mem, m.base, i)} :: 0 <= i < 32 ==> SelfLinked(m.mem, m.base, i)
    ensures forall a {:trigger Fld(m.mem, a, 0)} ::
              !(m.base + 52 <= a < m.base + 308) ==> Fld(m.mem, a, 0) == old(Fld(m.mem, a, 0))
  {
    var i := 0;
    while i < 32
      invariant 0 <= i <= 32 && m.Rep()
      invariant forall j {:trigger SelfLinked(m.mem, m.base, j)} :: 0 <= j < i ==> SelfLinked(m.mem, m.base, j)
      invariant forall a {:trigger Fld(m.mem, a, 0)} ::
                  !(m.base + 52 <= a < m.base + 308) ==> Fld(m.mem, a, 0) == old(Fld(m.mem, a, 0))
    {
      var bin := SmallbinAt(m.base, i);
      ghost var mem := m.mem;
      Aligned(m.base, i); Multiple(m.base, 52 + 8 * i); Multiple(m.base, 56 + 8 * i);
      m.Set(bin, BK, bin);
      m.Set(bin, FD, bin);
      forall a | !(m.base + 52 <= a < m.base + 308) ensures Fld(m.mem, a, 0) == Fld(mem, a, 0) {}
      forall j | 0 <= j < i + 1 ensures SelfLinked(m.mem, m.base, j) { assert j < i ==> SelfLinked(mem, m.base, j); }
      i := i + 1;
    }
  }
  method InitTop(m: Mspace, p: int, psize: int)
    requires m.Rep() && m.base <= p && p % 8 == 0 && psize % 8 == 0 && 0 < psize && p + psize + 8 <= m.base + m.capacity
    modifies m`mem, m.words, m`top, m`topsize, m`trimCheck
    ensures m.Rep() && m.top == p && m.topsize == psize && m.trimCheck == TRIM_THRESHOLD
    ensures m.mem == old(m.mem)[p + HEAD := psize + 1][p + psize + HEAD := TOP_FOOT_SIZE]
  {
    m.top := p;
    m.topsize := psize;
    Multiple(p, 4); Multiple(p + psize, 4);
    m.Set(p, HEAD, psize + 1);
    m.Set(p + psize, HEAD, TOP_FOOT_SIZE);
    m.trimCheck := TRIM_THRESHOLD;
  }
  method InitUserMstate(base: int, words: array<word>) returns (m: Mspace)
    requires 0 <= base && base % 8 == 0 && words.Length % 2 == 0 && HEADER + TOP_FOOT_SIZE < 4 * words.Length
      && base + 4 * words.Length <= W32
    modifies words
    ensures fresh(m) && m.words == words && m.base == base && m.capacity == 4 * words.Length
    ensures Valid(m) && Pristine(m) && m.trimCheck == TRIM_THRESHOLD
  {
    hide SoundSt, Cover, DvOK, Steady, Laid, Pristine, SelfLinked;
    m := new Mspace(base, words);
    Memset(m);
    ghost var m0 := m.mem;
    Multiple(base, 4);
    m.Set(base, HEAD, HEADER + 3);
    InitBins(m);
    TreesZero(m0, m.mem, base);
    ghost var m1 := m.mem;
    assert Fld(m.mem, base + 4, 0) == HEADER + 3;
    InitTop(m, base + HEADER, m.capacity - HEADER - TOP_FOOT_SIZE);
    TopLaid(m1, m.mem, base, m.capacity);
    NameChunks(m);
    CheckTopChunk(m);
  }
  // the chunks and bins of the new heap
  ghost method NameChunks(m: Mspace)
    requires m.Rep() && m.capacity % 8 == 0 && HEADER + TOP_FOOT_SIZE < m.capacity
      && Laid(m.mem, m.base, m.capacity)
    requires m.dv == 0 && m.dvsize == 0 && m.smallmap == 0 && m.treemap == 0 && m.top == m.base + HEADER
      && m.topsize == m.capacity - HEADER - TOP_FOOT_SIZE
    modifies m`C, m`B
    ensures Valid(m) && Pristine(m)
  {
    hide SoundSt, Cover, DvOK, Steady, Laid;
    LaidSteady(m.mem, m.base, m.capacity);
    m.C, m.B := map[m.base := Chunk(HEADER, true, 0)], Bins(seq(32, i => []), seq(32, i => Nil));
  }
  lemma TopLaid(m1: Mem, m: Mem, base: int, capacity: int)
    requires HEADER + TOP_FOOT_SIZE < capacity && Fld(m1, base + 4, 0) == HEADER + 3
    requires forall i {:trigger TreebinAt(base, i)} :: 0 <= i < 32 ==> Fld(m1, TreebinAt(base, i), 0) == 0
    requires var p, s := base + HEADER, capacity - HEADER - TOP_FOOT_SIZE;
      m == m1[p + HEAD := s + 1][p + s + HEAD := TOP_FOOT_SIZE]
    ensures Laid(m, base, capacity)
  {}
  lemma TreesZero(m0: Mem, m1: Mem, base: int)
    requires forall j {:trigger ZeroAt(m0, base, j)} :: 0 <= j < HEADER / 4 ==> ZeroAt(m0, base, j)
    requires forall a {:trigger Fld(m1, a, 0)} ::
               !(base + 52 <= a < base + 308) && a != base + HEAD ==> Fld(m1, a, 0) == Fld(m0, a, 0)
    ensures forall i {:trigger TreebinAt(base, i)} :: 0 <= i < 32 ==> Fld(m1, TreebinAt(base, i), 0) == 0
  {
    forall i | 0 <= i < 32 ensures Fld(m1, TreebinAt(base, i), 0) == 0 { assert ZeroAt(m0, base, 75 + i); }
  }
  method CreateMspaceWithBase(base: int, words: array<word>) returns (m: Mspace?)
    requires 0 <= base && base % 8 == 0 && words.Length % 2 == 0 && base + 4 * words.Length <= W32
    modifies words
    ensures m != null <==> HEADER + TOP_FOOT_SIZE < 4 * words.Length < W32 - (HEADER + TOP_FOOT_SIZE + PAGE_SIZE)
    ensures m == null ==> words[..] == old(words[..])
    ensures m != null
            ==> fresh(m) && m.words == words && m.base == base && m.capacity == 4 * words.Length && Valid(m)
                && Pristine(m) && m.trimCheck == TRIM_THRESHOLD
  {
    m := null;
    if 4 * words.Length > HEADER + TOP_FOOT_SIZE && 4 * words.Length < W32 - (HEADER + TOP_FOOT_SIZE + PAGE_SIZE) {
      m := InitUserMstate(base, words);
    }
  }

  // When no block is in use, the heap is as it was created.
  lemma AllFreed(s: St, dv: int, dvsize: int)
    requires Steady(s, dv, dvsize) && forall q {:trigger s.C[q]} :: q in s.C && q != s.base ==> !s.C[q].used
    ensures s.C == map[s.base := Chunk(HEADER, true, 0)] && s.top == s.base + HEADER
      && s.topsize == s.end - s.base - HEADER - TOP_FOOT_SIZE
    ensures dv == 0 && dvsize == 0 && s.smallmap == 0 && s.treemap == 0
  {
    forall q ensures q in s.C ==> q == s.base { assert ChunkOK(s.C, q, s.base, s.top) && Sep(s.C, s.base, q); }
    assert ChunkOK(s.C, s.base, s.base, s.top);
    BinsEmpty(s);
    Pow32();
    NoBits(s.smallmap, 32); NoBits(s.treemap, 32);
  }
  lemma BinsEmpty(s: St)
    requires SoundSt(s) && forall q :: q in s.C ==> s.C[q].used
    ensures forall i: nat :: i < 32 ==> !Marked(s.smallmap, i) && !Marked(s.treemap, i)
  {
    forall i: nat | i < 32 ensures !Marked(s.smallmap, i) && !Marked(s.treemap, i) {
      assert SmallAt(s.mem, s.C, s.base, s.smallmap, s.B.small, i)
        && TreeAt(s.mem, s.C, s.base, s.treemap, s.B.tree, i);
      assert s.B.small[i] != [] ==> Free(s.C, s.B.small[i][0], 8 * i);
      NoNode(s, s.B.tree[i], i);
    }
  }
  lemma NoNode(s: St, t: Tree, i: int)
    requires TreeBin(s.mem, s.C, s.base, s.treemap, t, i) && forall q :: q in s.C ==> s.C[q].used
    ensures t.Nil?
  {
    assert t.Node? ==> |t.ring| > 0 && Free(s.C, t.ring[0], t.size);
  }
}
