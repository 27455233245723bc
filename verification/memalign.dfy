/** internal_memalign (kernel/malloc.c:3733-3812). */
module Memalign {
  import opened Words
  import opened Chunks
  import opened Bits
  import opened Mspaces
  import opened Retagging
  import opened Heap
  import opened Choices
  import opened ChunkChecks
  import opened Malloc
  import opened Freeing
  import opened Realloc
  import opened Carving

  // ---- the alignment ----

  // 16, doubled n times in 32 bits
  function Doubled(n: nat): nat { if n == 0 then 16 else 2 * Doubled(n - 1) % W32 }
  lemma {:induction false} DoubledIs(n: nat)
    ensures Doubled(n) == if n < 28 then Pow2(n + 4) else 0
  {
    hide Pow2;
    Pow4();
    if n > 0 {
      DoubledIs(n - 1);
      PowNext(n + 3);
      if n + 4 < 31 { PowMono(n + 4, 31); }
      if n < 28 { WrapSmall(Pow2(n + 4)); }
    }
  }
  lemma PowNext(n: nat) ensures Pow2(n + 1) == 2 * Pow2(n) {}
  lemma Pow4()
    ensures Pow2(4) == 16 && Pow2(31) == 0x8000_0000
  {
    Pow32();
  }
  // The loop that rounds the alignment up ends exactly when there is a 32-bit power of two to round it to.
  lemma DoublingEnds(alignment: nat)
    ensures (exists n: nat :: Doubled(n) >= alignment) <==> alignment <= 0x8000_0000
  {
    Pow32();
    assert Pow2(31) == 0x8000_0000;
    DoubledIs(27);
    if exists n: nat :: Doubled(n) >= alignment {
      var n: nat :| Doubled(n) >= alignment;
      DoubledIs(n);
      if n + 4 < 31 { PowMono(n + 4, 31); }
    }
  }
  // An alignment above 2^31 that is no power of two makes the loop run for ever.
  lemma DoublingForever(alignment: nat)
    requires 0x8000_0000 < alignment < W32
    ensures !PowerOfTwo(alignment) && forall n: nat :: Doubled(n) < alignment
  {
    DoublingEnds(alignment);
    Pow32();
    if PowerOfTwo(alignment) {
      var k := PowerLog(alignment);
      if k < 31 { PowMono(k, 31); } else if k > 32 { PowMono(32, k); }
    }
  }
  // An alignment that is no power of two is rounded up by doubling 16 until it is reached.
  method RoundUp(alignment: int) returns (r: int)
    requires 16 <= alignment <= 0x8000_0000
    ensures alignment <= r <= 0x8000_0000 && PowerOfTwo(r) && r < 2 * alignment && r % 8 == 0
    ensures PowerOfTwo(alignment) ==> r == alignment
  {
    r := alignment;
    if And(alignment, alignment - 1) != 0 {
      var a := 16;
      ghost var k: nat := 4;
      assert Pow2(4) == 16;
      Pow32();
      while a < alignment
        invariant a == Pow2(k) && 4 <= k <= 31 && a < 2 * alignment
        decreases 32 - k
      {
        assert Pow2(31) == 0x8000_0000;
        assert k < 31;
        k := k + 1;
        if k < 31 { PowMono(k, 31); }
        a := 2 * a % W32;
      }
      PowerIs(k);
      if k < 31 { PowMono(k, 31); }
      r := a;
    }
    EightDivides(r);
  }
  lemma EightMultiple(a: nat, c: nat) requires a == 8 * c ensures a % 8 == 0 {}
  lemma EightDivides(a: nat)
    requires PowerOfTwo(a) && a >= 16
    ensures a % 8 == 0
  {
    hide Pow2;
    var k := PowerLog(a);
    Pow4();
    if k < 4 { PowMono(k, 4); }
    PowNext(k - 1); PowNext(k - 2); PowNext(k - 3);
    EightMultiple(a, Pow2(k - 3));
  }

  // ---- the aligned spot ----

  // the first multiple of the alignment from mem up
  function NextAligned(mem: nat, alignment: nat): nat
    requires 0 < alignment <= W32
  {
    And(mem + alignment - 1, W32 - alignment)
  }
  lemma AlignedSpot(mem: nat, alignment: nat)
    requires PowerOfTwo(alignment) && 16 <= alignment <= 0x8000_0000 && mem + alignment <= W32 && mem % 8 == 0
      && mem % alignment != 0
    ensures var a := NextAligned(mem, alignment);
            mem + 8 <= a < mem + alignment && a % alignment == 0 && a % 8 == 0 && (a + alignment) % alignment == 0
  {
    var k := PowerLog(alignment);
    Pow32();
    if k > 32 { PowMono(32, k); } else if k == 32 { assert false; }
    AndMask(mem + alignment - 1, k, 32);
    EightDivides(alignment);
    var a := NextAligned(mem, alignment);
    SpotArith(mem, alignment, a);
  }
  lemma SpotArith(mem: nat, al: nat, a: nat)
    requires al > 0 && al % 8 == 0 && mem % 8 == 0 && mem % al != 0 && a == (mem + al - 1) - (mem + al - 1) % al
    ensures mem + 8 <= a < mem + al && a % al == 0 && a % 8 == 0 && (a + al) % al == 0
  {
    var q, r := Quotient(mem + al - 1, al);
    SpotAt(mem, al, a, q, r);
  }
  lemma SpotAt(mem: nat, al: nat, a: nat, q: nat, r: nat)
    requires al > 0 && al % 8 == 0 && mem % 8 == 0 && mem % al != 0 && a + r == mem + al - 1 && r < al && a == al * q
    ensures mem + 8 <= a < mem + al && a % al == 0 && a % 8 == 0 && (a + al) % al == 0
  {
    ModZero(q, al); ModZero(q + 1, al);
    Once(q, al);
    EightTimes(q, al / 8);
    assert a != mem;
    Gap8(mem, a);
  }
  lemma Once(q: nat, al: nat) ensures (q + 1) * al == al * q + al && q * al == al * q {}
  lemma EightTimes(q: nat, c: nat)
    ensures (8 * c) * q % 8 == 0
  {
    Mul3(q, c);
    ModIs(8 * (q * c), 8, q * c, 0);
  }
  lemma ModZero(q: nat, al: nat) requires al > 0 ensures q * al % al == 0 { ModIs(q * al, al, q, 0); }
  lemma Mul3(q: nat, c: nat) ensures q * (8 * c) == 8 * (q * c) {}

  // ---- cutting the chunk ----

  // the chunk is cut in two: the back part gets its head first, then the front part
  method CutBackFirst(m: Mspace, p: int, k: int, size: int)
    requires m.Rep() && 0 < k < size && size + 3 < W32 && Pinuse(Fld(m.mem, p + size, HEAD))
    requires IsAddr(p, HEAD, m.base, m.base + m.capacity) && IsAddr(p, k + HEAD, m.base, m.base + m.capacity)
      && IsAddr(p, size + HEAD, m.base, m.base + m.capacity)
    requires (size - k) % 8 == 0
    modifies m`mem, m.words
    ensures m.Rep() && m.mem
      == old(m.mem)[p + HEAD := InuseHead(Fld(old(m.mem), p, HEAD), k)][p + k + HEAD := size - k + 3]
  {
    InMem(m, p + size + HEAD);
    ghost var mem := m.mem;
    SetInuse(m, p + k, size - k);
    ghost var h := InuseHead(Fld(mem, p + k, HEAD), size - k);
    PinuseOf(Fld(mem, p + k, HEAD), size - k);
    SetInuse(m, p, k);
    BackStores(mem, p + HEAD, InuseHead(Fld(mem, p, HEAD), k), p + k + HEAD, h, size - k + 3, p + size + HEAD);
  }
  lemma PinuseOf(g: int, s: int)
    requires s % 8 == 0
    ensures WithPinuse(InuseHead(g, s)) == s + 3
  {
    HeadBits(s, 1, 0); HeadBits(s, 1, 1);
  }
  lemma BackStores(m: Mem, a: int, x: int, b: int, g: int, y: int, c: int)
    requires a < b < c && c in m
    ensures m[b := g][c := m[c]][a := x][b := y] == m[a := x][b := y]
  {}
  // the leader is cut off
  lemma LeaderAddr(s: St, p: int, lead: int, newsize: int)
    requires SoundSt(s) && Used(s.C, p, lead + newsize) && p != s.base && 16 <= lead && lead % 8 == 0 && 16 <= newsize
    ensures p in s.C && lead + newsize + 3 < W32 && Pinuse(Fld(s.mem, p + lead + newsize, HEAD)) && newsize % 8 == 0
    ensures IsAddr(p, HEAD, s.base, s.end) && IsAddr(p, lead + HEAD, s.base, s.end)
      && IsAddr(p, lead + newsize + HEAD, s.base, s.end)
  {
    hide SoundSt, ChunkSize, Cinuse, Pinuse, IsAddr;
    var size := s.C[p].size;
    UsedWords(s, p); UsedAddr(s, p, lead);
    EightRest(lead, newsize, size);
  }
  lemma EightRest(lead: int, newsize: int, size: int)
    requires size == lead + newsize && size % 8 == 0 && lead % 8 == 0
    ensures newsize % 8 == 0
  {}
  lemma LeaderCut(s: St, dv: int, dvsize: int, p: int, lead: int, newsize: int, mem: Mem)
    requires Steady(s, dv, dvsize) && Used(s.C, p, lead + newsize) && p != s.base && 16 <= lead && lead % 8 == 0
      && 16 <= newsize
    requires mem == s.mem[p + HEAD := InuseHead(Fld(s.mem, p, HEAD), lead)][p + lead + HEAD := newsize + 3]
    ensures p + lead !in s.C && Steady(Retagged(s, mem, Cut(s.C, p, lead), s.top, s.topsize), dv, dvsize)
      && SamePayloadBut(s.mem, mem, s.C, s.base, p)
  {
    hide SoundSt, Cover, DvOK, ChunkSize, Cinuse, Pinuse, Cut, SamePayloadBut;
    UsedWords(s, p);
    CutSteady(s, dv, dvsize, p, lead, mem);
  }
  method CutLeader(m: Mspace, p: int, lead: int, newsize: int)
    requires Valid(m) && Used(m.C, p, lead + newsize) && p != m.base && 16 <= lead && lead % 8 == 0 && 16 <= newsize
    modifies m`mem, m.words, m`C
    ensures Valid(m) && p + lead !in old(m.C) && m.C == Cut(old(m.C), p, lead)
      && m.S() == old(m.S()).(mem := m.mem, C := m.C)
    ensures SamePayloadBut(old(m.mem), m.mem, old(m.C), m.base, p)
  {
    hide Mspace.Rep, SoundSt, Steady, SamePayloadBut, Cut, IsAddr, InuseHead, Pinuse, Used;
    ghost var s0 := m.S();
    SteadySound(s0, m.dv, m.dvsize);
    LeaderAddr(s0, p, lead, newsize);
    CutBackFirst(m, p, lead, lead + newsize);
    LeaderCut(s0, m.dv, m.dvsize, p, lead, newsize, m.mem);
    m.C := Cut(m.C, p, lead);
    assert m.S() == Retagged(s0, m.mem, m.C, s0.top, s0.topsize);
  }
  lemma SteadySound(s: St, dv: int, dvsize: int) requires Steady(s, dv, dvsize) ensures SoundSt(s) {}
  // what memalign asks malloc for
  function AlignRequest(nb: int, alignment: int): int { nb + alignment + MIN_CHUNK_SIZE - 4 }
  lemma AlignRoom(bytes: int, alignment: int)
    requires 0 <= bytes < MAX_REQUEST - alignment && 16 <= alignment <= 0x8000_0000 && alignment % 8 == 0
    ensures var nb := Request2Size(bytes); 16 <= nb && nb % 8 == 0 && 0 <= AlignRequest(nb, alignment) < W32
    ensures var nb := Request2Size(bytes);
            AlignRequest(nb, alignment) < MAX_REQUEST
            ==> Request2Size(AlignRequest(nb, alignment)) == nb + alignment + 16
  {
    RequestSize(bytes);
  }

  // where the aligned chunk starts: at the first aligned spot that leaves room for a leader, which is the first or the
  // second
  function Spot(mem: nat, alignment: nat): int requires 0 < alignment <= W32 {
    var brk := NextAligned(mem, alignment) - 8;
    if brk - (mem - 8) >= MIN_CHUNK_SIZE then brk else brk + alignment
  }
  lemma SpotOK(mem: nat, alignment: nat)
    requires 16 <= alignment <= 0x8000_0000 && PowerOfTwo(alignment) && mem + alignment <= W32 && mem % 8 == 0
      && mem % alignment != 0
    ensures var lead := Spot(mem, alignment) - (mem - 8);
            16 <= lead <= alignment + 8 && lead % 8 == 0 && (Spot(mem, alignment) + 8) % alignment == 0
  {
    AlignedSpot(mem, alignment); EightDivides(alignment);
    var a, spot := NextAligned(mem, alignment), Spot(mem, alignment);
    SpotLead(mem, alignment, a, spot - (mem - 8));
    assert spot + 8 == a || spot + 8 == a + alignment;
  }
  // The chunk starts at q, if the block in it is aligned, and else at the first place that is, with 16 bytes or more in
  // front.
  ghost predicate FirstAligned(q: int, alignment: int, p: int)
    requires alignment > 0
  {
    && (p + 8) % alignment == 0 && (p == q || p >= q + 16)
    && forall r {:trigger (r + 8) % alignment} :: q <= r < p && (r == q || r >= q + 16) ==> (r + 8) % alignment != 0
  }
  lemma SpotFirst(mem: nat, alignment: nat)
    requires 16 <= alignment <= 0x8000_0000 && PowerOfTwo(alignment) && mem + alignment <= W32 && mem % 8 == 0
      && mem % alignment != 0
    ensures FirstAligned(mem - 8, alignment, Spot(mem, alignment))
  {
    hide PowerOfTwo, NextAligned;
    AlignedSpot(mem, alignment); SpotOK(mem, alignment);
    var a, spot := NextAligned(mem, alignment), Spot(mem, alignment);
    forall r {:trigger (r + 8) % alignment} | mem - 8 <= r < spot && (r == mem - 8 || r >= mem + 8)
      ensures (r + 8) % alignment != 0
    {
      if r != mem - 8 { BesideMultiple(a, alignment, r + 8); }
    }
  }
  lemma BesideMultiple(a: nat, m: nat, y: nat)
    requires 0 < m && 0 < a && a % m == 0 && a - m < y < a + m && y != a
    ensures y % m != 0
  {
    var k := a / m;
    assert a == m * k;
    if y > a { Bits.ModIs(y, m, k, y - a); } else {
      Predecessor(m, k);
      Bits.ModIs(y, m, k - 1, y - (a - m));
    }
  }
  lemma Predecessor(m: nat, k: nat)
    requires 0 < m && 0 < m * k
    ensures k >= 1 && m * (k - 1) == m * k - m
  {}
  lemma SpotLead(mem: nat, al: nat, a: nat, lead: int)
    requires mem % 8 == 0 && a % 8 == 0 && al % 8 == 0 && 16 <= al && mem + 8 <= a < mem + al
    requires lead == if a - mem >= 16 then a - mem else a - mem + al
    ensures 16 <= lead <= al + 8 && lead % 8 == 0
  {
    Diff8(mem, a, al);
  }
  lemma Diff8(mem: nat, a: nat, al: nat)
    requires mem % 8 == 0 && a % 8 == 0 && al % 8 == 0
    ensures (a - mem) % 8 == 0 && (a - mem + al) % 8 == 0
  {}

  lemma SpotRoom(s: St, p: int, alignment: int)
    requires SoundSt(s) && p in s.C && s.C[p].size >= alignment + 16
    ensures (p + 8) % 8 == 0 && p + 8 + alignment <= W32
  {
    assert ChunkOK(s.C, p, s.base, s.top);
  }
  // what is in front of the aligned spot becomes the leader
  method CutFront(m: Mspace, mem: int, nb: int, alignment: int, ghost s: St) returns (p: int, leader: int)
    requires Valid(m) && Extra(s, m.S(), {mem - 8}) && mem - 8 in m.C && m.C[mem - 8].size >= nb + alignment + 16
      && mem > 8
    requires 16 <= alignment <= 0x8000_0000 && PowerOfTwo(alignment) && 16 <= nb && nb % 8 == 0
    modifies m`mem, m.words, m`C
    ensures Valid(m) && p in m.C && m.C[p].size >= nb && FirstAligned(mem - 8, alignment, p)
    ensures mem - 8 in old(m.C) && m.C[p].size == old(m.C)[mem - 8].size - (p - (mem - 8))
    ensures leader == 0 ==> p == mem - 8 && Extra(s, m.S(), {p})
    ensures leader != 0
            ==> leader == mem && p >= mem + 8 && Extra(s, m.S(), {leader - 8, p}) && mem - 8 in old(m.C)
                && m.C == Cut(old(m.C), mem - 8, p - (mem - 8))
  {
    hide Mspace.Rep, SoundSt, Cover, DvOK, PowerOfTwo, ChunkSize, Pinuse, Cinuse;
    p, leader := mem - 8, 0;
    ghost var s0 := m.S();
    assert p in {mem - 8};
    UsedWords(s0, p); UsedAddr(s0, p, 0); SpotRoom(s0, p, alignment);
    if mem % alignment != 0 {
      SpotOK(mem, alignment); SpotFirst(mem, alignment);
      var pos := Spot(mem, alignment);
      var leadsize := pos - p;
      var newsize := ChunkSize(m.Get(p, HEAD)) - leadsize;
      CutLeader(m, p, leadsize, newsize);
      ExtraCut(s, s0, m.S(), {p}, p, leadsize);
      assert {p} + {p + leadsize} == {p, pos};
      leader := p + 8;
      p := pos;
    }
  }
  // a rest of 16 bytes stays here, unlike in malloc and realloc
  function CutDown(size: int, nb: int): int { if size > nb + MIN_CHUNK_SIZE then nb else size }
  // what is not needed behind becomes the trailer, if it is worth a chunk
  method CutBack(m: Mspace, p: int, nb: int, ghost s: St, ghost ps: set<int>) returns (trailer: int)
    requires Valid(m) && p in ps && Extra(s, m.S(), ps) && p in m.C && m.C[p].size >= nb && 16 <= nb && nb % 8 == 0
    modifies m`mem, m.words, m`C
    ensures Valid(m) && p in m.C && p in old(m.C) && m.C[p].size == CutDown(old(m.C)[p].size, nb)
    ensures trailer == 0 ==> Extra(s, m.S(), ps)
    ensures trailer != 0
            ==> trailer == p + nb + 8 && trailer - 8 !in ps && Extra(s, m.S(), ps + {trailer - 8}) && p in old(m.C)
                && m.C == Cut(old(m.C), p, nb)
  {
    ghost var s0 := m.S();
    UsedWords(s0, p); UsedAddr(s0, p, 0);
    trailer := 0;
    var size := ChunkSize(m.Get(p, HEAD));
    if size > nb + MIN_CHUNK_SIZE {
      Shrink(m, p, size, nb);
      ExtraCut(s, s0, m.S(), ps, p, nb);
      trailer := p + nb + 8;
      assert p + nb in ps ==> p + nb in s0.C;
    }
  }
  // a leader or trailer, if there is one, is freed
  method GiveBack(m: Mspace, mem: int, ghost p: int, ghost s: St, ghost ps: set<int>)
    requires Valid(m) && Extra(s, m.S(), ps) && p in ps && p in m.C && (mem != 0 ==> mem - 8 in ps && mem - 8 != p)
    modifies m`mem, m.words, m`smallmap, m`treemap, m`B, m`C, m`top, m`topsize, m`dv, m`dvsize, m`trimCheck
    ensures Valid(m) && Extra(s, m.S(), if mem == 0 then ps else ps - {mem - 8})
    ensures p in m.C && m.C[p].size == old(m.C[p].size)
  {
    ghost var s0 := m.S();
    if mem != 0 {
      MspaceFree(m, mem);
      ExtraFreed(s, s0, m.S(), ps, mem - 8);
      FreedOther(s0, m.S(), mem - 8, p);
    }
  }
  // the chunk handed out starts at an aligned address and has nb bytes, and at most one minimal chunk more
  ghost predicate GrantedAligned(s: St, s': St, p: int, nb: int, alignment: int) {
    && Extra(s, s', {p}) && alignment > 0 && (p + 8) % alignment == 0 && p in s'.C
      && nb <= s'.C[p].size <= nb + MIN_CHUNK_SIZE
  }
  // what is made of a chunk q of that size
  ghost predicate AlignedIn(q: int, size: int, nb: int, alignment: int, p: int, C': Chunks) {
    alignment > 0 && FirstAligned(q, alignment, p) && p in C' && C'[p].size == CutDown(size - (p - q), nb)
  }
  // the chunk q from which the block was cut is one malloc chose for nb + alignment + 16 bytes
  ghost predicate AlignedFrom(s: St, dv: int, dvsize: int, nb: int, alignment: int, p: int, q: int, C': Chunks) {
    var req := nb + alignment + 16;
    Picked(s, dv, dvsize, req, q) && (q == s.top || q in s.C) && AlignedIn(q, NewSize(s, req, q), nb, alignment, p, C')
  }
  ghost predicate AlignedPlace(s: St, dv: int, dvsize: int, nb: int, alignment: int, p: int, C': Chunks) {
    exists q :: AlignedFrom(s, dv, dvsize, nb, alignment, p, q, C')
  }
  // the chunk of mem, nb + alignment + 16 bytes or a little more, is cut to an aligned one of nb bytes
  method AlignChunk(m: Mspace, mem: int, nb: int, alignment: int, ghost s: St) returns (r: int)
    requires Valid(m) && Extra(s, m.S(), {mem - 8}) && mem - 8 in m.C && m.C[mem - 8].size >= nb + alignment + 16
      && mem > 8
    requires 16 <= alignment <= 0x8000_0000 && PowerOfTwo(alignment) && 16 <= nb && nb % 8 == 0
    modifies m`mem, m.words, m`smallmap, m`treemap, m`B, m`C, m`top, m`topsize, m`dv, m`dvsize, m`trimCheck
    ensures Valid(m) && r > 8 && GrantedAligned(s, m.S(), r - 8, nb, alignment)
    ensures mem - 8 in old(m.C) && AlignedIn(mem - 8, old(m.C)[mem - 8].size, nb, alignment, r - 8, m.C)
  {
    hide ChunkSize, Pinuse, Cinuse, SoundSt, Cover, DvOK, Shape, PowerOfTwo;
    var p, leader := CutFront(m, mem, nb, alignment, s);
    ghost var ps := if leader == 0 then {p} else {leader - 8, p};
    var trailer := CutBack(m, p, nb, s, ps);
    ghost var ps1 := if trailer == 0 then ps else ps + {trailer - 8};
    assert p in ps1;
    ghost var s2 := m.S();
    UsedWords(s2, p); UsedAddr(s2, p, 0);
    assert ChunkSize(m.Get(p, HEAD)) >= nb;
    assert (p + 8) % alignment == 0;
    CheckInuseChunk(m, p);
    GiveBoth(m, leader, trailer, p, s, ps, ps1);
    return p + 8;
  }
  method GiveBoth(m: Mspace, leader: int, trailer: int, ghost p: int, ghost s: St,
    ghost ps: set<int>, ghost ps1: set<int>)
    requires Valid(m) && Extra(s, m.S(), ps1) && p in m.C && (leader != 0 ==> leader - 8 != p)
    requires ps == (if leader == 0 then {p} else {leader - 8, p})
      && ps1 == (if trailer == 0 then ps else ps + {trailer - 8})
    requires trailer != 0 ==> trailer - 8 !in ps
    modifies m`mem, m.words, m`smallmap, m`treemap, m`B, m`C, m`top, m`topsize, m`dv, m`dvsize, m`trimCheck
    ensures Valid(m) && Extra(s, m.S(), {p}) && p in m.C && m.C[p].size == old(m.C[p].size)
  {
    GiveBack(m, leader, p, s, ps1);
    ghost var ps2 := if leader == 0 then ps1 else ps1 - {leader - 8};
    GiveBack(m, trailer, p, s, ps2);
    assert (if trailer == 0 then ps2 else ps2 - {trailer - 8}) == {p};
  }
  // the alignment used: the least power of two from the request up, and no less than the minimal chunk
  method InternalMemalign(m: Mspace, alignment0: int, bytes: int) returns (mem: int)
    requires Valid(m) && 0 <= bytes < W32 && 0 <= alignment0 <= 0x8000_0000
    modifies m`mem, m.words, m`smallmap, m`treemap, m`B, m`C, m`top, m`topsize, m`dv, m`dvsize, m`trimCheck
    ensures Valid(m)
    ensures alignment0 > 8 ==>
      exists a :: RoundedTo(alignment0, a) && AlignOutcome(old(m.S()), old(m.dv), old(m.dvsize), m.S(), bytes, a, mem)
    ensures alignment0 <= 8 ==> (mem == 0 <==> bytes >= MAX_REQUEST || NoFit(old(m.S()), Request2Size(bytes)))
    ensures alignment0 <= 8 && mem != 0 ==> mem > 8 && Granted(old(m.S()), m.S(), mem - 8, Request2Size(bytes))
    ensures alignment0 <= 8 && mem != 0 ==>
      NewPlace(old(m.S()), old(m.dv), old(m.dvsize), Request2Size(bytes), mem - 8, m.C)
    ensures mem == 0 ==> m.S() == old(m.S()) && m.dv == old(m.dv) && m.dvsize == old(m.dvsize)
  {
    hide Mspace.Rep, Cover, DvOK, NoFit, SoundSt, Extra, Picked, AlignedIn;
    if alignment0 <= 8 {
      mem := MspaceMalloc(m, bytes);
      return;
    }
    ghost var s0, dv, dvsize := m.S(), m.dv, m.dvsize;
    var alignment := alignment0;
    if alignment < MIN_CHUNK_SIZE { alignment := MIN_CHUNK_SIZE; }
    alignment := RoundUp(alignment);
    assert RoundedTo(alignment0, alignment);
    if bytes >= MAX_REQUEST - alignment {
      assert AlignOutcome(s0, dv, dvsize, s0, bytes, alignment, 0);
      return 0;
    }
    var nb := Request2Size(bytes);
    AlignRoom(bytes, alignment);
    mem := MspaceMalloc(m, AlignRequest(nb, alignment));
    if mem != 0 {
      ExtraGranted(s0, m.S(), mem - 8, Request2Size(AlignRequest(nb, alignment)));
      ghost var q := mem - 8;
      mem := AlignChunk(m, mem, nb, alignment, s0);
      assert AlignedFrom(s0, dv, dvsize, nb, alignment, mem - 8, q, m.C);
    }
    assert AlignOutcome(s0, dv, dvsize, m.S(), bytes, alignment, mem);
  }
  ghost predicate RoundedTo(alignment: int, a: int) {
    16 <= a <= 0x8000_0000 && PowerOfTwo(a) && alignment <= a && (a == 16 || a < 2 * alignment)
  }
  ghost predicate AlignOutcome(s: St, dv: int, dvsize: int, s': St, bytes: int, a: int, mem: int) {
    0 <= bytes && 16 <= a &&
    if bytes >= MAX_REQUEST - a || AlignRequest(Request2Size(bytes), a) >= MAX_REQUEST
      || NoFit(s, Request2Size(bytes) + a + 16) then mem == 0
    else
      mem > 8 && GrantedAligned(s, s', mem - 8, Request2Size(bytes), a)
      && AlignedPlace(s, dv, dvsize, Request2Size(bytes), a, mem - 8, s'.C)
  }
}
