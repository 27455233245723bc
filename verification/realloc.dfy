/** internal_realloc (kernel/malloc.c:3662-3729) and mspace_realloc (4608-4624). */
module Realloc {
  import opened Words
  import opened Chunks
  import opened Bits
  import opened Bins
  import opened Mspaces
  import opened Retagging
  import opened Heap
  import opened Choices
  import opened ChunkChecks
  import opened Malloc
  import opened Freeing

  // the first n words of the payload of chunk p
  ghost function Block(m: Mem, p: int, n: nat): (b: seq<int>)
    ensures |b| == n && forall i :: 0 <= i < n ==> b[i] == Fld(m, p, 8 + 4 * i)
  {
    seq(n, i => Fld(m, p, 8 + 4 * i))
  }
  // chunk_usable words: all but the head, up to and including the next chunk's foot
  function UsableWords(size: int): int { size / 4 - 1 }
  function Min(a: int, b: int): int { if a < b then a else b }

  // The block in chunk p is now in chunk q (perhaps the same), of at least nb bytes, with its old words as far as both
  // reach; nothing else in use has changed.
  ghost predicate Moved(s: St, s': St, p: int, q: int, nb: int) {
    && s'.base == s.base && s'.end == s.end && p in s.C && s.C[p].used
    && q in s'.C && s'.C[q].used && nb <= s'.C[q].size < nb + 16 && q != s.base
    && (q != p ==> (q in s.C ==> !s.C[q].used) && (p in s'.C ==> !s'.C[p].used))
    && (forall x, k {:trigger Used(s.C, x, k)} {:trigger Used(s'.C, x, k)} ::
          x != p && x != q ==> (Used(s'.C, x, k) <==> Used(s.C, x, k)))
    && SamePayloadBut(s.mem, s'.mem, s.C, s.base, p)
    && (var n := UsableWords(Min(s.C[p].size, s'.C[q].size)); n >= 0 && Block(s'.mem, q, n) == Block(s.mem, p, n))
  }

  // ---- the steps, on states ----

  lemma CutSteady(s: St, dv: int, dvsize: int, p: int, k: int, mem: Mem)
    requires Steady(s, dv, dvsize) && p in s.C && s.C[p].used && p != s.base && 16 <= k && k % 8 == 0
      && k + 16 <= s.C[p].size
    requires mem == s.mem[p + HEAD := k + 2 + (if s.C[p].psize == 0 then 1 else 0)][p + k + HEAD := s.C[p].size - k + 3]
    ensures p + k !in s.C && Steady(Retagged(s, mem, Cut(s.C, p, k), s.top, s.topsize), dv, dvsize)
    ensures SamePayloadBut(s.mem, mem, s.C, s.base, p)
      && forall o :: 8 <= o < k + 4 ==> Fld(mem, p, o) == Fld(s.mem, p, o)
  {
    CutStep(s, p, k, mem);
    var C' := Cut(s.C, p, k);
    forall q ensures Listed(s.B, q) <==> q in C' && !C'[q].used && q != dv && q != 0 {
      assert Listed(s.B, q) <==> q in s.C && !s.C[q].used && q != dv && q != 0;
    }
  }
  lemma GrowSteady(s: St, dv: int, dvsize: int, p: int, k: int, mem: Mem)
    requires Steady(s, dv, dvsize) && p in s.C && s.C[p].used && p != s.base && p + s.C[p].size == s.top
    requires s.C[p].size < k < s.C[p].size + s.topsize && k % 8 == 0
    requires mem == s.mem[p + HEAD := k + 2 + (if s.C[p].psize == 0 then 1 else 0)][p + k + HEAD := s.C[p].size
      + s.topsize - k + 1]
    ensures var s' := Retagged(s, mem, s.C[p := s.C[p].(size := k)], p + k, s.C[p].size + s.topsize - k);
      Steady(s', dv, dvsize) && SamePayloadBut(s.mem, mem, s.C, s.base, p)
        && forall o :: 8 <= o < s.C[p].size + 4 ==> Fld(mem, p, o) == Fld(s.mem, p, o)
  {
    assert ChunkOK(s.C, p, s.base, s.top);
    GrowStep(s, p, k, mem);
    var C' := s.C[p := s.C[p].(size := k)];
    forall q ensures Listed(s.B, q) <==> q in C' && !C'[q].used && q != dv && q != 0 {
      assert Listed(s.B, q) <==> q in s.C && !s.C[q].used && q != dv && q != 0;
    }
  }
  lemma SameBlock(m: Mem, m': Mem, p: int, q: int, n: nat)
    requires forall i :: 0 <= i < n ==> Fld(m', q, 8 + 4 * i) == Fld(m, p, 8 + 4 * i)
    ensures Block(m', q, n) == Block(m, p, n)
  {}
  // the chunk has been cut at nb, and the rest given back
  lemma ShrunkMoved(s: St, s1: St, s2: St, p: int, nb: int)
    requires SoundSt(s) && p in s.C && s.C[p].used && p != s.base && 16 <= nb && nb % 8 == 0 && nb + 16 <= s.C[p].size
      && p + nb !in s.C
    requires s1.C == Cut(s.C, p, nb) && s1.base == s.base && s1.end == s.end
      && SamePayloadBut(s.mem, s1.mem, s.C, s.base, p)
    requires forall o :: 8 <= o < nb + 4 ==> Fld(s1.mem, p, o) == Fld(s.mem, p, o)
    requires Freed(s1, s2, p + nb)
    ensures Moved(s, s2, p, p, nb) && s2.C[p].size == nb
  {
    assert Used(s1.C, p, nb);
    forall x, k | x != p ensures Used(s2.C, x, k) <==> Used(s.C, x, k) {
      assert x != p + nb ==> (Used(s2.C, x, k) <==> Used(s1.C, x, k));
      assert x == p + nb ==> !Used(s.C, x, k) && !Used(s2.C, x, k);
    }
    forall x, o | x in s.C && s.C[x].used && x != s.base && x != p
      && 8 <= o < s.C[x].size + 4 ensures Fld(s2.mem, x, o) == Fld(s.mem, x, o) {
      assert Fld(s1.mem, x, o) == Fld(s.mem, x, o);
    }
    var n := UsableWords(nb);
    forall i | 0 <= i < n ensures Fld(s2.mem, p, 8 + 4 * i) == Fld(s.mem, p, 8 + 4 * i) {
      var o := 8 + 4 * i;
      assert Fld(s2.mem, p, o) == Fld(s1.mem, p, o) == Fld(s.mem, p, o);
    }
    SameBlock(s.mem, s2.mem, p, p, n);
  }
  lemma GrownMoved(s: St, s': St, p: int, nb: int)
    requires SoundSt(s) && p in s.C && s.C[p].used && p != s.base && s.C[p].size < nb
    requires s'.C == s.C[p := s.C[p].(size := nb)] && s'.base == s.base && s'.end == s.end
      && SamePayloadBut(s.mem, s'.mem, s.C, s.base, p)
    requires forall o :: 8 <= o < s.C[p].size + 4 ==> Fld(s'.mem, p, o) == Fld(s.mem, p, o)
    ensures Moved(s, s', p, p, nb)
  {
    assert ChunkOK(s.C, p, s.base, s.top);
    var n := UsableWords(s.C[p].size);
    forall i | 0 <= i < n ensures Fld(s'.mem, p, 8 + 4 * i) == Fld(s.mem, p, 8 + 4 * i) {
      var o := 8 + 4 * i;
      assert Fld(s'.mem, p, o) == Fld(s.mem, p, o);
    }
    SameBlock(s.mem, s'.mem, p, p, n);
  }
  lemma KeptMoved(s: St, p: int, nb: int)
    requires SoundSt(s) && p in s.C && s.C[p].used && p != s.base && nb <= s.C[p].size < nb + 16
    ensures Moved(s, s, p, p, nb)
  {
    assert ChunkOK(s.C, p, s.base, s.top);
  }

  // ---- the code ----

  // set_inuse
  function InuseHead(h: int, s: int): int { s + 2 + (if Pinuse(h) then 1 else 0) }
  method SetInuse(m: Mspace, p: int, s: int)
    requires m.Rep() && IsAddr(p, HEAD, m.base, m.base + m.capacity) && IsAddr(p, s + HEAD, m.base, m.base + m.capacity)
      && 0 < s && s + 3 < W32
    modifies m`mem, m.words
    ensures m.Rep() && m.mem
      == old(m.mem)[p + HEAD := InuseHead(Fld(old(m.mem), p, HEAD), s)][p + s + HEAD :=
      WithPinuse(Fld(old(m.mem), p + s, HEAD))]
  {
    hide Mspace.Rep;
    var h := m.Get(p, HEAD);
    m.Set(p, HEAD, InuseHead(h, s));
    var n := m.Get(p + s, HEAD);
    m.Set(p + s, HEAD, WithPinuse(n));
  }
  // the word at a is one of the region's
  lemma InMem(m: Mspace, a: int)
    requires m.Rep() && IsAddr(a, 0, m.base, m.base + m.capacity)
    ensures a in m.mem
  {
    assert m.base + 4 * ((a - m.base) / 4) == a;
  }
  // the chunk is cut in two: the front part gets its head first, then the back part
  method CutInTwo(m: Mspace, p: int, k: int, size: int)
    requires m.Rep() && 0 < k < size && size + 3 < W32 && Pinuse(Fld(m.mem, p + size, HEAD))
    requires IsAddr(p, HEAD, m.base, m.base + m.capacity) && IsAddr(p, k + HEAD, m.base, m.base + m.capacity)
      && IsAddr(p, size + HEAD, m.base, m.base + m.capacity)
    modifies m`mem, m.words
    ensures m.Rep() && m.mem
      == old(m.mem)[p + HEAD := InuseHead(Fld(old(m.mem), p, HEAD), k)][p + k + HEAD := size - k + 3]
  {
    InMem(m, p + size + HEAD);
    ghost var mem := m.mem;
    SetInuse(m, p, k);
    ghost var g := WithPinuse(Fld(mem, p + k, HEAD));
    assert Pinuse(g) by { PinuseSet(Fld(mem, p + k, HEAD)); }
    SetInuse(m, p + k, size - k);
    CutStores(mem, p + HEAD, InuseHead(Fld(mem, p, HEAD), k), p + k + HEAD, g, size - k + 3, p + size + HEAD);
  }
  lemma PinuseSet(h: int) ensures Pinuse(WithPinuse(h)) {}
  lemma CutStores(m: Mem, a: int, x: int, b: int, g: int, y: int, c: int)
    requires a < b < c && c in m
    ensures m[a := x][b := g][b := y][c := m[c]] == m[a := x][b := y]
  {}
  // a chunk in use and what follows it
  lemma UsedWords(s: St, p: int)
    requires SoundSt(s) && p in s.C && s.C[p].used && p != s.base
    ensures var z := s.C[p].size;
            Pinuse(Fld(s.mem, p + z, HEAD)) && 16 <= z && z % 8 == 0 && z + 8 < W32 && p >= s.base + HEADER
            && p % 8 == 0 && p + z <= s.top
    ensures forall h ::
              h == Fld(s.mem, p, HEAD)
              ==> ChunkSize(h) == s.C[p].size && Cinuse(h) && (Pinuse(h) <==> s.C[p].psize == 0)
  {
    ChunkEdge(s, p); TopEdge(s); HeadIs(s, p); TopHead(s.topsize);
    assert ChunkOK(s.C, p, s.base, s.top);
    if p + s.C[p].size != s.top { HeadIs(s, p + s.C[p].size); }
  }
  lemma UsedAddr(s: St, p: int, k: int)
    requires SoundSt(s) && p in s.C && s.C[p].used && p != s.base && 0 <= k <= s.C[p].size && k % 8 == 0
    ensures IsAddr(p, HEAD, s.base, s.end) && IsAddr(p, k + HEAD, s.base, s.end)
      && IsAddr(p, s.C[p].size + HEAD, s.base, s.end)
  {
    assert ChunkOK(s.C, p, s.base, s.top);
    EightFour(k); EightFour(s.C[p].size);
    ChunkAddr(s, p, HEAD); ChunkAddr(s, p, k + HEAD); ChunkAddr(s, p, s.C[p].size + HEAD);
  }
  // give back all of chunk p from nb on
  method Shrink(m: Mspace, p: int, oldsize: int, nb: int)
    requires Valid(m) && Used(m.C, p, oldsize) && p != m.base && 16 <= nb && nb % 8 == 0 && nb + 16 <= oldsize
    modifies m`mem, m.words, m`C
    ensures Valid(m) && p + nb !in old(m.C) && m.C == Cut(old(m.C), p, nb)
      && m.S() == old(m.S()).(mem := m.mem, C := m.C)
    ensures SamePayloadBut(old(m.mem), m.mem, old(m.C), m.base, p)
      && forall o :: 8 <= o < nb + 4 ==> Fld(m.mem, p, o) == Fld(old(m.mem), p, o)
  {
    ghost var s0 := m.S();
    UsedWords(s0, p); UsedAddr(s0, p, nb);
    CutInTwo(m, p, nb, oldsize);
    CutSteady(s0, m.dv, m.dvsize, p, nb, m.mem);
    m.C := Cut(m.C, p, nb);
    assert m.S() == Retagged(s0, m.mem, m.C, s0.top, s0.topsize);
  }
  // the chunk grows, at the cost of top
  method Grow(m: Mspace, p: int, oldsize: int, nb: int)
    requires Valid(m) && Used(m.C, p, oldsize) && p != m.base && p + oldsize == m.top
      && oldsize < nb < oldsize + m.topsize && nb % 8 == 0
    modifies m`mem, m.words, m`C, m`top, m`topsize
    ensures Valid(m) && Moved(old(m.S()), m.S(), p, p, nb) && m.C[p].size == nb
  {
    hide ChunkSize, Cinuse, SoundSt, Cover, DvOK, Shape, SamePayloadBut;
    ghost var s0 := m.S();
    UsedWords(s0, p); UsedAddr(s0, p, 0); TopAddr(s0, nb - oldsize);
    var newsize := oldsize + m.topsize;
    var newtopsize := newsize - nb;
    var newtop := p + nb;
    SetInuse(m, p, nb);
    m.Set(newtop, HEAD, newtopsize + 1);
    m.top := newtop;
    m.topsize := newtopsize;
    GrowSteady(s0, m.dv, m.dvsize, p, nb, m.mem);
    m.C := m.C[p := m.C[p].(size := nb)];
    assert m.S() == Retagged(s0, m.mem, m.C, newtop, newtopsize);
    GrownMoved(s0, m.S(), p, nb);
  }

  // ---- malloc, copy, free ----

  // memcpy of n bytes from the payload of chunk p to that of chunk q
  method MemCopy(m: Mspace, q: int, p: int, n: int)
    requires m.Rep() && 0 <= n && n % 4 == 0 && p % 8 == 0 && q % 8 == 0
    requires m.base <= p && p + 8 + n <= m.base + m.capacity && m.base <= q && q + 8 + n <= m.base + m.capacity
    requires q + n <= p || p + n <= q
    modifies m`mem, m.words
    ensures m.Rep() && Block(m.mem, q, n / 4) == Block(old(m.mem), p, n / 4)
    ensures OnlyPayload(old(m.mem), m.mem, q, n + 4)
  {
    ghost var mem := m.mem;
    var k := 0;
    while k < n / 4
      invariant 0 <= k <= n / 4 && m.Rep()
      invariant OnlyPayload(mem, m.mem, q, n + 4)
      invariant forall i :: 0 <= i < k ==> Fld(m.mem, q, 8 + 4 * i) == Fld(mem, p, 8 + 4 * i)
    {
      Multiple(p, 8 + 4 * k); Multiple(q, 8 + 4 * k);
      var v := m.Get(p, 8 + 4 * k);
      PayloadFld(mem, m.mem, q, n + 4, p, 8 + 4 * k);
      ghost var before := m.mem;
      m.Set(q, 8 + 4 * k, v);
      forall a | Fld(m.mem, a, 0) != Fld(mem, a, 0) ensures q + 8 <= a < q + 8 + n {
        assert a == q + 8 + 4 * k || Fld(m.mem, a, 0) == Fld(before, a, 0);
      }
      k := k + 1;
    }
    SameBlock(mem, m.mem, p, q, n / 4);
  }
  // between the malloc and the free
  lemma CopyPlace(s: St, s1: St, p: int, q: int, nb: int)
    requires SoundSt(s) && SoundSt(s1) && p in s.C && s.C[p].used && p != s.base && Granted(s, s1, q, nb)
      && s.C[p].size <= nb
    ensures p != q && p in s1.C && s1.C[p].used && s1.C[p].size == s.C[p].size && s1.C[q].size >= s.C[p].size
    ensures var n := s.C[p].size - 4;
            n >= 12 && n % 4 == 0 && p % 8 == 0 && q % 8 == 0 && s.base <= p && s.base <= q && p + 8 + n <= s.end
            && q + 8 + n <= s.end && (q + n <= p || p + n <= q)
  {
    assert Used(s.C, p, s.C[p].size);
    assert Used(s1.C, p, s.C[p].size);
    assert ChunkOK(s1.C, p, s1.base, s1.top) && ChunkOK(s1.C, q, s1.base, s1.top) && Sep(s1.C, p, q) && Sep(s1.C, q, p);
  }
  lemma CopiedMoved(s: St, s1: St, mem: Mem, s3: St, p: int, q: int, nb: int)
    requires SoundSt(s) && SoundSt(s1) && p in s.C && s.C[p].used && p != s.base && Granted(s, s1, q, nb)
      && s.C[p].size <= nb
    requires UsableWords(s.C[p].size) >= 0 && OnlyPayload(s1.mem, mem, q, s.C[p].size)
      && Block(mem, q, UsableWords(s.C[p].size)) == Block(s1.mem, p, UsableWords(s.C[p].size))
    requires SamePayloadBut(s1.mem, mem, s1.C, s1.base, q)
    requires Freed(s1.(mem := mem), s3, p)
    ensures Moved(s, s3, p, q, nb) && s3.C[q].size == s1.C[q].size
  {
    CopyPlace(s, s1, p, q, nb);
    var size, n := s.C[p].size, UsableWords(s.C[p].size);
    assert Used(s1.C, q, s1.C[q].size);
    assert Used(s3.C, q, s1.C[q].size);
    forall x, k | x != p && x != q ensures Used(s3.C, x, k) <==> Used(s.C, x, k) {
      assert Used(s3.C, x, k) <==> Used(s1.C, x, k);
    }
    forall x, o | x in s.C && s.C[x].used && x != s.base && x != p
      && 8 <= o < s.C[x].size + 4 ensures Fld(s3.mem, x, o) == Fld(s.mem, x, o) {
      assert Used(s.C, x, s.C[x].size) && Used(s1.C, x, s.C[x].size);
      assert Fld(s1.mem, x, o) == Fld(s.mem, x, o);
      assert Fld(mem, x, o) == Fld(s1.mem, x, o);
    }
    forall i | 0 <= i < n ensures Fld(s3.mem, q, 8 + 4 * i) == Fld(s.mem, p, 8 + 4 * i) {
      var o := 8 + 4 * i;
      assert Block(mem, q, n)[i] == Block(s1.mem, p, n)[i];
      assert Fld(s1.mem, p, o) == Fld(s.mem, p, o);
      assert Fld(s3.mem, q, o) == Fld(mem, q, o);
    }
    SameBlock(s.mem, s3.mem, p, q, n);
  }
  method MoveBlock(m: Mspace, oldmem: int, oldsize: int, bytes: int) returns (newmem: int)
    requires Valid(m) && Used(m.C, oldmem - 8, oldsize) && oldmem - 8 != m.base && 0 <= bytes < MAX_REQUEST
      && oldsize < Request2Size(bytes)
    modifies m`mem, m.words, m`smallmap, m`treemap, m`B, m`C, m`top, m`topsize, m`dv, m`dvsize, m`trimCheck
    ensures Valid(m)
    ensures newmem == 0 <==> NoFit(old(m.S()), Request2Size(bytes))
    ensures newmem == 0 ==> m.S() == old(m.S()) && m.dv == old(m.dv) && m.dvsize == old(m.dvsize)
    ensures newmem != 0 ==> newmem > 8 && Moved(old(m.S()), m.S(), oldmem - 8, newmem - 8, Request2Size(bytes))
    ensures newmem != 0 ==> newmem != oldmem
    ensures newmem != 0 ==> NewPlace(old(m.S()), old(m.dv), old(m.dvsize), Request2Size(bytes), newmem - 8, m.C)
  {
    ghost var s0, nb := m.S(), Request2Size(bytes);
    newmem := MspaceMalloc(m, bytes);
    if newmem != 0 {
      ghost var s1, p, q := m.S(), oldmem - 8, newmem - 8;
      CopyPlace(s0, s1, p, q, nb);
      var oc := oldsize - 4;
      UsedWords(s0, p);
      CopyCount(oldsize, bytes);
      MemCopy(m, newmem - 8, oldmem - 8, if oc < bytes then oc else bytes);
      PayloadWider(s1.mem, m.mem, q, oldsize, s1.C[q].size);
      UserWrite(s1, m.dv, m.dvsize, q, m.mem);
      ghost var mem := m.mem;
      assert m.S() == s1.(mem := mem);
      MspaceFree(m, oldmem);
      CopiedMoved(s0, s1, mem, m.S(), p, q, nb);
    }
  }
  // a block that could not be enlarged in place always moves whole: oc < bytes
  lemma CopyCount(oldsize: int, bytes: int)
    requires 0 <= bytes < MAX_REQUEST && 16 <= oldsize < Request2Size(bytes) && oldsize % 8 == 0
    ensures oldsize - 4 < bytes && (oldsize - 4) / 4 == UsableWords(oldsize)
  {
    RequestSize(bytes);
    Gap8(oldsize, Request2Size(bytes));
  }
  lemma PayloadWider(m: Mem, m': Mem, q: int, size: int, size': int)
    requires OnlyPayload(m, m', q, size) && size <= size'
    ensures OnlyPayload(m, m', q, size')
  {}

  method InternalRealloc(m: Mspace, oldmem: int, bytes: int) returns (mem: int)
    requires Valid(m) && oldmem - 8 in m.C && m.C[oldmem - 8].used && oldmem - 8 != m.base && 0 <= bytes < W32
    modifies m`mem, m.words, m`smallmap, m`treemap, m`B, m`C, m`top, m`topsize, m`dv, m`dvsize, m`trimCheck
    ensures Valid(m)
    ensures mem == 0 <==> bytes >= MAX_REQUEST || CannotResize(old(m.S()), oldmem - 8, Request2Size(bytes))
    ensures mem == 0 ==> m.S() == old(m.S()) && m.dv == old(m.dv) && m.dvsize == old(m.dvsize)
    ensures mem != 0 ==> mem > 8 && Moved(old(m.S()), m.S(), oldmem - 8, mem - 8, Request2Size(bytes))
    ensures mem != 0 ==> (mem == oldmem <==> StaysHere(old(m.S()), oldmem - 8, Request2Size(bytes)))
    ensures mem != 0 ==> Resized(old(m.S()), old(m.dv), old(m.dvsize), oldmem - 8, Request2Size(bytes), mem - 8, m.C)
  {
    hide Mspace.Rep, Cover, NoFit, DvOK, NewPlace;
    if bytes >= MAX_REQUEST { return 0; }
    var oldp := oldmem - 8;
    ghost var s0 := m.S();
    UsedWords(s0, oldp); UsedAddr(s0, oldp, 0);
    var oldhead := m.Get(oldp, HEAD);
    var oldsize := ChunkSize(oldhead);
    var next := oldp + oldsize;
    if oldp >= m.base && Cinuse(oldhead) && oldp < next && Pinuse(m.Get(next, HEAD)) {
      RequestSize(bytes);
      var nb := Request2Size(bytes);
      if oldsize >= nb {
        var rsize := oldsize - nb;
        if rsize >= MIN_CHUNK_SIZE {
          Shrink(m, oldp, oldsize, nb);
          ghost var s1 := m.S();
          MspaceFree(m, oldp + nb + 8);
          ShrunkMoved(s0, s1, m.S(), oldp, nb);
        } else {
          KeptMoved(s0, oldp, nb);
        }
        CheckInuseChunk(m, oldp);
        return oldmem;
      } else if next == m.top && oldsize + m.topsize > nb {
        Grow(m, oldp, oldsize, nb);
        CheckInuseChunk(m, oldp);
        return oldmem;
      } else {
        mem := MoveBlock(m, oldmem, oldsize, bytes);
      }
    } else {
      assert false;
    }
  }
  // the chunk itself has nb bytes, or it and top together have more
  ghost predicate StaysHere(s: St, p: int, nb: int)
    requires p in s.C
  {
    nb <= s.C[p].size || (p + s.C[p].size == s.top && nb < s.C[p].size + s.topsize)
  }
  // it cannot stay, and there is no other place
  ghost predicate CannotResize(s: St, p: int, nb: int)
    requires p in s.C
  {
    !StaysHere(s, p, nb) && NoFit(s, nb)
  }
  // Where chunk p goes, and its new size: in place a rest of less than 16 bytes stays with it, and top gives no more
  // than is missing.
  ghost predicate Resized(s: St, dv: int, dvsize: int, p: int, nb: int, q: int, C': Chunks)
    requires p in s.C
  {
    if StaysHere(s, p, nb) then
      q == p && p in C' && C'[p].size == if nb <= s.C[p].size < nb + 16 then s.C[p].size else nb
    else q != p && NewPlace(s, dv, dvsize, nb, q, C')
  }
  method MspaceRealloc(m: Mspace, oldmem: int, bytes: int) returns (mem: int)
    requires Valid(m) && (oldmem != 0 ==> oldmem - 8 in m.C && m.C[oldmem - 8].used && oldmem - 8 != m.base)
      && 0 <= bytes < W32
    modifies m`mem, m.words, m`smallmap, m`treemap, m`B, m`C, m`top, m`topsize, m`dv, m`dvsize, m`trimCheck
    ensures Valid(m)
    ensures mem == 0
            <==> bytes >= MAX_REQUEST
                 || if oldmem == 0
                    then NoFit(old(m.S()), Request2Size(bytes))
                    else CannotResize(old(m.S()), oldmem - 8, Request2Size(bytes))
    ensures mem == 0 ==> m.S() == old(m.S()) && m.dv == old(m.dv) && m.dvsize == old(m.dvsize)
    ensures mem != 0
            ==> mem > 8
                && if oldmem == 0
                   then Granted(old(m.S()), m.S(), mem - 8, Request2Size(bytes))
                   else Moved(old(m.S()), m.S(), oldmem - 8, mem - 8, Request2Size(bytes))
    ensures mem != 0
            ==> if oldmem == 0
                then NewPlace(old(m.S()), old(m.dv), old(m.dvsize), Request2Size(bytes), mem - 8, m.C)
                else Resized(old(m.S()), old(m.dv), old(m.dvsize), oldmem - 8, Request2Size(bytes), mem - 8, m.C)
  {
    if oldmem == 0 {
      mem := MspaceMalloc(m, bytes);
    } else {
      mem := InternalRealloc(m, oldmem, bytes);
    }
  }
}
