/** The invariant of a malloc_state between calls, and the steps by which malloc hands out a chunk. */
module Heap {
  import opened Words
  import opened Chunks
  import opened Bits
  import opened Bins
  import opened Mspaces
  import opened Retagging
  import opened BinAccess

  // the designated victim: a free chunk that is in no bin, or none
  ghost predicate DvOK(C: Chunks, dv: int, dvsize: int) {
    0 <= dvsize && (dvsize == 0 <==> dv == 0) && (dvsize != 0 ==> Free(C, dv, dvsize))
  }
  // every free chunk but dv and the loose one is in a bin
  ghost predicate Loose(s: St, dv: int, dvsize: int, p: int) {
    SoundSt(s) && Cover(s.C, s.B, dv, p) && DvOK(s.C, dv, dvsize) && p in s.C && !s.C[p].used && p != dv
  }
  ghost predicate Steady(s: St, dv: int, dvsize: int) {
    SoundSt(s) && Cover(s.C, s.B, dv, 0) && DvOK(s.C, dv, dvsize)
  }
  ghost predicate Valid(m: Mspace)
    reads m, m.words
  {
    m.Rep() && Steady(m.S(), m.dv, m.dvsize)
  }

  lemma FreeAbove(s: St, q: int)
    requires SoundSt(s) && q in s.C && !s.C[q].used
    ensures q >= s.base + HEADER && q > 0 && q % 8 == 0 && 16 <= s.C[q].size < W32 && s.C[q].size % 8 == 0
      && q + 16 <= s.top
  {
    assert ChunkOK(s.C, q, s.base, s.top) && Sep(s.C, s.base, q);
  }
  lemma SameTrans(m0: Mem, m1: Mem, m2: Mem, C: Chunks, C': Chunks, base: int)
    requires SamePayload(m0, m1, C, base) && SamePayload(m1, m2, C', base)
    requires forall q, k {:trigger Used(C', q, k)} {:trigger Used(C, q, k)} :: Used(C, q, k) ==> Used(C', q, k)
    ensures SamePayload(m0, m2, C, base)
  {
    forall q, o | q in C && C[q].used && q != base && 8 <= o < C[q].size + 4 ensures Fld(m2, q, o) == Fld(m0, q, o) {
      assert Used(C, q, C[q].size) && Used(C', q, C[q].size);
      assert Fld(m1, q, o) == Fld(m0, q, o);
    }
  }

  // p, which was no chunk in use before, has been made one of at least nb bytes; nothing else in use has changed
  ghost predicate Granted(s: St, s': St, p: int, nb: int) {
    && s'.base == s.base && s'.end == s.end
    && p in s'.C && s'.C[p].used && s'.C[p].psize == 0 && nb <= s'.C[p].size < nb + 16 && p != s.base
    && (p in s.C ==> !s.C[p].used)
    && UsedBut(s.C, s'.C, p) && SamePayload(s.mem, s'.mem, s.C, s.base)
  }
  // bins may change before and after
  lemma GrantedAfter(s: St, s0: St, s1: St, p: int, nb: int)
    requires s0.C == s.C && s0.base == s.base && s0.end == s.end && SamePayload(s.mem, s0.mem, s.C, s.base)
    requires Granted(s0, s1, p, nb)
    ensures Granted(s, s1, p, nb)
  {
    SameTrans(s.mem, s0.mem, s1.mem, s.C, s.C, s.base);
  }
  lemma GrantedThen(s: St, s0: St, s1: St, p: int, nb: int)
    requires Granted(s, s0, p, nb)
    requires s1.C == s0.C && s1.base == s0.base && s1.end == s0.end && SamePayload(s0.mem, s1.mem, s0.C, s0.base)
    ensures Granted(s, s1, p, nb)
  {
    forall q, k | Used(s.C, q, k) ensures Used(s0.C, q, k) { assert q != p; }
    SameTrans(s.mem, s0.mem, s1.mem, s.C, s0.C, s.base);
  }

  // ---- the steps, on states ----

  // a chunk has been unlinked from its bin
  lemma Unlisted(s: St, s': St, dv: int, dvsize: int, p: int)
    requires Steady(s, dv, dvsize) && Listed(s.B, p) && SoundSt(s') && s'.C == s.C && ListedMinus(s.B, s'.B, p)
    ensures Loose(s', dv, dvsize, p)
  {
    forall q ensures Listed(s'.B, q) <==> q in s.C && !s.C[q].used && q != dv && q != p {
      if q in s.C && !s.C[q].used { FreeAbove(s, q); }
    }
  }
  // the loose chunk has been put into its bin
  lemma Inserted(s: St, s': St, dv: int, dvsize: int, p: int)
    requires Loose(s, dv, dvsize, p) && SoundSt(s') && s'.C == s.C && ListedPlus(s.B, s'.B, p)
    ensures Steady(s', dv, dvsize)
  {
    forall q ensures Listed(s'.B, q) <==> q in s.C && !s.C[q].used && q != dv && q != 0 {
      if q in s.C && !s.C[q].used { FreeAbove(s, q); }
    }
  }
  // the loose chunk has become dv, and the old dv has been put into its bin
  lemma Replaced(s: St, s': St, dv: int, dvsize: int, p: int)
    requires Loose(s, dv, dvsize, p) && SoundSt(s') && s'.C == s.C
    requires if dvsize == 0 then s'.B == s.B else ListedPlus(s.B, s'.B, dv)
    ensures Steady(s', p, s.C[p].size)
  {
    FreeAbove(s, p);
    forall q ensures Listed(s'.B, q) <==> q in s.C && !s.C[q].used && q != p && q != 0 {
      if q in s.C && !s.C[q].used { FreeAbove(s, q); }
    }
  }
  lemma TakeLoose(s: St, dv: int, dvsize: int, p: int, sz: int, nb: int, mem: Mem)
    requires Loose(s, dv, dvsize, p) && s.C[p].size == sz && nb <= sz < nb + 16
    requires mem == s.mem[p + HEAD := sz + 3][p + sz + HEAD := WithPinuse(Fld(s.mem, p + sz, HEAD))]
    ensures p + sz in s.C
      && var s' := Retagged(s, mem, Take(s.C, p), s.top, s.topsize); Steady(s', dv, dvsize) && Granted(s, s', p, nb)
  {
    FreeAbove(s, p);
    assert !Listed(s.B, p);
    TakeStep(s, p, sz, mem);
    assert ChunkOK(s.C, p, s.base, s.top);
    var C' := Take(s.C, p);
    assert C'[p + sz].used;
    forall q ensures Listed(s.B, q) <==> q in C' && !C'[q].used && q != dv && q != 0 {
      if q in s.C && !s.C[q].used { FreeAbove(s, q); }
    }
  }
  lemma CarveLoose(s: St, dv: int, dvsize: int, p: int, sz: int, nb: int, mem: Mem)
    requires Loose(s, dv, dvsize, p) && s.C[p].size == sz && 16 <= nb && nb % 8 == 0 && nb + 16 <= sz
    requires mem == s.mem[p + HEAD := nb + 3][p + nb + HEAD := sz - nb + 1][p + sz + FOOT := sz - nb]
    ensures p + sz in s.C && p + nb !in s.C
    ensures var s' := Retagged(s, mem, Carve(s.C, p, nb), s.top, s.topsize);
      Loose(s', dv, dvsize, p + nb) && Granted(s, s', p, nb) && Free(s'.C, p + nb, sz - nb)
  {
    FreeAbove(s, p);
    assert !Listed(s.B, p);
    CarveStep(s, p, sz, nb, mem);
    assert ChunkOK(s.C, p, s.base, s.top);
    var C' := Carve(s.C, p, nb);
    assert C'[p + sz].used;
    forall q ensures Listed(s.B, q) <==> q in C' && !C'[q].used && q != dv && q != p + nb {
      if Listed(s.B, q) { assert q in s.C; }
    }
  }
  // dv itself is split or used up
  lemma DvLoose(s: St, dv: int, dvsize: int)
    requires Steady(s, dv, dvsize) && dvsize != 0
    ensures Loose(s, 0, 0, dv) && s.C[dv].size == dvsize
  {
    FreeAbove(s, dv);
  }
  lemma LooseDv(s: St, p: int)
    requires Loose(s, 0, 0, p)
    ensures Steady(s, p, s.C[p].size)
  {
    Replaced(s, s, 0, 0, p);
  }
  lemma TopGranted(s: St, dv: int, dvsize: int, nb: int, mem: Mem)
    requires Steady(s, dv, dvsize) && 16 <= nb < s.topsize && nb % 8 == 0
    requires mem == s.mem[s.top + nb + HEAD := s.topsize - nb + 1][s.top + HEAD := nb + 3]
    ensures var s' := Retagged(s, mem, s.C[s.top := Chunk(nb, true, 0)], s.top + nb, s.topsize - nb);
      Steady(s', dv, dvsize) && Granted(s, s', s.top, nb)
  {
    TopStep(s, nb, mem);
    TopEdge(s);
    var C' := s.C[s.top := Chunk(nb, true, 0)];
    forall q ensures Listed(s.B, q) <==> q in C' && !C'[q].used && q != dv && q != 0 {
      if q in s.C && !s.C[q].used { FreeAbove(s, q); }
    }
  }

  // ---- the owner of a block may write to it ----

  // every word that differs is one of the payload of chunk q
  ghost predicate OnlyPayload(m: Mem, m': Mem, q: int, size: int) {
    forall a {:trigger Fld(m', a, 0)} :: Fld(m', a, 0) != Fld(m, a, 0) ==> q + 8 <= a < q + size + 4
  }
  lemma PayloadFld(m: Mem, m': Mem, q: int, size: int, x: int, o: int)
    requires OnlyPayload(m, m', q, size) && (x + o < q + 8 || x + o >= q + size + 4)
    ensures Fld(m', x, o) == Fld(m, x, o)
  {
    assert Fld(m', x, o) == Fld(m', x + o, 0) && Fld(m, x, o) == Fld(m, x + o, 0);
  }
  lemma UserWrite(s: St, dv: int, dvsize: int, q: int, mem: Mem)
    requires Steady(s, dv, dvsize) && q in s.C && s.C[q].used && q != s.base && OnlyPayload(s.mem, mem, q, s.C[q].size)
    ensures Steady(s.(mem := mem), dv, dvsize) && SamePayloadBut(s.mem, mem, s.C, s.base, q)
  {
    var size := s.C[q].size;
    var e := q + size;
    ChunkEdge(s, q); TopEdge(s);
    assert ChunkOK(s.C, q, s.base, s.top);
    assert OnlyRegion(s.mem, mem, q, e);
    forall x ensures Listed(s.B, x) ==> Stays(s.C, s.C, q, e, x) {
      if Listed(s.B, x) { ListedFacts(s, x); assert Sep(s.C, q, x); }
    }
    forall x | q <= x <= e ensures TagOK(mem, s.C, x) {
      assert TagOK(s.mem, s.C, x) && Sep(s.C, q, x);
      if x in s.C {
        PayloadFld(s.mem, mem, q, size, x, HEAD);
        if x == q { PayloadFld(s.mem, mem, q, size, x, FOOT); }
      }
    }
    PayloadFld(s.mem, mem, q, size, s.top, HEAD); PayloadFld(s.mem, mem, q, size, s.top + s.topsize, HEAD);
    Retag(s, mem, s.C, s.top, s.topsize, q, e);
    assert Retagged(s, mem, s.C, s.top, s.topsize) == s.(mem := mem);
    RegionPayload(s, mem, q, e, q);
  }
}
