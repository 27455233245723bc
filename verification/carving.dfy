/** A chunk just obtained may be cut up, written to and partly given back: what that leaves of the rest of the heap. */
module Carving {
  import opened Words
  import opened Chunks
  import opened Mspaces
  import opened Retagging
  import opened Heap
  import opened Freeing

  // the chunks in use are those that were, and those in ps besides; no block that was in use has been written to
  ghost predicate Extra(s: St, s': St, ps: set<int>) {
    && s'.base == s.base && s'.end == s.end
    && (forall x {:trigger x in ps} ::
          x in ps ==> x in s'.C && s'.C[x].used && x != s.base && !(x in s.C && s.C[x].used))
    && (forall x, k {:trigger Used(s.C, x, k)} {:trigger Used(s'.C, x, k)} ::
          x !in ps ==> (Used(s'.C, x, k) <==> Used(s.C, x, k)))
    && SamePayload(s.mem, s'.mem, s.C, s.base)
  }
  lemma ExtraGranted(s: St, s': St, p: int, nb: int)
    requires Granted(s, s', p, nb)
    ensures Extra(s, s', {p})
  {}
  lemma StillUsed(s: St, s': St, ps: set<int>, x: int)
    requires Extra(s, s', ps) && x in s.C && s.C[x].used
    ensures x !in ps && x in s'.C && s'.C[x].used && s'.C[x].size == s.C[x].size
  {
    assert Used(s.C, x, s.C[x].size);
    assert Used(s'.C, x, s.C[x].size);
  }
  lemma ExtraCut(s: St, s1: St, s2: St, ps: set<int>, p: int, k: int)
    requires Extra(s, s1, ps) && p in ps && SoundSt(s1) && p in s1.C && 16 <= k && k + 16 <= s1.C[p].size
    requires s2.C == Cut(s1.C, p, k) && s2.base == s1.base && s2.end == s1.end
      && SamePayloadBut(s1.mem, s2.mem, s1.C, s1.base, p)
    ensures p + k !in s1.C && Extra(s, s2, ps + {p + k})
  {
    assert Sep(s1.C, p, p + k) && ChunkOK(s1.C, p, s1.base, s1.top) && Sep(s1.C, s1.base, p);
    forall x, k1 | x !in ps + {p + k} ensures Used(s2.C, x, k1) <==> Used(s.C, x, k1) {
      assert Used(s1.C, x, k1) <==> Used(s.C, x, k1);
    }
    forall x, o | x in s.C && s.C[x].used && x != s.base
      && 8 <= o < s.C[x].size + 4 ensures Fld(s2.mem, x, o) == Fld(s.mem, x, o) {
      StillUsed(s, s1, ps, x);
      assert Fld(s1.mem, x, o) == Fld(s.mem, x, o);
    }
    if p + k in s.C && s.C[p + k].used { StillUsed(s, s1, ps, p + k); }
  }
  lemma ExtraFreed(s: St, s1: St, s2: St, ps: set<int>, p: int)
    requires Extra(s, s1, ps) && p in ps && Freed(s1, s2, p)
    ensures Extra(s, s2, ps - {p})
  {
    forall x | x in ps - {p} ensures x in s2.C && s2.C[x].used {
      assert x in ps; assert Used(s1.C, x, s1.C[x].size); assert Used(s2.C, x, s1.C[x].size);
    }
    forall x, k | x !in ps - {p} ensures Used(s2.C, x, k) <==> Used(s.C, x, k) {
      assert p in ps;
      if x != p { assert Used(s1.C, x, k) <==> Used(s.C, x, k); assert Used(s2.C, x, k) <==> Used(s1.C, x, k); }
    }
    forall x, o | x in s.C && s.C[x].used && x != s.base
      && 8 <= o < s.C[x].size + 4 ensures Fld(s2.mem, x, o) == Fld(s.mem, x, o) {
      StillUsed(s, s1, ps, x);
      assert Fld(s1.mem, x, o) == Fld(s.mem, x, o);
    }
  }
  lemma ExtraWritten(s: St, s1: St, ps: set<int>, p: int, mem: Mem)
    requires Extra(s, s1, ps) && p in ps && SamePayloadBut(s1.mem, mem, s1.C, s1.base, p)
    ensures Extra(s, s1.(mem := mem), ps)
  {
    forall x, o | x in s.C && s.C[x].used && x != s.base
      && 8 <= o < s.C[x].size + 4 ensures Fld(mem, x, o) == Fld(s.mem, x, o) {
      StillUsed(s, s1, ps, x);
      assert Fld(s1.mem, x, o) == Fld(s.mem, x, o);
    }
  }
  // a chunk that is not freed keeps its size
  lemma FreedOther(s: St, s': St, x: int, y: int)
    requires Freed(s, s', x) && y in s.C && s.C[y].used && y != x
    ensures y in s'.C && s'.C[y].used && s'.C[y].size == s.C[y].size
  {
    assert Used(s.C, y, s.C[y].size);
    assert Used(s'.C, y, s.C[y].size);
  }
}
