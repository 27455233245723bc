/** The chunks of the heap as a map from addresses, and how their sizes and boundary tags fit together. */
module Chunks {
  import opened Words
  const HEADER := 464
  datatype Chunk = Chunk(size: int, used: bool, psize: int)
  type Chunks = map<int, Chunk>
  ghost predicate Free(C: Chunks, p: int, s: int) { p in C && !C[p].used && C[p].size == s }

  ghost predicate Sep(C: Chunks, p: int, q: int) { p in C && q in C && p < q ==> p + C[p].size <= q }
  ghost predicate ChunkOK(C: Chunks, p: int, lo: int, hi: int) {
    p in C ==>
    var c := C[p];
    && lo <= p && p % 8 == 0 && c.size % 8 == 0 && 16 <= c.size && p + c.size <= hi
    && (p + c.size < hi ==> p + c.size in C && C[p + c.size].psize == if c.used then 0 else c.size)
    && (!c.used ==> p + c.size < hi && C[p + c.size].used)
    && 0 <= c.psize && (c.psize != 0 ==> c.used && Free(C, p - c.psize, c.psize))
  }
  ghost predicate Shape(C: Chunks, lo: int, hi: int) {
    && 0 <= lo && lo in C && C[lo] == Chunk(HEADER, true, 0) && lo % 8 == 0 && hi % 8 == 0
    && (forall p, q {:trigger Sep(C, p, q)} :: Sep(C, p, q))
    && (forall p {:trigger ChunkOK(C, p, lo, hi)} :: ChunkOK(C, p, lo, hi))
  }
  ghost function Take(C: Chunks, p: int): Chunks requires p in C && p + C[p].size in C {
    var n := p + C[p].size;
    C[p := C[p].(used := true)][n := C[n].(psize := 0)]
  }
  ghost function Carve(C: Chunks, p: int, k: int): Chunks requires p in C && p + C[p].size in C {
    var n := p + C[p].size;
    C[p := Chunk(k, true, C[p].psize)][p + k := Chunk(C[p].size - k, false, 0)][n := C[n].(psize := C[p].size - k)]
  }
  ghost function Cut(C: Chunks, p: int, k: int): Chunks requires p in C {
    C[p := Chunk(k, true, C[p].psize)][p + k := Chunk(C[p].size - k, true, 0)]
  }
  ghost function Drop(C: Chunks, p: int, e: int): Chunks { map q | q in C && !(p <= q < e) :: C[q] }
  ghost function Merge(C: Chunks, p: int, e: int): Chunks requires e in C {
    Drop(C, p, e)[p := Chunk(e - p, false, 0)][e := C[e].(psize := e - p)]
  }
  ghost function Below(C: Chunks, p: int): Chunks { map q | q in C && q < p :: C[q] }

  lemma TakeShape(C: Chunks, p: int, lo: int, hi: int)
    requires Shape(C, lo, hi) && p in C && !C[p].used
    ensures p + C[p].size in C && Shape(Take(C, p), lo, hi)
  {
    assert ChunkOK(C, p, lo, hi);
    var C' := Take(C, p);
    forall q ensures ChunkOK(C', q, lo, hi) { assert ChunkOK(C, q, lo, hi); }
    forall a, b ensures Sep(C', a, b) { assert Sep(C, a, b); }
  }
  lemma CarveShape(C: Chunks, p: int, k: int, lo: int, hi: int)
    requires Shape(C, lo, hi) && p in C && !C[p].used
    requires 16 <= k && k % 8 == 0 && k + 16 <= C[p].size
    ensures p + C[p].size in C && p + k !in C && Shape(Carve(C, p, k), lo, hi)
  {
    assert ChunkOK(C, p, lo, hi) && Sep(C, p, p + k);
    var C' := Carve(C, p, k);
    forall q ensures ChunkOK(C', q, lo, hi) { assert ChunkOK(C, q, lo, hi); assert Sep(C, q, p); }
    forall a, b ensures Sep(C', a, b) { CarveSep(C, C', p, k, a, b); }
  }
  lemma CarveSep(C: Chunks, C': Chunks, p: int, k: int, a: int, b: int)
    requires p in C && 16 <= k && k + 16 <= C[p].size
    requires forall x :: x in C' <==> x in C || x == p + k
    requires forall x :: x in C && x != p ==> C'[x].size == C[x].size
    requires C'[p].size == k && C'[p + k].size == C[p].size - k && p + k !in C
    requires forall p, q {:trigger Sep(C, p, q)} :: Sep(C, p, q)
    ensures Sep(C', a, b)
  {
    var a' := if a == p + k then p else a;
    var b' := if b == p + k then p else b;
    assert Sep(C, a', b');
    assert Sep(C, p, a);
  }
  lemma CutShape(C: Chunks, p: int, k: int, lo: int, hi: int)
    requires Shape(C, lo, hi) && p in C && C[p].used && p != lo
    requires 16 <= k && k % 8 == 0 && k + 16 <= C[p].size
    ensures p + k !in C && Shape(Cut(C, p, k), lo, hi)
  {
    assert ChunkOK(C, p, lo, hi) && Sep(C, p, p + k);
    var C' := Cut(C, p, k);
    forall q ensures ChunkOK(C', q, lo, hi) { assert ChunkOK(C, q, lo, hi); assert Sep(C, q, p); }
    forall a, b ensures Sep(C', a, b) { CarveSep(C, C', p, k, a, b); }
  }
  lemma TopShape(C: Chunks, k: int, lo: int, hi: int)
    requires Shape(C, lo, hi) && 16 <= k && k % 8 == 0
    ensures hi !in C && Shape(C[hi := Chunk(k, true, 0)], lo, hi + k)
  {
    hide ChunkOK, Sep;
    var C', top := C[hi := Chunk(k, true, 0)], hi + k;
    assert ChunkOK(C, hi, lo, hi) && ChunkOK(C, lo, lo, hi);
    TopEnds(C, lo, hi);
    forall q ensures ChunkOK(C', q, lo, top) { assert ChunkOK(C, q, lo, hi); TopChunk(C, k, lo, hi, q); }
    forall a, b ensures Sep(C', a, b) {
      assert Sep(C, a, b) && ChunkOK(C, a, lo, hi) && ChunkOK(C, b, lo, hi);
      TopSep(C, k, lo, hi, a, b);
    }
  }
  lemma TopEnds(C: Chunks, lo: int, hi: int)
    requires ChunkOK(C, hi, lo, hi) && ChunkOK(C, lo, lo, hi) && lo in C && C[lo].size == HEADER
    ensures hi !in C && lo + HEADER <= hi
  {}
  lemma TopChunk(C: Chunks, k: int, lo: int, hi: int, q: int)
    requires ChunkOK(C, q, lo, hi) && hi !in C && lo <= hi && hi % 8 == 0 && 16 <= k && k % 8 == 0
    ensures ChunkOK(C[hi := Chunk(k, true, 0)], q, lo, hi + k)
  {}
  lemma TopSep(C: Chunks, k: int, lo: int, hi: int, a: int, b: int)
    requires Sep(C, a, b) && ChunkOK(C, a, lo, hi) && ChunkOK(C, b, lo, hi) && 16 <= k
    ensures Sep(C[hi := Chunk(k, true, 0)], a, b)
  {}
  lemma MergeShape(C: Chunks, p: int, e: int, lo: int, hi: int)
    requires Shape(C, lo, hi) && p in C && p != lo && C[p].psize == 0 && e in C && C[e].used && p < e
    ensures Shape(Merge(C, p, e), lo, hi)
  {
    var C' := Merge(C, p, e);
    assert ChunkOK(C, p, lo, hi) && ChunkOK(C, e, lo, hi) && Sep(C, p, e) && Sep(C, lo, p);
    forall q ensures ChunkOK(C', q, lo, hi) {
      assert ChunkOK(C, q, lo, hi); assert Sep(C, q, p) && Sep(C, q, e) && Sep(C,e,q);
      if q in C { assert Sep(C, q - C[q].psize, e); }
    }
    forall a, b ensures Sep(C', a, b) { assert Sep(C, a, b) && Sep(C, e, b) && Sep(C, a, p); }
  }
  lemma BelowShape(C: Chunks, p: int, lo: int, hi: int)
    requires Shape(C, lo, hi) && p in C && p != lo && C[p].psize == 0
    ensures Shape(Below(C, p), lo, p)
  {
    var C' := Below(C, p);
    assert ChunkOK(C, p, lo, hi) && ChunkOK(C, lo, lo, hi);
    forall q ensures ChunkOK(C', q, lo, p) { assert ChunkOK(C, q, lo, hi) && Sep(C, q, p); }
    forall a, b ensures Sep(C', a, b) { assert Sep(C, a, b); }
  }
  lemma GrowShape(C: Chunks, p: int, k: int, lo: int, hi: int)
    requires Shape(C, lo, hi) && p in C && p != lo && C[p].used && p + C[p].size == hi
    requires 16 <= k && k % 8 == 0
    ensures Shape(C[p := C[p].(size := k)], lo, p + k)
  {
    var C', top := C[p := C[p].(size := k)], p + k;
    assert ChunkOK(C, p, lo, hi);
    forall q ensures ChunkOK(C', q, lo, top) { assert ChunkOK(C, q, lo, hi) && Sep(C, p, q) && Sep(C, q, p); }
    forall a, b ensures Sep(C', a, b) { assert Sep(C, a, b) && ChunkOK(C, b, lo, hi); }
  }

  // ---- boundary tags ----
  const FOOT := 0
  const HEAD := 4
  const TOP_FOOT_SIZE := 40
  const MIN_CHUNK_SIZE := 16
  ghost function Head(c: Chunk): int {
    c.size + (if c.used then 2 else 0) + (if c.psize == 0 then 1 else 0)
  }
  ghost predicate TagOK(m: Mem, C: Chunks, p: int) {
    p in C ==> Fld(m, p, HEAD) == Head(C[p]) && (C[p].psize != 0 ==> Fld(m, p, FOOT) == C[p].psize)
  }
  ghost predicate Tags(m: Mem, C: Chunks, top: int, topsize: int) {
    && (forall p {:trigger TagOK(m, C, p)} :: TagOK(m, C, p))
    && Fld(m, top, HEAD) == topsize + 1
    && Fld(m, top + topsize, HEAD) == TOP_FOOT_SIZE
    && 0 < topsize && topsize % 8 == 0
  }
  ghost predicate SamePayload(m: Mem, m': Mem, C: Chunks, base: int) {
    forall q, o {:trigger Fld(m', q, o)} :: q in C && C[q].used && q != base && 8 <= o < C[q].size + 4
      ==> Fld(m', q, o) == Fld(m, q, o)
  }
}
