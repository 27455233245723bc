/** mspace_calloc (kernel/malloc.c:4588-4606). */
module Calloc {
  import opened Words
  import opened Chunks
  import opened Bits
  import opened Mspaces
  import opened Retagging
  import opened Heap
  import opened Choices
  import opened Malloc
  import opened Realloc
  import opened Carving

  // ---- clearing ----

  // the first n bytes of the payload of chunk p are zero; bytes are stored low end first
  ghost predicate Zeroed(m: Mem, p: int, n: nat) {
    && (forall k {:trigger ZeroWord(m, p, k)} :: 0 <= k < n / 4 ==> ZeroWord(m, p, k))
    && Fld(m, p, 8 + 4 * (n / 4)) % Pow2(8 * (n % 4)) == 0
  }
  ghost predicate ZeroWord(m: Mem, p: int, k: int) { Fld(m, p, 8 + 4 * k) == 0 }
  // whole words
  method ZeroWords(m: Mspace, p: int, w: int)
    requires m.Rep() && 0 <= w && p % 8 == 0 && m.base <= p && p + 8 + 4 * w <= m.base + m.capacity
    modifies m`mem, m.words
    ensures m.Rep() && OnlyPayload(old(m.mem), m.mem, p, 4 * w + 4)
    ensures forall k {:trigger ZeroWord(m.mem, p, k)} :: 0 <= k < w ==> ZeroWord(m.mem, p, k)
  {
    ghost var mem := m.mem;
    var k := 0;
    while k < w
      invariant 0 <= k <= w && m.Rep() && OnlyPayload(mem, m.mem, p, 4 * k + 4)
      invariant forall i {:trigger ZeroWord(m.mem, p, i)} :: 0 <= i < k ==> ZeroWord(m.mem, p, i)
    {
      Multiple(p, 8 + 4 * k);
      ghost var before := m.mem;
      m.Set(p, 8 + 4 * k, 0);
      forall i | 0 <= i < k + 1 ensures ZeroWord(m.mem, p, i) { assert i < k ==> ZeroWord(before, p, i); }
      OneMore(mem, before, p, 4 * k + 4, 0);
      k := k + 1;
    }
  }
  // memset(mem, 0, n)
  method MemZero(m: Mspace, p: int, n: int)
    requires m.Rep() && 0 <= n && p % 8 == 0 && m.base <= p && p + 8 + n <= m.base + m.capacity
    modifies m`mem, m.words
    ensures m.Rep() && Zeroed(m.mem, p, n) && OnlyPayload(old(m.mem), m.mem, p, n + 4)
  {
    ghost var mem := m.mem;
    var w, r := n / 4, n % 4;
    ZeroWords(m, p, w);
    if r != 0 {
      LastWord(m, p, n);
      var v := m.Get(p, 8 + 4 * w);
      ghost var before := m.mem;
      LowCleared(v, Pow2(8 * r));
      m.Set(p, 8 + 4 * w, v - v % Pow2(8 * r));
      TailZeroed(mem, before, p, w, v - v % Pow2(8 * r));
    }
  }
  lemma TailZeroed(m: Mem, m1: Mem, p: int, w: nat, v: int)
    requires OnlyPayload(m, m1, p, 4 * w + 4)
      && forall k {:trigger ZeroWord(m1, p, k)} :: 0 <= k < w ==> ZeroWord(m1, p, k)
    ensures var m2 := m1[p + (8 + 4 * w) := v];
      OnlyPayload(m, m2, p, 4 * w + 5) && Fld(m2, p, 8 + 4 * w) == v
        && forall k {:trigger ZeroWord(m2, p, k)} :: 0 <= k < w ==> ZeroWord(m2, p, k)
  {
    var m2 := m1[p + (8 + 4 * w) := v];
    forall k | 0 <= k < w ensures ZeroWord(m2, p, k) { assert ZeroWord(m1, p, k); }
    forall a | Fld(m2, a, 0) != Fld(m, a, 0) ensures p + 8 <= a < p + 4 * w + 9 {
      assert a == p + 8 + 4 * w || Fld(m1, a, 0) != Fld(m, a, 0);
    }
  }
  lemma LowCleared(v: nat, w: nat)
    requires w > 0
    ensures (v - v % w) % w == 0 && 0 <= v - v % w <= v
  {
    ModIs(v - v % w, w, v / w, 0);
  }
  lemma OneMore(m: Mem, m1: Mem, p: int, size: int, v: int)
    requires OnlyPayload(m, m1, p, size) && size >= 4
    ensures OnlyPayload(m, m1[p + size + 4 := v], p, size + 4)
  {
    forall a | Fld(m1[p + size + 4 := v], a, 0) != Fld(m, a, 0) ensures p + 8 <= a < p + size + 8 {
      assert a == p + size + 4 || Fld(m1, a, 0) != Fld(m, a, 0);
    }
  }
  lemma LastWord(m: Mspace, p: int, n: int)
    requires m.Rep() && 0 <= n && n % 4 != 0 && p % 8 == 0 && m.base <= p && p + 8 + n <= m.base + m.capacity
    ensures IsAddr(p, 8 + 4 * (n / 4), m.base, m.base + m.capacity)
  {
    Multiple(p, 8 + 4 * (n / 4));
    Fours(m.base, m.capacity, p, n);
  }
  lemma Fours(base: int, capacity: int, p: int, n: int)
    requires base % 8 == 0 && capacity % 4 == 0 && p % 8 == 0 && n % 4 != 0 && p + 8 + n <= base + capacity
    ensures p + 8 + 4 * (n / 4) + 4 <= base + capacity
  {
    var a, b, c := base / 8, p / 8, capacity / 4;
    assert base == 8 * a && p == 8 * b && capacity == 4 * c;
    var d := n / 4;
    assert n >= 4 * d + 1;
  }

  // ---- the size ----

  // n_elements * elem_size in 32 bits, and MAX_SIZE_T if that is not the product
  function CallocSize(n: nat, size: nat): nat requires n < W32 && size < W32 {
    if n == 0 then 0
    else
      var req := n * size % W32;
      if And(Or(n, size), Not(0xFFFF)) != 0 && req / n != size then W32 - 1 else req
  }
  lemma CallocSizeIs(n: nat, size: nat)
    requires n < W32 && size < W32
    ensures CallocSize(n, size) == if n * size < W32 then n * size else W32 - 1
  {
    if n != 0 {
      if n * size < W32 { Quotient(n, size, n * size); }
      else {
        Short(n, size, n * size % W32); if And(Or(n, size), Not(0xFFFF)) == 0 { BothSmall(n, size); Product(n, size); }
      }
    }
  }
  lemma Quotient(n: nat, size: nat, req: nat)
    requires n > 0 && req == n * size
    ensures req / n == size
  {
    assert req == size * n;
    DivIs(req, n, size);
  }
  lemma DivIs(x: nat, n: nat, q: nat)
    requires n > 0 && x == q * n
    ensures x / n == q
  {
    ModIs(x, n, q, 0);
    MulEq(x / n, q, n);
  }
  lemma MulEq(a: int, b: int, n: int) requires n > 0 && a * n == b * n ensures a == b {}
  lemma Short(n: nat, size: nat, req: nat)
    requires n > 0 && req < n * size
    ensures req / n != size
  {
    assert req == req / n * n + req % n;
  }
  lemma Product(n: nat, size: nat)
    requires n < 0x1_0000 && size < 0x1_0000
    ensures n * size < W32
  {
    MulMono(size, n, 0xFFFF);
    assert size * n == n * size;
  }

  method MspaceCalloc(m: Mspace, n: int, size: int) returns (mem: int)
    requires Valid(m) && 0 <= n < W32 && 0 <= size < W32
    modifies m`mem, m.words, m`smallmap, m`treemap, m`B, m`C, m`dv, m`dvsize, m`top, m`topsize
    ensures Valid(m)
    ensures mem == 0 <==> n * size >= MAX_REQUEST || NoFit(old(m.S()), Request2Size(n * size))
    ensures mem == 0 ==> m.S() == old(m.S()) && m.dv == old(m.dv) && m.dvsize == old(m.dvsize)
    ensures mem != 0
            ==> mem > 8 && Granted(old(m.S()), m.S(), mem - 8, Request2Size(n * size))
                && Zeroed(m.mem, mem - 8, n * size)
    ensures mem != 0 ==> Picked(old(m.S()), old(m.dv), old(m.dvsize), Request2Size(n * size), mem - 8)
    ensures mem != 0
            ==> CutOff(old(m.S()), old(m.dv), old(m.dvsize), Request2Size(n * size), mem - 8, m.C, m.dv, m.dvsize)
  {
    hide Picked, CutOff;
    ghost var s0 := m.S();
    CallocSizeIs(n, size);
    var req := CallocSize(n, size);
    mem := MspaceMalloc(m, req);
    if mem != 0 {
      ghost var s1, p := m.S(), mem - 8;
      RequestSize(req);
      UsedWords(s1, p);
      UsedEnd(s1, p);
      MemZero(m, mem - 8, req);
      Widen(s1.mem, m.mem, p, req + 4, s1.C[p].size);
      UserWrite(s1, m.dv, m.dvsize, p, m.mem);
      GrantedWritten(s0, s1, p, Request2Size(req), m.mem);
      assert m.S() == s1.(mem := m.mem);
    }
  }
  lemma UsedEnd(s: St, p: int)
    requires SoundSt(s) && p in s.C && s.C[p].used
    ensures p + s.C[p].size + 48 <= s.end
  {
    assert ChunkOK(s.C, p, s.base, s.top);
  }
  lemma Widen(m: Mem, m': Mem, p: int, a: int, b: int)
    requires OnlyPayload(m, m', p, a) && a <= b
    ensures OnlyPayload(m, m', p, b)
  {}
  lemma GrantedWritten(s: St, s1: St, p: int, nb: int, mem: Mem)
    requires Granted(s, s1, p, nb) && SamePayloadBut(s1.mem, mem, s1.C, s1.base, p)
    ensures Granted(s, s1.(mem := mem), p, nb)
  {
    ExtraGranted(s, s1, p, nb);
    ExtraWritten(s, s1, {p}, p, mem);
  }
}
