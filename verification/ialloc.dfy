/** ialloc and the independent_* calls over it (kernel/malloc.c:3816-3940, 4635-4654). */
module IndependentAlloc {
  import opened Words
  import opened Chunks
  import opened Bits
  import opened Mspaces
  import opened Retagging
  import opened Heap
  import opened Choices
  import opened ChunkChecks
  import opened Malloc
  import opened Realloc
  import opened Carving
  import opened Calloc

  // ---- the sizes asked for ----

  // request2size without the wrap-around
  function ExactSize(req: nat): nat { if req < MIN_REQUEST then MIN_CHUNK_SIZE else (req + 11) / 8 * 8 }
  function Sum(s: seq<nat>): nat { if s == [] then 0 else s[0] + Sum(s[1..]) }
  function ExactSizes(n: nat, sizes: seq<nat>, same: bool): (es: seq<nat>)
    requires if same then n > 0 ==> |sizes| > 0 else |sizes| == n
    ensures |es| == n && forall i :: 0 <= i < n ==> es[i] == ExactSize(sizes[if same then 0 else i])
  {
    seq<nat>(n, i requires 0 <= i < n => ExactSize(sizes[if same then 0 else i]))
  }
  lemma {:induction false} SumAt(s: seq<nat>, i: nat)
    requires i < |s|
    ensures Sum(s[i..]) == s[i] + Sum(s[i+1..])
  {
    assert s[i..][1..] == s[i+1..];
  }
  lemma {:induction false} SumTail(s: seq<nat>, i: nat)
    requires i <= |s|
    ensures Sum(s[i..]) <= Sum(s)
    decreases i
  {
    if i == 0 { assert s[0..] == s; } else { SumAt(s, i - 1); SumTail(s, i - 1); }
  }
  lemma SumBound(s: seq<nat>, i: nat)
    requires i < |s|
    ensures s[i] <= Sum(s)
  {
    SumTail(s, i); SumAt(s, i);
  }
  lemma {:induction false} SumSame(s: seq<nat>, x: nat)
    requires forall i :: 0 <= i < |s| ==> s[i] == x
    ensures Sum(s) == |s| * x
  {
    if s != [] { SumSame(s[1..], x); assert |s| * x == x + (|s| - 1) * x; }
  }
  lemma {:induction false} SumMultiple(s: seq<nat>)
    requires forall i :: 0 <= i < |s| ==> s[i] % 8 == 0
    ensures Sum(s) % 8 == 0
  {
    if s != [] { SumMultiple(s[1..]); Eights(s[0], Sum(s[1..])); }
  }
  lemma Eights(a: nat, b: nat) requires a % 8 == 0 && b % 8 == 0 ensures (a + b) % 8 == 0 {}
  lemma SizeIsExact(req: nat)
    requires req < W32 && ExactSize(req) < W32
    ensures Request2Size(req) == ExactSize(req) && 16 <= ExactSize(req) && ExactSize(req) % 8 == 0
      && req + 4 <= ExactSize(req)
  {}

  // the chunk sizes the code computes, each modulo 2^32
  ghost function Requests(n: nat, sizes: seq<nat>, same: bool): (rs: seq<nat>)
    requires if same then n > 0 ==> |sizes| > 0 else |sizes| == n
    ensures |rs| == n && forall i :: 0 <= i < n ==> rs[i] == Request2Size(sizes[if same then 0 else i])
  {
    seq<nat>(n, i requires 0 <= i < n => Request2Size(sizes[if same then 0 else i]))
  }
  lemma WrapSum(a: int, b: int)
    ensures (a % W32 + b) % W32 == (a + b) % W32
  {}
  // the sizes of one element, if all are the same, and of all the elements, as the code adds them up
  method ContentsSize(n: int, sizes: seq<nat>, same: bool) returns (elementSize: int, contentsSize: int)
    requires 0 < n < W32 && if same then |sizes| > 0 else |sizes| == n
    ensures contentsSize == Sum(Requests(n, sizes, same)) % W32
    ensures if same then elementSize == Request2Size(sizes[0]) else elementSize == 0
  {
    hide PadRequest, Request2Size;
    ghost var rs := Requests(n, sizes, same);
    if same {
      SumSame(rs, Request2Size(sizes[0]));
      elementSize := Request2Size(sizes[0]);
      contentsSize := n * elementSize % W32;
    } else {
      elementSize, contentsSize := 0, 0;
      var i := 0;
      assert rs[0..] == rs;
      while i != n
        invariant 0 <= i <= n && (contentsSize + Sum(rs[i..])) % W32 == Sum(rs) % W32 && 0 <= contentsSize < W32
      {
        SumAt(rs, i);
        WrapSum(contentsSize + Request2Size(sizes[i]), Sum(rs[i + 1..]));
        contentsSize := (contentsSize + Request2Size(sizes[i])) % W32;
        i := i + 1;
      }
    }
  }

  // ---- the pieces ----

  // piece j of the row of chunks in ps is in use, has es[j] bytes and ends where the next one starts
  ghost predicate Piece(C: Chunks, ps: seq<int>, es: seq<nat>, j: int) {
    0 <= j < |ps| - 1 && j < |es|
    ==> ps[j] in C && C[ps[j]].used && C[ps[j]].size == es[j] && ps[j + 1] == ps[j] + es[j]
  }
  ghost predicate Row(C: Chunks, ps: seq<int>, es: seq<nat>) {
    |ps| > 0 && forall j {:trigger Piece(C, ps, es, j)} :: Piece(C, ps, es, j)
  }
  lemma RowCut(C: Chunks, ps: seq<int>, es: seq<nat>, p: int)
    requires Row(C, ps, es) && |ps| <= |es| && p == ps[|ps|-1] && p in C && C[p].used && p + es[|ps|-1] !in C
    requires forall j :: 0 <= j < |ps| - 1 ==> ps[j] != p
    ensures Row(Cut(C, p, es[|ps|-1]), ps + [p + es[|ps|-1]], es)
  {
    var k := es[|ps|-1];
    var C', ps' := Cut(C, p, k), ps + [p + k];
    forall j ensures Piece(C', ps', es, j) { assert Piece(C, ps, es, j); }
  }
  lemma {:induction false} RowRises(C: Chunks, ps: seq<int>, es: seq<nat>, i: int, j: int)
    requires Row(C, ps, es) && |ps| <= |es| + 1 && 0 <= i <= j < |ps| && forall k :: 0 <= k < |es| ==> es[k] > 0
    ensures ps[i] <= ps[j] && (i < j ==> ps[i] < ps[j])
    decreases j
  {
    if i < j { RowRises(C, ps, es, i, j - 1); assert Piece(C, ps, es, j - 1); }
  }

  // ---- splitting a chunk while its last piece has no head yet ----

  ghost function Virtual(s: St, p: int, rem: int): St { s.(mem := s.mem[p + HEAD := rem + 3]) }
  // with a head of `rem` bytes at the last piece p, the heap would be in order
  ghost predicate Splitting(s0: St, s: St, dv: int, dvsize: int, ps: seq<int>, es: seq<nat>, arr: int, rem: int,
    all: set<int>) {
    && 0 < |ps| <= |es| && Row(s.C, ps, es) && (forall x :: x in ps ==> x in all)
    && (forall k :: 0 <= k < |es| ==> 16 <= es[k] && es[k] % 8 == 0)
    && var p := ps[|ps|-1];
      && Used(s.C, p, rem) && s.C[p].psize == 0 && p != s.base && 0 <= rem - Sum(es[|ps|-1..]) < 16
      && Steady(Virtual(s, p, rem), dv, dvsize) && Extra(s0, Virtual(s, p, rem), all)
      && (arr != 0
          ==> arr in all && arr in s.C && arr == p + rem && s.C[arr].size >= 4 * |es| + 4 && rem == Sum(es[|ps|-1..]))
  }
  lemma LastPiece(s0: St, s: St, dv: int, dvsize: int, ps: seq<int>, es: seq<nat>, arr: int, rem: int, all: set<int>)
    requires Splitting(s0, s, dv, dvsize, ps, es, arr, rem, all)
    ensures var p := ps[|ps|-1];
      && IsAddr(p, HEAD, s.base, s.end) && s.base <= p && 0 < rem && rem % 8 == 0 && rem + 3 < W32 && p + 8 < W32
      && (|ps| < |es| ==> es[|ps|-1] + 16 <= rem)
      && forall j :: 0 <= j < |ps| - 1 ==> ps[j] < p
    ensures arr != 0
            ==> arr < W32 && arr % 8 == 0 && forall i :: 0 <= i < |es| ==> IsAddr(arr, 8 + 4 * i, s.base, s.end)
  {
    var p := ps[|ps|-1];
    var vs := Virtual(s, p, rem);
    assert ChunkOK(vs.C, p, vs.base, vs.top);
    ChunkAddr(vs, p, HEAD);
    SumAt(es, |ps|-1);
    if |ps| < |es| { SumAt(es, |ps|); }
    forall j | 0 <= j < |ps| - 1 ensures ps[j] < p { RowRises(s.C, ps, es, j, |ps|-1); }
    if arr != 0 {
      assert ChunkOK(vs.C, arr, vs.base, vs.top);
      forall i | 0 <= i < |es| ensures IsAddr(arr, 8 + 4 * i, s.base, s.end) { ChunkAddr(vs, arr, 8 + 4 * i); }
    }
  }
  lemma SplitStep(s0: St, s: St, dv: int, dvsize: int, ps: seq<int>, es: seq<nat>, arr: int, rem: int, all: set<int>)
    requires Splitting(s0, s, dv, dvsize, ps, es, arr, rem, all) && |ps| < |es|
    ensures var p, k := ps[|ps|-1], es[|ps|-1];
      p in s.C && p + k !in s.C
        && Splitting(s0, s.(mem := s.mem[p + HEAD := k + 3], C := Cut(s.C, p, k)), dv, dvsize, ps + [p + k], es, arr,
        rem - k, all + {p + k})
  {
    LastPiece(s0, s, dv, dvsize, ps, es, arr, rem, all);
    var p, k := ps[|ps|-1], es[|ps|-1];
    var vs := Virtual(s, p, rem);
    var s' := s.(mem := s.mem[p + HEAD := k + 3], C := Cut(s.C, p, k));
    var vs' := Virtual(s', p + k, rem - k);
    assert vs'.mem == vs.mem[p + HEAD := k + 2 + 1][p + k + HEAD := rem - k + 3];
    CutSteady(vs, dv, dvsize, p, k, vs'.mem);
    assert vs' == Retagged(vs, vs'.mem, Cut(vs.C, p, k), vs.top, vs.topsize);
    assert Sep(vs.C, p, p + k);
    ExtraCut(s0, vs, vs', all, p, k);
    RowCut(s.C, ps, es, p);
    SumAt(es, |ps|-1);
    assert (ps + [p + k])[|ps|] == p + k;
  }
  lemma PointerStep(s0: St, s: St, dv: int, dvsize: int, ps: seq<int>, es: seq<nat>, arr: int, rem: int,
    all: set<int>, i: nat, v: int)
    requires Splitting(s0, s, dv, dvsize, ps, es, arr, rem, all) && arr != 0 && i < |es|
    ensures Splitting(s0, s.(mem := s.mem[arr + (8 + 4 * i) := v]), dv, dvsize, ps, es, arr, rem, all)
  {
    LastPiece(s0, s, dv, dvsize, ps, es, arr, rem, all);
    var p := ps[|ps|-1];
    var vs := Virtual(s, p, rem);
    var s' := s.(mem := s.mem[arr + (8 + 4 * i) := v]);
    var vs' := Virtual(s', p, rem);
    assert vs'.mem == vs.mem[arr + (8 + 4 * i) := v];
    assert OnlyPayload(vs.mem, vs'.mem, arr, vs.C[arr].size);
    assert vs.C[arr].used && arr != vs.base;
    UserWrite(vs, dv, dvsize, arr, vs'.mem);
    ExtraWritten(s0, vs, all, arr, vs'.mem);
    assert vs' == vs.(mem := vs'.mem);
  }

  // ---- the pointers noted, and the words cleared ----

  ghost predicate NotedAt(m: Mem, arr: int, ps: seq<int>, j: int) {
    0 <= j < |ps| ==> Fld(m, arr, 8 + 4 * j) == ps[j] + 8
  }
  // the first n pointers of the array in chunk arr
  ghost predicate Noted(m: Mem, arr: int, ps: seq<int>, n: int) {
    forall j {:trigger NotedAt(m, arr, ps, j)} :: 0 <= j < n ==> NotedAt(m, arr, ps, j)
  }
  lemma NotedStep(m: Mem, arr: int, ps: seq<int>, n: int, a: int, v: int, x: int)
    requires Noted(m, arr, ps, n) && n <= |ps| && a < arr + 8
    ensures Noted(m[a := v], arr, ps + [x], n)
  {
    var m' := m[a := v];
    forall j | 0 <= j < n ensures NotedAt(m', arr, ps + [x], j) { assert NotedAt(m, arr, ps, j); }
  }
  lemma NotedMore(m: Mem, arr: int, ps: seq<int>, n: int)
    requires Noted(m, arr, ps, n) && 0 <= n < |ps|
    ensures Noted(m[arr + (8 + 4 * n) := ps[n] + 8], arr, ps, n + 1)
  {
    var m' := m[arr + (8 + 4 * n) := ps[n] + 8];
    forall j | 0 <= j < n + 1 ensures NotedAt(m', arr, ps, j) { assert j < n ==> NotedAt(m, arr, ps, j); }
  }
  ghost predicate ZeroTo(m: Mem, p: int, w: int) {
    forall k {:trigger ZeroWord(m, p, k)} :: 0 <= k < w ==> ZeroWord(m, p, k)
  }
  // the payload of piece j
  ghost predicate ClearAt(m: Mem, ps: seq<int>, es: seq<nat>, j: int) {
    0 <= j < |ps| - 1 && j < |es| ==> ZeroTo(m, ps[j], UsableWords(es[j]))
  }
  ghost predicate Cleared(m: Mem, ps: seq<int>, es: seq<nat>, rem: int) {
    |ps| > 0 && ZeroTo(m, ps[|ps|-1], UsableWords(rem))
      && forall j {:trigger ClearAt(m, ps, es, j)} :: ClearAt(m, ps, es, j)
  }
  lemma ZeroKept(m: Mem, p: int, w: int, a: int, v: int)
    requires ZeroTo(m, p, w) && (a < p + 8 || a >= p + 8 + 4 * w)
    ensures ZeroTo(m[a := v], p, w)
  {
    var m' := m[a := v];
    forall k | 0 <= k < w ensures ZeroWord(m', p, k) { assert ZeroWord(m, p, k); }
  }
  // a store behind the last piece
  lemma ClearedBeyond(C: Chunks, m: Mem, ps: seq<int>, es: seq<nat>, rem: int, a: int, v: int)
    requires Cleared(m, ps, es, rem) && Row(C, ps, es) && |ps| <= |es| && (forall k :: 0 <= k < |es| ==> es[k] > 0)
      && rem > 0 && a >= ps[|ps|-1] + rem + 8
    ensures Cleared(m[a := v], ps, es, rem)
  {
    var m' := m[a := v];
    ZeroKept(m, ps[|ps|-1], UsableWords(rem), a, v);
    forall j ensures ClearAt(m', ps, es, j) {
      if 0 <= j < |ps| - 1 {
        assert ClearAt(m, ps, es, j) && Piece(C, ps, es, j);
        RowRises(C, ps, es, j + 1, |ps| - 1);
        ZeroKept(m, ps[j], UsableWords(es[j]), a, v);
      }
    }
  }
  // the head of the last piece is stored, and it is split
  lemma ClearedStep(C: Chunks, m: Mem, ps: seq<int>, es: seq<nat>, rem: int, v: int)
    requires Cleared(m, ps, es, rem) && Row(C, ps, es) && |ps| <= |es|
      && (forall k :: 0 <= k < |es| ==> 16 <= es[k] && es[k] % 8 == 0) && es[|ps|-1] <= rem
    ensures var p, k := ps[|ps|-1], es[|ps|-1]; Cleared(m[p + HEAD := v], ps + [p + k], es, rem - k)
  {
    var p, k := ps[|ps|-1], es[|ps|-1];
    var m', ps' := m[p + HEAD := v], ps + [p + k];
    ZeroKept(m, p, UsableWords(rem), p + HEAD, v);
    Quarter(rem, k);
    var q := p + k;
    forall i | 0 <= i < UsableWords(rem - k) ensures ZeroWord(m', q, i) { assert ZeroWord(m', p, i + k / 4); }
    forall j ensures ClearAt(m', ps', es, j) {
      if 0 <= j < |ps| - 1 {
        assert ClearAt(m, ps, es, j) && Piece(C, ps, es, j);
        RowRises(C, ps, es, j + 1, |ps| - 1);
        ZeroKept(m, ps[j], UsableWords(es[j]), p + HEAD, v);
      } else if j == |ps| - 1 {
        assert forall i {:trigger ZeroWord(m', p, i)} :: 0 <= i < UsableWords(k) ==> ZeroWord(m', p, i);
      }
    }
  }
  lemma Quarter(rem: int, k: int)
    requires k % 8 == 0
    ensures (rem - k) / 4 == rem / 4 - k / 4 && 4 * (k / 4) == k
  {
    var q := k / 8;
    assert k == 8 * q;
    DivShift(rem, 2 * q);
  }
  lemma DivShift(r: int, j: int) ensures (r - 4 * j) / 4 == r / 4 - j && 4 * j / 4 == j && (r - 4 * j) % 4 == r % 4 {}

  // ---- the code ----

  // the first n pointers in the caller's array
  ghost predicate Given(c: seq<word>, ps: seq<int>, n: int) {
    0 <= n <= |ps| && n <= |c| && forall j :: 0 <= j < n ==> c[j] == ps[j] + 8
  }
  ghost predicate GivenIn(chunks: array?<word>, ps: seq<int>, n: int)
    reads chunks
  {
    chunks != null ==> Given(chunks[..], ps, n)
  }
  // the address of element i goes into the caller's array or the allocated one
  method PutPointer(m: Mspace, chunks: array?<word>, marray: int, i: int, mem: int)
    requires m.Rep() && 0 <= i && 0 <= mem < W32
      && (if chunks == null
          then IsAddr(marray, 4 * i, m.base, m.base + m.capacity)
          else i < chunks.Length && chunks != m.words)
    modifies m`mem, m.words, chunks
    ensures m.Rep() && m.mem == if chunks == null then old(m.mem)[marray + 4 * i := mem] else old(m.mem)
    ensures chunks != null ==> chunks[..] == old(chunks[..])[i := mem]
  {
    if chunks == null {
      m.Set(marray, 4 * i, mem);
    } else {
      chunks[i] := mem;
    }
  }
  // Everything known while elements are split out: ps are the pieces so far, `noted` of them have their pointers
  // in the array of chunk arr, and if `zero` is set their payloads are clear.
  ghost predicate Progress(s0: St, s: St, dv: int, dvsize: int, ps: seq<int>, es: seq<nat>, arr: int, rem: int,
    all: set<int>, noted: int, zero: bool) {
    && Splitting(s0, s, dv, dvsize, ps, es, arr, rem, all)
      && (forall x :: x in all ==> x in ps || (x == arr && arr != 0))
    && 0 <= noted <= |ps| && (arr != 0 ==> Noted(s.mem, arr, ps, noted)) && (zero ==> Cleared(s.mem, ps, es, rem))
  }
  lemma ProgressNote(s0: St, s: St, dv: int, dvsize: int, ps: seq<int>, es: seq<nat>, arr: int, rem: int,
    all: set<int>, zero: bool)
    requires arr != 0 && Progress(s0, s, dv, dvsize, ps, es, arr, rem, all, |ps| - 1, zero)
    ensures var i := |ps| - 1;
      Progress(s0, s.(mem := s.mem[arr + (8 + 4 * i) := ps[i] + 8]), dv, dvsize, ps, es, arr, rem, all, |ps|, zero)
  {
    var i := |ps| - 1;
    LastPiece(s0, s, dv, dvsize, ps, es, arr, rem, all);
    PointerStep(s0, s, dv, dvsize, ps, es, arr, rem, all, i, ps[i] + 8);
    NotedMore(s.mem, arr, ps, i);
    if zero { ClearedBeyond(s.C, s.mem, ps, es, rem, arr + (8 + 4 * i), ps[i] + 8); }
  }
  lemma ProgressSplit(s0: St, s: St, dv: int, dvsize: int, ps: seq<int>, es: seq<nat>, arr: int, rem: int,
    all: set<int>, noted: int, zero: bool)
    requires Progress(s0, s, dv, dvsize, ps, es, arr, rem, all, noted, zero) && |ps| < |es|
    ensures var p, k := ps[|ps|-1], es[|ps|-1];
      p in s.C && Progress(s0, s.(mem := s.mem[p + HEAD := k + 3], C := Cut(s.C, p, k)), dv, dvsize, ps + [p + k], es,
        arr, rem - k, all + {p + k}, noted, zero)
  {
    var p, k := ps[|ps|-1], es[|ps|-1];
    LastPiece(s0, s, dv, dvsize, ps, es, arr, rem, all);
    SplitStep(s0, s, dv, dvsize, ps, es, arr, rem, all);
    if arr != 0 { NotedStep(s.mem, arr, ps, noted, p + HEAD, k + 3, p + k); }
    if zero { ClearedStep(s.C, s.mem, ps, es, rem, k + 3); }
    var ps' := ps + [p + k];
    assert forall x :: x in ps ==> x in ps';
    assert ps'[|ps|] == p + k;
  }
  lemma ProgressLast(s0: St, s: St, dv: int, dvsize: int, ps: seq<int>, es: seq<nat>, arr: int, rem: int,
    all: set<int>, noted: int, zero: bool)
    requires Progress(s0, s, dv, dvsize, ps, es, arr, rem, all, noted, zero)
    ensures var p := ps[|ps|-1]; var s' := Virtual(s, p, rem);
      Progress(s0, s', dv, dvsize, ps, es, arr, rem, all, noted, zero) && Virtual(s', p, rem) == s'
  {
    var p := ps[|ps|-1];
    var s' := Virtual(s, p, rem);
    LastPiece(s0, s, dv, dvsize, ps, es, arr, rem, all);
    assert Virtual(s', p, rem).mem == s'.mem;
    if arr != 0 { NotedStep(s.mem, arr, ps, noted, p + HEAD, rem + 3, 0); NotedShort(s'.mem, arr, ps, noted, 0); }
    if zero { ClearedHead(s.C, s.mem, ps, es, rem, rem + 3); }
  }
  lemma NotedShort(m: Mem, arr: int, ps: seq<int>, n: int, x: int)
    requires Noted(m, arr, ps + [x], n) && n <= |ps|
    ensures Noted(m, arr, ps, n)
  {
    forall j | 0 <= j < n ensures NotedAt(m, arr, ps, j) { assert NotedAt(m, arr, ps + [x], j); }
  }
  lemma ClearedHead(C: Chunks, m: Mem, ps: seq<int>, es: seq<nat>, rem: int, v: int)
    requires Cleared(m, ps, es, rem) && Row(C, ps, es) && |ps| <= |es|
      && (forall k :: 0 <= k < |es| ==> 16 <= es[k] && es[k] % 8 == 0)
    ensures Cleared(m[ps[|ps|-1] + HEAD := v], ps, es, rem)
  {
    var p := ps[|ps|-1];
    var m' := m[p + HEAD := v];
    ZeroKept(m, p, UsableWords(rem), p + HEAD, v);
    forall j ensures ClearAt(m', ps, es, j) {
      if 0 <= j < |ps| - 1 {
        assert ClearAt(m, ps, es, j) && Piece(C, ps, es, j);
        RowRises(C, ps, es, j + 1, |ps| - 1);
        ZeroKept(m, ps[j], UsableWords(es[j]), p + HEAD, v);
      }
    }
  }
  // the address of the last piece is noted
  method NotePiece(m: Mspace, p: int, i: int, chunks: array?<word>, marray: int, ghost s0: St, ghost ps: seq<int>,
    ghost es: seq<nat>, ghost arr: int, ghost rem: int, ghost all: set<int>, ghost zero: bool)
    requires m.Rep() && 0 <= i && |ps| == i + 1 && ps[i] == p
      && Progress(s0, m.S(), m.dv, m.dvsize, ps, es, arr, rem, all, i, zero)
    requires if chunks == null
             then arr != 0 && marray == arr + 8
             else arr == 0 && i < chunks.Length && chunks != m.words
    modifies m`mem, m.words, chunks
    ensures m.Rep() && Progress(s0, m.S(), m.dv, m.dvsize, ps, es, arr, rem, all, i + 1, zero)
    ensures chunks != null ==> i < chunks.Length && chunks[..] == old(chunks[..])[i := p + 8]
  {
    hide SoundSt, Cover, DvOK, Shape, ChunkSize, Pinuse, Cinuse;
    ghost var s1 := m.S();
    LastPiece(s0, s1, m.dv, m.dvsize, ps, es, arr, rem, all);
    if chunks == null { ProgressNote(s0, s1, m.dv, m.dvsize, ps, es, arr, rem, all, zero); }
    PutPointer(m, chunks, marray, i, p + 8);
    assert m.S() == if chunks == null then s1.(mem := s1.mem[arr + (8 + 4 * i) := p + 8]) else s1;
  }
  // the last piece p gets its head and the rest becomes the next one
  method SplitPiece(m: Mspace, p: int, size: int, ghost s0: St, ghost ps: seq<int>, ghost es: seq<nat>, ghost arr: int,
    rem: int, ghost all: set<int>, ghost noted: int, ghost zero: bool)
    returns (next: int, rest: int, ghost ps': seq<int>, ghost all': set<int>)
    requires m.Rep() && |ps| > 0 && ps[|ps|-1] == p
      && Progress(s0, m.S(), m.dv, m.dvsize, ps, es, arr, rem, all, noted, zero) && |ps| < |es| && size == es[|ps|-1]
    modifies m`mem, m.words, m`C
    ensures m.Rep() && ps' == ps + [next] && Progress(s0, m.S(), m.dv, m.dvsize, ps', es, arr, rest, all', noted, zero)
  {
    hide SoundSt, Cover, DvOK, Shape, ChunkSize, Pinuse, Cinuse, Mspace.Rep;
    ghost var s1 := m.S();
    LastPiece(s0, s1, m.dv, m.dvsize, ps, es, arr, rem, all);
    ProgressSplit(s0, s1, m.dv, m.dvsize, ps, es, arr, rem, all, noted, zero);
    SetSizeAndPinuseOfInuseChunk(m, p, size);
    m.C := Cut(m.C, p, size);
    assert m.S() == s1.(mem := m.mem, C := m.C);
    next, rest := p + size, rem - size;
    ps', all' := ps + [next], all + {next};
  }
  // the last element gets all that is left of the chunk
  method LastElement(m: Mspace, p: int, rem: int, ghost s0: St, ghost ps: seq<int>, ghost es: seq<nat>, ghost arr: int,
    ghost all: set<int>, ghost noted: int, ghost zero: bool)
    requires m.Rep() && |ps| > 0 && ps[|ps|-1] == p
      && Progress(s0, m.S(), m.dv, m.dvsize, ps, es, arr, rem, all, noted, zero)
    modifies m`mem, m.words
    ensures m.Rep() && Progress(s0, m.S(), m.dv, m.dvsize, ps, es, arr, rem, all, noted, zero)
      && m.S() == Virtual(m.S(), p, rem)
  {
    ghost var s1 := m.S();
    LastPiece(s0, s1, m.dv, m.dvsize, ps, es, arr, rem, all);
    ProgressLast(s0, s1, m.dv, m.dvsize, ps, es, arr, rem, all, noted, zero);
    SetSizeAndPinuseOfInuseChunk(m, p, rem);
    assert m.S() == Virtual(s1, p, rem);
  }
  method OneElement(m: Mspace, p: int, i: int, size: int, rem: int, chunks: array?<word>, marray: int, ghost s0: St,
    ghost ps: seq<int>, ghost es: seq<nat>, ghost arr: int, ghost all: set<int>, ghost zero: bool)
    returns (next: int, rest: int, ghost ps': seq<int>, ghost all': set<int>)
    requires m.Rep() && 0 <= i && |ps| == i + 1 && ps[i] == p
      && Progress(s0, m.S(), m.dv, m.dvsize, ps, es, arr, rem, all, i, zero)
    requires if chunks == null
             then arr != 0 && marray == arr + 8
             else arr == 0 && i < chunks.Length && chunks != m.words
    requires |ps| < |es| && size == es[i] && GivenIn(chunks, ps, i)
    modifies m`mem, m.words, m`C, chunks
    ensures m.Rep() && |ps'| == i + 2 && ps'[0] == ps[0] && ps'[i + 1] == next
      && Progress(s0, m.S(), m.dv, m.dvsize, ps', es, arr, rest, all', i + 1, zero)
    ensures GivenIn(chunks, ps', i + 1)
  {
    NotePiece(m, p, i, chunks, marray, s0, ps, es, arr, rem, all, zero);
    next, rest, ps', all' := SplitPiece(m, p, size, s0, ps, es, arr, rem, all, i + 1, zero);
  }
  method FinalElement(m: Mspace, p: int, i: int, rem: int, chunks: array?<word>, marray: int, ghost s0: St,
    ghost ps: seq<int>, ghost es: seq<nat>, ghost arr: int, ghost all: set<int>, ghost zero: bool)
    requires m.Rep() && 0 <= i && |ps| == i + 1 && ps[i] == p
      && Progress(s0, m.S(), m.dv, m.dvsize, ps, es, arr, rem, all, i, zero)
    requires (if chunks == null
              then arr != 0 && marray == arr + 8
              else arr == 0 && i < chunks.Length && chunks != m.words)
             && GivenIn(chunks, ps, i)
    modifies m`mem, m.words, chunks
    ensures m.Rep() && Progress(s0, m.S(), m.dv, m.dvsize, ps, es, arr, rem, all, i + 1, zero)
      && m.S() == Virtual(m.S(), p, rem)
    ensures GivenIn(chunks, ps, i + 1)
  {
    NotePiece(m, p, i, chunks, marray, s0, ps, es, arr, rem, all, zero);
    LastElement(m, p, rem, s0, ps, es, arr, all, i + 1, zero);
  }
  // the loop that cuts the elements off, one after the other
  method SplitElements(m: Mspace, p0: int, remainder0: int, n: int, elementSize: int, sizes: seq<nat>,
    chunks: array?<word>, marray: int, ghost zero: bool,
                       ghost s0: St, ghost es: seq<nat>, ghost arr: int, ghost all0: set<int>)
                         returns (ghost ps: seq<int>, ghost all: set<int>, ghost last: int)
    requires m.Rep() && 0 < n == |es| && Progress(s0, m.S(), m.dv, m.dvsize, [p0], es, arr, remainder0, all0, 0, zero)
    requires forall i ::
               0 <= i < n
               ==> es[i] == if elementSize != 0 then elementSize else if i < |sizes| then Request2Size(sizes[i]) else 0
    requires elementSize != 0 || |sizes| == n
    requires if chunks == null
             then arr != 0 && marray == arr + 8
             else arr == 0 && chunks.Length >= n && chunks != m.words
    modifies m`mem, m.words, m`C, chunks
    ensures m.Rep() && |ps| == n && ps[0] == p0 && Progress(s0, m.S(), m.dv, m.dvsize, ps, es, arr, last, all, n, zero)
    ensures m.S() == Virtual(m.S(), ps[n-1], last)
    ensures GivenIn(chunks, ps, n)
  {
    var p, remainder := p0, remainder0;
    ps, all := [p0], all0;
    var i := 0;
    while true
      invariant 0 <= i < n && m.Rep() && |ps| == i + 1 && ps[0] == p0 && ps[i] == p
      invariant Progress(s0, m.S(), m.dv, m.dvsize, ps, es, arr, remainder, all, i, zero)
      invariant GivenIn(chunks, ps, i)
      decreases n - i
    {
      if i != n - 1 {
        var size := if elementSize != 0 then elementSize else Request2Size(sizes[i]);
        p, remainder, ps, all := OneElement(m, p, i, size, remainder, chunks, marray, s0, ps, es, arr, all, zero);
        i := i + 1;
      } else {
        FinalElement(m, p, i, remainder, chunks, marray, s0, ps, es, arr, all, zero);
        last := remainder;
        return;
      }
    }
  }

  // ---- the whole ----

  // no chunk, the caller's own array filled in, or an array in a block of the heap
  datatype Outcome = Failed | CallersArray | InHeap(mem: int)

  // bytes of the aggregate chunk: all the elements, and the pointer array unless the caller has one
  function Total(es: seq<nat>, n: nat, own: bool): nat { Sum(es) + (if own then 0 else ExactSize(4 * n)) }
  // the chunk of the elements, before they are split out of it
  lemma StartGiven(s0: St, s: St, dv: int, dvsize: int, p: int, es: seq<nat>, zero: bool)
    requires Steady(s, dv, dvsize) && Extra(s0, s, {p}) && p in s.C && s.C[p].psize == 0 && p + HEAD in s.mem
    requires |es| > 0 && (forall k :: 0 <= k < |es| ==> 16 <= es[k] && es[k] % 8 == 0)
      && Sum(es) <= s.C[p].size < Sum(es) + 16
    requires zero ==> ZeroTo(s.mem, p, UsableWords(s.C[p].size))
    ensures Progress(s0, s, dv, dvsize, [p], es, 0, s.C[p].size, {p}, 0, zero)
  {
    assert p in {p};
    assert TagOK(s.mem, s.C, p);
    assert Virtual(s, p, s.C[p].size) == s;
    assert es[0..] == es;
    assert Row(s.C, [p], es);
  }
  lemma StartHeap(s0: St, s: St, dv: int, dvsize: int, p: int, es: seq<nat>, zero: bool)
    requires Steady(s, dv, dvsize) && Extra(s0, s, {p}) && p in s.C && s.C[p].psize == 0
    requires |es| > 0 && (forall k :: 0 <= k < |es| ==> 16 <= es[k] && es[k] % 8 == 0)
      && Sum(es) + 4 * |es| + 4 <= s.C[p].size && Sum(es) + 16 <= s.C[p].size
    requires zero ==> ZeroTo(s.mem, p, UsableWords(Sum(es)))
    ensures var c, arr := Sum(es), p + Sum(es);
      p in s.C && Progress(s0, s.(mem := s.mem[arr + HEAD := s.C[p].size - c + 3], C := Cut(s.C, p, c)), dv, dvsize,
        [p], es, arr, c, {p, arr}, 0, zero)
  {
    hide Tags, Shape, Steady, SoundSt, Extra, Cover, DvOK, ZeroTo;
    HandedOut(s0, s, dv, dvsize, p);
    var c, arr := Sum(es), p + Sum(es);
    var s' := s.(mem := s.mem[arr + HEAD := s.C[p].size - c + 3], C := Cut(s.C, p, c));
    var vs := Virtual(s', p, c);
    SumMultiple(es); SumBound(es, 0);
    StartCut(s, dv, dvsize, p, c, arr, vs);
    ExtraCut(s0, s, vs, {p}, p, c);
    assert {p} + {p + c} == {p, arr};
    assert es[0..] == es && arr in {p, arr} && p in {p, arr};
    assert Row(s'.C, [p], es);
    if zero { ZeroKept(s.mem, p, UsableWords(c), arr + HEAD, s.C[p].size - c + 3); }
  }
  lemma HandedOut(s0: St, s: St, dv: int, dvsize: int, p: int)
    requires Steady(s, dv, dvsize) && Extra(s0, s, {p})
    ensures SoundSt(s) && p in s.C && s.C[p].used && p != s.base
  {
    assert p in {p};
  }
  // the chunk of the elements, cut off in front of the array, in a state where its own head is written too
  lemma StartCut(s: St, dv: int, dvsize: int, p: int, c: int, arr: int, vs: St)
    requires Steady(s, dv, dvsize) && p in s.C && s.C[p].used && p != s.base && s.C[p].psize == 0 && 16 <= c
      && c % 8 == 0 && c + 16 <= s.C[p].size
    requires arr == p + c
      && vs == Virtual(s.(mem := s.mem[arr + HEAD := s.C[p].size - c + 3], C := Cut(s.C, p, c)), p, c)
    ensures vs == Retagged(s, vs.mem, Cut(s.C, p, c), s.top, s.topsize) && Steady(vs, dv, dvsize)
      && SamePayloadBut(s.mem, vs.mem, s.C, s.base, p)
    ensures arr > 0 && arr !in s.C
  {
    assert vs.mem == s.mem[p + HEAD := c + 3][arr + HEAD := s.C[p].size - c + 3];
    CutSteady(s, dv, dvsize, p, c, vs.mem);
    assert ChunkOK(s.C, p, s.base, s.top);
  }

  // The new chunks in use: a row of elements without gaps, each of the size its request needs (the last one may have up
  // to 15 bytes more if no array follows), and the chunk of the pointer array right after them.
  ghost predicate Elements(s0: St, s: St, ps: seq<int>, es: seq<nat>, arr: int, all: set<int>, zero: bool) {
    && |ps| == |es| > 0 && Row(s.C, ps, es) && Extra(s0, s, all)
      && (forall x :: x in all <==> x in ps || (x == arr && arr != 0))
    && var q := ps[|ps|-1];
      && q in s.C && s.C[q].used && 0 <= s.C[q].size - es[|ps|-1] < 16
      && (arr != 0
          ==> s.C[q].size == es[|ps|-1] && arr == q + s.C[q].size && arr in s.C && s.C[arr].used
              && s.C[arr].size >= 4 * |es| + 4 && Noted(s.mem, arr, ps, |es|))
      && (zero ==> Cleared(s.mem, ps, es, s.C[q].size))
  }
  lemma ProgressDone(s0: St, s: St, dv: int, dvsize: int, ps: seq<int>, es: seq<nat>, arr: int, rem: int,
    all: set<int>, zero: bool)
    requires Progress(s0, s, dv, dvsize, ps, es, arr, rem, all, |es|, zero) && |ps| == |es|
      && s == Virtual(s, ps[|ps|-1], rem)
    ensures Steady(s, dv, dvsize) && Elements(s0, s, ps, es, arr, all, zero) && rem == s.C[ps[|ps|-1]].size
      && (arr != 0 ==> rem == es[|es|-1])
  {
    SumAt(es, |es| - 1);
    assert es[|es|..] == [];
  }
  lemma SizesFit(es: seq<nat>, n: nat, own: bool)
    requires |es| == n > 0 && (forall i :: 0 <= i < n ==> 16 <= es[i] && es[i] % 8 == 0) && Total(es, n, own) < W32
    ensures var t := Total(es, n, own); 16 <= t && t % 8 == 0 && (t - 4 < MAX_REQUEST ==> Request2Size(t - 4) == t)
    ensures !own
            ==> 4 * n < W32 && Request2Size(4 * n) == ExactSize(4 * n) && ExactSize(4 * n) % 8 == 0
                && ExactSize(4 * n) >= 16 && ExactSize(4 * n) >= 4 * n + 4
  {
    SumBound(es, 0); SumMultiple(es);
    if !own { SizeIsExact(4 * n); Eights(Sum(es), ExactSize(4 * n)); }
    PadEight(Total(es, n, own));
  }
  lemma PadEight(t: nat)
    requires 16 <= t < W32 && t % 8 == 0
    ensures Request2Size(t - 4) == t || t - 4 >= MAX_REQUEST
  {}
  // clear the elements if asked to, and cut off the pointer array if the caller has none
  method Prepare(m: Mspace, mem: int, contentsSize: int, arraySize: int, clear: bool, own: bool, ghost s0: St,
    ghost es: seq<nat>)
    returns (arr: int, remainder: int)
    requires Valid(m) && Extra(s0, m.S(), {mem - 8}) && mem - 8 in m.C && m.C[mem - 8].psize == 0 && mem > 8
    requires |es| > 0 && (forall k :: 0 <= k < |es| ==> 16 <= es[k] && es[k] % 8 == 0) && contentsSize == Sum(es)
    requires if own then arraySize == 0 else arraySize >= 16 && arraySize >= 4 * |es| + 4 && arraySize % 8 == 0
    requires contentsSize + arraySize <= m.C[mem - 8].size < contentsSize + arraySize + 16
    modifies m`mem, m.words, m`C
    ensures m.Rep() && (arr == 0 <==> own)
    ensures Progress(s0, m.S(), m.dv, m.dvsize, [mem - 8], es, arr, remainder,
      if arr == 0 then {mem - 8} else {mem - 8, arr}, 0, clear)
  {
    hide SoundSt, Cover, DvOK, Shape, Progress, Row, ChunkSize, Pinuse, Cinuse, Mspace.Rep;
    var p := mem - 8;
    ghost var s1 := m.S();
    assert p in {p};
    UsedWords(s1, p); UsedAddr(s1, p, 0); UsedEnd(s1, p);
    remainder := ChunkSize(m.Get(p, HEAD));
    if clear { ClearElements(m, p, remainder, arraySize, s0); }
    ghost var s2 := m.S();
    UsedWords(s2, p); UsedAddr(s2, p, 0);
    InMem(m, p + HEAD);
    arr := 0;
    if own {
      StartGiven(s0, s2, m.dv, m.dvsize, p, es, clear);
    } else {
      arr := p + contentsSize;
      SumMultiple(es); SumBound(es, 0);
      UsedAddr(s2, p, contentsSize);
      var arrayChunkSize := remainder - contentsSize;
      if clear { ZeroShorter(m.mem, p, UsableWords(remainder - arraySize), UsableWords(contentsSize)); }
      StartHeap(s0, s2, m.dv, m.dvsize, p, es, clear);
      SetSizeAndPinuseOfInuseChunk(m, arr, arrayChunkSize);
      remainder := contentsSize;
      m.C := Cut(m.C, p, contentsSize);
      assert m.S() == s2.(mem := m.mem, C := m.C);
    }
  }
  lemma ZeroShorter(m: Mem, p: int, w: int, w': int)
    requires ZeroTo(m, p, w) && w' <= w
    ensures ZeroTo(m, p, w')
  {
    forall k | 0 <= k < w' ensures ZeroWord(m, p, k) { assert ZeroWord(m, p, k); }
  }
  // the elements are cleared, up to the word before the array's chunk
  method ClearElements(m: Mspace, p: int, remainder: int, arraySize: int, ghost s0: St)
    requires Valid(m) && Extra(s0, m.S(), {p}) && Used(m.C, p, remainder) && p != m.base && 0 <= arraySize
      && arraySize % 8 == 0 && 16 + arraySize <= remainder
    modifies m`mem, m.words
    ensures Valid(m) && Extra(s0, m.S(), {p}) && m.S() == old(m.S()).(mem := m.mem)
      && ZeroTo(m.mem, p, UsableWords(remainder - arraySize))
  {
    ghost var s1 := m.S();
    UsedWords(s1, p); UsedEnd(s1, p);
    var n := remainder - 4 - arraySize;
    Words4(remainder, arraySize);
    MemZero(m, p, n);
    Widen(s1.mem, m.mem, p, n + 4, remainder);
    UserWrite(s1, m.dv, m.dvsize, p, m.mem);
    ExtraWritten(s0, s1, {p}, p, m.mem);
    assert m.S() == s1.(mem := m.mem);
  }
  lemma Words4(r: int, a: int)
    requires r % 8 == 0 && a % 8 == 0
    ensures (r - 4 - a) % 4 == 0 && (r - 4 - a) / 4 == UsableWords(r - a)
  {
    var q, p := r / 8, a / 8;
    assert r == 8 * q && a == 8 * p;
    DivShift(0, 1 + 2 * p - 2 * q); DivShift(0, 2 * p - 2 * q);
  }
  // ialloc after the allocation of the aggregate chunk
  method IallocChunk(m: Mspace, mem: int, n: int, elementSize: int, contentsSize: int, arraySize: int, sizes: seq<nat>,
    clear: bool, chunks: array?<word>,
                     ghost s0: St, ghost es: seq<nat>)
                       returns (r: Outcome, ghost ps: seq<int>, ghost arr: int, ghost all: set<int>)
    requires 0 < n == |es| && contentsSize == Sum(es) && (chunks != null ==> chunks.Length >= n && chunks != m.words)
    requires forall i ::
               0 <= i < n
               ==> 16 <= es[i] && es[i] % 8 == 0
                   && es[i]
                      == if elementSize != 0 then elementSize else if i < |sizes| then Request2Size(sizes[i]) else 0
    requires elementSize != 0 || |sizes| == n
    requires if chunks != null
             then arraySize == 0
             else arraySize >= 16 && arraySize >= 4 * |es| + 4 && arraySize % 8 == 0
    requires Valid(m) && Extra(s0, m.S(), {mem - 8}) && mem - 8 in m.C && m.C[mem - 8].psize == 0 && mem > 8
    requires contentsSize + arraySize <= m.C[mem - 8].size < contentsSize + arraySize + 16
    modifies m`mem, m.words, m`C, chunks
    ensures Valid(m) && Elements(s0, m.S(), ps, es, arr, all, clear) && |ps| == n && ps[0] == mem - 8
    ensures if chunks == null
            then arr != 0 && r == InHeap(arr + 8)
            else arr == 0 && r == CallersArray && GivenIn(chunks, ps, n)
  {
    hide SoundSt, Cover, DvOK, Shape, ChunkSize, Pinuse, Cinuse, Request2Size, Extra, Elements, Steady, Progress,
      Mspace.Rep;
    var a, remainder := Prepare(m, mem, contentsSize, arraySize, clear, chunks != null, s0, es);
    arr := a;
    r := if chunks == null then InHeap(a + 8) else CallersArray;
    ps, all := IallocSplit(m, mem - 8, remainder, n, elementSize, sizes, chunks, a + 8, clear, s0, es, a,
      if a == 0 then {mem - 8} else {mem - 8, a});
  }
  method IallocSplit(m: Mspace, p: int, remainder: int, n: int, elementSize: int, sizes: seq<nat>, chunks: array?<word>,
    marray: int, ghost zero: bool,
                     ghost s0: St, ghost es: seq<nat>, ghost arr: int, ghost all0: set<int>)
                       returns (ghost ps: seq<int>, ghost all: set<int>)
    requires m.Rep() && 0 < n == |es| && Progress(s0, m.S(), m.dv, m.dvsize, [p], es, arr, remainder, all0, 0, zero)
    requires forall i ::
               0 <= i < n
               ==> es[i] == if elementSize != 0 then elementSize else if i < |sizes| then Request2Size(sizes[i]) else 0
    requires elementSize != 0 || |sizes| == n
    requires if chunks == null
             then arr != 0 && marray == arr + 8
             else arr == 0 && chunks.Length >= n && chunks != m.words
    modifies m`mem, m.words, m`C, chunks
    ensures Valid(m) && Elements(s0, m.S(), ps, es, arr, all, zero) && GivenIn(chunks, ps, n)
    ensures |ps| == n && ps[0] == p
  {
    ghost var last;
    ps, all, last := SplitElements(m, p, remainder, n, elementSize, sizes, chunks, marray, zero, s0, es, arr, all0);
    ProgressDone(s0, m.S(), m.dv, m.dvsize, ps, es, arr, last, all, zero);
    // with an array behind it, the final element exactly exhausts the chunk
    assert chunks == null ==> last == es[n - 1];
    CheckPieces(m, n, chunks, marray, s0, ps, es, arr, all, zero);
  }
  // the checks of a debug build: the array's chunk and all the elements are in use
  method CheckPieces(m: Mspace, n: int, chunks: array?<word>, marray: int, ghost s0: St, ghost ps: seq<int>,
    ghost es: seq<nat>, ghost arr: int, ghost all: set<int>, ghost zero: bool)
    requires Valid(m) && n == |es| && Elements(s0, m.S(), ps, es, arr, all, zero) && GivenIn(chunks, ps, n)
    requires if chunks == null then arr != 0 && marray == arr + 8 else arr == 0 && chunks.Length >= n
  {
    hide SoundSt, Cover, DvOK, Shape, ChunkSize, Extra, Mspace.Rep;
    if chunks == null { CheckInuseChunk(m, marray - 8); }
    var i := 0;
    while i != n
      invariant 0 <= i <= n
    {
      PieceInUse(s0, m.S(), ps, es, arr, all, zero, i);
      var mem := if chunks == null then m.Get(marray, 4 * i) else chunks[i];
      CheckInuseChunk(m, mem - 8);
      i := i + 1;
    }
  }
  lemma PieceInUse(s0: St, s: St, ps: seq<int>, es: seq<nat>, arr: int, all: set<int>, zero: bool, j: nat)
    requires Elements(s0, s, ps, es, arr, all, zero) && SoundSt(s) && j < |es|
    ensures ps[j] in s.C && s.C[ps[j]].used
    ensures arr != 0 ==> IsAddr(arr, 8 + 4 * j, s.base, s.end) && Fld(s.mem, arr, 8 + 4 * j) == ps[j] + 8
  {
    assert Piece(s.C, ps, es, j);
    if arr != 0 { assert NotedAt(s.mem, arr, ps, j); ChunkAddr(s, arr, 8 + 4 * j); }
  }
  ghost predicate IallocDone(s: St, s': St, r: Outcome, ps: seq<int>, es: seq<nat>, arr: int,
    all: set<int>, total: int, zero: bool, own: bool) {
    if total - 4 >= MAX_REQUEST || NoFit(s, total)
    then r == Failed
    else Elements(s, s', ps, es, arr, all, zero)
         && if own then arr == 0 && r == CallersArray else arr != 0 && r == InHeap(arr + 8)
  }
  // the size of the aggregate chunk that the code asks malloc for
  ghost function Asked(n: nat, sizes: seq<nat>, same: bool, own: bool): int
    requires if same then n > 0 ==> |sizes| > 0 else |sizes| == n
  {
    (Sum(Requests(n, sizes, same)) + (if own then 0 else Request2Size(4 * n % W32))) % W32
  }
  // malloc has no chunk for a request of size - CHUNK_OVERHEAD bytes
  ghost predicate Refused(s: St, size: int) {
    var bytes := (size - 4) % W32; bytes >= MAX_REQUEST || NoFit(s, Request2Size(bytes))
  }
  // A total below 2^32 is asked for as it is, and refused exactly if it is too large or nothing fits.
  lemma AskedExactly(n: nat, sizes: seq<nat>, same: bool, own: bool)
    requires n > 0 && (if same then |sizes| > 0 else |sizes| == n) && (forall i :: 0 <= i < |sizes| ==> sizes[i] < W32)
    requires Total(ExactSizes(n, sizes, same), n, own) < W32
    ensures var t := Total(ExactSizes(n, sizes, same), n, own);
      && Requests(n, sizes, same) == ExactSizes(n, sizes, same) && Asked(n, sizes, same, own) == t && 16 <= t
      && (forall s :: Refused(s, t) <==> t - 4 >= MAX_REQUEST || NoFit(s, t))
  {
    hide PadRequest, Request2Size;
    var es := ExactSizes(n, sizes, same);
    ExactFits(n, sizes, same, own); SizesFit(es, n, own);
    assert Requests(n, sizes, same) == es;
    WrapSmall(Total(es, n, own)); WrapSmall(Total(es, n, own) - 4);
    if !own { WrapSmall(4 * n); }
  }
  // ialloc. What it promises (IallocDone) it keeps exactly if the total is below 2^32 or what is asked for is refused;
  // otherwise a smaller chunk is split as if it were the whole.
  method Ialloc(m: Mspace, n: int, sizes: seq<nat>, opts: int, chunks: array?<word>)
    returns (r: Outcome, ghost ps: seq<int>, ghost arr: int, ghost all: set<int>)
    requires Valid(m) && 0 <= n < W32 && 0 <= opts && (forall i :: 0 <= i < |sizes| ==> sizes[i] < W32)
    requires if opts % 2 == 1 then n > 0 ==> |sizes| > 0 else |sizes| == n
    requires chunks != null ==> chunks.Length >= n && chunks != m.words
    requires n > 0
             ==> Total(ExactSizes(n, sizes, opts % 2 == 1), n, chunks != null) < W32
                 || Refused(m.S(), Asked(n, sizes, opts % 2 == 1, chunks != null))
    modifies m`mem, m.words, m`smallmap, m`treemap, m`B, m`C, m`dv, m`dvsize, m`top, m`topsize, chunks
    ensures Valid(m)
    ensures r == Failed ==> m.S() == old(m.S()) && m.dv == old(m.dv) && m.dvsize == old(m.dvsize)
    ensures n == 0 && chunks != null
            ==> r == CallersArray && m.S() == old(m.S()) && m.dv == old(m.dv) && m.dvsize == old(m.dvsize)
    ensures n == 0 && chunks == null
      ==> if NoFit(old(m.S()), 16)
          then r == Failed
          else r.InHeap? && r.mem > 8 && Granted(old(m.S()), m.S(), r.mem - 8, 16)
               && NewPlace(old(m.S()), old(m.dv), old(m.dvsize), 16, r.mem - 8, m.C)
    ensures n > 0 ==> var es := ExactSizes(n, sizes, opts % 2 == 1);
      IallocDone(old(m.S()), m.S(), r, ps, es, arr, all, Total(es, n, chunks != null), opts / 2 % 2 == 1,
        chunks != null)
    ensures n > 0 && r == CallersArray ==> chunks != null && GivenIn(chunks, ps, n)
    ensures n > 0 && r != Failed ==> |ps| > 0 && Picked(old(m.S()), old(m.dv), old(m.dvsize),
      Total(ExactSizes(n, sizes, opts % 2 == 1), n, chunks != null), ps[0])
  {
    hide SoundSt, Cover, DvOK, Shape, ChunkSize, Pinuse, Cinuse, NoFit, Granted, Total, ExactSizes, Asked, Refused,
      Mspace.Rep;
    ps, arr, all := [], 0, {};
    var arraySize := 0;
    if chunks != null {
      if n == 0 { return CallersArray, ps, arr, all; }
    } else {
      if n == 0 {
        var mem := MspaceMalloc(m, 0);
        return if mem == 0 then Failed else InHeap(mem), ps, arr, all;
      }
      arraySize := Request2Size(n * 4 % W32);
    }
    r, ps, arr, all := IallocSome(m, n, sizes, opts % 2 == 1, opts / 2 % 2 == 1, chunks, arraySize);
  }
  method IallocSome(m: Mspace, n: int, sizes: seq<nat>, same: bool, clear: bool, chunks: array?<word>, arraySize: int)
    returns (r: Outcome, ghost ps: seq<int>, ghost arr: int, ghost all: set<int>)
    requires Valid(m) && 0 < n < W32 && (forall i :: 0 <= i < |sizes| ==> sizes[i] < W32)
      && if same then |sizes| > 0 else |sizes| == n
    requires chunks != null ==> chunks.Length >= n && chunks != m.words
    requires arraySize == if chunks != null then 0 else Request2Size(4 * n % W32)
    requires Total(ExactSizes(n, sizes, same), n, chunks != null) < W32
      || Refused(m.S(), Asked(n, sizes, same, chunks != null))
    modifies m`mem, m.words, m`smallmap, m`treemap, m`B, m`C, m`dv, m`dvsize, m`top, m`topsize, chunks
    ensures Valid(m)
    ensures r == Failed ==> m.S() == old(m.S()) && m.dv == old(m.dv) && m.dvsize == old(m.dvsize)
    ensures var es := ExactSizes(n, sizes, same);
      IallocDone(old(m.S()), m.S(), r, ps, es, arr, all, Total(es, n, chunks != null), clear, chunks != null)
    ensures r == CallersArray ==> chunks != null && GivenIn(chunks, ps, n)
    ensures r != Failed ==> |ps| > 0 && Picked(old(m.S()), old(m.dv), old(m.dvsize),
      Total(ExactSizes(n, sizes, same), n, chunks != null), ps[0])
  {
    hide SoundSt, Cover, DvOK, Shape, ChunkSize, Pinuse, Cinuse, NoFit, Total, PadRequest, Request2Size, Elements,
      Mspace.Rep, Picked, CutOff;
    ps, arr, all := [], 0, {};
    ghost var s0, es := m.S(), ExactSizes(n, sizes, same);
    var elementSize, contentsSize := ContentsSize(n, sizes, same);
    WrapSum(Sum(Requests(n, sizes, same)), arraySize);
    var size := (contentsSize + arraySize) % W32;
    var mem := MspaceMalloc(m, (size - 4) % W32);
    assert mem == 0 <==> Refused(s0, size);
    if mem == 0 {
      if Total(es, n, chunks != null) < W32 { AskedExactly(n, sizes, same, chunks != null); }
      return Failed, ps, arr, all;
    }
    AskedExactly(n, sizes, same, chunks != null);
    Aggregate(s0, m.S(), n, sizes, same, chunks != null, contentsSize, arraySize, mem - 8);
    r, ps, arr, all := IallocChunk(m, mem, n, elementSize, contentsSize, arraySize, sizes, clear, chunks, s0, es);
  }
  // the chunk malloc grants for an exact total
  lemma Aggregate(s0: St, s: St, n: nat, sizes: seq<nat>, same: bool, own: bool, contentsSize: int, arraySize: int,
    p: int)
    requires 0 < n < W32 && (forall i :: 0 <= i < |sizes| ==> sizes[i] < W32)
      && (if same then |sizes| > 0 else |sizes| == n)
    requires contentsSize == Sum(Requests(n, sizes, same)) % W32
      && arraySize == if own then 0 else Request2Size(4 * n % W32)
    requires Total(ExactSizes(n, sizes, same), n, own) < W32 && (Asked(n, sizes, same, own) - 4) % W32 < MAX_REQUEST
    requires Granted(s0, s, p, Request2Size((Asked(n, sizes, same, own) - 4) % W32))
    ensures var es := ExactSizes(n, sizes, same);
      && contentsSize == Sum(es)
        && (forall i ::
              0 <= i < n ==> 16 <= es[i] && es[i] % 8 == 0 && es[i] == Request2Size(sizes[if same then 0 else i]))
      && (if own then arraySize == 0 else arraySize >= 16 && arraySize >= 4 * n + 4 && arraySize % 8 == 0)
      && Extra(s0, s, {p}) && p in s.C && s.C[p].psize == 0
        && contentsSize + arraySize <= s.C[p].size < contentsSize + arraySize + 16
    ensures Request2Size((Asked(n, sizes, same, own) - 4) % W32) == Total(ExactSizes(n, sizes, same), n, own)
  {
    hide PadRequest, Request2Size;
    var es := ExactSizes(n, sizes, same);
    AskedExactly(n, sizes, same, own); ExactFits(n, sizes, same, own); SizesFit(es, n, own);
    WrapSmall(Sum(es)); WrapSmall(Total(es, n, own) - 4);
    if !own { WrapSmall(4 * n); }
    ExtraGranted(s0, s, p, Total(es, n, own));
  }
  lemma ExactFits(n: nat, sizes: seq<nat>, same: bool, own: bool)
    requires n > 0 && (if same then |sizes| > 0 else |sizes| == n) && (forall i :: 0 <= i < |sizes| ==> sizes[i] < W32)
    requires Total(ExactSizes(n, sizes, same), n, own) < W32
    ensures var es := ExactSizes(n, sizes, same);
            Sum(es) < W32
            && forall i ::
                 0 <= i < n ==> 16 <= es[i] && es[i] % 8 == 0 && es[i] == Request2Size(sizes[if same then 0 else i])
  {
    var es := ExactSizes(n, sizes, same);
    forall i | 0 <= i < n ensures 16 <= es[i] && es[i] % 8 == 0 && es[i] == Request2Size(sizes[if same then 0 else i]) {
      SumBound(es, i); SizeIsExact(sizes[if same then 0 else i]);
    }
  }

  // ---- sums that overflow ----

  // from piece j to the end of the row
  lemma {:induction false} RowEnd(C: Chunks, ps: seq<int>, es: seq<nat>, j: nat)
    requires Row(C, ps, es) && |ps| == |es| && j < |ps|
    ensures ps[|ps|-1] + es[|ps|-1] == ps[j] + Sum(es[j..])
    decreases |ps| - j
  {
    SumAt(es, j);
    if j + 1 < |ps| { RowEnd(C, ps, es, j + 1); assert Piece(C, ps, es, j); } else { assert es[j + 1..] == []; }
  }
  // What ialloc promises needs the exact total: no state holds the elements (and their array) if it is 2^32 or more ...
  lemma RoomNeeded(s0: St, s: St, dv: int, dvsize: int, ps: seq<int>, es: seq<nat>, arr: int, all: set<int>, zero: bool)
    requires Steady(s, dv, dvsize) && Elements(s0, s, ps, es, arr, all, zero)
    ensures Total(es, |es|, arr == 0) < W32
  {
    RowEnd(s.C, ps, es, 0);
    assert es[0..] == es;
    var p, q := ps[0], ps[|ps|-1];
    assert ChunkOK(s.C, q, s.base, s.top) && ChunkOK(s.C, arr, s.base, s.top) && ChunkOK(s.C, p, s.base, s.top);
    assert p in s.C by { if |ps| > 1 { assert Piece(s.C, ps, es, 0); } }
    if arr != 0 { ArrayRoom(|es|, s.C[arr].size); }
  }
  lemma ArrayRoom(n: nat, size: int)
    requires size >= 4 * n + 4 && size >= 16 && size % 8 == 0
    ensures ExactSize(4 * n) <= size
  {}
  // ... but malloc is asked for a chunk of Asked bytes: 16, the array's share alone, for 1073741824 elements of 12
  // bytes and an array of their addresses; and 16 for 268435457 elements and a caller's array.
  lemma WrappedRequest()
    ensures var n := 0x4000_0000; Total(ExactSizes(n, [12], true), n, false) >= W32 && Asked(n, [12], true, false) == 16
    ensures var n := 0x1000_0001;
            Total(ExactSizes(n, [12], true), n, true) == W32 + 16 && Asked(n, [12], true, true) == 16
  {
    hide ExactSizes, Requests, Sum;
    Twelves(0x1000_0001); Twelves(0x4000_0000);
    assert Request2Size(0) == 16;
  }
  // Any heap with more than 16 bytes in top grants the first of these requests, and none can keep the promise.
  lemma WrappedGranted(s: St)
    requires s.topsize > 16
    ensures !Refused(s, Asked(0x4000_0000, [12], true, false))
  {
    hide Asked;
    WrappedRequest();
    assert Request2Size(12) == 16;
  }
  lemma WrappedBroken(s0: St, s: St, dv: int, dvsize: int, ps: seq<int>, arr: int, all: set<int>, zero: bool)
    requires Steady(s, dv, dvsize) && arr != 0
    ensures !Elements(s0, s, ps, ExactSizes(0x4000_0000, [12], true), arr, all, zero)
  {
    var es := ExactSizes(0x4000_0000, [12], true);
    WrappedRequest();
    if Elements(s0, s, ps, es, arr, all, zero) { RoomNeeded(s0, s, dv, dvsize, ps, es, arr, all, zero); }
  }
  lemma Twelves(n: nat)
    ensures Sum(ExactSizes(n, [12], true)) == 16 * n && Sum(Requests(n, [12], true)) == 16 * n
  {
    SumSame(ExactSizes(n, [12], true), 16); SumSame(Requests(n, [12], true), 16);
  }
}
