/** Whole runs of the heap: clients that allocate, resize, free and write to their blocks see independent blocks. */
module Clients {
  import opened Words
  import opened Chunks
  import opened Bits
  import opened Mspaces
  import opened Retagging
  import opened Heap
  import opened Malloc
  import opened Freeing
  import opened Realloc
  import opened Carving
  import opened Calloc
  import opened Lives
  import opened Choices
  import opened Memalign
  import opened IndependentAlloc
  import opened Creation
  import opened Bytes

  // the blocks just handed out, with whatever is in them
  ghost function Fresh(s: St, ps: set<int>): Live {
    map x | x in ps && x in s.C && s.C[x].size >= 4 :: Block(s.mem, x, UsableWords(s.C[x].size))
  }
  lemma SameWords(m: Mem, m': Mem, C: Chunks, base: int, x: int, y: int)
    requires SamePayloadBut(m, m', C, base, y) && x in C && C[x].used && x != base && x != y && C[x].size >= 4
    ensures Block(m', x, UsableWords(C[x].size)) == Block(m, x, UsableWords(C[x].size))
  {
    var n := UsableWords(C[x].size);
    forall i | 0 <= i < n ensures Fld(m', x, 8 + 4 * i) == Fld(m, x, 8 + 4 * i) {
      var o := 8 + 4 * i;
      assert Fld(m', x, o) == Fld(m, x, o);
    }
    SameBlock(m, m', x, x, n);
  }
  lemma ReflectsExtra(s: St, s': St, live: Live, ps: set<int>)
    requires SoundSt(s) && SoundSt(s') && Reflects(s, live) && Extra(s, s', ps)
    ensures Reflects(s', live + Fresh(s', ps)) && live.Keys !! Fresh(s', ps).Keys
    ensures Fresh(s', ps).Keys == ps
  {
    var f := Fresh(s', ps);
    forall x | x in ps ensures x in f { UsedSize(s', x); }
    forall x | x in live ensures x !in f { assert OwnedAt(s, live, x); }
    var live' := live + f;
    forall x ensures OwnedAt(s', live', x) {
      assert OwnedAt(s, live, x);
      if x in ps {
        UsedSize(s', x);
      } else {
        if x in s.C && s.C[x].used {
          assert Used(s.C, x, s.C[x].size); assert Used(s'.C, x, s.C[x].size); UsedSize(s, x);
        }
        if x in s'.C && s'.C[x].used { assert Used(s'.C, x, s'.C[x].size); assert Used(s.C, x, s'.C[x].size); }
        if x in live { SameWords(s.mem, s'.mem, s.C, s.base, x, s.base); }
      }
    }
  }
  lemma ReflectsFreed(s: St, s': St, live: Live, x: int)
    requires SoundSt(s) && SoundSt(s') && Reflects(s, live) && Freed(s, s', x)
    ensures Reflects(s', live - {x})
  {
    var live' := live - {x};
    forall y ensures OwnedAt(s', live', y) {
      assert OwnedAt(s, live, y);
      if y != x {
        if y in s.C && s.C[y].used {
          assert Used(s.C, y, s.C[y].size); assert Used(s'.C, y, s.C[y].size); UsedSize(s, y);
        }
        if y in s'.C && s'.C[y].used { assert Used(s'.C, y, s'.C[y].size); assert Used(s.C, y, s'.C[y].size); }
        if y in live { SameWords(s.mem, s'.mem, s.C, s.base, y, x); }
      }
    }
  }
  ghost function Relocated(s': St, live: Live, p: int, q: int): Live requires q in s'.C && s'.C[q].size >= 4 {
    (live - {p})[q := Block(s'.mem, q, UsableWords(s'.C[q].size))]
  }
  lemma ReflectsMoved(s: St, s': St, live: Live, p: int, q: int, nb: int)
    requires SoundSt(s) && SoundSt(s') && Reflects(s, live) && Moved(s, s', p, q, nb) && p != s.base
    ensures q in s'.C && s'.C[q].size >= 16 && Reflects(s', Relocated(s', live, p, q))
  {
    UsedSize(s', q);
    var live' := Relocated(s', live, p, q);
    forall y ensures OwnedAt(s', live', y) {
      assert OwnedAt(s, live, y);
      if y != p && y != q {
        if y in s.C && s.C[y].used {
          assert Used(s.C, y, s.C[y].size); assert Used(s'.C, y, s.C[y].size); UsedSize(s, y);
        }
        if y in s'.C && s'.C[y].used { assert Used(s'.C, y, s'.C[y].size); assert Used(s.C, y, s'.C[y].size); }
        if y in live { SameWords(s.mem, s'.mem, s.C, s.base, y, p); }
      }
    }
  }
  lemma ReflectsWrite(s: St, live: Live, x: int, i: nat, v: int)
    requires SoundSt(s) && Reflects(s, live) && x in s.C && s.C[x].used && x != s.base && i < UsableWords(s.C[x].size)
    requires SamePayloadBut(s.mem, s.mem[x + (8 + 4 * i) := v], s.C, s.base, x)
    ensures x in live && i < |live[x]| && Reflects(s.(mem := s.mem[x + (8 + 4 * i) := v]), live[x := live[x][i := v]])
  {
    assert OwnedAt(s, live, x);
    var s' := s.(mem := s.mem[x + (8 + 4 * i) := v]);
    var live' := live[x := live[x][i := v]];
    forall y ensures OwnedAt(s', live', y) {
      assert OwnedAt(s, live, y);
      if y == x {
        assert live'[x] == Block(s'.mem, x, UsableWords(s.C[x].size));
      } else if y in live {
        UsedSize(s, y);
        SameWords(s.mem, s'.mem, s.C, s.base, y, x);
      }
    }
  }

  // ---- what a client can do, and what it may observe ----

  datatype Op =
    | Malloc(bytes: nat)
    | Calloc(n: nat, size: nat)
    | Memalign(alignment: nat, bytes: nat)
    | Realloc(mem: int, bytes: nat)
    | Free(mem: int)
    | IndependentCalloc(n: nat, size: nat, own: bool)
    | IndependentComalloc(sizes: seq<nat>, own: bool)
    | Read(mem: int, i: nat)
    | Write(mem: int, i: nat, v: word)
    | ReadByte(mem: int, i: nat)
    | WriteByte(mem: int, i: nat, octet: byte)
    | Trim(pad: nat)

  // Arguments the calls are specified for, on a heap of the given capacity. Beyond 2^31 memalign would not return.
  ghost predicate Legal(op: Op, capacity: int) {
    match op
    case Malloc(b) => b < W32
    case Calloc(n, size) => n < W32 && size < W32
    case Memalign(a, b) => a <= 0x8000_0000 && b < W32
    case Realloc(_, b) => b < W32
    case Free(_) => true
    case IndependentCalloc(n, size, own) => size < W32 && CanTotal(seq(n, i => size), own, capacity)
    case IndependentComalloc(sizes, own) => CanTotal(sizes, own, capacity)
    case Read(_, _) => true
    case Write(_, _, _) => true
    case ReadByte(_, _) => true
    case WriteByte(_, _, _) => true
    case Trim(pad) => pad < W32
  }
  // The total is a number of 32 bits, or what is asked for instead is larger than any request or than the heap.
  ghost predicate CanTotal(sizes: seq<nat>, own: bool, capacity: int) {
    && |sizes| < W32 && (forall i :: 0 <= i < |sizes| ==> sizes[i] < W32)
    && (sizes != [] ==>
          || Total(ExactSizes(|sizes|, sizes, false), |sizes|, own) < W32
          || TooMuch(Asked(|sizes|, sizes, false, own), capacity))
  }
  ghost predicate TooMuch(size: int, capacity: int) {
    var bytes := (size - 4) % W32; bytes >= MAX_REQUEST || Request2Size(bytes) > capacity
  }
  lemma MuchRefused(s: St, size: int)
    requires SoundSt(s) && TooMuch(size, s.end - s.base)
    ensures Refused(s, size)
  {
    forall q | q in s.C && !s.C[q].used ensures s.C[q].size <= s.end - s.base { assert ChunkOK(s.C, q, s.base, s.top); }
    assert ChunkOK(s.C, s.base, s.base, s.top);
  }
  // byte i of a block
  function Octet(words: seq<int>, i: nat): byte requires i < 4 * |words| { DwordBytes(words[i / 4] % TWO32)[i % 4] }
  ghost predicate OneOctet(words: seq<int>, words': seq<int>, i: nat, v: byte) {
    && |words'| == |words|
    && forall j: nat {:trigger Octet(words', j)} ::
         j < 4 * |words| ==> Octet(words', j) == if j == i then v else Octet(words, j)
  }
  // the value of a call, and the addresses in the caller's array after it
  datatype Reply = Reply(value: int, given: seq<int>)
  // one block more, of at least so many bytes; all others as they were
  ghost predicate OneNew(live: Live, live': Live, mem: int, bytes: nat) {
    mem - 8 !in live && mem - 8 in live' && live' == live[mem - 8 := live'[mem - 8]] && 4 * |live'[mem - 8]| >= bytes
  }
  ghost predicate ZeroWords(w: seq<int>, n: nat) { |w| >= n && forall i :: 0 <= i < n ==> w[i] == 0 }
  // Blocks for all the sizes, at the addresses in ps, in that order; besides these only the chunks in extra are new.
  ghost predicate NewBlocks(live: Live, live': Live, ps: seq<int>, sizes: seq<nat>, clear: bool, extra: set<int>) {
    && live.Keys <= live'.Keys && (forall x :: x in live ==> live'[x] == live[x])
    && |ps| >= |sizes|
    && (forall j :: 0 <= j < |sizes| ==> NewElement(live, live', ps[j], sizes[j], clear))
    && (forall j, k :: 0 <= j < k < |sizes| ==> ps[j] < ps[k])
    && (forall x :: x in live' ==> x in live || x in extra || ListsBlock(ps[..|sizes|], x))
  }
  // one more block holds the array of the addresses, unless the caller has one
  ghost predicate ManyNew(live: Live, live': Live, r: Reply, sizes: seq<nat>, clear: bool, own: bool) {
    if own
    then |r.given| == |sizes| && NewBlocks(live, live', r.given, sizes, clear, {})
    else r.value - 8 in live' && r.value - 8 !in live
         && NewBlocks(live, live', live'[r.value - 8], sizes, clear, {r.value - 8})
  }
  ghost predicate ListsBlock(ps: seq<int>, x: int) { x + 8 in ps }
  ghost predicate NewElement(live: Live, live': Live, a: int, size: nat, clear: bool) {
    a - 8 in live' && a - 8 !in live && 4 * |live'[a - 8]| >= size
      && (clear ==> ZeroWords(live'[a - 8], |live'[a - 8]|))
  }
  // What one call does to the live blocks of a heap from base to end, and what it returns: it fails exactly if there is
  // no room. Calls on blocks that are not live are not made.
  ghost predicate Step(live: Live, op: Op, reply: Reply, live': Live, base: int, end: int) {
    var r := reply.value;
    match op
    case Malloc(b) => if NoRoom(live, base, end, b) then r == 0 && live' == live else OneNew(live, live', r, b)
    case Calloc(n, size) =>
      if NoRoom(live, base, end, n * size) then r == 0 && live' == live
      else OneNew(live, live', r, n * size) && ZeroWords(live'[r - 8], n * size / 4)
    case Memalign(a, b) =>
      if a <= 8 then if NoRoom(live, base, end, b) then r == 0 && live' == live else OneNew(live, live', r, b)
      else exists p :: RoundedTo(a, p) && AlignedStep(live, b, p, r, live', base, end)
    case Realloc(mem, b) =>
      if mem == 0 then if NoRoom(live, base, end, b) then r == 0 && live' == live else OneNew(live, live', r, b)
      else if mem - 8 !in live then r == 0 && live' == live
      else ResizeStep(live, mem, b, r, live', base, end)
    case Free(mem) => r == 0 && live' == live - {mem - 8}
    case IndependentCalloc(n, size, own) => StepMany(live, seq(n, i => size), true, own, reply, live', base, end)
    case IndependentComalloc(sizes, own) => StepMany(live, sizes, false, own, reply, live', base, end)
    case Read(mem, i) =>
      live' == live && r == if mem - 8 in live && i < |live[mem - 8]| then live[mem - 8][i] else 0
    case ReadByte(mem, i) =>
      live' == live && r == if mem - 8 in live && i < 4 * |live[mem - 8]| then Octet(live[mem - 8], i) as int else 0
    case WriteByte(mem, i, v) =>
      r == 0
      && if mem - 8 in live && i < 4 * |live[mem - 8]|
         then mem - 8 in live' && live' == live[mem - 8 := live'[mem - 8]]
              && OneOctet(live[mem - 8], live'[mem - 8], i, v)
         else live' == live
    case Trim(_) => live' == live && r == 0
    case Write(mem, i, v) =>
      r == 0
      && live' == if mem - 8 in live && i < |live[mem - 8]| then live[mem - 8 := live[mem - 8][i := v]] else live
  }
  // memalign asks for the alignment and 16 bytes more than it needs
  ghost predicate AlignedStep(live: Live, b: nat, p: int, r: int, live': Live, base: int, end: int) {
    b >= 0 && p > 0
    && var nb := Request2Size(b);
       if b >= MAX_REQUEST - p || AlignRequest(nb, p) >= MAX_REQUEST || !HasRoom(live, base, end, nb + p + 16)
       then r == 0 && live' == live
       else OneNew(live, live', r, b) && r % p == 0
  }
  // the block stays where it is if it can, and keeps its words as far as both sizes reach
  ghost predicate ResizeStep(live: Live, mem: int, b: nat, r: int, live': Live, base: int, end: int)
    requires mem - 8 in live
  {
    var stays := b < MAX_REQUEST && CanStay(live, end, mem - 8, Request2Size(b));
    if !stays && NoRoom(live, base, end, b) then r == 0 && live' == live
    else
      && OneNew(live - {mem - 8}, live', r, b) && (r == mem <==> stays)
      && var n := Min(|live[mem - 8]|, |live'[r - 8]|); live'[r - 8][..n] == live[mem - 8][..n]
  }
  ghost predicate StepMany(live: Live, sizes: seq<nat>, clear: bool, own: bool, reply: Reply, live': Live, base: int,
    end: int)
  {
    if ManyFail(live, sizes, own, base, end) then reply.value == 0 && live' == live
    else reply.value != 0 && ManyNew(live, live', reply, sizes, clear, own)
  }
  // all the elements and their array take one chunk
  ghost predicate ManyFail(live: Live, sizes: seq<nat>, own: bool, base: int, end: int) {
    if sizes == [] then !own && NoRoom(live, base, end, 0)
    else
      var total := Total(ExactSizes(|sizes|, sizes, false), |sizes|, own);
      total - 4 >= MAX_REQUEST || !HasRoom(live, base, end, total)
  }
  // live blocks are aligned, lie in the region, and none reaches into another
  ghost predicate InPlace(live: Live, base: int, end: int) {
    && (forall a :: a in live ==> a % 8 == 0 && base + HEADER <= a && a + 8 + 4 * |live[a]| <= end)
    && (forall a, b :: a in live && b in live && a < b ==> a + 8 + 4 * |live[a]| <= b + 4)
  }
  lemma ReflectsInPlace(s: St, live: Live)
    requires SoundSt(s) && Reflects(s, live)
    ensures InPlace(live, s.base, s.end)
  {
    forall a | a in live ensures a % 8 == 0 && s.base + HEADER <= a && a + 8 + 4 * |live[a]| <= s.end {
      assert OwnedAt(s, live, a);
      ChunkEdge(s, a); UsedSize(s, a);
    }
    forall a, b | a in live && b in live && a < b ensures a + 8 + 4 * |live[a]| <= b + 4 {
      assert OwnedAt(s, live, a) && OwnedAt(s, live, b) && Sep(s.C, a, b);
      UsedSize(s, a);
    }
  }
  // ---- running the calls ----

  ghost predicate Runs(m: Mspace, live: Live, owned: set<int>)
    reads m, m.words
  {
    Valid(m) && Reflects(m.S(), live) && owned == live.Keys
  }
  lemma NewBlock(s: St, s': St, live: Live, p: int, bytes: nat)
    requires SoundSt(s) && SoundSt(s') && Reflects(s, live) && Extra(s, s', {p}) && p in s'.C
      && s'.C[p].size >= bytes + 4
    ensures var live' := live + Fresh(s', {p});
      Reflects(s', live') && OneNew(live, live', p + 8, bytes) && live'.Keys == live.Keys + {p}
        && live'[p] == Block(s'.mem, p, UsableWords(s'.C[p].size))
  {
    ReflectsExtra(s, s', live, {p});
    UsedSize(s', p);
    var live' := live + Fresh(s', {p});
    assert p in Fresh(s', {p});
    assert live' == live[p := live'[p]];
  }
  method DoMalloc(m: Mspace, bytes: nat, ghost live: Live, owned: set<int>)
    returns (r: int, ghost live': Live, owned': set<int>)
    requires Runs(m, live, owned) && bytes < W32
    modifies m, m.words
    ensures Runs(m, live', owned') && Step(live, Malloc(bytes), Reply(r, []), live', m.base, m.base + m.capacity)
  {
    ghost var s := m.S();
    RoomFor(s, live, bytes);
    r := MspaceMalloc(m, bytes);
    live', owned' := live, owned;
    if r != 0 {
      RequestSize(bytes);
      ExtraGranted(s, m.S(), r - 8, Request2Size(bytes));
      NewBlock(s, m.S(), live, r - 8, bytes);
      live', owned' := live + Fresh(m.S(), {r - 8}), owned + {r - 8};
    }
  }
  lemma NoNegative(n: nat, size: nat) ensures n * size >= 0 {}
  method DoCalloc(m: Mspace, n: nat, size: nat, ghost live: Live, owned: set<int>)
    returns (r: int, ghost live': Live, owned': set<int>)
    requires Runs(m, live, owned) && n < W32 && size < W32
    modifies m, m.words
    ensures Runs(m, live', owned') && Step(live, Op.Calloc(n, size), Reply(r, []), live', m.base, m.base + m.capacity)
  {
    ghost var s := m.S();
    NoNegative(n, size); RoomFor(s, live, n * size);
    r := MspaceCalloc(m, n, size);
    live', owned' := live, owned;
    if r != 0 {
      RequestSize(n * size);
      ExtraGranted(s, m.S(), r - 8, Request2Size(n * size));
      NewBlock(s, m.S(), live, r - 8, n * size);
      live', owned' := live + Fresh(m.S(), {r - 8}), owned + {r - 8};
      ghost var w := live'[r - 8];
      forall i | 0 <= i < n * size / 4 ensures w[i] == 0 { assert ZeroWord(m.mem, r - 8, i); }
    }
  }
  method DoMemalign(m: Mspace, alignment: nat, bytes: nat, ghost live: Live, owned: set<int>)
    returns (r: int, ghost live': Live, owned': set<int>)
    requires Runs(m, live, owned) && alignment <= 0x8000_0000 && bytes < W32
    modifies m, m.words
    ensures Runs(m, live', owned')
    ensures Step(live, Op.Memalign(alignment, bytes), Reply(r, []), live', m.base, m.base + m.capacity)
  {
    hide NoFit, HasRoom, AlignedPlace, NewPlace, Mspace.Rep, Cover, DvOK, Extra, RoundedTo;
    ghost var s := m.S();
    ghost var dv, dvsize := m.dv, m.dvsize;
    RoomFor(s, live, bytes);
    r := InternalMemalign(m, alignment, bytes);
    live', owned' := live, owned;
    if r != 0 {
      RequestSize(bytes);
      if alignment <= 8 { ExtraGranted(s, m.S(), r - 8, Request2Size(bytes)); }
      NewBlock(s, m.S(), live, r - 8, bytes);
      live', owned' := live + Fresh(m.S(), {r - 8}), owned + {r - 8};
    }
    if alignment > 8 {
      ghost var a :| RoundedTo(alignment, a) && AlignOutcome(s, dv, dvsize, m.S(), bytes, a, r);
      AlignedRoom(s, live, bytes, a);
      assert AlignedStep(live, bytes, a, r, live', m.base, m.base + m.capacity);
    }
  }
  lemma AlignedRoom(s: St, live: Live, bytes: nat, a: int)
    requires SoundSt(s) && Reflects(s, live) && 16 <= a
    ensures bytes < MAX_REQUEST - a ==>
      (NoFit(s, Request2Size(bytes) + a + 16) <==> !HasRoom(live, s.base, s.end, Request2Size(bytes) + a + 16))
  {
    if bytes < MAX_REQUEST - a { RequestSize(bytes); RoomIs(s, live, Request2Size(bytes) + a + 16); }
  }
  method DoRealloc(m: Mspace, mem: int, bytes: nat, ghost live: Live, owned: set<int>)
    returns (r: int, ghost live': Live, owned': set<int>)
    requires Runs(m, live, owned) && bytes < W32
    modifies m, m.words
    ensures Runs(m, live', owned')
    ensures Step(live, Op.Realloc(mem, bytes), Reply(r, []), live', m.base, m.base + m.capacity)
  {
    hide NoFit, HasRoom, CanStay, StaysHere, NewPlace, Moved, NoRoom, Mspace.Rep, Cover, DvOK;
    ghost var s := m.S();
    r, live', owned' := 0, live, owned;
    if mem == 0 {
      r, live', owned' := DoMalloc(m, bytes, live, owned);
    } else if mem - 8 in owned {
      assert OwnedAt(s, live, mem - 8);
      RoomFor(s, live, bytes);
      if bytes < MAX_REQUEST { RequestSize(bytes); StayIs(s, live, mem - 8, Request2Size(bytes)); }
      r := MspaceRealloc(m, mem, bytes);
      if r != 0 {
        RequestSize(bytes);
        ReflectsMoved(s, m.S(), live, mem - 8, r - 8, Request2Size(bytes));
        MovedStep(s, m.S(), live, mem - 8, r - 8, bytes);
        live', owned' := Relocated(m.S(), live, mem - 8, r - 8), (owned - {mem - 8}) + {r - 8};
      }
    }
  }
  lemma MovedStep(s: St, s': St, live: Live, p: int, q: int, bytes: nat)
    requires SoundSt(s) && SoundSt(s') && Reflects(s, live) && bytes < MAX_REQUEST
      && Moved(s, s', p, q, Request2Size(bytes)) && p != s.base
    requires q in s'.C && s'.C[q].size >= 16
    ensures var live' := Relocated(s', live, p, q);
      p in live && OneNew(live - {p}, live', q + 8, bytes) && live'.Keys == live.Keys - {p} + {q}
      && var n := Min(|live[p]|, |live'[q]|); live'[q][..n] == live[p][..n]
  {
    hide SoundSt, Request2Size, UsedBut, SamePayloadBut, UsableWords;
    UsedSize(s', q); UsedSize(s, p);
    WordsHold(s'.C[q].size, bytes);
    assert OwnedAt(s, live, p) && OwnedAt(s, live, q);
    var live' := Relocated(s', live, p, q);
    assert live' == (live - {p})[q := live'[q]];
    WordsMin(s.C[p].size, s'.C[q].size);
    var n := Min(|live[p]|, |live'[q]|);
    assert Block(s'.mem, q, n) == Block(s.mem, p, n);
    assert live'[q][..n] == Block(s'.mem, q, n) && live[p][..n] == Block(s.mem, p, n);
  }
  lemma WordsHold(size: int, bytes: nat)
    requires bytes < MAX_REQUEST && size >= Request2Size(bytes) && size % 8 == 0
    ensures 4 * UsableWords(size) >= bytes
  {
    RequestSize(bytes);
  }
  lemma WordsMin(a: int, b: int)
    ensures UsableWords(Min(a, b)) == Min(UsableWords(a), UsableWords(b))
  {}
  method DoFree(m: Mspace, mem: int, ghost live: Live, owned: set<int>) returns (ghost live': Live, owned': set<int>)
    requires Runs(m, live, owned)
    modifies m, m.words
    ensures Runs(m, live', owned') && Step(live, Op.Free(mem), Reply(0, []), live', m.base, m.base + m.capacity)
  {
    ghost var s := m.S();
    live', owned' := live - {mem - 8}, owned - {mem - 8};
    if mem - 8 in owned {
      assert OwnedAt(s, live, mem - 8);
      NotAtZero(s, mem - 8);
      MspaceFree(m, mem);
      ReflectsFreed(s, m.S(), live, mem - 8);
    } else {
      assert live' == live;
    }
  }
  lemma NotAtZero(s: St, p: int)
    requires SoundSt(s) && p in s.C
    ensures p + 8 != 0
  {
    assert ChunkOK(s.C, p, s.base, s.top);
  }
  lemma ElementFacts(s0: St, s: St, ps: seq<int>, es: seq<nat>, arr: int, all: set<int>, zero: bool, j: nat)
    requires Elements(s0, s, ps, es, arr, all, zero) && SoundSt(s) && j < |es|
      && forall k :: 0 <= k < |es| ==> es[k] > 0
    ensures ps[j] in all && ps[j] in s.C && s.C[ps[j]].size >= es[j] && UsableWords(s.C[ps[j]].size) >= 0
    ensures zero ==> ZeroTo(s.mem, ps[j], UsableWords(s.C[ps[j]].size))
    ensures arr != 0 ==> Fld(s.mem, arr, 8 + 4 * j) == ps[j] + 8
    ensures forall k :: j < k < |es| ==> ps[j] < ps[k]
  {
    assert Piece(s.C, ps, es, j);
    assert zero ==> ClearAt(s.mem, ps, es, j);
    assert arr != 0 ==> NotedAt(s.mem, arr, ps, j);
    assert ps[j] in ps;
    UsedSize(s, ps[j]);
    forall k | j < k < |es| ensures ps[j] < ps[k] { RowRises(s.C, ps, es, j, k); }
  }
  // x is a new block, with the words it has in memory
  ghost predicate FreshAt(s: St, live: Live, live': Live, x: int) {
    x in live' && x !in live && x in s.C && UsableWords(s.C[x].size) >= 0
      && live'[x] == Block(s.mem, x, UsableWords(s.C[x].size))
  }
  ghost predicate AllFresh(s: St, live: Live, live': Live, all: set<int>) {
    forall x {:trigger FreshAt(s, live, live', x)} :: x in all ==> FreshAt(s, live, live', x)
  }
  // element j, as its owner sees it
  lemma ElementNew(s0: St, s: St, live: Live, live': Live, ps: seq<int>, es: seq<nat>, arr: int,
    all: set<int>, clear: bool, j: nat, size: nat)
    requires Elements(s0, s, ps, es, arr, all, clear) && SoundSt(s) && j < |es|
      && (forall k :: 0 <= k < |es| ==> es[k] > 0) && es[j] >= size + 4
    requires AllFresh(s, live, live', all)
    ensures NewElement(live, live', ps[j] + 8, size, clear)
  {
    hide SoundSt, Extra, Row, ExactSize, Noted;
    ElementFacts(s0, s, ps, es, arr, all, clear, j);
    assert FreshAt(s, live, live', ps[j]);
    UsedSize(s, ps[j]);
    var b := live'[ps[j]];
    if clear { forall i | 0 <= i < |b| ensures b[i] == 0 { assert ZeroWord(s.mem, ps[j], i); } }
  }
  // its address in the array that was allocated
  lemma AddressListed(s0: St, s: St, live: Live, live': Live, ps: seq<int>, es: seq<nat>, arr: int,
    all: set<int>, clear: bool, j: nat)
    requires Elements(s0, s, ps, es, arr, all, clear) && SoundSt(s) && j < |es|
      && (forall k :: 0 <= k < |es| ==> es[k] > 0) && arr != 0
    requires AllFresh(s, live, live', all)
    ensures arr in live' && j < |live'[arr]| && live'[arr][j] == ps[j] + 8
  {
    ElementFacts(s0, s, ps, es, arr, all, clear, j);
    assert FreshAt(s, live, live', arr);
    UsedSize(s, arr);
  }
  lemma ManyFresh(s0: St, s: St, live: Live, all: set<int>)
    requires SoundSt(s0) && SoundSt(s) && Reflects(s0, live) && Extra(s0, s, all)
    ensures var live' := live + Fresh(s, all);
      && Reflects(s, live') && live'.Keys == live.Keys + all && (forall x :: x in live ==> live'[x] == live[x])
        && AllFresh(s, live, live', all)
  {
    ReflectsExtra(s0, s, live, all);
    var live' := live + Fresh(s, all);
    forall x | x in all ensures FreshAt(s, live, live', x) {
      UsedSize(s, x);
      assert x in Fresh(s, all);
    }
  }
  ghost predicate ExactAll(es: seq<nat>, sizes: seq<nat>) {
    |es| == |sizes| && forall k :: 0 <= k < |es| ==> es[k] == ExactSize(sizes[k])
  }
  // w is the array of addresses, wherever it is
  lemma ManyBlocks(s0: St, s: St, live: Live, ps: seq<int>, es: seq<nat>, sizes: seq<nat>, arr: int,
    all: set<int>, clear: bool, w: seq<int>)
    requires SoundSt(s0) && SoundSt(s) && Reflects(s0, live) && ExactAll(es, sizes)
      && Elements(s0, s, ps, es, arr, all, clear)
    requires |w| >= |es| && forall j :: 0 <= j < |es| ==> w[j] == ps[j] + 8
    ensures var live' := live + Fresh(s, all);
            Reflects(s, live') && NewBlocks(live, live', w, sizes, clear, if arr == 0 then {} else {arr})
  {
    hide SoundSt, Fresh, Reflects, NewElement;
    ManyFresh(s0, s, live, all);
    var live' := live + Fresh(s, all);
    forall j | 0 <= j < |sizes| ensures NewElement(live, live', w[j], sizes[j], clear) {
      ElementNew(s0, s, live, live', ps, es, arr, all, clear, j, sizes[j]);
    }
    OrderedBlocks(s0, s, w, ps, es, arr, all, clear);
    forall x | x in live' ensures x in live || (x == arr && arr != 0) || ListsBlock(w[..|sizes|], x) {
      if x in all && !(x == arr && arr != 0) { AtIndex(w[..|sizes|], ps, x); }
    }
  }
  // the array as the heap's own block
  lemma ArrayBlock(s0: St, s: St, live: Live, ps: seq<int>, es: seq<nat>, arr: int, all: set<int>, clear: bool)
    requires SoundSt(s0) && SoundSt(s) && Reflects(s0, live) && Elements(s0, s, ps, es, arr, all, clear) && arr != 0
      && forall k :: 0 <= k < |es| ==> es[k] > 0
    ensures var live' := live + Fresh(s, all);
      arr + 8 != 0 && arr in live' && arr !in live && |live'[arr]| >= |es|
        && forall j :: 0 <= j < |es| ==> live'[arr][j] == ps[j] + 8
  {
    ManyFresh(s0, s, live, all);
    var live' := live + Fresh(s, all);
    NotAtZero(s, arr);
    assert arr in all && FreshAt(s, live, live', arr);
    forall j | 0 <= j < |es| ensures j < |live'[arr]| && live'[arr][j] == ps[j] + 8 {
      AddressListed(s0, s, live, live', ps, es, arr, all, clear, j);
    }
    assert |es| - 1 < |live'[arr]|;
  }
  lemma OrderedBlocks(s0: St, s: St, w: seq<int>, ps: seq<int>, es: seq<nat>, arr: int, all: set<int>, clear: bool)
    requires Elements(s0, s, ps, es, arr, all, clear) && (forall k :: 0 <= k < |es| ==> es[k] > 0)
    requires |w| >= |es| && forall j :: 0 <= j < |es| ==> w[j] == ps[j] + 8
    ensures forall j, k :: 0 <= j < k < |es| ==> w[j] < w[k]
  {
    forall j, k | 0 <= j < k < |es| ensures w[j] < w[k] { RowRises(s.C, ps, es, j, k); }
  }
  lemma AtIndex(w: seq<int>, ps: seq<int>, x: int)
    requires |w| == |ps| && (forall j :: 0 <= j < |ps| ==> w[j] == ps[j] + 8) && x in ps
    ensures ListsBlock(w, x)
  {
    var j :| 0 <= j < |ps| && ps[j] == x;
    assert w[j] == x + 8;
  }
  // independent_calloc, with one size and bit 0 and bit 1 of opts set, and independent_comalloc
  method DoIndependent(m: Mspace, sizes: seq<nat>, same: bool, own: bool, ghost live: Live, owned: set<int>)
    returns (reply: Reply, ghost live': Live, owned': set<int>)
    requires Runs(m, live, owned) && CanTotal(sizes, own, m.capacity)
      && (same ==> forall j :: 0 <= j < |sizes| ==> sizes[j] == sizes[0])
    modifies m, m.words
    ensures Runs(m, live', owned') && StepMany(live, sizes, same, own, reply, live', m.base, m.base + m.capacity)
  {
    var chunks: array?<word> := null;
    if own { chunks := new word[|sizes|]; }
    reply, live' := IndependentBlocks(m, sizes, same, chunks, live);
    owned' := OwnedSet(m, live');
  }
  lemma SizesAgree(sizes: seq<nat>, same: bool)
    requires same ==> forall j :: 0 <= j < |sizes| ==> sizes[j] == sizes[0]
    ensures var given := if same then sizes[..Min(1, |sizes|)] else sizes;
      (if same then |sizes| > 0 ==> |given| > 0 else |given| == |sizes|)
        && ExactSizes(|sizes|, given, same) == ExactSizes(|sizes|, sizes, false)
    ensures ExactAll(ExactSizes(|sizes|, sizes, false), sizes)
    ensures var given := if same then sizes[..Min(1, |sizes|)] else sizes;
      forall own :: Asked(|sizes|, given, same, own) == Asked(|sizes|, sizes, false, own)
  {
    var given := if same then sizes[..Min(1, |sizes|)] else sizes;
    assert ExactSizes(|sizes|, given, same) == ExactSizes(|sizes|, sizes, false);
    assert Requests(|sizes|, given, same) == Requests(|sizes|, sizes, false);
  }
  method IndependentBlocks(m: Mspace, sizes: seq<nat>, same: bool, chunks: array?<word>, ghost live: Live)
    returns (reply: Reply, ghost live': Live)
    requires Valid(m) && Reflects(m.S(), live) && CanTotal(sizes, chunks != null, m.capacity)
      && (same ==> forall j :: 0 <= j < |sizes| ==> sizes[j] == sizes[0])
    requires chunks != null ==> chunks.Length == |sizes| && chunks != m.words
    modifies m, m.words, chunks
    ensures Valid(m) && Reflects(m.S(), live')
    ensures StepMany(live, sizes, same, chunks != null, reply, live', m.base, m.base + m.capacity)
  {
    hide Elements, Total, SoundSt, ExactSizes, ExactAll, Mspace.Rep, Reflects, Fresh, ManyNew, Extra;
    hide Granted, NoFit, Asked, Refused, TooMuch;
    ghost var s, es := m.S(), ExactSizes(|sizes|, sizes, false);
    SizesAgree(sizes, same); ManyRoom(s, live, sizes, chunks != null);
    if sizes != [] && TooMuch(Asked(|sizes|, sizes, false, chunks != null), m.capacity) {
      MuchRefused(s, Asked(|sizes|, sizes, false, chunks != null));
    }
    ghost var ps, arr, all;
    var out;
    out, ps, arr, all := Ialloc(m, |sizes|,
      if same then sizes[..Min(1, |sizes|)] else sizes, if same then 3 else 0, chunks);
    reply, live' := Reply(0, []), live;
    if out.InHeap? {
      reply := Reply(out.mem, []);
      if sizes == [] {
        EmptyArray(s, m.S(), live, out.mem, same);
        live' := live + Fresh(m.S(), {out.mem - 8});
      } else {
        HeapArray(s, m.S(), live, ps, es, sizes, arr, all, same);
        live' := live + Fresh(m.S(), all);
      }
    } else if out.CallersArray? {
      reply := Reply(1, chunks[..]);
      if sizes == [] {
        NoneNew(live, same);
      } else {
        OwnArray(s, m.S(), live, ps, es, sizes, all, same, reply.given);
        live' := live + Fresh(m.S(), all);
      }
    }
  }
  lemma ManyRoom(s: St, live: Live, sizes: seq<nat>, own: bool)
    requires SoundSt(s) && Reflects(s, live)
    ensures ManyFail(live, sizes, own, s.base, s.end) <==>
      if sizes == [] then !own && NoFit(s, 16)
      else var total := Total(ExactSizes(|sizes|, sizes, false), |sizes|, own);
        total - 4 >= MAX_REQUEST || NoFit(s, total)
  {
    hide NoFit, HasRoom;
    if sizes == [] { RoomFor(s, live, 0); } else {
      var es := ExactSizes(|sizes|, sizes, false);
      assert es[0] >= 16;
      SumBound(es, 0);
      RoomIs(s, live, Total(es, |sizes|, own));
    }
  }
  lemma EmptyArray(s0: St, s: St, live: Live, r: int, clear: bool)
    requires SoundSt(s0) && SoundSt(s) && Reflects(s0, live) && Granted(s0, s, r - 8, 16)
    ensures var live' := live + Fresh(s, {r - 8});
            Reflects(s, live') && ManyNew(live, live', Reply(r, []), [], clear, false)
  {
    ExtraGranted(s0, s, r - 8, 16);
    ManyFresh(s0, s, live, {r - 8});
    assert FreshAt(s, live, live + Fresh(s, {r - 8}), r - 8);
  }
  lemma NoneNew(live: Live, clear: bool) ensures ManyNew(live, live, Reply(1, []), [], clear, true) {}
  lemma HeapArray(s0: St, s: St, live: Live, ps: seq<int>, es: seq<nat>, sizes: seq<nat>, arr: int,
    all: set<int>, clear: bool)
    requires SoundSt(s0) && SoundSt(s) && Reflects(s0, live) && ExactAll(es, sizes)
      && Elements(s0, s, ps, es, arr, all, clear) && arr != 0
    ensures var live' := live + Fresh(s, all);
            Reflects(s, live') && ManyNew(live, live', Reply(arr + 8, []), sizes, clear, false) && arr + 8 != 0
  {
    hide Elements, ExactSize, SoundSt;
    ExactPositive(es, sizes);
    ArrayBlock(s0, s, live, ps, es, arr, all, clear);
    ManyBlocks(s0, s, live, ps, es, sizes, arr, all, clear, (live + Fresh(s, all))[arr]);
  }
  lemma ExactPositive(es: seq<nat>, sizes: seq<nat>)
    requires ExactAll(es, sizes)
    ensures forall k :: 0 <= k < |es| ==> es[k] > 0
  {}
  lemma OwnArray(s0: St, s: St, live: Live, ps: seq<int>, es: seq<nat>, sizes: seq<nat>,
    all: set<int>, clear: bool, w: seq<int>)
    requires SoundSt(s0) && SoundSt(s) && Reflects(s0, live) && ExactAll(es, sizes)
      && Elements(s0, s, ps, es, 0, all, clear)
    requires |w| == |es| && forall j :: 0 <= j < |es| ==> w[j] == ps[j] + 8
    ensures var live' := live + Fresh(s, all);
            Reflects(s, live') && ManyNew(live, live', Reply(1, w), sizes, clear, true)
  {
    ManyBlocks(s0, s, live, ps, es, sizes, 0, all, clear, w);
  }
  // the driver's own list of the blocks, read off the heap
  method OwnedSet(m: Mspace, ghost live: Live) returns (owned: set<int>)
    requires Valid(m) && Reflects(m.S(), live)
    ensures owned == live.Keys
  {
    ghost var s := m.S();
    assert ChunkOK(s.C, s.base, s.base, s.top);
    ReflectsInPlace(s, live);
    owned := {};
    HeadIs(s, m.base);
    var q := m.base + ChunkSize(m.Get(m.base, HEAD));
    while q != m.top
      invariant m.base + HEADER <= q <= m.top && (q == m.top || q in m.C)
      invariant forall x :: x in owned <==> x in live && x < q
      decreases m.top - q
    {
      HeadIs(s, q);
      assert OwnedAt(s, live, q) && ChunkOK(s.C, q, s.base, s.top);
      var head := m.Get(q, HEAD);
      if Cinuse(head) { owned := owned + {q}; }
      NoneBetween(s, live, q);
      q := q + ChunkSize(head);
    }
    forall x | x in live ensures x < q { assert OwnedAt(s, live, x) && ChunkOK(s.C, x, s.base, s.top); }
    assert forall x :: x in owned <==> x in live.Keys;
  }
  lemma NoneBetween(s: St, live: Live, q: int)
    requires SoundSt(s) && Reflects(s, live) && q in s.C
    ensures forall x :: x in live && x < q + s.C[q].size ==> x <= q
  {
    forall x | x in live && x < q + s.C[q].size ensures x <= q { assert OwnedAt(s, live, x) && Sep(s.C, q, x); }
  }
  method DoRead(m: Mspace, mem: int, i: nat, ghost live: Live, owned: set<int>) returns (r: int)
    requires Runs(m, live, owned)
    ensures Step(live, Op.Read(mem, i), Reply(r, []), live, m.base, m.base + m.capacity)
  {
    ghost var s := m.S();
    r := 0;
    if mem - 8 in owned {
      var p := mem - 8;
      BlockWords(s, live, p);
      var n := UsableWords(ChunkSize(m.Get(p, HEAD)));
      if i < n {
        ChunkAddr(s, p, 8 + 4 * i);
        r := m.Get(p, 8 + 4 * i);
      }
    }
  }
  lemma BlockWords(s: St, live: Live, p: int)
    requires SoundSt(s) && Reflects(s, live) && p in live
    ensures p in s.C && s.C[p].used && p != s.base && IsAddr(p, HEAD, s.base, s.end)
      && ChunkSize(Fld(s.mem, p, HEAD)) == s.C[p].size
    ensures UsableWords(s.C[p].size) == |live[p]| && live[p] == Block(s.mem, p, |live[p]|)
  {
    assert OwnedAt(s, live, p);
    HeadIs(s, p);
  }
  method DoWrite(m: Mspace, mem: int, i: nat, v: word, ghost live: Live, owned: set<int>) returns (ghost live': Live)
    requires Runs(m, live, owned)
    modifies m, m.words
    ensures Runs(m, live', owned) && Step(live, Op.Write(mem, i, v), Reply(0, []), live', m.base, m.base + m.capacity)
  {
    ghost var s := m.S();
    live' := live;
    if mem - 8 in owned {
      var p := mem - 8;
      BlockWords(s, live, p);
      var n := UsableWords(ChunkSize(m.Get(p, HEAD)));
      if i < n {
        ChunkAddr(s, p, 8 + 4 * i);
        m.Set(p, 8 + 4 * i, v);
        OneWordOnly(s.mem, p, s.C[p].size, 8 + 4 * i, v);
        UserWrite(s, m.dv, m.dvsize, p, m.mem);
        ReflectsWrite(s, live, p, i, v);
        live' := live[p := live[p][i := v]];
        assert m.S() == s.(mem := m.mem);
      }
    }
  }
  method DoReadByte(m: Mspace, mem: int, i: nat, ghost live: Live, owned: set<int>) returns (r: int)
    requires Runs(m, live, owned)
    ensures Step(live, ReadByte(mem, i), Reply(r, []), live, m.base, m.base + m.capacity)
  {
    var w := DoRead(m, mem, i / 4, live, owned);
    r := DwordBytes(w % TWO32)[i % 4] as int;
  }
  // the other three bytes of the word are written back as they are
  method DoWriteByte(m: Mspace, mem: int, i: nat, v: byte, ghost live: Live, owned: set<int>)
    returns (ghost live': Live)
    requires Runs(m, live, owned)
    modifies m, m.words
    ensures Runs(m, live', owned) && Step(live, WriteByte(mem, i, v), Reply(0, []), live', m.base, m.base + m.capacity)
  {
    hide Valid, Reflects;
    var w := DoRead(m, mem, i / 4, live, owned);
    var b := DwordBytes(w % TWO32);
    var w' := Dword(b[i % 4 := v], 0);
    live' := DoWrite(m, mem, i / 4, w', live, owned);
    if mem - 8 in live && i < 4 * |live[mem - 8]| { OctetWritten(live[mem - 8], i, v); }
  }
  lemma OctetWritten(words: seq<int>, i: nat, v: byte)
    requires i < 4 * |words|
    ensures OneOctet(words, words[i / 4 := Dword(DwordBytes(words[i / 4] % TWO32)[i % 4 := v], 0)], i, v)
  {
    hide Dword, DwordBytes;
    var b := DwordBytes(words[i / 4] % TWO32);
    var w' := Dword(b[i % 4 := v], 0);
    var words' := words[i / 4 := w'];
    BytesBack(b[i % 4 := v]);
    WrapSmall(w');
    forall j: nat | j < 4 * |words| ensures Octet(words', j) == if j == i then v else Octet(words, j) {
      SameByte(i, j);
    }
  }
  lemma SameByte(i: nat, j: nat)
    ensures j / 4 == i / 4 && j % 4 == i % 4 <==> j == i
  {}
  lemma OneWordOnly(m: Mem, p: int, size: int, o: int, v: int)
    requires 8 <= o < size + 4
    ensures OnlyPayload(m, m[p + o := v], p, size)
  {}
  method Do(m: Mspace, op: Op, ghost live: Live, owned: set<int>)
    returns (reply: Reply, ghost live': Live, owned': set<int>)
    requires Runs(m, live, owned) && Legal(op, m.capacity)
    modifies m, m.words
    ensures Runs(m, live', owned') && Step(live, op, reply, live', m.base, m.base + m.capacity)
  {
    var r := 0;
    reply, live', owned' := Reply(0, []), live, owned;
    match op
    case Malloc(b) => r, live', owned' := DoMalloc(m, b, live, owned); reply := Reply(r, []);
    case Calloc(n, size) => r, live', owned' := DoCalloc(m, n, size, live, owned); reply := Reply(r, []);
    case Memalign(a, b) => r, live', owned' := DoMemalign(m, a, b, live, owned); reply := Reply(r, []);
    case Realloc(mem, b) => r, live', owned' := DoRealloc(m, mem, b, live, owned); reply := Reply(r, []);
    case Free(mem) => live', owned' := DoFree(m, mem, live, owned);
    case IndependentCalloc(n, size, own) => reply, live',
      owned' := DoIndependent(m, seq(n, i => size), true, own, live, owned);
    case IndependentComalloc(sizes, own) => reply, live', owned' := DoIndependent(m, sizes, false, own, live, owned);
    case Read(mem, i) => r := DoRead(m, mem, i, live, owned); reply := Reply(r, []);
    case Write(mem, i, v) => live' := DoWrite(m, mem, i, v, live, owned);
    case ReadByte(mem, i) => r := DoReadByte(m, mem, i, live, owned); reply := Reply(r, []);
    case WriteByte(mem, i, v) => live' := DoWriteByte(m, mem, i, v, live, owned);
    case Trim(pad) => r := MspaceTrim(m, pad); reply := Reply(r, []);
  }
  // a run: the live blocks before and after each call, and what the calls returned
  ghost predicate StepAt(lives: seq<Live>, ops: seq<Op>, rs: seq<Reply>, i: nat, base: int, end: int) {
    i < |ops| && i < |rs| && i + 1 < |lives| && Step(lives[i], ops[i], rs[i], lives[i + 1], base, end)
  }
  ghost predicate IsRun(lives: seq<Live>, ops: seq<Op>, rs: seq<Reply>, n: nat, base: int, end: int) {
    && n <= |ops| && |lives| == n + 1 && |rs| == n && lives[0] == map[]
    && (forall i {:trigger StepAt(lives, ops, rs, i, base, end)} :: 0 <= i < n ==> StepAt(lives, ops, rs, i, base, end))
    && (forall i :: 0 <= i <= n ==> InPlace(lives[i], base, end))
  }
  method Run(m: Mspace, ops: seq<Op>) returns (rs: seq<Reply>, ghost lives: seq<Live>)
    requires Valid(m) && Pristine(m) && forall i :: 0 <= i < |ops| ==> Legal(ops[i], m.capacity)
    modifies m, m.words
    ensures Valid(m) && IsRun(lives, ops, rs, |ops|, m.base, m.base + m.capacity) && Reflects(m.S(), lives[|ops|])
    ensures lives[|ops|] == map[] ==> Pristine(m)
  {
    rs := [];
    var owned: set<int> := {};
    lives := [map[]];
    PristineReflects(m.S());
    ReflectsInPlace(m.S(), map[]);
    for n := 0 to |ops|
      invariant IsRun(lives, ops, rs, n, m.base, m.base + m.capacity) && Runs(m, lives[n], owned)
    {
      ghost var live;
      var r;
      r, live, owned := Do(m, ops[n], lives[n], owned);
      ReflectsInPlace(m.S(), live);
      RunMore(lives, ops, rs, n, m.base, m.base + m.capacity, r, live);
      rs, lives := rs + [r], lives + [live];
    }
    if lives[|ops|] == map[] { NothingLive(m.S(), m.dv, m.dvsize); }
  }
  lemma RunMore(lives: seq<Live>, ops: seq<Op>, rs: seq<Reply>, n: nat, base: int, end: int, r: Reply, live: Live)
    requires IsRun(lives, ops, rs, n, base, end) && n < |ops| && Step(lives[n], ops[n], r, live, base, end)
      && InPlace(live, base, end)
    ensures IsRun(lives + [live], ops, rs + [r], n + 1, base, end)
  {
    var lives', rs' := lives + [live], rs + [r];
    forall i | 0 <= i < n + 1 ensures StepAt(lives', ops, rs', i, base, end) {
      assert i < n ==> StepAt(lives, ops, rs, i, base, end);
    }
  }
  lemma PristineReflects(s: St)
    requires s.C == map[s.base := Chunk(HEADER, true, 0)]
    ensures Reflects(s, map[])
  {
    var none: Live := map[];
    forall x ensures OwnedAt(s, none, x) {}
  }
  lemma NothingLive(s: St, dv: int, dvsize: int)
    requires Steady(s, dv, dvsize) && Reflects(s, map[])
    ensures s.C == map[s.base := Chunk(HEADER, true, 0)] && s.top == s.base + HEADER
      && s.topsize == s.end - s.base - HEADER - TOP_FOOT_SIZE
    ensures dv == 0 && dvsize == 0 && s.smallmap == 0 && s.treemap == 0
  {
    var none: Live := map[];
    forall q | q in s.C && q != s.base ensures !s.C[q].used { assert OwnedAt(s, none, q); }
    AllFreed(s, dv, dvsize);
  }
}
