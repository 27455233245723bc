/** The live blocks of the heap as its clients know them, and what room these leave. */
module Lives {
  import opened Chunks
  import opened Mspaces
  import opened Retagging
  import opened Malloc
  import opened Realloc

  // The blocks that are live, by the addresses of their chunks (8 bytes before the blocks), with the words their owners
  // see in them.
  type Live = map<int, seq<int>>

  // the chunks in use, but for the one with the malloc_state, are the live blocks, and memory holds their words
  ghost predicate OwnedAt(s: St, live: Live, x: int) {
    && (x in live <==> x in s.C && s.C[x].used && x != s.base)
    && (x in live ==> UsableWords(s.C[x].size) >= 0 && live[x] == Block(s.mem, x, UsableWords(s.C[x].size)))
  }
  ghost predicate Reflects(s: St, live: Live) { forall x {:trigger OwnedAt(s, live, x)} :: OwnedAt(s, live, x) }

  lemma UsedSize(s: St, x: int)
    requires SoundSt(s) && x in s.C
    ensures s.C[x].size >= 16 && s.C[x].size % 8 == 0 && x % 8 == 0 && UsableWords(s.C[x].size) >= 3
  {
    assert ChunkOK(s.C, x, s.base, s.top);
  }

  // ---- room ----

  // the end of a block's chunk
  ghost function EndOf(live: Live, a: int): int requires a in live { a + 4 * |live[a]| + 4 }
  // Nb bytes from p on touch no live block, and lie below one or leave some of the room above all of them.
  ghost predicate RoomAt(live: Live, base: int, end: int, nb: int, p: int) {
    && base + HEADER <= p && (forall a :: a in live ==> EndOf(live, a) <= p || p + nb <= a)
    && ((exists a :: a in live && p + nb <= a) || p + nb < end - TOP_FOOT_SIZE)
  }
  ghost predicate HasRoom(live: Live, base: int, end: int, nb: int) { exists p :: RoomAt(live, base, end, nb, p) }
  // malloc has nothing for a request of that many bytes
  ghost predicate NoRoom(live: Live, base: int, end: int, bytes: nat) {
    bytes >= MAX_REQUEST || !HasRoom(live, base, end, Request2Size(bytes))
  }
  // block p has nb bytes, or it is the last one and there are some more to the end
  ghost predicate CanStay(live: Live, end: int, p: int, nb: int)
    requires p in live
  {
    p + nb <= EndOf(live, p) || ((forall a :: a in live ==> a <= p) && p + nb < end - TOP_FOOT_SIZE)
  }

  lemma LiveEnd(s: St, live: Live, a: int)
    requires SoundSt(s) && Reflects(s, live) && a in live
    ensures a in s.C && s.C[a].used && a != s.base && EndOf(live, a) == a + s.C[a].size && EndOf(live, a) <= s.top
  {
    hide SoundSt;
    assert OwnedAt(s, live, a);
    UsedSize(s, a); ChunkEdge(s, a);
    WordsOf(s.C[a].size);
  }
  lemma WordsOf(size: int)
    requires size % 8 == 0
    ensures 4 * UsableWords(size) + 4 == size
  {}
  // below top every address lies in a chunk
  lemma {:induction false} ChunkAt(s: St, q: int, x: int) returns (r: int)
    requires SoundSt(s) && q in s.C && q <= x < s.top
    ensures r in s.C && r <= x < r + s.C[r].size
    decreases x - q
  {
    assert ChunkOK(s.C, q, s.base, s.top);
    r := q;
    if q + s.C[q].size <= x { r := ChunkAt(s, q + s.C[q].size, x); }
  }
  // a free chunk ends where a live block begins
  lemma FreeBelow(s: St, live: Live, q: int)
    requires SoundSt(s) && Reflects(s, live) && q in s.C && !s.C[q].used
    ensures q + s.C[q].size in live && s.base + HEADER <= q
  {
    assert ChunkOK(s.C, q, s.base, s.top);
    ChunkEdge(s, q);
    assert OwnedAt(s, live, q + s.C[q].size);
  }
  // clear space below top lies in one free chunk
  lemma ClearInFree(s: St, live: Live, nb: int, p: int)
    requires SoundSt(s) && Reflects(s, live) && nb > 0 && RoomAt(live, s.base, s.end, nb, p) && p < s.top
    ensures !NoFit(s, nb)
  {
    var q := ChunkAt(s, s.base, p);
    assert ChunkOK(s.C, s.base, s.base, s.top);
    assert OwnedAt(s, live, q);
    if q in live { LiveEnd(s, live, q); }
    FreeBelow(s, live, q);
    LiveEnd(s, live, q + s.C[q].size);
    assert s.C[q].size >= nb;
  }
  // Malloc finds a chunk exactly if there is room.
  lemma RoomIs(s: St, live: Live, nb: int)
    requires SoundSt(s) && Reflects(s, live) && nb > 0
    ensures NoFit(s, nb) <==> !HasRoom(live, s.base, s.end, nb)
  {
    TopEdge(s);
    if HasRoom(live, s.base, s.end, nb) {
      var p :| RoomAt(live, s.base, s.end, nb, p);
      if p < s.top { ClearInFree(s, live, nb, p); } else {
        forall a | a in live ensures a < p { LiveEnd(s, live, a); }
      }
    }
    if !NoFit(s, nb) {
      if s.topsize > nb {
        forall a | a in live ensures EndOf(live, a) <= s.top { LiveEnd(s, live, a); }
        assert RoomAt(live, s.base, s.end, nb, s.top);
      } else {
        var q :| q in s.C && !s.C[q].used && s.C[q].size >= nb;
        FreeBelow(s, live, q);
        forall a | a in live ensures EndOf(live, a) <= q || q + nb <= a {
          LiveEnd(s, live, a);
          assert Sep(s.C, a, q) && Sep(s.C, q, a);
        }
        assert RoomAt(live, s.base, s.end, nb, q);
      }
    }
  }
  lemma RoomFor(s: St, live: Live, bytes: nat)
    requires SoundSt(s) && Reflects(s, live)
    ensures NoRoom(live, s.base, s.end, bytes) <==> bytes >= MAX_REQUEST || NoFit(s, Request2Size(bytes))
  {
    if bytes < MAX_REQUEST { RequestSize(bytes); RoomIs(s, live, Request2Size(bytes)); }
  }
  lemma StayIs(s: St, live: Live, p: int, nb: int)
    requires SoundSt(s) && Reflects(s, live) && p in live && nb > 0
    ensures p in s.C && (StaysHere(s, p, nb) <==> CanStay(live, s.end, p, nb))
  {
    LiveEnd(s, live, p);
    assert ChunkOK(s.C, p, s.base, s.top);
    UsedSize(s, p); ChunkEdge(s, p);
    var e := p + s.C[p].size;
    if e == s.top {
      forall a | a in live ensures a <= p { LiveEnd(s, live, a); assert Sep(s.C, p, a); }
    } else {
      assert OwnedAt(s, live, e);
      UsedSize(s, e);
      if !s.C[e].used { FreeBelow(s, live, e); assert Sep(s.C, e, e + s.C[e].size); LiveEnd(s, live, e + s.C[e].size); }
      var u := if s.C[e].used then e else e + s.C[e].size;
      assert u in live && u > p;
    }
  }
}
