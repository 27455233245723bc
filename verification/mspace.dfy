/** The malloc_state of kernel/malloc.c over its region of memory. */
module Mspaces {
  import opened Words
  import opened Chunks
  import opened Bits
  import opened Tries
  import opened Bins

  // the field at offset o of p is a word of the region
  predicate IsAddr(p: int, o: int, base: int, end: int) { base <= p + o && p + o + 4 <= end && (p + o) % 4 == 0 }
  ghost predicate NodeAddr(p: int, base: int, end: int) {
    0 < p < W32 && base <= p
      && forall o {:trigger IsAddr(p, o, base, end)} :: 0 <= o < 32 && o % 4 == 0 ==> IsAddr(p, o, base, end)
  }

  // what the invariant speaks about
  datatype St = St(mem: Mem, C: Chunks, B: Bins, base: int, end: int, top: int, topsize: int, smallmap: int,
    treemap: int)

  ghost predicate SoundSt(s: St) {
    && Shape(s.C, s.base, s.top) && Tags(s.mem, s.C, s.top, s.topsize)
    && s.top + s.topsize + TOP_FOOT_SIZE == s.end <= W32
    && BinsOK(s.mem, s.C, s.base, s.smallmap, s.treemap, s.B)
  }
  lemma ChunkAddr(s: St, p: int, o: int)
    requires SoundSt(s) && p in s.C && 0 <= o < s.C[p].size + 8 && o % 4 == 0
    ensures IsAddr(p, o, s.base, s.end) && p % 8 == 0 && s.base <= p < W32
  {
    assert ChunkOK(s.C, p, s.base, s.top);
    Multiple(p, o);
  }
  lemma WordPlace(base: int, a: int)
    requires base % 8 == 0 && a % 4 == 0
    ensures base + 4 * ((a - base) / 4) == a
  {}
  lemma Multiple(p: int, o: int)
    requires p % 8 == 0 && o % 4 == 0
    ensures (p + o) % 4 == 0
  {
    assert p == 8 * (p / 8) && o == 4 * (o / 4);
    assert p + o == 4 * (2 * (p / 8) + o / 4);
  }
  lemma LargeAddr(s: St, p: int)
    requires SoundSt(s) && p in s.C && s.C[p].size >= 32 && p > 0
    ensures NodeAddr(p, s.base, s.end)
  {
    assert ChunkOK(s.C, p, s.base, s.top);
    forall o ensures 0 <= o < 32 && o % 4 == 0 ==> IsAddr(p, o, s.base, s.end) {
      if 0 <= o < 32 && o % 4 == 0 { ChunkAddr(s, p, o); }
    }
  }
  lemma HeaderAddr(s: St, i: int)
    requires SoundSt(s) && 0 <= i < 32
    ensures IsAddr(SmallbinAt(s.base, i), FD, s.base, s.end) && IsAddr(SmallbinAt(s.base, i), BK, s.base, s.end)
    ensures IsAddr(TreebinAt(s.base, i), 0, s.base, s.end)
    ensures s.base < SmallbinAt(s.base, i) < W32 && s.base < TreebinAt(s.base, i) < W32
  {
    hide BinsOK, IsAddr, SmallbinAt, TreebinAt;
    assert ChunkOK(s.C, s.base, s.base, s.top);
    HeaderPlaces(s.base, s.end, i);
  }
  lemma HeaderPlaces(base: int, end: int, i: int)
    requires base % 8 == 0 && 0 <= base && base + HEADER < end <= W32 && 0 <= i < 32
    ensures IsAddr(SmallbinAt(base, i), FD, base, end) && IsAddr(SmallbinAt(base, i), BK, base, end)
    ensures IsAddr(TreebinAt(base, i), 0, base, end)
    ensures base < SmallbinAt(base, i) < W32 && base < TreebinAt(base, i) < W32
  {
    Aligned(base, i);
  }
  lemma Aligned(base: int, i: int)
    requires base % 8 == 0
    ensures (base + 44 + 8 * i) % 4 == 0 && (base + 308 + 4 * i) % 4 == 0
  {
    assert base + 44 + 8 * i == 4 * (2 * (base / 8) + 11 + 2 * i);
    assert base + 308 + 4 * i == 4 * (2 * (base / 8) + 77 + i);
  }

  // chunksize, cinuse and pinuse of a head word
  function ChunkSize(head: int): int { head - head % 4 }
  predicate Cinuse(head: int) { head / 2 % 2 == 1 }
  predicate Pinuse(head: int) { head % 2 == 1 }
  lemma HeadIs(s: St, p: int)
    requires SoundSt(s) && p in s.C
    ensures var h := Fld(s.mem, p, HEAD);
      ChunkSize(h) == s.C[p].size && (Cinuse(h) <==> s.C[p].used) && (Pinuse(h) <==> s.C[p].psize == 0)
    ensures s.C[p].psize != 0 ==> Fld(s.mem, p, FOOT) == s.C[p].psize
    ensures IsAddr(p, HEAD, s.base, s.end) && IsAddr(p, FOOT, s.base, s.end)
  {
    assert ChunkOK(s.C, p, s.base, s.top) && TagOK(s.mem, s.C, p);
    ChunkAddr(s, p, HEAD); ChunkAddr(s, p, FOOT);
    HeadBits(s.C[p].size, if s.C[p].used then 1 else 0, if s.C[p].psize == 0 then 1 else 0);
  }
  lemma HeadBits(size: int, c: int, p: int)
    requires size % 8 == 0 && 0 <= c <= 1 && 0 <= p <= 1
    ensures var h := size + 2 * c + p; ChunkSize(h) == size && (Cinuse(h) <==> c == 1) && (Pinuse(h) <==> p == 1)
  {
    assert size == 8 * (size / 8);
  }

  // the words of a region by their addresses
  ghost function Region(base: int, w: seq<word>): (m: Mem)
    ensures forall i :: 0 <= i < |w| ==> base + 4 * i in m && m[base + 4 * i] == w[i]
  {
    if w == [] then map[] else Region(base, w[..|w|-1])[base + 4 * (|w| - 1) := w[|w|-1]]
  }

  class Mspace {
    const base: int
    const capacity: int
    const words: array<word>
    var smallmap: int
    var treemap: int
    var dvsize: int
    var topsize: int
    var dv: int
    var top: int
    var trimCheck: int
    ghost var mem: Mem      // the region's words by address
    ghost var C: Chunks     // the chunks below top
    ghost var B: Bins       // the contents of the bins

    constructor (base: int, words: array<word>)
      requires 0 <= base && base % 8 == 0 && base + 4 * words.Length <= W32
      ensures this.base == base && this.capacity == 4 * words.Length && this.words == words && Rep()
      ensures smallmap == 0 && treemap == 0 && dvsize == 0 && topsize == 0 && dv == 0 && top == 0
    {
      this.base, this.capacity, this.words := base, 4 * words.Length, words;
      smallmap, treemap, dvsize, topsize, dv, top, trimCheck := 0, 0, 0, 0, 0, 0, 0;
      mem := Region(base, words[..]);
    }

    ghost predicate Rep()
      reads this`mem, words
    {
      && 0 <= base && base % 8 == 0 && base + capacity <= W32
      && words.Length * 4 == capacity
      && (forall i :: 0 <= i < words.Length ==> base + 4 * i in mem && mem[base + 4 * i] == words[i])
    }
    function Get(p: int, o: int): (v: int)
      requires Rep() && IsAddr(p, o, base, base + capacity)
      reads this`mem, words
      ensures v == Fld(mem, p, o) && 0 <= v < W32
    {
      assert base + 4 * ((p + o - base) / 4) == p + o;
      words[(p + o - base) / 4]
    }
    method Set(p: int, o: int, v: int)
      requires Rep() && IsAddr(p, o, base, base + capacity) && 0 <= v < W32
      modifies this`mem, words
      ensures Rep() && mem == old(mem)[p + o := v]
    {
      WordPlace(base, p + o);
      var k := (p + o - base) / 4;
      words[k] := v;
      mem := mem[base + 4 * k := v];
    }
    ghost function S(): St
      reads this`mem, this`C, this`B, this`top, this`topsize, this`smallmap, this`treemap
    {
      St(mem, C, B, base, base + capacity, top, topsize, smallmap, treemap)
    }
    ghost predicate Sound()
      reads this`mem, words, this`C, this`B, this`top, this`topsize, this`smallmap, this`treemap
    {
      Rep() && SoundSt(S())
    }
  }
}
