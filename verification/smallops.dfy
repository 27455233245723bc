/** What the small-bin macros of kernel/malloc.c do to memory (2806-2861). */
module SmallOps {
  import opened Words
  import opened Chunks
  import opened Bits
  import opened Bins

  // h is a ring's first element: a chunk, or a bin header, which lies below every chunk
  ghost predicate Elem(x: int, h: int, lo: int) { (x == h && h + 16 <= lo) || (x % 8 == 0 && x >= lo) }
  ghost predicate Elems(r: seq<int>, lo: int) { |r| > 0 && forall x :: x in r ==> Elem(x, r[0], lo) }
  lemma NoClash(x: int, y: int, h: int, lo: int)
    requires Elem(x, h, lo) && Elem(y, h, lo)
    ensures x + FD != y + BK
  {}

  // the four stores that put P between B and F
  ghost function Linked(m: Mem, h: int, f: int, p: int): Mem { m[h + FD := p][f + BK := p][p + FD := f][p + BK := h] }
  lemma LinkedFld(m: Mem, h: int, f: int, p: int, x: int, lo: int)
    requires Elem(h, h, lo) && Elem(f, h, lo) && Elem(p, h, lo) && Elem(x, h, lo) && p != h && p != f
    ensures Fld(Linked(m, h, f, p), x, FD) == if x == h then p else if x == p then f else Fld(m, x, FD)
    ensures Fld(Linked(m, h, f, p), x, BK) == if x == p then h else if x == f then p else Fld(m, x, BK)
  {
    NoClash(x, f, h, lo); NoClash(x, p, h, lo); NoClash(h, x, h, lo); NoClash(p, x, h, lo);
  }
  lemma LinkedRing(m: Mem, r: seq<int>, p: int, lo: int)
    requires Ring(m, r) && p !in r && p % 8 == 0 && p >= lo && Elems(r, lo)
    ensures Ring(Linked(m, r[0], Prv(r, 0), p), r + [p])
  {
    var m' := Linked(m, r[0], Prv(r, 0), p);
    assert r[|r|-1] in r;
    forall x | x in r || x == p
      ensures Fld(m', x, FD) == if x == r[0] then p else if x == p then Prv(r, 0) else Fld(m, x, FD)
      ensures Fld(m', x, BK) == if x == p then r[0] else if x == Prv(r, 0) then p else Fld(m, x, BK)
    { LinkedFld(m, r[0], Prv(r, 0), p, x, lo); }
    RingInsert(m, r, p, m');
  }
  // the two stores that link B and F over a removed chunk
  ghost function Unlinked(m: Mem, f: int, b: int): Mem { m[f + BK := b][b + FD := f] }
  lemma UnlinkedFld(m: Mem, h: int, f: int, b: int, x: int, lo: int)
    requires Elem(f, h, lo) && Elem(b, h, lo) && Elem(x, h, lo)
    ensures Fld(Unlinked(m, f, b), x, FD) == if x == b then f else Fld(m, x, FD)
    ensures Fld(Unlinked(m, f, b), x, BK) == if x == f then b else Fld(m, x, BK)
  {
    NoClash(x, f, h, lo); NoClash(b, x, h, lo);
  }
  lemma UnlinkedRing(m: Mem, r: seq<int>, k: int, lo: int)
    requires Ring(m, r) && 0 <= k < |r| && |r| > 1 && Elems(r, lo)
    ensures Ring(Unlinked(m, Prv(r, k), Nxt(r, k)), Without(r, k))
  {
    var m' := Unlinked(m, Prv(r, k), Nxt(r, k));
    forall x | x in r
      ensures Fld(m', x, FD) == if x == Nxt(r, k) then Prv(r, k) else Fld(m, x, FD)
      ensures Fld(m', x, BK) == if x == Prv(r, k) then Nxt(r, k) else Fld(m, x, BK)
    { UnlinkedFld(m, r[0], Prv(r, k), Nxt(r, k), x, lo); }
    RingRemove(m, r, k, m');
  }

  lemma SmallElems(m: Mem, C: Chunks, base: int, top: int, bits: int, s: seq<int>, i: int)
    requires Shape(C, base, top) && SmallBin(m, C, base, bits, s, i)
    ensures Elems([SmallbinAt(base, i)] + s, base + HEADER)
  {
    forall x | x in s ensures x % 8 == 0 && x >= base + HEADER { SmallMember(C, base, top, x, i); }
  }
  ghost function LastOr(s: seq<int>, h: int): int { if s == [] then h else s[|s|-1] }
  lemma SmallInsert(m: Mem, C: Chunks, base: int, top: int, bits: int, s: seq<int>, i: int, p: int)
    requires Shape(C, base, top) && SmallBin(m, C, base, bits, s, i)
    requires Free(C, p, 8 * i) && p !in s
    ensures var h := SmallbinAt(base, i); var m' := Linked(m, h, LastOr(s, h), p);
      SmallBin(m', C, base, Mark(bits, i), s + [p], i) && OnlyBin(m, m', C, base, i)
  {
    hide Shape, OnlyBin, Marked, Mark;
    var h := SmallbinAt(base, i);
    SmallMember(C, base, top, p, i);
    SmallElems(m, C, base, top, bits, s, i);
    MarkBit(bits, i, i);
    assert ([h] + s) + [p] == [h] + (s + [p]);
    if s != [] { LinkedRing(m, [h] + s, p, base + HEADER); }
    LinkedOnly(m, C, base, top, s, i, LastOr(s, h), p);
  }
  lemma LinkedOnly(m: Mem, C: Chunks, base: int, top: int, s: seq<int>, i: int, f: int, p: int)
    requires Shape(C, base, top) && 0 <= i < 32 && forall x :: x in s ==> Free(C, x, 8 * i)
    requires (f == SmallbinAt(base, i) || f in s) && Free(C, p, 8 * i)
    ensures OnlyBin(m, Linked(m, SmallbinAt(base, i), f, p), C, base, i)
  {
    var h := SmallbinAt(base, i);
    SmallMember(C, base, top, p, i); InsideBin(C, base, p, FD); InsideBin(C, base, p, BK);
    if f != h { SmallMember(C, base, top, f, i); InsideBin(C, base, f, BK); }
  }
  lemma WithoutTail(h: int, s: seq<int>, k: int)
    requires 0 <= k < |s|
    ensures Without([h] + s, k + 1) == [h] + Without(s, k)
    ensures forall x :: x in Without(s, k) ==> x in s
  {}
  lemma SmallRemove(m: Mem, C: Chunks, base: int, top: int, bits: int, s: seq<int>, i: int, k: int)
    requires Shape(C, base, top) && SmallBin(m, C, base, bits, s, i) && 0 <= k < |s| && |s| > 1
    ensures var r := [SmallbinAt(base, i)] + s; var m' := Unlinked(m, Prv(r, k + 1), Nxt(r, k + 1));
      SmallBin(m', C, base, bits, Without(s, k), i) && OnlyBin(m, m', C, base, i)
  {
    var h := SmallbinAt(base, i);
    SmallElems(m, C, base, top, bits, s, i);
    UnlinkedRing(m, [h] + s, k + 1, base + HEADER);
    WithoutTail(h, s, k);
    UnlinkedOnly(m, C, base, top, s, i, Prv([h] + s, k + 1), Nxt([h] + s, k + 1));
  }
  lemma UnlinkedOnly(m: Mem, C: Chunks, base: int, top: int, s: seq<int>, i: int, f: int, b: int)
    requires Shape(C, base, top) && 0 <= i < 32 && forall x :: x in s ==> Free(C, x, 8 * i)
    requires (f == SmallbinAt(base, i) || f in s) && (b == SmallbinAt(base, i) || b in s)
    ensures OnlyBin(m, Unlinked(m, f, b), C, base, i)
  {
    var h := SmallbinAt(base, i);
    if f != h { SmallMember(C, base, top, f, i); InsideBin(C, base, f, BK); }
    if b != h { SmallMember(C, base, top, b, i); InsideBin(C, base, b, FD); }
  }
  lemma SmallEmpty(m: Mem, C: Chunks, base: int, bits: int, s: seq<int>, i: int)
    requires SmallBin(m, C, base, bits, s, i)
    ensures SmallBin(m, C, base, Clear(bits, i), [], i)
  {
    ClearBit(bits, i, i);
  }
  lemma MarkAgrees(bits: int, i: nat)
    requires 0 <= bits < W32 && i < 32
    ensures Mark(bits, i) < W32 && AgreeBut(bits, Mark(bits, i), i)
    ensures Marked(bits, i) ==> Mark(bits, i) == bits
  {
    PowMono(i, 32); Pow32(); OrBound(bits, Pow2(i), 32);
    if Marked(bits, i) { MarkIdem(bits, i); }
    forall j | 0 <= j < 32 && j != i ensures Marked(Mark(bits, i), j) <==> Marked(bits, j) { MarkBit(bits, i, j); }
  }
  lemma ClearAgrees(bits: int, i: nat)
    requires 0 <= bits < W32 && i < 32
    ensures Clear(bits, i) < W32 && AgreeBut(bits, Clear(bits, i), i)
  {
    PowMono(i, 32); Pow32(); AndBound(bits, Not(Pow2(i)));
    forall j | 0 <= j < 32 && j != i ensures Marked(Clear(bits, i), j) <==> Marked(bits, j) { ClearBit(bits, i, j); }
  }
}
