/** Which chunk mspace_malloc takes (kernel/malloc.c:4383-4495, 3549-3658), in terms of the heap before the call. */
module Choices {
  import opened Chunks
  import opened Bits
  import opened Bins
  import opened Mspaces
  import opened Retagging
  import opened BinAccess
  import opened Heap
  import SmallBinMacros

  // some free chunk has nb bytes
  ghost predicate HasFit(s: St, nb: int) {
    exists q {:trigger s.C[q]} :: q in s.C && !s.C[q].used && nb <= s.C[q].size
  }
  // p is a least one of all the free chunks that have nb bytes, dv among them
  ghost predicate BestFree(s: St, nb: int, p: int) {
    p in s.C && !s.C[p].used && nb <= s.C[p].size
      && forall q {:trigger s.C[q]} :: q in s.C && !s.C[q].used && nb <= s.C[q].size ==> s.C[p].size <= s.C[q].size
  }
  // of the free chunks of tree size, v is one of the smallest that have nb bytes
  ghost predicate Tightest(s: St, nb: int, v: int) {
    Listed(s.B, v) && v in s.C && nb <= s.C[v].size
      && forall q {:trigger Listed(s.B, q)} ::
           Listed(s.B, q) && q in s.C && s.C[q].size >= nb && s.C[q].size >= 0x100 ==> s.C[v].size <= s.C[q].size
  }
  // dv has nb bytes, and no tree chunk has and is smaller than dv
  ghost predicate DvTighter(s: St, nb: int, dvsize: int) {
    forall q {:trigger Listed(s.B, q)} :: Listed(s.B, q) && q in s.C && s.C[q].size >= nb && s.C[q].size >= 0x100
      ==> nb <= dvsize <= s.C[q].size
  }
  // no listed chunk has nb bytes
  ghost predicate NoneListedFits(s: St, nb: int) {
    forall q {:trigger Listed(s.B, q)} :: Listed(s.B, q) && q in s.C ==> s.C[q].size < nb
  }

  // the chunks of a small bin, the newest last
  ghost function Bin(B: Bins, i: int): seq<int> { if 0 <= i < |B.small| then B.small[i] else [] }
  ghost predicate Newest(B: Bins, i: int, p: int) { Bin(B, i) != [] && p == Bin(B, i)[|Bin(B, i)|-1] }
  ghost predicate NoBins(B: Bins, i: int, k: int) { forall j :: i <= j < k ==> Bin(B, j) == [] }
  ghost predicate HasTree(s: St) {
    exists q {:trigger Listed(s.B, q)} :: Listed(s.B, q) && q in s.C && s.C[q].size >= 0x100
  }
  // For a small request: the newest chunk of the bin of its size, or of the next bin; else dv, if it has nb bytes; else
  // the newest chunk of the first bin above that has one; else a least chunk of the tree bins; else top.
  ghost predicate SmallChoice(s: St, dv: int, dvsize: int, nb: int, p: int) {
    var i := nb / 8;
    if Bin(s.B, i) != [] then Newest(s.B, i, p)
    else if Bin(s.B, i + 1) != [] then Newest(s.B, i + 1, p)
    else if nb <= dvsize then p == dv
    else if exists k :: i < k < 32 && Bin(s.B, k) != [] then
      exists k :: i < k < 32 && Newest(s.B, k, p) && NoBins(s.B, i, k)
    else if HasTree(s) then Tightest(s, nb, p) && s.C[p].size >= 0x100
    else p == s.top
  }
  // For a large one: a least free chunk, and dv if it is one.
  ghost predicate LargeChoice(s: St, dv: int, nb: int, p: int) {
    BestFree(s, nb, p) && (BestFree(s, nb, dv) ==> p == dv)
  }
  // Top is cut only if no free chunk has nb bytes.
  ghost predicate Picked(s: St, dv: int, dvsize: int, nb: int, p: int) {
    && (p == s.top <==> !HasFit(s, nb))
    && (nb >= 0x100 && HasFit(s, nb) ==> LargeChoice(s, dv, nb, p))
    && (nb < 0x100 ==> SmallChoice(s, dv, dvsize, nb, p))
  }
  // a rest of less than 16 bytes stays with the chunk
  ghost function NewSize(s: St, nb: int, p: int): int
    requires p == s.top || p in s.C
  {
    if p == s.top || s.C[p].size - nb >= 16 then nb else s.C[p].size
  }
  // The size of the new chunk, and the victim afterwards: what is cut off a free chunk becomes the victim if the chunk
  // was, and after small requests.
  ghost predicate CutOff(s: St, dv: int, dvsize: int, nb: int, p: int, C': Chunks, dv': int, dvsize': int) {
    && p in C' && (p == s.top || p in s.C) && C'[p].size == NewSize(s, nb, p)
    && if p != s.top && s.C[p].size - nb >= 16 && (p == dv || nb < 0x100) then
         dv' == p + nb && dvsize' == s.C[p].size - nb
       else if p == dv then dv' == dvsize' == 0
       else dv' == dv && dvsize' == dvsize
  }

  // a place and a size that malloc chooses
  ghost predicate NewPlace(s: St, dv: int, dvsize: int, nb: int, p: int, C': Chunks) {
    Picked(s, dv, dvsize, nb, p) && (p == s.top || p in s.C) && p in C' && C'[p].size == NewSize(s, nb, p)
  }

  // ---- how the code finds it ----

  lemma BinMark(s: St, i: int)
    requires SoundSt(s) && 0 <= i <= 32
    ensures 0 <= s.smallmap < W32 && (Marked(s.smallmap, i) <==> Bin(s.B, i) != [])
    ensures i < 32 ==> |s.B.small| == 32 && Bin(s.B, i) == s.B.small[i]
  {
    if i < 32 { SmallBinMacros.BinAt(s, i); } else {
      SmallBinMacros.BinAt(s, 0);
      Pow32();
      if Marked(s.smallmap, i) { HighBit(s.smallmap, 32, 32); }
    }
  }
  lemma BinMarks(s: St, i: int, k: int)
    requires SoundSt(s) && 0 <= i <= k <= 32 && forall j: nat :: i <= j < k ==> !Marked(s.smallmap, j)
    ensures NoBins(s.B, i, k)
  {
    forall j | i <= j < k ensures Bin(s.B, j) == [] { BinMark(s, j); }
  }
  lemma NewestFree(s: St, i: int, p: int)
    requires SoundSt(s) && Newest(s.B, i, p)
    ensures Free(s.C, p, 8 * i) && Listed(s.B, p) && 2 <= i < 32
  {
    SmallBinMacros.BinAt(s, 0);
    FirstFree(s, i, p);
  }
  lemma FreeFits(s: St, nb: int, p: int)
    requires SoundSt(s) && p in s.C && !s.C[p].used && nb <= s.C[p].size
    ensures HasFit(s, nb) && p != s.top
  {
    TopEdge(s);
  }
  // a free chunk is dv or listed
  lemma FreeListed(s: St, dv: int, dvsize: int, q: int)
    requires Steady(s, dv, dvsize) && q in s.C && !s.C[q].used
    ensures q == dv || Listed(s.B, q)
    ensures q == dv ==> dvsize == s.C[q].size && dvsize != 0
  {
    FreeAbove(s, q);
  }
  lemma FirstChoice(s: St, dv: int, dvsize: int, nb: int, idx: int, p: int)
    requires Steady(s, dv, dvsize) && 16 <= nb < 0x100 && nb % 8 == 0 && Newest(s.B, idx, p)
    requires idx == if Bin(s.B, nb / 8) != [] then nb / 8 else nb / 8 + 1
    ensures Picked(s, dv, dvsize, nb, p) && HasFit(s, nb)
  {
    NewestFree(s, idx, p); FreeFits(s, nb, p);
  }
  lemma NextChoice(s: St, dv: int, dvsize: int, nb: int, k: int, p: int)
    requires Steady(s, dv, dvsize) && 16 <= nb < 0x100 && nb % 8 == 0 && dvsize < nb
    requires nb / 8 < k && Newest(s.B, k, p) && NoBins(s.B, nb / 8, k) && Bin(s.B, nb / 8 + 1) == []
    ensures Picked(s, dv, dvsize, nb, p) && HasFit(s, nb)
  {
    NewestFree(s, k, p); FreeFits(s, nb, p);
  }
  lemma TreeChoice(s: St, dv: int, dvsize: int, nb: int, p: int)
    requires Steady(s, dv, dvsize) && 16 <= nb < 0x100 && nb % 8 == 0 && dvsize < nb
    requires NoBins(s.B, nb / 8, 32) && Bin(s.B, nb / 8 + 1) == [] && Tightest(s, nb, p) && Free(s.C, p, s.C[p].size)
      && s.C[p].size >= 0x100
    ensures Picked(s, dv, dvsize, nb, p) && HasFit(s, nb)
  {
    FreeFits(s, nb, p);
  }
  lemma LargeTreeChoice(s: St, dv: int, dvsize: int, nb: int, p: int)
    requires Steady(s, dv, dvsize) && nb >= 0x100 && Tightest(s, nb, p) && !DvTighter(s, nb, dvsize)
    ensures Picked(s, dv, dvsize, nb, p)
  {
    ListedFacts(s, p); FreeFits(s, nb, p);
    forall q | q in s.C && !s.C[q].used && nb <= s.C[q].size ensures s.C[p].size <= s.C[q].size {
      FreeListed(s, dv, dvsize, q);
    }
    if BestFree(s, nb, dv) { FreeListed(s, dv, dvsize, dv); }
  }
  lemma DvChoice(s: St, dv: int, dvsize: int, nb: int)
    requires Steady(s, dv, dvsize) && 16 <= nb <= dvsize
    requires nb >= 0x100 ==> DvTighter(s, nb, dvsize)
    requires nb < 0x100 ==> Bin(s.B, nb / 8) == [] && Bin(s.B, nb / 8 + 1) == []
    ensures Picked(s, dv, dvsize, nb, dv)
  {
    FreeFits(s, nb, dv);
    if nb >= 0x100 {
      forall q | q in s.C && !s.C[q].used && nb <= s.C[q].size ensures s.C[dv].size <= s.C[q].size {
        FreeListed(s, dv, dvsize, q);
      }
    }
  }
  lemma TopChoice(s: St, dv: int, dvsize: int, nb: int)
    requires Steady(s, dv, dvsize) && 16 <= nb && nb % 8 == 0 && dvsize < nb && NoneListedFits(s, nb)
    ensures Picked(s, dv, dvsize, nb, s.top)
  {
    forall q | q in s.C && !s.C[q].used ensures s.C[q].size < nb { FreeListed(s, dv, dvsize, q); }
    TopEdge(s);
    if nb < 0x100 {
      assert !HasTree(s) by {
        forall q | Listed(s.B, q) && q in s.C ensures s.C[q].size < 0x100 {}
      }
      forall k | nb <= 8 * k ensures Bin(s.B, k) == [] {
        if Bin(s.B, k) != [] { NewestFree(s, k, Bin(s.B, k)[|Bin(s.B, k)|-1]); }
      }
    }
  }
}
