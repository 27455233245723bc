/** The loading of an image in kernel/pe.cpp:41-70: sections are copied, and the relocation directory is applied. */
module PeImages {
  import opened Bytes
  import opened Relocations
  import opened PeDirectories

  // ---- the loader ----

  datatype Section = Section(virtualAddress: nat, pointerToRawData: nat, sizeOfRawData: nat)
  predicate InFile(s: Section, data: seq<byte>, n: nat) {
    s.pointerToRawData + s.sizeOfRawData <= |data| && s.virtualAddress + s.sizeOfRawData <= n
  }
  predicate AllInFile(ss: seq<Section>, data: seq<byte>, n: nat) {
    forall i :: 0 <= i < |ss| ==> InFile(ss[i], data, n)
  }
  // the image after the sections are copied, one after the other
  function Copied(im: seq<byte>, data: seq<byte>, ss: seq<Section>): (r: seq<byte>)
    requires AllInFile(ss, data, |im|)
    ensures |r| == |im|
  {
    if ss == [] then im else
      var k := |ss| - 1;
      var r, s := Copied(im, data, ss[..k]), ss[k];
      assert InFile(s, data, |im|);
      r[..s.virtualAddress] + data[s.pointerToRawData..s.pointerToRawData + s.sizeOfRawData]
        + r[s.virtualAddress + s.sizeOfRawData..]
  }
  lemma NoneCopied(im: seq<byte>, data: seq<byte>) ensures Copied(im, data, []) == im {}
  lemma CopyNext(im: seq<byte>, data: seq<byte>, ss: seq<Section>)
    requires AllInFile(ss, data, |im|) && ss != []
    ensures var k := |ss| - 1; var r, s := Copied(im, data, ss[..k]), ss[k];
      && InFile(s, data, |im|)
      && Copied(im, data, ss) == r[..s.virtualAddress] + data[s.pointerToRawData..s.pointerToRawData + s.sizeOfRawData]
        + r[s.virtualAddress + s.sizeOfRawData..]
  {
    assert InFile(ss[|ss| - 1], data, |im|);
  }
  ghost predicate Holds(s: Section, i: int) { s.virtualAddress <= i < s.virtualAddress + s.sizeOfRawData }
  // a byte comes from the last section that holds it
  lemma {:induction false} CopiedFrom(im: seq<byte>, data: seq<byte>, ss: seq<Section>, k: int, i: nat)
    requires AllInFile(ss, data, |im|) && -1 <= k < |ss| && i < |im|
    requires (k >= 0 ==> Holds(ss[k], i)) && forall j :: k < j < |ss| ==> !Holds(ss[j], i)
    ensures Copied(im, data, ss)[i]
      == if k < 0 then im[i] else data[ss[k].pointerToRawData + (i - ss[k].virtualAddress)]
    decreases |ss|
  {
    hide Copied;
    if ss == [] { NoneCopied(im, data); return; }
    CopyNext(im, data, ss);
    assert InFile(ss[|ss| - 1], data, |im|);
    if k < |ss| - 1 { CopiedFrom(im, data, ss[..|ss| - 1], k, i); }
  }

  // ---- the loops ----

  lemma {:induction false} AddBoth(im: seq<byte>, a: seq<nat>, b: seq<nat>, d: int)
    requires Inside(a + b, |im|)
    ensures Inside(a, |im|) && Inside(b, |im|) && AddAll(im, a + b, d) == AddAll(AddAll(im, a, d), b, d)
    decreases |a|
  {
    assert forall i :: 0 <= i < |a| ==> a[i] == (a + b)[i];
    assert forall i :: 0 <= i < |b| ==> b[i] == (a + b)[|a| + i];
    if a == [] { assert a + b == b; } else {
      assert (a + b)[1..] == a[1..] + b;
      AddBoth(Add(im, a[0], d), a[1..], b, d);
    }
  }
  lemma OutsideKeeps(im: seq<byte>, im1: seq<byte>, t: nat, d: int, lo: int, hi: int)
    requires SameIn(im, im1, lo, hi) && t + 4 <= |im| && (t + 4 <= lo || hi <= t)
    ensures SameIn(im, Add(im1, t, d), lo, hi)
  {
    forall i: nat | i < |im| && lo <= i < hi ensures im[i] == Add(im1, t, d)[i] { AddElsewhere(im1, t, d, i); }
  }
  method AddDword(image: array<byte>, t: nat, d: int)
    requires t + 4 <= image.Length
    modifies image
    ensures image[..] == Add(old(image[..]), t, d)
  {
    var b := DwordBytes((Dword(image[..], t) + d) % TWO32);
    image[t], image[t + 1], image[t + 2], image[t + 3] := b[0], b[1], b[2], b[3];
  }
  // the entries of one block; lo and hi bound the directory
  method RelocateBlock(image: array<byte>, at: nat, d: int, ghost lo: int, ghost hi: int)
    requires BlockAt(image[..], at) && lo <= at && at + Dword(image[..], at + 4) <= hi
    requires Outside(BlockTargets(image[..], at, 0), image.Length, lo, hi)
    modifies image
    ensures Inside(old(BlockTargets(image[..], at, 0)), image.Length)
    ensures image[..] == AddAll(old(image[..]), old(BlockTargets(image[..], at, 0)), d)
      && SameIn(old(image[..]), image[..], lo, hi)
  {
    hide Dword, AddAll, Add;
    ghost var im0 := image[..];
    var c := Entries(image[..], at);
    var i := 0;
    while i < c
      invariant 0 <= i <= c && SameIn(im0, image[..], lo, hi) && Outside(BlockTargets(im0, at, i), image.Length, lo, hi)
      invariant AddAll(image[..], BlockTargets(im0, at, i), d) == AddAll(im0, BlockTargets(im0, at, 0), d)
    {
      ghost var im1, ts := image[..], BlockTargets(im0, at, i);
      SameBlock(im0, im1, at);
      var entry := Word(image[..], at + 8 + 2 * i);
      if entry / 4096 == HIGHLOW {
        var t := TargetOf(Dword(image[..], at), entry);
        ghost var rest := BlockTargets(im0, at, i + 1);
        assert ts == [t] + rest && ts[0] == t;
        assert forall k :: 0 <= k < |rest| ==> rest[k] == ts[k + 1];
        OutsideKeeps(im0, im1, t, d, lo, hi);
        assert ts[1..] == rest;
        FirstOf(im1, ts, d);
        AddDword(image, t, d);
      } else {
        assert ts == BlockTargets(im0, at, i + 1);
      }
      i := i + 1;
    }
    NoneLeft(image[..], d);
  }
  lemma FirstOf(im: seq<byte>, ts: seq<nat>, d: int)
    requires Inside(ts, |im|) && ts != []
    ensures AddAll(im, ts, d) == AddAll(Add(im, ts[0], d), ts[1..], d)
  {}
  lemma NoneLeft(im: seq<byte>, d: int) ensures AddAll(im, [], d) == im {}
  // all the blocks
  method Relocate(image: array<byte>, rva: nat, size: nat, d: int)
    requires Sound(image[..], rva, rva + size)
    modifies image
    ensures image[..] == Relocated(old(image[..]), rva, rva + size, d)
    ensures forall ps :: Proper(ps, old(image[..]), rva) && size == |DirectoryBytes(ps)| ==>
      Moved(Named(ps), old(image[..]), image[..], d)
  {
    hide Dword, AddAll, Add, Pending, Sound, Relocated, Proper, Moved, DirectoryBytes, Named;
    ghost var im0, end := image[..], rva + size;
    PendingStart(im0, rva, end, d);
    var at := rva;
    while at - rva < size
      invariant rva <= at && Pending(im0, image[..], rva, at, end, d)
      decreases end - at
    {
      ghost var im1 := image[..];
      BlockPending(im0, im1, rva, at, end, d);
      RelocateBlock(image, at, d, rva, EndOf(im0, rva, end));
      PendingNext(im0, im1, image[..], rva, at, end, d);
      at := at + Dword(image[..], at + 4);
    }
    PendingEnd(im0, image[..], rva, at, end, d);
    forall ps | Proper(ps, im0, rva) && size == |DirectoryBytes(ps)| ensures Moved(Named(ps), im0, image[..], d) {
      PagesMoved(ps, im0, rva, d);
    }
  }
  // before the block at `at`: the directory is as it was, and the targets from there on are still to be adjusted
  ghost predicate Pending(im0: seq<byte>, im: seq<byte>, rva: nat, at: nat, end: int, d: int) {
    && Directory(im0, rva, end) && Sound(im0, rva, end) && rva <= at && Directory(im0, at, end)
    && EndOf(im0, at, end) == EndOf(im0, rva, end)
    && SameIn(im0, im, rva, EndOf(im0, rva, end)) && Outside(Targets(im0, at, end), |im|, rva, EndOf(im0, rva, end))
    && AddAll(im, Targets(im0, at, end), d) == Relocated(im0, rva, end, d)
  }
  lemma PendingStart(im: seq<byte>, rva: nat, end: int, d: int)
    requires Sound(im, rva, end)
    ensures Pending(im, im, rva, rva, end, d)
  {
    AllInside(im, rva, end); AllOutside(im, rva, end);
  }
  lemma BlockPending(im0: seq<byte>, im: seq<byte>, rva: nat, at: nat, end: int, d: int)
    requires Pending(im0, im, rva, at, end, d) && at < end
    ensures BlockAt(im, at) && Directory(im0, rva, end) && at + Dword(im, at + 4) <= EndOf(im0, rva, end)
    ensures BlockTargets(im, at, 0) == BlockTargets(im0, at, 0)
    ensures Outside(BlockTargets(im, at, 0), |im|, rva, EndOf(im0, rva, end))
  {
    hide Dword, AddAll, Add;
    SameBlock(im0, im, at); SameBlockTargets(im0, im, at, 0);
    FirstPart(BlockTargets(im0, at, 0), Targets(im0, at + Dword(im0, at + 4), end), |im|, rva, EndOf(im0, rva, end));
  }
  lemma FirstPart(a: seq<nat>, b: seq<nat>, n: nat, lo: int, hi: int)
    requires Outside(a + b, n, lo, hi)
    ensures Outside(a, n, lo, hi) && Outside(b, n, lo, hi) && Inside(a + b, n) && Inside(a, n) && Inside(b, n)
  {
    assert forall i :: 0 <= i < |a| ==> a[i] == (a + b)[i];
    assert forall i :: 0 <= i < |b| ==> b[i] == (a + b)[|a| + i];
  }
  lemma PendingNext(im0: seq<byte>, im1: seq<byte>, im2: seq<byte>, rva: nat, at: nat, end: int, d: int)
    requires Pending(im0, im1, rva, at, end, d) && at < end && Inside(BlockTargets(im0, at, 0), |im1|)
    requires im2 == AddAll(im1, BlockTargets(im0, at, 0), d)
    requires Directory(im0, rva, end) && SameIn(im1, im2, rva, EndOf(im0, rva, end))
    ensures BlockAt(im2, at) && Pending(im0, im2, rva, at + Dword(im2, at + 4), end, d)
  {
    hide Dword, AddAll, Add, Relocated, Sound;
    SameIn3(im0, im1, im2, rva, EndOf(im0, rva, end));
    SameBlock(im0, im2, at);
    var a, b := BlockTargets(im0, at, 0), Targets(im0, at + Dword(im0, at + 4), end);
    FirstPart(a, b, |im1|, rva, EndOf(im0, rva, end));
    AddBoth(im1, a, b, d);
  }
  lemma SameIn3(a: seq<byte>, b: seq<byte>, c: seq<byte>, lo: int, hi: int)
    requires SameIn(a, b, lo, hi) && SameIn(b, c, lo, hi)
    ensures SameIn(a, c, lo, hi)
  {}
  lemma PendingEnd(im0: seq<byte>, im: seq<byte>, rva: nat, at: nat, end: int, d: int)
    requires Pending(im0, im, rva, at, end, d) && at >= end
    ensures Sound(im0, rva, end) && im == Relocated(im0, rva, end, d)
  {
    NoneLeft(im, d);
  }
  lemma AllOutside(im: seq<byte>, at: nat, end: int)
    requires Sound(im, at, end)
    ensures Outside(Targets(im, at, end), |im|, at, EndOf(im, at, end))
  {
    var ts := Targets(im, at, end);
    forall k | 0 <= k < |ts| ensures Fits(im, at, end, ts[k]) { assert ts[k] in ts; }
  }
  lemma DistanceModulo(im: seq<byte>, at: nat, end: int, d: int)
    requires Sound(im, at, end)
    ensures Relocated(im, at, end, d % TWO32) == Relocated(im, at, end, d)
  {
    AllInside(im, at, end);
    AddModulo(im, Targets(im, at, end), d % TWO32, d);
  }
  method MemCopy(image: array<byte>, to: nat, data: seq<byte>, from: nat, n: nat)
    requires to + n <= image.Length && from + n <= |data|
    modifies image
    ensures image[..] == old(image[..to]) + data[from..from + n] + old(image[to + n..])
  {
    forall i | 0 <= i < n { image[to + i] := data[from + i]; }
  }

  class Image {
    const image: array<byte>
    var sections: seq<Section>

    // Image::Image. The new array, whatever it holds, and its address come from the allocator; the fields of the
    // headers of data are parameters. The sections are copied, and the words the relocation directory names move by the
    // distance between the array's address and the preferred one.
    constructor (buffer: array<byte>, base: int, data: seq<byte>, table: seq<Section>, imageBase: int, rva: nat,
      size: nat)
      requires AllInFile(table, data, buffer.Length)
      requires Sound(Copied(buffer[..], data, table), rva, rva + size)
      modifies buffer
      ensures image == buffer && sections == table
      ensures image[..] == Relocated(Copied(old(buffer[..]), data, table), rva, rva + size, base - imageBase)
      ensures forall ps :: Proper(ps, Copied(old(buffer[..]), data, table), rva) && size == |DirectoryBytes(ps)| ==>
        Moved(Named(ps), Copied(old(buffer[..]), data, table), image[..], base - imageBase)
    {
      image := buffer;
      sections := [];
      new;
      hide Relocated, AddAll, Sound, Targets, EndOf, Inside, Copied, Proper, Moved, DirectoryBytes, Named;
      ghost var im0 := image[..];
      NoneCopied(im0, data);
      var i := 0;
      while i < |table|
        invariant 0 <= i <= |table| && sections == table[..i] && image[..] == Copied(im0, data, table[..i])
      {
        sections := sections + [table[i]];
        CopyNext(im0, data, table[..i + 1]);
        MemCopy(image, table[i].virtualAddress, data, table[i].pointerToRawData, table[i].sizeOfRawData);
        assert table[..i + 1][..i] == table[..i];
        i := i + 1;
      }
      assert table[..i] == table;
      ghost var im1 := image[..];
      Relocate(image, rva, size, (base - imageBase) % TWO32);
      DistanceModulo(im1, rva, rva + size, base - imageBase);
      forall ps | Proper(ps, im1, rva) && size == |DirectoryBytes(ps)|
        ensures Moved(Named(ps), im1, image[..], base - imageBase)
      {
        PagesMoved(ps, im1, rva, base - imageBase);
      }
    }
  }
}
