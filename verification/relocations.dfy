/** What kernel/pe.cpp:55-70 does to an image: the words named by the relocation directory, which lies in the image, are
    adjusted. */
module Relocations {
  import opened Bytes

  // ---- adding to a word ----

  function Add(im: seq<byte>, t: nat, d: int): (r: seq<byte>)
    requires t + 4 <= |im|
    ensures |r| == |im|
  {
    im[..t] + DwordBytes((Dword(im, t) + d) % TWO32) + im[t + 4..]
  }
  ghost predicate Inside(ts: seq<nat>, n: nat) { forall i :: 0 <= i < |ts| ==> ts[i] + 4 <= n }
  ghost function AddAll(im: seq<byte>, ts: seq<nat>, d: int): (r: seq<byte>)
    requires Inside(ts, |im|)
    ensures |r| == |im|
    decreases |ts|
  {
    if ts == [] then im else AddAll(Add(im, ts[0], d), ts[1..], d)
  }
  lemma AddWord(im: seq<byte>, t: nat, d: int)
    requires t + 4 <= |im|
    ensures Dword(Add(im, t, d), t) == (Dword(im, t) + d) % TWO32
  {
    var x := (Dword(im, t) + d) % TWO32;
    DwordBack(x);
    DwordTells(Add(im, t, d), t, DwordBytes(x), 0);
  }
  lemma AddElsewhere(im: seq<byte>, t: nat, d: int, i: nat)
    requires t + 4 <= |im| && i < |im| && !(t <= i < t + 4)
    ensures Add(im, t, d)[i] == im[i]
  {}
  // Targets may coincide, but not partly overlap.
  ghost predicate Clear(ts: seq<nat>, u: nat) {
    forall i :: 0 <= i < |ts| ==> ts[i] == u || ts[i] + 4 <= u || u + 4 <= ts[i]
  }
  ghost predicate Apart(ts: seq<nat>) { forall u {:trigger Clear(ts, u)} :: u in ts ==> Clear(ts, u) }
  function Times(ts: seq<nat>, t: nat): nat {
    if ts == [] then 0 else (if ts[0] == t then 1 else 0) + Times(ts[1..], t)
  }
  ghost predicate Covered(ts: seq<nat>, i: int) { exists k :: 0 <= k < |ts| && ts[k] <= i < ts[k] + 4 }

  // a byte outside all the targets stays
  lemma {:induction false} Untouched(im: seq<byte>, ts: seq<nat>, d: int, i: nat)
    requires Inside(ts, |im|) && i < |im| && !Covered(ts, i)
    ensures AddAll(im, ts, d)[i] == im[i]
    decreases |ts|
  {
    if ts != [] {
      var t := ts[0];
      AddElsewhere(im, t, d, i);
      assert forall k :: 0 <= k < |ts| - 1 ==> ts[1..][k] == ts[k + 1];
      Untouched(Add(im, t, d), ts[1..], d, i);
    }
  }
  // a target gains d as often as it is named
  lemma {:induction false} Gains(im: seq<byte>, ts: seq<nat>, d: int, u: nat)
    requires Inside(ts, |im|) && u + 4 <= |im| && Clear(ts, u)
    ensures Dword(AddAll(im, ts, d), u) == (Dword(im, u) + Times(ts, u) * d) % TWO32
    decreases |ts|
  {
    hide Dword, Add;
    if ts != [] {
      var t, k := ts[0], Times(ts[1..], u);
      Gains(Add(im, t, d), ts[1..], d, u);
      if t == u {
        AddWord(im, t, d);
        ModTwice(Dword(im, u) + d, k * d);
        OnceMore(k, d);
      } else {
        AddApart(im, t, d, u);
      }
    }
  }
  lemma OnceMore(k: int, d: int) ensures (1 + k) * d == d + k * d {}
  lemma AddApart(im: seq<byte>, t: nat, d: int, u: nat)
    requires t + 4 <= |im| && u + 4 <= |im| && (t + 4 <= u || u + 4 <= t)
    ensures Dword(Add(im, t, d), u) == Dword(im, u)
  {
    AddElsewhere(im, t, d, u); AddElsewhere(im, t, d, u + 1); AddElsewhere(im, t, d, u + 2);
      AddElsewhere(im, t, d, u + 3);
  }
  lemma ModTwice(x: int, y: int)
    ensures (x % TWO32 + y) % TWO32 == (x + y) % TWO32
  {}
  ghost predicate Distinct(ts: seq<nat>) { forall i, j :: 0 <= i < j < |ts| ==> ts[i] != ts[j] }
  lemma {:induction false} NamedTwice(ts: seq<nat>, t: nat)
    requires Distinct(ts)
    ensures Times(ts, t) == if t in ts then 1 else 0
  {
    if ts != [] { NamedTwice(ts[1..], t); }
  }
  lemma GainsTwice(im: seq<byte>, ts: seq<nat>, d: int, e: int, t: nat)
    requires Inside(ts, |im|) && t + 4 <= |im| && Clear(ts, t)
    ensures SameFour(AddAll(AddAll(im, ts, d), ts, e), t, AddAll(im, ts, d + e), t)
  {
    hide Dword, AddAll, Add, SameFour;
    var im1, k := AddAll(im, ts, d), Times(ts, t);
    Gains(im, ts, d, t); Gains(im1, ts, e, t); Gains(im, ts, d + e, t);
    ModTwice(Dword(im, t) + k * d, k * e);
    Distribute(k, d, e);
    DwordTells(AddAll(im1, ts, e), t, AddAll(im, ts, d + e), t);
  }
  lemma Distribute(k: int, d: int, e: int) ensures k * (d + e) == k * d + k * e {}
  lemma AddedTwice(im: seq<byte>, ts: seq<nat>, d: int, e: int)
    requires Inside(ts, |im|) && Apart(ts)
    ensures AddAll(AddAll(im, ts, d), ts, e) == AddAll(im, ts, d + e)
  {
    var im1 := AddAll(im, ts, d);
    var a, b := AddAll(im1, ts, e), AddAll(im, ts, d + e);
    forall i: nat | i < |im| ensures a[i] == b[i] {
      if Covered(ts, i) {
        var k :| 0 <= k < |ts| && ts[k] <= i < ts[k] + 4;
        assert Clear(ts, ts[k]);
        GainsTwice(im, ts, d, e, ts[k]);
        assert i == ts[k] || i == ts[k] + 1 || i == ts[k] + 2 || i == ts[k] + 3;
      } else {
        Untouched(im, ts, d, i); Untouched(im1, ts, e, i); Untouched(im, ts, d + e, i);
      }
    }
  }
  // only the sum modulo 2^32 counts
  lemma {:induction false} AddModulo(im: seq<byte>, ts: seq<nat>, d: int, e: int)
    requires Inside(ts, |im|) && d % TWO32 == e % TWO32
    ensures AddAll(im, ts, d) == AddAll(im, ts, e)
    decreases |ts|
  {
    if ts != [] {
      SameSum(Dword(im, ts[0]), d, e);
      AddModulo(Add(im, ts[0], d), ts[1..], d, e);
    }
  }
  lemma SameSum(x: int, d: int, e: int)
    requires d % TWO32 == e % TWO32
    ensures (x + d) % TWO32 == (x + e) % TWO32
  {
    ModTwice(d, x); ModTwice(e, x);
  }

  // ---- the relocation directory ----

  const HIGHLOW := 3
  function Word(b: seq<byte>, i: nat): int requires i + 2 <= |b| { b[i] as int + 256 * b[i + 1] as int }
  // a fixup block: address, size with the header, then 16-bit entries of a 12-bit offset and a 4-bit type
  predicate BlockAt(im: seq<byte>, at: nat) {
    at + 8 <= |im| && 8 <= Dword(im, at + 4) && at + Dword(im, at + 4) <= |im|
  }
  function Entries(im: seq<byte>, at: nat): (c: nat)
    requires BlockAt(im, at)
    ensures at + 8 + 2 * c <= at + Dword(im, at + 4) < at + 10 + 2 * c
  {
    (Dword(im, at + 4) - 8) / 2
  }
  predicate Directory(im: seq<byte>, at: nat, end: int)
    decreases end - at
  {
    at < end ==> BlockAt(im, at) && Directory(im, at + Dword(im, at + 4), end)
  }
  // where the last block ends
  function EndOf(im: seq<byte>, at: nat, end: int): (e: int)
    requires Directory(im, at, end)
    ensures at <= e && (at < end ==> e <= |im|)
    decreases end - at
  {
    if at < end then EndOf(im, at + Dword(im, at + 4), end) else at
  }
  function TargetOf(rva: int, entry: int): nat requires rva >= 0 && entry >= 0 { (rva + entry % 4096) % TWO32 }
  function BlockTargets(im: seq<byte>, at: nat, i: nat): (ts: seq<nat>)
    requires BlockAt(im, at) && i <= Entries(im, at)
    decreases Entries(im, at) - i
  {
    if i == Entries(im, at) then [] else
      var w := Word(im, at + 8 + 2 * i);
      (if w / 4096 == HIGHLOW then [TargetOf(Dword(im, at), w)] else []) + BlockTargets(im, at, i + 1)
  }
  function Targets(im: seq<byte>, at: nat, end: int): seq<nat>
    requires Directory(im, at, end)
    decreases end - at
  {
    if at < end then BlockTargets(im, at, 0) + Targets(im, at + Dword(im, at + 4), end) else []
  }
  // a directory of which no target overlaps it
  ghost predicate Sound(im: seq<byte>, at: nat, end: int) {
    Directory(im, at, end)
      && forall t {:trigger Fits(im, at, end, t)} :: t in Targets(im, at, end) ==> Fits(im, at, end, t)
  }
  ghost predicate Fits(im: seq<byte>, at: nat, end: int, t: nat)
    requires Directory(im, at, end)
  {
    t + 4 <= |im| && (t + 4 <= at || EndOf(im, at, end) <= t)
  }
  ghost predicate Outside(ts: seq<nat>, n: nat, lo: int, hi: int) {
    forall i :: 0 <= i < |ts| ==> ts[i] + 4 <= n && (ts[i] + 4 <= lo || hi <= ts[i])
  }
  // images that agree on the directory
  ghost predicate SameIn(im: seq<byte>, im1: seq<byte>, lo: int, hi: int) {
    |im| == |im1| && forall i :: 0 <= i < |im| && lo <= i < hi ==> im[i] == im1[i]
  }

  lemma SameBlock(im: seq<byte>, im1: seq<byte>, at: nat)
    requires BlockAt(im, at) && SameIn(im, im1, at, at + Dword(im, at + 4))
    ensures BlockAt(im1, at) && Dword(im1, at) == Dword(im, at) && Dword(im1, at + 4) == Dword(im, at + 4)
  {
    DwordTells(im, at, im1, at); DwordTells(im, at + 4, im1, at + 4);
  }
  lemma {:induction false} SameBlockTargets(im: seq<byte>, im1: seq<byte>, at: nat, i: nat)
    requires BlockAt(im, at) && i <= Entries(im, at) && SameIn(im, im1, at, at + Dword(im, at + 4))
    ensures BlockAt(im1, at) && Entries(im1, at) == Entries(im, at)
      && BlockTargets(im1, at, i) == BlockTargets(im, at, i)
    decreases Entries(im, at) - i
  {
    SameBlock(im, im1, at);
    if i < Entries(im, at) { SameBlockTargets(im, im1, at, i + 1); }
  }
  lemma {:induction false} SameTargets(im: seq<byte>, im1: seq<byte>, at: nat, end: int)
    requires Directory(im, at, end) && SameIn(im, im1, at, EndOf(im, at, end))
    ensures Directory(im1, at, end) && EndOf(im1, at, end) == EndOf(im, at, end)
      && Targets(im1, at, end) == Targets(im, at, end)
    decreases end - at
  {
    if at < end {
      SameBlock(im, im1, at);
      SameBlockTargets(im, im1, at, 0);
      SameTargets(im, im1, at + Dword(im, at + 4), end);
    }
  }

  // ---- relocation ----

  lemma AllInside(im: seq<byte>, at: nat, end: int)
    requires Sound(im, at, end)
    ensures Inside(Targets(im, at, end), |im|)
    ensures forall i :: 0 <= i < |im| && at <= i < EndOf(im, at, end) ==> !Covered(Targets(im, at, end), i)
  {
    var ts := Targets(im, at, end);
    forall k | 0 <= k < |ts| ensures Fits(im, at, end, ts[k]) { assert ts[k] in ts; }
  }
  ghost function Relocated(im: seq<byte>, at: nat, end: int, d: int): seq<byte>
    requires Sound(im, at, end)
  {
    AllInside(im, at, end);
    AddAll(im, Targets(im, at, end), d)
  }
  // the directory itself stays, so it can be applied again
  lemma DirectoryStays(im: seq<byte>, at: nat, end: int, d: int)
    requires Sound(im, at, end)
    ensures var im1 := Relocated(im, at, end, d);
            SameIn(im, im1, at, EndOf(im, at, end)) && Sound(im1, at, end)
            && Targets(im1, at, end) == Targets(im, at, end)
  {
    var ts, im1 := Targets(im, at, end), Relocated(im, at, end, d);
    AllInside(im, at, end);
    forall i: nat | i < |im| && at <= i < EndOf(im, at, end) ensures im[i] == im1[i] { Untouched(im, ts, d, i); }
    SameTargets(im, im1, at, end);
    forall t: nat | t in ts ensures Fits(im1, at, end, t) { assert Fits(im, at, end, t); }
  }
  // Moving an image from base0 to base1 and from there to base2 is moving it to base2 at once.
  lemma MovedTwice(im: seq<byte>, at: nat, end: int, base0: int, base1: int, base2: int)
    requires Sound(im, at, end) && Apart(Targets(im, at, end))
    ensures var im1 := Relocated(im, at, end, base1 - base0);
      Sound(im1, at, end) && Relocated(im1, at, end, base2 - base1) == Relocated(im, at, end, base2 - base0)
  {
    hide Dword, AddAll, Add;
    var ts := Targets(im, at, end);
    AllInside(im, at, end);
    DirectoryStays(im, at, end, base1 - base0);
    AddedTwice(im, ts, base1 - base0, base2 - base1);
  }
  // and moving it back restores it
  lemma MovedBack(im: seq<byte>, at: nat, end: int, base0: int, base1: int)
    requires Sound(im, at, end) && Apart(Targets(im, at, end))
    ensures var im1 := Relocated(im, at, end, base1 - base0);
            Sound(im1, at, end) && Relocated(im1, at, end, base0 - base1) == im
  {
    MovedTwice(im, at, end, base0, base1, base0);
    AllInside(im, at, end);
    AddNothing(im, Targets(im, at, end));
  }
  lemma {:induction false} AddNothing(im: seq<byte>, ts: seq<nat>)
    requires Inside(ts, |im|)
    ensures AddAll(im, ts, 0) == im
    decreases |ts|
  {
    if ts != [] {
      AddWord(im, ts[0], 0);
      DwordTells(Add(im, ts[0], 0), ts[0], im, ts[0]);
      assert Add(im, ts[0], 0) == im;
      AddNothing(im, ts[1..]);
    }
  }
  ghost predicate WordGains(im: seq<byte>, im1: seq<byte>, t: nat, d: int) {
    |im1| == |im| && t + 4 <= |im| && Dword(im1, t) == (Dword(im, t) + d) % TWO32
  }
  lemma GainsOnce(im: seq<byte>, ts: seq<nat>, d: int, t: nat)
    requires Inside(ts, |im|) && t + 4 <= |im| && Clear(ts, t) && Times(ts, t) == 1
    ensures WordGains(im, AddAll(im, ts, d), t, d)
  {
    hide AddAll, Dword, Times;
    Gains(im, ts, d, t);
  }
  // each word named once gains exactly the distance, and every other byte stays
  lemma WordsMoved(im: seq<byte>, at: nat, end: int, d: int)
    requires Sound(im, at, end) && Apart(Targets(im, at, end))
    requires Distinct(Targets(im, at, end))
    ensures forall t: nat {:trigger WordGains(im, Relocated(im, at, end, d), t, d)} ::
              t in Targets(im, at, end) ==> WordGains(im, Relocated(im, at, end, d), t, d)
    ensures forall i :: 0 <= i < |im| && !Covered(Targets(im, at, end), i) ==> Relocated(im, at, end, d)[i] == im[i]
  {
    hide WordGains, AddAll, Dword, Targets, EndOf, Directory;
    var ts := Targets(im, at, end);
    AllInside(im, at, end);
    forall t: nat | t in ts ensures WordGains(im, Relocated(im, at, end, d), t, d) {
      NamedTwice(ts, t); assert Clear(ts, t); assert Fits(im, at, end, t);
      GainsOnce(im, ts, d, t);
    }
    forall i: nat | i < |im| && !Covered(ts, i) ensures Relocated(im, at, end, d)[i] == im[i] {
      Untouched(im, ts, d, i);
    }
  }
}
