/** The relocation directory as it is written into an image (kernel/pe.h:251-259): pages, each with an address, its size
    in bytes and 16-bit entries of a kind and an offset. */
module PeDirectories {
  import opened Bytes
  import opened Relocations

  datatype Entry = Entry(kind: nat, offset: nat)
  datatype Page = Page(address: nat, entries: seq<Entry>)
  predicate EntryOK(e: Entry) { e.kind < 16 && e.offset < 4096 }
  predicate PageOK(p: Page) {
    p.address < TWO32 && SizeOf(p) < TWO32 && forall i :: 0 <= i < |p.entries| ==> EntryOK(p.entries[i])
  }
  predicate AllOK(ps: seq<Page>) { forall i :: 0 <= i < |ps| ==> PageOK(ps[i]) }

  // ---- writing ----

  // the lowest byte first
  function LittleEndian(u: nat, n: nat): (b: seq<byte>)
    ensures |b| == n
  {
    if n == 0 then [] else [(u % 256) as byte] + LittleEndian(u / 256, n - 1)
  }
  // a page ends at a multiple of four bytes, if need be with an empty entry
  function Padding(p: Page): nat { if |p.entries| % 2 == 0 then 0 else 1 }
  function SizeOf(p: Page): nat { 8 + 2 * (|p.entries| + Padding(p)) }
  function EntryBytes(es: seq<Entry>): (b: seq<byte>)
    ensures |b| == 2 * |es|
  {
    if es == [] then [] else LittleEndian(es[0].kind * 4096 + es[0].offset, 2) + EntryBytes(es[1..])
  }
  function PageBytes(p: Page): (b: seq<byte>)
    ensures |b| == SizeOf(p)
  {
    LittleEndian(p.address, 4) + LittleEndian(SizeOf(p), 4) + EntryBytes(p.entries) + LittleEndian(0, 2 * Padding(p))
  }
  function DirectoryBytes(ps: seq<Page>): seq<byte> {
    if ps == [] then [] else PageBytes(ps[0]) + DirectoryBytes(ps[1..])
  }
  // the words to adjust: those of the entries of kind 3, in order
  function NamedBy(address: nat, es: seq<Entry>): seq<nat> {
    if es == [] then [] else
      (if es[0].kind == 3 then [(address + es[0].offset) % TWO32] else []) + NamedBy(address, es[1..])
  }
  function Named(ps: seq<Page>): seq<nat> {
    if ps == [] then [] else NamedBy(ps[0].address, ps[0].entries) + Named(ps[1..])
  }

  // ---- reading ----

  ghost predicate LiesAt(b: seq<byte>, im: seq<byte>, at: nat) {
    at + |b| <= |im| && forall i :: 0 <= i < |b| ==> im[at + i] == b[i]
  }
  lemma LiesBoth(a: seq<byte>, b: seq<byte>, im: seq<byte>, at: nat)
    requires LiesAt(a + b, im, at)
    ensures LiesAt(a, im, at) && LiesAt(b, im, at + |a|)
  {
    forall i | 0 <= i < |a| ensures im[at + i] == a[i] { assert (a + b)[i] == a[i]; }
    forall i | 0 <= i < |b| ensures im[at + |a| + i] == b[i] { assert (a + b)[|a| + i] == b[i]; }
  }
  lemma Digits(u: nat)
    ensures var b := LittleEndian(u, 4);
            b[0] as int == u % 256 && b[1] as int == u / 256 % 256 && b[2] as int == u / 256 / 256 % 256
            && b[3] as int == u / 256 / 256 / 256 % 256
    ensures LittleEndian(u, 2)[0] as int == u % 256 && LittleEndian(u, 2)[1] as int == u / 256 % 256
  {
    var v, w := u / 256, u / 256 / 256;
    assert LittleEndian(u, 4) == [(u % 256) as byte] + LittleEndian(v, 3);
    assert LittleEndian(v, 3) == [(v % 256) as byte] + LittleEndian(w, 2);
    assert LittleEndian(w, 2) == [(w % 256) as byte] + LittleEndian(w / 256, 1);
    assert LittleEndian(u, 2) == [(u % 256) as byte] + LittleEndian(v, 1);
  }
  lemma DwordRead(u: nat, im: seq<byte>, at: nat)
    requires u < TWO32 && LiesAt(LittleEndian(u, 4), im, at)
    ensures Dword(im, at) == u
  {
    hide LittleEndian;
    Digits(u);
    var b := LittleEndian(u, 4);
    assert im[at + 0] == b[0] && im[at + 1] == b[1] && im[at + 2] == b[2] && im[at + 3] == b[3];
    assert u / 256 / 256 / 256 < 256;
  }
  lemma WordRead(u: nat, im: seq<byte>, at: nat)
    requires u < 65536 && LiesAt(LittleEndian(u, 2), im, at)
    ensures Word(im, at) == u
  {
    hide LittleEndian;
    Digits(u);
    var b := LittleEndian(u, 2);
    assert im[at + 0] == b[0] && im[at + 1] == b[1];
  }
  lemma {:induction false} EntryRead(es: seq<Entry>, im: seq<byte>, at: nat, i: nat)
    requires LiesAt(EntryBytes(es), im, at) && i < |es| && forall j :: 0 <= j < |es| ==> EntryOK(es[j])
    ensures at + 2 * i + 2 <= |im| && Word(im, at + 2 * i) == es[i].kind * 4096 + es[i].offset
    decreases i
  {
    var u := es[0].kind * 4096 + es[0].offset;
    assert EntryOK(es[0]);
    LiesBoth(LittleEndian(u, 2), EntryBytes(es[1..]), im, at);
    if i == 0 { WordRead(u, im, at); } else { EntryRead(es[1..], im, at + 2, i - 1); }
  }
  // the four parts of a page, in an image
  lemma PageParts(p: Page, im: seq<byte>, at: nat)
    requires LiesAt(PageBytes(p), im, at)
    ensures at + SizeOf(p) <= |im| && LiesAt(LittleEndian(p.address, 4), im, at)
      && LiesAt(LittleEndian(SizeOf(p), 4), im, at + 4)
    ensures LiesAt(EntryBytes(p.entries), im, at + 8)
      && LiesAt(LittleEndian(0, 2 * Padding(p)), im, at + 8 + 2 * |p.entries|)
  {
    hide LittleEndian, EntryBytes, LiesAt;
    var a, s, es, pad := LittleEndian(p.address, 4), LittleEndian(SizeOf(p), 4), EntryBytes(p.entries),
      LittleEndian(0, 2 * Padding(p));
    LiesBoth(a + s + es, pad, im, at); LiesBoth(a + s, es, im, at); LiesBoth(a, s, im, at);
    LiesInside(PageBytes(p), im, at);
  }
  lemma LiesInside(b: seq<byte>, im: seq<byte>, at: nat)
    requires LiesAt(b, im, at)
    ensures at + |b| <= |im|
  {}
  lemma PageHead(p: Page, im: seq<byte>, at: nat)
    requires PageOK(p) && LiesAt(PageBytes(p), im, at)
    ensures BlockAt(im, at) && Dword(im, at) == p.address && Dword(im, at + 4) == SizeOf(p)
    ensures Entries(im, at) == |p.entries| + Padding(p)
  {
    hide Dword, LittleEndian, EntryBytes, LiesAt, PageBytes, Padding;
    PageParts(p, im, at);
    DwordRead(p.address, im, at); DwordRead(SizeOf(p), im, at + 4);
    Halved(|p.entries| + Padding(p));
  }
  lemma Halved(n: nat) ensures (8 + 2 * n - 8) / 2 == n {}
  lemma PageEntry(p: Page, im: seq<byte>, at: nat, i: nat)
    requires PageOK(p) && LiesAt(PageBytes(p), im, at) && i < |p.entries| + Padding(p)
    ensures at + 8 + 2 * i + 2 <= |im|
    ensures Word(im, at + 8 + 2 * i)
         == if i < |p.entries| then p.entries[i].kind * 4096 + p.entries[i].offset else 0
  {
    hide Word, LittleEndian, EntryBytes, LiesAt, PageBytes;
    PageParts(p, im, at);
    if i < |p.entries| { EntryRead(p.entries, im, at + 8, i); } else { WordRead(0, im, at + 8 + 2 * i); }
  }
  lemma {:induction false} BlockNamed(p: Page, im: seq<byte>, at: nat, i: nat)
    requires PageOK(p) && LiesAt(PageBytes(p), im, at) && i <= |p.entries| + Padding(p)
    ensures BlockAt(im, at) && Entries(im, at) == |p.entries| + Padding(p)
    ensures BlockTargets(im, at, i) == if i <= |p.entries| then NamedBy(p.address, p.entries[i..]) else []
    decreases |p.entries| + Padding(p) - i
  {
    hide Dword, Word, LittleEndian, EntryBytes, PageBytes, LiesAt, Padding, SizeOf;
    PageHead(p, im, at);
    if i < |p.entries| + Padding(p) {
      PageEntry(p, im, at, i);
      BlockNamed(p, im, at, i + 1);
      if i < |p.entries| {
        assert p.entries[i..][1..] == p.entries[i + 1..];
        assert EntryOK(p.entries[i]);
        KindOffset(p.entries[i].kind, p.entries[i].offset);
      }
    }
  }
  lemma KindOffset(k: nat, o: nat)
    requires o < 4096
    ensures (k * 4096 + o) / 4096 == k && (k * 4096 + o) % 4096 == o
  {}
  // Wherever the bytes of a directory lie in an image, they are read as a directory that ends where they end and names
  // the words of its entries of kind 3.
  lemma {:induction false} DirectoryRead(ps: seq<Page>, im: seq<byte>, at: nat)
    requires AllOK(ps) && LiesAt(DirectoryBytes(ps), im, at)
    ensures var end := at + |DirectoryBytes(ps)|;
            Directory(im, at, end) && EndOf(im, at, end) == end && Targets(im, at, end) == Named(ps)
  {
    hide Dword, PageBytes, LiesAt, BlockTargets, NamedBy;
    if ps != [] {
      var p, rest := ps[0], DirectoryBytes(ps[1..]);
      assert PageOK(p);
      LiesBoth(PageBytes(p), rest, im, at);
      PageHead(p, im, at); BlockNamed(p, im, at, 0);
      assert p.entries[0..] == p.entries;
      DirectoryRead(ps[1..], im, at + SizeOf(p));
    }
  }

  // ---- what relocation does ----

  // the words the pages name lie in the image, but not in the directory, and do not partly overlap
  ghost predicate Proper(ps: seq<Page>, im: seq<byte>, at: nat) {
    && AllOK(ps) && LiesAt(DirectoryBytes(ps), im, at) && Apart(Named(ps))
    && Outside(Named(ps), |im|, at, at + |DirectoryBytes(ps)|)
  }
  // each word named gains d, as often as it is named, and all else stays
  ghost predicate Moved(ts: seq<nat>, im: seq<byte>, im1: seq<byte>, d: int) {
    && |im1| == |im| && Inside(ts, |im|)
    && (forall t :: t in ts ==> Dword(im1, t) == (Dword(im, t) + Times(ts, t) * d) % TWO32)
    && forall i :: 0 <= i < |im| && !Covered(ts, i) ==> im1[i] == im[i]
  }
  lemma PagesMoved(ps: seq<Page>, im: seq<byte>, at: nat, d: int)
    requires Proper(ps, im, at)
    ensures var end := at + |DirectoryBytes(ps)|;
            Sound(im, at, end) && Moved(Named(ps), im, Relocated(im, at, end, d), d)
  {
    hide Dword, DirectoryBytes, Named, AddAll, Directory, EndOf, Targets;
    var ts, end := Named(ps), at + |DirectoryBytes(ps)|;
    DirectoryRead(ps, im, at);
    forall t: nat | t in ts ensures Fits(im, at, end, t) {}
    var im1 := Relocated(im, at, end, d);
    forall t | t in ts ensures Dword(im1, t) == (Dword(im, t) + Times(ts, t) * d) % TWO32 { Gains(im, ts, d, t); }
    forall i: nat | i < |im| && !Covered(ts, i) ensures im1[i] == im[i] { Untouched(im, ts, d, i); }
  }
}
