/** compute_tree_index and the size ranges of the tree bins (kernel/malloc.c:2161-2196). */
module TreeIndexing {
  import opened Bits
  function Wrap(x: int): nat { x % W32 }
  // the sign of a difference in 32 bits, moved to the weight b: b if y is below t, else 0
  function Short(y: nat, t: nat, b: nat): nat requires b > 0 { if (Wrap(y - t) / 0x1_0000 / b) % 2 == 1 then b else 0 }
  // the three steps that shift Y until its leading bit is at place 14 or 15: the total shift, and Y
  function Normal(x: nat): (nat, nat) {
    var n0 := Short(x, 0x100, 8);
    var y0 := x * Pow2(n0) % W32;
    var n1 := Short(y0, 0x1000, 4);
    var y1 := y0 * Pow2(n1) % W32;
    var n2 := Short(y1, 0x4000, 2);
    (n0 + n1 + n2, y1 * Pow2(n2) % W32)
  }
  function IndexAt(s: nat, k: nat): nat { 2 * k + s / Pow2(k + 7) % 2 }
  function TreeIndex(s: nat): nat {
    var x := s / 0x100;
    if x == 0 then 0
    else if x > 0xFFFF then 31
    else
      var (n, y) := Normal(x);
      IndexAt(s, Wrap(14 - n + y / 0x8000))
  }
  // the smallest size held in the bin with index i
  function MinSize(i: nat): nat { Pow2(i / 2 + 8) + (i % 2) * Pow2(i / 2 + 7) }

  lemma ShortOK(y: nat, t: nat, b: nat)
    requires y <= 0xFFFF && ((t, b) == (0x100, 8) || (t, b) == (0x1000, 4) || (t, b) == (0x4000, 2))
    ensures Short(y, t, b) == if y < t then b else 0
  {
    if y < t { assert Wrap(y - t) / 0x1_0000 == 0xFFFF; }
    else { assert Wrap(y - t) / 0x1_0000 == 0; }
  }
  lemma PowSmall() ensures Pow2(0) == 1 && Pow2(2) == 4 && Pow2(4) == 0x10 && Pow2(8) == 0x100 {
    PowAdd(4, 4);
  }
  lemma Shift(y: nat, t: nat, b: nat)
    requires 0 < y <= 0xFFFF && ((t, b) == (0x100, 8) || (t, b) == (0x1000, 4) || (t, b) == (0x4000, 2))
    ensures var n := Short(y, t, b);
      && n == (if y < t then b else 0)
      && y * Pow2(n) % W32 == y * Pow2(n) == if y < t then y * (0x1_0000 / t) else y
  {
    ShortOK(y, t, b);
    PowSmall();
  }
  lemma NormalOK(x: nat)
    requires 0 < x <= 0xFFFF
    ensures var (n, y) := Normal(x); 0x4000 <= y <= 0xFFFF && n <= 14 && y == x * Pow2(n)
  {
    Shift(x, 0x100, 8);
    var n0 := Short(x, 0x100, 8);
    var y0 := x * Pow2(n0) % W32;
    Shift(y0, 0x1000, 4);
    var n1 := Short(y0, 0x1000, 4);
    var y1 := y0 * Pow2(n1) % W32;
    Shift(y1, 0x4000, 2);
    var n2 := Short(y1, 0x4000, 2);
    MulThree(x, n0, n1, n2);
  }
  lemma MulThree(x: nat, a: nat, b: nat, c: nat)
    ensures x * Pow2(a) * Pow2(b) * Pow2(c) == x * Pow2(a + b + c)
  {
    PowAdd(a, b); PowAdd(a + b, c);
    Assoc(x, Pow2(a), Pow2(b), Pow2(c));
  }
  lemma Assoc(x: nat, a: nat, b: nat, c: nat) ensures x * a * b * c == x * (a * b * c) {}
  lemma Cancel(x: nat, p: nat, q: nat)
    requires q > 0 && p * q <= x * q < 2 * (p * q)
    ensures p <= x < 2 * p
  {
    if x < p { MulLe(x + 1, p, q); }
    if x >= 2 * p { MulLe(2 * p, x, q); }
  }
  // the leading bit of the size, eight places down, is at place k
  lemma LeadPlace(s: nat) returns (k: nat)
    requires 0x100 <= s < 0x100_0000
    ensures k < 16 && Pow2(k + 8) <= s < 2 * Pow2(k + 8) && TreeIndex(s) == IndexAt(s, k)
  {
    var x := s / 0x100;
    NormalOK(x);
    var (n, y) := Normal(x);
    k := 14 - n + y / 0x8000;
    WrapSmall(k);
    LeadBit(s, x, n, k, y);
  }
  lemma LeadBit(s: nat, x: nat, n: nat, k: nat, y: nat)
    requires x == s / 0x100 && 0 < x && n <= 14 && k == 14 - n + y / 0x8000
    requires 0x4000 <= y <= 0xFFFF && y == x * Pow2(n)
    ensures k < 16 && Pow2(k + 8) <= s < 2 * Pow2(k + 8)
  {
    Pow14();
    PowAdd(k, n);
    Cancel(x, Pow2(k), Pow2(n));
    PowAdd(k, 8);
  }
  lemma Pow14()
    ensures Pow2(8) == 0x100 && Pow2(14) == 0x4000 && Pow2(15) == 0x8000
  {
    PowSmall(); PowAdd(8, 4); PowAdd(12, 2);
  }

  // ---- what the index means ----
  function Width(i: nat): nat { Pow2(i / 2 + 7) }
  lemma MinSizeStep(i: nat) ensures MinSize(i + 1) == MinSize(i) + Width(i) {
    if i % 2 == 0 { assert (i + 1) / 2 == i / 2; } else { assert (i + 1) / 2 == i / 2 + 1; }
  }
  lemma {:induction false} MinSizeMono(i: nat, j: nat) requires i <= j ensures MinSize(i) <= MinSize(j) {
    if i < j { MinSizeMono(i, j - 1); MinSizeStep(j - 1); }
  }
  lemma HalfBit(s: nat, p: nat) requires p > 0 && 2 * p <= s < 4 * p
    ensures s / p % 2 == if s < 3 * p then 0 else 1
  {
    if s < 3 * p { assert s / p == 2; } else { assert s / p == 3; }
  }
  lemma TreeIndexOK(s: nat)
    requires 0x100 <= s < W32
    ensures TreeIndex(s) < 32 && MinSize(TreeIndex(s)) <= s
    ensures TreeIndex(s) < 31 ==> s < MinSize(TreeIndex(s) + 1)
  {
    if s >= 0x100_0000 {
      LastMin();
    } else {
      var k := LeadPlace(s);
      Place(s, k, TreeIndex(s));
    }
  }
  lemma LastMin() ensures MinSize(31) == 0xC0_0000 { Pow14(); PowAdd(15, 8); PowAdd(14, 8); }
  lemma Place(s: nat, k: nat, i: nat)
    requires Pow2(k + 8) <= s < 2 * Pow2(k + 8) && i == IndexAt(s, k)
    ensures MinSize(i) <= s < MinSize(i + 1) && i / 2 == k
  {
    hide Pow2, MinSize;
    MinAt(k, s / Pow2(k + 7) % 2);
    HalfBit(s, Pow2(k + 7));
    MinSizeStep(i);
  }
  lemma MinAt(k: nat, b: nat)
    requires b < 2
    ensures MinSize(2 * k + b) == (2 + b) * Pow2(k + 7) && Pow2(k + 8) == 2 * Pow2(k + 7)
  {}
  lemma TreeIndexMono(s: nat, s': nat)
    requires 0x100 <= s < W32 && 0x100 <= s' < W32 && TreeIndex(s) < TreeIndex(s')
    ensures s < s'
  {
    TreeIndexOK(s); TreeIndexOK(s');
    MinSizeMono(TreeIndex(s) + 1, TreeIndex(s'));
  }
}
