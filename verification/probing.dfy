/** Double hashing (csutility/Collections/Inttable.cs:60-95, 175-196, 419-455): sizes, steps and probe sequences. */
module Probing {
  import opened Bits

  // ---- table sizes ----

  const PRIME_TABLE: seq<int> := [
    11, 19, 37, 73, 109, 163, 251, 367, 557, 823, 1237, 1861, 2777, 4177, 6247, 9371, 14057, 21089, 31627,
    47431, 71143, 106721, 160073, 240101, 360163, 540217, 810343, 1215497, 1823231, 2734867, 4102283, 6153409, 9230113,
      13845163]
  const LARGEST := 13845163

  ghost predicate Prime(p: int) { p > 1 && forall d {:trigger p % d} :: 2 <= d < p ==> p % d != 0 }
  // none of d, d+1, .. divides p, as far as the square root; eight at a time
  predicate NoDivisor(p: nat, d: nat)
    requires 2 <= d
    decreases if d <= p then p - d else 0
  {
    d * d > p || (p % d != 0 && p % (d + 1) != 0 && p % (d + 2) != 0 && p % (d + 3) != 0 && p % (d + 4) != 0
      && p % (d + 5) != 0 && p % (d + 6) != 0 && p % (d + 7) != 0 && NoDivisor(p, d + 8))
  }
  lemma {:induction false} NoDivisorFrom(p: nat, d: nat, e: nat)
    requires 2 <= d <= e && NoDivisor(p, d) && e * e <= p
    ensures p % e != 0
    decreases e - d
  {
    Squares(d, e);
    if d + 8 <= e { NoDivisorFrom(p, d + 8, e); }
  }
  lemma Squares(d: nat, e: nat) requires d <= e ensures d * d <= e * e {}
  // a divisor above the square root has a partner below it
  lemma PrimeIs(p: nat)
    requires p > 1 && NoDivisor(p, 2)
    ensures Prime(p)
  {
    forall d | 2 <= d < p ensures p % d != 0 { NotDivided(p, d); }
  }
  lemma NotDivided(p: nat, d: nat)
    requires NoDivisor(p, 2) && 2 <= d < p
    ensures p % d != 0
  {
    hide NoDivisor;
    if d * d <= p { NoDivisorFrom(p, 2, d); }
    else if p % d == 0 {
      var c := Exact(p, d);
      Partner(p, c, d);
      NoDivisorFrom(p, 2, c);
    }
  }
  lemma Exact(p: nat, d: nat) returns (c: nat)
    requires d > 0 && p % d == 0
    ensures p == c * d
  {
    c := p / d;
  }
  lemma Partner(p: nat, c: nat, d: nat)
    requires p == c * d && 2 <= d < p && d * d > p
    ensures 2 <= c && c * c <= p && p % c == 0
  {
    if c >= d { MulMono(d, d, c); }
    if c == 1 || c == 0 { assert false; }
    assert p == d * c;
    Bits.ModIs(p, c, d, 0);
    MulMono(c, c, d);
  }
  lemma SmallPrimes()
    ensures Prime(11) && Prime(19) && Prime(37) && Prime(73) && Prime(109) && Prime(163) && Prime(251) {
    PrimeIs(11); PrimeIs(19); PrimeIs(37); PrimeIs(73); PrimeIs(109); PrimeIs(163); PrimeIs(251);
  }
  lemma MiddlePrimes() ensures Prime(367) && Prime(557) && Prime(823) && Prime(1237) && Prime(1861) {
    PrimeIs(367); PrimeIs(557); PrimeIs(823); PrimeIs(1237); PrimeIs(1861);
  }
  lemma Prime2777() ensures Prime(2777) { PrimeIs(2777); }
  lemma Prime4177() ensures Prime(4177) { PrimeIs(4177); }
  lemma Prime6247() ensures Prime(6247) { PrimeIs(6247); }
  lemma Prime9371() ensures Prime(9371) { PrimeIs(9371); }
  lemma Prime14057() ensures Prime(14057) { assert NoDivisor(14057, 58); PrimeIs(14057); }
  lemma Prime21089() ensures Prime(21089) { assert NoDivisor(21089, 74); PrimeIs(21089); }
  lemma Prime31627() ensures Prime(31627) {
    assert NoDivisor(31627, 146); assert NoDivisor(31627, 114);
    assert NoDivisor(31627, 82); assert NoDivisor(31627, 50);
    PrimeIs(31627);
  }
  // the sizes for which the unreduced insert probe cannot overflow are prime
  lemma TablePrime(p: int)
    requires p in PRIME_TABLE && p <= 31627
    ensures Prime(p) && 11 <= p
  {
    SmallPrimes(); MiddlePrimes(); Prime2777(); Prime4177(); Prime6247(); Prime9371(); Prime14057(); Prime21089();
      Prime31627();
  }

  // ---- the probe sequence ----

  function Step(h: nat, p: nat): (s: nat)
    requires p >= 3
    ensures 1 <= s < p
  {
    (h / 32 + 1) % (p - 1) + 1
  }
  // the slot of the lookup's turn i: it starts at the hash and adds the step, reducing each time
  function Probe(h: nat, p: nat, i: nat): (j: nat)
    requires p >= 3
    ensures j < p
  {
    (h + i * Step(h, p)) % p
  }
  // the insert's unreduced, 32-bit `spot`
  function Spot(h: nat, p: nat, i: nat): nat requires p >= 3 { (h + i * Step(h, p)) % W32 }

  lemma {:induction false} NoMultiple(p: nat, s: nat, i: nat)
    requires Prime(p) && 0 < s < p && 0 < i < p
    ensures i * s % p != 0
    decreases s
  {
    if s == 1 {
      assert i * s == i;
      Small(i, p);
    } else {
      var q, r := p / s, p % s;
      assert p % s != 0;
      NoMultiple(p, r, i);
      if i * s % p == 0 { Descent(p, s, i, q, r, i * s / p); }
    }
  }
  lemma Small(i: nat, p: nat) requires i < p ensures i % p == i {}
  lemma Descent(p: nat, s: nat, i: nat, q: nat, r: nat, m: nat)
    requires p > 0 && p == q * s + r && i * s == m * p
    ensures i * r % p == 0
  {
    assert i * r == i * p - q * (i * s) by { assert i * (q * s) == q * (i * s); assert i * p == i * (q * s) + i * r; }
    assert q * (m * p) == (q * m) * p;
    assert i * r == (i - q * m) * p;
    Multiple(i - q * m, p);
  }
  lemma Multiple(k: int, p: nat)
    requires p > 0
    ensures k * p % p == 0
  {
    var x := k * p;
    var d := k - x / p;
    assert p * d == x % p by { assert x == p * (x / p) + x % p; }
    if d >= 1 { MulMono(p, 1, d); } else if d <= -1 { MulMono(p, d, -1); }
  }
  // no slot is probed twice, so all are
  lemma ProbeInjective(h: nat, p: nat, i: nat, j: nat)
    requires Prime(p) && p >= 3 && i < j < p
    ensures Probe(h, p, i) != Probe(h, p, j)
  {
    var s := Step(h, p);
    NoMultiple(p, s, j - i);
    Apart(h, i, j, s);
    OtherRest(h + i * s, h + j * s, (j - i) * s, p);
  }
  lemma Apart(h: nat, i: nat, j: nat, s: nat) ensures h + j * s - (h + i * s) == (j - i) * s {}
  lemma OtherRest(a: nat, b: nat, d: int, p: nat)
    requires p > 0 && b - a == d && d % p != 0
    ensures a % p != b % p
  {
    if a % p == b % p { SameRest(a, b, p); }
  }
  lemma SameRest(a: nat, b: nat, p: nat)
    requires p > 0 && a % p == b % p
    ensures (b - a) % p == 0
  {
    assert b - a == (b / p - a / p) * p by { assert a == a / p * p + a % p && b == b / p * p + b % p; }
    Multiple(b / p - a / p, p);
  }
  lemma ProbeNext(h: nat, p: nat, i: nat)
    requires p >= 3
    ensures Probe(h, p, 0) == h % p && Probe(h, p, i + 1) == (Probe(h, p, i) + Step(h, p)) % p
  {
    hide Probe, Step;
    var s := Step(h, p);
    ProbeFirst(h, p);
    Distribute(i, s);
    ProbeStep(h, p, i, s, h + i * s, h + (i + 1) * s);
  }
  lemma ProbeFirst(h: nat, p: nat)
    requires p >= 3
    ensures Probe(h, p, 0) == h % p
  {}
  lemma ProbeIs(h: nat, p: nat, i: nat, a: nat)
    requires p >= 3 && a == h + i * Step(h, p)
    ensures Probe(h, p, i) == a % p
  {}
  lemma ProbeStep(h: nat, p: nat, i: nat, s: nat, a: nat, b: nat)
    requires p >= 3 && s == Step(h, p) && a == h + i * s && b == h + (i + 1) * s && b == a + s
    ensures Probe(h, p, i + 1) == (Probe(h, p, i) + s) % p
  {
    hide Probe, Step;
    ProbeIs(h, p, i, a); ProbeIs(h, p, i + 1, b);
    AddMod(a, s, p);
  }
  // the sequence h + i * s modulo p, one on
  lemma NextMod(h: nat, i: nat, s: nat, p: nat)
    requires p > 0
    ensures (h + 0 * s) % p == h % p && (h + (i + 1) * s) % p == ((h + i * s) % p + s) % p
  {
    FirstMod(h, s, p);
    var a, b := h + i * s, h + (i + 1) * s;
    Distribute(i, s);
    AddMod(a, s, p);
    assert b == a + s;
  }
  lemma FirstMod(h: nat, s: nat, p: nat) requires p > 0 ensures (h + 0 * s) % p == h % p {}
  lemma Distribute(i: nat, s: nat) ensures (i + 1) * s == i * s + s {}
  lemma AddMod(x: nat, s: nat, p: nat)
    requires p > 0
    ensures (x + s) % p == (x % p + s) % p
  {
    var q := x / p;
    assert x == q * p + x % p;
    Shifted(x % p + s, q, p);
  }
  lemma Shifted(y: nat, q: nat, p: nat)
    requires p > 0
    ensures (y + q * p) % p == y % p
  {
    var r, k := y % p, y / p;
    assert y == k * p + r;
    assert y + q * p == (k + q) * p + r;
    ModIs(y + q * p, p, k + q, r);
  }
  ghost function Visited(h: nat, p: nat, n: nat): (s: set<int>)
    requires p >= 3
    ensures forall j :: j in s <==> exists i {:trigger Probe(h, p, i)} :: 0 <= i < n && Probe(h, p, i) == j
  {
    if n == 0 then {} else Visited(h, p, n - 1) + {Probe(h, p, n - 1)}
  }
  lemma NotVisited(h: nat, p: nat, n: nat)
    requires Prime(p) && p >= 3 && n < p
    ensures Probe(h, p, n) !in Visited(h, p, n)
  {
    forall i | 0 <= i < n ensures Probe(h, p, i) != Probe(h, p, n) { ProbeInjective(h, p, i, n); }
  }
  lemma {:induction false} VisitedCount(h: nat, p: nat, n: nat)
    requires Prime(p) && p >= 3 && n <= p
    ensures |Visited(h, p, n)| == n
  {
    if n > 0 {
      VisitedCount(h, p, n - 1);
      NotVisited(h, p, n - 1);
    }
  }
  ghost function Upto(n: nat): (s: set<int>)
    ensures |s| == n && forall j :: j in s <==> 0 <= j < n
  {
    if n == 0 then {} else Upto(n - 1) + {n - 1}
  }
  lemma SubsetEqual(a: set<int>, b: set<int>)
    requires a <= b && |a| == |b|
    ensures a == b
  {
    Rest(a, b);
  }
  lemma Rest(a: set<int>, b: set<int>)
    requires a <= b
    ensures |b| == |a| + |b - a| && |a| <= |b|
  {
    assert a + (b - a) == b && a * (b - a) == {};
  }
  lemma ProbeAll(h: nat, p: nat, j: nat)
    requires Prime(p) && p >= 3 && j < p
    ensures exists i {:trigger Probe(h, p, i)} :: 0 <= i < p && Probe(h, p, i) == j
  {
    VisitedCount(h, p, p);
    SubsetEqual(Visited(h, p, p), Upto(p));
    assert j in Upto(p);
  }

  // ---- the insert's sequence and the lookup's ----

  lemma SpotOK(h: nat, p: nat, i: nat)
    requires p >= 3 && p * (p - 1) <= 0x8000_0000 && h < 0x8000_0000 && i < p
    ensures Spot(h, p, i) == h + i * Step(h, p) && Spot(h, p, i) % p == Probe(h, p, i) && p <= W32
  {
    SpotBound(h, p, i, Step(h, p));
  }
  lemma SpotBound(h: nat, p: nat, i: nat, s: nat)
    requires p >= 3 && p * (p - 1) <= 0x8000_0000 && h < 0x8000_0000 && i < p && s < p
    ensures h + i * s < W32 && (h + i * s) % W32 == h + i * s && p <= W32
  {
    Product(p, i, s);
    WrapSmall(h + i * s);
  }
  lemma Product(p: nat, i: nat, s: nat)
    requires p >= 3 && i < p && s < p
    ensures i * s <= p * (p - 1) && p <= p * (p - 1)
  {
    MulMono(i, s, p - 1);
    MulMono(p - 1, i, p);
    Commute(i, p - 1); Commute(p, p - 1);
    MulMono(p, 1, p - 1);
  }
  lemma Commute(a: int, b: int) ensures a * b == b * a {}
  lemma SpotNext(h: nat, p: nat, i: nat)
    requires p >= 3 && h < W32
    ensures Spot(h, p, 0) == h && Spot(h, p, i + 1) == (Spot(h, p, i) + Step(h, p)) % W32
  {
    NextMod(h, i, Step(h, p), W32);
    Small(h, W32);
  }
  // In general the two agree exactly as long as the insert's spot does not overflow 32 bits.
  lemma SpotAgrees(h: nat, p: nat)
    requires Prime(p) && 3 <= p < W32 && h < W32
    ensures (forall i: nat {:trigger Spot(h, p, i)} :: i < p ==> Spot(h, p, i) % p == Probe(h, p, i))
      <==> h + (p - 1) * Step(h, p) < W32
  {
    var s := Step(h, p);
    if h + (p - 1) * s < W32 {
      forall i: nat | i < p ensures Spot(h, p, i) % p == Probe(h, p, i) { NoOverflow(h, s, i, p - 1); }
    } else {
      var i := FirstOver(h, s, p - 1);
      Overflows(p, h + i * s);
      assert Spot(h, p, i) % p != Probe(h, p, i);
    }
  }
  lemma NoOverflow(h: nat, s: nat, i: nat, n: nat)
    requires i <= n && h + n * s < W32
    ensures (h + i * s) % W32 == h + i * s
  {
    MulMono(s, i, n);
    assert i * s == s * i && n * s == s * n;
  }
  lemma {:induction false} FirstOver(h: nat, s: nat, n: nat) returns (i: nat)
    requires h < W32 <= h + n * s && s < W32
    ensures i <= n && W32 <= h + i * s < 2 * W32
  {
    assert (n - 1) * s == n * s - s;
    if h + (n - 1) * s < W32 { i := n; } else { i := FirstOver(h, s, n - 1); }
  }
  lemma Overflows(p: nat, x: nat)
    requires Prime(p) && 3 <= p < W32 && W32 <= x < 2 * W32
    ensures x % W32 % p != x % p
  {
    assert x % W32 == x - W32;
    if (x - W32) % p == x % p { SameRest(x - W32, x, p); Pow32(); PowNoMultiple(p, 32); }
  }
  lemma {:induction false} PowNoMultiple(p: nat, k: nat)
    requires Prime(p) && p >= 3
    ensures Pow2(k) % p != 0
  {
    if k == 0 { Small(1, p); }
    else {
      PowNoMultiple(p, k - 1);
      var r, q := Pow2(k - 1) % p, Pow2(k - 1) / p;
      NoMultiple(p, 2, r);
      assert Pow2(k) == 2 * r + (2 * q) * p by { assert Pow2(k - 1) == q * p + r; }
      Shifted(2 * r, 2 * q, p);
    }
  }
  // at the next table size there is a hash for which they part ways
  lemma NoneAbove122() ensures NoDivisor(47431, 122) { assert NoDivisor(47431, 186); assert NoDivisor(47431, 154); }
  lemma NoneAbove58() ensures NoDivisor(47431, 58) { NoneAbove122(); assert NoDivisor(47431, 90); }
  lemma Prime47431()
    ensures Prime(47431)
  {
    NoneAbove58();
    assert NoDivisor(47431, 26);
    PrimeIs(47431);
  }
  lemma SpotOver() ensures 2146112576 + 47430 * Step(2146112576, 47431) >= W32 {}
  lemma SpotParts()
    ensures 47431 in PRIME_TABLE && Prime(47431)
    ensures exists i: nat :: i < 47431 && Spot(2146112576, 47431, i) % 47431 != Probe(2146112576, 47431, i)
  {
    hide NoDivisor, Prime, Step, Spot, Probe;
    assert PRIME_TABLE[19] == 47431;
    Prime47431(); SpotOver();
    SpotAgrees(2146112576, 47431);
  }
}
