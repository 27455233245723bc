/** Bits of 32-bit words: bitmaps, the least set bit and its index (kernel/malloc.c:2198-2245). */
module Bits {
  const W32 := 0x1_0000_0000

  function Pow2(i: nat): (r: int) ensures r >= 1 { if i == 0 then 1 else 2 * Pow2(i - 1) }
  function And(x: nat, y: nat): nat { if x == 0 || y == 0 then 0 else (x % 2) * (y % 2) + 2 * And(x / 2, y / 2) }
  function Or(x: nat, y: nat): nat
    decreases x + y
  {
    if x == 0 && y == 0 then 0 else (if x % 2 + y % 2 == 0 then 0 else 1) + 2 * Or(x / 2, y / 2)
  }
  function Shr(x: nat, i: nat): nat { if i == 0 then x else Shr(x / 2, i - 1) }
  function Shl(x: nat, i: nat): nat decreases i { if i == 0 then x else Shl(2 * x % W32, i - 1) }
  function Neg(x: nat): nat requires x < W32 { if x == 0 then 0 else W32 - x }
  function Not(x: nat): nat requires x < W32 { W32 - 1 - x }

  predicate Marked(m: nat, i: nat) { if i == 0 then m % 2 == 1 else Marked(m / 2, i - 1) }

  lemma {:induction false} AndBit(x: nat, y: nat, i: nat)
    ensures Marked(And(x, y), i) <==> Marked(x, i) && Marked(y, i)
  {
    if x == 0 || y == 0 { ZeroBit(i); }
    else {
      assert And(x, y) % 2 == (x % 2) * (y % 2) && And(x, y) / 2 == And(x / 2, y / 2);
      if i > 0 { AndBit(x / 2, y / 2, i - 1); }
    }
  }
  lemma ZeroBit(i: nat) ensures !Marked(0, i) {}
  lemma {:induction false} OrBit(x: nat, y: nat, i: nat)
    ensures Marked(Or(x, y), i) <==> Marked(x, i) || Marked(y, i)
  {
    if x == 0 && y == 0 { ZeroBit(i); }
    else {
      assert Or(x, y) / 2 == Or(x / 2, y / 2);
      if i > 0 { OrBit(x / 2, y / 2, i - 1); }
    }
  }
  lemma {:induction false} PowBit(i: nat, j: nat)
    ensures Marked(Pow2(i), j) <==> i == j
  {
    if i == 0 { if j > 0 { ZeroBit(j - 1); } }
    else { assert Pow2(i) / 2 == Pow2(i - 1); if j > 0 { PowBit(i - 1, j - 1); } }
  }
  lemma {:induction false} NotBit(x: nat, w: nat, i: nat)
    requires x < Pow2(w) && i < w
    ensures Marked(Pow2(w) - 1 - x, i) <==> !Marked(x, i)
  {
    assert (Pow2(w) - 1 - x) / 2 == Pow2(w - 1) - 1 - x / 2;
    if i > 0 { NotBit(x / 2, w - 1, i - 1); }
  }
  lemma Pow32() ensures Pow2(32) == W32 {
    assert Pow2(8) == 256; assert Pow2(16) == 0x1_0000 by { PowAdd(8, 8); } PowAdd(16, 16);
  }
  lemma {:induction false} PowAdd(i: nat, j: nat)
    ensures Pow2(i + j) == Pow2(i) * Pow2(j)
  {
    if j > 0 { PowAdd(i, j - 1); assert Pow2(i+j) == 2 * Pow2(i + (j-1)); }
  }
  lemma {:induction false} PowMono(i: nat, j: nat)
    requires i < j
    ensures Pow2(i) < Pow2(j)
  {
    if i + 1 < j { PowMono(i, j - 1); }
  }

  function Mark(m: nat, i: nat): nat { Or(m, Pow2(i)) }
  function Clear(m: nat, i: nat): nat requires i < 32 { PowMono(i, 32); Pow32(); And(m, Not(Pow2(i))) }
  lemma MarkBit(m: nat, i: nat, j: nat)
    ensures Marked(Mark(m, i), j) <==> i == j || Marked(m, j)
  {
    OrBit(m, Pow2(i), j); PowBit(i, j);
  }
  lemma {:induction false} MarkIdem(m: nat, i: nat)
    requires Marked(m, i)
    ensures Mark(m, i) == m
  {
    if i == 0 { OrZero(m / 2); } else { MarkIdem(m / 2, i - 1); }
  }
  lemma {:induction false} OrZero(m: nat) ensures Or(m, 0) == m { if m != 0 { OrZero(m / 2); } }
  lemma ClearBit(m: nat, i: nat, j: nat)
    requires i < 32 && j < 32
    ensures Marked(Clear(m, i), j) <==> i != j && Marked(m, j)
  {
    PowMono(i, 32); Pow32();
    AndBit(m, Not(Pow2(i)), j); PowBit(i, j); NotBit(Pow2(i), 32, j);
  }
  lemma {:induction false} OrBound(x: nat, y: nat, w: nat)
    requires x < Pow2(w) && y < Pow2(w)
    ensures Or(x, y) < Pow2(w)
  { if w > 0 && (x != 0 || y != 0) { OrBound(x / 2, y / 2, w - 1); } }
  lemma {:induction false} AndBound(x: nat, y: nat)
    ensures And(x, y) <= x
  { if x != 0 && y != 0 { AndBound(x / 2, y / 2); } }
  // a word is its bits
  lemma {:induction false} NoBits(m: nat, w: nat)
    requires m < Pow2(w) && forall i: nat :: i < w ==> !Marked(m, i)
    ensures m == 0
  {
    if w > 0 {
      assert !Marked(m, 0);
      forall i: nat | i < w - 1 ensures !Marked(m / 2, i) { assert !Marked(m, i + 1); }
      NoBits(m / 2, w - 1);
    }
  }
  lemma {:induction false} ShrBit(m: nat, i: nat, j: nat)
    ensures Marked(Shr(m, i), j) <==> Marked(m, i + j)
  { if i > 0 { ShrBit(m / 2, i - 1, j); } }

  // ---- least_bit, left_bits, compute_bit2idx ----
  function LeastBit(x: nat): nat requires x < W32 { And(x, Neg(x)) }
  function LeftBits(x: nat): nat requires x < W32 { Or(2 * x % W32, Neg(2 * x % W32)) }
  // compute_bit2idx: for d = 16, 8, 4, 2, 1, shift y down by d if that leaves an odd word, and count the shifts
  function Halvings(n: nat, y: nat, d: nat): nat
    decreases d
  {
    if d == 0 then n + y
    else if Shr(y, d) % 2 == 1 then Halvings(n + d, Shr(y, d), d / 2)
    else Halvings(n, y, d / 2)
  }
  function Bit2Idx(x: nat): nat requires x > 0 { Halvings(0, x - 1, 16) }
  lemma {:induction false} AndComplement(x: nat, w: nat)
    requires x < Pow2(w)
    ensures And(x, Pow2(w) - 1 - x) == 0
  {
    if x != 0 && w > 0 {
      assert (Pow2(w) - 1 - x) / 2 == Pow2(w - 1) - 1 - x / 2;
      AndComplement(x / 2, w - 1);
      if Pow2(w) - 1 - x > 0 { assert (x % 2) * ((Pow2(w) - 1 - x) % 2) == 0; }
    }
  }
  lemma {:induction false} LeastIs(x: nat, w: nat, k: nat)
    requires 0 < x < Pow2(w) && k < w && Marked(x, k) && forall j: nat :: j < k ==> !Marked(x, j)
    ensures And(x, Pow2(w) - x) == Pow2(k)
  {
    if k == 0 {
      assert (Pow2(w) - x) / 2 == Pow2(w - 1) - 1 - x / 2;
      assert (Pow2(w) - x) % 2 == 1;
      AndComplement(x / 2, w - 1);
    } else {
      assert !Marked(x, 0);
      forall j: nat | j < k - 1 ensures !Marked(x / 2, j) { assert !Marked(x, j + 1); }
      LeastIs(x / 2, w - 1, k - 1);
      assert (Pow2(w) - x) / 2 == Pow2(w - 1) - x / 2;
    }
  }
  lemma {:induction false} LeftIs(i: nat, w: nat, j: nat)
    requires i < w && j < w
    ensures Pow2(i) < Pow2(w) && (Marked(Pow2(w) - Pow2(i), j) <==> i <= j)
  {
    PowMono(i, w);
    if i == 0 { NotBit(0, w, j); ZeroBit(j); assert Pow2(w) - 1 - 0 == Pow2(w) - Pow2(0); }
    else {
      assert (Pow2(w) - Pow2(i)) / 2 == Pow2(w - 1) - Pow2(i - 1);
      if j > 0 { LeftIs(i - 1, w - 1, j - 1); }
    }
  }
  lemma LeftBit(i: nat, j: nat)
    requires i < 32 && j < 32
    ensures Pow2(i) < W32
    ensures Marked(LeftBits(Pow2(i)), j) <==> i < j
  {
    PowMono(i, 32); Pow32();
    var y := 2 * Pow2(i) % W32;
    OrBit(y, Neg(y), j);
    if i < 31 {
      PowMono(i + 1, 32);
      assert y == Pow2(i + 1);
      LeftIs(i + 1, 32, j); PowBit(i + 1, j);
    } else {
      assert y == 0; ZeroBit(j);
    }
  }

  lemma {:induction false} ShrOnes(k: nat, d: nat)
    ensures Shr(Pow2(k) - 1, d) == if d <= k then Pow2(k - d) - 1 else 0
  {
    if d > 0 {
      if k > 0 { assert (Pow2(k) - 1) / 2 == Pow2(k - 1) - 1; ShrOnes(k - 1, d - 1); }
      else { ShrOnes(0, d - 1); }
    }
  }
  lemma {:induction false} HalvingsOK(n: nat, k: nat, d: nat)
    requires d in {0, 1, 2, 4, 8, 16} && k <= 2 * d + (if d == 0 then 1 else 0)
    ensures Halvings(n, Pow2(k) - 1, d) == n + k
    decreases d
  {
    hide Pow2, Shr;
    OddOnes(k);
    if d > 0 {
      ShrOnes(k, d);
      OddOnes(if k > d then k - d else 0);
      if k > d { HalvingsOK(n + d, k - d, d / 2); } else { HalvingsOK(n, k, d / 2); }
    }
  }
  lemma OddOnes(j: nat)
    ensures (j == 0 ==> Pow2(j) == 1) && (j == 1 ==> Pow2(j) == 2) && (j > 0 ==> (Pow2(j) - 1) % 2 == 1)
  {}
  lemma Bit2IdxOK(k: nat)
    requires k < 32
    ensures Bit2Idx(Pow2(k)) == k
  {
    HalvingsOK(0, k, 16);
  }

  // every word but zero has a lowest marked bit
  lemma {:induction false} SomeBit(m: nat, w: nat) returns (k: nat)
    requires 0 < m < Pow2(w)
    ensures k < w && Marked(m, k) && forall j: nat :: j < k ==> !Marked(m, j)
  {
    if m % 2 == 1 { k := 0; }
    else {
      var k' := SomeBit(m / 2, w - 1);
      k := k' + 1;
      forall j: nat | j < k ensures !Marked(m, j) { if j > 0 { assert !Marked(m / 2, j - 1); } }
    }
  }
  lemma LeastIdx(m: nat)
    requires 0 < m < W32
    ensures LeastBit(m) > 0
    ensures var k := Bit2Idx(LeastBit(m)); k < 32 && Marked(m, k) && forall j: nat :: j < k ==> !Marked(m, j)
  {
    Pow32();
    var k := SomeBit(m, 32);
    LeastIs(m, 32, k);
    Bit2IdxOK(k);
  }
  lemma NextIdx(m: nat, i: nat)
    requires m < W32 && i < 32
    ensures Pow2(i) < W32
    ensures var b := And(LeftBits(Pow2(i)), m);
      && b < W32
      && (b == 0 ==> forall j: nat :: i < j < 32 ==> !Marked(m, j))
      && (b != 0 ==>
          && LeastBit(b) > 0
          && var k := Bit2Idx(LeastBit(b)); i < k < 32 && Marked(m, k) && forall j: nat :: i < j < k ==> !Marked(m, j))
  {
    PowMono(i, 32); Pow32();
    var b := And(LeftBits(Pow2(i)), m);
    AndBound(m, LeftBits(Pow2(i)));
    AndComm(m, LeftBits(Pow2(i)));
    forall j: nat | j < 32 ensures Marked(b, j) <==> i < j && Marked(m, j) {
      AndBit(LeftBits(Pow2(i)), m, j); LeftBit(i, j);
    }
    if b == 0 {
      forall j: nat | i < j < 32 ensures !Marked(m, j) { assert Marked(b, j) <==> i < j && Marked(m, j); ZeroBit(j); }
    }
    else { LeastIdx(b); }
  }
  lemma {:induction false} AndComm(x: nat, y: nat) ensures And(x, y) == And(y, x) {
    if x != 0 && y != 0 { AndComm(x / 2, y / 2); }
  }

  // ---- the selection of a small bin: the shifted map, its two low bits, and what is left above them ----

  lemma {:induction false} ShrBound(m: nat, i: nat) ensures Shr(m, i) <= m { if i > 0 { ShrBound(m / 2, i - 1); } }
  lemma LowBits(x: nat)
    ensures And(x, 3) != 0 <==> Marked(x, 0) || Marked(x, 1)
    ensures x < W32 ==> And(Not(x), 1) == if Marked(x, 0) then 0 else 1
  {
    assert And(x / 2, 1) == x / 2 % 2 + 2 * And(x / 4, 0);
    assert x < W32 ==> And(Not(x), 1) == Not(x) % 2 + 2 * And(Not(x) / 2, 0);
  }
  lemma Quotient(x: nat, m: nat) returns (q: nat, r: nat)
    requires m > 0
    ensures x == m * q + r && r < m && r == x % m
  {
    q, r := x / m, x % m;
    DivLaw(x, m);
  }
  lemma DivLaw(x: nat, m: nat) requires m > 0 ensures x == m * (x / m) + x % m && x % m < m {}
  lemma TwiceProduct(p: nat, q: nat) ensures (2 * p) * q == 2 * (p * q) {}
  lemma HalfParts(x: nat, a: nat, r: nat)
    requires x == 2 * a + r
    ensures x / 2 == a + r / 2 && x % 2 == r % 2
  {}
  lemma HalfRest(x: nat, p: nat, q: nat, r: nat)
    requires x == (2 * p) * q + r && r < 2 * p
    ensures r / 2 == x / 2 % p && r % 2 == x % 2
  {
    TwiceProduct(p, q);
    HalfParts(x, p * q, r);
    ModIs(x / 2, p, q, r / 2);
  }
  lemma ModDouble(x: nat, p: nat, m: nat)
    requires p > 0 && m == 2 * p
    ensures x % m / 2 == x / 2 % p && x % m % 2 == x % 2
  {
    var q, r := Quotient(x, m);
    HalfRest(x, p, q, r);
  }
  lemma ModHalf(x: nat, p: nat)
    requires p > 0
    ensures x % (2 * p) / 2 == x / 2 % p && x % (2 * p) % 2 == x % 2
  {
    ModDouble(x, p, 2 * p);
  }
  lemma ModIs(y: nat, p: nat, q: nat, r: nat)
    requires y == p * q + r && r < p
    ensures y % p == r
  {
    var d := q - y / p;
    assert p * d == y % p - r by { assert y == p * (y / p) + y % p; }
    if d >= 1 { MulMono(p, 1, d); } else if d <= -1 { MulMono(p, d, -1); }
  }
  lemma MulMono(p: nat, a: int, b: int) requires a <= b ensures p * a <= p * b {}
  lemma MulLe(a: int, b: int, q: int) requires a <= b && q >= 0 ensures a * q <= b * q {}
  lemma WrapSmall(x: nat) requires x < W32 ensures x % W32 == x {}
  lemma {:induction false} ModBit(x: nat, w: nat, k: nat)
    requires k < w
    ensures Marked(x % Pow2(w), k) <==> Marked(x, k)
  {
    ModHalf(x, Pow2(w - 1));
    if k > 0 { ModBit(x / 2, w - 1, k - 1); }
  }
  lemma {:induction false} ShlBit(x: nat, i: nat, j: nat)
    requires x < W32 && j < 32
    ensures Marked(Shl(x, i), j) <==> i <= j && Marked(x, j - i)
    decreases i
  {
    if i > 0 {
      ShlBit(2 * x % W32, i - 1, j);
      if i - 1 <= j { Pow32(); ModBit(2 * x, 32, j - (i - 1)); }
    }
  }
  lemma {:induction false} SameBits(a: nat, b: nat, w: nat)
    requires a < Pow2(w) && b < Pow2(w) && forall i: nat :: i < w ==> (Marked(a, i) <==> Marked(b, i))
    ensures a == b
  {
    if w > 0 {
      assert Marked(a, 0) <==> Marked(b, 0);
      forall i: nat | i < w - 1 ensures Marked(a / 2, i) <==> Marked(b / 2, i) {
        assert Marked(a, i + 1) <==> Marked(b, i + 1);
      }
      SameBits(a / 2, b / 2, w - 1);
    }
  }
  lemma AboveBits(m: nat, i: nat)
    requires m < W32 && i < 32
    ensures Pow2(i) < W32 && Shr(m, i) < W32
    ensures And(Shl(Shr(m, i), i), LeftBits(Pow2(i))) == And(LeftBits(Pow2(i)), m)
  {
    PowMono(i, 32); Pow32();
    ShrBound(m, i);
    var x, l := Shl(Shr(m, i), i), LeftBits(Pow2(i));
    AndBound(m, l); AndComm(m, l); ShlBound(Shr(m, i), i); AndBound(x, l);
    forall j: nat | j < 32 ensures Marked(And(x, l), j) <==> Marked(And(l, m), j) {
      AndBit(x, l, j); AndBit(l, m, j); LeftBit(i, j); ShlBit(Shr(m, i), i, j);
      if i <= j { ShrBit(m, i, j - i); }
    }
    SameBits(And(x, l), And(l, m), 32);
  }
  lemma {:induction false} ShlBound(x: nat, i: nat)
    requires x < W32
    ensures Shl(x, i) < W32
    decreases i
  { if i > 0 { ShlBound(2 * x % W32, i - 1); } }
  // The bin that serves a small request of index i, if any: i or i + 1 first, then the least one above.
  lemma SmallBits(m: nat, i: nat)
    requires m < W32 && i < 32
    ensures Shr(m, i) < W32 && Pow2(i) < W32
    ensures And(Shr(m, i), 3) != 0 <==> Marked(m, i) || Marked(m, i + 1)
    ensures And(Not(Shr(m, i)), 1) == if Marked(m, i) then 0 else 1
    ensures Shr(m, i) == 0 ==> forall j: nat :: i <= j < 32 ==> !Marked(m, j)
  {
    PowMono(i, 32); Pow32();
    ShrBound(m, i); LowBits(Shr(m, i));
    ShrBit(m, i, 0); ShrBit(m, i, 1);
    if Shr(m, i) == 0 {
      forall j: nat | i <= j < 32 ensures !Marked(m, j) { ShrBit(m, i, j - i); ZeroBit(j - i); }
    }
  }
  lemma NextSmall(m: nat, i: nat)
    requires m < W32 && i < 32 && Shr(m, i) != 0 && !Marked(m, i) && !Marked(m, i + 1)
    ensures Shr(m, i) < W32 && Pow2(i) < W32
    ensures var b := And(Shl(Shr(m, i), i), LeftBits(Pow2(i)));
      0 < b < W32 && LeastBit(b) > 0
        && var k := Bit2Idx(LeastBit(b));
           i + 1 < k < 32 && Marked(m, k) && forall j: nat :: i <= j < k ==> !Marked(m, j)
  {
    AboveBits(m, i); NextIdx(m, i);
    var b := And(LeftBits(Pow2(i)), m);
    if b == 0 { NoneAbove(m, i); }
    var k := Bit2Idx(LeastBit(b));
    assert k != i + 1;
  }
  lemma NoneAbove(m: nat, i: nat)
    requires m < W32 && i < 32 && forall j: nat :: i <= j < 32 ==> !Marked(m, j)
    ensures Shr(m, i) == 0
  {
    Pow32(); ShrBound(m, i);
    forall j: nat | j < 32 ensures !Marked(Shr(m, i), j) { ShrBit(m, i, j); if i + j >= 32 { HighBit(m, 32, i + j); } }
    NoBits(Shr(m, i), 32);
  }
  lemma {:induction false} HighBit(m: nat, w: nat, j: nat)
    requires m < Pow2(w) && j >= w
    ensures !Marked(m, j)
  { if w == 0 { ZeroBit(j); } else { HighBit(m / 2, w - 1, j - 1); } }

  // ---- powers of two and masks ----

  predicate PowerOfTwo(a: nat) { a > 0 && And(a, a - 1) == 0 }
  lemma {:induction false} AndSelf(x: nat)
    ensures And(x, x) == x
  {
    if x != 0 { AndSelf(x / 2); assert (x % 2) * (x % 2) == x % 2; }
  }
  // a word and its predecessor share no bit exactly if the word is a power of two
  lemma {:induction false} PowerLog(a: nat) returns (k: nat)
    requires PowerOfTwo(a)
    ensures a == Pow2(k)
  {
    if a == 1 { k := 0; }
    else {
      AndSelf(a / 2);
      assert a % 2 == 0;
      assert a - 1 > 0 && (a - 1) / 2 == a / 2 - 1;
      k := PowerLog(a / 2);
      k := k + 1;
    }
  }
  lemma {:induction false} PowerIs(k: nat)
    ensures PowerOfTwo(Pow2(k))
  {
    if k > 0 {
      PowerIs(k - 1);
      assert Pow2(k) / 2 == Pow2(k - 1) && (Pow2(k) - 1) / 2 == Pow2(k - 1) - 1 && Pow2(k) % 2 == 0;
    }
  }
  lemma {:induction false} AndOnes(x: nat, w: nat)
    requires x < Pow2(w)
    ensures And(x, Pow2(w) - 1) == x
  {
    if x != 0 {
      assert (Pow2(w) - 1) / 2 == Pow2(w - 1) - 1 && (Pow2(w) - 1) % 2 == 1;
      AndOnes(x / 2, w - 1);
    }
  }
  // masking with the negative of a power of two
  lemma {:induction false} AndMask(x: nat, k: nat, w: nat)
    requires x < Pow2(w) && k < w
    ensures Pow2(k) < Pow2(w) && And(x, Pow2(w) - Pow2(k)) == x - x % Pow2(k)
  {
    PowMono(k, w);
    if k == 0 { AndOnes(x, w); }
    else {
      var y := Pow2(w) - Pow2(k);
      assert y / 2 == Pow2(w - 1) - Pow2(k - 1) && y % 2 == 0;
      AndMask(x / 2, k - 1, w - 1);
      ModHalf(x, Pow2(k - 1));
      if x != 0 { assert (x % 2) * (y % 2) == 0; }
    }
  }
  lemma {:induction false} OrAbove(x: nat, y: nat)
    ensures Or(x, y) >= x && Or(x, y) >= y
    decreases x + y
  {
    if x != 0 || y != 0 { OrAbove(x / 2, y / 2); }
  }
  // the test of two sizes at once: if their union has no bit above the low 16, both are below 2^16
  lemma BothSmall(x: nat, y: nat)
    requires x < W32 && y < W32 && And(Or(x, y), Not(0xFFFF)) == 0
    ensures x < 0x1_0000 && y < 0x1_0000
  {
    Pow32();
    OrBound(x, y, 32);
    OrAbove(x, y);
    AndMask(Or(x, y), 16, 32);
    assert Pow2(16) == 0x1_0000 by { PowAdd(8, 8); assert Pow2(8) == 256; }
  }
}
