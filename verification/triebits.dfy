/** The bits of a size that steer a descent through a tree bin (kernel/malloc.c:2180-2188, 2894-2908, 3556-3577). */
module TrieBits {
  import opened Bits
  import opened Bins

  // leftshift_for_tree_index
  function LeftShift(i: nat): int { if i == 31 then 0 else 31 - (i / 2 + 8 - 2) }
  // the sign bit of a 32-bit word, and the word shifted left by one
  predicate SignBit(k: int) { k >= 0x8000_0000 }
  function ShiftLeft(k: int): int { if SignBit(k) then 2 * k - W32 else 2 * k }
  function SizeBits(s: int, i: nat): int requires i < 32 { s * Pow2(LeftShift(i)) % W32 }

  // a bin's sizes span 2^SpanBits(i) values, and a size's offset in them is what SizeBits holds
  ghost function SpanBits(i: nat): nat { if i == 31 then 32 else i / 2 + 7 }
  // K holds the offset d of the size in a span of 2^e values, from the sign bit down
  ghost predicate Holds(k: int, d: int, e: nat) { e <= 32 && 0 <= d < Pow2(e) && k == d * Pow2(32 - e) }

  lemma SpanIs(i: nat)
    requires i < 32
    ensures Span(i) == Pow2(SpanBits(i))
  {
    Pow32();
  }
  lemma SizeBitsHold(s: nat, i: nat)
    requires i < 32 && Lo(i) <= s < Lo(i) + Span(i) && s < W32
    ensures Holds(SizeBits(s, i), s - Lo(i), SpanBits(i))
  {
    SpanIs(i);
    if i < 31 { BinBits(s, i, i / 2 + 7); }
  }
  lemma BinBits(s: nat, i: nat, e: nat)
    requires i < 31 && e == i / 2 + 7 && Lo(i) <= s < Lo(i) + Pow2(e)
    ensures s * Pow2(32 - e) % W32 == (s - Lo(i)) * Pow2(32 - e)
  {
    PowAdd(e, 32 - e); Pow32();
    LoIs(i, e);
    BinArith(s, 2 + i % 2, Pow2(e), Pow2(32 - e));
  }
  lemma LoIs(i: nat, e: nat)
    requires i < 31 && e == i / 2 + 7
    ensures Lo(i) == (2 + i % 2) * Pow2(e)
  {
    assert Pow2(i / 2 + 8) == 2 * Pow2(e);
    if i % 2 == 0 { assert (2 + i % 2) * Pow2(e) == 2 * Pow2(e); } else { assert (2 + i % 2) * Pow2(e) == 3 * Pow2(e); }
  }
  lemma BinArith(s: int, q: int, p: int, c: int)
    requires p > 0 && c > 0 && p * c == W32 && 0 <= s - q * p < p
    ensures s * c % W32 == (s - q * p) * c
  {
    var d := s - q * p;
    Distribute(d, q, p, c);
    MulLe(d + 1, p, c);
    WrapAround(d * c, q);
  }
  lemma Distribute(d: int, q: int, p: int, c: int) ensures (d + q * p) * c == d * c + q * (p * c) {}
  lemma WrapAround(x: int, q: int)
    requires 0 <= x < W32
    ensures (x + q * W32) % W32 == x
  {}
  lemma Descend(k: int, d: int, e: nat)
    requires Holds(k, d, e) && e > 0
    ensures SignBit(k) <==> d >= Pow2(e - 1)
    ensures Holds(ShiftLeft(k), if SignBit(k) then d - Pow2(e - 1) else d, e - 1)
    ensures 0 <= k < W32
  {
    PowAdd(e - 1, 32 - e); Pow32();
    DescendArith(k, d, Pow2(e - 1), Pow2(32 - e));
  }
  lemma DescendArith(k: int, d: int, p: int, c: int)
    requires p > 0 && c > 0 && p * c == 0x8000_0000 && 0 <= d < 2 * p && k == d * c
    ensures 0 <= k < W32 && (SignBit(k) <==> d >= p)
    ensures ShiftLeft(k) == (if d >= p then d - p else d) * (2 * c)
  {
    if d >= p {
      MulLe(p, d, c); MulLe(d + 1, 2 * p, c);
      assert 2 * p * c == 2 * (p * c);
      assert (d - p) * (2 * c) == 2 * (d * c) - 2 * (p * c);
    } else {
      MulLe(d + 1, p, c);
      assert d * (2 * c) == 2 * (d * c);
    }
  }
}
