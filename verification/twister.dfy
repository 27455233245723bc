/** The words of the Mersenne Twister (cskorlib/MersenneTwister.cpp): one step of the recurrence, the tempering, and
    their inverses. */
module TwisterWords {
  const N := 624
  const M := 397
  const MATRIX_A: bv32 := 0x9908_b0df
  const UPPER_MASK: bv32 := 0x8000_0000
  const LOWER_MASK: bv32 := 0x7fff_ffff

  // ---- exclusive or ----

  function Xor(x: bv32, y: bv32): bv32 { x ^ y }
  lemma XorIs(a: bv32, b: bv32) ensures Xor(a, b) == a ^ b {}
  lemma Assoc(a: bv32, b: bv32, c: bv32) ensures Xor(Xor(a, b), c) == Xor(a, Xor(b, c)) {}
  lemma Comm(a: bv32, b: bv32) ensures Xor(a, b) == Xor(b, a) {}
  lemma Self(a: bv32) ensures Xor(a, a) == 0 && Xor(a, 0) == a && Xor(0, a) == a {}
  // the two middle terms cancel
  lemma Cancel(a: bv32, b: bv32, c: bv32)
    ensures Xor(Xor(a, b), Xor(b, c)) == Xor(a, c)
  {
    hide Xor;
    Assoc(a, b, Xor(b, c)); Assoc(b, b, c); Self(b); Self(c);
  }
  lemma Pair(a: bv32, b: bv32, c: bv32)
    ensures Xor(Xor(a, b), Xor(a, c)) == Xor(b, c)
  {
    hide Xor;
    Comm(a, b); Cancel(b, a, c);
  }
  lemma Interchange(a: bv32, b: bv32, c: bv32, d: bv32)
    ensures Xor(Xor(a, b), Xor(c, d)) == Xor(Xor(a, c), Xor(b, d))
  {
    hide Xor;
    Assoc(a, b, Xor(c, d)); Assoc(b, c, d); Comm(b, c); Assoc(c, b, d); Assoc(a, c, Xor(b, d));
  }

  // ---- one step ----

  // the top bit of one word and the 31 low bits of another
  function Join(u: bv32, l: bv32): bv32 { (u & UPPER_MASK) | (l & LOWER_MASK) }
  // the matrix constant for odd words
  function Mag(y: bv32): bv32 { if y & 1 == 0 then 0 else MATRIX_A }
  function Half(y: bv32): bv32 { y >> 1 }
  function Twist(u: bv32, l: bv32, m: bv32): bv32 { Xor(Xor(m, Half(Join(u, l))), Mag(Join(u, l))) }

  // The top bit of MATRIX_A tells whether y was odd.
  function Double(x: bv32): bv32 { if x & UPPER_MASK == 0 then x << 1 else ((x ^ MATRIX_A) << 1) | 1 }
  function Untwist(v: bv32, m: bv32): bv32 { Double(Xor(v, m)) }
  lemma HalfEven(y: bv32) requires y & 1 == 0 ensures (y >> 1) & 0x8000_0000 == 0 && (y >> 1) << 1 == y {}
  lemma HalfOdd(y: bv32)
    requires y & 1 != 0
    ensures ((y >> 1) ^ 0x9908_b0df) & 0x8000_0000 != 0 && (((y >> 1) ^ 0x9908_b0df ^ 0x9908_b0df) << 1) | 1 == y
  {}
  lemma Doubled(y: bv32)
    ensures Double(Xor(Half(y), Mag(y))) == y
  {
    if y & 1 == 0 { HalfEven(y); Self(y >> 1); } else { HalfOdd(y); }
  }
  lemma UntwistTwist(u: bv32, l: bv32, m: bv32)
    ensures Untwist(Twist(u, l, m), m) == Join(u, l)
  {
    hide Double, Half, Mag, Join, Xor;
    var y := Join(u, l);
    Assoc(m, Half(y), Mag(y)); Comm(m, Xor(Half(y), Mag(y))); Assoc(Xor(Half(y), Mag(y)), m, m);
    Self(m); Self(Xor(Half(y), Mag(y)));
    Doubled(y);
  }
  lemma JoinParts(u: bv32, l: bv32)
    ensures Join(u, l) & UPPER_MASK == u & UPPER_MASK && Join(u, l) & LOWER_MASK == l & LOWER_MASK
  {}
  lemma JoinSelf(x: bv32) ensures Join(x, x) == x {}
  lemma UntwistZero() ensures Untwist(0, 0) == 0 {}

  // ---- tempering ----

  function Part1(y: bv32): bv32 { y >> 11 }
  function Part2(y: bv32): bv32 { (y << 7) & 0x9d2c_5680 }
  function Part3(y: bv32): bv32 { (y << 15) & 0xefc6_0000 }
  function Part4(y: bv32): bv32 { y >> 18 }
  function Temper1(y: bv32): bv32 { Xor(y, Part1(y)) }
  function Temper2(y: bv32): bv32 { Xor(y, Part2(y)) }
  function Temper3(y: bv32): bv32 { Xor(y, Part3(y)) }
  function Temper4(y: bv32): bv32 { Xor(y, Part4(y)) }
  function Temper(y: bv32): bv32 { Temper4(Temper3(Temper2(Temper1(y)))) }
  function Untemper1(z: bv32): bv32 { Xor(z, Part1(Xor(z, Part1(z)))) }
  function Untemper2(z: bv32): bv32 { Xor(z, Part2(Xor(z, Part2(Xor(z, Part2(Xor(z, Part2(z)))))))) }
  function Untemper(z: bv32): bv32 { Untemper1(Untemper2(Temper3(Temper4(z)))) }
  lemma Linear1(a: bv32, b: bv32) ensures Part1(Xor(a, b)) == Xor(Part1(a), Part1(b)) {}
  lemma Linear2(a: bv32, b: bv32) ensures Part2(Xor(a, b)) == Xor(Part2(a), Part2(b)) {}
  lemma Linear3(a: bv32, b: bv32) ensures Part3(Xor(a, b)) == Xor(Part3(a), Part3(b)) {}
  lemma Linear4(a: bv32, b: bv32) ensures Part4(Xor(a, b)) == Xor(Part4(a), Part4(b)) {}
  // repeated often enough, the shifts leave nothing
  lemma Gone(a: bv32)
    ensures Part1(Part1(Part1(a))) == 0 && Part2(Part2(Part2(Part2(Part2(a))))) == 0
    ensures Part3(Part3(a)) == 0 && Part4(Part4(a)) == 0
  {}
  lemma Alike(a: bv32, b: bv32) requires Xor(a, b) == 0 ensures a == b {}
  // the tempered word, and a shift of a word that differs from the wanted one by x
  lemma Nearer1(y: bv32, x: bv32)
    ensures Xor(Temper1(y), Part1(Xor(y, x))) == Xor(y, Part1(x))
  {
    hide Part1, Xor;
    Linear1(y, x); Cancel(y, Part1(y), Part1(x));
  }
  lemma Nearer2(y: bv32, x: bv32)
    ensures Xor(Temper2(y), Part2(Xor(y, x))) == Xor(y, Part2(x))
  {
    hide Part2, Xor;
    Linear2(y, x); Cancel(y, Part2(y), Part2(x));
  }
  lemma Step1(y: bv32)
    ensures Untemper1(Temper1(y)) == y
  {
    hide Part1, Xor;
    Nearer1(y, Part1(y)); Nearer1(y, Part1(Part1(y)));
    Gone(y); Self(y);
  }
  lemma Step2(y: bv32)
    ensures Untemper2(Temper2(y)) == y
  {
    hide Part2, Xor;
    var p := Part2(y);
    Nearer2(y, p); Nearer2(y, Part2(p)); Nearer2(y, Part2(Part2(p))); Nearer2(y, Part2(Part2(Part2(p))));
    Gone(y); Self(y);
  }
  // two turns differ by the shift of what they started from
  lemma Closer1(z: bv32, a: bv32, b: bv32)
    ensures Xor(Xor(z, Part1(a)), Xor(z, Part1(b))) == Part1(Xor(a, b))
  {
    hide Part1, Xor;
    Pair(z, Part1(a), Part1(b)); Linear1(a, b);
  }
  lemma Closer2(z: bv32, a: bv32, b: bv32)
    ensures Xor(Xor(z, Part2(a)), Xor(z, Part2(b))) == Part2(Xor(a, b))
  {
    hide Part2, Xor;
    Pair(z, Part2(a), Part2(b)); Linear2(a, b);
  }
  lemma First(z: bv32, p: bv32)
    ensures Xor(Xor(z, p), z) == p
  {
    hide Xor;
    Comm(z, p); Assoc(p, z, z); Self(z); Self(p);
  }
  lemma Second(z: bv32, p: bv32)
    ensures Xor(Xor(z, p), p) == z
  {
    hide Xor;
    Assoc(z, p, p); Self(p); Self(z);
  }
  lemma Step1Back(z: bv32)
    ensures Temper1(Untemper1(z)) == z
  {
    hide Part1, Xor;
    var a := Xor(z, Part1(z));
    var u := Xor(z, Part1(a));
    First(z, Part1(z)); Closer1(z, a, z); Linear1(u, a);
    Gone(z); Alike(Part1(u), Part1(a));
    Second(z, Part1(a));
  }
  lemma Step2Back(z: bv32)
    ensures Temper2(Untemper2(z)) == z
  {
    hide Part2, Xor;
    var a := Xor(z, Part2(z));
    var b := Xor(z, Part2(a));
    var c := Xor(z, Part2(b));
    var u := Xor(z, Part2(c));
    First(z, Part2(z)); Closer2(z, a, z); Closer2(z, b, a); Closer2(z, c, b); Linear2(u, c);
    Gone(z); Alike(Part2(u), Part2(c));
    Second(z, Part2(c));
  }
  lemma Step3(y: bv32)
    ensures Temper3(Temper3(y)) == y
  {
    hide Part3, Xor;
    Linear3(y, Part3(y)); Gone(y); Self(Part3(y));
    Second(y, Part3(y));
  }
  lemma Step4(y: bv32)
    ensures Temper4(Temper4(y)) == y
  {
    hide Part4, Xor;
    Linear4(y, Part4(y)); Gone(y); Self(Part4(y));
    Second(y, Part4(y));
  }
  // tempering is a bijection on words
  lemma TemperBijection(y: bv32)
    ensures Untemper(Temper(y)) == y && Temper(Untemper(y)) == y
  {
    hide Temper1, Temper2, Temper3, Temper4, Untemper1, Untemper2;
    Step1(y); Step2(Temper1(y)); Step3(Temper2(Temper1(y))); Step4(Temper3(Temper2(Temper1(y))));
    Step4(y); Step3(Temper4(y));
    var z := Temper3(Temper4(y));
    Step2Back(z); Step1Back(Untemper2(z));
  }

  // ---- what the words become, bit by bit: both functions are linear, so the single bits tell all ----

  lemma TemperLinear(a: bv32, b: bv32)
    ensures Temper(a ^ b) == Temper(a) ^ Temper(b)
  {
    hide *;
    XorIs(a, b); TemperSum(a, b); XorIs(Temper(a), Temper(b));
  }
  lemma TemperSum(a: bv32, b: bv32)
    ensures Temper(Xor(a, b)) == Xor(Temper(a), Temper(b))
  {
    hide Part1, Part2, Part3, Part4, Xor;
    Linear1(a, b); Interchange(a, b, Part1(a), Part1(b));
    var a1, b1 := Temper1(a), Temper1(b);
    Linear2(a1, b1); Interchange(a1, b1, Part2(a1), Part2(b1));
    var a2, b2 := Temper2(a1), Temper2(b1);
    Linear3(a2, b2); Interchange(a2, b2, Part3(a2), Part3(b2));
    var a3, b3 := Temper3(a2), Temper3(b2);
    Linear4(a3, b3); Interchange(a3, b3, Part4(a3), Part4(b3));
  }
  lemma TemperUnits()
    ensures Temper(0x0000_0001) == 0x0040_0091 && Temper(0x0000_0002) == 0x0000_0002
    ensures Temper(0x0000_0004) == 0x0102_0244 && Temper(0x0000_0008) == 0x0204_0489
    ensures Temper(0x0000_0010) == 0x0000_0010 && Temper(0x0000_0020) == 0x0800_1220
    ensures Temper(0x0000_0040) == 0x0000_0040 && Temper(0x0000_0080) == 0x2040_4890
    ensures Temper(0x0000_0100) == 0x0080_0120 && Temper(0x0000_0200) == 0x0100_0240
    ensures Temper(0x0000_0400) == 0x0200_0480 && Temper(0x0000_0800) == 0x0444_0990
    ensures Temper(0x0000_1000) == 0x0808_1200 && Temper(0x0000_2000) == 0x0102_2244
    ensures Temper(0x0000_4000) == 0x2224_4c81 && Temper(0x0000_8000) == 0x4000_9010
    ensures Temper(0x0001_0000) == 0x8801_3220 && Temper(0x0002_0000) == 0x0102_0000
    ensures Temper(0x0004_0000) == 0x2044_4891 && Temper(0x0008_0000) == 0x0488_0022
    ensures Temper(0x0010_0000) == 0x0910_0044 && Temper(0x0020_0000) == 0x1220_0088
    ensures Temper(0x0040_0000) == 0x0444_0911 && Temper(0x0080_0000) == 0x0888_1222
    ensures Temper(0x0100_0000) == 0x8100_0040 && Temper(0x0200_0000) == 0x2220_4888
    ensures Temper(0x0400_0000) == 0x4400_9100 && Temper(0x0800_0000) == 0x8801_2200
    ensures Temper(0x1000_0000) == 0x1102_0440 && Temper(0x2000_0000) == 0x2004_0801
    ensures Temper(0x4000_0000) == 0x4408_1102 && Temper(0x8000_0000) == 0x8810_2204
  {}
  lemma HalfSum(a: bv32, b: bv32) ensures Half(Xor(a, b)) == Xor(Half(a), Half(b)) {}
  lemma Parity(a: bv32, b: bv32) ensures Xor(a, b) & 1 == 0 <==> (a & 1 == 0 <==> b & 1 == 0) {}
  lemma MagSum(a: bv32, b: bv32)
    ensures Mag(Xor(a, b)) == Xor(Mag(a), Mag(b))
  {
    hide Xor;
    Parity(a, b); Self(0); Self(MATRIX_A);
  }
  function Top(u: bv32): bv32 { u & 0x8000_0000 }
  function Bottom(l: bv32): bv32 { l & 0x7fff_ffff }
  lemma JoinIs(u: bv32, l: bv32) ensures Join(u, l) == Xor(Top(u), Bottom(l)) {}
  lemma TopSum(a: bv32, b: bv32) ensures Top(Xor(a, b)) == Xor(Top(a), Top(b)) {}
  lemma BottomSum(a: bv32, b: bv32) ensures Bottom(Xor(a, b)) == Xor(Bottom(a), Bottom(b)) {}
  lemma JoinSum(u: bv32, l: bv32, u': bv32, l': bv32)
    ensures Join(Xor(u, u'), Xor(l, l')) == Xor(Join(u, l), Join(u', l'))
  {
    hide Join, Top, Bottom, Xor;
    JoinIs(u, l); JoinIs(u', l'); JoinIs(Xor(u, u'), Xor(l, l'));
    TopSum(u, u'); BottomSum(l, l');
    Interchange(Top(u), Top(u'), Bottom(l), Bottom(l'));
  }
  lemma TwistSum(u: bv32, l: bv32, m: bv32, u': bv32, l': bv32, m': bv32)
    ensures Twist(Xor(u, u'), Xor(l, l'), Xor(m, m')) == Xor(Twist(u, l, m), Twist(u', l', m'))
  {
    hide Half, Mag, Join, Xor;
    JoinSum(u, l, u', l');
    var y, y' := Join(u, l), Join(u', l');
    HalfSum(y, y'); MagSum(y, y');
    Interchange(m, m', Half(y), Half(y'));
    Interchange(Xor(m, Half(y)), Xor(m', Half(y')), Mag(y), Mag(y'));
  }
  lemma TwistLinear(u: bv32, l: bv32, m: bv32, u': bv32, l': bv32, m': bv32)
    ensures Twist(u ^ u', l ^ l', m ^ m') == Twist(u, l, m) ^ Twist(u', l', m')
  {
    hide *;
    XorIs(u, u'); XorIs(l, l'); XorIs(m, m'); TwistSum(u, l, m, u', l', m');
    XorIs(Twist(u, l, m), Twist(u', l', m'));
  }
  // of u only the top bit matters, which becomes the second; of l the others, each of which moves down by one, but for
  // the lowest, which becomes the matrix constant; m is taken as it is
  lemma TwistUnits(x: bv32)
    ensures Twist(0, 0, x) == x
    ensures Twist(x, 0, 0) == if x & 0x8000_0000 == 0 then 0 else 0x4000_0000
    ensures Twist(0, 0x8000_0000, 0) == 0 && Twist(0, 1, 0) == 0x9908_b0df
    ensures x & 0x8000_0001 == 0 ==> Twist(0, x, 0) == x >> 1
  {
    hide Half, Mag, Join, Xor;
    ZeroParts(); TopOnly(x);
    if x & 0x8000_0001 == 0 { JoinZero(x); }
    Self(x); Self(0); Self(MATRIX_A); Self(0x4000_0000); Self(x >> 1);
  }
  lemma ZeroParts()
    ensures Join(0, 0) == 0 && Half(0) == 0 && Mag(0) == 0
    ensures Half(0x8000_0000) == 0x4000_0000 && Mag(0x8000_0000) == 0 && Join(0, 0x8000_0000) == 0
    ensures Half(1) == 0 && Mag(1) == MATRIX_A && Join(0, 1) == 1
  {}
  lemma TopOnly(x: bv32) ensures Join(x, 0) == if x & 0x8000_0000 == 0 then 0 else 0x8000_0000 {}
  lemma JoinZero(x: bv32) requires x & 0x8000_0001 == 0 ensures Join(0, x) == x && Half(x) == x >> 1 && Mag(x) == 0 {}
}
