/** The class of cskorlib/MersenneTwister.cpp: an array of 624 words regenerated in place. */
module MersenneTwisters {
  import opened TwisterWords
  import opened TwisterStates
  import opened TwisterKeyed

  // the word that replaces u, from u, its successor l and the word m further on
  method NewWord(u: bv32, l: bv32, m: bv32) returns (r: bv32)
    ensures r == Twist(u, l, m)
  {
    hide Join, Half, Mag, Xor;
    var y := (u & UPPER_MASK) | (l & LOWER_MASK);
    var half, mag := y >> 1, if y & 1 == 0 then 0 else MATRIX_A;
    JoinOpen(u, l, y); HalfOpen(y, half, mag);
    XorIs(m, half); XorIs(m ^ half, mag);
    r := m ^ half ^ mag;
  }
  lemma JoinOpen(u: bv32, l: bv32, y: bv32) requires y == (u & UPPER_MASK) | (l & LOWER_MASK) ensures Join(u, l) == y {}
  lemma HalfOpen(y: bv32, half: bv32, mag: bv32)
    requires half == y >> 1 && mag == if y & 1 == 0 then 0 else MATRIX_A
    ensures Half(y) == half && Mag(y) == mag
  {}
  // the tempering steps
  method TemperWord(y0: bv32) returns (y: bv32)
    ensures y == Temper(y0)
  {
    hide Part1, Part2, Part3, Part4, Xor;
    var p := y0 >> 11;
    Parts(y0); XorIs(y0, p);
    y := y0 ^ p;
    p := (y << 7) & 0x9d2c_5680;
    Parts(y); XorIs(y, p);
    y := y ^ p;
    p := (y << 15) & 0xefc6_0000;
    Parts(y); XorIs(y, p);
    y := y ^ p;
    p := y >> 18;
    Parts(y); XorIs(y, p);
    y := y ^ p;
  }
  lemma Parts(y: bv32)
    ensures Part1(y) == y >> 11 && Part2(y) == (y << 7) & 0x9d2c_5680
    ensures Part3(y) == (y << 15) & 0xefc6_0000 && Part4(y) == y >> 18
  {}
  lemma AllBits(x: bv32) ensures x & 0xffff_ffff == x {}
  // the words of the seeding loops; the mask drops what a longer machine word would keep
  method SeedNext(x: bv32, i: int) returns (r: bv32)
    requires 0 <= i < N
    ensures r == SeedFormula(x, i as bv32)
  {
    r := 1812433253 * (x ^ (x >> 30)) + (i as bv32);
    AllBits(r);
    r := r & 0xffff_ffff;
  }
  method KeyNext(a: bv32, b: bv32, k: bv32, j: int) returns (r: bv32)
    requires 0 <= j < 0x8000_0000
    ensures r == KeyFormula(a, b, k, j as bv32)
  {
    r := (a ^ ((b ^ (b >> 30)) * 1664525)) + k + (j as bv32);
    AllBits(r);
    r := r & 0xffff_ffff;
  }
  method LessNext(a: bv32, b: bv32, i: int) returns (r: bv32)
    requires 0 <= i < N
    ensures r == LessFormula(a, b, i as bv32)
  {
    r := (a ^ ((b ^ (b >> 30)) * 1566083941)) - (i as bv32);
    AllBits(r);
    r := r & 0xffff_ffff;
  }

  class MersenneTwister {
    const mt: array<bv32>
    var mti: int
    ghost var seed: seq<bv32>    // the initial state
    ghost var blocks: nat        // how often it has been regenerated

    ghost predicate Valid()
      reads this, mt
    {
      && mt.Length == N == |seed| && NonZero(seed) && 0 <= mti <= N && (blocks == 0 ==> mti == N)
      && mt[..] == Nexts(seed, blocks)
    }
    // how many numbers have been generated
    ghost function Outputs(): int
      reads this
    {
      N * blocks + mti - N
    }

    // init_genrand
    method InitGenrand(s: bv32)
      requires mt.Length == N
      modifies this`mti, mt
      ensures mti == N && mt[..] == Seeded(s)
      ensures Seeded(s)[0] == s
      ensures forall i :: 0 < i < N ==>
        Seeded(s)[i] == 1812433253 * (Seeded(s)[i - 1] ^ (Seeded(s)[i - 1] >> 30)) + (i as bv32)
    {
      hide Seeded;
      FillSeeded(s);
      SeededIs(s);
    }
    method FillSeeded(s: bv32)
      requires mt.Length == N
      modifies this`mti, mt
      ensures mti == N && mt[..] == Seeded(s)
    {
      hide SeedStep, SeedFormula, NonZero;
      AllBits(s);
      mt[0] := s & 0xffff_ffff;
      mti := 1;
      while mti < N
        invariant 1 <= mti <= N && forall i :: 0 <= i < mti ==> mt[i] == SeedWord(s, i)
      {
        SeedStepIs(SeedWord(s, mti - 1), mti);
        var w := SeedNext(mt[mti - 1], mti);
        mt[mti] := w;
        mti := mti + 1;
      }
    }
    // one turn of the first and of the second mixing loop
    method MixKey(i: int, k: bv32, j: int)
      requires mt.Length == N && 0 < i < N && 0 <= j < 0x8000_0000
      modifies mt
      ensures mt[..] == Mix1(old(mt[..]), i, k, j)
    {
      hide MixWord1, KeyFormula;
      MixWord1Is(mt[i], mt[i - 1], k, j);
      var w := KeyNext(mt[i], mt[i - 1], k, j);
      mt[i] := w;
      if i + 1 >= N { mt[0] := mt[N - 1]; }
    }
    method MixLess(i: int)
      requires mt.Length == N && 0 < i < N
      modifies mt
      ensures mt[..] == Mix2(old(mt[..]), i)
    {
      hide MixWord2, LessFormula;
      MixWord2Is(mt[i], mt[i - 1], i);
      var w := LessNext(mt[i], mt[i - 1], i);
      mt[i] := w;
      if i + 1 >= N { mt[0] := mt[N - 1]; }
    }
    // init_by_array
    method InitByArray(key: array<bv32>)
      requires mt.Length == N && 0 < key.Length < 0x8000_0000 && key != mt
      modifies this`mti, mt
      ensures mti == N && mt[..] == Keyed(key[..])
      ensures mt[0] == 0x8000_0000
      ensures var k := Turns(key[..]);
              forall t :: k <= t < k + 623 ==> mt[..][1 + t % 623] == KeyTerm(key[..], t)
    {
      hide SeedStep, SeedWord, Seeded, Mix1, Mix2, NonZero, KeyTerm, KeyFormula, LessFormula;
      InitGenrand(19650218);
      ghost var ks, s := key[..], mt[..];
      var i, j := 1, 0;
      var k := if N > key.Length then N else key.Length;
      ghost var all := Turns1(s, ks, 1, 0, k);
      while k != 0
        invariant 0 < i < N && 0 <= j < key.Length && k >= 0 && key[..] == ks && mti == N
        invariant Turns1(mt[..], ks, i, j, k) == all
      {
        MixKey(i, key[j], j);
        i, j := Following(i), if j + 1 >= key.Length then 0 else j + 1;
        k := k - 1;
      }
      k := N - 1;
      ghost var rest := Turns2(mt[..], i, k);
      while k != 0
        invariant 0 < i < N && k >= 0 && mti == N && Turns2(mt[..], i, k) == rest
      {
        MixLess(i);
        i := Following(i);
        k := k - 1;
      }
      mt[0] := 0x8000_0000;
      assert mt[..] == rest[0 := 0x8000_0000];
      KeyedIs(ks);
    }
    constructor (s: bv32)
      ensures Valid() && fresh(mt) && seed == Seeded(s) && Outputs() == 0
    {
      hide SeedStep, SeedWord, NonZero;
      mt := new bv32[N];
      mti := N + 1;
      blocks := 0;
      new;
      InitGenrand(s);
      SeededNonZero(s);
      seed := mt[..];
    }
    constructor ByArray(key: array<bv32>)
      requires 0 < key.Length < 0x8000_0000
      ensures Valid() && fresh(mt) && seed == Keyed(key[..]) && Outputs() == 0
    {
      hide Turns1, Turns2, NonZero, SeedWord;
      mt := new bv32[N];
      blocks := 0;
      new;
      InitByArray(key);
      KeyedNonZero(key[..]);
      seed := mt[..];
    }
    // All words are replaced, in place: the first 227 from old words only, the others from words that are new already.
    method Regenerate()
      requires mt.Length == N
      modifies mt
      ensures mt[..] == Next(old(mt[..]))
    {
      hide Twist, Join, Term;
      ghost var s := mt[..];
      var kk := 0;
      while kk < N - M
        invariant 0 <= kk <= N - M && (forall j :: 0 <= j < kk ==> mt[j] == Term(s, N + j))
          && forall j :: kk <= j < N ==> mt[j] == s[j]
      {
        TermStep(s, kk); FirstTerm(s, kk); FirstTerm(s, kk + 1); FirstTerm(s, kk + M);
        var w := NewWord(mt[kk], mt[kk + 1], mt[kk + M]);
        mt[kk] := w;
        kk := kk + 1;
      }
      while kk < N - 1
        invariant N - M <= kk <= N - 1 && (forall j :: 0 <= j < kk ==> mt[j] == Term(s, N + j))
          && forall j :: kk <= j < N ==> mt[j] == s[j]
      {
        TermStep(s, kk); FirstTerm(s, kk); FirstTerm(s, kk + 1);
        assert N + (kk + (M - N)) == kk + M;
        var w := NewWord(mt[kk], mt[kk + 1], mt[kk + (M - N)]);
        mt[kk] := w;
        kk := kk + 1;
      }
      TermStep(s, N - 1); FirstTerm(s, N - 1);
      var w := NewWord(mt[N - 1], mt[0], mt[M - 1]);
      mt[N - 1] := w;
    }
    // genrand_int32: output n is the tempered word 624 + n of the recurrence
    method Generate() returns (r: bv32)
      requires Valid()
      modifies this, mt
      ensures Valid() && seed == old(seed) && Outputs() == old(Outputs()) + 1
      ensures old(Outputs()) >= 0 && r == Temper(Term(seed, N + old(Outputs())))
      ensures NonZero(mt[..])
    {
      hide Temper, NonZero;
      if mti >= N {
        assert mti != N + 1;
        Regenerate();
        mti := 0;
        blocks := blocks + 1;
      }
      NextsNonZero(seed, blocks);
      TermNexts(seed, blocks, mti);
      var y := mt[mti];
      mti := mti + 1;
      r := TemperWord(y);
    }
  }
  // Any number of calls: the outputs are the tempered terms, one after the other.
  method GenerateMany(g: MersenneTwister, n: nat) returns (out: seq<bv32>)
    requires g.Valid()
    modifies g, g.mt
    ensures g.Valid() && g.seed == old(g.seed) && |out| == n && old(g.Outputs()) >= 0
    ensures forall i :: 0 <= i < n ==> out[i] == Temper(Term(g.seed, N + old(g.Outputs()) + i))
  {
    out := [];
    assert g.Outputs() >= 0;
    for i := 0 to n
      invariant g.Valid() && g.seed == old(g.seed) && |out| == i && g.Outputs() == old(g.Outputs()) + i
      invariant forall j :: 0 <= j < i ==> out[j] == Temper(Term(g.seed, N + old(g.Outputs()) + j))
    {
      var r := g.Generate();
      out := out + [r];
    }
  }
}
