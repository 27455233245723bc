/** What the outputs tell (cskorlib/MersenneTwister.cpp:51-131): generators made from different seeds, or from different
    keys, differ. */
module TwisterKeys {
  import opened TwisterWords
  import opened TwisterStates
  import opened TwisterKeyed
  import Bits

  // ---- from the outputs back to the state ----

  function Output(s: seq<bv32>, n: nat): bv32 requires |s| == N { Temper(Term(s, N + n)) }
  // 624 outputs tell the state, but for the bits that are never used
  lemma OutputsTell(s: seq<bv32>, t: seq<bv32>)
    requires |s| == |t| == N && forall n {:trigger Output(s, n)} :: 0 <= n < N ==> Output(s, n) == Output(t, n)
    ensures Same(s, t)
  {
    hide Temper, Untemper;
    forall n | 0 <= n < N ensures Next(s)[n] == Next(t)[n] {
      assert Output(s, n) == Output(t, n);
      TemperBijection(Term(s, N + n)); TemperBijection(Term(t, N + n));
    }
    Reversible(s, t);
  }

  // ---- seeds ----

  // the sum undone
  function Divided(z: bv32): bv32 { 2520285293 * z }
  lemma FoldTells(x: bv32, y: bv32) requires Fold(x) == Fold(y) ensures x == y {}
  lemma DividedProduct(x: bv32) ensures Divided(1812433253 * x) == x {}
  function Minus(x: bv32, y: bv32): bv32 { x - y }
  lemma SumOpen(f: bv32, w: bv32) ensures Minus(SeedSum(f, w), w) == Minus(1812433253 * f + w, w) { hide Minus; }
  lemma SumLess(f: bv32, w: bv32) ensures Minus(1812433253 * f + w, w) == 1812433253 * f {}
  lemma SumBack(f: bv32, w: bv32)
    ensures Divided(Minus(SeedSum(f, w), w)) == f
  {
    hide Divided, Minus, SeedSum;
    SumOpen(f, w); SumLess(f, w); DividedProduct(f);
  }
  lemma SeedWordTells(a: bv32, b: bv32)
    requires SeedStep(a, 1) == SeedStep(b, 1)
    ensures a == b
  {
    hide Fold, SeedSum, WordOf, Divided, Minus;
    SumBack(Fold(a), WordOf(1)); SumBack(Fold(b), WordOf(1));
    FoldTells(a, b);
  }
  // two seeds with the same 624 outputs are the same
  lemma SeedsTell(a: bv32, b: bv32)
    requires forall n {:trigger Output(Seeded(a), n)} :: 0 <= n < N ==> Output(Seeded(a), n) == Output(Seeded(b), n)
    ensures a == b
  {
    hide SeedStep, Temper;
    OutputsTell(Seeded(a), Seeded(b));
    assert Seeded(a)[1] == SeedStep(SeedWord(a, 0), 1) && Seeded(b)[1] == SeedStep(SeedWord(b, 0), 1);
    SeedWordTells(a, b);
  }

  // ---- keys: the second mixing loop backwards ----

  ghost predicate Agree(t: seq<bv32>, u: seq<bv32>) { |t| == |u| == N && forall x :: 1 <= x < N ==> t[x] == u[x] }
  ghost predicate Closed(t: seq<bv32>) { |t| == N && t[0] == t[N - 1] }
  lemma LessTells(a: bv32, a': bv32, b: bv32, i: nat)
    requires i < N && MixWord2(a, b, i) == MixWord2(a', b, i)
    ensures a == a'
  {
    hide Stir2, LessSum, WordOf, Plus, Xor;
    LessBack1(a, Stir2(b), WordOf(i)); LessBack1(a', Stir2(b), WordOf(i));
  }
  function Plus(x: bv32, y: bv32): bv32 { x + y }
  lemma LessOpen(a: bv32, m: bv32, w: bv32) ensures Plus(LessSum(a, m, w), w) == Plus((a ^ m) - w, w) { hide Plus; }
  lemma LessPlus(a: bv32, m: bv32, w: bv32) ensures Plus((a ^ m) - w, w) == Xor(a, m) {}
  lemma LessBack1(a: bv32, m: bv32, w: bv32)
    ensures Xor(Plus(LessSum(a, m, w), w), m) == a
  {
    hide Plus, Xor, LessSum;
    LessOpen(a, m, w); LessPlus(a, m, w); Second(a, m);
  }
  lemma {:induction false} LessLoopTells(t: seq<bv32>, u: seq<bv32>, i: nat, k: nat)
    requires |t| == |u| == N && 0 < i < N && (i == 1 ==> Closed(t) && Closed(u))
      && Agree(Turns2(t, i, k), Turns2(u, i, k))
    ensures Agree(t, u)
    decreases k
  {
    hide Mix2, Agree;
    if k > 0 {
      MixCloses(t, i); MixCloses(u, i);
      LessLoopTells(Mix2(t, i), Mix2(u, i), Following(i), k - 1);
      LessBack(t, u, i);
    }
  }
  lemma MixCloses(t: seq<bv32>, i: nat)
    requires |t| == N && 0 < i < N
    ensures Following(i) == 1 ==> Closed(Mix2(t, i))
  {
    hide MixWord2;
  }
  // one turn of the second loop backwards
  lemma LessBack(t: seq<bv32>, u: seq<bv32>, i: nat)
    requires |t| == |u| == N && 0 < i < N && (i == 1 ==> Closed(t) && Closed(u)) && Agree(Mix2(t, i), Mix2(u, i))
    ensures Agree(t, u)
  {
    hide MixWord2;
    var t', u' := Mix2(t, i), Mix2(u, i);
    forall x | 1 <= x < N && x != i ensures t[x] == u[x] { assert t'[x] == u'[x]; }
    assert t[i - 1] == u[i - 1] && t'[i] == u'[i];
    LessTells(t[i], u[i], t[i - 1], i);
  }

  // ---- the first mixing loop forwards ----

  // the state after n turns, up to the one that closes the circle
  ghost function Partial(s: seq<bv32>, key: seq<bv32>, n: nat): (t: seq<bv32>)
    requires |s| == N && 0 < |key| < 0x8000_0000 && n < N
    ensures |t| == N
  {
    if n == 0 then s else Mix1(Partial(s, key, n - 1), n, key[(n - 1) % |key|], (n - 1) % |key|)
  }
  lemma {:induction false} TurnsSplit(s: seq<bv32>, key: seq<bv32>, n: nat)
    requires |s| == N && 0 < |key| < N && n < N
    ensures Turns1(s, key, 1, 0, N)
      == Turns1(Partial(s, key, n), key, if n == N - 1 then 1 else n + 1, n % |key|, N - n)
  {
    hide Mix1, Turns1;
    NextIndex(n, |key|);
    if n > 0 {
      TurnsSplit(s, key, n - 1); NextIndex(n - 1, |key|);
      OneTurn(Partial(s, key, n - 1), key, n, (n - 1) % |key|, N - (n - 1));
    }
  }
  lemma OneTurn(t: seq<bv32>, key: seq<bv32>, i: nat, j: nat, k: nat)
    requires |t| == N && 0 < i < N && j < |key| < 0x8000_0000 && k > 0
    ensures Turns1(t, key, i, j, k)
      == Turns1(Mix1(t, i, key[j], j), key, Following(i), if j + 1 >= |key| then 0 else j + 1, k - 1)
  {
    hide Mix1;
  }
  // turn x writes word x and no later one changes it
  lemma {:induction false} WordKept(s: seq<bv32>, key: seq<bv32>, n: nat, x: nat)
    requires |s| == N && 0 < |key| < 0x8000_0000 && 0 < x < N && n < N
    ensures Partial(s, key, n)[x] == if x <= n then Partial(s, key, x)[x] else s[x]
  {
    hide MixWord1;
    if n > 0 && x != n { WordKept(s, key, n - 1, x); }
  }
  lemma WordIs(s: seq<bv32>, key: seq<bv32>, n: nat, x: nat)
    requires |s| == N && 0 < |key| < 0x8000_0000 && 2 <= x <= n < N
    ensures var p := Partial(s, key, n); p[x] == MixWord1(s[x], p[x - 1], key[(x - 1) % |key|], (x - 1) % |key|)
  {
    hide MixWord1;
    WordKept(s, key, n, x); WordKept(s, key, n, x - 1); WordKept(s, key, x - 1, x); WordKept(s, key, x - 1, x - 1);
  }
  lemma KeyTells(a: bv32, b: bv32, k: bv32, k': bv32, j: nat)
    requires j < 0x8000_0000 && MixWord1(a, b, k, j) == MixWord1(a, b, k', j)
    ensures k == k'
  {
    hide Stir1, KeySum, WordOf, Without;
    KeyBack(a, Stir1(b), k, WordOf(j)); KeyBack(a, Stir1(b), k', WordOf(j));
  }
  function Without(x: bv32, a: bv32, m: bv32, w: bv32): bv32 { x - w - (a ^ m) }
  lemma KeyOpen(a: bv32, m: bv32, k: bv32, w: bv32)
    ensures Without(KeySum(a, m, k, w), a, m, w) == Without((a ^ m) + k + w, a, m, w)
  {
    hide Without;
  }
  lemma KeyLess(a: bv32, m: bv32, k: bv32, w: bv32) ensures Without((a ^ m) + k + w, a, m, w) == k {}
  lemma KeyBack(a: bv32, m: bv32, k: bv32, w: bv32)
    ensures Without(KeySum(a, m, k, w), a, m, w) == k
  {
    hide Without, KeySum;
    KeyOpen(a, m, k, w); KeyLess(a, m, k, w);
  }
  // for each index of a key of at most 621 words, a turn from the third to the last but one that uses it
  lemma TurnFor(q: nat, l: nat) returns (x: nat)
    requires q < l <= 621
    ensures 3 <= x < N && (x - 1) % l == q
  {
    if q >= 2 { x := q + 1; Bits.ModIs(q, l, 0, q); }
    else if l == 1 { x := 3; }
    else { x := q + l + 1; Bits.ModIs(q + l, l, 1, q); }
  }
  lemma LastTurn(key: seq<bv32>)
    requires 0 < |key| <= 621
    ensures var s := Seeded(19650218); var p := Partial(s, key, N - 1); var j := (N - 1) % |key|;
      Closed(p) && Turns1(s, key, 1, 0, N) == (Mix1(p, 1, key[j], j), 2)
  {
    hide MixWord1, Partial, Seeded;
    var s := Seeded(19650218);
    var p, j := Partial(s, key, N - 1), (N - 1) % |key|;
    PartialClosed(s, key);
    TurnsSplit(s, key, N - 1);
    assert Turns1(p, key, 1, j, 1) == Turns1(Mix1(p, 1, key[j], j), key, 2, if j + 1 >= |key| then 0 else j + 1, 0);
  }
  lemma PartialClosed(s: seq<bv32>, key: seq<bv32>)
    requires |s| == N && 0 < |key| <= 621
    ensures Closed(Partial(s, key, N - 1))
  {
    hide MixWord1;
  }
  // The state tells the key: two keys of one length, of at most 621 words, with the same state are the same.
  lemma StateTellsKey(a: seq<bv32>, b: seq<bv32>)
    requires |a| == |b| && 0 < |a| <= 621 && Same(Keyed(a), Keyed(b))
    ensures a == b
  {
    hide MixWord1, MixWord2, Mix1, Mix2, Turns1, Turns2, Partial, Seeded, Agree;
    LoopsTell(a, b);
    var s := Seeded(19650218);
    var p, u := Partial(s, a, N - 1), Partial(s, b, N - 1);
    forall q: nat | q < |a| ensures a[q] == b[q] {
      var x := TurnFor(q, |a|);
      WordIs(s, a, N - 1, x); WordIs(s, b, N - 1, x);
      KeyTells(s[x], p[x - 1], a[q], b[q], q);
    }
  }
  lemma LoopsTell(a: seq<bv32>, b: seq<bv32>)
    requires |a| == |b| && 0 < |a| <= 621 && Same(Keyed(a), Keyed(b))
    ensures var s := Seeded(19650218);
            forall x {:trigger Partial(s, a, N - 1)[x]} ::
              2 <= x < N ==> Partial(s, a, N - 1)[x] == Partial(s, b, N - 1)[x]
  {
    hide MixWord1, MixWord2, Mix2, Turns1, Turns2, Partial, Seeded;
    LastTurn(a); LastTurn(b);
    var s := Seeded(19650218);
    var p, u := Partial(s, a, N - 1), Partial(s, b, N - 1);
    var j := (N - 1) % |a|;
    var t, v := Mix1(p, 1, a[j], j), Mix1(u, 1, b[j], j);
    var t', v' := Turns2(t, 2, N - 1), Turns2(v, 2, N - 1);
    assert Keyed(a) == t'[0 := 0x8000_0000] && Keyed(b) == v'[0 := 0x8000_0000];
    forall x | 1 <= x < N ensures t'[x] == v'[x] { assert t'[0 := 0x8000_0000][x] == v'[0 := 0x8000_0000][x]; }
    LessLoopTells(t, v, 2, N - 1);
    forall x | 2 <= x < N ensures p[x] == u[x] { assert t[x] == v[x] && t[x] == p[x] && v[x] == u[x]; }
  }
  // and so do 624 outputs
  lemma KeysTell(a: seq<bv32>, b: seq<bv32>)
    requires |a| == |b| && 0 < |a| <= 621
    requires forall n {:trigger Output(Keyed(a), n)} :: 0 <= n < N ==> Output(Keyed(a), n) == Output(Keyed(b), n)
    ensures a == b
  {
    hide Temper, Seeded, Turns1, Turns2;
    OutputsTell(Keyed(a), Keyed(b));
    StateTellsKey(a, b);
  }
}
