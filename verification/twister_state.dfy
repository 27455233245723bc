/** The state of the Mersenne Twister (cskorlib/MersenneTwister.cpp:51-131) as 624 consecutive terms of one infinite
    recurrence. */
module TwisterStates {
  import opened TwisterWords

  // ---- the recurrence ----

  // the k-th word of the sequence that starts with s
  function Term(s: seq<bv32>, k: nat): bv32
    requires |s| == N
  {
    if k < N then s[k] else Twist(Term(s, k - N), Term(s, k - N + 1), Term(s, k - N + M))
  }
  // the next 624 words
  ghost function Next(s: seq<bv32>): (t: seq<bv32>)
    requires |s| == N
    ensures |t| == N && forall i :: 0 <= i < N ==> t[i] == Term(s, N + i)
  {
    seq(N, i requires 0 <= i < N => Term(s, N + i))
  }
  lemma {:induction false} TermShift(s: seq<bv32>, k: nat)
    requires |s| == N
    ensures Term(Next(s), k) == Term(s, N + k)
  {
    if k >= N { TermShift(s, k - N); TermShift(s, k - N + 1); TermShift(s, k - N + M); }
  }
  ghost function Nexts(s: seq<bv32>, b: nat): (t: seq<bv32>)
    requires |s| == N
    ensures |t| == N
  {
    if b == 0 then s else Next(Nexts(s, b - 1))
  }
  lemma {:induction false} TermNexts(s: seq<bv32>, b: nat, k: nat)
    requires |s| == N
    ensures Term(Nexts(s, b), k) == Term(s, N * b + k)
  {
    if b > 0 {
      TermShift(Nexts(s, b - 1), k);
      TermNexts(s, b - 1, N + k);
      assert N * (b - 1) + (N + k) == N * b + k;
    }
  }

  // ---- regeneration is reversible ----

  const SPLIT := 227

  // Join(old[k], old[k + 1]) and old[k], computed from the new state t: first for the back part of the array
  ghost function JoinedBack(t: seq<bv32>, k: nat): bv32
    requires |t| == N && SPLIT <= k < N
  {
    Untwist(t[k], t[k - SPLIT])
  }
  ghost function OldBack(t: seq<bv32>, k: nat): bv32
    requires |t| == N && SPLIT < k < N
  {
    Join(JoinedBack(t, k), JoinedBack(t, k - 1))
  }
  // then for all of it
  ghost function Joined(t: seq<bv32>, k: nat): bv32
    requires |t| == N && k < N
  {
    if k >= SPLIT then JoinedBack(t, k) else Untwist(t[k], OldBack(t, k + M))
  }
  ghost function Old(t: seq<bv32>, k: nat): bv32 requires |t| == N && 0 < k < N { Join(Joined(t, k), Joined(t, k - 1)) }

  lemma JoinOld(a: bv32, b: bv32, c: bv32)
    ensures Join(Join(b, c), Join(a, b)) == b
  {
    JoinParts(b, c); JoinParts(a, b); JoinSelf(b);
  }
  lemma TermStep(s: seq<bv32>, k: nat)
    requires |s| == N
    ensures Term(s, N + k) == Twist(Term(s, k), Term(s, k + 1), Term(s, k + M))
  {}
  // the recurrence with its numbers
  lemma Recurrence(s: seq<bv32>, k: nat)
    requires |s| == 624
    ensures k < 624 ==> Term(s, k) == s[k]
    ensures Term(s, 624 + k) == Twist(Term(s, k), Term(s, k + 1), Term(s, k + 397))
  {
    TermStep(s, k);
  }
  lemma FirstTerm(s: seq<bv32>, k: nat)
    requires |s| == N && k < N
    ensures Term(s, k) == s[k]
  {}
  lemma JoinedBackIs(s: seq<bv32>, k: nat)
    requires |s| == N && SPLIT <= k < N
    ensures JoinedBack(Next(s), k) == Join(s[k], Term(s, k + 1))
  {
    assert N + (k - SPLIT) == k + M;
    assert Next(s)[k - SPLIT] == Term(s, k + M);
    TermStep(s, k);
    UntwistTwist(s[k], Term(s, k + 1), Term(s, k + M));
  }
  lemma OldBackIs(s: seq<bv32>, k: nat)
    requires |s| == N && SPLIT < k < N
    ensures OldBack(Next(s), k) == s[k]
  {
    JoinedBackIs(s, k); JoinedBackIs(s, k - 1);
    JoinOld(s[k - 1], s[k], Term(s, k + 1));
  }
  lemma JoinedIs(s: seq<bv32>, k: nat)
    requires |s| == N && k < N
    ensures Joined(Next(s), k) == Join(s[k], Term(s, k + 1))
  {
    if k >= SPLIT { JoinedBackIs(s, k); }
    else {
      OldBackIs(s, k + M);
      assert Next(s)[k] == Term(s, N + k);
      UntwistTwist(s[k], s[k + 1], s[k + M]);
    }
  }
  // every word but the low 31 bits of the first can be recovered
  lemma Recovered(s: seq<bv32>)
    requires |s| == N
    ensures forall k :: 0 < k < N ==> Old(Next(s), k) == s[k]
    ensures Joined(Next(s), 0) & UPPER_MASK == s[0] & UPPER_MASK
  {
    forall k | 0 < k < N ensures Old(Next(s), k) == s[k] {
      JoinedIs(s, k); JoinedIs(s, k - 1);
      JoinOld(s[k - 1], s[k], Term(s, k + 1));
    }
    JoinedIs(s, 0);
    JoinParts(s[0], s[1]);
  }
  // the 19937 bits of the state
  ghost predicate Same(s: seq<bv32>, t: seq<bv32>) {
    |s| == |t| == N && s[0] & UPPER_MASK == t[0] & UPPER_MASK && forall k :: 0 < k < N ==> s[k] == t[k]
  }
  lemma Reversible(s: seq<bv32>, t: seq<bv32>)
    requires |s| == |t| == N && Next(s) == Next(t)
    ensures Same(s, t)
  {
    Recovered(s); Recovered(t);
    forall k | 0 < k < N ensures s[k] == t[k] { assert Old(Next(s), k) == s[k] && Old(Next(t), k) == t[k]; }
  }
  // ---- the state never becomes zero ----

  ghost predicate NonZero(s: seq<bv32>)
    requires |s| == N
  {
    s[0] & UPPER_MASK != 0 || exists k :: 0 < k < N && s[k] != 0
  }
  lemma ZeroBack(s: seq<bv32>)
    requires |s| == N && !NonZero(Next(s))
    ensures !NonZero(s)
  {
    var t := Next(s);
    Recovered(s);
    FirstZero(s);
    UntwistZero();
    assert forall k :: 0 <= k < N ==> t[k] == 0;
    JoinParts(0, 0); JoinSelf(0);
    assert forall k {:trigger JoinedBack(t, k)} :: SPLIT <= k < N ==> JoinedBack(t, k) == 0;
    assert forall k {:trigger Joined(t, k)} :: 0 <= k < N ==> Joined(t, k) == 0;
  }
  lemma NextNonZero(s: seq<bv32>)
    requires |s| == N && NonZero(s)
    ensures NonZero(Next(s))
  {
    if !NonZero(Next(s)) { ZeroBack(s); }
  }
  // the last word of the new state shows the low bits of its first
  lemma FirstZero(s: seq<bv32>)
    requires |s| == N && !NonZero(Next(s))
    ensures Next(s)[0] == 0
  {
    var t := Next(s);
    JoinedBackIs(s, N - 1);
    assert t[N - 1] == 0 && t[M - 1] == 0;
    UntwistZero();
    assert Term(s, N) == t[0];
    JoinParts(s[N - 1], t[0]);
    PartsZero(t[0]);
  }
  lemma PartsZero(x: bv32)
    requires x & 0x8000_0000 == 0 && x & 0x7fff_ffff == 0
    ensures x == 0
  {}
  lemma {:induction false} NextsNonZero(s: seq<bv32>, b: nat)
    requires |s| == N && NonZero(s)
    ensures NonZero(Nexts(s, b))
  {
    if b > 0 { NextsNonZero(s, b - 1); NextNonZero(Nexts(s, b - 1)); }
  }

  // ---- seeding ----

  function WordOf(i: nat): bv32 requires i < 0x8000_0000 { i as bv32 }
  function Fold(x: bv32): bv32 { x ^ (x >> 30) }
  function SeedSum(f: bv32, w: bv32): bv32 { 1812433253 * f + w }
  function SeedStep(x: bv32, i: nat): bv32 requires i < N { SeedSum(Fold(x), WordOf(i)) }
  // word i of the state made from the seed s
  function SeedWord(s: bv32, i: nat): bv32
    requires i < N
  {
    if i == 0 then s else SeedStep(SeedWord(s, i - 1), i)
  }
  ghost function Seeded(s: bv32): (t: seq<bv32>)
    ensures |t| == N && forall i :: 0 <= i < N ==> t[i] == SeedWord(s, i)
  {
    seq(N, i requires 0 <= i < N => SeedWord(s, i))
  }
  // the step as the code has it
  ghost function SeedFormula(x: bv32, w: bv32): bv32 { 1812433253 * (x ^ (x >> 30)) + w }
  lemma FoldedSum(x: bv32, w: bv32)
    ensures SeedSum(Fold(x), w) == SeedSum(x ^ (x >> 30), w)
  {
    hide SeedSum;
  }
  lemma SeedSumOpen(x: bv32, w: bv32) ensures SeedSum(x ^ (x >> 30), w) == SeedFormula(x, w) {}
  lemma SeedStepIs(x: bv32, i: nat)
    requires i < N
    ensures SeedStep(x, i) == SeedFormula(x, i as bv32)
  {
    hide SeedSum, Fold, SeedFormula;
    FoldedSum(x, WordOf(i)); SeedSumOpen(x, WordOf(i));
  }
  ghost predicate SeedLink(y: bv32, x: bv32, i: nat) requires i < N { y == SeedFormula(x, i as bv32) }
  lemma LinksOpen(t: seq<bv32>)
    requires |t| == N && forall i :: 0 < i < N ==> SeedLink(t[i], t[i - 1], i)
    ensures forall i :: 0 < i < N ==> t[i] == 1812433253 * (t[i - 1] ^ (t[i - 1] >> 30)) + (i as bv32)
  {}
  lemma SeededLinks(s: bv32)
    ensures Seeded(s)[0] == s && forall i :: 0 < i < N ==> SeedLink(Seeded(s)[i], Seeded(s)[i - 1], i)
  {
    hide SeedLink, SeedStep;
    forall i | 0 < i < N ensures SeedLink(Seeded(s)[i], Seeded(s)[i - 1], i) { LinkStep(SeedWord(s, i - 1), i); }
  }
  lemma LinkStep(x: bv32, i: nat)
    requires i < N
    ensures SeedLink(SeedStep(x, i), x, i)
  {
    hide SeedStep, SeedFormula;
    SeedStepIs(x, i);
  }
  // the seeded state, word by word
  lemma SeededIs(s: bv32)
    ensures Seeded(s)[0] == s
    ensures forall i :: 0 < i < N ==>
      Seeded(s)[i] == 1812433253 * (Seeded(s)[i - 1] ^ (Seeded(s)[i - 1] >> 30)) + (i as bv32)
  {
    hide SeedLink, Seeded;
    SeededLinks(s);
    LinksOpen(Seeded(s));
  }
  lemma SeedZero(a: bv32, w: bv32) requires a == 0 ensures SeedSum(Fold(a), w) == w {}
  // no seed gives a zero state: of its second and third word one is not zero
  lemma SeededNonZero(s: bv32)
    ensures NonZero(Seeded(s))
  {
    var t := Seeded(s);
    if t[1] == 0 { SeedZero(SeedWord(s, 1), WordOf(2)); assert t[2] == SeedWord(s, 2); assert t[2] != 0; }
  }

  // the two mixing loops of init_by_array, as functions of the state and the indices
  function Stir1(b: bv32): bv32 { (b ^ (b >> 30)) * 1664525 }
  function Stir2(b: bv32): bv32 { (b ^ (b >> 30)) * 1566083941 }
  function KeySum(a: bv32, m: bv32, k: bv32, w: bv32): bv32 { (a ^ m) + k + w }
  function LessSum(a: bv32, m: bv32, w: bv32): bv32 { (a ^ m) - w }
  function MixWord1(a: bv32, b: bv32, k: bv32, j: nat): bv32
    requires j < 0x8000_0000
  {
    KeySum(a, Stir1(b), k, WordOf(j))
  }
  function MixWord2(a: bv32, b: bv32, i: nat): bv32 requires i < N { LessSum(a, Stir2(b), WordOf(i)) }
  // the same as the code has them
  ghost function KeyFormula(a: bv32, b: bv32, k: bv32, w: bv32): bv32 { (a ^ ((b ^ (b >> 30)) * 1664525)) + k + w }
  ghost function LessFormula(a: bv32, b: bv32, w: bv32): bv32 { (a ^ ((b ^ (b >> 30)) * 1566083941)) - w }
  lemma KeyStirred(a: bv32, b: bv32, k: bv32, w: bv32)
    ensures KeySum(a, Stir1(b), k, w) == KeySum(a, (b ^ (b >> 30)) * 1664525, k, w)
  {
    hide KeySum;
  }
  lemma KeySumOpen(a: bv32, b: bv32, k: bv32, w: bv32)
    ensures KeySum(a, (b ^ (b >> 30)) * 1664525, k, w) == KeyFormula(a, b, k, w)
  {}
  lemma MixWord1Is(a: bv32, b: bv32, k: bv32, j: nat)
    requires j < 0x8000_0000
    ensures MixWord1(a, b, k, j) == KeyFormula(a, b, k, j as bv32)
  {
    hide Stir1, KeySum, KeyFormula;
    KeyStirred(a, b, k, WordOf(j)); KeySumOpen(a, b, k, WordOf(j));
  }
  lemma LessStirred(a: bv32, b: bv32, w: bv32)
    ensures LessSum(a, Stir2(b), w) == LessSum(a, (b ^ (b >> 30)) * 1566083941, w)
  {
    hide LessSum;
  }
  lemma LessSumOpen(a: bv32, b: bv32, w: bv32)
    ensures LessSum(a, (b ^ (b >> 30)) * 1566083941, w) == LessFormula(a, b, w)
  {}
  lemma MixWord2Is(a: bv32, b: bv32, i: nat)
    requires i < N
    ensures MixWord2(a, b, i) == LessFormula(a, b, i as bv32)
  {
    hide Stir2, LessSum, LessFormula;
    LessStirred(a, b, WordOf(i)); LessSumOpen(a, b, WordOf(i));
  }
  function Mix1(t: seq<bv32>, i: nat, k: bv32, j: nat): (r: seq<bv32>)
    requires |t| == N && 0 < i < N && j < 0x8000_0000
    ensures |r| == N
  {
    var r := t[i := MixWord1(t[i], t[i - 1], k, j)];
    if i + 1 >= N then r[0 := r[N - 1]] else r
  }
  function Mix2(t: seq<bv32>, i: nat): (r: seq<bv32>)
    requires |t| == N && 0 < i < N
    ensures |r| == N
  {
    var r := t[i := MixWord2(t[i], t[i - 1], i)];
    if i + 1 >= N then r[0 := r[N - 1]] else r
  }
  function Following(i: nat): nat { if i + 1 >= N then 1 else i + 1 }
  // k turns of the first loop, the next one with index i of the state and j of the key
  function Turns1(t: seq<bv32>, key: seq<bv32>, i: nat, j: nat, k: nat): (r: (seq<bv32>, nat))
    requires |t| == N && 0 < i < N && j < |key| < 0x8000_0000
    ensures |r.0| == N && 0 < r.1 < N
    decreases k
  {
    if k == 0 then (t, i)
    else Turns1(Mix1(t, i, key[j], j), key, Following(i), if j + 1 >= |key| then 0 else j + 1, k - 1)
  }
  function Turns2(t: seq<bv32>, i: nat, k: nat): (r: seq<bv32>)
    requires |t| == N && 0 < i < N
    ensures |r| == N
    decreases k
  {
    if k == 0 then t else Turns2(Mix2(t, i), Following(i), k - 1)
  }
  ghost function Keyed(key: seq<bv32>): (r: seq<bv32>)
    requires 0 < |key| < 0x8000_0000
    ensures |r| == N
  {
    var (t, i) := Turns1(Seeded(19650218), key, 1, 0, if N > |key| then N else |key|);
    Turns2(t, i, N - 1)[0 := 0x8000_0000]
  }
  lemma KeyedNonZero(key: seq<bv32>)
    requires 0 < |key| < 0x8000_0000
    ensures NonZero(Keyed(key))
  {}
}
