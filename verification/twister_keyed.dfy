/** The state made from a key (cskorlib/MersenneTwister.cpp:70-93) as the last terms of one recurrence: turn t of the
    two mixing loops, counted through, makes term t from the term before it and the one of 623 turns ago. */
module TwisterKeyed {
  import opened TwisterWords
  import opened TwisterStates
  import Bits

  const ROUND := 623
  // how many turns the first loop has
  function Turns(key: seq<bv32>): nat { if N > |key| then N else |key| }
  // term t; the first 623 are words of the seeded state
  ghost function KeyTerm(key: seq<bv32>, t: int): bv32
    requires 0 < |key| < 0x8000_0000 && -ROUND <= t
    decreases t + ROUND
  {
    var s := Seeded(19650218);
    if t < 0 then s[t + N]
    else
      var last, ago := if t == 0 then s[0] else KeyTerm(key, t - 1), KeyTerm(key, t - ROUND);
      if t < Turns(key) then KeyFormula(ago, last, key[t % |key|], (t % |key|) as bv32)
      else LessFormula(ago, last, (1 + t % ROUND) as bv32)
  }
  ghost function Before(key: seq<bv32>, t: nat): bv32
    requires 0 < |key| < 0x8000_0000
  {
    if t == 0 then Seeded(19650218)[0] else KeyTerm(key, t - 1)
  }
  // the recurrence, turn by turn
  lemma KeyTermIs(key: seq<bv32>, t: nat)
    requires 0 < |key| < 0x8000_0000
    ensures t < Turns(key) ==>
      KeyTerm(key, t) == KeyFormula(KeyTerm(key, t - ROUND), Before(key, t), key[t % |key|], (t % |key|) as bv32)
    ensures t >= Turns(key) ==>
      KeyTerm(key, t) == LessFormula(KeyTerm(key, t - ROUND), Before(key, t), (1 + t % ROUND) as bv32)
  {
    hide KeyFormula, LessFormula, Seeded;
  }

  // ---- the loops compute its terms ----

  lemma NextIndex(n: nat, l: nat)
    requires l > 0
    ensures 0 % l == 0 && (n + 1) % l == if n % l + 1 >= l then 0 else n % l + 1
  {
    var q, r := n / l, n % l;
    Bits.ModIs(0, l, 0, 0);
    if r + 1 >= l { NextMultiple(n, q, l); Bits.ModIs(n + 1, l, q + 1, 0); } else { Bits.ModIs(n + 1, l, q, r + 1); }
  }
  lemma NextMultiple(n: nat, q: nat, l: nat)
    requires n == q * l + (l - 1)
    ensures n + 1 == (q + 1) * l
  {}
  function Place(t: int): (i: nat)
    ensures 0 < i < N
  {
    1 + t % ROUND
  }
  lemma Places(t: nat, d: nat)
    requires 1 <= d <= ROUND
    ensures 0 < Place(t) < N && Place(t - ROUND) == Place(t) && (Place(t - d) == Place(t) <==> d == ROUND)
    ensures Place(t + 1) == Following(Place(t))
    ensures t > 0 && Place(t) > 1 ==> Place(t - 1) == Place(t) - 1
  {}
  ghost predicate InPlace(key: seq<bv32>, s: seq<bv32>, t: int)
    requires 0 < |key| < 0x8000_0000 && |s| == N && -ROUND <= t
  {
    s[Place(t)] == KeyTerm(key, t)
  }
  // the state before turn t: the last 623 terms, each in its place
  ghost predicate Shows(key: seq<bv32>, s: seq<bv32>, t: nat)
    requires 0 < |key| < 0x8000_0000
  {
    && |s| == N
    && (forall u :: t - ROUND <= u < t ==> InPlace(key, s, u))
    && (Place(t) == 1 ==> s[0] == Before(key, t))
  }
  lemma ShowsFirst(key: seq<bv32>)
    requires 0 < |key| < 0x8000_0000
    ensures Shows(key, Seeded(19650218), 0)
  {
    hide Seeded, KeyTerm;
    forall u | -ROUND <= u < 0 ensures InPlace(key, Seeded(19650218), u) { EarlyTerm(key, u); }
  }
  lemma EarlyTerm(key: seq<bv32>, u: int)
    requires 0 < |key| < 0x8000_0000 && -ROUND <= u < 0
    ensures KeyTerm(key, u) == Seeded(19650218)[u + N] && Place(u) == u + N
  {
    hide Seeded, KeyFormula, LessFormula, Place, Turns;
    EarlyPlace(u);
  }
  lemma EarlyPlace(u: int)
    requires -ROUND <= u < 0
    ensures Place(u) == u + N
  {}
  // what both kinds of turn read, and what they leave
  lemma ShowsReads(key: seq<bv32>, s: seq<bv32>, t: nat)
    requires 0 < |key| < 0x8000_0000 && |s| == N && Shows(key, s, t)
    ensures s[Place(t)] == KeyTerm(key, t - ROUND) && s[Place(t) - 1] == Before(key, t)
  {
    hide KeyTerm;
    Places(t, ROUND); Places(t, 1);
    assert InPlace(key, s, t - ROUND) && InPlace(key, s, t - 1);
  }
  lemma ShowsWrites(key: seq<bv32>, s: seq<bv32>, r: seq<bv32>, t: nat)
    requires 0 < |key| < 0x8000_0000 && Shows(key, s, t) && |r| == N && 0 < Place(t) < N
    requires r[Place(t)] == KeyTerm(key, t) && (forall x :: 0 < x < N && x != Place(t) ==> r[x] == s[x])
      && (Place(t) + 1 >= N ==> r[0] == r[N - 1])
    ensures Shows(key, r, t + 1)
  {
    hide KeyTerm, Before, Place, InPlace;
    Places(t, 1); BeforeNext(key, t);
    forall u | t + 1 - ROUND <= u < t + 1 ensures InPlace(key, r, u) {
      if u < t { assert InPlace(key, s, u); }
      StaysInPlace(key, s, r, t, u);
    }
  }
  lemma BeforeNext(key: seq<bv32>, t: nat)
    requires 0 < |key| < 0x8000_0000
    ensures Before(key, t + 1) == KeyTerm(key, t)
  {
    hide KeyTerm;
  }
  lemma StaysInPlace(key: seq<bv32>, s: seq<bv32>, r: seq<bv32>, t: nat, u: int)
    requires 0 < |key| < 0x8000_0000 && |s| == |r| == N && t - ROUND < u <= t && (u < t ==> InPlace(key, s, u))
    requires r[Place(t)] == KeyTerm(key, t) && (forall x :: 0 < x < N && x != Place(t) ==> r[x] == s[x])
    ensures InPlace(key, r, u)
  {
    hide KeyTerm, Place;
    if u < t { Places(t, t - u); }
  }
  lemma Mix1Is(s: seq<bv32>, i: nat, k: bv32, j: nat)
    requires |s| == N && 0 < i < N && j < 0x8000_0000
    ensures var r := Mix1(s, i, k, j);
            r[i] == KeyFormula(s[i], s[i - 1], k, j as bv32) && (forall x :: 0 < x < N && x != i ==> r[x] == s[x])
            && (i + 1 >= N ==> r[0] == r[N - 1])
  {
    hide MixWord1, KeyFormula;
    MixWord1Is(s[i], s[i - 1], k, j);
  }
  lemma Mix2Is(s: seq<bv32>, i: nat)
    requires |s| == N && 0 < i < N
    ensures var r := Mix2(s, i);
            r[i] == LessFormula(s[i], s[i - 1], i as bv32) && (forall x :: 0 < x < N && x != i ==> r[x] == s[x])
            && (i + 1 >= N ==> r[0] == r[N - 1])
  {
    hide MixWord2, LessFormula;
    MixWord2Is(s[i], s[i - 1], i);
  }
  lemma Turn1(key: seq<bv32>, s: seq<bv32>, t: nat)
    requires 0 < |key| < 0x8000_0000 && |s| == N && Shows(key, s, t) && t < Turns(key)
    ensures Shows(key, Mix1(s, Place(t), key[t % |key|], t % |key|), t + 1)
  {
    hide Mix1, KeyFormula, KeyTerm, Before, Shows;
    var i, j := Place(t), t % |key|;
    ShowsReads(key, s, t);
    Mix1Is(s, i, key[j], j);
    KeyTermIs(key, t);
    ShowsWrites(key, s, Mix1(s, i, key[j], j), t);
  }
  lemma Turn2(key: seq<bv32>, s: seq<bv32>, t: nat)
    requires 0 < |key| < 0x8000_0000 && |s| == N && Shows(key, s, t) && t >= Turns(key)
    ensures Shows(key, Mix2(s, Place(t)), t + 1)
  {
    hide Mix2, LessFormula, KeyTerm, Before, Shows;
    var i := Place(t);
    ShowsReads(key, s, t);
    Mix2Is(s, i);
    KeyTermIs(key, t);
    ShowsWrites(key, s, Mix2(s, i), t);
  }
  lemma {:induction false} AllTurns1(key: seq<bv32>, s: seq<bv32>, t: nat)
    requires 0 < |key| < 0x8000_0000 && |s| == N && Shows(key, s, t) && t <= Turns(key)
    ensures var k := Turns(key); var r := Turns1(s, key, Place(t), t % |key|, k - t);
            Shows(key, r.0, k) && r.1 == Place(k)
    decreases Turns(key) - t
  {
    hide Shows, Mix1;
    NextIndex(t, |key|);
    if t < Turns(key) {
      Turn1(key, s, t);
      Places(t, 1);
      AllTurns1(key, Mix1(s, Place(t), key[t % |key|], t % |key|), t + 1);
    }
  }
  lemma {:induction false} AllTurns2(key: seq<bv32>, s: seq<bv32>, t: nat, k: nat)
    requires 0 < |key| < 0x8000_0000 && |s| == N && Shows(key, s, t) && t >= Turns(key)
    ensures Shows(key, Turns2(s, Place(t), k), t + k)
    decreases k
  {
    hide Shows, Mix2;
    if k > 0 {
      Turn2(key, s, t);
      Places(t, 1);
      AllTurns2(key, Mix2(s, Place(t)), t + 1, k - 1);
    }
  }
  // the keyed state: the last 623 terms, and the top bit
  lemma KeyedIs(key: seq<bv32>)
    requires 0 < |key| < 0x8000_0000
    ensures Keyed(key)[0] == 0x8000_0000
    ensures forall t :: Turns(key) <= t < Turns(key) + 623 ==> Keyed(key)[1 + t % 623] == KeyTerm(key, t)
  {
    hide Shows, Turns1, Turns2, KeyTerm, Seeded;
    var s, k := Seeded(19650218), Turns(key);
    ShowsFirst(key);
    NextIndex(0, |key|);
    AllTurns1(key, s, 0);
    var r := Turns1(s, key, 1, 0, k);
    AllTurns2(key, r.0, k, N - 1);
    ShownAt(key, Turns2(r.0, r.1, N - 1), k + ROUND);
  }
  lemma ShownAt(key: seq<bv32>, s: seq<bv32>, n: nat)
    requires 0 < |key| < 0x8000_0000 && Shows(key, s, n) && n >= ROUND
    ensures |s| == N && forall t :: n - ROUND <= t < n ==> s[0 := 0x8000_0000][1 + t % 623] == KeyTerm(key, t)
  {
    hide KeyTerm, Before;
    forall t | n - ROUND <= t < n ensures s[0 := 0x8000_0000][1 + t % 623] == KeyTerm(key, t) {
      assert InPlace(key, s, t);
    }
  }
}
