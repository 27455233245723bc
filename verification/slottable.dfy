/** The slot array of Inttable (csutility/Collections/Inttable.cs:42-47) as a finite map: keys, tombstones and chain
    markers. */
module SlotTables {
  import opened Bits
  import opened Probing

  type int32 = x: int | -0x8000_0000 <= x < 0x8000_0000
  const NULL_KEY: int32 := 0
  const REMOVED_KEY: int32 := -2
  const CHAIN_MARKER := 0x8000_0000

  // hashMix is an unsigned word: the hash code, and the chain marker as its top bit
  datatype Slot<V> = Slot(key: int32, value: V, hashMix: int)

  // the hash of a key: its low 31 bits
  function Hash(key: int): (h: nat)
    requires -0x8000_0000 <= key < 0x8000_0000
    ensures h < 0x8000_0000
  {
    key % 0x8000_0000
  }
  function Low(x: int): int { x % CHAIN_MARKER }
  predicate Chained(x: int) { x >= CHAIN_MARKER }
  // a hash word with the chain marker set
  function Chain(x: int): int { if Chained(x) then x else x + CHAIN_MARKER }
  // joining a hash with a marker whose low bits are clear adds it
  lemma {:induction false} OrHigh(w: nat, h: nat)
    requires h < Pow2(w)
    ensures Or(Pow2(w), h) == Pow2(w) + h
  {
    if w > 0 {
      hide Pow2, Or;
      PowHalf(w); OrStep(Pow2(w), h);
      OrHigh(w - 1, h / 2);
    }
  }
  lemma PowHalf(w: nat)
    requires w > 0
    ensures Pow2(w) == 2 * Pow2(w - 1) && Pow2(w) % 2 == 0 && Pow2(w) / 2 == Pow2(w - 1)
  {}
  lemma OrStep(x: nat, y: nat)
    requires x > 0
    ensures Or(x, y) == (if x % 2 + y % 2 == 0 then 0 else 1) + 2 * Or(x / 2, y / 2)
  {}
  lemma {:induction false} OrFirst(h: nat) ensures Or(0, h) == h { if h != 0 { OrFirst(h / 2); } }
  lemma OrHash(x: nat, h: nat)
    requires x < W32 && Low(x) == 0 && h < CHAIN_MARKER
    ensures Or(x, h) == x + h
  {
    Pow32();
    if x == 0 { OrFirst(h); } else { assert x == CHAIN_MARKER == Pow2(31); OrHigh(31, h); }
  }

  predicate Live<V>(s: Slot<V>) { s.key != NULL_KEY && s.key != REMOVED_KEY }
  ghost predicate Solid<V>(s: Slot<V>) { s.key != NULL_KEY && Chained(s.hashMix) }

  // how many turns of the probe sequence lead to each key
  type Places = map<int, nat>
  ghost predicate LinkAt<V>(t: seq<Slot<V>>, h: nat, n: nat) { |t| >= 3 && Solid(t[Probe(h, |t|, n)]) }
  // the first i slots on the way are occupied (if only by tombstones) and chain-marked
  ghost predicate Linked<V>(t: seq<Slot<V>>, h: nat, i: nat) {
    forall n: nat {:trigger LinkAt(t, h, n)} :: n < i ==> LinkAt(t, h, n)
  }
  ghost predicate SlotOK<V>(t: seq<Slot<V>>, p: Places, j: int) {
    0 <= j < |t| ==>
      var s := t[j];
      && |t| >= 3 && 0 <= s.hashMix < W32 && (s.key == NULL_KEY ==> s.hashMix == 0)
        && (s.key == REMOVED_KEY ==> Low(s.hashMix) == 0)
      && (Live(s) ==> s.key in p && Low(s.hashMix) == Hash(s.key) && Probe(Hash(s.key), |t|, p[s.key]) == j)
  }
  ghost predicate KeyOK<V>(t: seq<Slot<V>>, p: Places, k: int) {
    k in p ==>
      && |t| >= 3 && -0x8000_0000 <= k < 0x8000_0000 && k != NULL_KEY && k != REMOVED_KEY && p[k] < |t|
      && t[Probe(Hash(k), |t|, p[k])].key == k && Linked(t, Hash(k), p[k])
  }
  ghost predicate TableOK<V>(t: seq<Slot<V>>, p: Places) {
    && |t| >= 3 && Prime(|t|)
    && (forall j {:trigger SlotOK(t, p, j)} :: SlotOK(t, p, j))
    && (forall k {:trigger KeyOK(t, p, k)} :: KeyOK(t, p, k))
  }
  // the map the table stands for
  ghost function ValueAt<V>(t: seq<Slot<V>>, p: Places, k: int): V
    requires TableOK(t, p) && k in p
  {
    assert KeyOK(t, p, k);
    t[Probe(Hash(k), |t|, p[k])].value
  }
  ghost function Entries<V>(t: seq<Slot<V>>, p: Places): map<int, V>
    requires TableOK(t, p)
  {
    map k | k in p :: ValueAt(t, p, k)
  }

  // ---- changes of one slot ----

  lemma LinkedOn<V>(t: seq<Slot<V>>, t': seq<Slot<V>>, h: nat, i: nat, j: int)
    requires Linked(t, h, i) && |t'| == |t| >= 3 && 0 <= j < |t| && t' == t[j := t'[j]]
      && (Solid(t[j]) ==> Solid(t'[j]))
    ensures Linked(t', h, i)
  {
    forall n: nat | n < i ensures LinkAt(t', h, n) { assert LinkAt(t, h, n); }
  }
  lemma ChainIs(x: int)
    requires 0 <= x < W32
    ensures 0 <= Chain(x) < W32 && Low(Chain(x)) == Low(x) && Chained(Chain(x))
  {}
  // a chain marker is set on an occupied slot
  lemma MarkOK<V>(t: seq<Slot<V>>, p: Places, j: int)
    requires TableOK(t, p) && 0 <= j < |t| && t[j].key != NULL_KEY
    ensures var t' := t[j := t[j].(hashMix := Chain(t[j].hashMix))];
            TableOK(t', p) && Entries(t', p) == Entries(t, p) && Solid(t'[j])
  {
    var t' := t[j := t[j].(hashMix := Chain(t[j].hashMix))];
    assert SlotOK(t, p, j);
    ChainIs(t[j].hashMix);
    forall x ensures SlotOK(t', p, x) { assert SlotOK(t, p, x); }
    forall k ensures KeyOK(t', p, k) { assert KeyOK(t, p, k); if k in p { LinkedOn(t, t', Hash(k), p[k], j); } }
    forall k | k in p ensures ValueAt(t', p, k) == ValueAt(t, p, k) {}
  }
  // a new key goes to a slot without a live one, behind a linked stretch of its probe sequence
  lemma InsertOK<V>(t: seq<Slot<V>>, p: Places, key: int32, v: V, i: nat)
    requires TableOK(t, p) && key !in p && key != NULL_KEY && key != REMOVED_KEY && i < |t| && Linked(t, Hash(key), i)
    requires !Live(t[Probe(Hash(key), |t|, i)])
    ensures var j := Probe(Hash(key), |t|, i);
      var t', p' := t[j := Slot(key, v, t[j].hashMix + Hash(key))], p[key := i];
      TableOK(t', p') && Entries(t', p') == Entries(t, p)[key := v]
  {
    var h := Hash(key);
    var j := Probe(h, |t|, i);
    assert SlotOK(t, p, j);
    var t', p' := t[j := Slot(key, v, t[j].hashMix + h)], p[key := i];
    LowSum(t[j].hashMix, h);
    forall x ensures SlotOK(t', p', x) { assert SlotOK(t, p, x); }
    forall k ensures KeyOK(t', p', k) {
      assert KeyOK(t, p, k);
      if k == key { LinkedOn(t, t', h, i, j); } else if k in p { LinkedOn(t, t', Hash(k), p[k], j); }
    }
    forall k | k in p ensures ValueAt(t', p', k) == ValueAt(t, p, k) { assert KeyOK(t, p, k); }
  }
  lemma LowSum(x: int, h: int)
    requires 0 <= x < W32 && Low(x) == 0 && 0 <= h < CHAIN_MARKER
    ensures Low(x + h) == h && x + h < W32 && (Chained(x) ==> Chained(x + h))
  {
    assert x == 0 || x == CHAIN_MARKER;
  }
  lemma OverwriteOK<V>(t: seq<Slot<V>>, p: Places, key: int, v: V)
    requires TableOK(t, p) && key in p
    ensures KeyOK(t, p, key) && var j := Probe(Hash(key), |t|, p[key]); var t' := t[j := t[j].(value := v)];
      TableOK(t', p) && Entries(t', p) == Entries(t, p)[key := v]
  {
    assert KeyOK(t, p, key);
    var j := Probe(Hash(key), |t|, p[key]);
    var t' := t[j := t[j].(value := v)];
    forall x ensures SlotOK(t', p, x) { assert SlotOK(t, p, x); }
    forall k ensures KeyOK(t', p, k) { assert KeyOK(t, p, k); if k in p { LinkedOn(t, t', Hash(k), p[k], j); } }
    forall k | k in p && k != key ensures ValueAt(t', p, k) == ValueAt(t, p, k) { assert KeyOK(t, p, k); }
  }
  // a tombstone where the slot is part of a chain, and nothing otherwise
  function Vacated<V>(s: Slot<V>, none: V): Slot<V> {
    if Chained(s.hashMix) then Slot(REMOVED_KEY, none, CHAIN_MARKER) else Slot(NULL_KEY, none, 0)
  }
  lemma RemoveOK<V>(t: seq<Slot<V>>, p: Places, key: int, none: V)
    requires TableOK(t, p) && key in p
    ensures KeyOK(t, p, key) && var j := Probe(Hash(key), |t|, p[key]); var t' := t[j := Vacated(t[j], none)];
      TableOK(t', p - {key}) && Entries(t', p - {key}) == Entries(t, p) - {key}
  {
    assert KeyOK(t, p, key);
    var j := Probe(Hash(key), |t|, p[key]);
    var t', p' := t[j := Vacated(t[j], none)], p - {key};
    forall x ensures SlotOK(t', p', x) { assert SlotOK(t, p, x); }
    forall k ensures KeyOK(t', p', k) { assert KeyOK(t, p, k); if k in p' { LinkedOn(t, t', Hash(k), p[k], j); } }
    forall k | k in p' ensures ValueAt(t', p', k) == ValueAt(t, p, k) { assert KeyOK(t, p, k); }
  }
  // a tombstone goes to an empty slot
  lemma TombstoneOK<V>(t: seq<Slot<V>>, p: Places, j: int, v: V)
    requires TableOK(t, p) && 0 <= j < |t| && t[j].key == NULL_KEY
    ensures var t' := t[j := Slot(REMOVED_KEY, v, 0)]; TableOK(t', p) && Entries(t', p) == Entries(t, p)
  {
    var t' := t[j := Slot(REMOVED_KEY, v, 0)];
    forall x ensures SlotOK(t', p, x) { assert SlotOK(t, p, x); }
    forall k ensures KeyOK(t', p, k) { assert KeyOK(t, p, k); if k in p { LinkedOn(t, t', Hash(k), p[k], j); } }
    forall k | k in p ensures ValueAt(t', p, k) == ValueAt(t, p, k) { assert KeyOK(t, p, k); }
  }
  lemma EmptyOK<V>(t: seq<Slot<V>>, none: V)
    requires |t| >= 3 && Prime(|t|) && forall j :: 0 <= j < |t| ==> t[j] == Slot(NULL_KEY, none, 0)
    ensures TableOK(t, map[]) && Entries(t, map[]) == map[]
  {
    var p: Places := map[];
    forall x ensures SlotOK(t, p, x) {}
    forall k ensures KeyOK(t, p, k) {}
  }

  // ---- searching ----

  // the first n slots of the probe sequence do not hold the key
  ghost predicate Passed<V>(t: seq<Slot<V>>, key: int32, n: nat) {
    |t| >= 3 && forall i: nat {:trigger Probe(Hash(key), |t|, i)} :: i < n ==> t[Probe(Hash(key), |t|, i)].key != key
  }
  lemma FoundAt<V>(t: seq<Slot<V>>, p: Places, key: int32, j: int)
    requires TableOK(t, p) && 0 <= j < |t| && t[j].key == key && key != NULL_KEY && key != REMOVED_KEY
    ensures key in p && p[key] < |t| && j == Probe(Hash(key), |t|, p[key]) && Entries(t, p)[key] == t[j].value
  {
    assert SlotOK(t, p, j) && KeyOK(t, p, key);
  }
  // a slot that does not carry the chain on ends the search
  lemma NotFound<V>(t: seq<Slot<V>>, p: Places, key: int32, n: nat)
    requires TableOK(t, p) && Passed(t, key, n)
    requires n == |t| || (n < |t| && t[Probe(Hash(key), |t|, n)].key != key && !Solid(t[Probe(Hash(key), |t|, n)]))
    ensures key !in p
  {
    assert KeyOK(t, p, key);
    assert key in p && n < p[key] ==> LinkAt(t, Hash(key), n);
  }
  // A lookup of the key comes to turn n: the slots before are occupied, chain-marked and hold other keys.
  ghost predicate Way<V>(t: seq<Slot<V>>, key: int32, n: nat) { Passed(t, key, n) && Linked(t, Hash(key), n) }
  ghost predicate TombAt<V>(t: seq<Slot<V>>, h: nat, n: nat) { |t| >= 3 && t[Probe(h, |t|, n)].key == REMOVED_KEY }
  ghost predicate NoTomb<V>(t: seq<Slot<V>>, h: nat, n: nat) {
    forall i: nat {:trigger TombAt(t, h, i)} :: i < n ==> !TombAt(t, h, i)
  }
  // and reads a tombstone there
  ghost predicate Meets<V>(t: seq<Slot<V>>, key: int32) {
    exists n: nat {:trigger TombAt(t, Hash(key), n)} :: n < |t| && Way(t, key, n) && TombAt(t, Hash(key), n)
  }
  lemma WayStart<V>(t: seq<Slot<V>>, key: int32)
    requires |t| >= 3
    ensures Way(t, key, 0) && NoTomb(t, Hash(key), 0)
  {}
  lemma WayOn<V>(t: seq<Slot<V>>, key: int32, n: nat)
    requires Way(t, key, n) && t[Probe(Hash(key), |t|, n)].key != key && Solid(t[Probe(Hash(key), |t|, n)])
    ensures Way(t, key, n + 1)
    ensures NoTomb(t, Hash(key), n) && !TombAt(t, Hash(key), n) ==> NoTomb(t, Hash(key), n + 1)
  {
    var h, n1 := Hash(key), n + 1;
    forall i: nat | i < n1 ensures LinkAt(t, h, i) && t[Probe(h, |t|, i)].key != key {
      if i < n { assert LinkAt(t, h, i); }
    }
  }
  lemma OtherPassed<V>(t: seq<Slot<V>>, key: int32, m: nat, n: nat)
    requires Way(t, key, m) && n < m
    ensures t[Probe(Hash(key), |t|, n)].key != key && Solid(t[Probe(Hash(key), |t|, n)])
  {
    assert LinkAt(t, Hash(key), n);
  }
  // a lookup that has read no tombstone when it ends meets none
  lemma Unmet<V>(t: seq<Slot<V>>, key: int32, n: nat)
    requires |t| >= 3 && n <= |t| && NoTomb(t, Hash(key), n)
    requires n == |t| || (!TombAt(t, Hash(key), n)
      && (t[Probe(Hash(key), |t|, n)].key == key || !Solid(t[Probe(Hash(key), |t|, n)])))
    ensures !Meets(t, key)
  {
    var h := Hash(key);
    forall m: nat | m < |t| && Way(t, key, m) ensures !TombAt(t, h, m) {
      if m > n { OtherPassed(t, key, m, n); }
    }
  }
  // what a lookup of the tombstones' own key has passed holds no tombstone
  lemma PassedNoTomb<V>(t: seq<Slot<V>>, n: nat)
    requires Passed(t, REMOVED_KEY, n)
    ensures NoTomb(t, Hash(REMOVED_KEY), n)
  {}
  // a tombstone that is vacated once more
  lemma VacatedTomb<V>(t: seq<Slot<V>>, p: Places, j: int, none: V)
    requires TableOK(t, p) && 0 <= j < |t| && t[j].key == REMOVED_KEY
    ensures var t' := t[j := Vacated(t[j], none)]; TableOK(t', p) && Entries(t', p) == Entries(t, p)
  {
    var t' := t[j := Vacated(t[j], none)];
    forall x ensures SlotOK(t', p, x) { assert SlotOK(t, p, x); }
    forall k ensures KeyOK(t', p, k) { assert KeyOK(t, p, k); if k in p { LinkedOn(t, t', Hash(k), p[k], j); } }
    forall k | k in p ensures ValueAt(t', p, k) == ValueAt(t, p, k) { assert KeyOK(t, p, k); }
  }
  // Distinct slots hold distinct live keys.
  ghost function KeysSeen<V>(t: seq<Slot<V>>, h: nat, n: nat): set<int> requires |t| >= 3 {
    if n == 0 then {} else KeysSeen(t, h, n - 1) + {t[Probe(h, |t|, n - 1)].key as int}
  }
  lemma {:induction false} SeenLive<V>(t: seq<Slot<V>>, p: Places, h: nat, n: nat)
    requires TableOK(t, p) && n <= |t|
      && forall i: nat {:trigger Probe(h, |t|, i)} :: i < n ==> Live(t[Probe(h, |t|, i)])
    ensures KeysSeen(t, h, n) <= p.Keys && |KeysSeen(t, h, n)| == n
    ensures forall k ::
              k in KeysSeen(t, h, n)
              ==> exists i: nat {:trigger Probe(h, |t|, i)} :: i < n && t[Probe(h, |t|, i)].key == k
  {
    if n > 0 {
      SeenLive(t, p, h, n - 1);
      var j := Probe(h, |t|, n - 1);
      assert SlotOK(t, p, j);
      if t[j].key in KeysSeen(t, h, n - 1) {
        var i: nat :| i < n - 1 && t[Probe(h, |t|, i)].key == t[j].key;
        assert SlotOK(t, p, Probe(h, |t|, i));
        ProbeInjective(h, |t|, i, n - 1);
      }
    }
  }
  // with fewer keys than slots, some slot on every probe sequence holds no live key
  lemma SomeFree<V>(t: seq<Slot<V>>, p: Places, h: nat)
    requires TableOK(t, p) && |p| < |t|
    ensures exists i: nat {:trigger Probe(h, |t|, i)} :: i < |t| && !Live(t[Probe(h, |t|, i)])
  {
    assert |p.Keys| == |p|;
    if forall i: nat {:trigger Probe(h, |t|, i)} :: i < |t| ==> Live(t[Probe(h, |t|, i)]) {
      SeenLive(t, p, h, |t|);
      Rest(KeysSeen(t, h, |t|), p.Keys);
    }
  }
  // a table with a key in two slots stands for no map
  ghost predicate Twice<V>(t: seq<Slot<V>>, key: int) {
    exists i, j :: 0 <= i < j < |t| && t[i].key == key && t[j].key == key
  }
  lemma TwiceNotOK<V>(t: seq<Slot<V>>, p: Places, key: int)
    requires Twice(t, key) && key != NULL_KEY && key != REMOVED_KEY
    ensures !TableOK(t, p)
  {
    var i, j :| 0 <= i < j < |t| && t[i].key == key && t[j].key == key;
    assert TableOK(t, p) ==> SlotOK(t, p, i) && SlotOK(t, p, j);
  }

  // ---- moving to a larger table ----

  ghost function Occupied<V>(t: seq<Slot<V>>): (s: set<int>)
    ensures forall j :: j in s <==> 0 <= j < |t| && t[j].key != NULL_KEY
  {
    set j | 0 <= j < |t| && t[j].key != NULL_KEY
  }
  // as long as some slot is empty, so is one of the slots probed
  lemma TurnsLeft<V>(t: seq<Slot<V>>, h: nat, n: nat)
    requires |t| >= 3 && Prime(|t|) && n <= |t| && |Occupied(t)| < |t|
    requires forall i: nat {:trigger Probe(h, |t|, i)} :: i < n ==> t[Probe(h, |t|, i)].key != NULL_KEY
    ensures n < |t|
  {
    VisitedCount(h, |t|, n);
    assert Visited(h, |t|, n) <= Occupied(t);
    Rest(Visited(h, |t|, n), Occupied(t));
  }
  lemma OccupiedMore<V>(t: seq<Slot<V>>, j: int, s: Slot<V>)
    requires 0 <= j < |t| && t[j].key == NULL_KEY && s.key != NULL_KEY
    ensures |Occupied(t[j := s])| == |Occupied(t)| + 1
  {
    assert Occupied(t[j := s]) == Occupied(t) + {j};
  }
  lemma OccupiedSame<V>(t: seq<Slot<V>>, j: int, s: Slot<V>)
    requires 0 <= j < |t| && t[j].key == s.key
    ensures Occupied(t[j := s]) == Occupied(t)
  {}
  // the slot that holds a key
  ghost function HomeOf<V>(t: seq<Slot<V>>, p: Places, k: int): int
    requires TableOK(t, p) && k in p
  {
    assert KeyOK(t, p, k);
    Probe(Hash(k), |t|, p[k])
  }
  // the keys in the first i slots of t, and no others, are in t'
  ghost predicate MovedAt<V>(t: seq<Slot<V>>, p: Places, t': seq<Slot<V>>, p': Places, i: int, k: int)
    requires TableOK(t, p) && TableOK(t', p')
  {
    (k in p' <==> k in p && HomeOf(t, p, k) < i) && (k in p' ==> ValueAt(t', p', k) == ValueAt(t, p, k))
  }
  ghost predicate MovedTo<V>(t: seq<Slot<V>>, p: Places, t': seq<Slot<V>>, p': Places, i: int)
    requires TableOK(t, p) && TableOK(t', p')
  {
    forall k {:trigger MovedAt(t, p, t', p', i, k)} :: MovedAt(t, p, t', p', i, k)
  }
  lemma MovedNone<V>(t: seq<Slot<V>>, p: Places, t': seq<Slot<V>>)
    requires TableOK(t, p) && TableOK(t', map[])
    ensures MovedTo(t, p, t', map[], 0)
  {
    var p': Places := map[];
    forall k ensures MovedAt(t, p, t', p', 0, k) {}
  }
  // slot i holds no live key
  lemma MovedSkip<V>(t: seq<Slot<V>>, p: Places, t': seq<Slot<V>>, t'': seq<Slot<V>>, p': Places, i: int)
    requires TableOK(t, p) && TableOK(t', p') && TableOK(t'', p') && MovedTo(t, p, t', p', i) && 0 <= i < |t|
      && !Live(t[i]) && Entries(t'', p') == Entries(t', p')
    ensures MovedTo(t, p, t'', p', i + 1)
  {
    var n := i + 1;
    forall k ensures MovedAt(t, p, t'', p', n, k) {
      assert MovedAt(t, p, t', p', i, k) && KeyOK(t, p, k);
      if k in p' { assert Entries(t'', p')[k] == Entries(t', p')[k]; }
    }
  }
  lemma MovedKey<V>(t: seq<Slot<V>>, p: Places, t': seq<Slot<V>>, p': Places, t'': seq<Slot<V>>, p'': Places, i: int)
    requires TableOK(t, p) && TableOK(t', p') && TableOK(t'', p'') && MovedTo(t, p, t', p', i) && 0 <= i < |t|
      && Live(t[i])
    requires p''.Keys == p'.Keys + {t[i].key as int}
      && Entries(t'', p'') == Entries(t', p')[t[i].key as int := t[i].value]
    ensures MovedTo(t, p, t'', p'', i + 1)
  {
    assert SlotOK(t, p, i);
    var n := i + 1;
    forall k ensures MovedAt(t, p, t'', p'', n, k) {
      assert MovedAt(t, p, t', p', i, k) && KeyOK(t, p, k);
      if k in p'' {
        assert Entries(t'', p'')[k] == ValueAt(t'', p'', k); if k in p' {
          assert Entries(t', p')[k] == ValueAt(t', p', k);
        }
      }
    }
  }
  lemma MovedNew<V>(t: seq<Slot<V>>, p: Places, t': seq<Slot<V>>, p': Places, i: int)
    requires TableOK(t, p) && TableOK(t', p') && MovedTo(t, p, t', p', i) && 0 <= i < |t| && Live(t[i])
    ensures t[i].key as int !in p'
  {
    assert SlotOK(t, p, i);
    assert MovedAt(t, p, t', p', i, t[i].key);
  }
  lemma MovedAll<V>(t: seq<Slot<V>>, p: Places, t': seq<Slot<V>>, p': Places)
    requires TableOK(t, p) && TableOK(t', p') && MovedTo(t, p, t', p', |t|)
    ensures p'.Keys == p.Keys && Entries(t', p') == Entries(t, p) && |p'| == |p|
  {
    forall k ensures k in p' <==> k in p { assert MovedAt(t, p, t', p', |t|, k); }
    forall k | k in p ensures Entries(t', p')[k] == Entries(t, p)[k] { assert MovedAt(t, p, t', p', |t|, k); }
    assert p'.Keys == p.Keys && |p'.Keys| == |p'| && |p.Keys| == |p|;
  }

  // a slot is sought for hash h in the table t0, whose first n slots on the way are occupied and have been marked
  ghost predicate Placing<V>(t0: seq<Slot<V>>, t: seq<Slot<V>>, p: Places, h: nat, n: nat)
    requires TableOK(t0, p)
  {
    && TableOK(t, p) && |t| == |t0| && n < |t| && Entries(t, p) == Entries(t0, p) && Occupied(t) == Occupied(t0)
      && |Occupied(t0)| < |t0|
    && Linked(t, h, n) && forall i: nat {:trigger Probe(h, |t|, i)} :: i < n ==> t[Probe(h, |t|, i)].key != NULL_KEY
  }
  lemma PlacingStart<V>(t: seq<Slot<V>>, p: Places, h: nat)
    requires TableOK(t, p) && |Occupied(t)| < |t|
    ensures Placing(t, t, p, h, 0)
  {}
  // a marked slot extends the linked stretch
  lemma LinkedMore<V>(t: seq<Slot<V>>, h: nat, n: nat, j: int)
    requires |t| >= 3 && Linked(t, h, n) && n < |t| && j == Probe(h, |t|, n) && t[j].key != NULL_KEY
      && 0 <= t[j].hashMix < W32
    ensures Linked(t[j := t[j].(hashMix := Chain(t[j].hashMix))], h, n + 1)
  {
    var t' := t[j := t[j].(hashMix := Chain(t[j].hashMix))];
    ChainIs(t[j].hashMix);
    LinkedOn(t, t', h, n, j);
    forall i: nat | i < n + 1 ensures LinkAt(t', h, i) { assert i < n ==> LinkAt(t', h, i); }
  }
  lemma PlacingStep<V>(t0: seq<Slot<V>>, t: seq<Slot<V>>, p: Places, h: nat, n: nat)
    requires TableOK(t0, p) && Placing(t0, t, p, h, n) && t[Probe(h, |t|, n)].key != NULL_KEY
    ensures var j := Probe(h, |t|, n); Placing(t0, t[j := t[j].(hashMix := Chain(t[j].hashMix))], p, h, n + 1)
  {
    var j := Probe(h, |t|, n);
    var t' := t[j := t[j].(hashMix := Chain(t[j].hashMix))];
    assert SlotOK(t, p, j);
    MarkOK(t, p, j);
    OccupiedSame(t, j, t[j].(hashMix := Chain(t[j].hashMix)));
    LinkedMore(t, h, n, j);
    TurnsLeft(t', h, n + 1);
  }
  // the empty slot at which the search stops takes the slot s
  ghost predicate Placed<V>(t0: seq<Slot<V>>, t: seq<Slot<V>>, p: Places, p': Places, s: Slot<V>)
    requires TableOK(t0, p)
  {
    && TableOK(t, p') && |t| == |t0| && |Occupied(t)| == |Occupied(t0)| + 1
    && if Live(s) then p'.Keys == p.Keys + {s.key as int}
      && Entries(t, p') == Entries(t0, p)[s.key as int := s.value] else p' == p && Entries(t, p') == Entries(t0, p)
  }
  ghost predicate Movable<V>(s: Slot<V>, p: Places) {
    && s.key != NULL_KEY && 0 <= s.hashMix < W32 && (s.key == REMOVED_KEY ==> Low(s.hashMix) == 0)
    && (Live(s) ==> Low(s.hashMix) == Hash(s.key) && s.key as int !in p)
  }
  lemma PlacingEnd<V>(t0: seq<Slot<V>>, t: seq<Slot<V>>, p: Places, s: Slot<V>, n: nat)
    requires TableOK(t0, p) && Movable(s, p) && Placing(t0, t, p, Low(s.hashMix), n)
      && t[Probe(Low(s.hashMix), |t|, n)].key == NULL_KEY
    ensures var h := Low(s.hashMix); var j := Probe(h, |t|, n);
      t[j].hashMix == 0 && Or(0, h) == h
        && Placed(t0, t[j := Slot(s.key, s.value, h)], p, if Live(s) then p[s.key as int := n] else p, s)
  {
    var h := Low(s.hashMix);
    var j := Probe(h, |t|, n);
    assert SlotOK(t, p, j);
    OrFirst(h);
    OccupiedMore(t, j, Slot(s.key, s.value, h));
    if Live(s) { InsertOK(t, p, s.key, s.value, n); } else { TombstoneOK(t, p, j, s.value); }
  }

  // ---- putting ----

  // the state of PutImpl's search after n turns; slot `free`, that of turn f, is where the key would go, if one has
  // been found
  ghost predicate Inserting<V>(t0: seq<Slot<V>>, t: seq<Slot<V>>, p: Places, key: int32, n: nat, free: int, f: nat,
    unseen: bool)
    requires TableOK(t0, p)
  {
    && TableOK(t, p) && |t| == |t0| && n <= |t| && Entries(t, p) == Entries(t0, p) && |p| < |t|
    && (if free == -1 then Linked(t, Hash(key), n)
      && forall i: nat {:trigger Probe(Hash(key), |t|, i)} :: i < n ==> Live(t[Probe(Hash(key), |t|, i)])
        else f < n && free == Probe(Hash(key), |t|, f) && t[free].key == REMOVED_KEY && Linked(t, Hash(key), f))
    && (unseen ==> Passed(t, key, n))
  }
  lemma InsertingStart<V>(t: seq<Slot<V>>, p: Places, key: int32, unseen: bool)
    requires TableOK(t, p) && |p| < |t|
    ensures Inserting(t, t, p, key, 0, -1, 0, unseen)
  {}
  // a slot at which a search ends: one never used, or a tombstone that no chain passes
  predicate EndsChain<V>(s: Slot<V>) { s.key == NULL_KEY || (s.key == REMOVED_KEY && !Chained(s.hashMix)) }
  lemma InsertingTurn<V>(t0: seq<Slot<V>>, t: seq<Slot<V>>, p: Places, key: int32, n: nat, free: int, f: nat,
    unseen: bool)
    requires TableOK(t0, p) && Inserting(t0, t, p, key, n, free, f, unseen) && n < |t| && key != NULL_KEY
      && key != REMOVED_KEY
    requires var s := t[Probe(Hash(key), |t|, n)]; !EndsChain(s) && (unseen ==> s.key != key)
    ensures var j := Probe(Hash(key), |t|, n); var s := t[j];
      if free == -1 && s.key == REMOVED_KEY then Inserting(t0, t, p, key, n + 1, j, n, unseen)
      else if free == -1 then Inserting(t0, t[j := s.(hashMix := Chain(s.hashMix))], p, key, n + 1, -1, f, unseen)
      else Inserting(t0, t, p, key, n + 1, free, f, unseen)
  {
    var j := Probe(Hash(key), |t|, n);
    var s := t[j];
    assert SlotOK(t, p, j);
    if free == -1 && s.key != REMOVED_KEY {
      MarkOK(t, p, j);
      LinkedMore(t, Hash(key), n, j);
    }
  }
  // where the search ends: a slot without a live key, behind a linked stretch
  ghost predicate Ended<V>(t: seq<Slot<V>>, p: Places, key: int32, free: int, f: nat, unseen: bool) {
    && TableOK(t, p) && f < |t| && free == Probe(Hash(key), |t|, f) && Linked(t, Hash(key), f) && !Live(t[free])
      && (unseen ==> key as int !in p)
  }
  lemma InsertingEnds<V>(t0: seq<Slot<V>>, t: seq<Slot<V>>, p: Places, key: int32, n: nat, free: int, f: nat,
    unseen: bool)
    requires TableOK(t0, p) && Inserting(t0, t, p, key, n, free, f, unseen) && key != NULL_KEY && key != REMOVED_KEY
    requires n < |t| ==> EndsChain(t[Probe(Hash(key), |t|, n)])
    ensures n == |t| ==> free != -1
    ensures var j := if free == -1 then Probe(Hash(key), |t|, n) else free;
      Ended(t, p, key, j, if free == -1 then n else f, unseen)
  {
    if n == |t| && free == -1 { SomeFree(t, p, Hash(key)); }
    if unseen { NotFound(t, p, key, n); }
  }
}
