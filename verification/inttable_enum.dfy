/** Enumeration of an Inttable (csutility/Collections/Inttable.cs:499-506, 566-628). */
module InttableEnumerators {
  import opened SlotTables
  import opened Inttables

  // the slots below n that hold live keys, in order
  ghost function LiveSlots<V>(t: seq<Slot<V>>, n: nat): (s: seq<int>)
    requires n <= |t|
    ensures forall j :: j in s ==> 0 <= j < n && Live(t[j])
  {
    if n == 0 then [] else if Live(t[n - 1]) then LiveSlots(t, n - 1) + [n - 1] else LiveSlots(t, n - 1)
  }
  lemma {:induction false} LiveAll<V>(t: seq<Slot<V>>, n: nat, j: int)
    requires n <= |t| && 0 <= j < n && Live(t[j])
    ensures j in LiveSlots(t, n)
  {
    if j < n - 1 { LiveAll(t, n - 1, j); }
  }
  lemma {:induction false} LiveOrder<V>(t: seq<Slot<V>>, n: nat)
    requires n <= |t|
    ensures forall a, b :: 0 <= a < b < |LiveSlots(t, n)| ==> LiveSlots(t, n)[a] < LiveSlots(t, n)[b]
  {
    if n > 0 {
      LiveOrder(t, n - 1);
      var ls := LiveSlots(t, n - 1);
      assert forall a :: 0 <= a < |ls| ==> ls[a] in ls;
    }
  }
  lemma {:induction false} LiveSkip<V>(t: seq<Slot<V>>, m: nat, n: nat)
    requires m <= n <= |t| && forall j :: m <= j < n ==> !Live(t[j])
    ensures LiveSlots(t, n) == LiveSlots(t, m)
  {
    if m < n { LiveSkip(t, m, n - 1); }
  }
  // the keys of the live slots, in order, are the keys of the map, each once
  ghost predicate Lists<V>(pairs: seq<(int32, V)>, c: map<int, V>) {
    && |pairs| == |c| && (forall a, b :: 0 <= a < b < |pairs| ==> pairs[a].0 != pairs[b].0)
    && (forall a :: 0 <= a < |pairs| ==> pairs[a].0 as int in c && c[pairs[a].0] == pairs[a].1)
    && (forall k :: k in c ==> exists a :: 0 <= a < |pairs| && pairs[a].0 == k)
  }
  ghost predicate Pairs<V>(pairs: seq<(int32, V)>, t: seq<Slot<V>>, ls: seq<int>) {
    |pairs| == |ls| && forall a :: 0 <= a < |ls| ==> 0 <= ls[a] < |t| && pairs[a] == (t[ls[a]].key, t[ls[a]].value)
  }
  lemma PairsList<V>(pairs: seq<(int32, V)>, t: seq<Slot<V>>, p: Places)
    requires TableOK(t, p) && Pairs(pairs, t, LiveSlots(t, |t|))
    ensures Lists(pairs, Entries(t, p))
  {
    var ls := LiveSlots(t, |t|);
    LiveOrder(t, |t|);
    forall a | 0 <= a < |ls| ensures pairs[a].0 as int in p && HomeOf(t, p, pairs[a].0) == ls[a]
      && Entries(t, p)[pairs[a].0] == pairs[a].1 {
      assert ls[a] in ls && SlotOK(t, p, ls[a]);
      FoundAt(t, p, t[ls[a]].key, ls[a]);
    }
    forall k | k in p ensures exists a :: 0 <= a < |pairs| && pairs[a].0 == k {
      assert KeyOK(t, p, k);
      LiveAll(t, |t|, HomeOf(t, p, k));
      var a :| 0 <= a < |ls| && ls[a] == HomeOf(t, p, k);
      assert pairs[a].0 == k;
    }
    CountPairs(pairs, t, p);
  }
  ghost function FirstKeys<V>(pairs: seq<(int32, V)>): (s: set<int>)
    ensures forall k :: k in s <==> exists a :: 0 <= a < |pairs| && pairs[a].0 == k
  {
    if pairs == [] then {} else FirstKeys(pairs[..|pairs|-1]) + {pairs[|pairs|-1].0 as int}
  }
  lemma {:induction false} FirstKeysCount<V>(pairs: seq<(int32, V)>)
    requires forall a, b :: 0 <= a < b < |pairs| ==> pairs[a].0 != pairs[b].0
    ensures |FirstKeys(pairs)| == |pairs|
  {
    if pairs != [] {
      var rest := pairs[..|pairs|-1];
      assert forall a :: 0 <= a < |rest| ==> rest[a] == pairs[a];
      FirstKeysCount(rest);
    }
  }
  lemma CountPairs<V>(pairs: seq<(int32, V)>, t: seq<Slot<V>>, p: Places)
    requires TableOK(t, p) && (forall a, b :: 0 <= a < b < |pairs| ==> pairs[a].0 != pairs[b].0)
    requires forall a :: 0 <= a < |pairs| ==> pairs[a].0 as int in p
    requires forall k :: k in p ==> exists a :: 0 <= a < |pairs| && pairs[a].0 == k
    ensures |pairs| == |Entries(t, p)|
  {
    FirstKeysCount(pairs);
    assert FirstKeys(pairs) == p.Keys == Entries(t, p).Keys;
    assert |Entries(t, p).Keys| == |Entries(t, p)|;
  }

  // MoveNext throws InvalidOperationException if the table has been modified
  datatype Moved = OutOfSync | Moved(more: bool)

  class Enumerator<V(0)> {
    const host: Inttable<V>
    const stamp: int
    const size: int
    var pos: int
    var currentKey: int32
    var currentValue: V

    // tables do not shrink
    ghost predicate InRange()
      reads this, host
    {
      -1 <= pos <= size <= host.table.Length
    }
    constructor (host: Inttable<V>)
      ensures this.host == host && InRange() && size == host.table.Length && pos == -1
      ensures stamp == host.modificationCount
    {
      this.host, stamp, size := host, host.modificationCount, host.table.Length;
      pos, currentKey, currentValue := -1, NULL_KEY, host.none;
    }
    method MoveNext() returns (r: Moved)
      requires InRange()
      modifies this
      ensures InRange()
      ensures r == OutOfSync <==> host.modificationCount != stamp
      ensures r == OutOfSync ==> pos == old(pos) && currentKey == old(currentKey) && currentValue == old(currentValue)
      ensures r.Moved? ==> old(pos) <= pos && (forall j :: old(pos) < j < pos ==> !Live(host.table[j]))
      ensures r == Moved(true)
              ==> old(pos) < pos < size && Live(host.table[pos]) && currentKey == host.table[pos].key
                  && currentValue == host.table[pos].value
      ensures r == Moved(false) ==> pos == size && currentKey == NULL_KEY && currentValue == host.none
    {
      if host.modificationCount != stamp { return OutOfSync; }
      if pos < size {
        pos := pos + 1;
        while pos < size
          invariant old(pos) < pos <= size && forall j :: old(pos) < j < pos ==> !Live(host.table[j])
        {
          var entry := host.table[pos];
          if Live(entry) {
            currentKey := entry.key;
            currentValue := entry.value;
            return Moved(true);
          }
          pos := pos + 1;
        }
      }
      currentKey := NULL_KEY;
      currentValue := host.none;
      return Moved(false);
    }
  }

  // the enumerator has stopped at slot n; the pairs before it are in arr from i on
  ghost predicate Copied<V>(t: seq<Slot<V>>, s: seq<(int32, V)>, s0: seq<(int32, V)>, i: int, n: nat) {
    n <= |t| && CopiedTo(t, s, s0, i, LiveSlots(t, n))
  }
  ghost predicate CopiedTo<V>(t: seq<Slot<V>>, s: seq<(int32, V)>, s0: seq<(int32, V)>, i: int, ls: seq<int>) {
    |s| == |s0| && 0 <= i <= i + |ls| <= |s| && Pairs(s[i..i + |ls|], t, ls) && s[..i] == s0[..i]
      && s[i + |ls|..] == s0[i + |ls|..]
  }
  lemma CopiedMore<V>(t: seq<Slot<V>>, s: seq<(int32, V)>, s0: seq<(int32, V)>, i: int, m: nat, n: nat)
    requires m < n <= |t| && Copied(t, s, s0, i, m) && Live(t[m]) && (forall j :: m < j < n ==> !Live(t[j]))
      && i + |LiveSlots(t, |t|)| <= |s|
    ensures var k := i + |LiveSlots(t, m)|; k < |s| && Copied(t, s[k := (t[m].key, t[m].value)], s0, i, n)
  {
    hide CopiedTo, LiveSlots, Live;
    LiveMono(t, m + 1, |t|);
    LiveSkip(t, m + 1, n);
    LiveNext(t, m);
    PairsMore(t, s, s0, i, LiveSlots(t, m), m, LiveSlots(t, n));
  }
  lemma LiveNext<V>(t: seq<Slot<V>>, m: nat)
    requires m < |t| && Live(t[m])
    ensures LiveSlots(t, m + 1) == LiveSlots(t, m) + [m]
  {}
  lemma PairsMore<V>(t: seq<Slot<V>>, s: seq<(int32, V)>, s0: seq<(int32, V)>, i: int, ls: seq<int>, m: nat,
    ls1: seq<int>)
    requires ls1 == ls + [m] && m < |t| && CopiedTo(t, s, s0, i, ls) && i + |ls| < |s|
    ensures CopiedTo(t, s[i + |ls| := (t[m].key, t[m].value)], s0, i, ls1)
  {
    var k := i + |ls|;
    var s' := s[k := (t[m].key, t[m].value)];
    assert s'[i..k + 1] == s[i..k] + [(t[m].key, t[m].value)];
    assert s'[..i] == s[..i];
    assert s'[k + 1..] == s[k..][1..] && s0[k + 1..] == s0[k..][1..];
  }
  // the enumerator stands on a live slot, or at the end
  ghost predicate StoppedAt<V(0)>(it: Enumerator<V>, t: seq<Slot<V>>, more: bool)
    reads it, it.host
  {
    && it.InRange() && it.stamp == it.host.modificationCount && 0 <= it.pos <= it.size == |t|
    && if more then it.pos < |t| && Live(t[it.pos]) && it.currentKey == t[it.pos].key
      && it.currentValue == t[it.pos].value else it.pos == |t|
  }
  method Next<V(0)>(it: Enumerator<V>, ghost t: seq<Slot<V>>) returns (more: bool)
    requires it.InRange() && it.stamp == it.host.modificationCount && -1 <= it.pos < it.size == |t|
      && t == it.host.table[..]
    modifies it
    ensures StoppedAt(it, t, more) && old(it.pos) < it.pos && (forall j :: old(it.pos) < j < it.pos ==> !Live(t[j]))
    ensures |LiveSlots(t, it.pos)| == |LiveSlots(t, old(it.pos) + 1)|
  {
    ghost var from := it.pos + 1;
    var r := it.MoveNext();
    more := r.more;
    LiveSkip(t, from, it.pos);
  }
  lemma CopiedAll<V>(t: seq<Slot<V>>, s: seq<(int32, V)>, s0: seq<(int32, V)>, i: int, p: Places)
    requires TableOK(t, p) && Copied(t, s, s0, i, |t|)
    ensures var n := i + |Entries(t, p)|;
            n <= |s| && Lists(s[i..n], Entries(t, p)) && s[..i] == s0[..i] && s[n..] == s0[n..]
            && Pairs(s[i..n], t, LiveSlots(t, |t|))
  {
    hide TableOK, Lists, Entries, LiveSlots, Pairs, Live;
    LiveCount(t, p);
    PairsList(s[i..i + |LiveSlots(t, |t|)|], t, p);
  }
  // the current pair is stored, and the enumerator moves on
  method CopyOne<V(0)>(it: Enumerator<V>, arr: array<(int32, V)>, n: int, ghost t: seq<Slot<V>>,
    ghost s0: seq<(int32, V)>, ghost i: int)
    returns (more: bool)
    requires StoppedAt(it, t, true) && t == it.host.table[..] && Copied(t, arr[..], s0, i, it.pos)
      && n == i + |LiveSlots(t, it.pos)| && i + |LiveSlots(t, |t|)| <= arr.Length
    modifies it, arr
    ensures StoppedAt(it, t, more) && Copied(t, arr[..], s0, i, it.pos) && n + 1 == i + |LiveSlots(t, it.pos)|
      && old(it.pos) < it.pos
  {
    ghost var s, at := arr[..], it.pos;
    LiveMono(t, at + 1, |t|);
    arr[n] := (it.currentKey, it.currentValue);
    assert arr[..] == s[n := (t[at].key, t[at].value)];
    more := Next(it, t);
    CopiedMore(t, s, s0, i, at, it.pos);
  }
  // CopyToArray in ENTRY_MODE: the enumerator yields every pair of the map exactly once, in the order of the slots
  method CopyToArray<V(0)>(host: Inttable<V>, arr: array<(int32, V)>, i: int)
    requires host.Valid() && 0 <= i && i + |host.Contents()| <= arr.Length
    modifies arr
    ensures Lists(arr[..][i..i + |host.Contents()|], host.Contents())
    ensures Pairs(arr[..][i..i + |host.Contents()|], host.table[..], LiveSlots(host.table[..], host.table.Length))
    ensures arr[..][..i] == old(arr[..])[..i]
      && arr[..][i + |host.Contents()|..] == old(arr[..])[i + |host.Contents()|..]
  {
    hide Lists, Pairs, Copied, TableOK, Entries, Live;
    ghost var t, s0 := host.table[..], arr[..];
    var it := new Enumerator(host);
    var n := i;
    LiveCount(t, host.place);
    var more := Next(it, t);
    CopiedStart(t, s0, i, it.pos);
    while more
      invariant fresh(it) && it.host == host && host.table[..] == t && StoppedAt(it, t, more)
      invariant Copied(t, arr[..], s0, i, it.pos) && n == i + |LiveSlots(t, it.pos)|
      decreases |t| - it.pos
    {
      more := CopyOne(it, arr, n, t, s0, i);
      n := n + 1;
    }
    CopiedAll(t, arr[..], s0, i, host.place);
  }
  lemma CopiedStart<V>(t: seq<Slot<V>>, s: seq<(int32, V)>, i: int, n: nat)
    requires n <= |t| && |LiveSlots(t, n)| == 0 && 0 <= i <= |s|
    ensures Copied(t, s, s, i, n)
  {}
  lemma {:induction false} LiveMono<V>(t: seq<Slot<V>>, m: nat, n: nat)
    requires m <= n <= |t|
    ensures |LiveSlots(t, m)| <= |LiveSlots(t, n)|
  {
    if m < n { LiveMono(t, m, n - 1); }
  }
  lemma LiveCount<V>(t: seq<Slot<V>>, p: Places)
    requires TableOK(t, p)
    ensures |LiveSlots(t, |t|)| == |Entries(t, p)|
  {
    var ls := LiveSlots(t, |t|);
    var pairs := seq(|ls|, a requires 0 <= a < |ls| => assert ls[a] in ls; (t[ls[a]].key, t[ls[a]].value));
    PairsList(pairs, t, p);
  }
}
