/** Whole runs of an Inttable: every call answers as a finite map would. */
module InttableRuns {
  import opened Bits
  import opened Probing
  import opened SlotTables
  import opened Inttables
  import opened InttableEnumerators

  datatype Op<V> =
    | Put(key: int32, value: V, overwrite: bool)
    | Remove(key: int32)
    | Get(key: int32)
    | Contains(key: int32)
    | Clear
    | Count
  datatype Reply<V> = NullKey | Duplicate | Done | Found(value: V) | Has(present: bool) | Size(n: int)

  // what a finite map does
  function After<V>(m: map<int, V>, op: Op<V>): map<int, V> {
    match op
    case Put(k, v, overwrite) => if k == NULL_KEY || (!overwrite && k as int in m) then m else m[k as int := v]
    case Remove(k) => m - {k as int}
    case Clear => map[]
    case _ => m
  }
  function Answers<V>(m: map<int, V>, op: Op<V>, none: V): Reply<V> {
    match op
    case Put(k, _, overwrite) =>
      if k == NULL_KEY then NullKey else if !overwrite && k as int in m then Duplicate else Done
    case Remove(k) => if k == NULL_KEY then NullKey else Done
    case Get(k) => if k == NULL_KEY then NullKey else Found(if k as int in m then m[k] else none)
    case Contains(k) => if k == NULL_KEY then NullKey else Has(k as int in m)
    case Clear => Done
    case Count => Size(|m|)
  }
  // The size of the table after a call: a put grows it, to a size that depends on the old one only, if it holds as many
  // keys as its threshold.
  predicate Grows<V>(load: int, size: int, m: map<int, V>, op: Op<V>) {
    op.Put? && op.key != NULL_KEY && |m| >= Threshold(size, load)
  }
  function SizeAfter<V>(load: int, size: int, m: map<int, V>, op: Op<V>): int {
    if Grows(load, size, m, op) then PrimeFrom(2 * size + 1, 0) else size
  }
  // A put may not make the table grow beyond the size up to which inserts and lookups follow the same path; with boxed
  // comparison the key must be absent.
  predicate Proper<V>(boxed: bool, load: int, size: int, m: map<int, V>, op: Op<V>) {
    match op
    case Put(k, _, _) =>
      k != REMOVED_KEY && !(boxed && k as int in m) && (Grows(load, size, m, op) ==> 2 * size + 1 <= LARGEST_SAFE)
    case Remove(k) => k != REMOVED_KEY
    case Get(k) => k != REMOVED_KEY
    case Contains(k) => k != REMOVED_KEY
    case _ => true
  }
  predicate AllProper<V>(boxed: bool, load: int, size: int, m: map<int, V>, ops: seq<Op<V>>)
    decreases |ops|
  {
    ops == [] || (Proper(boxed, load, size, m, ops[0])
      && AllProper(boxed, load, SizeAfter(load, size, m, ops[0]), After(m, ops[0]), ops[1..]))
  }
  function Replies<V>(m: map<int, V>, ops: seq<Op<V>>, none: V): seq<Reply<V>>
    decreases |ops|
  {
    if ops == [] then [] else [Answers(m, ops[0], none)] + Replies(After(m, ops[0]), ops[1..], none)
  }
  // how often a call counts as a modification
  function Counts<V>(load: int, size: int, m: map<int, V>, op: Op<V>): nat {
    match op
    case Put(k, _, overwrite) =>
      (if Grows(load, size, m, op) then 1 else 0)
      + (if k != NULL_KEY && (overwrite || k as int !in m) then 1 else 0)
    case Remove(k) => if k as int in m then 1 else 0
    case Clear => 1
    case _ => 0
  }
  function AllCounts<V>(load: int, size: int, m: map<int, V>, ops: seq<Op<V>>): nat
    decreases |ops|
  {
    if ops == [] then 0 else
      Counts(load, size, m, ops[0]) + AllCounts(load, SizeAfter(load, size, m, ops[0]), After(m, ops[0]), ops[1..])
  }
  // a call that stores, overwrites, removes or clears, or makes the table grow
  predicate Changes<V>(load: int, size: int, m: map<int, V>, op: Op<V>) {
    match op
    case Put(k, _, overwrite) => k != NULL_KEY && (overwrite || k as int !in m || |m| >= Threshold(size, load))
    case Remove(k) => k as int in m
    case Clear => true
    case _ => false
  }
  predicate SomeChanges<V>(load: int, size: int, m: map<int, V>, ops: seq<Op<V>>)
    decreases |ops|
  {
    ops != [] && (Changes(load, size, m, ops[0])
      || SomeChanges(load, SizeAfter(load, size, m, ops[0]), After(m, ops[0]), ops[1..]))
  }
  lemma {:induction false} CountsChange<V>(load: int, size: int, m: map<int, V>, ops: seq<Op<V>>)
    ensures AllCounts(load, size, m, ops) > 0 <==> SomeChanges(load, size, m, ops)
    decreases |ops|
  {
    if ops != [] { CountsChange(load, SizeAfter(load, size, m, ops[0]), After(m, ops[0]), ops[1..]); }
  }
  function Final<V>(m: map<int, V>, ops: seq<Op<V>>): map<int, V>
    decreases |ops|
  {
    if ops == [] then m else Final(After(m, ops[0]), ops[1..])
  }

  method DoPut<V(0)>(t: Inttable<V>, k: int32, v: V, overwrite: bool) returns (r: Reply<V>)
    requires t.Valid() && Proper(t.boxed, t.loadFactor100, t.table.Length, t.Contents(), Put(k, v, overwrite))
    modifies t, t.table
    ensures t.Valid() && t.Contents() == After(old(t.Contents()), Put(k, v, overwrite))
      && r == Answers(old(t.Contents()), Put(k, v, overwrite), t.none)
    ensures t.table == old(t.table) || fresh(t.table)
    ensures t.table.Length == SizeAfter(t.loadFactor100, old(t.table.Length), old(t.Contents()), Put(k, v, overwrite))
    ensures t.modificationCount == (old(t.modificationCount)
              + Counts(t.loadFactor100, old(t.table.Length), old(t.Contents()), Put(k, v, overwrite))) % W32
  {
    hide TableOK, Entries, Threshold, PrimeFrom;
    Cardinality(t);
    NoNull(t.table[..], t.place);
    var a := t.PutImpl(k, v, overwrite);
    r := match a case NullKeyError => NullKey case DuplicateError => Duplicate case Returned(_) => Done;
  }
  method DoRemove<V(0)>(t: Inttable<V>, k: int32) returns (r: Reply<V>)
    requires t.Valid() && k != REMOVED_KEY
    modifies t, t.table
    ensures t.Valid() && t.Contents() == old(t.Contents()) - {k as int}
      && r == Answers(old(t.Contents()), Op.Remove(k), t.none)
    ensures t.table == old(t.table)
    ensures t.modificationCount == (old(t.modificationCount)
              + Counts(t.loadFactor100, old(t.table.Length), old(t.Contents()), Op.Remove(k))) % W32
  {
    hide TableOK, Entries, Meets;
    NoNull(t.table[..], t.place); SameKeys(t.table[..], t.place); CountTwice(t.modificationCount);
    var a := t.Remove(k);
    r := if a == NullKeyError then NullKey else Done;
  }
  method Do<V(0)>(t: Inttable<V>, op: Op<V>) returns (r: Reply<V>)
    requires t.Valid() && Proper(t.boxed, t.loadFactor100, t.table.Length, t.Contents(), op)
    modifies t, t.table
    ensures t.Valid() && t.Contents() == After(old(t.Contents()), op) && r == Answers(old(t.Contents()), op, t.none)
    ensures t.table == old(t.table) || fresh(t.table)
    ensures t.table.Length == SizeAfter(t.loadFactor100, old(t.table.Length), old(t.Contents()), op)
    ensures t.modificationCount == (old(t.modificationCount)
              + Counts(t.loadFactor100, old(t.table.Length), old(t.Contents()), op)) % W32
  {
    hide TableOK, Entries, Threshold, PrimeFrom, Meets;
    CountTwice(t.modificationCount);
    match op
    case Put(k, v, overwrite) =>
      r := DoPut(t, k, v, overwrite);
    case Remove(k) =>
      r := DoRemove(t, k);
    case Get(k) =>
      var a := t.Get(k);
      r := if a.NullKeyError? then NullKey else Found(a.value);
    case Contains(k) =>
      var a := t.ContainsKey(k);
      r := if a == NullKeyError then NullKey else Has(a.value);
    case Clear =>
      t.Clear();
      r := Done;
    case Count =>
      var n := t.Count();
      r := Size(n);
  }
  lemma Cardinality<V(0)>(t: Inttable<V>)
    requires t.Valid()
    ensures t.inUse == |t.Contents()|
  {
    SameCount(t.table[..], t.place);
  }
  // Any number of calls, as long as each put finds room: the table answers like the map and ends with the map's pairs.
  method Run<V(0)>(t: Inttable<V>, ops: seq<Op<V>>) returns (rs: seq<Reply<V>>)
    requires t.Valid() && AllProper(t.boxed, t.loadFactor100, t.table.Length, t.Contents(), ops)
    modifies t, t.table
    ensures t.Valid() && t.Contents() == Final(old(t.Contents()), ops) && rs == Replies(old(t.Contents()), ops, t.none)
    ensures t.table == old(t.table) || fresh(t.table)
    ensures t.table.Length >= old(t.table.Length)
    ensures t.modificationCount == (old(t.modificationCount)
              + AllCounts(t.loadFactor100, old(t.table.Length), old(t.Contents()), ops)) % W32
  {
    hide TableOK, Entries, Threshold, PrimeFrom, Counts, Changes, After, Answers, SizeAfter, Proper;
    rs := [];
    ghost var m0, size0, count0, load := t.Contents(), t.table.Length, t.modificationCount, t.loadFactor100;
    ghost var done: nat := 0;
    CountTwice(count0);
    for n := 0 to |ops|
      invariant t.Valid() && (t.table == old(t.table) || fresh(t.table))
      invariant AllProper(t.boxed, t.loadFactor100, t.table.Length, t.Contents(), ops[n..])
      invariant Final(m0, ops) == Final(t.Contents(), ops[n..])
        && Replies(m0, ops, t.none) == rs + Replies(t.Contents(), ops[n..], t.none)
      invariant AllCounts(load, size0, m0, ops) == done + AllCounts(load, t.table.Length, t.Contents(), ops[n..])
        && t.modificationCount == (count0 + done) % W32 && t.table.Length >= size0
    {
      assert ops[n..][1..] == ops[n + 1..];
      ghost var c := Counts(load, t.table.Length, t.Contents(), ops[n]);
      NeverShrinks(t.boxed, load, t.table.Length, t.Contents(), ops[n]);
      var r := Do(t, ops[n]);
      CountOn(count0, done, c);
      done := done + c;
      rs := rs + [r];
    }
  }
  lemma CountOn(m: int, a: nat, b: nat)
    ensures ((m + a) % W32 + b) % W32 == (m + (a + b)) % W32
  {}
  lemma NeverShrinks<V>(boxed: bool, load: int, size: int, m: map<int, V>, op: Op<V>)
    requires Proper(boxed, load, size, m, op) && size >= 0
    ensures SizeAfter(load, size, m, op) >= size
  {
    hide PrimeFrom;
    if Grows(load, size, m, op) { PrimeAbove(2 * size + 1, 0); }
  }
  lemma {:induction false} PrimeAbove(x: int, i: nat)
    requires x <= LARGEST_SAFE && i <= 18
    ensures PrimeFrom(x, i) >= x
    decreases 18 - i
  {
    assert PRIME_TABLE[18] == LARGEST_SAFE;
    if i < 18 { PrimeAbove(x, i + 1); }
  }
  // An enumerator made before any number of calls, and moved after them: it fails exactly if they count to no multiple
  // of 2^32, so, if they count to less than that, exactly if one of them has changed the table.
  method RunAndMove<V(0)>(it: Enumerator<V>, ops: seq<Op<V>>) returns (rs: seq<Reply<V>>, r: Moved)
    requires it.InRange() && it.stamp == it.host.modificationCount
    requires var t := it.host; t.Valid() && AllProper(t.boxed, t.loadFactor100, t.table.Length, t.Contents(), ops)
    modifies it, it.host, it.host.table
    ensures it.host.Valid() && it.InRange()
    ensures var t := it.host;
            var n := AllCounts(t.loadFactor100, old(t.table.Length), old(t.Contents()), ops);
            && (r == OutOfSync <==> n % W32 != 0)
            && (n < W32
               ==> (r == OutOfSync <==> SomeChanges(t.loadFactor100, old(t.table.Length), old(t.Contents()), ops)))
  {
    hide TableOK, Entries, Threshold, PrimeFrom, AllCounts, SomeChanges, AllProper, Final, Replies;
    ghost var m0, size0, count0, load := it.host.Contents(), it.host.table.Length, it.host.modificationCount,
      it.host.loadFactor100;
    rs := Run(it.host, ops);
    CountsChange(load, size0, m0, ops);
    CameRound(count0, AllCounts(load, size0, m0, ops));
    r := it.MoveNext();
  }
  lemma CameRound(m: int, n: nat)
    requires 0 <= m < W32
    ensures (m + n) % W32 == m <==> n % W32 == 0
  {}
}
