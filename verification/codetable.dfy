/** The lookups and removals of Codetable (cscorlib/Collections/Codetable.cs:46-50, 172-203, 261-279, 341-370), whose
    keys are references. */
module Codetables {
  import opened Bits
  import opened Probing
  import opened SlotTables
  import opened Inttables

  // a tombstone holds an object of another class, on which the cast to the class of the keys throws
  datatype Lookup<T> = NoKey | CastError | Found(value: T)

  // the slot of the key, or -1
  method Find<V(0)>(t: Inttable<V>, key: int32) returns (r: Lookup<int>)
    requires t.Valid() && !t.boxed && key != REMOVED_KEY
    ensures r == NoKey <==> key == NULL_KEY
    ensures r == CastError <==> key != NULL_KEY && Meets(t.table[..], key)
    ensures r.Found? ==> r.value == if key in t.place then Probe(Hash(key), t.table.Length, t.place[key]) else -1
  {
    if key == NULL_KEY { return NoKey; }
    var size := t.table.Length;
    var h := key % 0x8000_0000;
    var indx := h;
    var step := (h / 32 + 1) % (size - 1) + 1;
    ghost var s, n: nat := t.table[..], 0;
    var i := size;
    WayStart(s, key);
    while i > 0
      invariant 0 <= i <= size && n == size - i && indx % size == Probe(h, size, n) && indx >= 0
      invariant Way(s, key, n) && NoTomb(s, h, n)
    {
      indx := indx % size;
      var entry := t.table[indx];
      if entry.key == REMOVED_KEY {
        assert TombAt(s, h, n);
        return CastError;
      }
      var k := entry.key;
      if k == NULL_KEY { break; }
      if k == key || (Low(entry.hashMix) == h && t.KeyEquals(key, k)) {
        FoundAt(s, t.place, key, indx); Unmet(s, key, n);
        return Found(indx);
      }
      if !Chained(entry.hashMix) { break; }
      WayOn(s, key, n);
      ProbeNext(h, size, n);
      indx := indx + step;
      n := n + 1;
      i := i - 1;
    }
    NotFound(s, t.place, key, n); Unmet(s, key, n);
    return Found(-1);
  }
  // A lookup answers as the map does exactly if its path meets no tombstone; else it throws.
  method ContainsKey<V(0)>(t: Inttable<V>, key: int32) returns (r: Lookup<bool>)
    requires t.Valid() && !t.boxed && key != REMOVED_KEY && key != NULL_KEY
    ensures r == if Meets(t.table[..], key) then CastError else Found(key in t.Contents())
  {
    var i := Find(t, key);
    r := if i.Found? then Found(i.value >= 0) else CastError;
  }
  method Get<V(0)>(t: Inttable<V>, key: int32) returns (r: Lookup<V>)
    requires t.Valid() && !t.boxed && key != REMOVED_KEY && key != NULL_KEY
    ensures r == if Meets(t.table[..], key) then CastError
                 else Found(if key in t.Contents() then t.Contents()[key] else t.none)
  {
    var size := t.table.Length;
    var h := key % 0x8000_0000;
    var indx := h;
    var step := (h / 32 + 1) % (size - 1) + 1;
    ghost var s, n: nat := t.table[..], 0;
    var i := size;
    WayStart(s, key);
    while i > 0
      invariant 0 <= i <= size && n == size - i && indx % size == Probe(h, size, n) && indx >= 0
      invariant Way(s, key, n) && NoTomb(s, h, n)
    {
      indx := indx % size;
      var entry := t.table[indx];
      if entry.key == REMOVED_KEY {
        assert TombAt(s, h, n);
        return CastError;
      }
      var k := entry.key;
      if k == NULL_KEY { break; }
      if k == key || (Low(entry.hashMix) == h && t.KeyEquals(key, k)) {
        FoundAt(s, t.place, key, indx); Unmet(s, key, n);
        return Found(entry.value);
      }
      if !Chained(entry.hashMix) { break; }
      WayOn(s, key, n);
      ProbeNext(h, size, n);
      indx := indx + step;
      n := n + 1;
      i := i - 1;
    }
    NotFound(s, t.place, key, n); Unmet(s, key, n);
    return Found(t.none);
  }
  // so does a removal, which then changes nothing
  method Remove<V(0)>(t: Inttable<V>, key: int32) returns (r: Lookup<()>)
    requires t.Valid() && !t.boxed && key != REMOVED_KEY && key != NULL_KEY
    modifies t, t.table
    ensures t.Valid() && r == if old(Meets(t.table[..], key)) then CastError else Found(())
    ensures t.Contents() == if r.Found? then old(t.Contents()) - {key as int} else old(t.Contents())
    ensures t.modificationCount == if r.Found? && key as int in old(t.Contents())
                                   then (old(t.modificationCount) + 1) % W32 else old(t.modificationCount)
  {
    var i := Find(t, key);
    if i == CastError { return CastError; }
    var _ := t.Remove(key);
    r := Found(());
  }
  // Keys 1 and 12 start at the same slot of a table of 11. When both have been entered and 1 has been removed, a lookup
  // of 12 throws, although 12 is there.
  ghost function AfterRemoval(): seq<Slot<int>> {
    var one := Slot(1, 6, Chain(1));
    seq(11, j => Slot(NULL_KEY, 0, 0))[1 := one][3 := Slot(12, 7, 12)][1 := Vacated(one, 0)]
  }
  lemma LookupThrows()
    ensures var t, p := AfterRemoval(), map[12 := 1]; TableOK(t, p) && Entries(t, p) == map[12 := 7] && Meets(t, 12)
  {
    var t: seq<Slot<int>>, p: Places := AfterRemoval(), map[12 := 1];
    SmallPrimes();
    assert Probe(12, 11, 0) == 1 && Probe(12, 11, 1) == 3;
    assert LinkAt(t, 12, 0);
    forall j ensures SlotOK(t, p, j) {}
    forall k ensures KeyOK(t, p, k) {}
    assert Way(t, 12, 0) && TombAt(t, 12, 0);
  }
}
