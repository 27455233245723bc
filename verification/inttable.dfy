/** Inttable (csutility/Collections/Inttable.cs): open addressing with double hashing, chain markers and tombstones. */
module Inttables {
  import opened Bits
  import opened Probing
  import opened SlotTables

  // a null key throws ArgumentNullException, a duplicate one ArgumentException
  datatype Answer<T> = NullKeyError | DuplicateError | Returned(value: T)

  // the largest table size p of the table of primes for which the insert's 32-bit spot, below 2^31 + p * (p - 1),
  // cannot overflow
  const LARGEST_SAFE := 31627

  // the first size in the table of primes that is not below x
  function PrimeFrom(x: int, i: nat): int
    requires i <= |PRIME_TABLE|
    decreases |PRIME_TABLE| - i
  {
    if i == |PRIME_TABLE| then 0 else if x <= PRIME_TABLE[i] then PRIME_TABLE[i] else PrimeFrom(x, i + 1)
  }
  method ToPrime(x: int) returns (p: int)
    requires x <= LARGEST
    ensures p in PRIME_TABLE && x <= p && p == PrimeFrom(x, 0)
    ensures forall q :: q in PRIME_TABLE && x <= q ==> p <= q
  {
    Ascending();
    assert PRIME_TABLE[33] == LARGEST;
    for i := 0 to |PRIME_TABLE|
      invariant PrimeFrom(x, i) == PrimeFrom(x, 0) && forall j :: 0 <= j < i ==> PRIME_TABLE[j] < x
    {
      if x <= PRIME_TABLE[i] { return PRIME_TABLE[i]; }
    }
    assert false;
    p := 0;
  }
  lemma Ascending()
    ensures forall i, j :: 0 <= i <= j < |PRIME_TABLE| ==> PRIME_TABLE[i] <= PRIME_TABLE[j]
  {
    assert forall i :: 0 <= i < |PRIME_TABLE| - 1 ==> PRIME_TABLE[i] < PRIME_TABLE[i + 1];
    forall i, j | 0 <= i <= j < |PRIME_TABLE| ensures PRIME_TABLE[i] <= PRIME_TABLE[j] { AscendingFrom(i, j); }
  }
  lemma {:induction false} AscendingFrom(i: int, j: int)
    requires 0 <= i <= j < |PRIME_TABLE|
      && forall i :: 0 <= i < |PRIME_TABLE| - 1 ==> PRIME_TABLE[i] < PRIME_TABLE[i + 1]
    ensures PRIME_TABLE[i] <= PRIME_TABLE[j]
    decreases j - i
  {
    if i < j { AscendingFrom(i, j - 1); }
  }

  lemma LastSafe()
    ensures LARGEST_SAFE in PRIME_TABLE
  {
    assert PRIME_TABLE[18] == LARGEST_SAFE;
  }
  // twice the size and one more, up to the next prime
  method NextSize(oldSize: int) returns (newSize: int)
    requires 3 <= oldSize && 2 * oldSize + 1 <= LARGEST_SAFE
    ensures 2 * oldSize + 1 <= newSize <= LARGEST_SAFE && Prime(newSize) && newSize == PrimeFrom(2 * oldSize + 1, 0)
  {
    hide PRIME_TABLE, PrimeFrom;
    LastSafe();
    newSize := ToPrime(2 * oldSize + 1);
    TablePrime(newSize);
  }

  // so many keys bring about a rehash
  function Threshold(size: int, load: int): int { if size * load / 100 >= size then size - 1 else size * load / 100 }

  class Inttable<V(0)> {
    // whether KeyEquals compares two boxes, as it does here, where the keys are ints; in Codetable they are references
    const boxed: bool
    const none: V
    const loadFactor100: int
    var table: array<Slot<V>>
    var inUse: int
    var modificationCount: int
    var threshold: int
    ghost var place: Places

    ghost predicate Valid()
      reads this, table
    {
      && TableOK(table[..], place) && inUse == |place| && inUse < table.Length
      && table.Length <= LARGEST_SAFE
      && 7 <= loadFactor100 <= 75 && threshold == ThresholdOf(table.Length) && threshold < table.Length
      && 0 <= modificationCount < W32
    }
    ghost function Contents(): map<int, V>
      reads this, table
      requires TableOK(table[..], place)
    {
      Entries(table[..], place)
    }
    function ThresholdOf(size: int): int { Threshold(size, loadFactor100) }
    // two boxes are never the same object, two references to one object are
    predicate KeyEquals(item: int, key: int) { !boxed && item == key }

    constructor (boxed: bool, none: V, capacity: int, load: int)
      requires 0 <= capacity && 10 <= load <= 100
        && (if capacity == 0 then 1 else capacity) * 100 / (75 * load / 100) <= LARGEST_SAFE
      ensures Valid() && Contents() == map[] && fresh(table) && inUse == 0 && this.boxed == boxed && this.none == none
      ensures loadFactor100 == 75 * load / 100 && modificationCount == 0
      ensures table.Length == PrimeFrom((if capacity == 0 then 1 else capacity) * 100 / (75 * load / 100), 0)
    {
      hide PRIME_TABLE, PrimeFrom;
      var tableSize := (if capacity == 0 then 1 else capacity) * 100 / (75 * load / 100);
      var size := ToPrime(tableSize);
      LastSafe();
      TablePrime(size);
      this.boxed, this.none, this.loadFactor100 := boxed, none, 75 * load / 100;
      table := new Slot<V>[size](_ => Slot(NULL_KEY, none, 0));
      inUse, modificationCount := 0, 0;
      threshold := if size * (75 * load / 100) / 100 >= size then size - 1 else size * (75 * load / 100) / 100;
      place := map[];
      new;
      EmptyOK(table[..], none);
    }

    // The slot that holds the key, or -1. The key of tombstones is found exactly if its path meets one.
    method Find(key: int32) returns (r: Answer<int>)
      requires Valid()
      ensures r == NullKeyError <==> key == NULL_KEY
      ensures key != NULL_KEY ==> r.Returned? && -1 <= r.value < table.Length
      ensures key != NULL_KEY && key != REMOVED_KEY ==>
                r.value == if key in place then Probe(Hash(key), table.Length, place[key]) else -1
      ensures key == REMOVED_KEY ==> (r.value >= 0 <==> Meets(table[..], key))
      ensures key == REMOVED_KEY && r.value >= 0 ==> table[r.value].key == REMOVED_KEY
    {
      if key == NULL_KEY { return NullKeyError; }
      var size := table.Length;
      var h := key % 0x8000_0000;
      var indx := h;
      var step := (h / 32 + 1) % (size - 1) + 1;
      ghost var n: nat := 0;
      var i := size;
      WayStart(table[..], key);
      while i > 0
        invariant 0 <= i <= size && n == size - i && indx % size == Probe(h, size, n) && indx >= 0
        invariant Way(table[..], key, n)
      {
        indx := indx % size;
        var entry := table[indx];
        var k := entry.key;
        if k == NULL_KEY { break; }
        if k == key || (Low(entry.hashMix) == h && KeyEquals(key, k)) {
          if key == REMOVED_KEY {
            assert TombAt(table[..], Hash(key), n);
          } else {
            FoundAt(table[..], place, key, indx);
          }
          return Returned(indx);
        }
        if !Chained(entry.hashMix) { break; }
        WayOn(table[..], key, n);
        ProbeNext(h, size, n);
        indx := indx + step;
        n := n + 1;
        i := i - 1;
      }
      NotFound(table[..], place, key, n);
      if key == REMOVED_KEY { PassedNoTomb(table[..], n); Unmet(table[..], key, n); }
      return Returned(-1);
    }

    // the indexer's getter
    method Get(key: int32) returns (r: Answer<V>)
      requires Valid()
      ensures r == NullKeyError <==> key == NULL_KEY
      ensures key != NULL_KEY && key != REMOVED_KEY
              ==> r == Returned(if key in Contents() then Contents()[key] else none)
      ensures key == REMOVED_KEY && !Meets(table[..], key) ==> r == Returned(none)
      ensures key == REMOVED_KEY && Meets(table[..], key) ==>
                r.Returned?
                && exists j :: 0 <= j < table.Length && table[j].key == REMOVED_KEY && r.value == table[j].value
    {
      if key == NULL_KEY { return NullKeyError; }
      var size := table.Length;
      var h := key % 0x8000_0000;
      var indx := h;
      var step := (h / 32 + 1) % (size - 1) + 1;
      ghost var n: nat := 0;
      var i := size;
      WayStart(table[..], key);
      while i > 0
        invariant 0 <= i <= size && n == size - i && indx % size == Probe(h, size, n) && indx >= 0
        invariant Way(table[..], key, n)
      {
        indx := indx % size;
        var entry := table[indx];
        var k := entry.key;
        if k == NULL_KEY { break; }
        if k == key || (Low(entry.hashMix) == h && KeyEquals(key, k)) {
          if key == REMOVED_KEY {
            assert TombAt(table[..], Hash(key), n);
          } else {
            FoundAt(table[..], place, key, indx);
          }
          return Returned(entry.value);
        }
        if !Chained(entry.hashMix) { break; }
        WayOn(table[..], key, n);
        ProbeNext(h, size, n);
        indx := indx + step;
        n := n + 1;
        i := i - 1;
      }
      NotFound(table[..], place, key, n);
      if key == REMOVED_KEY { PassedNoTomb(table[..], n); Unmet(table[..], key, n); }
      return Returned(none);
    }
    // the key of tombstones is reported exactly if its path meets one, although no table has it
    method ContainsKey(key: int32) returns (r: Answer<bool>)
      requires Valid()
      ensures r == NullKeyError <==> key == NULL_KEY
      ensures key != NULL_KEY && key != REMOVED_KEY ==> r == Returned(key in Contents())
      ensures key == REMOVED_KEY ==> r == Returned(Meets(table[..], key)) && key !in Contents()
    {
      var i := Find(key);
      r := if i == NullKeyError then NullKeyError else Returned(i.value >= 0);
      NoTombKey(table[..], place);
    }
    method Count() returns (n: int)
      requires Valid()
      ensures n == |Contents()|
    {
      SameCount(table[..], place);
      n := inUse;
    }
    method Clear()
      requires Valid()
      modifies this, table
      ensures Valid() && Contents() == map[] && table == old(table)
      ensures modificationCount == (old(modificationCount) + 1) % W32
    {
      var i := 0;
      while i < table.Length
        invariant 0 <= i <= table.Length && table == old(table)
        invariant forall j :: 0 <= j < i ==> table[j] == Slot(NULL_KEY, none, 0)
        modifies table
      {
        table[i] := Slot(NULL_KEY, none, 0);
        i := i + 1;
      }
      inUse := 0;
      modificationCount := (modificationCount + 1) % W32;
      place := map[];
      EmptyOK(table[..], none);
    }
    // key and value are cleared; a tombstone stays where the slot is part of a chain
    method Vacate(i: int, ghost key: int32)
      requires Valid() && key as int in place && 0 <= i < table.Length
        && i == Probe(Hash(key), table.Length, place[key])
      modifies this, table
      ensures Valid() && Contents() == old(Contents()) - {key as int} && table == old(table)
      ensures modificationCount == (old(modificationCount) + 1) % W32
    {
      ghost var t := table[..];
      RemoveOK(t, place, key, none);
      DropOne(place, key);
      var h := if Chained(table[i].hashMix) then CHAIN_MARKER else 0;
      table[i] := Slot(if h != 0 then REMOVED_KEY else NULL_KEY, none, h);
      inUse := inUse - 1;
      modificationCount := (modificationCount + 1) % W32;
      assert table[..] == t[i := Vacated(t[i], none)];
      place := place - {key as int};
    }
    // Removing the key of tombstones changes nothing, or, if its path meets one, counts one key too few. Only a removal
    // that finds its key counts as a modification.
    method Remove(key: int32) returns (r: Answer<()>)
      requires Valid()
      modifies this, table
      ensures r == NullKeyError <==> key == NULL_KEY
      ensures TableOK(table[..], place) && Contents() == old(Contents()) - {key as int} && table == old(table)
      ensures Valid() <==> !(key == REMOVED_KEY && old(Meets(table[..], key)))
      ensures key == REMOVED_KEY && old(Meets(table[..], key)) ==> inUse == |Contents()| - 1
      ensures var found := key as int in old(Contents()) || (key == REMOVED_KEY && old(Meets(table[..], key)));
              modificationCount == if found then (old(modificationCount) + 1) % W32 else old(modificationCount)
    {
      hide TableOK, Meets, Entries;
      NoNull(table[..], place); NoTombKey(table[..], place); SameKeys(table[..], place);
      if key as int !in place { DropAbsent(Contents(), key); }
      var i := Find(key);
      if i == NullKeyError { return NullKeyError; }
      if i.value >= 0 {
        if key == REMOVED_KEY {
          VacateTomb(i.value);
        } else {
          FoundIn(table[..], place, key, i.value);
          Vacate(i.value, key);
        }
      }
      return Returned(());
    }
    method VacateTomb(i: int)
      requires Valid() && 0 <= i < table.Length && table[i].key == REMOVED_KEY
      modifies this, table
      ensures TableOK(table[..], place) && Contents() == old(Contents()) && table == old(table)
      ensures !Valid() && inUse == |Contents()| - 1
      ensures modificationCount == (old(modificationCount) + 1) % W32
    {
      ghost var t := table[..];
      VacatedTomb(t, place, i, none);
      SameCount(t, place);
      var h := if Chained(table[i].hashMix) then CHAIN_MARKER else 0;
      table[i] := Slot(if h != 0 then REMOVED_KEY else NULL_KEY, none, h);
      inUse := inUse - 1;
      modificationCount := (modificationCount + 1) % W32;
      assert table[..] == t[i := Vacated(t[i], none)];
    }

    // ---- growing ----

    // one slot of the old table is put into the new one
    method MoveSlot(newTable: array<Slot<V>>, s: Slot<V>, ghost p: Places) returns (ghost p': Places)
      requires TableOK(newTable[..], p) && newTable.Length * (newTable.Length - 1) <= 0x8000_0000
        && |Occupied(newTable[..])| < newTable.Length && Movable(s, p)
      modifies newTable
      ensures Placed(old(newTable[..]), newTable[..], p, p', s)
    {
      var newSize := newTable.Length;
      var h := Low(s.hashMix);
      var spot := h;
      var step := (h / 32 + 1) % (newSize - 1) + 1;
      var j := spot % newSize;
      ghost var n: nat := 0;
      ghost var t0 := newTable[..];
      PlacingStart(t0, p, h);
      SpotNext(h, newSize, 0);
      while newTable[j].key != NULL_KEY
        invariant spot == Spot(h, newSize, n) && j == Probe(h, newSize, n) && Placing(t0, newTable[..], p, h, n)
        decreases newSize - n
      {
        ghost var t := newTable[..];
        PlacingStep(t0, t, p, h, n);
        newTable[j] := newTable[j].(hashMix := Chain(newTable[j].hashMix));
        assert newTable[..] == t[j := t[j].(hashMix := Chain(t[j].hashMix))];
        SpotOK(h, newSize, n + 1);
        SpotNext(h, newSize, n);
        spot := (spot + step) % W32;
        j := spot % newSize;
        n := n + 1;
      }
      ghost var t := newTable[..];
      PlacingEnd(t0, t, p, s, n);
      newTable[j] := Slot(s.key, s.value, Or(newTable[j].hashMix, h));
      assert newTable[..] == t[j := Slot(s.key, s.value, h)];
      p' := if Live(s) then p[s.key as int := n] else p;
    }
    method MoveAll(newTable: array<Slot<V>>) returns (ghost p': Places)
      requires Valid() && newTable != table && newTable.Length > table.Length
        && newTable.Length * (newTable.Length - 1) <= 0x8000_0000
      requires TableOK(newTable[..], map[]) && |Occupied(newTable[..])| == 0
      modifies newTable
      ensures TableOK(newTable[..], p') && p'.Keys == place.Keys && Entries(newTable[..], p') == Contents()
        && |p'| == |place|
    {
      ghost var t, p := table[..], place;
      p' := map[];
      MovedNone(t, p, newTable[..]);
      var oldSize := table.Length;
      var i := 0;
      while i < oldSize
        invariant 0 <= i <= oldSize && table[..] == t
        invariant TableOK(newTable[..], p') && MovedTo(t, p, newTable[..], p', i) && |Occupied(newTable[..])| <= i
      {
        var s := table[i];
        ghost var t', q := newTable[..], p';
        assert SlotOK(t, p, i);
        if s.key != NULL_KEY {
          if Live(s) { MovedNew(t, p, t', q, i); }
          p' := MoveSlot(newTable, s, q);
        }
        MovedNext(t, p, t', q, newTable[..], p', i);
        i := i + 1;
      }
      MovedAll(t, p, newTable[..], p');
    }
    method Rehash()
      requires Valid() && 2 * table.Length + 1 <= LARGEST_SAFE
      modifies this
      ensures Valid() && Contents() == old(Contents()) && inUse == old(inUse)
      ensures modificationCount == (old(modificationCount) + 1) % W32
      ensures fresh(table) && table.Length == PrimeFrom(2 * old(table.Length) + 1, 0) >= 2 * old(table.Length) + 1
    {
      hide PrimeFrom, Threshold;
      var newSize := NextSize(table.Length);
      var newTable := new Slot<V>[newSize](_ => Slot(NULL_KEY, none, 0));
      EmptyOK(newTable[..], none);
      SafeSize(newSize);
      NoneOccupied(newTable[..]);
      ghost var p' := MoveAll(newTable);
      modificationCount := (modificationCount + 1) % W32;
      SetTable(newTable, p');
    }
    method SetTable(newTable: array<Slot<V>>, ghost p': Places)
      requires 7 <= loadFactor100 <= 75 && newTable.Length > 0
      modifies this`table, this`threshold, this`place
      ensures table == newTable && place == p'
      ensures threshold == ThresholdOf(table.Length) && threshold < table.Length
    {
      table, place := newTable, p';
      AdjustThreshold();
    }
    method AdjustThreshold()
      requires 7 <= loadFactor100 <= 75 && table.Length > 0
      modifies this`threshold
      ensures threshold == ThresholdOf(table.Length) && threshold < table.Length
    {
      var size := table.Length;
      threshold := size * loadFactor100 / 100;
      if threshold >= size { threshold := size - 1; }
    }

    // ---- putting ----

    // Without boxes PutImpl overwrites or reports a duplicate; with them it never finds the key, and puts it a second
    // time. A rehash counts as a modification of its own, also before a duplicate.
    method PutImpl(key: int32, value: V, overwrite: bool) returns (r: Answer<()>)
      requires Valid() && key != REMOVED_KEY
      requires key != NULL_KEY && inUse >= threshold ==> 2 * table.Length + 1 <= LARGEST_SAFE
      modifies this, table
      ensures table == old(table) || fresh(table)
      ensures table.Length == if key != NULL_KEY && old(inUse >= threshold) then PrimeFrom(2 * old(table.Length) + 1, 0)
                              else old(table.Length)
      ensures r == NullKeyError <==> key == NULL_KEY
      ensures r == DuplicateError <==> !boxed && !overwrite && key as int in old(Contents())
      ensures !(boxed && key as int in old(Contents()))
              ==> Valid() && Contents() == if r.Returned? then old(Contents())[key as int := value] else old(Contents())
      ensures boxed && key as int in old(Contents()) ==> Twice(table[..], key) && inUse == old(inUse) + 1
      ensures modificationCount == (old(modificationCount)
                + (if key != NULL_KEY && old(inUse >= threshold) then 1 else 0) + (if r.Returned? then 1 else 0)) % W32
    {
      hide PrimeFrom, TableOK, Entries, Twice, W32;
      CountTwice(modificationCount);
      if key == NULL_KEY {
        NoNull(table[..], place); SameKeys(table[..], place);
        return NullKeyError;
      }
      if inUse >= threshold {
        Rehash();
      }
      r := PutInto(key, value, overwrite);
    }
    // The loop of PutImpl: the slot of an equal key, or else the slot for a new one. Slots passed on the way get the
    // chain marker.
    method SeekSlot(key: int32) returns (same: int, freeIndx: int, ghost f: nat)
      requires Valid() && key != REMOVED_KEY && key != NULL_KEY
      modifies table
      ensures Valid() && Contents() == old(Contents())
      ensures if same >= 0 then !boxed && same < table.Length && table[same].key == key
              else Ended(table[..], place, key, freeIndx, f, !(boxed && key as int in place))
    {
      var size := table.Length;
      var h := key % 0x8000_0000;
      var spot := h;
      var step := (h / 32 + 1) % (size - 1) + 1;
      same, freeIndx, f := -1, -1, 0;
      ghost var unseen, t0 := !(boxed && key as int in place), table[..];
      InsertingStart(t0, place, key, unseen);
      SafeSize(size); SpotNext(h, size, 0);
      var i := 0;
      while i < size
        invariant 0 <= i <= size && Inserting(t0, table[..], place, key, i, freeIndx, f, unseen) && same == -1
        invariant spot == Spot(h, size, i)
      {
        SpotOK(h, size, i);
        var indx := spot % size;
        var entry := table[indx];
        ghost var t := table[..];
        ghost var free0, f0 := freeIndx, f;
        if freeIndx == -1 && entry.key == REMOVED_KEY && Chained(entry.hashMix) {
          freeIndx := indx;
          f := i;
        }
        if EndsChain(entry) {
          InsertingEnds(t0, t, place, key, i, free0, f0, unseen);
          if freeIndx == -1 {
            freeIndx := indx;
            f := i;
          }
          return;
        }
        if Low(entry.hashMix) == h && KeyEquals(key, entry.key) {
          return indx, freeIndx, f;
        }
        KeyPassed(t, place, key, indx, unseen);
        InsertingTurn(t0, t, place, key, i, free0, f0, unseen);
        if freeIndx == -1 {
          table[indx] := entry.(hashMix := Chain(entry.hashMix));
          assert table[..] == t[indx := t[indx].(hashMix := Chain(t[indx].hashMix))];
        }
        SpotNext(h, size, i);
        spot := (spot + step) % W32;
        i := i + 1;
      }
      InsertingEnds(t0, table[..], place, key, size, freeIndx, f, unseen);
    }
    lemma KeyPassed(t: seq<Slot<V>>, p: Places, key: int32, j: int, unseen: bool)
      requires TableOK(t, p) && 0 <= j < |t| && key != NULL_KEY && key != REMOVED_KEY
        && unseen == !(boxed && key as int in p)
      requires !(Low(t[j].hashMix) == Hash(key) && KeyEquals(key, t[j].key))
      ensures unseen ==> t[j].key != key
    {
      assert SlotOK(t, p, j);
    }
    // the rest of PutImpl, on a table that is large enough
    method PutInto(key: int32, value: V, overwrite: bool) returns (r: Answer<()>)
      requires Valid() && inUse + 1 < table.Length && key != REMOVED_KEY && key != NULL_KEY
      modifies this, table
      ensures table == old(table) && !r.NullKeyError?
      ensures r == DuplicateError <==> !boxed && !overwrite && key as int in old(Contents())
      ensures !(boxed && key as int in old(Contents()))
              ==> Valid() && Contents() == if r.Returned? then old(Contents())[key as int := value] else old(Contents())
      ensures boxed && key as int in old(Contents()) ==> Twice(table[..], key) && inUse == old(inUse) + 1
      ensures modificationCount == if r.Returned? then (old(modificationCount) + 1) % W32 else old(modificationCount)
    {
      ghost var f;
      var same, freeIndx;
      same, freeIndx, f := SeekSlot(key);
      if same >= 0 {
        FoundAt(table[..], place, key, same);
        if !overwrite { return DuplicateError; }
        SetValue(same, key, value);
      } else {
        PutAt(freeIndx, key, value, f);
      }
      r := Returned(());
    }
    method SetValue(i: int, ghost key: int32, value: V)
      requires Valid() && key as int in place && 0 <= i < table.Length
        && i == Probe(Hash(key), table.Length, place[key])
      modifies this`modificationCount, table
      ensures Valid() && Contents() == old(Contents())[key as int := value]
      ensures modificationCount == (old(modificationCount) + 1) % W32
    {
      ghost var t := table[..];
      OverwriteOK(t, place, key, value);
      table[i] := table[i].(value := value);
      assert table[..] == t[i := t[i].(value := value)];
      modificationCount := (modificationCount + 1) % W32;
    }
    method PutAt(freeIndx: int, key: int32, value: V, ghost f: nat)
      requires Valid() && inUse + 1 < table.Length && key != REMOVED_KEY && key != NULL_KEY
        && Ended(table[..], place, key, freeIndx, f, !(boxed && key as int in place))
      modifies this, table
      ensures table == old(table)
      ensures !(boxed && key as int in old(Contents()))
              ==> Valid() && Contents() == old(Contents())[key as int := value]
      ensures boxed && key as int in old(Contents()) ==> Twice(table[..], key) && inUse == old(inUse) + 1
      ensures modificationCount == (old(modificationCount) + 1) % W32
    {
      ghost var t, p := table[..], place;
      PutStored(t, p, key, value, freeIndx, f, !(boxed && key as int in p));
      table[freeIndx] := Slot(key, value, Or(table[freeIndx].hashMix, Hash(key)));
      assert table[..] == t[freeIndx := Slot(key, value, Or(t[freeIndx].hashMix, Hash(key)))];
      inUse := inUse + 1;
      modificationCount := (modificationCount + 1) % W32;
      if key as int !in p { place := place[key as int := f]; }
    }
  }
  lemma PutStored<V>(t: seq<Slot<V>>, p: Places, key: int32, v: V, j: int, f: nat, unseen: bool)
    requires Ended(t, p, key, j, f, unseen) && key != REMOVED_KEY && key != NULL_KEY
    ensures t[j].hashMix >= 0 && var t' := t[j := Slot(key, v, Or(t[j].hashMix, Hash(key)))];
      if key as int !in p then TableOK(t', p[key as int := f])
        && Entries(t', p[key as int := f]) == Entries(t, p)[key as int := v] && |p[key as int := f]| == |p| + 1
      else Twice(t', key)
  {
    hide Or, Hash, Entries, Twice;
    var h := Hash(key);
    assert SlotOK(t, p, j);
    OrHash(t[j].hashMix, h);
    if key as int !in p {
      InsertOK(t, p, key, v, f);
      PutOne(p, key, f);
    } else {
      PutTwice(t, p, key, j, Slot(key, v, t[j].hashMix + h));
    }
  }
  lemma PutTwice<V>(t: seq<Slot<V>>, p: Places, key: int32, j: int, s: Slot<V>)
    requires TableOK(t, p) && key as int in p && 0 <= j < |t| && !Live(t[j]) && s.key == key
    ensures Twice(t[j := s], key)
  {
    assert KeyOK(t, p, key);
    var i, t' := Probe(Hash(key), |t|, p[key]), t[j := s];
    assert t'[i].key == key && t'[j].key == key;
    if i < j { assert 0 <= i < j < |t'|; } else { assert 0 <= j < i < |t'|; }
  }
  lemma PutOne(p: Places, k: int, n: nat)
    requires k !in p
    ensures |p[k := n]| == |p| + 1
  {
    assert p[k := n].Keys == p.Keys + {k};
    assert |p[k := n].Keys| == |p[k := n]| && |p.Keys| == |p|;
  }
  lemma SafeSize(p: int)
    requires 0 <= p <= LARGEST_SAFE
    ensures p * (p - 1) <= 0x8000_0000
  {
    if p >= 1 { MulMono(p, p - 1, 31626); MulMono(31626, p, 31627); assert 31626 * p == p * 31626; }
  }
  lemma NoneOccupied<V>(t: seq<Slot<V>>)
    requires forall j :: 0 <= j < |t| ==> t[j].key == NULL_KEY
    ensures |Occupied(t)| == 0
  {
    assert Occupied(t) == {};
  }
  lemma MovedNext<V>(t: seq<Slot<V>>, p: Places, t': seq<Slot<V>>, p': Places, t'': seq<Slot<V>>, p'': Places, i: int)
    requires TableOK(t, p) && TableOK(t', p') && MovedTo(t, p, t', p', i) && 0 <= i < |t|
    requires if t[i].key == NULL_KEY then t'' == t' && p'' == p' else Placed(t', t'', p', p'', t[i])
    ensures TableOK(t'', p'') && MovedTo(t, p, t'', p'', i + 1)
  {
    if Live(t[i]) { MovedKey(t, p, t', p', t'', p'', i); } else { MovedSkip(t, p, t', t'', p', i); }
  }
  lemma NoNull<V>(t: seq<Slot<V>>, p: Places)
    requires TableOK(t, p)
    ensures NULL_KEY as int !in p
  {
    assert KeyOK(t, p, NULL_KEY);
  }
  lemma NoTombKey<V>(t: seq<Slot<V>>, p: Places)
    requires TableOK(t, p)
    ensures REMOVED_KEY as int !in p
  {
    assert KeyOK(t, p, REMOVED_KEY);
  }
  lemma SameKeys<V>(t: seq<Slot<V>>, p: Places)
    requires TableOK(t, p)
    ensures Entries(t, p).Keys == p.Keys
  {}
  lemma CountTwice(m: int)
    requires 0 <= m < W32
    ensures m % W32 == m && ((m + 1) % W32 + 1) % W32 == (m + 2) % W32 && (m + 1) % W32 < W32
  {}
  lemma SameCount<V>(t: seq<Slot<V>>, p: Places)
    requires TableOK(t, p)
    ensures |Entries(t, p)| == |p|
  {
    assert Entries(t, p).Keys == p.Keys;
    assert |Entries(t, p).Keys| == |Entries(t, p)| && |p.Keys| == |p|;
  }
  lemma DropAbsent<V>(m: map<int, V>, k: int)
    requires k !in m
    ensures m - {k} == m
  {}
  lemma DropOne(p: Places, k: int)
    requires k in p
    ensures |p - {k}| == |p| - 1
  {
    assert (p - {k}).Keys == p.Keys - {k};
    assert |(p - {k}).Keys| == |p - {k}| && |p.Keys| == |p|;
  }
  lemma FoundIn<V>(t: seq<Slot<V>>, p: Places, key: int32, i: int)
    requires TableOK(t, p) && key != NULL_KEY && i >= 0
      && i == if key as int in p then Probe(Hash(key), |t|, p[key]) else -1
    ensures key as int in p && i < |t|
  {}
  // Two assignments to one key: a table with boxed comparison keeps two entries, a table of references one.
  method AssignTwiceBoxed() returns (t: Inttable<int>)
    ensures t.boxed && t.inUse == 2 && Twice(t.table[..], 5) && !t.Valid()
  {
    hide TableOK, Entries, Threshold, PrimeFrom;
    t := AssignOnce(true);
    var r := t.PutImpl(5, 7, true);
    TwiceNotOK(t.table[..], t.place, 5);
  }
  method AssignTwice() returns (t: Inttable<int>)
    ensures !t.boxed && t.inUse == 1 && t.Valid() && t.Contents() == map[5 := 7]
  {
    hide TableOK, Entries, Threshold, PrimeFrom;
    t := AssignOnce(false);
    var r := t.PutImpl(5, 7, true);
    assert t.Contents() == map[5 := 7];
    OneEntry(t);
  }
  method AssignOnce(boxed: bool) returns (t: Inttable<int>)
    ensures fresh(t) && fresh(t.table) && t.Valid() && t.boxed == boxed && t.inUse == 1 && t.Contents() == map[5 := 6]
    ensures t.inUse >= t.threshold ==> 2 * t.table.Length + 1 <= LARGEST_SAFE
  {
    t := new Inttable(boxed, 0, 0, 100);
    var r := t.PutImpl(5, 6, true);
    assert t.Contents() == map[5 := 6];
    OneEntry(t);
    FewUsed(t.table.Length, t.loadFactor100);
  }
  lemma FewUsed(size: int, load: int)
    requires 0 < size && load >= 7
    ensures size * load / 100 <= 1 ==> 2 * size + 1 <= LARGEST_SAFE
  {
    if size >= 30 { assert size * load >= 30 * 7; }
  }
  lemma OneEntry(t: Inttable<int>)
    requires t.Valid() && t.Contents().Keys == {5}
    ensures t.inUse == 1
  {
    assert t.Contents().Keys == t.place.Keys;
    assert |t.place.Keys| == |t.place|;
  }
}
