/** Growth: `_resize` rehashes every occupied slot, in slot order, into an empty table
    of `_next_prime(tablesize * SCALEFACTOR)` slots, and `assoc_insert` resizes first
    whenever the table is LOADFACTOR full. The caller's `assoc**` handle swap becomes a
    function returning the new table. */
module Growth {
  import opened Primes
  import opened Keys
  import opened HashTable
  import opened Invariants

  /** The loop of `_resize` from old slot i on: each occupied slot is passed to `_hash_in`. */
  function Rehash<D>(t: Assoc<D>, prev: seq<Slot<D>>, i: nat): (r: Assoc<D>)
    requires Shaped(t) && KeysFit(t.keysize, prev) && i <= |prev|
    ensures Shaped(r) && r.keysize == t.keysize && r.tablesize == t.tablesize
    decreases |prev| - i
  {
    if i == |prev| then t
    else if prev[i].None? then Rehash(t, prev, i + 1)
    else Rehash(HashIn(t, prev[i].value.0, prev[i].value.1), prev, i + 1)
  }

  /** No pair before slot i has a key equal to the key in slot i. */
  lemma PrefixLacksKey<D>(keysize: nat, prev: seq<Slot<D>>, i: nat)
    requires KeysFit(keysize, prev) && DistinctKeys(keysize, prev)
    requires i < |prev| && prev[i].Some?
    ensures !HasKey(SlotEntries(prev[..i]), keysize, prev[i].value.0)
  {
    forall e | e in SlotEntries(prev[..i]) && FitsKeysize(keysize, e.0)
      ensures !SameKey(e.0, prev[i].value.0, keysize)
    {
      var i0 :| 0 <= i0 < i && prev[..i][i0].Some? && prev[..i][i0].value == e;
      assert prev[i0] == prev[..i][i0];
    }
  }

  /** One step of the resize loop: the pair in old slot i, whose key none of the pairs
      moved so far carries, lands in a table that still has a free slot. The table stays
      well-formed, and its pairs and count become those of old slots 0 .. i. */
  lemma RehashStep<D>(t: Assoc<D>, prev: seq<Slot<D>>, i: nat)
    requires WellFormed(t) && KeysFit(t.keysize, prev) && DistinctKeys(t.keysize, prev)
    requires i < |prev| && prev[i].Some?
    requires Entries(t) == SlotEntries(prev[..i]) && t.itemcount == Occupied(prev[..i])
    requires Occupied(prev) < t.tablesize
    ensures WellFormed(HashIn(t, prev[i].value.0, prev[i].value.1))
    ensures Entries(HashIn(t, prev[i].value.0, prev[i].value.1)) == SlotEntries(prev[..i + 1])
    ensures HashIn(t, prev[i].value.0, prev[i].value.1).itemcount == Occupied(prev[..i + 1])
  {
    var k, d := prev[i].value.0, prev[i].value.1;
    EntriesSnoc(prev, i);
    OccupiedSnoc(prev, i);
    OccupiedPrefix(prev, i + 1);
    VacancyExists(t.slots);
    var j :| 0 <= j < |t.slots| && t.slots[j].None?;
    FindReachesVacancy(t.keysize, t.slots, k, j);
    PrefixLacksKey(t.keysize, prev, i);
    LookupMatchesEntries(t, k, d);
    HashInKeepsWellFormed(t, k, d);
  }

  /** Rehashing pairs with distinct keys into a well-formed table with room for all of
      them places every one: the result holds exactly the old pairs and counts them. */
  lemma {:induction false} RehashMoves<D>(t: Assoc<D>, prev: seq<Slot<D>>, i: nat)
    requires WellFormed(t) && KeysFit(t.keysize, prev) && DistinctKeys(t.keysize, prev)
    requires i <= |prev|
    requires Entries(t) == SlotEntries(prev[..i]) && t.itemcount == Occupied(prev[..i])
    requires Occupied(prev) < t.tablesize
    ensures WellFormed(Rehash(t, prev, i))
    ensures Entries(Rehash(t, prev, i)) == SlotEntries(prev)
    ensures Rehash(t, prev, i).itemcount == Occupied(prev)
    decreases |prev| - i
  {
    if i == |prev| {
      assert prev[..i] == prev;
    } else if prev[i].Some? {
      RehashStep(t, prev, i);
      var moved := HashIn(t, prev[i].value.0, prev[i].value.1);
      assert Rehash(t, prev, i) == Rehash(moved, prev, i + 1);
      RehashMoves(moved, prev, i + 1);
    } else {
      EntriesSnoc(prev, i);
      OccupiedSnoc(prev, i);
      assert Rehash(t, prev, i) == Rehash(t, prev, i + 1);
      RehashMoves(t, prev, i + 1);
    }
  }

  /** `_resize`: a table of `_next_prime(SCALEFACTOR * tablesize)` slots, prime and at
      least twice as large, with the same keysize, count and pairs. */
  function Resize<D>(t: Assoc<D>): (r: Assoc<D>)
    requires WellFormed(t)
    ensures WellFormed(r)
    ensures r.keysize == t.keysize && r.itemcount == t.itemcount
    ensures Entries(r) == Entries(t)
    ensures r.tablesize == NextPrime(SCALE_FACTOR * t.tablesize)
    ensures r.tablesize >= SCALE_FACTOR * t.tablesize && IsPrime(r.tablesize)
  {
    var size := NextPrime(SCALE_FACTOR * t.tablesize);
    var empty := NewTable<D>(t.keysize, size);
    PlacedKeysDistinct(t.keysize, t.slots);
    assert t.slots[..0] == [];
    assert t.slots[..|t.slots|] == t.slots;
    RehashMoves(empty, t.slots, 0);
    Rehash(empty, t.slots, 0)
  }

  /** A resize of a table at its load limit leaves it below the new limit: the size at
      least doubles while the count stays. */
  lemma ResizeMakesRoom<D>(t: Assoc<D>)
    requires Valid(t)
    ensures Resize(t).itemcount < LoadLimit(Resize(t).tablesize)
  {
    var r := Resize(t);
    assert 4 * t.itemcount <= 3 * t.tablesize;
    assert r.tablesize >= 2 * t.tablesize;
    assert 4 * LoadLimit(r.tablesize) + 4 > 3 * r.tablesize;
  }

  /** With the table below its load limit, `_hash_in` always finds a place to stop: a new
      key is stored and counted, an equal key leaves the table as it was. */
  lemma PlaceBelowLimit<D>(g: Assoc<D>, k: Key, d: D)
    requires WellFormed(g) && FitsKeysize(g.keysize, k) && g.itemcount < LoadLimit(g.tablesize)
    ensures Valid(HashIn(g, k, d))
    ensures HasKey(Entries(g), g.keysize, k) ==> HashIn(g, k, d) == g
    ensures !HasKey(Entries(g), g.keysize, k) ==>
              Entries(HashIn(g, k, d)) == Entries(g) + {(k, d)} &&
              HashIn(g, k, d).itemcount == g.itemcount + 1
  {
    VacancyExists(g.slots);
    var j :| 0 <= j < |g.slots| && g.slots[j].None?;
    FindReachesVacancy(g.keysize, g.slots, k, j);
    HashInKeepsWellFormed(g, k, d);
    LookupMatchesEntries(g, k, d);
  }

  /** `assoc_insert(a, key, data)`: resize first exactly when `itemcount` has reached
      floor(tablesize * LOADFACTOR), then `_hash_in`. The table stays valid, so it is
      never more than LOADFACTOR full; a new key is added with its data, and a key
      already present keeps its first data and the count. */
  function Insert<D>(t: Assoc<D>, k: Key, d: D): (r: Assoc<D>)
    requires Valid(t) && FitsKeysize(t.keysize, k)
    ensures Valid(r) && r.keysize == t.keysize
    ensures r.itemcount <= LoadLimit(r.tablesize)
    ensures r.tablesize ==
              if t.itemcount >= LoadLimit(t.tablesize) then NextPrime(SCALE_FACTOR * t.tablesize)
              else t.tablesize
    ensures HasKey(Entries(t), t.keysize, k) ==>
              Entries(r) == Entries(t) && r.itemcount == t.itemcount
    ensures !HasKey(Entries(t), t.keysize, k) ==>
              Entries(r) == Entries(t) + {(k, d)} && r.itemcount == t.itemcount + 1
  {
    var grown := if t.itemcount >= LoadLimit(t.tablesize) then Resize(t) else t;
    assert grown.itemcount < LoadLimit(grown.tablesize) by {
      if t.itemcount >= LoadLimit(t.tablesize) {
        ResizeMakesRoom(t);
      }
    }
    PlaceBelowLimit(grown, k, d);
    HashIn(grown, k, d)
  }
}
