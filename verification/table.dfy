/** The associative array itself: the `assoc` record, its slots, and the operations
    that walk a key's probe path (`assoc_lookup`, `_hash_in`), plus creation
    (`_new_assoc`, `assoc_init`) and `assoc_count`. */
module HashTable {
  import opened Primes
  import opened Keys
  import opened Hashing
  import opened Probing

  /** INITSIZE: the slot count of a fresh table. */
  const INIT_SIZE: nat := 17

  /** SCALEFACTOR: a resize at least multiplies the slot count by this. */
  const SCALE_FACTOR: nat := 2

  /** LOADFACTOR 0.75 as the integer the source's cast yields: floor(tablesize * 0.75). */
  function LoadLimit(tablesize: nat): (r: nat)
    ensures 4 * r <= 3 * tablesize < 4 * r + 4
  {
    (3 * tablesize) / 4
  }

  datatype Option<T> = None | Some(value: T)

  /** A slot holds a key/data pair; None plays the NULL key that marks it empty. */
  type Slot<D> = Option<(Key, D)>

  /** `_new_item`: the pair stored in a slot. As a slot of its own it counts as one occupied
      slot and contributes exactly the pair (k, d) to the stored pairs. */
  function NewItem<D>(k: Key, d: D): (r: Slot<D>)
    ensures Occupied([r]) == 1
    ensures SlotEntries([r]) == {(k, d)}
  {
    Some((k, d))
  }

  /** The `assoc` record: `slots` is the array `table`, `tablesize` its length and
      `itemcount` the number of occupied slots. */
  datatype Assoc<D> = Assoc(keysize: nat, tablesize: nat, itemcount: nat, slots: seq<Slot<D>>)

  // ---------------------------------------------------------------------------
  // Shape and probe path
  // ---------------------------------------------------------------------------

  /** Every stored key has the width the table's keysize asks for. */
  ghost predicate KeysFit<D>(keysize: nat, slots: seq<Slot<D>>)
  {
    forall j :: 0 <= j < |slots| && slots[j].Some? ==> FitsKeysize(keysize, slots[j].value.0)
  }

  /** What the operations need to be defined: a non-empty slot array of length
      `tablesize` whose keys fit the keysize. */
  ghost predicate Shaped<D>(t: Assoc<D>)
  {
    |t.slots| == t.tablesize >= 1 && KeysFit(t.keysize, t.slots)
  }

  /** The slot visited by probe n of key k. */
  function PathSlot<D>(slots: seq<Slot<D>>, k: Key, n: nat): (j: nat)
    requires |slots| >= 1
    ensures j < |slots|
  {
    ProbeSlot(|slots|, HashIndex(k, |slots|), HashProbe(k, |slots|), n)
  }

  /** Probe n of k meets an occupied slot holding a different key, so probing goes on. */
  ghost predicate Passes<D>(keysize: nat, slots: seq<Slot<D>>, k: Key, n: nat)
    requires |slots| >= 1 && KeysFit(keysize, slots) && FitsKeysize(keysize, k)
  {
    var s := slots[PathSlot(slots, k, n)];
    s.Some? && !SameKey(s.value.0, k, keysize)
  }

  /** Probe n is the first one that does not pass: an empty slot or an equal key. */
  ghost predicate FirstStop<D>(keysize: nat, slots: seq<Slot<D>>, k: Key, n: nat)
    requires |slots| >= 1 && KeysFit(keysize, slots) && FitsKeysize(keysize, k)
  {
    && n < |slots|
    && !Passes(keysize, slots, k, n)
    && forall m :: 0 <= m < n ==> Passes(keysize, slots, k, m)
  }

  /** All `tablesize` probes pass: the loop runs out without stopping. */
  ghost predicate Exhausts<D>(keysize: nat, slots: seq<Slot<D>>, k: Key)
    requires |slots| >= 1 && KeysFit(keysize, slots) && FitsKeysize(keysize, k)
  {
    forall m :: 0 <= m < |slots| ==> Passes(keysize, slots, k, m)
  }

  /** How a walk along the probe path ends: at an empty slot, at an equal key, or
      after `tablesize` probes. */
  datatype Probe = Vacant(n: nat) | Found(n: nat) | Exhausted

  /** The probe loop shared by `assoc_lookup` and `_hash_in`, from probe i, whose slot
      is h, onwards. */
  function Scan<D>(keysize: nat, slots: seq<Slot<D>>, k: Key, i: nat, h: nat): (r: Probe)
    requires |slots| >= 1 && KeysFit(keysize, slots) && FitsKeysize(keysize, k)
    requires i <= |slots| && h == PathSlot(slots, k, i)
    ensures r.Vacant? ==> i <= r.n < |slots| && slots[PathSlot(slots, k, r.n)].None?
    ensures r.Found? ==>
              && i <= r.n < |slots|
              && slots[PathSlot(slots, k, r.n)].Some?
              && SameKey(slots[PathSlot(slots, k, r.n)].value.0, k, keysize)
    ensures !r.Exhausted? ==> forall m :: i <= m < r.n ==> Passes(keysize, slots, k, m)
    ensures r.Exhausted? ==> forall m :: i <= m < |slots| ==> Passes(keysize, slots, k, m)
    decreases |slots| - i
  {
    if i == |slots| then Exhausted
    else if slots[h].None? then Vacant(i)
    else if SameKey(slots[h].value.0, k, keysize) then Found(i)
    else
      ProbeAdvance(|slots|, HashIndex(k, |slots|), HashProbe(k, |slots|), i);
      Scan(keysize, slots, k, i + 1, (h + HashProbe(k, |slots|)) % |slots|)
  }

  /** The whole probe loop, from the slot `_hash_index` picks. Its result is the first
      stop on the path, or Exhausted when there is none. */
  function Find<D>(keysize: nat, slots: seq<Slot<D>>, k: Key): (r: Probe)
    requires |slots| >= 1 && KeysFit(keysize, slots) && FitsKeysize(keysize, k)
    ensures !r.Exhausted? ==> FirstStop(keysize, slots, k, r.n)
    ensures !r.Exhausted? ==> (r.Vacant? <==> slots[PathSlot(slots, k, r.n)].None?)
    ensures r.Exhausted? <==> Exhausts(keysize, slots, k)
  {
    ProbeStart(|slots|, HashIndex(k, |slots|), HashProbe(k, |slots|));
    Scan(keysize, slots, k, 0, HashIndex(k, |slots|))
  }

  // ---------------------------------------------------------------------------
  // Contents and the table invariant
  // ---------------------------------------------------------------------------

  /** The number of occupied slots. */
  ghost function Occupied<D>(slots: seq<Slot<D>>): (c: nat)
    ensures c <= |slots|
  {
    if |slots| == 0 then 0
    else Occupied(slots[..|slots| - 1]) + (if slots[|slots| - 1].Some? then 1 else 0)
  }

  /** The key/data pairs held in the slots. */
  ghost function SlotEntries<D>(slots: seq<Slot<D>>): set<(Key, D)>
  {
    set j | 0 <= j < |slots| && slots[j].Some? :: slots[j].value
  }

  ghost function Entries<D>(t: Assoc<D>): set<(Key, D)>
  {
    SlotEntries(t.slots)
  }

  /** Key k is found by its own probe walk, at slot j. */
  ghost predicate LocatedAt<D>(keysize: nat, slots: seq<Slot<D>>, k: Key, j: nat)
    requires |slots| >= 1 && KeysFit(keysize, slots) && FitsKeysize(keysize, k)
  {
    var r := Find(keysize, slots, k);
    r.Found? && PathSlot(slots, k, r.n) == j
  }

  /** Every stored key sits where a lookup of it stops. */
  ghost predicate Placed<D>(keysize: nat, slots: seq<Slot<D>>)
    requires |slots| >= 1 && KeysFit(keysize, slots)
  {
    forall j :: 0 <= j < |slots| && slots[j].Some? ==> LocatedAt(keysize, slots, slots[j].value.0, j)
  }

  /** No two occupied slots hold keys the table calls equal. */
  ghost predicate DistinctKeys<D>(keysize: nat, slots: seq<Slot<D>>)
    requires KeysFit(keysize, slots)
  {
    forall i, j :: 0 <= i < j < |slots| && slots[i].Some? && slots[j].Some? ==>
      !SameKey(slots[i].value.0, slots[j].value.0, keysize)
  }

  /** The invariant every table keeps, inside a resize as well: prime size, keys of the
      right width, `itemcount` equal to the occupied slots, every key reachable. */
  ghost predicate WellFormed<D>(t: Assoc<D>)
  {
    && Shaped(t)
    && IsPrime(t.tablesize)
    && t.itemcount == Occupied(t.slots)
    && Placed(t.keysize, t.slots)
  }

  /** The invariant between public operations: also at most LOADFACTOR full. */
  ghost predicate Valid<D>(t: Assoc<D>)
  {
    WellFormed(t) && t.itemcount <= LoadLimit(t.tablesize)
  }

  /** Some stored key equals k. */
  ghost predicate HasKey<D>(entries: set<(Key, D)>, keysize: nat, k: Key)
    requires FitsKeysize(keysize, k)
  {
    exists e :: e in entries && FitsKeysize(keysize, e.0) && SameKey(e.0, k, keysize)
  }

  /** Some stored key equals k and carries data d. */
  ghost predicate MapsTo<D>(entries: set<(Key, D)>, keysize: nat, k: Key, d: D)
    requires FitsKeysize(keysize, k)
  {
    exists e :: e in entries && FitsKeysize(keysize, e.0) && SameKey(e.0, k, keysize) && e.1 == d
  }

  // ---------------------------------------------------------------------------
  // Operations
  // ---------------------------------------------------------------------------

  lemma {:induction false} OccupiedNone<D>(slots: seq<Slot<D>>)
    requires forall j :: 0 <= j < |slots| ==> slots[j].None?
    ensures Occupied(slots) == 0
  {
    if |slots| > 0 {
      OccupiedNone(slots[..|slots| - 1]);
    }
  }

  /** `_new_assoc(keysize, tablesize)`: every slot empty, no items. A prime size makes it a
      well-formed table with no entries. */
  function NewTable<D>(keysize: nat, tablesize: nat): (r: Assoc<D>)
    ensures r.keysize == keysize && r.tablesize == tablesize && r.itemcount == 0
    ensures |r.slots| == tablesize && forall j :: 0 <= j < |r.slots| ==> r.slots[j].None?
    ensures Entries(r) == {}
    ensures IsPrime(tablesize) ==> WellFormed(r)
  {
    var slots := seq(tablesize, _ => None);
    OccupiedNone(slots);
    Assoc(keysize, tablesize, 0, slots)
  }

  /** `assoc_init(keysize)`: an empty table of INITSIZE slots. */
  function Init<D>(keysize: nat): (r: Assoc<D>)
    ensures Valid(r) && Entries(r) == {}
    ensures r.keysize == keysize && r.tablesize == INIT_SIZE && r.itemcount == 0
    ensures forall j :: 0 <= j < |r.slots| ==> r.slots[j].None?
  {
    assert PrimeTest(17);
    NewTable(keysize, INIT_SIZE)
  }

  /** `assoc_count`: the stored item count, which in a well-formed table is the number of
      occupied slots. */
  function Count<D>(t: Assoc<D>): (r: nat)
    ensures WellFormed(t) ==> r == Occupied(t.slots)
  {
    t.itemcount
  }

  /** `assoc_lookup(a, key)`: the data in the first slot of the probe path holding an
      equal key; None if an empty slot comes first or every probe passes. */
  function Lookup<D>(t: Assoc<D>, k: Key): (r: Option<D>)
    requires Shaped(t) && FitsKeysize(t.keysize, k)
    ensures forall n | FirstStop(t.keysize, t.slots, k, n) ::
              r == (var s := t.slots[PathSlot(t.slots, k, n)];
                    if s.Some? then Some(s.value.1) else None)
    ensures Exhausts(t.keysize, t.slots, k) ==> r == None
  {
    match Find(t.keysize, t.slots, k)
    case Found(n) => Some(t.slots[PathSlot(t.slots, k, n)].value.1)
    case _ => None
  }

  /** `_hash_in(a, key, data)`: at the first stop of the probe path, an empty slot
      receives (key, data) and the count rises by one; an equal key there is left as it
      is (no overwrite); if every probe passes, nothing changes. */
  function HashIn<D>(t: Assoc<D>, k: Key, d: D): (r: Assoc<D>)
    requires Shaped(t) && FitsKeysize(t.keysize, k)
    ensures Shaped(r) && r.keysize == t.keysize && r.tablesize == t.tablesize
    ensures forall n | FirstStop(t.keysize, t.slots, k, n) && t.slots[PathSlot(t.slots, k, n)].None? ::
              r == t.(slots := t.slots[PathSlot(t.slots, k, n) := Some((k, d))],
                      itemcount := t.itemcount + 1)
    ensures forall n | FirstStop(t.keysize, t.slots, k, n) && t.slots[PathSlot(t.slots, k, n)].Some? ::
              r == t
    ensures Exhausts(t.keysize, t.slots, k) ==> r == t
  {
    match Find(t.keysize, t.slots, k)
    case Vacant(n) =>
      t.(slots := t.slots[PathSlot(t.slots, k, n) := NewItem(k, d)], itemcount := t.itemcount + 1)
    case _ => t
  }
}
