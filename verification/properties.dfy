/** What a caller of the public operations (`assoc_init`, `assoc_insert`,
    `assoc_lookup`, `assoc_count`) can rely on. */
module Properties {
  import opened Primes
  import opened Keys
  import opened HashTable
  import opened Invariants
  import opened Growth

  /** INITSIZE is prime, so the probing argument holds from creation on. */
  lemma InitSizeIsPrime()
    ensures IsPrime(INIT_SIZE)
  {
    assert PrimeTest(INIT_SIZE);
  }

  /** A fresh table finds nothing: the walk stops at its first, empty, slot. */
  lemma InitLookupEmpty<D>(keysize: nat, k: Key)
    requires FitsKeysize(keysize, k)
    ensures Lookup(Init<D>(keysize), k) == None
    ensures Count(Init<D>(keysize)) == 0
  {
    var t := Init<D>(keysize);
    assert FirstStop(keysize, t.slots, k, 0);
  }

  /** Looking up a key that was not present returns the data just inserted. */
  lemma LookupAfterInsert<D>(t: Assoc<D>, k: Key, d: D)
    requires Valid(t) && FitsKeysize(t.keysize, k)
    requires Lookup(t, k).None?
    ensures Lookup(Insert(t, k, d), k) == Some(d)
    ensures Count(Insert(t, k, d)) == Count(t) + 1
  {
    var r := Insert(t, k, d);
    LookupMatchesEntries(t, k, d);
    SameKeyIsEquivalence(t.keysize, k, k, k);
    assert (k, d) in Entries(r);
    LookupMatchesEntries(r, k, d);
  }

  /** Inserting a key that is already present changes nothing a caller sees: lookup still
      returns the first data and the count stays. */
  lemma DuplicateInsertKeepsFirst<D>(t: Assoc<D>, k: Key, d1: D, d2: D)
    requires Valid(t) && FitsKeysize(t.keysize, k)
    requires Lookup(t, k) == Some(d1)
    ensures Lookup(Insert(t, k, d2), k) == Some(d1)
    ensures Count(Insert(t, k, d2)) == Count(t)
  {
    var r := Insert(t, k, d2);
    LookupMatchesEntries(t, k, d1);
    LookupMatchesEntries(r, k, d1);
  }

  /** Inserting k leaves the lookup of every key not equal to k as it was. */
  lemma InsertLeavesOtherKeys<D>(t: Assoc<D>, k: Key, d: D, k2: Key)
    requires Valid(t) && FitsKeysize(t.keysize, k) && FitsKeysize(t.keysize, k2)
    requires !SameKey(k, k2, t.keysize)
    ensures Lookup(Insert(t, k, d), k2) == Lookup(t, k2)
  {
    var r := Insert(t, k, d);
    match Lookup(t, k2)
    case Some(x) =>
      LookupMatchesEntries(t, k2, x);
      LookupMatchesEntries(r, k2, x);
    case None =>
      LookupMatchesEntries(t, k2, d);
      LookupMatchesEntries(r, k2, d);
  }

  /** `assoc_count` rises by one exactly when the key was not yet present. */
  lemma CountAfterInsert<D>(t: Assoc<D>, k: Key, d: D)
    requires Valid(t) && FitsKeysize(t.keysize, k)
    ensures Count(Insert(t, k, d)) == Count(t) + (if Lookup(t, k).None? then 1 else 0)
  {
    LookupMatchesEntries(t, k, d);
  }

  /** Resizing changes no lookup. */
  lemma ResizeKeepsLookups<D>(t: Assoc<D>, k: Key)
    requires WellFormed(t) && FitsKeysize(t.keysize, k)
    ensures Lookup(Resize(t), k) == Lookup(t, k)
  {
    var r := Resize(t);
    match Lookup(t, k)
    case Some(x) =>
      LookupMatchesEntries(t, k, x);
      LookupMatchesEntries(r, k, x);
    case None =>
      match Lookup(r, k)
      case Some(y) =>
        LookupMatchesEntries(r, k, y);
        LookupMatchesEntries(t, k, y);
      case None =>
  }

  // ---------------------------------------------------------------------------
  // A caller's sequence of inserts
  // ---------------------------------------------------------------------------

  ghost predicate AllFit(keysize: nat, keys: seq<Key>)
  {
    forall i :: 0 <= i < |keys| ==> FitsKeysize(keysize, keys[i])
  }

  /** No two of the keys are equal under the table's rule. */
  ghost predicate PairwiseDistinct(keysize: nat, keys: seq<Key>)
    requires AllFit(keysize, keys)
  {
    forall i, j :: 0 <= i < j < |keys| ==> !SameKey(keys[i], keys[j], keysize)
  }

  ghost function Pairs<D>(keys: seq<Key>, data: seq<D>): set<(Key, D)>
    requires |keys| == |data|
  {
    set i | 0 <= i < |keys| :: (keys[i], data[i])
  }

  /** `assoc_insert` called with keys[0], data[0], then keys[1], data[1], and so on. */
  function InsertAll<D>(t: Assoc<D>, keys: seq<Key>, data: seq<D>): (r: Assoc<D>)
    requires Valid(t) && |keys| == |data| && AllFit(t.keysize, keys)
    ensures Valid(r) && r.keysize == t.keysize
    decreases |keys|
  {
    if |keys| == 0 then t
    else
      var n := |keys| - 1;
      Insert(InsertAll(t, keys[..n], data[..n]), keys[n], data[n])
  }

  lemma PairsSnoc<D>(keys: seq<Key>, data: seq<D>)
    requires |keys| == |data| > 0
    ensures var n := |keys| - 1;
            Pairs(keys, data) == Pairs(keys[..n], data[..n]) + {(keys[n], data[n])}
  {
    var n := |keys| - 1;
    forall i | 0 <= i < n
      ensures (keys[..n][i], data[..n][i]) == (keys[i], data[i])
    {
    }
  }

  /** A key distinct from every key before it and absent from t is absent after they
      have been inserted. */
  lemma StillAbsent<D>(t: Assoc<D>, mid: Assoc<D>, front: seq<Key>, frontData: seq<D>, k: Key)
    requires |front| == |frontData| && t.keysize == mid.keysize && FitsKeysize(t.keysize, k)
    requires AllFit(t.keysize, front)
    requires Entries(mid) == Entries(t) + Pairs(front, frontData)
    requires !HasKey(Entries(t), t.keysize, k)
    requires forall i :: 0 <= i < |front| ==> !SameKey(front[i], k, t.keysize)
    ensures !HasKey(Entries(mid), t.keysize, k)
  {
    forall e | e in Entries(mid) && FitsKeysize(t.keysize, e.0)
      ensures !SameKey(e.0, k, t.keysize)
    {
      if e !in Entries(t) {
        var i :| 0 <= i < |front| && e == (front[i], frontData[i]);
      }
    }
  }

  /** The keys before the last one meet the same conditions, and none equals the last. */
  lemma FrontKeys<D>(t: Assoc<D>, keys: seq<Key>)
    requires |keys| > 0 && AllFit(t.keysize, keys) && PairwiseDistinct(t.keysize, keys)
    requires forall i :: 0 <= i < |keys| ==> !HasKey(Entries(t), t.keysize, keys[i])
    ensures var front := keys[..|keys| - 1];
            && AllFit(t.keysize, front)
            && PairwiseDistinct(t.keysize, front)
            && (forall i :: 0 <= i < |front| ==> !HasKey(Entries(t), t.keysize, front[i]))
            && (forall i :: 0 <= i < |front| ==> !SameKey(front[i], keys[|keys| - 1], t.keysize))
  {
    var n := |keys| - 1;
    var front := keys[..n];
    forall i | 0 <= i < n
      ensures !SameKey(front[i], keys[n], t.keysize)
    {
      assert front[i] == keys[i];
    }
  }

  /** Inserting distinct new keys one after another stores every pair and counts them
      all. */
  lemma {:induction false} InsertAllDistinct<D>(t: Assoc<D>, keys: seq<Key>, data: seq<D>)
    requires Valid(t) && |keys| == |data| && AllFit(t.keysize, keys)
    requires PairwiseDistinct(t.keysize, keys)
    requires forall i :: 0 <= i < |keys| ==> !HasKey(Entries(t), t.keysize, keys[i])
    ensures Entries(InsertAll(t, keys, data)) == Entries(t) + Pairs(keys, data)
    ensures InsertAll(t, keys, data).itemcount == t.itemcount + |keys|
    decreases |keys|
  {
    if |keys| > 0 {
      var n := |keys| - 1;
      var front, frontData := keys[..n], data[..n];
      FrontKeys(t, keys);
      InsertAllDistinct(t, front, frontData);
      var mid := InsertAll(t, front, frontData);
      StillAbsent(t, mid, front, frontData, keys[n]);
      PairsSnoc(keys, data);
      assert InsertAll(t, keys, data) == Insert(mid, keys[n], data[n]);
    }
  }

  /** If inserting distinct new keys never brings the count to the load limit before an
      insert, the table keeps its size. */
  lemma {:induction false} InsertAllKeepsSize<D>(t: Assoc<D>, keys: seq<Key>, data: seq<D>)
    requires Valid(t) && |keys| == |data| && AllFit(t.keysize, keys)
    requires PairwiseDistinct(t.keysize, keys)
    requires forall i :: 0 <= i < |keys| ==> !HasKey(Entries(t), t.keysize, keys[i])
    requires t.itemcount + |keys| <= LoadLimit(t.tablesize)
    ensures InsertAll(t, keys, data).tablesize == t.tablesize
    decreases |keys|
  {
    if |keys| > 0 {
      var n := |keys| - 1;
      var front, frontData := keys[..n], data[..n];
      FrontKeys(t, keys);
      InsertAllKeepsSize(t, front, frontData);
      InsertAllDistinct(t, front, frontData);
      var mid := InsertAll(t, front, frontData);
      assert mid.tablesize == t.tablesize && mid.itemcount < LoadLimit(mid.tablesize);
      assert InsertAll(t, keys, data) == Insert(mid, keys[n], data[n]);
    }
  }

  /** `_next_prime(34)` is 37. */
  lemma NextPrimeOf34()
    ensures NextPrime(34) == 37
  {
    assert !PrimeTest(34) && !PrimeTest(35) && !PrimeTest(36) && PrimeTest(37);
  }

  /** Twelve distinct keys fill a fresh table to its load limit of 12 without growing it;
      the thirteenth insert grows it to 37 slots, and all thirteen keys are found with
      their data. */
  lemma ThirteenthInsertGrows<D>(keysize: nat, keys: seq<Key>, data: seq<D>)
    requires |keys| == 13 && |data| == 13
    requires AllFit(keysize, keys) && PairwiseDistinct(keysize, keys)
    ensures var t := InsertAll(Init<D>(keysize), keys, data);
            && t.tablesize == 37
            && Count(t) == 13
            && forall i :: 0 <= i < 13 ==> Lookup(t, keys[i]) == Some(data[i])
  {
    var t0 := Init<D>(keysize);
    var front, frontData := keys[..12], data[..12];
    assert AllFit(keysize, front) && PairwiseDistinct(keysize, front);
    InsertAllDistinct(t0, front, frontData);
    InsertAllKeepsSize(t0, front, frontData);
    InsertAllDistinct(t0, keys, data);
    var t12 := InsertAll(t0, front, frontData);
    assert t12.tablesize == 17 && t12.itemcount == 12;
    NextPrimeOf34();
    var t := InsertAll(t0, keys, data);
    forall i | 0 <= i < 13
      ensures Lookup(t, keys[i]) == Some(data[i])
    {
      assert (keys[i], data[i]) in Entries(t);
      SameKeyIsEquivalence(keysize, keys[i], keys[i], keys[i]);
      LookupMatchesEntries(t, keys[i], data[i]);
    }
  }
}
