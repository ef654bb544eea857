/** Why the table works: filling an empty slot leaves every other key's walk alone,
    equal keys walk the same path, a prime-sized table with a free slot always gives
    a probe walk a place to stop, `_hash_in` keeps the table invariant, and lookup
    answers exactly from the stored pairs. */
module Invariants {
  import opened Primes
  import opened Keys
  import opened Hashing
  import opened Probing
  import opened HashTable

  // ---------------------------------------------------------------------------
  // Probe walks after one empty slot is filled
  // ---------------------------------------------------------------------------

  /** A walk that ended at an equal key never touched an empty slot, so filling one
      changes nothing for it. */
  lemma {:induction false} ScanFillFound<D>(keysize: nat, slots: seq<Slot<D>>, j0: nat, e: (Key, D),
                                            k: Key, i: nat, h: nat)
    requires |slots| >= 1 && KeysFit(keysize, slots) && FitsKeysize(keysize, k)
    requires FitsKeysize(keysize, e.0) && j0 < |slots| && slots[j0].None?
    requires i <= |slots| && h == PathSlot(slots, k, i)
    ensures KeysFit(keysize, slots[j0 := Some(e)])
    ensures Scan(keysize, slots, k, i, h).Found? ==>
              Scan(keysize, slots[j0 := Some(e)], k, i, h) == Scan(keysize, slots, k, i, h)
    decreases |slots| - i
  {
    var slots' := slots[j0 := Some(e)];
    if i < |slots| && slots[h].Some? && !SameKey(slots[h].value.0, k, keysize) {
      var step := HashProbe(k, |slots|);
      ProbeAdvance(|slots|, HashIndex(k, |slots|), step, i);
      assert slots'[h] == slots[h];
      ScanFillFound(keysize, slots, j0, e, k, i + 1, (h + step) % |slots|);
    }
  }

  /** A walk that ended at an empty slot ends at the same probe with Found once that slot
      holds an equal key. */
  lemma {:induction false} ScanFillVacant<D>(keysize: nat, slots: seq<Slot<D>>, e: (Key, D),
                                             k: Key, i: nat, h: nat)
    requires |slots| >= 1 && KeysFit(keysize, slots) && FitsKeysize(keysize, k)
    requires FitsKeysize(keysize, e.0) && SameKey(e.0, k, keysize)
    requires i <= |slots| && h == PathSlot(slots, k, i)
    requires Scan(keysize, slots, k, i, h).Vacant?
    ensures var n := Scan(keysize, slots, k, i, h).n;
            var slots' := slots[PathSlot(slots, k, n) := Some(e)];
            KeysFit(keysize, slots') && Scan(keysize, slots', k, i, h) == Found(n)
    decreases |slots| - i
  {
    var n := Scan(keysize, slots, k, i, h).n;
    var slots' := slots[PathSlot(slots, k, n) := Some(e)];
    assert KeysFit(keysize, slots');
    if slots[h].Some? {
      var step := HashProbe(k, |slots|);
      ProbeAdvance(|slots|, HashIndex(k, |slots|), step, i);
      assert slots'[h] == slots[h];
      ScanFillVacant(keysize, slots, e, k, i + 1, (h + step) % |slots|);
    }
  }

  // ---------------------------------------------------------------------------
  // Equal keys walk alike
  // ---------------------------------------------------------------------------

  lemma {:induction false} ScanSameKey<D>(keysize: nat, slots: seq<Slot<D>>, k1: Key, k2: Key,
                                          i: nat, h: nat)
    requires |slots| >= 1 && KeysFit(keysize, slots)
    requires FitsKeysize(keysize, k1) && FitsKeysize(keysize, k2) && SameKey(k1, k2, keysize)
    requires i <= |slots| && h == PathSlot(slots, k1, i)
    ensures h == PathSlot(slots, k2, i)
    ensures Scan(keysize, slots, k1, i, h) == Scan(keysize, slots, k2, i, h)
    decreases |slots| - i
  {
    SameKeySameHashes(keysize, k1, k2, |slots|);
    if i < |slots| && slots[h].Some? {
      var x := slots[h].value.0;
      SameKeyIsEquivalence(keysize, x, k1, k2);
      SameKeyIsEquivalence(keysize, x, k2, k1);
      if !SameKey(x, k1, keysize) {
        var step := HashProbe(k1, |slots|);
        ProbeAdvance(|slots|, HashIndex(k1, |slots|), step, i);
        ScanSameKey(keysize, slots, k1, k2, i + 1, (h + step) % |slots|);
      }
    }
  }

  /** Keys the table calls equal have the same probe path and the same walk outcome. */
  lemma FindSameKey<D>(keysize: nat, slots: seq<Slot<D>>, k1: Key, k2: Key)
    requires |slots| >= 1 && KeysFit(keysize, slots)
    requires FitsKeysize(keysize, k1) && FitsKeysize(keysize, k2)
    ensures SameKey(k1, k2, keysize) ==>
              && Find(keysize, slots, k1) == Find(keysize, slots, k2)
              && forall n :: PathSlot(slots, k1, n) == PathSlot(slots, k2, n)
  {
    if SameKey(k1, k2, keysize) {
      SameKeySameHashes(keysize, k1, k2, |slots|);
      ProbeStart(|slots|, HashIndex(k1, |slots|), HashProbe(k1, |slots|));
      ScanSameKey(keysize, slots, k1, k2, 0, HashIndex(k1, |slots|));
    }
  }

  // ---------------------------------------------------------------------------
  // A free slot stops every walk in a prime-sized table
  // ---------------------------------------------------------------------------

  lemma FindReachesVacancy<D>(keysize: nat, slots: seq<Slot<D>>, k: Key, j: nat)
    requires IsPrime(|slots|) && KeysFit(keysize, slots) && FitsKeysize(keysize, k)
    requires j < |slots| && slots[j].None?
    ensures !Exhausts(keysize, slots, k)
    ensures !Find(keysize, slots, k).Exhausted?
  {
    var p, start, step := |slots|, HashIndex(k, |slots|), HashProbe(k, |slots|);
    ProbesCover(p, start, step);
    assert OnPath(p, start, step, j);
    var n :| 0 <= n < p && ProbeSlot(p, start, step, n) == j;
    assert !Passes(keysize, slots, k, n);
  }

  // ---------------------------------------------------------------------------
  // Counting occupied slots
  // ---------------------------------------------------------------------------

  lemma {:induction false} OccupiedFill<D>(slots: seq<Slot<D>>, j: nat, e: (Key, D))
    requires j < |slots| && slots[j].None?
    ensures Occupied(slots[j := Some(e)]) == Occupied(slots) + 1
  {
    var n := |slots|;
    var slots' := slots[j := Some(e)];
    if j == n - 1 {
      assert slots'[..n - 1] == slots[..n - 1];
    } else {
      assert slots'[..n - 1] == slots[..n - 1][j := Some(e)];
      OccupiedFill(slots[..n - 1], j, e);
    }
  }

  lemma {:induction false} VacancyExists<D>(slots: seq<Slot<D>>)
    requires Occupied(slots) < |slots|
    ensures exists j :: 0 <= j < |slots| && slots[j].None?
  {
    var n := |slots|;
    if slots[n - 1].Some? {
      VacancyExists(slots[..n - 1]);
      var j :| 0 <= j < n - 1 && slots[..n - 1][j].None?;
      assert slots[j].None?;
    }
  }

  /** Extending a prefix by one slot counts that slot. */
  lemma OccupiedSnoc<D>(slots: seq<Slot<D>>, i: nat)
    requires i < |slots|
    ensures Occupied(slots[..i + 1]) == Occupied(slots[..i]) + (if slots[i].Some? then 1 else 0)
  {
    assert slots[..i + 1][..i] == slots[..i];
  }

  lemma {:induction false} OccupiedPrefix<D>(slots: seq<Slot<D>>, i: nat)
    requires i <= |slots|
    ensures Occupied(slots[..i]) <= Occupied(slots)
    decreases |slots|
  {
    var n := |slots|;
    if i < n {
      assert slots[..n - 1][..i] == slots[..i];
      OccupiedPrefix(slots[..n - 1], i);
    } else {
      assert slots[..i] == slots;
    }
  }

  // ---------------------------------------------------------------------------
  // The stored pairs
  // ---------------------------------------------------------------------------

  lemma EntriesFill<D>(slots: seq<Slot<D>>, j: nat, e: (Key, D))
    requires j < |slots| && slots[j].None?
    ensures SlotEntries(slots[j := Some(e)]) == SlotEntries(slots) + {e}
  {
    var slots' := slots[j := Some(e)];
    assert slots'[j].value == e;
    forall x | x in SlotEntries(slots)
      ensures x in SlotEntries(slots')
    {
      var i :| 0 <= i < |slots| && slots[i].Some? && slots[i].value == x;
      assert slots'[i] == slots[i];
    }
  }

  lemma EntriesSnoc<D>(slots: seq<Slot<D>>, i: nat)
    requires i < |slots|
    ensures SlotEntries(slots[..i + 1]) ==
              SlotEntries(slots[..i]) + (if slots[i].Some? then {slots[i].value} else {})
  {
    var a, b := slots[..i + 1], slots[..i];
    forall x | x in SlotEntries(b)
      ensures x in SlotEntries(a)
    {
      var j :| 0 <= j < |b| && b[j].Some? && b[j].value == x;
      assert a[j] == b[j];
    }
    forall x | x in SlotEntries(a)
      ensures x in SlotEntries(b) + (if slots[i].Some? then {slots[i].value} else {})
    {
      var j :| 0 <= j < |a| && a[j].Some? && a[j].value == x;
      if j < i {
        assert b[j] == a[j];
      }
    }
    if slots[i].Some? {
      assert a[i] == slots[i];
    }
  }

  /** With no two equal keys, each occupied slot contributes a pair of its own. */
  lemma {:induction false} EntriesCount<D>(keysize: nat, slots: seq<Slot<D>>)
    requires KeysFit(keysize, slots) && DistinctKeys(keysize, slots)
    ensures |SlotEntries(slots)| == Occupied(slots)
  {
    var n := |slots|;
    if n == 0 {
      assert SlotEntries(slots) == {};
    } else {
      var front := slots[..n - 1];
      assert KeysFit(keysize, front);
      assert DistinctKeys(keysize, front);
      EntriesCount(keysize, front);
      EntriesSnoc(slots, n - 1);
      assert slots[..n] == slots;
      if slots[n - 1].Some? {
        LastPairIsNew(keysize, slots);
      }
    }
  }

  /** With no two equal keys, the pair in the last slot is held by no earlier slot. */
  lemma LastPairIsNew<D>(keysize: nat, slots: seq<Slot<D>>)
    requires KeysFit(keysize, slots) && DistinctKeys(keysize, slots)
    requires |slots| > 0 && slots[|slots| - 1].Some?
    ensures slots[|slots| - 1].value !in SlotEntries(slots[..|slots| - 1])
  {
    var n := |slots|;
    var front, last := slots[..n - 1], slots[n - 1].value;
    SameKeyIsEquivalence(keysize, last.0, last.0, last.0);
    forall x | x in SlotEntries(front)
      ensures x != last
    {
      var i :| 0 <= i < |front| && front[i].Some? && front[i].value == x;
      assert !SameKey(slots[i].value.0, last.0, keysize);
    }
  }

  // ---------------------------------------------------------------------------
  // The invariant
  // ---------------------------------------------------------------------------

  /** Two slots holding equal keys are one slot: each key sits where its walk stops. */
  lemma SameKeySameSlot<D>(keysize: nat, slots: seq<Slot<D>>, i: nat, j: nat)
    requires |slots| >= 1 && KeysFit(keysize, slots) && Placed(keysize, slots)
    requires i < |slots| && j < |slots| && slots[i].Some? && slots[j].Some?
    ensures SameKey(slots[i].value.0, slots[j].value.0, keysize) ==> i == j
  {
    FindSameKey(keysize, slots, slots[i].value.0, slots[j].value.0);
    assert LocatedAt(keysize, slots, slots[i].value.0, i);
    assert LocatedAt(keysize, slots, slots[j].value.0, j);
  }

  /** No two occupied slots of a well-formed table hold equal keys. */
  lemma PlacedKeysDistinct<D>(keysize: nat, slots: seq<Slot<D>>)
    requires |slots| >= 1 && KeysFit(keysize, slots) && Placed(keysize, slots)
    ensures DistinctKeys(keysize, slots)
  {
    forall i, j | 0 <= i < j < |slots| && slots[i].Some? && slots[j].Some?
      ensures !SameKey(slots[i].value.0, slots[j].value.0, keysize)
    {
      SameKeySameSlot(keysize, slots, i, j);
    }
  }

  /** `_hash_in` keeps a table well-formed; when the walk stops at an empty slot the
      pair joins the entries and the count rises by one, otherwise nothing changes. */
  lemma HashInKeepsWellFormed<D>(t: Assoc<D>, k: Key, d: D)
    requires WellFormed(t) && FitsKeysize(t.keysize, k)
    ensures WellFormed(HashIn(t, k, d))
    ensures Find(t.keysize, t.slots, k).Vacant? ==>
              Entries(HashIn(t, k, d)) == Entries(t) + {(k, d)} &&
              HashIn(t, k, d).itemcount == t.itemcount + 1
    ensures !Find(t.keysize, t.slots, k).Vacant? ==> HashIn(t, k, d) == t
  {
    var ks, slots := t.keysize, t.slots;
    var r := Find(ks, slots, k);
    if r.Vacant? {
      var j0 := PathSlot(slots, k, r.n);
      var e := (k, d);
      var slots' := slots[j0 := Some(e)];
      var t' := HashIn(t, k, d);
      assert t'.slots == slots';
      OccupiedFill(slots, j0, e);
      EntriesFill(slots, j0, e);
      SameKeyIsEquivalence(ks, k, k, k);
      ProbeStart(|slots|, HashIndex(k, |slots|), HashProbe(k, |slots|));
      ScanFillVacant(ks, slots, e, k, 0, HashIndex(k, |slots|));
      forall j | 0 <= j < |slots'| && slots'[j].Some?
        ensures LocatedAt(ks, slots', slots'[j].value.0, j)
      {
        if j != j0 {
          var kj := slots[j].value.0;
          assert LocatedAt(ks, slots, kj, j);
          ProbeStart(|slots|, HashIndex(kj, |slots|), HashProbe(kj, |slots|));
          ScanFillFound(ks, slots, j0, e, kj, 0, HashIndex(kj, |slots|));
        }
      }
    }
  }

  /** A stored pair whose key equals k is what lookup of k returns. */
  lemma EntryFound<D>(t: Assoc<D>, k: Key, e: (Key, D))
    requires WellFormed(t) && FitsKeysize(t.keysize, k)
    requires e in Entries(t) && FitsKeysize(t.keysize, e.0) && SameKey(e.0, k, t.keysize)
    ensures Lookup(t, k) == Some(e.1)
  {
    var ks, slots := t.keysize, t.slots;
    var j :| 0 <= j < |slots| && slots[j].Some? && slots[j].value == e;
    assert LocatedAt(ks, slots, e.0, j);
    FindSameKey(ks, slots, e.0, k);
  }

  /** Lookup in a well-formed table answers exactly from the stored pairs: it returns d
      iff a stored key equal to k carries d, and None iff no stored key equals k. */
  lemma LookupMatchesEntries<D>(t: Assoc<D>, k: Key, d: D)
    requires WellFormed(t) && FitsKeysize(t.keysize, k)
    ensures Lookup(t, k) == Some(d) <==> MapsTo(Entries(t), t.keysize, k, d)
    ensures Lookup(t, k).None? <==> !HasKey(Entries(t), t.keysize, k)
  {
    var ks, slots := t.keysize, t.slots;
    var r := Find(ks, slots, k);
    if r.Found? {
      var j := PathSlot(slots, k, r.n);
      var e := slots[j].value;
      assert e in Entries(t);
      assert Lookup(t, k) == Some(e.1);
    }
    if MapsTo(Entries(t), ks, k, d) {
      var e :| e in Entries(t) && FitsKeysize(ks, e.0) && SameKey(e.0, k, ks) && e.1 == d;
      EntryFound(t, k, e);
    }
    if HasKey(Entries(t), ks, k) {
      var e :| e in Entries(t) && FitsKeysize(ks, e.0) && SameKey(e.0, k, ks);
      EntryFound(t, k, e);
    }
  }

  /** `assoc_count` is the number of stored pairs, that is, of distinct keys. */
  lemma CountIsEntries<D>(t: Assoc<D>)
    requires WellFormed(t)
    ensures Count(t) == |Entries(t)| == Occupied(t.slots)
  {
    PlacedKeysDistinct(t.keysize, t.slots);
    EntriesCount(t.keysize, t.slots);
  }
}
