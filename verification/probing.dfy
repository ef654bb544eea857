/** The probe path of double hashing: probe n of a key visits slot
    (start + n * step) mod size. Over a prime size with a stride in [1, size-1], the
    first `size` probes visit every slot exactly once, which both probe loops rely on. */
module Probing {
  import opened Primes

  /** The slot visited by probe n. */
  function ProbeSlot(size: nat, start: nat, step: nat, n: nat): (j: nat)
    requires size >= 1
    ensures j < size
  {
    (start + n * step) % size
  }

  /** The loops' update `hash += probe; hash = hash % tablesize` moves from probe n to n+1. */
  lemma ProbeAdvance(size: nat, start: nat, step: nat, n: nat)
    requires size >= 1
    ensures (ProbeSlot(size, start, step, n) + step) % size == ProbeSlot(size, start, step, n + 1)
  {
    var a := start + n * step;
    var q, r := a / size, a % size;
    var q2, r2 := (r + step) / size, (r + step) % size;
    assert (n + 1) * step == n * step + step;
    assert a + step == size * (q + q2) + r2;
    DivModUnique(a + step, size, q + q2, r2);
  }

  /** Probe 0 is the start slot itself. */
  lemma ProbeStart(size: nat, start: nat, step: nat)
    requires start < size
    ensures ProbeSlot(size, start, step, 0) == start
  {
    DivModUnique(start, size, 0, start);
  }

  /** Two different probes among the first `p` visit different slots. */
  lemma ProbesDistinct(p: nat, start: nat, step: nat, a: nat, b: nat)
    requires IsPrime(p) && 1 <= step < p
    requires a < b < p
    ensures ProbeSlot(p, start, step, a) != ProbeSlot(p, start, step, b)
  {
    DivModUnique(b - a, p, 0, b - a);
    EuclidLemma(p, b - a, step);
    assert (start + b * step) - (start + a * step) == (b - a) * step;
    ModDifference(start + a * step, start + b * step, p);
  }

  /** The slots visited by probes 0 .. k-1. */
  ghost function Visited(size: nat, start: nat, step: nat, k: nat): set<nat>
    requires size >= 1
  {
    set n | 0 <= n < k :: ProbeSlot(size, start, step, n)
  }

  lemma {:induction false} VisitedCount(p: nat, start: nat, step: nat, k: nat)
    requires IsPrime(p) && 1 <= step < p && k <= p
    ensures |Visited(p, start, step, k)| == k
  {
    if k > 0 {
      VisitedCount(p, start, step, k - 1);
      var last := ProbeSlot(p, start, step, k - 1);
      assert Visited(p, start, step, k) == Visited(p, start, step, k - 1) + {last};
      forall n | 0 <= n < k - 1
        ensures ProbeSlot(p, start, step, n) != last
      {
        ProbesDistinct(p, start, step, n, k - 1);
      }
      assert last !in Visited(p, start, step, k - 1);
    }
  }

  /** The slot indices 0 .. size-1. */
  ghost function Below(size: nat): (s: set<nat>)
    ensures forall j: int :: j in s <==> 0 <= j < size
    ensures |s| == size
  {
    if size == 0 then {} else Below(size - 1) + {size - 1}
  }

  lemma SubsetCount<T>(a: set<T>, b: set<T>)
    requires a <= b
    ensures |a| <= |b|
  {
    assert b == a + (b - a);
  }

  /** Slot j is visited by one of the first `size` probes. */
  ghost predicate OnPath(size: nat, start: nat, step: nat, j: nat)
    requires size >= 1
  {
    exists n :: 0 <= n < size && ProbeSlot(size, start, step, n) == j
  }

  /** Every slot lies on the first `p` probes. */
  lemma ProbesCover(p: nat, start: nat, step: nat)
    requires IsPrime(p) && 1 <= step < p
    ensures forall j :: 0 <= j < p ==> OnPath(p, start, step, j)
  {
    var v := Visited(p, start, step, p);
    VisitedCount(p, start, step, p);
    forall j | 0 <= j < p
      ensures OnPath(p, start, step, j)
    {
      if j !in v {
        SubsetCount(v, Below(p) - {j});
        assert false;
      }
    }
  }
}
