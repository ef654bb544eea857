/** The two hash functions of the table: `_hash_index` picks the first slot and
    `_hash_probe` the stride. Both run the same Bernstein-style loop,
    `hash = 33 * hash ^ c` from 5381 in 64-bit unsigned arithmetic, over the key's
    bytes up to its first zero byte, whatever the table's keysize. */
module Hashing {
  import opened Keys

  const Seed: bv64 := 5381

  /** The hash loop from running value h; it stops at the first zero byte. */
  function Djb2From(h: bv64, k: Key): bv64
    decreases |k|
  {
    if |k| == 0 || k[0] == 0 then h else Djb2From(Mix(h, k[0]), k[1..])
  }

  /** One step of the loop, `hash = 33 * hash ^ c`, wrapping modulo 2^64. */
  function Mix(h: bv64, c: Byte): bv64
  {
    (33 * h) ^ (c as bv64)
  }

  function Djb2(k: Key): bv64
  {
    Djb2From(Seed, k)
  }

  /** The loop never reads past the first zero byte. */
  lemma {:induction false} Djb2ReadsCString(h: bv64, k: Key)
    ensures Djb2From(h, k) == Djb2From(h, CString(k))
    decreases |k|
  {
    if |k| > 0 && k[0] != 0 {
      var s := CString(k);
      var h' := Mix(h, k[0]);
      assert s[0] == k[0] && s[1..] == CString(k[1..]);
      assert Djb2From(h, k) == Djb2From(h', k[1..]);
      assert Djb2From(h, s) == Djb2From(h', s[1..]);
      Djb2ReadsCString(h', k[1..]);
    }
  }

  /** `_hash_index`: the hash reduced modulo the table size. */
  function HashIndex(k: Key, tablesize: nat): (r: nat)
    requires tablesize >= 1
    ensures r < tablesize
  {
    (Djb2(k) as int) % tablesize
  }

  /** `_hash_probe`: the quotient of the hash by the table size, reduced modulo the table
      size and raised to 1 when it is 0. */
  function HashProbe(k: Key, tablesize: nat): (r: nat)
    requires tablesize >= 1
    ensures 1 <= r
    ensures tablesize >= 2 ==> r < tablesize
    ensures tablesize == 1 ==> r == 1
  {
    var q := ((Djb2(k) as int) / tablesize) % tablesize;
    if q < 1 then 1 else q
  }

  /** Both hashes depend only on the key's bytes before its first zero byte. */
  lemma HashesReadCString(k1: Key, k2: Key, tablesize: nat)
    requires tablesize >= 1
    ensures CString(k1) == CString(k2) ==>
              HashIndex(k1, tablesize) == HashIndex(k2, tablesize) &&
              HashProbe(k1, tablesize) == HashProbe(k2, tablesize)
  {
    Djb2ReadsCString(Seed, k1);
    Djb2ReadsCString(Seed, k2);
  }

  /** Keys that a table treats as equal get the same first slot and the same stride. */
  lemma SameKeySameHashes(keysize: nat, k1: Key, k2: Key, tablesize: nat)
    requires tablesize >= 1
    requires FitsKeysize(keysize, k1) && FitsKeysize(keysize, k2)
    ensures SameKey(k1, k2, keysize) ==>
              HashIndex(k1, tablesize) == HashIndex(k2, tablesize) &&
              HashProbe(k1, tablesize) == HashProbe(k2, tablesize)
  {
    SameKeySameCString(keysize, k1, k2);
    HashesReadCString(k1, k2, tablesize);
  }

  /** Binary keys that differ only after an embedded zero byte are different keys that
      still share both hashes, at every table size. */
  lemma BinaryKeysPastZeroCollide(tablesize: nat)
    requires tablesize >= 1
    ensures !SameKey([1, 0, 5, 6], [1, 0, 7, 8], 4)
    ensures HashIndex([1, 0, 5, 6], tablesize) == HashIndex([1, 0, 7, 8], tablesize)
    ensures HashProbe([1, 0, 5, 6], tablesize) == HashProbe([1, 0, 7, 8], tablesize)
  {
    var k1: Key := [1, 0, 5, 6];
    var k2: Key := [1, 0, 7, 8];
    assert k1[..4][2] != k2[..4][2];
    assert CString(k1) == [1] == CString(k2) by {
      assert CString(k1[1..]) == [];
      assert CString(k2[1..]) == [];
    }
    HashesReadCString(k1, k2, tablesize);
  }
}
