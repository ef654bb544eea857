/** Keys and the key-equality rule of `_is_same_key`. A table's `keysize` fixes the
    rule: 0 means keys are zero-terminated strings compared as by strcmp; a positive
    value N means keys are N-byte blocks compared as by memcmp. */
module Keys {

  /** A byte, read as an unsigned char. */
  type Byte = b: int | 0 <= b < 256

  /** The bytes a caller's key pointer refers to, taken as a value: the model assumes the
      caller does not change them while the key is stored. */
  type Key = seq<Byte>

  /** The bytes of k before its first zero byte (all of k when it has none): what
      strcmp and both hash functions read. */
  function CString(k: Key): (s: Key)
    ensures |s| <= |k| && s == k[..|s|]
    ensures forall i :: 0 <= i < |s| ==> s[i] != 0
    ensures |s| < |k| ==> k[|s|] == 0
  {
    if |k| == 0 || k[0] == 0 then [] else [k[0]] + CString(k[1..])
  }

  /** The byte strcmp reads at the head of k; the end of the sequence reads as the terminator. */
  function Head(k: Key): Byte
  {
    if |k| == 0 then 0 else k[0]
  }

  /** `strcmp(k1, k2) == 0`: walk both strings until a mismatch or a shared terminator. */
  function StrEqual(k1: Key, k2: Key): (b: bool)
    ensures b <==> CString(k1) == CString(k2)
    decreases |k1|
  {
    if Head(k1) != Head(k2) then false
    else if Head(k1) == 0 then true
    else
      assert CString(k1) == [k1[0]] + CString(k1[1..]);
      assert CString(k2) == [k2[0]] + CString(k2[1..]);
      StrEqual(k1[1..], k2[1..])
  }

  /** `memcmp(k1, k2, n) == 0`: compare exactly the first n bytes. */
  function MemEqual(k1: Key, k2: Key, n: nat): (b: bool)
    requires n <= |k1| && n <= |k2|
    ensures b <==> k1[..n] == k2[..n]
  {
    if n == 0 then true
    else if k1[0] != k2[0] then false
    else
      assert k1[..n] == [k1[0]] + k1[1..][..n - 1];
      assert k2[..n] == [k2[0]] + k2[1..][..n - 1];
      MemEqual(k1[1..], k2[1..], n - 1)
  }

  /** A key of the right shape for a table: any byte string for a string-keyed table,
      exactly `keysize` bytes for a binary-keyed one. */
  predicate FitsKeysize(keysize: nat, k: Key)
  {
    keysize == 0 || |k| == keysize
  }

  /** `_is_same_key(k1, k2, keysize)`. memcmp reads `keysize` bytes of each key, so a
      binary comparison needs at least that many. */
  function SameKey(k1: Key, k2: Key, keysize: nat): (b: bool)
    requires keysize == 0 || (keysize <= |k1| && keysize <= |k2|)
    ensures keysize == 0 ==> (b <==> CString(k1) == CString(k2))
    ensures keysize > 0 ==> (b <==> k1[..keysize] == k2[..keysize])
  {
    if keysize == 0 then StrEqual(k1, k2) else MemEqual(k1, k2, keysize)
  }

  /** The part of a key that equality looks at. */
  ghost function Significant(keysize: nat, k: Key): Key
    requires keysize == 0 || keysize <= |k|
  {
    if keysize == 0 then CString(k) else k[..keysize]
  }

  /** `_is_same_key` is an equivalence: reflexive, symmetric and transitive, because it
      compares the significant bytes of the two keys. */
  lemma SameKeyIsEquivalence(keysize: nat, k1: Key, k2: Key, k3: Key)
    requires keysize == 0 || (keysize <= |k1| && keysize <= |k2| && keysize <= |k3|)
    ensures SameKey(k1, k2, keysize) <==> Significant(keysize, k1) == Significant(keysize, k2)
    ensures SameKey(k1, k1, keysize)
    ensures SameKey(k1, k2, keysize) <==> SameKey(k2, k1, keysize)
    ensures SameKey(k1, k2, keysize) && SameKey(k2, k3, keysize) ==> SameKey(k1, k3, keysize)
  {
  }

  /** A string key is equal to any key that agrees with it up to the terminator, whatever
      follows: "a" and "a\0b" are the same key when keysize is 0. */
  lemma StringKeysIgnoreTail(k: Key, tail1: Key, tail2: Key)
    requires forall i :: 0 <= i < |k| ==> k[i] != 0
    ensures SameKey(k + [0] + tail1, k + [0] + tail2, 0)
  {
    CStringStopsAtZero(k, tail1);
    CStringStopsAtZero(k, tail2);
  }

  lemma {:induction false} CStringStopsAtZero(k: Key, tail: Key)
    requires forall i :: 0 <= i < |k| ==> k[i] != 0
    ensures CString(k + [0] + tail) == k
  {
    if |k| > 0 {
      assert (k + [0] + tail)[1..] == k[1..] + [0] + tail;
      CStringStopsAtZero(k[1..], tail);
    }
  }

  /** A binary key compares every byte, zero bytes included: a difference in any of the
      `keysize` bytes makes two keys different. */
  lemma BinaryKeysCompareEveryByte(k1: Key, k2: Key, i: nat)
    requires |k1| == |k2| && i < |k1|
    ensures k1[i] != k2[i] ==> !SameKey(k1, k2, |k1|)
  {
    if k1[i] != k2[i] {
      assert k1[..|k1|][i] != k2[..|k2|][i];
    }
  }

  /** For keys that fit the table, equal keys have equal C strings, which is all the
      hash functions read. */
  lemma SameKeySameCString(keysize: nat, k1: Key, k2: Key)
    requires FitsKeysize(keysize, k1) && FitsKeysize(keysize, k2)
    ensures SameKey(k1, k2, keysize) ==> CString(k1) == CString(k2)
  {
    if keysize > 0 {
      assert k1 == k1[..keysize] && k2 == k2[..keysize];
    }
  }
}
