# pHash: a verified model of an open-addressing associative array

`pHash.c` implements an associative array ("assoc"). It maps caller-owned keys to
caller-owned data in one slot array. Its parts are:

- **Two hashes.** It uses double hashing with two Bernstein-style hashes. `_hash_index` picks the first slot and `_hash_probe` picks the stride.
- **Probing.** Probe n of a key visits slot `(index + n * stride) mod tablesize`.
- **No overwrite.** Inserting a key that is already present changes nothing.
- **Growth.** Before an insert, once `itemcount` reaches `floor(0.75 * tablesize)`, the table is rebuilt. The new table has `_next_prime(2 * tablesize)` slots, and every pair is re-inserted in slot order.
- **Key equality.** `keysize` decides it:
  - 0 means zero-terminated strings, compared as by `strcmp`.
  - N > 0 means N-byte blocks, compared as by `memcmp`.

The model is functional. A table is an immutable `Assoc<D>` record with these fields:

- `keysize`
- `tablesize`
- `itemcount`
- `slots: seq<Option<(Key, D)>>`, where `None` is the NULL key that marks an empty slot.

Keys are byte sequences and the data type is a type parameter. Each C function becomes a
Dafny function, and `_resize` returns the new table.

The modules follow the source's structure:

| module | file | models |
|---|---|---|
| `Primes` | primes.dfy | `_is_prime`, `_next_prime`. It also proves that above every x >= 2 there is a prime (Euclid's argument) and proves Euclid's lemma. |
| `Keys` | keys.dfy | `_is_same_key`, with `strcmp` and `memcmp` over byte sequences |
| `Hashing` | hashing.dfy | `_hash_index` and `_hash_probe`: the loop `hash = 33 * hash ^ c` from 5381, over 64-bit unsigned values |
| `Probing` | probing.dfy | the probe path. With a prime size, the first `tablesize` probes visit every slot exactly once. |
| `HashTable` | table.dfy | the `assoc` record, the constants, `_new_assoc`, `assoc_init`, `assoc_count`, `assoc_lookup`, `_hash_in` |
| `Invariants` | invariants.dfy | the table invariant, and how `_hash_in` and `assoc_lookup` relate to the stored pairs |
| `Growth` | growth.dfy | `_resize` and `assoc_insert` |
| `Properties` | properties.dfy | what callers of the public operations can rely on, including the growth from 17 to 37 slots on the 13th insert |

**The table invariant.** It is `HashTable.WellFormed`:

- the slot array has `tablesize` entries, and `tablesize` is prime;
- `itemcount` is the number of occupied slots;
- every stored key sits at the first stop of its own probe path.

`HashTable.Valid` adds the load bound `itemcount <= floor(3 * tablesize / 4)`. `Init` creates a valid table and `Insert` keeps it valid, so every table a caller can build is valid.

**Stored pairs.** `Entries(t)` is the set of stored pairs. `LookupMatchesEntries` shows that lookup answers from exactly this set. Every property of insert and resize is stated in terms of it.

## Model

| member | source | states |
|---|---|---|
| `Primes.NoDivisorFrom` | pHash.c:143-150 | the trial-division loop from i finds no divisor exactly when no d in [i, x/2] divides x |
| `Primes.PrimeTest` | pHash.c:140-151 | `_is_prime(x)` holds exactly when x < 2 or x is prime, so 0 and 1 pass the test |
| `Primes.PrimeAbove` | pHash.c:156-158 | above every x >= 2 there is a prime no larger than x! + 1, so the search loop of `_next_prime` ends |
| `Primes.NextPrime` | pHash.c:154-160 | `_next_prime(x)` is the least y >= x that passes `_is_prime`, and it is prime when x >= 2 |
| `Keys.CString` | pHash.c:205 | the bytes `strcmp` reads: the prefix before the first zero byte, which contains no zero byte and is followed by one when shorter than the key |
| `Keys.StrEqual` | pHash.c:205 | `strcmp(k1, k2) == 0` exactly when the two keys agree up to and including their first zero byte |
| `Keys.MemEqual` | pHash.c:210 | `memcmp(k1, k2, n) == 0` exactly when the first n bytes coincide |
| `Keys.SameKey` | pHash.c:201-216 | with keysize 0, keys are equal iff their zero-terminated prefixes coincide; with keysize N > 0, iff their first N bytes coincide |
| `Keys.SameKeyIsEquivalence` | pHash.c:201-216 | `_is_same_key` compares the significant bytes of the two keys, so it is reflexive, symmetric and transitive |
| `Keys.StringKeysIgnoreTail` | pHash.c:204-207 | string keys that agree before their terminator are equal, whatever follows it |
| `Keys.CStringStopsAtZero` | pHash.c:205 | a zero byte ends the string: what follows it is never read |
| `Keys.BinaryKeysCompareEveryByte` | pHash.c:209-212 | a binary key compares all keysize bytes, zero bytes included, so two keys that differ in any byte are different |
| `Keys.SameKeySameCString` | pHash.c:201-216 | keys equal under the table's rule have equal zero-terminated prefixes |
| `Hashing.Djb2ReadsCString` | pHash.c:171-175 | the hash loop's value depends only on the bytes before the first zero byte |
| `Hashing.HashIndex` | pHash.c:164-177 | `_hash_index` is a slot number in [0, tablesize) |
| `Hashing.HashProbe` | pHash.c:181-198 | `_hash_probe` is at least 1, and below tablesize when tablesize >= 2, so it is a usable stride over a prime size |
| `Hashing.HashesReadCString` | pHash.c:164-198 | keys with the same bytes before the first zero get the same first slot and the same stride |
| `Hashing.SameKeySameHashes` | pHash.c:164-198 | keys equal under the table's rule get the same first slot and stride, so an equal key is met on the same path |
| `Hashing.BinaryKeysPastZeroCollide` | pHash.c:190-192 | two 4-byte binary keys that differ only after a zero byte are different keys that still share both hashes at every table size |
| `Probing.ProbeAdvance` | pHash.c:101-102 | the update `hash += probe; hash %= tablesize` moves from probe n to probe n + 1 of the path `(index + n*stride) mod size` |
| `Probing.ProbeStart` | pHash.c:91 | probe 0 is the slot `_hash_index` picks |
| `Probing.ProbesDistinct` | pHash.c:93-103 | over a prime size with a stride in [1, size-1], two different probes among the first size ones visit different slots |
| `Probing.VisitedCount` | pHash.c:93-103 | the first k probes, k <= size, visit exactly k distinct slots |
| `Probing.ProbesCover` | pHash.c:244-256 | over a prime size with a stride in [1, size-1], every slot is visited by one of the first size probes |
| `HashTable.LoadLimit` | pHash.h:8 | floor(0.75 * tablesize), the threshold `assoc_insert` compares `itemcount` with |
| `HashTable.Scan` | pHash.c:244-256 | the probe loop from probe i: it stops at an empty slot or an equal key, after every earlier probe passed a different key, or it runs out after probe tablesize-1 with all probes passed |
| `HashTable.Find` | pHash.c:93-103 | the walk of a key ends at its first stop, and the stop is empty iff it reports Vacant; it is Exhausted exactly when every one of the tablesize probes meets a different key |
| `HashTable.NewTable` | pHash.c:119-127 | `_new_assoc` gives a table with the given keysize and size, count 0 and every slot empty; over a prime size that table satisfies the invariant and stores nothing |
| `HashTable.NewItem` | pHash.c:131-137 | the item `_new_item` builds is one occupied slot that adds exactly the pair (key, data) to the stored pairs |
| `HashTable.Count` | pHash.c:79-82 | `assoc_count` returns `itemcount`, which in a well-formed table is the number of occupied slots |
| `HashTable.Init` | pHash.c:57-60 | `assoc_init` gives a valid table of INITSIZE = 17 empty slots, count 0, the given keysize and no stored pairs |
| `HashTable.Lookup` | pHash.c:88-105 | `assoc_lookup` returns the data of the first stop on the key's path when that slot is occupied, NULL when it is empty, and NULL when every probe passes |
| `HashTable.HashIn` | pHash.c:237-257 | `_hash_in` fills the first stop with (key, data) and adds 1 to the count when that slot is empty; it changes nothing when the first stop holds an equal key or when every probe passes |
| `Invariants.FindReachesVacancy` | pHash.c:244-256 | in a prime-sized table with an empty slot, the probe loop always stops before running out |
| `Invariants.PlacedKeysDistinct` | pHash.c:245-248 | in a table where every key sits at its own first stop, no two occupied slots hold equal keys |
| `Invariants.HashInKeepsWellFormed` | pHash.c:237-257 | `_hash_in` keeps the table invariant; a Vacant stop adds exactly (key, data) to the stored pairs and 1 to the count, any other outcome leaves the table as it was |
| `Invariants.EntryFound` | pHash.c:93-99 | in a well-formed table, lookup of a key equal to a stored key returns that key's data |
| `Invariants.LookupMatchesEntries` | pHash.c:88-105 | in a well-formed table, lookup returns d iff some stored key equal to k carries d, and NULL iff no stored key equals k |
| `Invariants.CountIsEntries` | pHash.c:79-82 | `assoc_count` of a well-formed table is the number of stored pairs and of occupied slots |
| `Growth.Rehash` | pHash.c:228-232 | the resize loop keeps the new table's size and keysize and its slot shape |
| `Growth.RehashStep` | pHash.c:229-230 | one step of the resize loop: the pair of old slot i, whose key is not yet in the new table, is added to it while it still has a free slot; the table stays well-formed and holds and counts exactly the pairs of old slots 0 .. i |
| `Growth.RehashMoves` | pHash.c:227-232 | re-inserting pairs with distinct keys into a well-formed table with room for them all stores exactly those pairs and counts them |
| `Growth.Resize` | pHash.c:220-234 | `_resize` gives a well-formed table of `_next_prime(2 * tablesize)` slots, prime and at least twice as large, with the same keysize, count and stored pairs |
| `Growth.ResizeMakesRoom` | pHash.c:69-72 | after the resize that `assoc_insert` triggers at the load limit, the count is strictly below the new limit, so `_hash_in` has room |
| `Growth.PlaceBelowLimit` | pHash.c:72 | below the load limit, `_hash_in` always places a new key and leaves an equal one alone, and the table stays valid |
| `Growth.Insert` | pHash.c:67-73 | `assoc_insert` resizes exactly when itemcount >= floor(0.75 * tablesize). It keeps the table valid, so itemcount never exceeds the load limit. A new key joins with its data and raises the count by 1; a present key keeps its first data and the count. |
| `Properties.InitSizeIsPrime` | pHash.h:6 | INITSIZE 17 is prime |
| `Properties.InitLookupEmpty` | pHash.c:57-60 | a fresh table finds no key and counts 0 |
| `Properties.LookupAfterInsert` | pHash.c:67-73 | after inserting a key that was absent, lookup returns its data and the count is one higher |
| `Properties.DuplicateInsertKeepsFirst` | pHash.c:245-248 | inserting a key already present leaves lookup returning the first data and the count unchanged |
| `Properties.InsertLeavesOtherKeys` | pHash.c:67-73 | inserting k changes the lookup of no key that differs from k |
| `Properties.CountAfterInsert` | pHash.c:79-82 | `assoc_count` rises by one exactly when the inserted key was absent |
| `Properties.ResizeKeepsLookups` | pHash.c:220-234 | every key looks up the same data before and after `_resize` |
| `Properties.InsertAll` | pHash.c:67-73 | any sequence of inserts into a valid table leaves it valid, with the same keysize |
| `Properties.InsertAllDistinct` | pHash.c:67-73 | inserting distinct new keys one after another stores exactly the old pairs plus the new ones and counts every key |
| `Properties.InsertAllKeepsSize` | pHash.c:69-71 | while the count stays within the load limit, a run of distinct new inserts never resizes |
| `Properties.NextPrimeOf34` | pHash.c:154-160 | `_next_prime(34)` is 37 |
| `Properties.ThirteenthInsertGrows` | pHash.c:67-73 | 13 distinct keys inserted into a fresh table grow it from 17 to 37 slots; the count is 13 and every key looks up its own data |

## Left out

- Memory management is not modelled: `ncalloc`, `free` and `assoc_free`. The table is a value, so the `assoc**` handle swap of `assoc_insert` and `_resize` becomes a function that returns the new table. `ncalloc` and `specific.h` are not part of this model.
- Pointer identity is left out. Keys and data are compared by content only, and NULL key or table arguments are not modelled.
- The `char` read by both hash loops is modelled as unsigned (0..255). Sign extension of a signed `char` is not modelled.
- A binary key is exactly `keysize` bytes long (`Keys.FitsKeysize`). Both C hash loops read until a zero byte, so for a binary key with no zero byte in its first `keysize` bytes they read on past the key. That read is undefined behaviour when the key's object ends there; when the key points into a larger buffer it is legal, and the bytes that follow go into the hash. The model treats the end of the byte sequence as the terminator, so the hash of such a key depends on its `keysize` bytes only. `strcmp` on an unterminated string is handled the same way.
- Because of that read, two binary keys that are equal under `memcmp` but have no zero byte in their first `keysize` bytes can hash differently in C when different bytes follow them. The second can then take its own probe path and be stored in another slot, so the table counts two equal keys, and a lookup of an equal key can miss both. A resize of such a table can then drop one of the two, when the second's new walk meets the first. Every contract that relies on `Hashing.SameKeySameHashes` describes C for such keys only when equal keys are followed by the same bytes up to a zero byte. These are: `Invariants.PlacedKeysDistinct`, `Invariants.EntryFound`, `Invariants.LookupMatchesEntries`, `Invariants.CountIsEntries`, `Growth.RehashStep`, `Growth.RehashMoves`, `Growth.Resize`, `Growth.PlaceBelowLimit`, `Growth.Insert` (its present-key clause), `Properties.LookupAfterInsert`, `Properties.DuplicateInsertKeepsFirst`, `Properties.InsertLeavesOtherKeys`, `Properties.CountAfterInsert` and `Properties.ResizeKeepsLookups`. Runs of pairwise different keys (`Properties.InsertAllDistinct`, `Properties.InsertAllKeepsSize`, `Properties.ThirteenthInsertGrows`) never insert an equal key and are not affected.
- `unsigned long` is taken to be 64 bits wide (`Hashing.Djb2From` wraps modulo 2^64). No contract depends on the width: the range and zero-byte properties of both hashes would read the same at any width.
- LOADFACTOR (0.75) becomes the integer `(3 * tablesize) / 4`. The C cast of `tablesize * 0.75` gives the same value at every reachable size, so floating point is not modelled.
- C `int` overflow is not modelled: `tablesize * SCALEFACTOR`, `hash += probe` and the cast of the hash to `int` above 2^31 slots. `unsigned int` wrap-around of `itemcount` is not modelled either. `keysize` and `tablesize` are naturals.
- `Primes.PrimeTest`: modelled on naturals only. `_is_prime` on a negative `int` is never reached, because every call passes a positive size.
- Keys are modelled as values. C stores the caller's key pointer, not a copy of its bytes (pHash.c:134, pHash.c:250). A caller who changes a key's bytes after inserting it changes the stored key too, and lookups and the placement invariant can then fail. The model assumes the caller never changes a key's bytes while it is stored; that aliasing is not modelled.
- Data is modelled as a value of a type parameter, and `Lookup` returns `Option<D>`. C's `assoc_lookup` returns the stored data pointer as it is (pHash.c:98), so a pair inserted with NULL data looks up as NULL, which the header also uses for "not found" (pHash.c:34). `Option` separates the two cases that C's NULL mixes together. The statements "NULL iff no stored key equals k" (`Invariants.LookupMatchesEntries`), `Properties.CountAfterInsert` and `Properties.LookupAfterInsert` (through its `Lookup(t, k).None?` requirement) therefore describe C's results only when no data pointer is NULL.
- `Growth.Insert`: requires the table invariant `Valid` and a key of the table's width. Every table built by `Init` and `Insert` is valid (`Properties.InsertAll`). For an arbitrary record, the invariant is not checked.
- `Growth.Resize`: requires `WellFormed`. For that reason the C case "a table saturated so that `_hash_in` drops a pair during rehash" is not stated; it cannot arise from a valid table.
- `Growth.Rehash`: its own contract states only the shape of the result. What it stores is stated by `Growth.RehashMoves`.
- Lookup properties are stated for keys that fit the table's keysize. In the model, equal keys of that width always hash alike (`Hashing.SameKeySameHashes`); in C this holds for binary keys only under the condition on trailing bytes stated above.
