# AgHashTable in Dafny

This project models the core of AgHashTable, a chained hash set for keys whose hash is at most 16 bits wide, and proves properties of that model.

## The table

The table is `src/AgHashTable.h`, modelled by the class `HashTable.AgHashTable`.

- **Addressing.** A key's hash value is split in two. The high half picks one of `sBucketCount` buckets; the low half picks a slot in that bucket's slot array.
- **Slot arrays.** A bucket's slot array is allocated on the first insert into that bucket.
- **Chains.** Each slot heads a singly linked chain of keys. Insert appends a key that is not yet in its chain. Find walks the chain. Erase unlinks the first match.
- **Counters.** The bucket's `mSize`, the table's `mSize` and, in test mode, the count `mSlots` of non-empty slots move with each change.

The model keeps the same layout:

- an `array` of `Bucket` values, each holding its key count and an optional slot array;
- each slot of a slot array holds the chain it heads, as a sequence of keys;
- a ghost view `chains` (bucket, slot, chain) carries the invariant.

The invariant states:

- every key sits in the chain its hash selects;
- no chain holds two `==` keys;
- each bucket's count, `mSize` and `mSlots` match the chains.

Insert, find and erase are methods proved against that view. Erase also states its effect on the key set. For insert, the key-set effect is a separate lemma, `HashTable.KeysOfRelinkSnoc`.

## The iterator

The forward iterator is `src/AgHashTable_iter.h`, modelled in `HashTableIter`.

The iterator belongs to a variant of the table with one aggregate node per live hash value. That variant's class body is not part of this model. Its contents are viewed as a map from each live hash value to its non-empty chain.

This variant places no bound on the width of `hash_t` (the 16-bit limit belongs to `src/AgHashTable.h` only), so the aggregate table carries its hash width in bits, and `++newHash` wraps at 2 to that power.

Prefix `++` is proved to match a step function. It is also proved to move to the very next node in (hash, chain position) order, or to end exactly when no later node exists. A valid iterator's aggregate pointer is always its node's own aggregate.

## The example and benchmark helpers

From `examples/main.cpp`, module `ExampleMain` models:

- the modular power `bin_pow`;
- the polynomial string hash and its 16-bit truncation;
- the `id` hash;
- the insert/find/erase driver over [-100000, 100000).

The benchmark helper `format_integer` prints an integer in decimal with thousands commas, and `streq` compares NUL-terminated strings. They appear, identical, in `benchmarks/single_threaded.cpp` and `benchmarks/single_threaded_strings.cpp`. One model in `BenchUtil` serves both copies.

`format_integer` uses C's truncating `/` and `%`, written out in the model. For a negative number the model follows the code: there is no minus sign, and the digit characters fall at or below `'0'` (`BenchUtil.NegativeDigitsBelowZero`).

Two routines of `examples/main.cpp` compute something other than what they evidently intend: `bin_pow` and `string_hash_func64`. Both are modelled as written and in corrected form; see "Findings".

## Model

| member | source | states |
|---|---|---|
| HashTable.ConstantsArePowers | src/AgHashTable.h:48-54 | the maximum hash value, bucket size and bucket count are 2 to the power of their logarithms |
| HashTable.SlotsCoverHashes | src/AgHashTable.h:56 | bucket size times bucket count equals the number of hash values |
| HashTable.AddressSplit | src/AgHashTable.h:114-115 | for every hash below the maximum, the bucket id is below the bucket count, the position is below the bucket size, and id * size + position gives back the hash |
| HashTable.ShiftMaskIsDivMod8 | src/AgHashTable.h:114-115 | for a one-byte hash, the shift and the mask are quotient and remainder by the bucket size |
| HashTable.ShiftMaskIsDivMod16 | src/AgHashTable.h:114-115 | for a two-byte hash, the shift and the mask are quotient and remainder by the bucket size |
| HashTable.ChainAtRelinkAt | src/AgHashTable.h:156 | relinking one chain changes that chain and no other |
| HashTable.KeysOfRelinkSnoc | src/AgHashTable.h:142-156 | appending a key at the tail of a chain adds exactly that key to the table's key set |
| HashTable.KeysOfRelinkRemove | src/AgHashTable.h:222-228 | unlinking a key that occurs only in its own duplicate-free chain removes exactly that key from the key set |
| HashTable.RelinkConsistent | src/AgHashTable.h:156-159 | replacing one chain by a duplicate-free chain of keys that hash there keeps the invariant, once the bucket's mSize, mSize and mSlots move by the change in that chain; the counters never go below zero |
| HashTable.SlotPointersIrrelevant | src/AgHashTable.h:117-130 | the invariant depends only on the bucket counts, not on which slot array a bucket points to |
| HashTable.AgHashTable.KeyAddress | src/AgHashTable.h:112-115 | every key's bucket and slot exist in the table |
| HashTable.AgHashTable.constructor | src/AgHashTable.h:85-93 | a new table has BucketCount buckets, none with a slot array, every chain empty, and zero counters |
| HashTable.AgHashTable.KeysAreInTheirChains | src/AgHashTable.h:132-140 | a key is stored exactly when it is in the chain its hash selects |
| HashTable.AgHashTable.BucketSizesAddUp | src/AgHashTable.h:158-159 | the buckets' mSize values sum to the table's mSize |
| HashTable.AgHashTable.Size | src/AgHashTable.h:249-252 | size() is the number of nodes over all chains |
| HashTable.AgHashTable.Walk | src/AgHashTable.h:133-140 | the walk stops at the first key `==` to the argument, or at the end exactly when there is none |
| HashTable.AgHashTable.Find | src/AgHashTable.h:166-195 | find returns true iff the key is in its chain, equivalently iff it is stored; it changes nothing |
| HashTable.AgHashTable.Insert | src/AgHashTable.h:103-162 | insert succeeds iff the key is absent from its chain. On success the key is appended at the tail of that chain and no other chain changes, the bucket's mSize and mSize rise by one, mSlots rises iff the chain was empty, and the slot array is allocated if needed and otherwise kept. On failure nothing changes |
| HashTable.AgHashTable.AddToChain | src/AgHashTable.h:132-161 | with the slot array allocated, the walk-and-link step has the effect stated for insert |
| HashTable.AgHashTable.Erase | src/AgHashTable.h:200-245 | erase succeeds iff the key is in its chain. On success exactly its first match is unlinked, the bucket's mSize and mSize fall by one, mSlots falls iff the chain becomes empty, and the key set loses exactly the key. No slot array is freed. On failure nothing changes |
| HashTable.AgHashTable.UnlinkAt | src/AgHashTable.h:222-238 | unlinking the first match updates the chain, the counters and the key set as erase states |
| HashTable.AgHashTable.Relink | src/AgHashTable.h:156-159 | storing a new chain in a slot keeps the invariant and moves the counters by the change in length and occupancy |
| HashTable.AgHashTable.StoreChain | src/AgHashTable.h:156 | writing one slot changes that bucket's chain at that slot only |
| HashTable.AgHashTable.AllocateSlots | src/AgHashTable.h:117-130 | the first insert into a bucket gives it a fresh slot array of empty slots; the invariant, the counts and every other bucket are kept |
| HashTable.AgHashTable.NewSlotArray | src/AgHashTable.h:119-129 | the new slot array has every slot null (an empty chain) |
| Chains.NodesUpdate | src/AgHashTable.h:158-159 | replacing one chain changes the bucket's node count by the change in that chain's length |
| Chains.OccupiedSlotsUpdate | src/AgHashTable.h:150-154 | replacing one chain changes the bucket's non-empty slot count by the change in that chain's occupancy |
| Chains.TotalNodesUpdate | src/AgHashTable.h:227-228 | replacing one bucket changes the table's node count by the change in that bucket's count |
| Chains.TotalOccupiedUpdate | src/AgHashTable.h:230-234 | replacing one bucket changes the table's non-empty slot count by the change in that bucket's count |
| Chains.EmptyBucket | src/AgHashTable.h:127-129 | a fresh slot array has the bucket size and every chain empty |
| Chains.EmptyTable | src/AgHashTable.h:85-93 | a fresh table has the bucket count and every bucket empty |
| Chains.EmptyBucketCounts | src/AgHashTable.h:127-129 | a fresh bucket has no nodes and no non-empty slot |
| Chains.EmptyTableCounts | src/AgHashTable.h:85-93 | a fresh table has no nodes and no non-empty slot |
| Chains.RemoveFirstAt | src/AgHashTable.h:220-225 | unlinking the first match keeps the keys before it and after it, in order |
| Chains.RemoveFirstAbsent | src/AgHashTable.h:220-244 | a chain without the key is left as it is |
| Chains.RemoveFirstMultiset | src/AgHashTable.h:222-228 | unlinking removes one occurrence of the key and nothing else |
| Chains.RemoveFirstSubset | src/AgHashTable.h:224-225 | unlinking adds no key |
| Chains.RemoveFirstNoDuplicates | src/AgHashTable.h:222-225 | in a duplicate-free chain, unlinking leaves no copy of the key and no duplicate |
| Chains.RemoveFirstKeepsOthers | src/AgHashTable.h:222-225 | every other key is in the chain after unlinking iff it was before |
| Chains.NoDuplicatesSnoc | src/AgHashTable.h:133-156 | appending an absent key keeps the chain duplicate-free |
| Chains.InsertThenErase | src/AgHashTable.h:142-156 | appending an absent key and then erasing it restores the chain |
| HashTableIter.NextLive | src/AgHashTable_iter.h:41-57 | the probe's result is the smallest live hash value in range, or none when there is none |
| HashTableIter.StepVisitsInOrder | src/AgHashTable_iter.h:36-62 | for a table of any hash width, ++ from a node with its own aggregate lands on a node of the table that comes later in (hash, position) order with no node of the table strictly between, with the aggregate pointer on that node's aggregate; it lands on end (both pointers null) exactly when no later node exists |
| HashTableIter.Iterator.constructor | src/AgHashTable_iter.h:15-18 | the iterator holds the given node, aggregate and table |
| HashTableIter.Iterator.Increment | src/AgHashTable_iter.h:27-63 | prefix ++ keeps the iterator valid (aggregate pointer on the node's own aggregate) and performs the step: unchanged on a null pointer, otherwise the next node of the chain, otherwise the head of the next live aggregate or end. From a node, the new position is the very next node of the table in (hash, position) order, or end exactly when there is none |
| HashTableIter.Iterator.Probe | src/AgHashTable_iter.h:41-57 | the probe loop returns the smallest live hash value above the start, or none once the counter wraps to 0 |
| HashTableIter.Iterator.PostIncrement | src/AgHashTable_iter.h:72-79 | postfix ++ returns a copy of the iterator as it was and advances this one as prefix ++ does, to the very next node in order or to end |
| HashTableIter.Iterator.Deref | src/AgHashTable_iter.h:88-91 | the key at the current node, which lies in that aggregate and hashes to its value |
| HashTableIter.Iterator.NotEquals | src/AgHashTable_iter.h:116-121 | `!=` is false iff the nodes and the tables are the same |
| HashTableIter.Iterator.Equals | src/AgHashTable_iter.h:101-106 | `==` is the negation of `!=` |
| HashTableIter.Iterator.EqualsIsSymmetric | src/AgHashTable_iter.h:101-106 | `==` is reflexive and symmetric |
| HashTableIter.Iterator.EqualIteratorsShareKey | src/AgHashTable_iter.h:88-106 | equal iterators dereference to the same key |
| ExampleMain.BinPowLoop | examples/main.cpp:15-29 | the as-written loop, uint64 wrap-around included, always yields a value below m, and the starting value when the power is 0 |
| ExampleMain.BinPow | examples/main.cpp:13-30 | bin_pow's loop computes the as-written result: below m, and 1 for power 0 |
| ExampleMain.BinPowOverflows | examples/main.cpp:19-26 | bin_pow(2^32, 2) returns 0 while (2^32)^2 mod m is 59 |
| ExampleMain.ModPow | examples/main.cpp:13-30 | the corrected loop returns base^pow mod m for all inputs |
| ExampleMain.HashState | examples/main.cpp:35-40 | the as-written hash and coefficient stay below m and start at (0, 1) |
| ExampleMain.StringHash64 | examples/main.cpp:33-43 | string_hash_func64's loop computes the as-written hash: below m, and 0 for the empty string |
| ExampleMain.StringHashOverflows | examples/main.cpp:37-39 | for "aaa" the as-written hash is 4766281086452247449, while the polynomial sum mod m is 4766281086452247744 |
| ExampleMain.StringHash64Exact | examples/main.cpp:33-43 | the corrected loop returns the sum of key[i] * 1000000007^i, taken mod m |
| ExampleMain.StringHash16 | examples/main.cpp:51-55 | string_hash_func16 is below 2^16 and agrees with string_hash_func64 modulo 2^16 |
| ExampleMain.Id | examples/main.cpp:57-61 | id returns the low 16 bits of the key's two's-complement representation |
| ExampleMain.Driver | examples/main.cpp:346-372 | with hash id, every key in [-100000, 100000) inserts, is found and erases successfully, and the table ends empty |
| ExampleMain.InsertRange | examples/main.cpp:348-352 | inserting every key of [lo, hi) into an empty table succeeds each time, and the stored keys are exactly [lo, hi) |
| ExampleMain.InsertNew | examples/main.cpp:349 | inserting a key not yet stored succeeds and adds exactly that key |
| ExampleMain.FindRange | examples/main.cpp:356-360 | every inserted key is found |
| ExampleMain.EraseRange | examples/main.cpp:364-368 | erasing every stored key succeeds each time and leaves the table empty |
| BenchUtil.Streq | benchmarks/single_threaded.cpp:182-198 | streq returns true iff the two strings agree up to and including their first NUL (a string that ends early differs); the copy at benchmarks/single_threaded_strings.cpp:189-205 is identical |
| BenchUtil.NumDigits | benchmarks/single_threaded.cpp:214-216 | the number of truncating divisions by 10 that reach zero is positive exactly for non-zero numbers |
| BenchUtil.Digits | benchmarks/single_threaded.cpp:218-227 | one digit character per division step |
| BenchUtil.CountDigits | benchmarks/single_threaded.cpp:214-216 | the first loop leaves len equal to the number of digits |
| BenchUtil.DigitsValue | benchmarks/single_threaded.cpp:218-231 | for n >= 0 the digit characters are '0'..'9', read back as n, and have no leading zero |
| BenchUtil.NegativeDigitsBelowZero | benchmarks/single_threaded.cpp:218-223 | for n < 0 every digit character is at or below '0' and the leading one is below it: no sign, no valid digits |
| BenchUtil.DigitsIndex | benchmarks/single_threaded.cpp:218-223 | the character j places from the right is the digit of weight 10^j |
| BenchUtil.GroupLength | benchmarks/single_threaded.cpp:224-226 | grouping ds adds (len - 1) / 3 commas |
| BenchUtil.GroupIndex | benchmarks/single_threaded.cpp:224-226 | counted from the right, every fourth character is a comma and the rest are the digits in order |
| BenchUtil.GroupStrip | benchmarks/single_threaded.cpp:218-231 | removing the commas from grouped digits gives back the digits |
| BenchUtil.GroupNoLeadingComma | benchmarks/single_threaded.cpp:224-226 | grouped digits never start with a comma |
| BenchUtil.FormatSpecMeaning | benchmarks/single_threaded.cpp:210-231 | for n >= 0 the text is "0" for zero. Otherwise it has no leading comma, its digits once the commas are removed read back as n, and its length is len + (len - 1) / 3 |
| BenchUtil.WriteDigits | benchmarks/single_threaded.cpp:218-227 | the second loop writes the digits least significant first, with a comma after every third except the last |
| BenchUtil.ReverseInPlace | benchmarks/single_threaded.cpp:229-231 | the swap loop reverses the text in place |
| BenchUtil.ReversedIsFormatSpec | benchmarks/single_threaded.cpp:218-231 | the reversed output of the digit loop is the grouped decimal text |
| BenchUtil.FormatInteger | benchmarks/single_threaded.cpp:200-234 | format_integer returns "0" for zero and otherwise n's digits with a comma before every full group of three from the right; the copy at benchmarks/single_threaded_strings.cpp:207-241 is identical |

## Left out

- Allocation failure: `new (std::nothrow)` returning null (src/AgHashTable.h:87-92, 119-125, 142-148) is not modelled; allocation always succeeds.
- The counters `mSize` and `mSlots`, which the constructor leaves uninitialised, start at 0.
- Counters are unbounded naturals. `uint64_t` overflow of `mSize` or a bucket's `mSize` would need 2^64 nodes, and every node is a separate allocation, so that many cannot exist.
- Keys are compared with Dafny's `==`, an equivalence, standing for `key_t`'s `operator==` (src/AgHashTable.h:135, 189, 222). A key type whose `==` is not reflexive behaves differently in the source: for a floating-point NaN, `insert` succeeds every time and `find` never does.
- Chains are sequences of keys stored in the slot, not linked `node_t` cells. Relinking through the pointer-to-pointer `listElem` becomes writing the slot's new chain, so node identity and aliasing between nodes are not modelled.
- `mSlots` is modelled as if test mode were always on (as in examples/main.cpp); the `TEST_MODE` console messages are output and are left out.
- Destructors (`~AgHashTable`, `~bucket_t`) and the chains that `~bucket_t` leaks are not modelled.
- Concurrency is not part of this core.
- HashTable.AgHashTable.Insert: its own contract states the new chains, counters and slot arrays but not the new key set; the key-set effect follows from the lemma HashTable.KeysOfRelinkSnoc, which the driver uses.
- The three-parameter table variant that the iterator belongs to (aggregate nodes, `getHashAggr`, `begin`/`end`) is not part of this model. Its contents are a fixed map from live hash value to chain, and `getHashAggr` is a lookup in that map.
- HashTableIter.Iterator.Equals: line 105 of src/AgHashTable_iter.h compares against `pOther.mtablePtr`, a misspelling that would not compile if instantiated; the model gives the evidently intended meaning, the negation of `!=`.
- The table is held fixed while an iterator walks it; invalidation by insert or erase is not modelled.
- `string_hash_func32` (examples/main.cpp:45-49) calls itself unconditionally and never returns, so it has no value to model.
- `id` reads the first two bytes of an `int64_t`; the model assumes a little-endian layout, where those are the low 16 bits.
- Characters in `string_hash_func64` are taken as signed `char` (-128..127), as on common x86 and ARM Linux targets.
- The console output of the example driver is left out; its failure counters stand in for the messages it prints.
- `format_integer` is generic over the integer type `T`; the model takes an unbounded integer. The digit loop's `int32_t` counter never exceeds the digit count.
- `format_integer` builds `res` by appending to a `std::string`; the model appends to a sequence and copies it into an array for the in-place reversal.
- `streq`'s strings are sequences that contain a NUL; reading past it, which the C code never does, is not modelled.

## Findings

| source | as written | input that shows it | evidently intended | confidence | as-written member | corrected member |
|---|---|---|---|---|---|---|
| examples/main.cpp:19-26 | `res *= pBase` and `pBase *= pBase` wrap modulo 2^64 before `% m` | bin_pow(2^32, 2) returns 0 | base^pow mod m (here 59) | not executed | ExampleMain.BinPowOverflows | ExampleMain.ModPow |
| examples/main.cpp:37-40 | `pKey[i] * coeff`, `res +=` and `coeff * largePrime` wrap modulo 2^64 before `% m` | string_hash_func64("aaa") gives 4766281086452247449 | the sum of key[i] * 1000000007^i mod m, 4766281086452247744 | not executed | ExampleMain.StringHashOverflows | ExampleMain.StringHash64Exact |
