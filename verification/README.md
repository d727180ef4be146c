# HW5 data structures in Dafny

A functional model of the three classes of the HW5 repository, with proofs
of what each promises:

- **BloomFilter** (`bloom_hash.dfy`, `bloom_filter.dfy`). The 64-bit
  table-driven string hash is modelled over `bv64`, so multiplication, shifts
  and xor wrap as Java's `long` does and `>>` is Java's `>>>`. This covers
  the 2048-entry scrambling table and `hashCode(s, hcNo)`. The filter is a
  set of bit numbers below 2^L plus its number of hashes. The model covers
  both constructors with every exception they throw, and `add` and
  `contains`. The main property is that the filter has no false negatives,
  over any history of additions.
- **CuckooHash** (`cuckoo_table.dfy`, `cuckoo_insert.dfy`,
  `cuckoo_examples.dfy`). A table is its slot sequence; the capacity is its
  length. Key hash codes come from a caller-supplied `hash`, which stands
  for Java's `key.hashCode()`. `hash1`/`hash2` use Java's `Math.abs`, `%`
  and `int` overflow. The model covers the constructor, `size`, `clear`,
  `values`, `keys`, `get`, `remove` and `rehash`, and `put`. The
  repository's `put` is an unfinished stub, so `Put` follows its
  documentation comment:
  - an identical pair is not stored twice;
  - otherwise the pair takes its `hash1` slot and evicted pairs move to
    their other slot;
  - after CAPACITY moves the table grows to 2·CAPACITY+1 and the leftover
    pair is put again.

  The placement invariant (`WellPlaced`) says every pair sits in one of its
  key's two slots. The pairs stored are a multiset (`Pairs`). The opening of
  the repository's cuckoo test is proved step by step on a table of
  capacity 10 with Java's `String.hashCode`.
- **ProblemSolutions** (`problem_solutions.dfy`). `isSubset`,
  `findKthLargest` and `sort2Arrays` over sequences. The library
  `HashSet`, `PriorityQueue` and `Arrays.sort` are modelled by their
  contracts: a set, a sorted sequence whose head is `peek`, and an insertion
  sort. The k-th largest element has an independent reference definition
  (`IsKth`, by counting), and sorting has its uniqueness theorem.

Shared pieces: `wrappers.dfy` (`Option`, `Result`) and `java_int.dfy`
(Java `int` wrap-around, `Math.abs`, truncating `%`).

## Model

| member | source | states |
|---|---|---|
| JavaInt.Wrap | BloomFilter.java:175 | an `int` result is the mathematical value reduced into [-2^31, 2^31) modulo 2^32, and is the value itself when that fits |
| JavaInt.Abs | CuckooHash.java:91 | `Math.abs` gives x or -x, non-negative, except for `Integer.MIN_VALUE`, whose absolute value stays negative |
| JavaInt.Rem | CuckooHash.java:91 | Java's `%` agrees with the Euclidean remainder for a non-negative dividend and lies in (-b, 0] for a negative one |
| BloomHash.NextEntry | BloomFilter.java:123-124 | one entry of the initialiser: 31 rounds of `h = (h >>> 7) ^ h` (the unbraced inner loop's only statement), then one `<< 11` and one `>>> 10` round, once each |
| BloomHash.BuildByteTable | BloomFilter.java:119-127 | the static initialiser yields 2048 entries; entry i is the generator state after i+1 steps of 31 `>>> 7` rounds (the only statement in the unbraced inner loop), then one `<< 11` round and one `>>> 10` round |
| BloomHash.HashCodeLoop | BloomFilter.java:129-140 | the loop of `hashCode(s, hcNo)` computes the left fold of the characters from HSTART, low byte before high byte, reading table slice 256·hcNo |
| BloomHash.HashCodeFrontToBack | BloomFilter.java:131-139 | the hash defined back to front (the last character folded into the hash of the rest) equals the fold front to back from HSTART, the order the Java loop reads the characters |
| BloomHash.HashCodeAppend | BloomFilter.java:131-139 | the hash of `s + t` is the front-to-back fold of `t` continued from the hash of `s` |
| BloomHash.TableIndex | BloomFilter.java:133-137 | a byte read under hash number n indexes only that hash's 256-entry slice of the table |
| BloomFilter.New | BloomFilter.java:163-172 | the filter is built exactly for 1 ≤ log2 ≤ 30 and 1 ≤ noHashes ≤ 8, empty, with mask 2^log2-1; outside [1, 31] it is "Invalid number of bits", then "Invalid number of hashes"; log2 = 31 passes both checks and fails in `new BitSet(1 << 31)` |
| BloomFilter.ShiftOne | BloomFilter.java:180 | Java's `1 << n` is 2^(n mod 32) below 31 and `Integer.MIN_VALUE` at 31 |
| BloomFilter.BitsRequired | BloomFilter.java:175 | the request `noItems * bitsPerItem` is an `int`: the product reduced modulo 2^32 into the `int` range |
| BloomFilter.NewSized | BloomFilter.java:174-187 | a request of at least `Integer.MAX_VALUE` is "too big"; otherwise a bad hash count is "invalid number of hashes", checked after sizing; a filter is built exactly when neither applies, empty, with the least power 2^L ≥ the request with L ≥ 4 bits |
| BloomFilter.SizingLoop | BloomFilter.java:179-181 | the loop ends at the least L ≥ 4 whose power of two reaches the request, never above 30 |
| BloomFilter.SizingLoopNeverExits | BloomFilter.java:180-181 | for a request above 2^30 the loop test is true for every L, so the loop never ends |
| BloomFilter.NewSizedOverflowAccepted | BloomFilter.java:175-176 | 65536 items of 65536 bits wrap to a request of 0 bits, which the as-written check lets through; the corrected constructor refuses it |
| BloomFilter.NewSizedChecked | BloomFilter.java:174-187 | with the exact product, a request above 2^30 is "too big", otherwise a bad hash count is "invalid number of hashes"; a filter is built exactly when neither applies, with the least power of two ≥ the request with L ≥ 4 |
| BloomFilter.LowInt | BloomFilter.java:202 | the cast `(int) hc` is an `int` congruent to the `long` modulo 2^32, its low 32 bits |
| BloomFilter.ProbeIndex | BloomFilter.java:202 | `(int) hc & hashMask` is a bit number below 2^L |
| BloomFilter.SetProbes | BloomFilter.java:200-204 | the loop of `add` from hash n on adds exactly the probe bits n..noHashes-1 |
| BloomFilter.Add | BloomFilter.java:199-205 | `add` sets exactly the probe bits of the string and keeps every other bit and the parameters |
| BloomFilter.ProbesSet | BloomFilter.java:219-226 | the loop of `contains` from hash n on is true iff every remaining probe bit is set |
| BloomFilter.Contains | BloomFilter.java:218-236 | `contains` is true iff every probe bit of the string is set |
| BloomFilter.EmptyContainsNothing | BloomFilter.java:218-236 | a filter with no bits set contains no string |
| BloomFilter.ContainsAfterAdd | BloomFilter.java:199-236 | a string just added is reported present |
| BloomFilter.AddKeepsContains | BloomFilter.java:199-236 | adding a string never turns a present string absent |
| BloomFilter.AddIdempotent | BloomFilter.java:199-205 | adding a string twice gives the filter of adding it once |
| BloomFilter.ContainsAfterAddAll | BloomFilter.java:199-236 | after any sequence of additions every string added is reported present (no false negatives) |
| BloomFilter.KeepsContainsAll | BloomFilter.java:199-236 | a present string stays present through any further additions |
| CuckooTable.Hash1 | CuckooHash.java:90-92 | `Math.abs(hc) % CAPACITY` is a slot number for every code in `ValidCode` |
| CuckooTable.Hash2 | CuckooHash.java:93-95 | `(a*b + Math.abs(hc)) % CAPACITY` is a slot number for every code in `ValidCode` |
| CuckooTable.HashesLeaveTableOutsideValidCodes | CuckooHash.java:90-95 | two codes for which the hashes are not slot numbers: `hash1(MIN_VALUE)` is -8 and the wrapped `hash2(MAX_VALUE - 1)` is -1 at capacity 10 |
| CuckooTable.New | CuckooHash.java:109-112 | the constructor fails exactly for a negative size and otherwise yields that many empty slots |
| CuckooTable.Size | CuckooHash.java:123-130 | `size` is the number of occupied slots |
| CuckooTable.SizeCountsPairs | CuckooHash.java:123-130 | the size is the number of stored pairs, counted with multiplicity |
| CuckooTable.Clear | CuckooHash.java:141-143 | `clear` keeps the capacity and empties every slot |
| CuckooTable.OccupiedIndices | CuckooHash.java:160-162 | the slots the loops of `values` and `rehash` visit with a pair, in the order they visit them: strictly ascending, each one occupied, and every occupied slot among them |
| CuckooTable.OccupiedInSlotOrder | CuckooHash.java:359-363 | the snapshot `rehash` re-puts lists, position by position, the pairs of the occupied slots in ascending slot order |
| CuckooTable.Values | CuckooHash.java:156-164 | `values` lists one value per occupied slot, in ascending slot order: its j-th entry is the value in the j-th occupied slot |
| CuckooTable.ValuesMembers | CuckooHash.java:156-164 | every stored value is in the list `values` returns, and every entry of it is a stored value |
| CuckooTable.Keys | CuckooHash.java:175-183 | `keys` is exactly the set of keys of the occupied slots |
| CuckooTable.Get | CuckooHash.java:278-286 | `get` answers from the `hash1` slot when its key matches, else from the `hash2` slot, else null; a found value is paired with the key in the table |
| CuckooTable.GetFindsStoredKey | CuckooHash.java:268-286 | in a well-placed table `get` finds a value for every stored key |
| CuckooTable.PlacedMember | CuckooHash.java:189-195 | in a well-placed table a pair is stored iff it is in its key's `hash1` or `hash2` slot |
| CuckooTable.Remove | CuckooHash.java:299-311 | `remove` clears the first of the two slots whose VALUE matches and reports whether it did; the result drops exactly that one pair and stays well placed |
| CuckooTable.RemoveIgnoresKey | CuckooHash.java:302-309 | `remove(11, "v")` deletes the stored pair <1, "v">, which has another key; the corrected remove does not |
| CuckooTable.RemoveExact | CuckooHash.java:289-311 | the corrected `remove` succeeds iff the exact <key, value> pair is stored, then drops exactly that pair and nothing else |
| CuckooInsert.OtherSlot | CuckooHash.java:199-203 | an evicted pair moves to its key's other slot, which differs from the one it left whenever the two hashes differ |
| CuckooInsert.Displace | CuckooHash.java:197-212 | the kick chain keeps the capacity and the placement; the pairs in the table plus the pair still carried are the old pairs plus the new one; with no kicks left the pair comes back unplaced; an empty slot takes the pair |
| CuckooInsert.Put | CuckooHash.java:186-256 | `put` stores the pair once (an identical pair already stored leaves the table unchanged), keeps every pair in one of its key's slots, and keeps all old pairs; the new capacity is the old one after zero or more growths CAPACITY → 2·CAPACITY+1 (`GrownFrom`) |
| CuckooInsert.Rehash | CuckooHash.java:342-364 | `rehash` grows to exactly 2·CAPACITY+1 slots and further only by whole growths of the puts it makes, stays well placed, and keeps exactly the old pairs |
| CuckooInsert.ReputAll | CuckooHash.java:359-363 | re-putting the snapshot in slot order yields the old pairs plus the snapshot, well placed, in a table grown from the start only by whole growths |
| CuckooInsert.GrowAccounting | CuckooHash.java:213-220 | after the kick chain gives up, a growth and a retry leave the old pairs plus the new one, in a table strictly larger than before and reached from it by whole growths |
| CuckooInsert.PutKeepsCapacity | CuckooHash.java:205-220 | `put` keeps the capacity when the kick chain places every pair; a capacity change means the pair was not stored, the chain gave up after CAPACITY moves, and a rehash was made |
| CuckooInsert.GrownFromMultiple | CuckooHash.java:355 | each growth doubles CAPACITY+1, so any capacity reached by growths, plus one, is a multiple of the starting capacity plus one |
| CuckooInsert.PutFreeHome | CuckooHash.java:197-200 | a new pair whose `hash1` slot is free lands there and nothing else changes |
| CuckooInsert.PutKickOnce | CuckooHash.java:197-204 | a new pair takes its `hash1` slot and the evicted pair moves to its free other slot |
| CuckooInsert.PutKeepsUnique | CuckooHash.java:227-231 | after `put` no pair is stored twice and the new pair is stored |
| CuckooInsert.PutThenGet | CuckooHash.java:189-195 | after `put(key, value)`, `get(key)` finds a value |
| CuckooInsert.PutKeepsOthers | CuckooHash.java:236-240 | growth and reshuffling keep every previously stored pair reachable by `get` |
| CuckooInsert.PutIdempotent | CuckooHash.java:227-231 | putting the same pair again changes nothing |
| CuckooInsert.PutSize | CuckooHash.java:227-231 | `size` grows by one exactly when the pair was not stored already |
| CuckooExamples.PutFirstA | Main.java:283 | `put("A","AA")` into the empty table of 10 fills slot 5 |
| CuckooExamples.PutSecondA | Main.java:284 | `put("A","LL")` takes slot 5 and moves <A, AA> to slot 4 |
| CuckooExamples.PutB | Main.java:285 | `put("B","BB")` fills slot 6 |
| CuckooExamples.PutC | Main.java:286 | `put("C","CC")` fills slot 7 |
| CuckooExamples.OpeningSize | Main.java:288-296 | after the four puts the capacity is still 10 and four pairs are stored |
| CuckooExamples.OpeningGetA | CuckooHash.java:281-282 | `get("A")` then answers "LL", from the `hash1` slot |
| CuckooExamples.OpeningGetC | CuckooHash.java:281-282 | `get("C")` then answers "CC" |
| CuckooExamples.OpeningRemove | CuckooHash.java:299-311 | on the table after the four opening puts, `remove("A","AA")` finds no "AA" in slot 5, clears slot 4 and reports success |
| ProblemSolutions.IsSubset | ProblemSolutions.java:33-44 | true iff every element of the second array occurs in the first; when false, some element is missing |
| ProblemSolutions.IsSubsetExamples | Main.java:45-57 | {10, 35, 13} is a subset of [10, 50, 35, 82, 13, 25] and {10, 35, 13, 8} is not |
| ProblemSolutions.Insert | ProblemSolutions.java:98 | inserting keeps the elements plus the new one and keeps a sorted sequence sorted |
| ProblemSolutions.Sort | ProblemSolutions.java:98 | the sort is a sorted permutation of its input |
| ProblemSolutions.SortedUnique | ProblemSolutions.java:98 | two sorted sequences with the same elements are equal, so any correct sort gives the same array |
| ProblemSolutions.Sort2Arrays | ProblemSolutions.java:94-100 | the result has both lengths together, is sorted, and holds exactly the elements of both arrays |
| ProblemSolutions.Sort2ArraysUnique | ProblemSolutions.java:94-100 | any sorted arrangement of the two arrays' elements is the result |
| ProblemSolutions.Sort2ArraysSmallExample | Main.java:86-96 | [4,1,5] and [3,2] give [1,2,3,4,5] |
| ProblemSolutions.Sort2ArraysLargeExample | Main.java:98-104 | the 12- and 3-element arrays give the repository's 15-element answer |
| ProblemSolutions.CountPerm | ProblemSolutions.java:66-71 | the counts above a threshold depend only on the elements, not on the order the queue sees them |
| ProblemSolutions.KthUnique | ProblemSolutions.java:51-62 | the k-th largest element is unique |
| ProblemSolutions.Offer | ProblemSolutions.java:67-70 | one step of the loop keeps at most k elements and grows the queue by one until it holds k |
| ProblemSolutions.OfferHolds | ProblemSolutions.java:66-71 | one loop step keeps the queue sorted, of size min(k, seen), and with the polled elements exactly the elements seen, every polled one at most the head |
| ProblemSolutions.KeepLargest | ProblemSolutions.java:65-71 | after the loop the queue holds the min(k, n) largest elements and every polled element is at most its head |
| ProblemSolutions.KthOfQueue | ProblemSolutions.java:72 | the head of that queue is the k'-th largest element for k' the queue's size |
| ProblemSolutions.FindKthLargest | ProblemSolutions.java:64-73 | k < 1 fails (queue capacity), an empty array fails (`peek` is null), otherwise the result is the min(k, n)-th largest element |
| ProblemSolutions.FindKthLargestExamples | Main.java:64-80 | the method itself returns 7, 3 and 44 on the repository's three cases |
| ProblemSolutions.KthFirstExample | Main.java:67-70 | 7 is the 4th largest of [1,7,3,10,34,5,8] |
| ProblemSolutions.KthSecondExample | Main.java:72-75 | 3 is the 6th largest of the same array |
| ProblemSolutions.KthThirdExample | Main.java:77-80 | 44 is the 6th largest of the 12-element array |

## Left out

- `printTable` (CuckooHash.java:325-339) is string formatting. The order it lists is `Occupied`.
- `mapSize` (CuckooHash.java:145) is the capacity, which is the length of the slot sequence.
- `randomString` and `LETTERS` (BloomFilter.java:248-261) depend on a random generator.
- The statistical and random-probe parts of the test driver are also random.
- The Bloom test strings (Main.java:113-150) are not checked concretely. Hashing them needs the verifier to evaluate table entries of 33 xorshift rounds each.
  - Their positive answers are instances of `BloomFilter.ContainsAfterAddAll`.
  - Their negative answers ("String 5", "STRING 12") depend on the concrete hash values and are not stated.
- The cuckoo test after its first four puts (Main.java:299-368) is not checked. It needs three growths (capacity 10 to 21 to 43 to 87) and dozens of kicks to evaluate.
- OpeningRemove: the repository's `remove("A","AA")` (Main.java:362) runs on the 87-slot table after eight puts; the lemma applies it to the 10-slot table after the first four puts only.
- Put: the source body is a stub, so the model follows the documentation comment (CuckooHash.java:186-249).
  - The identical-pair check looks at the key's two slots before any kick.
  - Put, Rehash and ReputAll take a `fuel` bound on nested growths, because the documented algorithm need not terminate: three pairs with one key never fit in two slots. Running out of fuel gives `None`.
- Put: the multiset accounting ensures assume no pair is stored twice in the old table. `put` itself maintains that (`PutKeepsUnique`), and every table built by put from an empty one satisfies it.
- Rehash: `CAPACITY * 2 + 1` is an `int` and would wrap for capacities above 2^30-1. The model's capacities are unbounded.
- Get, Remove, Put: they require the key's code to be in `ValidCode`, a range on which both hashes are slot numbers for every capacity. The requires also excludes some codes that Java handles without an exception: `hash1(2147483047)` is 7 and `hash2(2147483047)` is 0 at capacity 10, and `hash1(MIN_VALUE)` is 0 at capacity 8. For other codes and capacities a hash is negative and Java's array access throws; `HashesLeaveTableOutsideValidCodes` shows two such cases. Neither the excluded codes nor that exception are modelled.
- Get, Remove, Put: they require a capacity above 0, because `% 0` throws `ArithmeticException` in Java.
- Java `null` keys and values (a `NullPointerException` in `hashCode` or `equals`) are not modelled. Key and value equality is Dafny equality.
- Java's `String.hashCode` is written out (`CuckooExamples.StringHash`) only for the examples. Elsewhere the hash is a parameter.
- `Arrays.sort` is modelled as an insertion sort. By `SortedUnique`, any sorting algorithm gives the same array.
- `PriorityQueue` is modelled as a sorted sequence whose head is the least element.
- `HashSet` is modelled as a Dafny set.
- Null arrays (a `NullPointerException`) are not modelled.
- BitSet's own growth and storage are not modelled: the bit array is the set of its set bits.
- NewSized: requires the wrapped request to be at most 2^30 or at least `Integer.MAX_VALUE`, because for requests in between the source loop never ends (see Findings). The as-written method cannot return for those inputs.
- Rem: for a negative dividend the contract bounds the remainder to (-b, 0] and does not state its exact value.

## Findings

| source | as written | input that shows it | evidently intended | confidence | as-written member | corrected member |
|---|---|---|---|---|---|---|
| BloomFilter.java:175-176 | `noItems * bitsPerItem` is an `int` product, so the "too big" check sees the wrapped value | 65536 items of 65536 bits: the product wraps to 0 and a 16-bit filter is built | refuse any request whose true product exceeds what a filter can hold | high (not executed) | BloomFilter.NewSizedOverflowAccepted | BloomFilter.NewSizedChecked |
| BloomFilter.java:176-181 | only requests of at least `Integer.MAX_VALUE` are refused, but `1 << logBits` never exceeds 2^30 (it is negative at 31 and wraps at 32) | a request of 2^30 + 1 bits: the loop test stays true and the loop never ends | refuse requests above 2^30, the largest power of two an `int` holds | high (not executed) | BloomFilter.SizingLoopNeverExits | BloomFilter.NewSizedChecked |
| CuckooHash.java:302-309 | `remove(key, value)` compares only the stored value, never the stored key | <1, "v"> stored in slot 1 of 10 and `remove(11, "v")`: slot 1 is also the slot of 11, so the pair of key 1 is deleted | remove only the pair whose key and value both match | high (not executed) | CuckooTable.RemoveIgnoresKey | CuckooTable.RemoveExact |
