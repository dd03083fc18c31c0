# Robin Hood hash map: a verified model

This project models a linear-probing hash table with Robin Hood displacement, and proves what the
table, its fast division, its resize policy, its hash function and its batched operations do.

The table is an array of buckets `(key, val, psl)`. An insert that meets a record closer to its home
than the record in hand swaps the two; a lookup stops at the first record closer to home than the
probe; a delete pulls displaced records back. All of this is correct because of one invariant,
`Table.RobinHood`, which the code never states: every record's psl is its circular distance from
home, a displaced record follows one at most one step less displaced, and keys are unique. The finite
map a table stands for is `Table.Contents`.

How the files fit together:

- `Words`, `FastDiv`: 32-bit registers, and division by an invariant divisor (Granlund and
  Montgomery, "Division by Invariant Integers Using Multiplication", section 4). Bucket indices go
  through `FastDiv.FastRem32`, which is proved to be the remainder.
- `Ring`, `Table`: circular positions, the invariant, the map.
- `Lookup`, `Insertion`, `Deletion`: each loop as a function on the bucket sequence, and proofs that
  it is map lookup, map update and map removal.
- `Layout`, `Variance`: which layouts are possible for a set of keys. One circular pigeonhole argument
  (`Layout.Overflow`) gives history independence and the least maximum of the probe sequence lengths; an
  exchange of homes along the table, cut at an empty bucket, gives the least variance.
- `LoadPolicy`, `Machine`, `Runs`: the resize policy, the calls as a transition system over whole
  tables, and properties of every run. `Driver` shows that running calls on an actual map, of either
  class, is such a run. `PslWidth`: how many items the 16-bit psl field is wide enough for.
- `QRhashmap`: the single-value table as a class over an array, with its own loops. Put takes an
  update code; set and add are known, any other code is rejected.
- `Hmap`: the generated table as a class. Its merge is one arbitrary function (set, sum, min, max, or
  count, or keeping the stored value), its loops carry explicit limits, it deletes by swapping. Both classes are
  proved against the same functions, so copy-and-clear and swapping leave the same table.
- `Merges`: what a key holds after any run, for each merge the generator emits.
- `ParallelPhase`, `Batch`: batched put. The parallel section is a transition system with one atomic
  step per thread turn; loading and storing a value are separate steps. Scheduling is arbitrary.
- `HmapBatch`: batched get over blocks of keys, and the run-time checker for holes.
- `RhashmapPolicy`: the resize policy of the byte-string map. `Murmur`: the hash function.

What is a parameter: the hash is any function of key and seed with a 32-bit result; the seed a resize
draws is an argument; addition on values is any function, so wrap-around and floating point are
covered; thread scheduling is a nondeterministic choice.

Assumptions the code needs, stated as preconditions: allocation succeeds; a put is not asked to grow a
table of 2^31 or more buckets (`LoadPolicy.GrowLoopEndsBelow2to31` shows the loop does not end there, and
`LoadPolicy.GrowsBelow2to31` that it takes more than 1825361100 items to get there); the table stays well
formed in the parallel section of a batched put, for which `ParallelPhase.ZeroKeyBatchIff` gives the exact
condition on key 0; the parallel section has one thread for every id below the given number of threads.

Where code and documentation disagree, or the code does less than it promises:

- Looking up the reserved key 0 can report it found in an empty bucket: `Lookup.LookupAnswersIff` says
  exactly when, and `Machine.NewTableFindsZero` that it always does in a new table.
- A batched put of key 0 can write a value into an empty bucket and report the key found:
  `ParallelPhase.ZeroKeyBatchIff` says exactly when the flags and the table come out right,
  `ParallelPhase.ZeroKeyBatchFails` gives a batch for which neither does.
- The comment above put says the given value is returned for a new key; the code returns 0.
- The limit "not more than the minimum size" in the shrink branch never applies: a shrink always
  halves (`LoadPolicy.ShrinkKeepsLoad`).
- The grow loop never updates the size it reads; it ends exactly when one iteration is enough
  (`LoadPolicy.GrowLoopEndsIff`).
- The minimum size is stored in 32 bits: `LoadPolicy.MinsizeIsHonouredIff`.
- The generated resize checks the new size against 85% of the item count and ignores the status of
  insert; for sizes from there up to the item count it returns 0 and keeps only as many records as there
  are buckets (`Hmap.Map.Resize`). Such sizes exist from two items on (`Rehash.LossySizeExistsIff`,
  `Rehash.LossyTable`).
- The hole checker never looks at the first occupied bucket, and it holds the count in a signed register,
  so that from 2^31 items on it accepts anything: `HmapBatch.CheckerIsExactIff`,
  `HmapBatch.CheckerMissesHole`.
- The 85% mark of the byte-string map wraps in 32 bits above 4936744 buckets, and from 4194304 records
  on every put grows the table: `RhashmapPolicy.ThresholdIsRightIff`, `RhashmapPolicy.AlwaysGrowsIff`,
  `RhashmapPolicy.SizeRunsAway`. The documentation promises growth at about 85% fill and up to 2^32
  elements.
- The 16-bit psl field, marked for confirmation in the code, is wide enough for every reachable table of
  n items exactly when n is at most 65536 (`PslWidth.SixteenBitsSufficeIff`); inserting an absent key with
  16-bit arithmetic is right exactly below that (`PslWidth.InsertsAreExactIff`).

## Model

| member | source | states |
|---|---|---|
| FastDiv.FlsBounds | inc/hmap_utils.h:61-67 | fls is the bit length: the value lies below 2^fls and, when nonzero, not below 2^(fls-1) |
| FastDiv.ShiftCount | inc/fastdiv.h:60 | the shift count l of a divisor satisfies 2^(l-1) < div <= 2^l and l <= 32 |
| FastDiv.InitFields | inc/fastdiv.h:53-65 | init packs without overflow a 32-bit multiplier m with (m + 2^32) * div between 2^(32+l) + 1 and 2^(32+l) + div, and both shifts come back on unpacking |
| FastDiv.MultiplyHigh | inc/fastdiv.h:73 | a multiplier at most div too large still yields the exact quotient in the high part of the product (Theorem 4.2 of the paper) |
| FastDiv.HighWord | inc/fastdiv.h:73 | the 64-bit product does not wrap, its high word t is at most v, and t + v is the high word for the 33-bit multiplier |
| FastDiv.ShiftsAreExact | inc/fastdiv.h:75 | the two shifts divide v + t by 2^l without wrap-around |
| FastDiv.DivIsExact | inc/fastdiv.h:67-76 | for every 32-bit dividend and nonzero divisor the result is the integer quotient |
| FastDiv.RemIsExact | inc/fastdiv.h:78-82 | for every 32-bit value and nonzero divisor the result is the remainder |
| FastDiv.FastDiv32Init | inc/fastdiv.h:53-65 | the packed word makes the fast remainder exact for its divisor, for all dividends |
| FastDiv.FastRem32 | inc/fastdiv.h:78-82 | given such a word, returns v % div |
| Table.ChainBack | V1/src/q_rhashmap.tmpl.c:243-252 | walking back m <= psl steps from a record meets only occupied buckets and loses at most m of psl |
| Table.OnPath | V1/src/q_rhashmap.tmpl.c:145-151 | every bucket from a record's home up to it is occupied, by a record at least as far from its own home as the probe is |
| Lookup.ProbeFinds | V1/src/q_rhashmap.tmpl.c:131-159 | probing from home reaches the bucket of a stored key before any reason to stop |
| Lookup.ProbeMisses | V1/src/q_rhashmap.tmpl.c:145-155 | probing for an absent real key ends in not found |
| Lookup.LookupIsComplete | V1/src/q_rhashmap.tmpl.c:102-161 | for every real key the probe finds its bucket if and only if the key is in the map, despite the early stop |
| Lookup.LookupIsBounded | lua/hmap_get.tmpl.lua:44-67 | on any table with an empty bucket a lookup steps over at most as many buckets as are occupied, fewer than size |
| Lookup.LookupAnswersIff | V1/src/q_rhashmap.tmpl.c:102-109 | found agrees with membership in the map exactly for real keys, and for key 0 exactly when a richer bucket precedes the first empty one |
| Insertion.PlaceKeepsOrder | V1/src/q_rhashmap.tmpl.c:280-289 | putting the record in hand into an empty or richer bucket keeps the invariant |
| Insertion.SwapCarries | V1/src/q_rhashmap.tmpl.c:280-290 | after a swap the displaced record satisfies what was required of the record in hand |
| Insertion.WalkAdds | V1/src/q_rhashmap.tmpl.c:253-306 | when the key does not lie ahead the walk ends in an empty bucket, the invariant holds, and the map gains exactly the record in hand however many swaps were made |
| Insertion.WalkMeetsKey | V1/src/q_rhashmap.tmpl.c:257-278 | a key already stored is met before any swap, so only its value changes, or nothing for a rejected update code |
| Insertion.InsertRefinesUpdate | V1/src/q_rhashmap.tmpl.c:211-314 | insert is map update: merged in place if present with the old value returned, added if absent, no other key affected, invariant kept |
| Insertion.LimitNotReached | lua/hmap_insert.tmpl.lua:63-94 | the loop with an explicit probe limit takes the same steps as the unlimited one whenever some bucket is empty |
| Insertion.LimitedWalkKeeps | lua/hmap_insert.tmpl.lua:63-94 | on any table, full ones included, inserting a key that is not there never counts as an update: the record is added if a bucket is free, and otherwise exactly one record, it or one that it displaced, is dropped |
| Deletion.ClearOpensGap | V1/src/q_rhashmap.tmpl.c:439-448 | zeroing a bucket removes exactly its record and breaks the invariant at most for the next bucket |
| Deletion.PullMovesGap | V1/src/q_rhashmap.tmpl.c:454-481 | one backward move shifts that defect to the next bucket, across the wrap-around |
| Deletion.PullContents | V1/src/q_rhashmap.tmpl.c:478-480 | one backward move neither loses nor duplicates a record |
| Deletion.ShiftClosesGap | V1/src/q_rhashmap.tmpl.c:450-481 | the backward shift re-establishes the invariant and keeps the map |
| Deletion.DeleteRefinesRemoval | V1/src/q_rhashmap.tmpl.c:439-481 | delete is map removal and the invariant holds again |
| Layout.RobinHoodHasNoHoles | lua/hmap_chk_no_holes.tmpl.lua:63-80 | in a Robin Hood table no probe path crosses an empty bucket |
| Layout.Pigeonhole | V1/src/q_rhashmap.tmpl.c:22-25 | the keys of a full circular arc cannot fit, in another table of the same keys, into that arc less its last bucket |
| Layout.Overflow | V1/src/q_rhashmap.tmpl.c:22-25 | in any hole-free layout of the same keys some record of the cluster up to x lies at or after x, and bucket x is occupied |
| Layout.SameOccupancy | V1/src/q_rhashmap.tmpl.c:22-25 | all hole-free layouts of the same keys occupy the same buckets |
| Layout.NoLayoutBeatsBucket | V1/src/q_rhashmap.tmpl.c:243-252 | for every bucket of a Robin Hood table, any hole-free layout has a record at least as displaced as the one there |
| Layout.MaximumIsLeast | V1/src/q_rhashmap.tmpl.c:243-252 | no hole-free layout of the same keys has a smaller maximum psl than the one where the poorer record keeps the bucket |
| Layout.HistoryIndependence | V1/src/q_rhashmap.tmpl.c:254-306 | two Robin Hood tables of the same keys, size and seed agree on occupancy and psl in every bucket, so only keys of one home can trade places |
| Layout.TotalIsInvariant | V1/src/q_rhashmap.tmpl.c:22-25 | all hole-free layouts of the same keys have the same total psl |
| Variance.VarianceIsLeast | V1/src/q_rhashmap.tmpl.c:22-25 | among all hole-free layouts of the same keys a Robin Hood table has the least sum of squared psl, while count and total psl are the same: the least variance |
| Layout.StoredPslBound | V1/src/q_rhashmap_struct.tmpl.h:10 | every stored psl is below the number of items |
| Layout.CarriedPslBound | V1/src/q_rhashmap.tmpl.c:290-305 | the psl of the record in hand of an insertion that does not find its key never exceeds the number of items in the table |
| PslWidth.InsertIsExact | V1/src/q_rhashmap.tmpl.c:253-306 | insertion with psl counted modulo 2^16 takes the same steps and gives the same result as with unbounded psl, for absent keys with fewer than 65536 items and for present ones with at most 65536 |
| PslWidth.SixteenBitsSufficeIff | V1/src/q_rhashmap_struct.tmpl.h:10 | 16 bits hold every psl of every reachable table of n items if and only if n <= 65536 (or no table can hold n items); beyond, a table at most half full fails |
| PslWidth.InsertsAreExactIff | V1/src/q_rhashmap.tmpl.c:253-306 | on every reachable table of n items the 16-bit insertion of an absent key agrees with the unbounded one if and only if n < 65536 (or no table can hold n items) |
| LoadPolicy.GrowLoopEndsIff | src/calc_new_size.c:43-51 | the grow loop ends exactly when its guard fails at once or after one iteration |
| LoadPolicy.GrowLoopEndsBelow2to31 | src/calc_new_size.c:48-49 | at the load where put asks to grow, the loop ends exactly for sizes below 2^31, and then the size grows and the items fit below the mark |
| LoadPolicy.GrowsBelow2to31 | src/calc_new_size.c:37-53 | up to max(17*size/20, 1825361100) items, a table of that size or grown from it is never asked to grow from 2^31 buckets or more |
| LoadPolicy.MarksInNumbers | src/calc_new_size.c:26-53 | a table grows exactly above 17/20 of its size, to twice the size or by 2^20 buckets, and shrinks exactly above the minimum and below 2/5 of its size, to half or the minimum |
| LoadPolicy.CalcNewSize | src/calc_new_size.c:8-58 | status is 0; a put is told to resize exactly when 20 * nitems > 17 * size, to the smaller of 2 * size and size + 2^20; a del exactly when nitems > minsize and 5 * (nitems + 1) <= 2 * size, to the larger of size / 2 and minsize |
| LoadPolicy.MinsizeIsHonouredIff | V1/src/q_rhashmap.tmpl.c:508 | for 32-bit requests the stored minimum is 65536 or the larger request; it honours request and default exactly for those |
| LoadPolicy.LoadLeavesRoom | V1/src/q_rhashmap.tmpl.c:369-393 | within the load bounds one more record still leaves a free bucket |
| LoadPolicy.AddKeepsLoad | V1/src/q_rhashmap.tmpl.c:382-389 | a put that does not grow keeps the load bounds |
| LoadPolicy.GrowKeepsLoad | V1/src/q_rhashmap.tmpl.c:382-386 | growing strictly increases the size, passes the checks of resize and keeps the load bounds, with or without the record to come |
| LoadPolicy.RemoveKeepsLoad | V1/src/q_rhashmap.tmpl.c:482-487 | a del that does not shrink keeps the load bounds |
| LoadPolicy.ShrinkKeepsLoad | src/calc_new_size.c:26-36 | shrinking halves the size, stays above the minimum and keeps the load bounds |
| LoadPolicy.SpacedAfterGrow | src/calc_new_size.c:37-53 | after growing, the count is at least min(size/50, 2^19) away from both marks |
| LoadPolicy.SpacedAfterShrink | src/calc_new_size.c:26-36 | after shrinking, the count is at least min(size/50, 2^19) away from both marks |
| Machine.CreatedIsInv | V1/src/q_rhashmap.tmpl.c:498-516 | a new table satisfies the invariant and stands for the empty map |
| Machine.NewTableFindsZero | V1/src/q_rhashmap.tmpl.c:102-161 | get of key 0 on any new table reports it found although the table has no keys |
| Machine.InsertStepSound | V1/src/q_rhashmap.tmpl.c:211-314 | insert keeps the table sound, updates the map and answers as documented; the count rises by one exactly for a new real key |
| Machine.RemoveStepSound | V1/src/q_rhashmap.tmpl.c:400-481 | del without resizing keeps the table sound, removes exactly the key, answers as documented, and lowers the count exactly when found |
| Machine.PutStepInv | V1/src/q_rhashmap.tmpl.c:369-393 | put, resizing or not, keeps invariant and load bounds, acts as map update and answers as documented |
| Machine.DelStepInv | V1/src/q_rhashmap.tmpl.c:400-490 | del, resizing or not, keeps invariant and load bounds, acts as map removal and answers as documented |
| Machine.StepRefinesMap | V1/src/q_rhashmap.tmpl.c:369-490 | every call keeps the invariant, changes the map as documented and gives the documented answer |
| Rehash.RoomForNext | V1/src/q_rhashmap.tmpl.c:333-358 | while old buckets are re-inserted there is a free bucket for each, for any new size of at least the item count |
| Rehash.Reinserted | lua/hmap_resize.tmpl.lua:43-49 | re-inserting a bucket adds its record and never finds it already there |
| Rehash.TooSmallLosesRecords | lua/hmap_resize.tmpl.lua:32-34 | a table cannot stand for more keys than it has buckets |
| Rehash.LossySizeExistsIff | lua/hmap_resize.tmpl.lua:31-34 | a size that passes the checks of resize and is below the item count exists exactly from two items on |
| Rehash.LossyTable | lua/hmap_resize.tmpl.lua:32-34 | a table of two records for which the checks admit one bucket, which cannot hold its map |
| Runs.RunRefinesMap | V1/src/q_rhashmap.tmpl.c:369-516 | in every run from a new table, with any resizes and seeds, each state satisfies the invariant and stands for the map the calls describe, and each call answers as documented |
| Runs.StatusIsZero | V1/src/q_rhashmap.tmpl.c:369-490 | with known update codes every call of every run returns status 0 |
| Runs.StoredValueIsFold | lua/libgen.lua:86-105 | a key is present exactly when some put brought it in after it was last absent, and its value is the in-order fold of the updates since |
| Runs.ReachableBounds | src/calc_new_size.c:26-53 | in every reachable state 65536 <= minsize <= size < 2^32 - 1, the count exceeds 17/20 of the size by at most one and leaves a free bucket, the size is below 5/2 of the larger of nitems + 1 and minsize + 2, and every psl is below nitems |
| Runs.RunsLeaveSameLayout | V1/src/q_rhashmap.tmpl.c:450-481 | two reachable tables with the same keys, size and seed have the same occupied buckets and the same psl in each, whatever the runs |
| Runs.ReachableIsOptimal | V1/src/q_rhashmap.tmpl.c:22-25 | a reachable layout has least maximum psl, least sum of squared psl, and the common total psl among all hole-free layouts of its keys |
| Runs.ResizesIff | V1/src/q_rhashmap.tmpl.c:382-386 | the calls past a mark are exactly the calls that change the number of buckets |
| Runs.ResizesAreSpaced | V1/src/q_rhashmap.tmpl.c:482-487 | after a call that changes the number of buckets to s at least min(s/50, 2^19) puts or dels come before the next one |
| Driver.Execute | V1/src/q_rhashmap.tmpl.c:369-516 | any sequence of calls on an actual map, short enough that no put grows from 2^31 buckets, runs to completion and is a run of the transition system |
| Driver.ExecuteGenerated | lua/hmap_put.tmpl.lua:26-54 | the same for the generated table, with status 0 throughout |
| QRhashmap.HashMap.StepFrom | V1/src/q_rhashmap.tmpl.c:158 | the fast remainder of i + 1 is the circularly next bucket |
| QRhashmap.HashMap.Get | V1/src/q_rhashmap.tmpl.c:110-161 | found exactly for keys in the map, with their value, else 0; status 0 |
| QRhashmap.HashMap.ProbeForGet | V1/src/q_rhashmap.tmpl.c:131-159 | the loop computes the probe function |
| QRhashmap.HashMap.Insert | V1/src/q_rhashmap.tmpl.c:211-314 | takes an insert step; key 0 changes nothing |
| QRhashmap.HashMap.InsertWalk | V1/src/q_rhashmap.tmpl.c:253-306 | the in-place loop leaves the table, count, status and old value the walk function gives |
| QRhashmap.HashMap.Resize | V1/src/q_rhashmap.tmpl.c:316-361 | succeeds exactly for sizes in range and not below the item count; then the map is the same, with the new size and seed, and the invariant holds; else nothing changes |
| QRhashmap.HashMap.Put | V1/src/q_rhashmap.tmpl.c:369-393 | valid again; an absent key gets the value; a present one gets it for set, add(stored, value) for add, and keeps its value with status -1 for any other code; the flag and old value tell what was there; size grows exactly above 17/20 |
| QRhashmap.HashMap.Del | V1/src/q_rhashmap.tmpl.c:400-490 | valid again; the key and nothing else is gone, found and old value tell what was there, status 0; the size is halved exactly below 2/5 and above the minimum |
| QRhashmap.HashMap.ProbeForDel | V1/src/q_rhashmap.tmpl.c:415-437 | testing for an empty or richer bucket before comparing keys finds the same bucket as get |
| QRhashmap.HashMap.BackwardShift | V1/src/q_rhashmap.tmpl.c:450-481 | copying back and clearing leaves the table of the shift function |
| QRhashmap.HashMap.Create | V1/src/q_rhashmap.tmpl.c:498-516 | null exactly when the request, at least 2^32 - 1, is 0 or 2^32 - 1 modulo 2^32; otherwise an empty sound map of 65536 buckets or the request modulo 2^32, valid for every request below 2^32 - 1 |
| Hmap.Map.Create | lua/hmap_create.tmpl.lua:20-50 | an empty sound map of 65536 buckets or the request modulo 2^32, valid for every request below 2^32 - 1 |
| Hmap.Map.Get | lua/hmap_get.tmpl.lua:30-70 | found exactly for keys in the map, with their value; the probe limit is never reached |
| Hmap.Map.InsertLimited | lua/hmap_insert.tmpl.lua:63-94 | on every table, full ones included, the in-place loop leaves what the limited walk gives, status -1 when the limit is hit |
| Hmap.Map.Insert | lua/hmap_insert.tmpl.lua:20-98 | takes an insert step with status 0 whenever a bucket is empty; on any table an absent key is never reported updated and no more than one record is lost |
| Hmap.Map.Resize | lua/hmap_resize.tmpl.lua:16-54 | returns 0 exactly for sizes in range and at least 85% of the item count; then it keeps map and count if the size is at least the item count, and otherwise keeps as many of the records as there are buckets |
| Hmap.Map.Put | lua/hmap_put.tmpl.lua:26-54 | valid again with status 0; an absent key gets the value, a present one merge(stored, value), no other key changes; flag and old value tell what was there; size grows exactly above 17/20 |
| Hmap.Map.Del | lua/hmap_del.tmpl.lua:19-99 | valid again with status 0; the key and nothing else is gone, found and value tell what was there; the size is halved exactly below 2/5 and above the minimum |
| Hmap.Map.SwapBack | lua/hmap_del.tmpl.lua:64-85 | swapping leaves the same table as the shift function, and the limit on moves is never reached |
| Merges.RunKeepsLast | lua/libgen.lua:91-92 | under set, in every state of every run a present key holds the last value put |
| Merges.RunSums | lua/libgen.lua:93-94 | under sum, it holds the sum of the values put since it was last absent |
| Merges.RunCounts | lua/libgen.lua:95-96 | under cnt, it holds its first value plus the number of puts after it |
| Merges.RunKeepsLeast | lua/libgen.lua:97-98 | under min, it holds one of the values put since it was last absent, and none is smaller |
| Merges.RunKeepsGreatest | lua/libgen.lua:99-100 | under max, it holds one of the values put since it was last absent, and none is greater |
| ParallelPhase.WritersAreDisjoint | src/hmap_mk_tid.c:14-23 | in any interleaving, two writes to one bucket, at whatever steps of the phase, are by the same thread |
| ParallelPhase.OnlyWritesChange | V1/src/q_rhashmap.tmpl.c:580-621 | steps that are not writes leave the buckets alone, and a write changes one value and no key or psl |
| ParallelPhase.ZeroKeyBatchIff | V1/src/q_rhashmap.tmpl.c:541-548 | after every completed interleaving the found flags are right if and only if key 0 is not in the batch or its probe stops at a richer bucket, and the table is well formed if and only if that holds or the updates of key 0 fold 0 to 0 |
| ParallelPhase.ZeroKeyBatchFails | V1/src/q_rhashmap.tmpl.c:599-607 | a batch and an interleaving on a new table after which key 0 is reported found and its value sits in an empty bucket |
| ParallelPhase.StepKeepsInv | V1/src/q_rhashmap.tmpl.c:576-622 | every atomic step of every thread keeps: no key, psl or count changed, each value the fold of the updates its one thread finished, found flags as of the table at entry |
| ParallelPhase.StepUsesWork | V1/src/q_rhashmap.tmpl.c:580-621 | every step uses up a finite amount of work |
| ParallelPhase.EveryInterleaving | V1/src/q_rhashmap.tmpl.c:576-622 | every interleaving is finite, and once all threads are done present keys hold the in-order fold of the batch's updates, each found flag tells whether the key's probe finds it, and some new flag is set exactly when some found flag is not |
| Batch.MkHash | V1/src/q_rhashmap_mk_hash.tmpl.c:16-18 | each hash is that of its key under the seed |
| Batch.MkLoc | src/hmap_mk_loc.c:12-28 | each location is the hash modulo the size |
| Batch.MkTid | src/hmap_mk_tid.c:27-44 | each thread id is the hash modulo the number of threads, in 8 bits |
| Batch.PreparationSuffices | src/hmap_mk_tid.c:14-23 | locations and thread ids so computed from current seed and size are what putn needs |
| Batch.BatchKey | V1/src/q_rhashmap.tmpl.c:541-548 | key by key, updating present keys first and putting the others later agrees with putting all in order |
| Batch.BatchIsSequential | V1/src/q_rhashmap.tmpl.c:541-548 | the two-phase map equals the map of the puts in index order, duplicates included |
| Batch.OneStep | V1/src/q_rhashmap.tmpl.c:580-621 | one turn of a thread on the shared arrays is one step of the transition system |
| Batch.ParallelUpdate | V1/src/q_rhashmap.tmpl.c:576-622 | the parallel section ends and leaves the outcome, for every choice of which thread moves |
| Batch.PutMissing | V1/src/q_rhashmap.tmpl.c:632-649 | puts exactly the keys not flagged as found, in order, through resizes, with status 0, and counts them |
| Batch.PutN | V1/src/q_rhashmap.tmpl.c:549-654 | for set and add: status 0, the map of the puts in index order; exactly the real keys of the batch join, others keep their values; set leaves the value at a key's last occurrence, add gives a key that occurs once add(stored, value), or the value if it was absent; the flag of a real key tells whether it was there, and all flags are right exactly when key 0 is not in the batch or its probe stops at a richer bucket. Any other code changes nothing and returns -1 |
| Batch.PutsAddUp | V1/src/q_rhashmap.tmpl.c:602-605 | with plain addition each key gains exactly the sum of the values given for it in the batch, duplicates included |
| HmapBatch.BlocksPartition | lua/hmap_getn.tmpl.lua:31-38 | every key index is in exactly one thread's block |
| HmapBatch.GetN | lua/hmap_getn.tmpl.lua:18-64 | in whatever order the threads run, every answer is the one get gives: a real key is found exactly when in the map, with its value |
| HmapBatch.ChkNoHoles | lua/hmap_chk_no_holes.tmpl.lua:37-84 | on any table, returns 0 exactly when the count, as a signed 32-bit number, is at most one, or is right and every occupied bucket but the first has a full probe path; a wrong count from 2 up to 2^31 - 1 gives -1 |
| HmapBatch.CheckerAcceptsReachable | lua/hmap_chk_no_holes.tmpl.lua:63-80 | the checker returns 0 in every state between calls, wrapped probe paths included |
| HmapBatch.CheckerIsExactIff | lua/hmap_chk_no_holes.tmpl.lua:45-63 | on correctly labelled tables of fewer than 2^31 items there is no hole exactly when the checker passes and the first occupied bucket's path is full; with more it always passes |
| HmapBatch.CheckerMissesHole | lua/hmap_chk_no_holes.tmpl.lua:63 | a concrete table with a hole that the checker accepts |
| RhashmapPolicy.ThresholdIsRightIff | V1/src/rhashmap.c:36 | the put threshold is 870/1024 of the size exactly up to 4936744 buckets, and never more |
| RhashmapPolicy.LowThresholdIsRightIff | V1/src/rhashmap.c:37 | the del threshold is 409/1024 of the size exactly up to 10501142 buckets, and never more |
| RhashmapPolicy.PolicyInNumbers | V1/src/rhashmap.c:271-286 | up to 4936744 buckets put grows exactly above 870/1024 of the size, to twice it or by 2^20, and del shrinks exactly above the minimum and below 409/1024, to half or the minimum |
| RhashmapPolicy.PutKeepsFill | V1/src/rhashmap.c:271-286 | up to 4936744 buckets put keeps the fill at 409/1024 of the size or the size near the minimum |
| RhashmapPolicy.DelKeepsFill | V1/src/rhashmap.c:365-372 | likewise del |
| RhashmapPolicy.PutKeepsLoad | V1/src/rhashmap.c:271-286 | put leaves a free bucket for the record it adds and asks resize for more buckets than there are items |
| RhashmapPolicy.DelKeepsLoad | V1/src/rhashmap.c:365-372 | del keeps the load bound and, when it shrinks, halves |
| RhashmapPolicy.AlwaysGrowsIff | V1/src/rhashmap.c:276-286 | put grows the table at every possible size exactly from 4194304 items on |
| RhashmapPolicy.SizeRunsAway | V1/src/rhashmap.c:276-286 | from there k puts of new keys add k * 2^20 buckets |
| Murmur.Murmurhash3 | src/murmurhash.c:17-97 | the loops compute the hash function for any length |
| Murmur.OneBlockDecides | src/murmurhash.c:30-87 | for every length and seed, two keys of one length that differ in exactly one block, an aligned word or the one to three bytes at the end, have different hashes |
| Murmur.SeedDecides | src/murmurhash.c:28-94 | for every key of any length, different seeds give different hashes |
| Murmur.LengthIs | src/murmurhash.c:89 | the length enters the final mix modulo 2^32 |
| Murmur.HashOfHelloWorld | src/murmurhash.c:17-97 | the published MurmurHash3_x86_32 result for "hello world", two words and a three-byte tail, seed 0 |
| Murmur.HashOfGreeting | src/murmurhash.c:17-97 | the published result for "Hello, world!", three words and a one-byte tail, seed 0x9747b28c |
| Murmur.HashOfShortKeys | src/murmurhash.c:17-97 | the published results for the bytes 21 43 under seed 0 and for no bytes under seed 1 |
| Murmur.RoundInverse | src/murmurhash.c:31-43 | one round of the block loop can be undone, in both directions |
| Murmur.FinishInverse | src/murmurhash.c:89-94 | the final mix can be undone |
| Murmur.UnfinishInverse | src/murmurhash.c:89-94 | every 32-bit value is the final mix of some state |
| Murmur.HashIsBijectiveOnFourBytes | src/murmurhash.c:17-97 | for every seed, hashing is a bijection between 4-byte keys and 32-bit hashes, with an explicit inverse |
| Murmur.HashIsInjectiveOnFourBytes | src/murmurhash.c:17-97 | two different 4-byte keys never have the same hash |

## Left out

- Batch.PutN: says nothing of batches whose key 0 leaves a value in an empty bucket (the exact condition is `ParallelPhase.ZeroKeyBatchIff`); what sequential puts do on a table so spoilt is not modelled.
- Hmap.Map.Resize: does not say which of the records are kept, or what psl they get, when the new size is below the item count, only how many.
- V1/src/rhashmap.c beyond its resize policy: byte-string keys, their copying and freeing, and the 16-bit length field. Its loops are those of `QRhashmap` with the merge that keeps the stored value.
- V1/src/q_rhashmap.tmpl.c:164-207 (the older getn, which has no found flags), q_rhashmap_add, and the second copies of division, hash and size computation.
- lua/hmap_putn.tmpl.lua: its update section for found keys is empty, so it is not the algorithm of putn.
- Records with several values, each with its own merge: a value is one number; as the merges act value by value, each value of a record behaves as the model says for its own merge.
- The per-key count field: insert zeroes it for whichever record lands in the empty bucket, and resize drops it.
- The psl field is a natural number in the classes; `PslWidth` says up to how many items the 16-bit field behaves the same.
- Probe-count diagnostics, debug-only hash comparison, allocation failure, freeing, printing.
- Threads: OpenMP itself, and memory effects weaker than interleaving of the steps described. The chunked parallel loops that only fill distinct array cells are modelled as plain loops.
- The sort in the hole checker: the records are collected in strictly increasing location, which is a stated invariant, so sorting by location changes nothing.
- Rounding of the floating-point marks: 0.85 and 0.4 are taken as 17/20 and 2/5. V1/src/q_rhashmap.tmpl.c:83 rounds the size to single precision first, which differs above 2^24 buckets; the policy modelled is the one in src/calc_new_size.c.
- halfsiphash, and any claim about how well hashes spread.
- Alignment: both reading loops of the hash read the same little-endian word and are modelled as one.
