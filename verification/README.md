# Verification of the containers

This project models five containers of mulle-container and proves that they do
what they are for. It is written in Dafny; `dafny verify dfyconfig.toml` checks
all of it.

* **Pointer map** (`ProbeTable`, `TableContents`, `MapModel`, `ProbeStorage`,
  `MapItems`, `PointerMap`, `Collisions`). The open-addressing table: linear
  probing over a power-of-two number of slots, growth, shrinking, deletion by
  backward shift. Its invariant is that no hole lies between the home slot of a
  key and the slot that the key is in, that keys are unique under `is_equal`, and
  that there always is a hole. The class `PointerMap` refines a mathematical map
  over every run, and what the retain callbacks have acquired and the release
  callbacks have not returned is exactly what is stored.
* **Range set** (`Ranges`, `RangeSetModel`, `RangeCuts`, `RangeSet`). A sorted array of ranges
  that stands for a set of points. Insert is union, remove is difference, the
  searches are predecessor, successor and membership.
* **Pointer queue** (`QueueModel`, `PointerQueue`). A chain of buckets with a chain
  of spares. It is first in, first out over every run, and every bucket that was
  ever allocated is in one of the two chains or has been freed once.
* **Range map** (`RangeMapModel`, `RangeMap`). Ranges and values in the two parts
  of one buffer of words that is laid out anew when it grows.
* **Associative array** (`AssocModel`, `Assoc`). Pairs that are sorted when their
  order is needed; the sorting is invisible over every run in which no search meets
  more pairs than it can handle.
* **Bit tricks** (`BitMath`). Rounding to powers of two and masks, for 32 and 64
  bit words, with the bit operators defined bit by bit.

`Pointers` and `Sequences` hold what several of them use.

The classes have the fields that the C structures have and change them in place.
A method is proved against a function of the old state (`WriteMap`, `Inserted`,
`StepQueue`, ...), and what that function means is proved beside it; what a caller
sees is also stated directly, in terms of the keys, ranges, points or elements. Ghost fields
hold what the C code does not write down: the references that are held, the calls
of the retain and release callbacks, the buckets of the two chains, the buckets that
were allocated and freed.

Callbacks are parameters. The hash and the classes of equal keys are functions in
`KeyCallback`; the key order is a rank in `KeyOrder`. What a retain callback
returns is an argument of each call that retains, equal to the key it was given.
The helper that validates a range against a length is a parameter too (`Validates`).
Every call on one container is made with the same callbacks.

## Where code and documentation differ

* The README of the library (lines 208-210) and the header of the range set (lines
  50-53) promise that no two ranges are adjacent. An insert that overlaps a range
  and merely touches another one leaves them adjacent:
  `InsertCanLeaveTouchingRanges` has the input. `InsertSeparatedIff` says exactly
  when the promise is kept: the new range overlaps nothing, or touches nothing.
  What every operation does keep is sorted, disjoint and not empty.
* The header of the range set (lines 362-367) says that a range found with `<` lies
  before the location, one found with `>` behind it, and one found with `>=` at or
  behind it. The code also returns a range that straddles the location:
  `RangeForCanStraddle` has an input for each of the three. `RangeForAsDocumentedIff`
  says exactly when a range that is found is as documented: no stored range straddles
  the location. `SearchRange` ensures the same.
* `dox/API_MAP.md` (lines 59-60) says that a map is initialized to hold as many
  pairs as its capacity. For a capacity of 13 the table is full with 12
  (`CapacityCanBeShort`). `CapacityFitsIff` says for which capacities there is room,
  and `Fill` that these are exactly the ones with which as many pairs as the capacity
  says can be written into a new map without growth.
* `dox/API_MAP.md` (lines 16 and 241-248) says that an update returns the old value of
  a key that is there, and otherwise does nothing and returns NULL. The code inserts an
  absent key, and writing a pair that is stored already returns NULL:
  `UpdateCanBreakPromise` has the inputs. `UpdateAsDocumentedIff` says exactly when an
  update is as documented: the key is there, and not with this very pair unless its
  value is NULL. `Write` ensures the same.
* In `_mulle__rangeset_grow` the branch for the minimum size is never taken, since
  rounding up 0 gives 1; the first growth of an empty set makes room for one range.
* The comment at `src/rangemap/mulle--rangemap.c:235-237` describes a search for
  intersections that goes by location only. `_mulle__rangemap_insert` is correct
  only with a search that finds any intersecting range (`HoleInsertIff`), and that
  is what the model's search does.

## Model

| member | source | states |
|---|---|---|
| BitMath.IsPow2Exact | src/mulle-container-math.h:53-56 | the test holds for 0 and for powers of two, and for no other number, at any width |
| BitMath.Pow2RoundUp | src/mulle-container-math.h:59-88 | up to half the word range the least power of two not below `v`, and 1 for 0; above that the sum wraps and the result is 1 |
| BitMath.Pow2RoundDown | src/mulle-container-math.h:101-131 | the greatest power of two not above `v`, and 0 for 0 |
| BitMath.RoundUpIsLeast | src/mulle-container-math.h:59-97 | the closed form of rounding up is the least power of two that is not below its argument |
| BitMath.SmearWord | src/mulle-container-math.h:61-88 | after the shifts all bits below the top bit are set |
| BitMath.MaskIsModulo | src/map/pointer/mulle--pointermap-struct.h:102-113 | and-ing with a power of two minus one is the remainder |
| BitMath.MaskStep | src/map/pointer/mulle--pointermap-generic.c:105-110 | stepping with the mask and stepping with a comparison are the same cyclic step |
| ProbeTable.HomeIsEven | src/map/pointer/mulle--pointermap-struct.h:102-113 | the home slot is the remainder of the hash by the size, with an odd one made even |
| ProbeTable.MissIsAbsence | src/map/pointer/mulle--pointermap-generic.c:184-239 | in a table that keeps the invariant, a probe that runs into a hole proves that no equal key is stored anywhere |
| ProbeTable.PlaceKeepsTable | src/map/pointer/mulle--pointermap-generic.c:92-113 | storing an absent key in the first hole of its probe path keeps the invariant |
| ProbeTable.ReplaceKeepsTable | src/map/pointer/mulle--pointermap-generic.c:281-320 | overwriting a key by an equal one keeps the invariant |
| ProbeTable.StaysIffGapOffPath | src/map/pointer/mulle--pointermap-generic.c:640-740 | the case analysis with wrap-around leaves an entry where it is exactly when the gap is not on its cyclic probe path |
| ProbeTable.ShiftStart | src/map/pointer/mulle--pointermap-generic.c:595-640 | after taking an entry out, its slot is the only hole on any probe path |
| ProbeTable.ShiftStay | src/map/pointer/mulle--pointermap-generic.c:640-740 | an entry that stays is reachable although the gap remains |
| ProbeTable.ShiftMove | src/map/pointer/mulle--pointermap-generic.c:640-740 | moving an entry into the gap makes its old slot the only hole on any probe path, for every layout |
| ProbeTable.ShiftEnd | src/map/pointer/mulle--pointermap-generic.c:640-755 | once the scan meets a hole the whole invariant holds again |
| TableContents.EntriesCount | src/map/pointer/mulle--pointermap-struct.h:167-174 | the number of keys in the map is the number of occupied slots |
| TableContents.MoveHolds | src/map/pointer/mulle--pointermap-generic.c:640-755 | moving an entry changes neither the map nor the references held |
| ProbeStorage.AllocateStorage | src/map/pointer/mulle--pointermap-generic.c:47-70 | all key slots are holes, with NULL and with any other marker |
| ProbeStorage.StoreKeyValue | src/map/pointer/mulle--pointermap-generic.c:92-113 | the pair goes to the first hole at or after the start, cyclically, and nothing else changes |
| ProbeStorage.FindIndex | src/map/pointer/mulle--pointermap-generic.c:184-239 | ends at an equal key, or at a hole, after comparing everything before it in vain; the failed comparisons are the cyclic distance from the home slot, and those that the collision count adds up |
| ProbeStorage.FindByHash | src/map/pointer/mulle--pointermap-generic.c:351-395 | the same for the probe of the lookups, which tries pointer equality first |
| ProbeStorage.CopyStorage | src/map/pointer/mulle--pointermap-generic.c:120-151 | rehashing into any table with room stores exactly the same pairs and keeps the invariant |
| ProbeStorage.ShiftBack | src/map/pointer/mulle--pointermap-generic.c:595-755 | closing the gap ends, restores the invariant and leaves exactly the remaining pairs |
| MapModel.StepIsPerKey | src/map/pointer/mulle--pointermap-generic.c:247-343 | an operation changes the entry of its own key as specified and no other entry |
| MapModel.RunIsPerKey | src/map/pointer/mulle--pointermap-generic.c:247-343 | over every run, what is stored for a key is determined by the operations on that key |
| MapModel.LastWriteWins | src/map/pointer/mulle--pointermap-generic.c:247-343 | a lookup after any run gives the value last written, where inserts of a key that is stored do not count |
| MapModel.RemovedStaysAway | src/map/pointer/mulle--pointermap-generic.c:595-755 | after a removal of the key or a reset no stored key is equal and a lookup gives NULL, until the key is written |
| MapModel.UntouchedStays | src/map/pointer/mulle--pointermap-generic.c:247-343 | a key that no operation of a run concerns keeps its stored key and value |
| MapModel.LookupIs | src/map/pointer/mulle--pointermap-generic.c:547-592 | NULL for the marker and for a key that no stored key equals, else the value under the stored key that does |
| MapModel.WriteAbsent | src/map/pointer/mulle--pointermap-generic.c:322-342 | a key that no stored key equals: in every mode the pair is retained and added, and the result is NULL |
| MapModel.WritePresent | src/map/pointer/mulle--pointermap-generic.c:281-320 | a key that the stored key `s` equals: what each mode makes of the map, the result and the callbacks called |
| MapModel.RemoveIs | src/map/pointer/mulle--pointermap-generic.c:595-755 | the stored key that equals the key goes, and without one the map stays |
| MapModel.ReleasesAre | src/map/mulle--map.c:99-119 | one release for each pair, in their order |
| MapModel.WriteMapCases | src/map/pointer/mulle--pointermap-generic.c:281-342 | insert keeps a present entry, overwrite and update replace key and value, an identical pair changes nothing |
| MapModel.UpdateAsDocumentedIff | src/map/pointer/mulle--pointermap-generic.c:281-342 | an update returns the old value, or leaves a map without the key alone, if and only if the key is there and the very pair is not stored with a value |
| MapModel.UpdateCanBreakPromise | src/map/pointer/mulle--pointermap-generic.c:289-290 | the inputs on which it does not: any pair with a value written into an empty map, and written again |
| PointerMaps.PointerMap.constructor | src/map/mulle--map.c:51-72 | an empty map that holds no references; no slots for no capacity, four below four, else the least power of two not below the capacity and a quarter of it |
| PointerMaps.CapacityFitsIff | src/map/mulle--map.c:60-67 | the initial table has room for as many pairs as the capacity says if and only if they fill at most three quarters of the next power of two, or a quarter more of them exceeds it, or there are fewer than four |
| PointerMaps.CapacityCanBeShort | src/map/mulle--map.c:60-67 | a capacity of 13 is the input on which it does not: 16 slots, full with 12 pairs |
| PointerMaps.Fill | src/map/mulle--map.c:51-72 | a new map takes pairs with different keys without growing exactly as long as they are not more than its limit; for as many as the capacity says, exactly under the condition of CapacityFitsIff |
| PointerMaps.PointerMap.Rehash | src/map/pointer/mulle--pointermap-generic.c:120-151 | a new storage with room has the same map and the same references |
| PointerMaps.PointerMap.Resize | src/map/pointer/mulle--pointermap-generic.c:154-181 | another table size, the same map, the same references held |
| PointerMaps.PointerMap.Grow | src/map/pointer/mulle--pointermap-generic.c:154-181 | doubles the table; it is not full afterwards and the map is the same |
| PointerMaps.PointerMap.Shrink | src/map/pointer/mulle--pointermap-generic.c:759-793 | halves the table while it stays sparse, never below the initial size; it has room afterwards and the map is the same |
| PointerMaps.PointerMap.ShrinkIfNeeded | src/map/mulle--map.h:588-597 | afterwards the table is not sparse or has the initial size |
| PointerMaps.PointerMap.Write | src/map/pointer/mulle--pointermap-generic.c:247-343 | without an equal key the pair is added and NULL returned, with one the mode decides on the map, the result and the retain and release calls, all in terms of the stored keys; the table grows exactly when an absent key meets a full table; an update is as documented exactly under the condition of UpdateAsDocumentedIff |
| PointerMaps.PointerMap.WriteFound | src/map/pointer/mulle--pointermap-generic.c:281-320 | replaces the pair: the new one is retained first and only then the old one released; an identical pair is left alone, no callback is called, and NULL is returned |
| PointerMaps.PointerMap.InsertPair | src/map/pointer/mulle--pointermap-generic.h:343-362 | true exactly when no stored key is equal, told by the count; a present entry is not changed |
| PointerMaps.PointerMap.Remove | src/map/pointer/mulle--pointermap-generic.c:595-755 | the map without the stored key that is equal, exactly that pair released; without one nothing happens; the result tells which |
| PointerMaps.PointerMap.GetHashed | src/map/pointer/mulle--pointermap-generic.c:351-395 | the value under the stored key that is equal, and NULL when no stored key is |
| PointerMaps.PointerMap.GetPair | src/map/pointer/mulle--pointermap-generic.c:412-495 | the stored key and value; nothing for the marker, and exactly when no stored key is equal |
| PointerMaps.PointerMap.PointerEqualitySearch | src/map/pointer/mulle--pointermap-generic.c:527-545 | the value stored under this very pointer, or NULL |
| PointerMaps.PointerMap.Get | src/map/pointer/mulle--pointermap-generic.c:547-592 | with the scan of small tables in front, still the value under the stored key that is equal, NULL when none is and for the marker; also when NULL is the value |
| PointerMaps.PointerMap.AllPairs | src/map/pointer/mulle--pointermap-struct.h:347-461 | enumerating a map yields each of its pairs exactly once |
| PointerMaps.PointerMap.ReleaseAll | src/map/mulle--map.c:99-119 | callbacks that release get every stored pair once, in slot order; no reference is held any more |
| PointerMaps.PointerMap.Reset | src/map/mulle--map.c:143-165 | every stored pair is released once; an empty map in the state after an init without capacity, or a map that was empty left alone; no references held |
| PointerMaps.Perform | src/map/pointer/mulle--pointermap-generic.c:247-343 | every run refines the mathematical map, per key and as a whole, and each operation answers as that map does at the time: a lookup the value under the stored key that is equal, or NULL; the keys held are those stored, the count is their number, and what is held and what the calls have released make up what they have retained |
| MapItems.ItemsAreEntries | src/map/pointer/mulle--pointermap-struct.h:347-461 | the pairs in slot order are those of the map, with different keys |
| MapItems.ItemsInOrder | src/map/pointer/mulle--pointermap-struct.h:347-461 | the pairs come in the order of their slots, all of them behind the slot that the enumeration starts at |
| MapItems.MapEnumerator.Next | src/map/mulle--maptinyenumerator.h:82-141 | yields the next pending pair and never reads beyond the keys, although only the count bounds the scan |
| MapItems.Drain | src/map/mulle--maptinyenumerator.h:82-141 | enumerating yields the pending pairs once, in order, and then stays at the end |
| Collisions.ProbeMisses | src/map/pointer/mulle--pointermap-generic.c:351-395 | a probe that ends at an equal key or a hole has failed once for each step |
| Collisions.StoredMisses | src/map/pointer/mulle--pointermap-generic.c:351-395 | looking up a stored key fails as many comparisons as its slot is away from its home, cyclically |
| Collisions.PassedInVain | src/map/pointer/mulle--pointermap-generic.c:351-395 | a slot that the probe for a stored key passes before it comes to the key holds another, unequal key |
| Collisions.CountCollisions | src/map/pointer/mulle--pointermap-generic.c:817-861 | the number of pairs of a stored key and a slot that its probe passes before it comes to the key, which is the sum of the failed comparisons of looking up every key once; and the number of keys that are in their home slot |
| Ranges.IntersectsBsearch | src/rangeset/mulle--rangeset.c:176-188 | the contract that the containers rely on: some range that meets the query, or none if there is none |
| Ranges.HoleBsearch | src/rangeset/mulle--rangeset.c:235-296 | the contract that the containers rely on: the position that keeps the array sorted |
| Ranges.MeetingSlice | src/rangeset/mulle--rangeset.c:299-391 | the ranges that meet a query are a slice between two positions |
| RangeSetModel.InsertAbsentSpec | src/rangeset/mulle--rangeset.c:235-296 | inserting a range that meets no other is union and keeps the array sorted, disjoint and not empty |
| RangeSetModel.MergeSpec | src/rangeset/mulle--rangeset.c:299-391 | replacing all ranges that meet the new one by one range that spans them is union and keeps the invariant |
| RangeSetModel.InsertSpec | src/rangeset/mulle--rangeset.c:299-391 | insert is union for every argument, with nothing added for an invalid range |
| RangeSetModel.InsertAbsentSeparated | src/rangeset/mulle--rangeset.c:235-296 | inserting a range that meets no other keeps ranges from touching |
| RangeSetModel.InsertSeparatedIff | src/rangeset/mulle--rangeset.h:50-53 | the promise that no two ranges are adjacent survives an insert if and only if the new range overlaps nothing or touches nothing |
| RangeSetModel.InsertCanLeaveTouchingRanges | src/rangeset/mulle--rangeset.c:343-370 | the input on which the promise fails |
| RangeSetModel.Canonical | src/rangeset/mulle--rangeset.h:46-53 | arrays without touching ranges that stand for the same points are the same |
| RangeSetModel.NearestDecides | src/rangeset/mulle--rangeset.c:641-697 | the nearest range and one of its neighbours decide every search |
| RangeSetModel.RangeForDecides | src/rangeset/mulle--rangeset.c:598-638 | what the selected range says about all points on the side of the search |
| RangeSetModel.RangeForIs | src/rangeset/mulle--rangeset.c:641-697 | a stored range that has the location, else the last that begins before it or the first that ends behind it; invalid exactly when there is none |
| RangeSetModel.ClosestIs | src/rangeset/mulle--rangeset.c:598-638 | in terms of points: the location itself when it is asked for and a member, else the greatest member below or the least above; not-found exactly when there is none |
| RangeSetModel.DistanceIsLeast | src/rangeset/mulle--rangeset.c:575-576 | the distance of a location and a range is the least of its distances to the points of the range |
| RangeSetModel.MemberAfterRun | src/rangeset/mulle--rangeset.c:299-463 | after any run a point is a member when the last operation that concerns it inserted it, and none when that removed it or was a reset |
| RangeSetModel.RangeForAsDocumentedIff | src/rangeset/mulle--rangeset.c:641-697 | a range that is found lies before, behind or around the location as the header says, if and only if no stored range straddles the location |
| RangeSetModel.RangeForCanStraddle | src/rangeset/mulle--rangeset.c:641-697 | the inputs on which it does not, for less, greater and greater or equal |
| RangeSetModel.SeparatedIffTidy | src/rangeset/mulle--rangeset.h:50-53 | the same condition, in both directions, in terms of points only |
| RangeCuts.CutSpec | src/rangeset/mulle--rangeset.c:411-460 | a single cut takes away exactly the points in common with the range at hand and keeps the array sorted, disjoint and not empty |
| RangeCuts.CutKeepsRemoved | src/rangeset/mulle--rangeset.c:394-463 | whichever intersecting range is cut first, what the removal finally leaves is the same |
| RangeCuts.RemovedSpec | src/rangeset/mulle--rangeset.c:394-463 | replacing the ranges that meet the removed one by what is left of the first and the last is difference, and ranges that did not touch do not touch |
| RangeCuts.RemoveUndoesInsert | src/rangeset/mulle--rangeset.c:394-463 | inserting a disjoint range and removing it again restores the very same array |
| RangeSets.RangeSet.constructor | src/rangeset/mulle--rangeset.h:83-94 | an empty set with the capacity asked for and no storage of the caller |
| RangeSets.RangeSet.WithStorage | src/rangeset/mulle--rangeset.h:97-106 | an empty set over the storage of the caller, recorded as such, with its size as capacity |
| RangeSets.RangeSet.Grow | src/rangeset/mulle--rangeset.c:83-108 | the size at least doubles to a power of two, the caller's storage is left, the contents stay |
| RangeSets.RangeSet.Reserve | src/rangeset/mulle--rangeset.c:111-122 | afterwards there is room, and the contents are the same |
| RangeSets.RangeSet.Shrink | src/rangeset/mulle--rangeset.c:125-149 | halves the buffer until another half would be too small for the ranges or not above the minimum; the storage of the caller is left alone; no range is cut off |
| RangeSets.RangeSet.MoveDown | src/rangeset/mulle--rangeset.c:193-205 | takes one range out and closes the gap |
| RangeSets.RangeSet.MoveUp | src/rangeset/mulle--rangeset.c:217-232 | puts one range in, growing if need be |
| RangeSets.RangeSet.InsertKnownAbsent | src/rangeset/mulle--rangeset.c:235-296 | one neighbour, both or none absorb the range, as specified |
| RangeSets.RangeSet.Insert | src/rangeset/mulle--rangeset.c:299-391 | exactly the merged array and exactly the union of the points, whichever intersecting range the search returns; both loops end |
| RangeSets.RangeSet.SwallowDown | src/rangeset/mulle--rangeset.c:335-361 | the backward loop merges exactly the ranges that meet the new one before the found one |
| RangeSets.RangeSet.SwallowUp | src/rangeset/mulle--rangeset.c:363-385 | the forward loop merges exactly those after it |
| RangeSets.RangeSet.CutAt | src/rangeset/mulle--rangeset.c:411-460 | deletes, splits or trims the found range, in place |
| RangeSets.RangeSet.Remove | src/rangeset/mulle--rangeset.c:394-463 | exactly the array with the ranges that meet the removed one replaced by what is left of the first and the last, whichever range the search returns, and exactly the difference of the points; the loop ends because the common points get fewer |
| RangeSets.RangeSet.InsertRanges | src/rangeset/mulle--rangeset.c:466-484 | afterwards a point is a member exactly when it was one or a valid range of the list has it |
| RangeSets.RangeSet.RemoveRanges | src/rangeset/mulle--rangeset.c:487-505 | afterwards a point is a member exactly when it was one and no valid range of the list has it; the buffer is shrunk in the end |
| RangeSets.RangeSet.Reset | src/rangeset/mulle--rangeset.c:152-157 | an empty set with the buffer shrunk, or the storage of the caller |
| RangeSets.RangeSet.Intersects | src/rangeset/mulle--rangeset.c:176-188 | true exactly when set and range have a point in common |
| RangeSets.RangeSet.SumLengths | src/rangeset/mulle--rangeset.h:184-196 | the number of points |
| RangeSets.RangeSet.NearestIndex | src/rangeset/mulle--rangeset.c:550-594 | a range with the least distance to the location, the later of two, or none exactly when the set is empty |
| RangeSets.RangeSet.SearchExact | src/rangeset/mulle--rangeset.c:534-547 | the range that has the location, or the invalid range exactly when the location is no member |
| RangeSets.RangeSet.SearchRange | src/rangeset/mulle--rangeset.c:641-697 | a stored range: one that has the location when equal is asked for and there is one, else the last that begins before it, or the first that ends behind it, invalid exactly when there is none; it is as the header says exactly when no range straddles the location |
| RangeSets.RangeSet.SearchLocation | src/rangeset/mulle--rangeset.c:598-638 | the location itself when equal is asked for and it is a member, else the greatest member below or the least above, or not-found exactly when there is none |
| RangeSets.Perform | src/rangeset/mulle--rangeset.c:299-463 | every run computes the set that its operations describe; runs whose inserts are tidy keep ranges from touching, and then the array is determined by the points |
| QueueModel.FirstInFirstOut | src/queue/mulle--pointerqueue.c:199-233 | without resets the answers are a prefix of what was pending and pushed, in order, and the rest is still pending |
| QueueModel.PushLast | src/queue/mulle--pointerqueue.h:182-198 | writing at the write position of the last bucket appends to what is pending |
| QueueModel.GrowLast | src/queue/mulle--pointerqueue.c:86-110 | an empty bucket behind a full one changes nothing pending |
| QueueModel.DropFirst | src/queue/mulle--pointerqueue.c:112-144 | dropping a bucket that is read to its end changes nothing pending |
| PointerQueues.PointerQueue.constructor | src/queue/mulle--pointerqueue.h:123-145 | an empty queue whose first push and pop find both indices at the end of a bucket |
| PointerQueues.PointerQueue.NewBucket | src/queue/mulle--pointerqueue.c:41-66 | the first spare bucket if there is one, else a new one; spares and allowance add up as before |
| PointerQueues.PointerQueue.FreeBucket | src/queue/mulle--pointerqueue.c:69-83 | with allowance left the bucket becomes the first spare, else it is freed, never twice |
| PointerQueues.PointerQueue.Grow | src/queue/mulle--pointerqueue.c:86-110 | the chain gets one bucket; what is pending stays |
| PointerQueues.PointerQueue.Shrink | src/queue/mulle--pointerqueue.c:112-144 | the bucket that has been read leaves the chain; what is pending stays |
| PointerQueues.PointerQueue.Push | src/queue/mulle--pointerqueue.h:182-198 | appends the element |
| PointerQueues.PointerQueue.PopNoShrink | src/queue/mulle--pointerqueue.c:199-222 | takes the oldest element, or returns NULL |
| PointerQueues.PointerQueue.Pop | src/queue/mulle--pointerqueue.c:226-233 | takes out and returns the oldest element, or returns NULL exactly when the queue is empty |
| PointerQueues.PointerQueue.Reset | src/queue/mulle--pointerqueue.c:236-266 | an empty queue and an empty chain; as many of its buckets as the allowance permits are put on the spares, first to last, and exactly the others are freed |
| PointerQueues.PointerQueue.FreeChain | src/queue/mulle--pointerqueue.c:147-157 | frees each bucket of a chain once |
| PointerQueues.PointerQueue.Done | src/queue/mulle--pointerqueue.c:270-281 | every bucket that was ever allocated has been freed |
| PointerQueues.QueueEnumerator.constructor | src/queue/mulle--pointerqueue.h:279-291 | what lies ahead is what is pending; nothing for a missing queue |
| PointerQueues.QueueEnumerator.Next | src/queue/mulle--pointerqueue.h:308-335 | yields the next pending element |
| PointerQueues.QueueEnumerator.NextBucket | src/queue/mulle--pointerqueue.c:160-183 | goes on in the next bucket, or stays at the end |
| PointerQueues.Drain | src/queue/mulle--pointerqueue.h:308-335 | enumerating yields the pending elements in order and then stays at the end |
| PointerQueues.Perform | src/queue/mulle--pointerqueue.c:199-266 | every run is a run of a sequence; spares plus allowance are constant; both chains and the freed buckets are disjoint and are all that was ever allocated |
| RangeMapModel.InsertPair | src/rangemap/mulle--rangemap.c:113-164 | inserting at the same index in both parts adds one pair and keeps all others paired |
| RangeMapModel.RemovePair | src/rangemap/mulle--rangemap.c:167-209 | removing at the same index takes out one pair and keeps all others paired |
| RangeMapModel.SelectedSlice | src/rangemap/mulle--rangemap.c:212-267 | the pairs that meet a query are a slice |
| RangeMapModel.SelectedAre | src/rangemap/mulle--rangemap.c:212-267 | the pairs selected are stored, and their ranges are all that meet the query, in order |
| RangeMaps.FoundAre | src/rangemap/mulle--rangemap.c:212-267 | a query finds each stored range that meets it once, in order, with its own value, and nothing for an invalid one |
| RangeMapModel.InsertedStays | src/rangemap/mulle--rangemap.c:113-164 | over any run a range maps to the value it was inserted with until it is removed or the map reset |
| RangeMapModel.RemovedIsGone | src/rangemap/mulle--rangemap.c:167-209 | over any run a removed range is gone until it is inserted again |
| RangeMaps.HoleInsertIff | src/rangemap/mulle--rangemap.c:113-164 | putting a range into its hole keeps the order exactly when it meets no other range |
| RangeMaps.RangeMap.constructor | src/rangemap/mulle--rangemap.c:42-56 | an empty map |
| RangeMaps.RangeMap.Grow | src/rangemap/mulle--rangemap.c:73-107 | the values move behind the larger part for the ranges; no pair changes |
| RangeMaps.RangeMap.OpenSlot | src/rangemap/mulle--rangemap.c:142-164 | both parts of the buffer get the new element at the index and keep the others |
| RangeMaps.RangeMap.CloseSlot | src/rangemap/mulle--rangemap.c:190-209 | both parts of the buffer lose the element at the index and keep the others |
| RangeMaps.RangeMap.Insert | src/rangemap/mulle--rangemap.c:113-164 | which of three outcomes applies, in terms of the stored ranges; on success the map with the range mapped to the value given, else the same map |
| RangeMaps.RangeMap.Remove | src/rangemap/mulle--rangemap.c:167-209 | which of four outcomes applies: this very range stored, another one in the way, none, or an invalid range; on success the map without the range, else the same map |
| RangeMaps.RangeMap.Reset | src/rangemap/mulle--rangemap.c:325-335 | an empty map |
| RangeMaps.RangeMap.Search | src/rangemap/mulle--rangemap.c:270-285 | the index of the range that has the location, or not-found exactly when there is none |
| RangeMaps.RangeMap.GetExact | src/rangemap/mulle--rangemap.c:288-322 | the value of exactly this range; otherwise 0, and whether a stored range has its location |
| RangeMaps.RangeMap.FirstToScan | src/rangemap/mulle--rangemap.c:230-246 | the scan starts at the first range that meets the query, also when the query starts in a hole |
| RangeMaps.RangeMap.GetRangesValues | src/rangemap/mulle--rangemap.c:212-267 | the exact number of stored ranges that meet the query, also when it starts in a hole; the first of them, in order, are written with their own values, as many as asked for, and no other output slot |
| RangeMaps.Perform | src/rangemap/mulle--rangemap.c:113-209 | every run and all its outcomes are those of a map of disjoint ranges |
| AssocModel.Bsearch | src/assoc/pointerpair/mulle-pointerpair.h:180-215 | an index with an equal key, or -1 exactly when there is none; with int indices no sum overflows up to 2 to the 30 pairs |
| AssocModel.SumsFitIff | src/assoc/pointerpair/mulle-pointerpair.h:180-215 | no index and no sum of a search over `n` sorted pairs leaves the int range if and only if `n` is at most 2 to the 30 |
| AssocModel.Half | src/assoc/pointerpair/mulle-pointerpair.h:193-212 | the middle of 0 and -1 is 0, because C truncates |
| AssocModel.KeptBag | src/assoc/mulle--assoc.c:128-187 | the pairs that are kept are all pairs with another key, as often as they were there |
| AssocModel.KeptAround | src/assoc/mulle--assoc.c:128-187 | cutting out the run of equal keys keeps exactly the others, in order |
| AssocModel.AddMissingKeys | src/assoc/mulle--assoc.c:297-337 | the old pairs stay in front, and the keys are those of both arrays |
| AssocModel.NewItemsAre | src/assoc/mulle--assoc.c:297-337 | the items taken over are, in their order, those whose key is equal to none of the array and of the earlier items |
| AssocModel.AddMissingIs | src/assoc/mulle--assoc.c:297-337 | exactly the retained pairs of these items are appended, in this order |
| AssocModel.LastSetWins | src/assoc/mulle--assoc.c:128-504 | after any run a lookup answers the value set last, NULL when the key was removed or the array reset since, and what it would have answered before when no operation concerns the key |
| AssocModel.SortIsUnique | src/assoc/mulle--assoc.c:266-268 | with distinct keys the sorted order is determined, so an index into it means something before the pairs are sorted |
| Assocs.Assoc.constructor | src/assoc/mulle--assoc.h:79-88 | an empty array that does not count as sorted |
| Assocs.Assoc.SortIfNeeded | src/assoc/mulle--assoc.h:222-250 | sorted afterwards, the same pairs; an array that is sorted already is not changed |
| Assocs.Assoc.Add | src/assoc/mulle--assoc.c:245-263 | appends a pair with a new key and clears the flag |
| Assocs.Assoc.AddGuaranteed | src/assoc/mulle--assoc.h:319-334 | appends a pair and clears the flag |
| Assocs.Assoc.SetAtIndex | src/assoc/mulle--assoc.c:268-294 | writes over the pair that has the index in a sorted order, which is the only one when the keys are distinct |
| Assocs.Assoc.Set | src/assoc/mulle--assoc.c:463-504 | writes over one pair with an equal key, or adds the pair; as a map it is an update |
| Assocs.Assoc.Get | src/assoc/mulle--assoc.c:440-460 | a value stored under an equal key, or NULL when there is none; as a map it is the lookup |
| Assocs.Assoc.FindUnsorted | src/assoc/mulle--assoc.c:382-414 | the index of the first equal key in the validated range, or not-found exactly when there is none |
| Assocs.Assoc.FindInRange | src/assoc/mulle--assoc.c:417-427 | the first equal key in the validated range of the sorted order |
| Assocs.Assoc.Member | src/assoc/mulle--assoc.c:429-437 | whether an equal key is stored |
| Assocs.Assoc.RemoveInRange | src/assoc/mulle--assoc.c:106-126 | takes out and releases the pairs of the validated range; the flag stays, and rightly so |
| Assocs.Assoc.EqualRun | src/assoc/mulle--assoc.c:155-181 | the run around the found index contains all equal keys and only those |
| Assocs.Assoc.Remove | src/assoc/mulle--assoc.c:128-187 | no pair with an equal key is left and every other as often as before; sorted pairs stay sorted and in order |
| Assocs.Assoc.RemoveLast | src/assoc/mulle--assoc.h:410-420 | takes out and releases the last pair; the flag stays; what is released was held exactly when there was a pair |
| Assocs.Assoc.Reset | src/assoc/mulle--assoc.c:93-104 | no pairs and no references; the flag stays |
| Assocs.Assoc.AddAssocRange | src/assoc/mulle--assoc.c:297-337 | adds the pairs of the validated range of another array whose keys are new, also for an array and itself |
| Assocs.Perform | src/assoc/mulle--assoc.c:128-504 | over every run of set, get, remove, sort and reset in which no search meets more than 2 to the 30 pairs, the array is a map, and each lookup answers what the map holds |

## Left out

- `_mulle__rangeset_shift`: it starts from the nearest range, so it can move members that lie before the location.
- `_mulle__rangeset_sum_lengths_range` and `_mulle__rangeset_contains`: the first can stop too early, the second needs ranges that do not touch.
- `_mulle__rangeset_shrink_to_fit`: a reallocation only.
- `_mulle__assoc_move_intptr_key_range` and `_mulle__assoc_remap_intptr_key_range`: they mix indices and keys in one range.
- `_mulle_pointerpair_bsearch_or_less`: it does not return the index that it computes.
- `_mulle__assoc_is_equal`, `_mulle__assoc_copy_items`, `_mulle__assoc_get_in_range`: loops over both arrays and copies.
- Arrays of pointers, pairs and structures, the pointer set, and the public wrappers with their NULL checks: they would only add easy members.
- Describing, printing, sorting helpers, loop macros, mutation counters, DEBUG poisoning, and what happens when the allocator has no memory.
- Concrete callbacks and hash functions: the hash, the classes of equal keys and the key order are parameters; integer ranks can give any order on pointers, since there are finitely many of them.
- Ranges.IntersectsBsearch: the range helpers are part of another library, so this is a stand-in whose contract leaves open which intersecting range is returned; the same holds for the hole search.
- AssocModel.Qsort: a stand-in for the sort of another library, of which only a sorted permutation is known.
- Assocs.Assoc.RemoveInRange: what the validation makes of a range that does not lie within the array is left open, because that helper is part of another library; it is only relied on to return a range within the array.
- Assocs.Assoc.RemoveLast: on an empty array the source hands the invalid pair to the release callbacks; the books of held pairs do not record this.
- Assocs.Assoc.AddGuaranteed: the capacity of the pair array is not modelled.
- PointerQueues.PointerQueue.NewBucket: the slots of a bucket are a sequence in the bucket, not a flexible array member; freeing is recorded in the books and does not invalidate the bucket.
- RangeSets.RangeSet.SearchLocation: locations are not bounded above; the wrap-around of a location at the end of the word is not modelled.
- AssocModel.SumsFitIff: the conversion of a count beyond 2 to the 31 to an int is taken as leaving the range; which searches would still end well after it is not modelled.
- Widths: sizes, counts and pointers are unbounded, except in the rounding functions, the range limits and the binary search over pairs; a bucket size is not limited to a short.
