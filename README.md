# Chained hash map, dictionary and linked list

This project models three C++ containers and proves properties of the model.

- **HashMap** (`HashMap.hpp`) is a chained hash table.
  - `buckets` is an array of `_capacity` vectors of (key, value) pairs, and `_size` counts the pairs.
  - A key lives in bucket `hash(key) & (capacity - 1)`.
  - After an insert, a load factor above 0.75 doubles the capacity.
  - After an erase, a table left empty collapses to one bucket, and a load factor below 0.25 halves the capacity.
  - A nested ConstIterator walks the pairs with a (bucket, pair) cursor. The cursor (capacity, 0) is the end.
- **Dictionary** (`Dictionary.hpp`) is a `HashMap<string, string>`. It adds a bulk `update` and overrides `erase`.
- **LinkedList** (`GenericLinkedList.h`) is a singly linked list.
  - `push` prepends, and `erase` unlinks the first match.
  - `operator=` and the copy constructor re-push the other list, so the copy comes out reversed.
  - It has a forward Iterator.

## Modules

| file | module | contents |
|---|---|---|
| failures.dfy | `Failures` | The exceptions as values: `InvalidArgument`, `LengthError`, `InvalidKey`. Also `Result` and `Outcome`. |
| bits.dfy | `Bits` | Powers of two and a two's-complement `&`. `Index` is `hash_func`, proved equal to `h % capacity`. |
| buckets.dfy | `Buckets` | The bucket array as a `seq<seq<(K, V)>>`; see below. |
| upserts.dfy | `Upserts` | Repeated `map[k] = v` on the abstract map. The last assignment to a key wins. |
| hashmap.dfy | `HashTable` | The `HashMap` class and its `ConstIterator` class. |
| dictionary.dfy | `Dict` | The `Dictionary` class, over a `HashTable.HashMap<string, string>`. |
| linked_list.dfy | `GenericList` | The `Node`, `LinkedList` and `Iterator` classes. `Contents` is a ghost sequence and `nodes` a ghost spine. |

`Buckets` covers these parts of the bucket array:

- `Represents` states when a bucket array stores a given map.
- Each bucket update (append, remove one pair, overwrite one value) keeps that relation.
- A rehash redistributes the pairs (`Distribute`).
- The capacity policy picks the new size (`GrowTarget`, `ShrinkTarget`, `Rebalanced`).
- `Flatten` is the iteration order.

A `HashMap` object has these parts:

- Real state: the fields `buckets: array<seq<(K, V)>>`, `size` and `capacity`. Its methods update them in place, with `modifies` clauses.
- An abstraction: a ghost `Contents: map<K, V>`.
- An invariant: `Valid()` says `Buckets.Represents(buckets[..], Contents, hash)`, `size == |Contents|` and `4 * size <= 3 * capacity`.

Every method of `class HashMap` states both the new map and the exact new bucket array. For example, `Insert` states that the new array is `Rebalanced(true, Appended(old buckets, k, v), …)`.

`std::hash<KeyT>` is the constant `hash: K -> int` of each map, and `ValueT()` is its constant `zero`.

## Model

| member | source | states |
|---|---|---|
| Bits.Index | HashMap.hpp:254-258 | hash_func always gives a bucket index inside the table: 0 <= index < capacity |
| Bits.BitAnd | HashMap.hpp:257 | the `&` of hash_func: the two's-complement bitwise AND of a possibly negative hash with a non-negative mask, taken bit by bit from the lowest |
| Bits.IndexIsMod | HashMap.hpp:254-258 | for a power-of-two capacity, `hash & (capacity - 1)` equals the remainder of hash modulo capacity, negative hashes included |
| Bits.MaskIsMod | HashMap.hpp:257 | the two's-complement AND with `2^n - 1` keeps exactly the remainder modulo `2^n` |
| Bits.DoublePow2 | HashMap.hpp:502 | multiplying a power-of-two capacity by MULT keeps it a power of two |
| Bits.HalvePow2 | HashMap.hpp:502 | multiplying a power-of-two capacity above 1 by DIV keeps it a power of two, and halving is exact |
| Buckets.EmptyBuckets | HashMap.hpp:65 | `new bucket[c]` gives c buckets, all empty |
| Buckets.Represents | HashMap.hpp:254-258 | the table invariant: a power-of-two bucket count, every pair in bucket hash_func(key), no key twice in a bucket, every pair an entry of the map, every entry stored, and as many pairs as entries |
| Buckets.Flatten | HashMap.hpp:183-206 | the order in which the ConstIterator visits pairs: bucket 0 first, each bucket front to back |
| Buckets.EmptyRepresents | HashMap.hpp:64-65 | an all-empty table of any power-of-two capacity stores the empty map |
| Buckets.FlattenAppend | HashMap.hpp:549-557 | the iteration order of two consecutive runs of buckets is the order of the first run followed by that of the second |
| Buckets.FlattenPrefix | HashMap.hpp:194-202 | iterating one more bucket appends exactly that bucket's pairs |
| Buckets.FlattenUpdateLength | HashMap.hpp:337 | replacing one bucket changes the total pair count by the difference in that bucket's length |
| Buckets.FlattenMember | HashMap.hpp:464-465 | a pair is visited by the iteration iff it is in some bucket |
| Buckets.FlattenAllEmpty | HashMap.hpp:356-359 | a table whose buckets are all empty has no pairs to visit |
| Buckets.FlattenPrefixMonotone | HashMap.hpp:194-203 | visiting more buckets never visits fewer pairs |
| Buckets.FlattenAt | HashMap.hpp:239-240 | pair j of bucket i is the one at position (pairs in buckets before i) + j of the iteration |
| Buckets.FlattenKeysDistinct | HashMap.hpp:331-337 | when each key belongs to one bucket and no bucket repeats a key, the whole iteration never repeats a key |
| Buckets.InsertRepresents | HashMap.hpp:329-338 | appending an absent key's pair to its own bucket makes the table store the map extended with that key |
| Buckets.InsertPlaced | HashMap.hpp:335-337 | after the push_back into bucket hash_func(key), every pair is still in its own bucket |
| Buckets.InsertDistinct | HashMap.hpp:331-337 | pushing a key that contains_key did not find keeps that bucket free of duplicate keys |
| Buckets.InsertSound | HashMap.hpp:336-337 | after the push, every stored pair is an entry of the extended map |
| Buckets.InsertComplete | HashMap.hpp:336-337 | after the push, every entry of the extended map is in its bucket |
| Buckets.RemoveAt | HashMap.hpp:372 | vector::erase at j shortens the bucket by one and keeps the other pairs in their order |
| Buckets.RemoveAtKeeps | HashMap.hpp:372 | every pair other than the erased one is still in the bucket |
| Buckets.RemoveAtDistinct | HashMap.hpp:372 | after the erase the bucket still has distinct keys, and the erased key no longer occurs in it |
| Buckets.ReplaceDistinct | HashMap.hpp:337 | replacing one bucket by one with distinct keys keeps every bucket free of duplicates |
| Buckets.ErasePlaced | HashMap.hpp:372 | removing a pair leaves every other pair in its own bucket |
| Buckets.EraseSound | HashMap.hpp:366-373 | after removing k's pair, every stored pair is an entry of the map without k |
| Buckets.EraseComplete | HashMap.hpp:366-373 | after removing k's pair, every entry of the map without k is still in its bucket |
| Buckets.EraseRepresents | HashMap.hpp:364-375 | a pair found with key k is an entry of the map, and erasing it makes the table store the map without k, with one pair fewer |
| Buckets.SetValuePlaced | HashMap.hpp:437-446 | writing a new value through the reference operator[] returns leaves every pair in its bucket |
| Buckets.SetValueSound | HashMap.hpp:437-446 | after the write, every stored pair is an entry of the map with k's value replaced |
| Buckets.SetValueComplete | HashMap.hpp:437-446 | after the write, every entry of the updated map is in its bucket |
| Buckets.SetValueRepresents | HashMap.hpp:437-446 | assigning through the reference to k's pair makes the table store the map with k mapped to the new value, the layout unchanged |
| Buckets.KeyInSlot | HashMap.hpp:315-326 | k is in the map iff some pair of k's bucket has key k, and then that pair carries k's value |
| Buckets.EmptyMapEmptyBuckets | HashMap.hpp:343-347 | a table storing no entries has all its buckets empty |
| Buckets.WithoutMembers | HashMap.hpp:372 | dropping a key's pairs keeps exactly the pairs with other keys |
| Buckets.Without | HashMap.hpp:368-372 | a bucket without its pairs of key k, the others in their order: what erase leaves of k's bucket |
| Buckets.WithoutAppend | HashMap.hpp:372 | dropping a key's pairs distributes over concatenation |
| Buckets.WithoutAbsent | HashMap.hpp:368-379 | dropping a key that a bucket does not hold leaves the bucket unchanged |
| Buckets.RemoveAtIsWithout | HashMap.hpp:368-372 | in a bucket with distinct keys, erasing the pair found at j is dropping that pair's key |
| Buckets.Overwrite | HashMap.hpp:437-446 | overwriting k's value changes only pairs with key k, and only their value |
| Buckets.Appended | HashMap.hpp:335-337 | the bucket array after insert's push_back: (k, v) at the back of bucket hash_func(k), every other bucket unchanged |
| Buckets.Removed | HashMap.hpp:366-372 | the bucket array after erase's vector erase: k's pair dropped from bucket hash_func(k), the rest of that bucket in order, every other bucket unchanged |
| Buckets.Stored | HashMap.hpp:437-446 | the bucket array after a write through the reference operator[] returns: k's value in its bucket replaced by v, positions unchanged |
| Buckets.OverwriteIsUpdate | HashMap.hpp:410-412 | in a bucket with distinct keys, writing through the reference to pair j changes only that pair's value |
| Buckets.Distribute | HashMap.hpp:495-503 | the new array of a rehash has exactly the target number of buckets |
| Buckets.DistributeSnoc | HashMap.hpp:497-498 | one more pair goes to the back of its bucket under the new capacity, and the other buckets stay as they were |
| Buckets.DistributeMember | HashMap.hpp:496-499 | a pair lands in new bucket j iff it was stored before and its key's index under the new capacity is j |
| Buckets.DistributeLength | HashMap.hpp:496-499 | a rehash keeps the number of pairs |
| Buckets.DistributeDistinct | HashMap.hpp:496-499 | a rehash of pairs with distinct keys gives buckets with distinct keys |
| Buckets.DistributeRepresents | HashMap.hpp:486-505 | the rehashed table of any power-of-two capacity stores the same map as before |
| Buckets.DistributeAsWritten | HashMap.hpp:495-503 | the rehash as written yields an array of the new capacity, or nothing when an index under the old mask is out of the new array's bounds |
| Buckets.AsWrittenGrowthMisplaces | HashMap.hpp:498 | on growth, the rehash as written puts a pair whose key's index changes under the new mask into the wrong bucket |
| Buckets.AsWrittenGrowthLosesKey17 | HashMap.hpp:498 | growing 16 to 32 with identity hashing leaves key 17 in bucket 1 instead of bucket 17 |
| Buckets.AsWrittenShrinkOverruns | HashMap.hpp:498 | on a shrink, the rehash as written writes past the end of the new array for a key whose old index is at least the new capacity |
| Buckets.AsWrittenShrinkOverrunsKey9 | HashMap.hpp:498 | shrinking 16 to 8 with identity hashing would push key 9 into bucket 9 of an 8-bucket array |
| Buckets.GrowTarget | HashMap.hpp:511-519 | the capacity after an insert: doubled when 4 * size > 3 * capacity (load factor above 0.75), otherwise unchanged |
| Buckets.ShrinkTarget | HashMap.hpp:520-533 | the capacity after an erase: 1 when size is 0, halved when 4 * size < capacity (load factor below 0.25), otherwise unchanged |
| Buckets.ResizeDue | HashMap.hpp:511-534 | whether update_capacity reaches its call of rehash rather than returning early |
| Buckets.Target | HashMap.hpp:508-535 | the capacity update_capacity leaves: GrowTarget after an insert, ShrinkTarget after an erase |
| Buckets.TargetPow2 | HashMap.hpp:508-535 | the capacity chosen by update_capacity is a power of two whenever the old one is |
| Buckets.PolicyKeepsBounds | HashMap.hpp:508-535 | after an insert or erase that changed size by one, the policy keeps a power-of-two capacity and restores load factor <= 0.75, and keeps the capacity when no resize is due |
| Buckets.ShrinkHalvesOnce | HashMap.hpp:520-534 | an erase halves the capacity only once, so a load factor below 1/8 before the erase is still below 0.25 after it |
| Buckets.Rebalanced | HashMap.hpp:508-535 | the bucket array after update_capacity has the target capacity, a power of two |
| Buckets.RebalancedRepresents | HashMap.hpp:508-535 | update_capacity keeps the stored map and re-establishes load factor <= 0.75 |
| Buckets.FlattenSkipEmpty | HashMap.hpp:194-202 | skipping empty buckets skips no pair of the iteration |
| Buckets.ValidPos | HashMap.hpp:545-559 | the cursors a ConstIterator can hold: a pair inside a bucket, or the end sentinel (capacity, 0) |
| Buckets.Rank | HashMap.hpp:183-206 | a cursor's place in the iteration order: the number of pairs before it |
| Buckets.RankIdentifiesPosition | HashMap.hpp:224-230 | two cursors have the same place in the iteration iff their (bucket, pair) indices are equal; the end cursor is at the end; a cursor on a pair is at that pair's position |
| Buckets.RankBefore | HashMap.hpp:194-203 | a cursor in an earlier bucket comes strictly earlier in the iteration |
| Buckets.TraversalVisitsEachEntryOnce | HashMap.hpp:154-157 | the iteration order has one pair per entry, no repeated key, and contains a pair iff it is an entry of the map |
| Buckets.HoldsStoredEqual | HashMap.hpp:460-476 | if every pair stored in one table is found with its value in a map of the same size, the two maps are equal |
| Buckets.IncludedSameSizeEqual | HashMap.hpp:460-476 | a map that includes another one of the same size equals it |
| Upserts.Zip | HashMap.hpp:268-271 | pair i of the two vectors is (keys[i], values[i]) |
| Upserts.UpsertAll | HashMap.hpp:268-271 | the map after `map[k] = v` for each pair in order (also the loop of Dictionary::update): a later pair overwrites an earlier one |
| Upserts.UpsertAllStep | HashMap.hpp:268-271 | one more loop round is one more assignment `map[keys[i]] = values[i]` |
| Upserts.LastValue | Dictionary.hpp:42-45 | a key has a last value in the range iff it occurs in the range |
| Upserts.LastValueAt | Dictionary.hpp:42-45 | the last value of a key is the value at its last occurrence |
| Upserts.UpsertAllLastWins | Dictionary.hpp:40-46 | after the assignments a key is present iff it was before or occurs in the range, and it maps to the value at its last occurrence, or keeps its old value |
| Upserts.UpsertAllKeepsOthers | Dictionary.hpp:42-45 | keys not mentioned in the range keep their presence and value |
| Upserts.DuplicateKeysKeepLastValue | main.cpp:28-30 | the vectors {1,1,1} and {2,2,3} give exactly the map {1: 3} |
| HashTable.SetBucket | HashMap.hpp:372 | storing one bucket back, as erase's vector erase and the write through the reference (HashMap.hpp:410-412) do: that bucket changes, no other |
| HashTable.SkipEmpty | HashMap.hpp:194-203 | the scan stops at the first non-empty bucket from `from` on, or at the end sentinel, and skips no pair of the iteration |
| HashTable.CopyBuckets | HashMap.hpp:279-287 | the copy loop yields a fresh array with the same buckets, and counts every pair |
| HashTable.PushEach | HashMap.hpp:497-499 | the inner rehash loop pushes one old bucket's pairs, in order, to the back of their new buckets |
| HashTable.Redistribute | HashMap.hpp:495-500 | the rehash loops fill a fresh array with every pair in iteration order, each under the new capacity's mask |
| HashTable.HashMap.Slot | HashMap.hpp:254-258 | hash_func gives an index below capacity |
| HashTable.HashMap.constructor | HashMap.hpp:64-65 | a default map is valid, empty, has size 0, capacity 16 and 16 empty buckets |
| HashTable.HashMap.Copy | HashMap.hpp:274-288 | the copy has the same capacity, size, map and bucket layout as the original |
| HashTable.HashMap.Assign | HashMap.hpp:290-312 | self-assignment changes nothing; otherwise this gets other's capacity, size, map and bucket layout in a fresh array |
| HashTable.HashMap.ContainsKey | HashMap.hpp:314-326 | true iff the key is stored |
| HashTable.HashMap.Empty | HashMap.hpp:343-347 | true iff no key is stored |
| HashTable.HashMap.PushNew | HashMap.hpp:335-339 | an absent key's pair is appended to its bucket, size grows by one, and the grow check yields the rebalanced table |
| HashTable.HashMap.Insert | HashMap.hpp:328-341 | true iff the key was absent; a present key changes nothing; an absent key is added with its value, size grows by one and the grow check runs |
| HashTable.HashMap.Clear | HashMap.hpp:349-361 | every bucket is emptied, size is 0, the map is empty and the capacity and array are kept |
| HashTable.HashMap.Erase | HashMap.hpp:363-380 | true iff the key was present; the map loses the key; an absent key changes nothing; a present key's pair leaves its bucket, size drops by one and the shrink check runs |
| HashTable.HashMap.RemovePair | HashMap.hpp:370-375 | erasing the pair found at j removes that key, decrements size and applies the shrink policy |
| HashTable.HashMap.CutPair | HashMap.hpp:372-373 | the vector erase and `--_size` keep the table consistent and within the load bound, and remove exactly key k |
| HashTable.HashMap.BucketSize | HashMap.hpp:382-391 | invalid_argument iff the key is absent; otherwise the length of the bucket that holds the key |
| HashTable.HashMap.BucketIndex | HashMap.hpp:393-401 | invalid_argument iff the key is absent; otherwise the index of the bucket holding it, equal to hash modulo capacity |
| HashTable.HashMap.At | HashMap.hpp:403-430 | the key's value when present, invalid_argument otherwise, never changing the map |
| HashTable.HashMap.Subscript | HashMap.hpp:432-448 | a present key's value with nothing changed; an absent key is inserted with ValueT(), size grows by one, the grow check runs and ValueT() is returned |
| HashTable.HashMap.StoreAt | HashMap.hpp:437-438 | writing through the reference to a present key's value updates that key only and keeps the layout, size and capacity |
| HashTable.HashMap.SetPair | HashMap.hpp:410-412 | writing the value of the pair at position j of k's bucket maps k to the new value, nothing else changing |
| HashTable.HashMap.SubscriptStore | HashMap.hpp:432-448 | `map[k] = v` maps k to v; a present key keeps size and capacity; an absent key adds one and runs the grow check before the write |
| HashTable.HashMap.Equals | HashMap.hpp:456-477 | true iff both maps store the same entries, whatever their capacities and bucket orders |
| HashTable.HashMap.HoldsAll | HashMap.hpp:465-474 | true iff every pair of the other map's bucket is found in this map with an equal value |
| HashTable.HashMap.NotEquals | HashMap.hpp:479-483 | true iff the two maps store different entries |
| HashTable.HashMap.Rehash | HashMap.hpp:485-505 | the map and size are kept; the capacity becomes 1, twice or half the old one; every pair is placed under the new capacity |
| HashTable.HashMap.Resize | HashMap.hpp:494-504 | every pair moves to its bucket under the new power-of-two capacity, in iteration order, with the map and size kept |
| HashTable.HashMap.UpdateCapacity | HashMap.hpp:507-535 | the map and size are kept, the capacity becomes the policy's target, and the load factor is at most 0.75 afterwards |
| HashTable.StoreThrough | HashMap.hpp:270 | one `(*this)[k] = v` maps k to v and keeps the table valid |
| HashTable.FromVectors | HashMap.hpp:260-272 | length_error iff the vectors differ in length; otherwise a valid map in which each key has its last value |
| HashTable.ConstIterator.constructor | HashMap.hpp:538-560 | begin() is at position 0 of the iteration order and end() at its end |
| HashTable.ConstIterator.Next | HashMap.hpp:183-206 | invalid_argument at the end with the cursor unchanged; otherwise exactly one place on in the iteration order |
| HashTable.ConstIterator.Get | HashMap.hpp:239-243 | the pair at the cursor's position in the iteration order |
| HashTable.ConstIterator.Equals | HashMap.hpp:224-230 | true iff both iterators are on the same map at the same place |
| HashTable.Collect | HashMap.hpp:154-157 | a loop from begin() to end() collects exactly the iteration order |
| HashTable.CollectOne | HashMap.hpp:183-206 | one round of the loop appends the current pair and moves one place on |
| HashTable.Traverse | HashMap.hpp:154-157 | the loop visits, in bucket order, one pair per entry of the map, each carrying its value, with no key twice |
| HashTable.MainScenario | main.cpp:20-30 | a default map has size 0 and capacity 16; after insert(1, 10) size 1 and capacity 16; after `h[1] = 8` size 1 and key 1 holds 8; the map built from {1,1,1} and {2,2,3} has size 1 and maps 1 to 3 |
| Dict.Dictionary.constructor | Dictionary.hpp:28-31 | the dictionary holds the given valid table |
| Dict.Dictionary.Update | Dictionary.hpp:40-46 | the map after the update is the old map with each pair of the range assigned in order |
| Dict.Dictionary.Erase | Dictionary.hpp:54-60 | the erase as written: always true; the key is removed; an absent key changes nothing; a present key leaves as the base erase removes it: size down by one, capacity the shrink target, layout rebalanced after removing the pair |
| Dict.Dictionary.EraseChecked | Dictionary.hpp:48-60 | the erase as documented: InvalidKey iff the key was absent; the key is removed; an absent key changes nothing; a present key leaves as the base erase removes it: size down by one, capacity the shrink target, layout rebalanced after removing the pair |
| Dict.NewDictionary | Dictionary.hpp:28-31 | length_error iff the vectors differ in length; otherwise each key has its last value |
| Dict.EraseAbsentScenario | Dictionary.hpp:54-60 | erasing an absent key: the code as written reports success, the documented behaviour raises InvalidKey |
| Dict.DictionaryScenarioContents | Dictionary.hpp:28-31 | the vectors ["a"] and ["1"] give exactly the map {a: 1} |
| GenericList.ReverseAt | GenericLinkedList.h:160-165 | re-pushing a list puts its element k at position n - 1 - k |
| GenericList.Reverse | GenericLinkedList.h:160-165 | the list that pushing the elements of another list head first builds: its reverse |
| GenericList.ReverseLength | GenericLinkedList.h:160-165 | re-pushing keeps the length |
| GenericList.ReverseReverse | GenericLinkedList.h:148-168 | copying a copy gives back the original order |
| GenericList.RemoveFirstAt | GenericLinkedList.h:170-189 | removing the first occurrence at k is the list without position k |
| GenericList.RemoveFirst | GenericLinkedList.h:170-189 | the list without its first element equal to x, the others in order; unchanged when none is equal |
| GenericList.RemoveFirstAbsent | GenericLinkedList.h:179-188 | with no match the list is unchanged |
| GenericList.RemoveFirstMultiset | GenericLinkedList.h:170-189 | erase removes exactly one copy of the element when it occurs, and nothing otherwise |
| GenericList.Node.constructor | GenericLinkedList.h:13 | the node holds the given data and successor link |
| GenericList.LinkedList.constructor | GenericLinkedList.h:17 | a new list is empty |
| GenericList.LinkedList.Copy | GenericLinkedList.h:20-22 | the copy holds the other list's elements in reverse order, and the other list is unchanged |
| GenericList.LinkedList.Push | GenericLinkedList.h:36 | the element becomes the new head, and the rest is unchanged |
| GenericList.LinkedList.Erase | GenericLinkedList.h:170-189 | on a non-empty list, the first node equal to the element is unlinked and the others keep their order |
| GenericList.LinkedList.Unlink | GenericLinkedList.h:181-184 | relinking past node k removes element k and nothing else |
| GenericList.LinkedList.Assign | GenericLinkedList.h:148-168 | self-assignment changes nothing; otherwise this holds rhs's elements reversed in fresh nodes, and rhs is unchanged |
| GenericList.LinkedList.PushAll | GenericLinkedList.h:160-165 | pushing every element of rhs onto an empty list gives rhs reversed |
| GenericList.LinkedList.Begin | GenericLinkedList.h:130 | begin() is at position 0 |
| GenericList.LinkedList.End | GenericLinkedList.h:133 | end() is one past the last element |
| GenericList.Iterator.constructor | GenericLinkedList.h:60 | the iterator points at the node of its position |
| GenericList.Iterator.Next | GenericLinkedList.h:62-65 | ++ moves one element on |
| GenericList.Iterator.Get | GenericLinkedList.h:77 | `*it` is the element at the iterator's position |
| GenericList.Iterator.Equals | GenericLinkedList.h:73-75 | two iterators of one list are equal iff they are at the same position |
| GenericList.Elements | mainGenericLinkedList.cpp:18-19 | a range-for over the list yields its elements head first |
| GenericList.ScenarioErasures | mainGenericLinkedList.cpp:9-14 | erasing 9, 5 and 0 from 9..0 leaves 8,7,6,4,3,2,1 |
| GenericList.EraseMiddleScenario | mainGenericLinkedList.cpp:13 | erasing 5 from the middle keeps every other element in order |
| GenericList.EraseLastScenario | mainGenericLinkedList.cpp:14 | erasing the last element 0 keeps the rest |
| GenericList.ScenarioReversals | mainGenericLinkedList.cpp:30-38 | the copy of 8,7,6,4,3,2,1 is 1,2,3,4,6,7,8, and after push(5) the assigned list is 1,2,3,4,6,7,8,5 |
| GenericList.PushThenErase | mainGenericLinkedList.cpp:6-14 | pushing 0..9 and erasing 9, 5 and 0 leaves 8,7,6,4,3,2,1 |
| GenericList.ListScenario | mainGenericLinkedList.cpp:6-38 | the list, its copy and the list assigned after push(5) are the sequences the driver prints |
| GenericList.PushThenAssign | mainGenericLinkedList.cpp:36-38 | push(5) and then `l2 = l` give 1,2,3,4,6,7,8,5 |

## Left out

- Output is not modelled: `operator<<` of LinkedList and the printing in the two driver programs. The drivers serve only as scenarios.
- Memory management is not modelled: `new[]`/`delete[]`, destructors and node deletion. Dafny's heap is garbage collected.
- `int` overflow of `_size`, `_capacity` and the hash conversion is not modelled. Integers are unbounded.
- `get_load_factor` is exact integer arithmetic, not a `double`. The comparisons at HashMap.hpp:513 and 526 become `4 * size > 3 * capacity` and `4 * size < capacity`. They are exact because the capacity is a power of two.
- `std::hash<KeyT>` is an arbitrary function `hash` fixed per map. `HashTable.HashMap.Assign` requires both maps to use the same `hash`, as every map of one type does.
- Exception messages are not modelled, only the exception type. The const `at` and `operator[]` throw INVALID_MSG and the non-const `at` throws KEY_NOT_FOUND. All of them are `invalid_argument`, so `HashTable.HashMap.At` covers them.
- Iterator address identity is modelled as a reference to the same table. Iterator invalidation after a mutation is not modelled.
- Virtual dispatch of `erase` is not modelled. `HashMap::erase` is virtual and Dictionary overrides it, so erasing a Dictionary through a `HashMap&` runs the override. In the model, `d.table.Erase` always runs the base erase; only `Dict.Dictionary.Erase` is the override.
- Postfix `++` of both iterators is modelled as prefix `++`. The returned copy of the old position is not modelled.
- `operator->` is not modelled.
- The list ConstIterator (GenericLinkedList.h:83-116) has the same `++`, `==` and `*` as Iterator. It is covered by `GenericList.Iterator`.
- `cbegin`/`cend` are not modelled.
- `std::find` in mainGenericLinkedList.cpp:22-27 is not modelled.
- The `LinkedList<std::string>` part of mainGenericLinkedList.cpp:43-47 is not modelled.
- helper.cpp is not part of this model. It is not a coherent program.
- GenericList.LinkedList.Copy: the copy constructor calls `operator=` while `head_` is uninitialised (GenericLinkedList.h:20-22), so in C++ it frees garbage. The model starts the copy from an empty list, which is evidently what is meant.
- GenericList.LinkedList.Erase requires a non-empty list, because the source dereferences `head_` unconditionally (GenericLinkedList.h:173).
- GenericList.LinkedList: `Repr` is a superset of the live nodes. Unlinked nodes are not reclaimed.
- HashTable.FromVectors states the new map, its validity, `hash` and `zero`, but not the capacity or bucket layout the assignments leave.
- Dict.Dictionary.Update states the new map and validity, but not the capacity or bucket layout the assignments leave.
- HashTable.StoreThrough states only the new stored map and validity, not the new bucket layout. `HashTable.HashMap.SubscriptStore` states the layout.
- HashTable.HashMap.Rehash places pairs under the new capacity, not under the old mask used at HashMap.hpp:498. The code as written is modelled by `Buckets.DistributeAsWritten`; see Findings.
- Load-factor floor: LOAD_FACTOR_MIN (HashMap.hpp:13) suggests a floor of 0.25 on the load factor. The code halves the capacity at most once per erase (HashMap.hpp:526-528), and an insert never shrinks. So only the upper bound 0.75 is an invariant of the model, and `Buckets.ShrinkHalvesOnce` shows the floor can be missed.

## Findings

| source | as written | input that shows it | evidently intended | confidence | as-written member | corrected member |
|---|---|---|---|---|---|---|
| HashMap.hpp:498 | rehash computes each pair's new bucket with `hash_func`, which still masks with the old `_capacity`. `_capacity` changes only at line 502. | growing 16 to 32 with hash(k) = k puts key 17 in bucket 1 instead of bucket 17; shrinking 16 to 8 writes key 9 to bucket 9 of an 8-bucket array | each pair goes to `hash & (new capacity - 1)` | not executed | Buckets.DistributeAsWritten, Buckets.AsWrittenGrowthLosesKey17, Buckets.AsWrittenShrinkOverrunsKey9 | Buckets.DistributeRepresents |
| Dictionary.hpp:57 | erase constructs an `InvalidKey` for an absent key but never throws it, and returns true | erasing "b" from the dictionary {a: 1} returns true | throw InvalidKey when the key is absent, as the comment at Dictionary.hpp:48-53 says | not executed | Dict.Dictionary.Erase, Dict.EraseAbsentScenario | Dict.Dictionary.EraseChecked |
