# Mountain trails, organiser, manager and hash tables — a Dafny model

The system keeps track of mountains for a walking game. A `Mountain` has a
name and a difficulty level. Five components are modelled here:

- **Trails** (`trail.py`) are immutable trees. A trail is empty, or a
  mountain followed by the rest of the trail, or a split into a top and a
  bottom branch that then rejoin a following trail. Editing a trail returns
  a new trail. `follow_path` walks a trail with an explicit stack. At each
  split it asks a walker which branch to take, and it hands every mountain
  it passes to the walker.
- **The mountain organiser** (`mountain_organiser.py`) keeps every mountain
  added so far in one list. The list is sorted by difficulty, then by name,
  using an in-place quicksort whose pivot is the middle element. It reports
  a mountain's rank as its position in that list.
- **The mountain manager** (`mountain_manager.py`) keeps a plain list of
  mountains. You can add, remove and edit mountains, filter them by
  difficulty, and group them by difficulty. The grouping uses an infinite
  hash table keyed by difficulty, and sorts the keys.
- **The infinite hash table** (`infinite_hash_table.py`) is a trie of
  27-slot tables. Each slot is empty, or holds a leaf `(key, value)`, or
  holds a child table one level deeper. The slot of a key at depth `d` is
  the code of its `d`-th character modulo 26, or slot 26 once the key is
  exhausted.
- **The double-key table** (`double_key_table.py`) is an open-addressing
  table keyed by `key1`. Each occupied slot owns an inner linear-probe table
  keyed by `key2`. The outer table grows along a ladder of prime sizes once
  the number of stored pairs exceeds half the outer size plus one.

Modules:

- `Results`: the `KeyError`/`FullError` outcomes, `Result` and `Option`.
- `Ordering`: Python's `<` on strings, and what a strict order and an
  ascending list are.
- `Mountains`: the mountain record, `list.index`, and the organiser's order.
- `MountainOrganiser`: a class over an `array`, with the in-place sort.
- `Trails`: datatypes, the edit functions, a recursive reference `Walk`,
  and the stack-based `FollowPath`.
- `MountainManager`: a class with a `seq` field, plus the grouping loop.
- `InfiniteHashTable`: the trie as a datatype, with `Get`, `Insert`,
  `Delete`, the `GetLocation` loop and `SortKeys` with its quicksort.
- `Probing`: linear probing over a sequence of slots. This is the
  specification of both levels of the double-key table, including the
  cluster repair after a delete.
- `DoubleKeyTable`: the class, whose outer `array` is updated in place.
- `InfiniteHashFindings` and `DoubleKeyFindings`: the source as written,
  where it departs from what it documents (see "## Findings").

## Model

| member | source | states |
|---|---|---|
| Ordering.StrLessIsStrictOrder | infinite_hash_table.py:205 | Python's `<` on strings, which `quick_sort` compares keys with, is irreflexive and transitive. |
| Ordering.StrLessTotal | infinite_hash_table.py:205 | Of two different strings, one is less than the other. |
| Mountains.IndexOf | mountain_organiser.py:16-19 | `list.index`: the result is a position holding `m` with no earlier copy of `m`; there is no result exactly when `m` is not on the list. |
| Mountains.MLessTotal | mountain_organiser.py:53-59 | The partition's comparison (difficulty first, then name) orders any two different mountains one way or the other. |
| Mountains.MLessTransitive | mountain_organiser.py:53-59 | The same comparison is transitive. |
| Mountains.SortedUnique | mountain_organiser.py:21-27 | Two ascending lists holding the same mountains are the same list, so the organiser's list is fixed by what was added, not by the order it was added in. |
| MountainOrganiser.MountainOrganiser.constructor | mountain_organiser.py:7-9 | A new organiser holds no mountains and its list is sorted. |
| MountainOrganiser.MountainOrganiser.CurPosition | mountain_organiser.py:11-19 | `cur_position`: the first index holding the mountain, or `KeyError` exactly when it was never added. |
| MountainOrganiser.RankIsIndex | mountain_organiser.py:11-19 | In the sorted list, the position `cur_position` returns is the mountain's rank: the number of mountains ordered before it. |
| MountainOrganiser.MountainOrganiser.AddMountains | mountain_organiser.py:21-27 | `add_mountains`: afterwards the list holds the old mountains plus the new ones, as a multiset, and is sorted. |
| MountainOrganiser.MountainOrganiser.MountainQuickSort | mountain_organiser.py:29-35 | `mountain_quick_sort`: the array ends sorted and is a permutation of what it held. |
| MountainOrganiser.MountainOrganiser.SortAuxiliary | mountain_organiser.py:37-44 | `sort_auxiliary`: positions `start..end` end sorted; only they are rearranged; a range of at most one position is left unchanged. |
| MountainOrganiser.MountainOrganiser.Partition | mountain_organiser.py:46-61 | `partition`: the returned boundary holds the old middle mountain; every mountain before it in the range is smaller, none after it is smaller; only the range is rearranged. |
| MountainOrganiser.MountainOrganiser.PartitionStep | mountain_organiser.py:52-59 | One turn of the loop: a mountain smaller than the pivot is swapped in behind the boundary, which moves up by one, and the partition invariant holds one position further on. |
| MountainOrganiser.MountainOrganiser.Swap | mountain_organiser.py:55 | The tuple swap exchanges exactly two positions and nothing else. |
| MountainOrganiser.JoinSorted | mountain_organiser.py:41-44 | Sorted smaller part, pivot, sorted not-smaller part: the whole range is sorted. |
| Trails.RemoveBranch | trail.py:27-29 | `remove_branch`: the split and both its branches go, and the following trail alone is left. |
| Trails.RemoveMountain | trail.py:47-53 | `remove_mountain`: one store fewer, and a trail of series loses exactly its first mountain. |
| Trails.SeriesAddMountainBefore | trail.py:60-68 | A series with a new mountain in front: one store more, and a trail of series gains exactly that mountain at its front. |
| Trails.SeriesAddEmptyBranchBefore | trail.py:69-77 | An empty split in front of a series: three stores more (the split and two empty branches), and the trail is no longer a plain series. |
| Trails.AddMountainAfter | trail.py:79-90 | A new mountain after the first: one store more, and a trail of series gains exactly that mountain in second place. |
| Trails.AddEmptyBranchAfter | trail.py:93-105 | An empty split after the first mountain: three stores more, and the trail is no longer a plain series. |
| Trails.AddMountainBefore | trail.py:114-122 | A new mountain before a whole trail: one store more, and a trail of series gains exactly that mountain at its front. |
| Trails.AddEmptyBranchBefore | trail.py:124-133 | An empty split before a whole trail: three stores more, and the trail is no longer a plain series. |
| Trails.Walk | trail.py:136-160 | The route `follow_path` takes; it meets every store at most once, so it hands over fewer mountains than the trail has stores. |
| Trails.RemoveAddedMountain | trail.py:47-68 | `remove_mountain` undoes `add_mountain_before`, for a series and for a whole trail. |
| Trails.RemoveAddedBranch | trail.py:69-77 | `remove_branch` undoes `add_empty_branch_before`, for a series and for a whole trail. |
| Trails.WalkSeries | trail.py:157-160 | On a trail made only of series, the walk adds every mountain once, front to back, whatever the walker chooses, and is never stopped. |
| Trails.WalkAddMountainBefore | trail.py:114-122 | A mountain added before a trail is walked first, then the old trail's walk. |
| Trails.WalkAddEmptyBranchBefore | trail.py:124-133 | An empty branch added in front changes nothing about a walk that takes either branch, and ends a walk that stops there. |
| Trails.WalkAddMountainAfter | trail.py:79-90 | A mountain added after the first one is walked right after it, then the rest; the walk stops exactly when the walk of the rest does. |
| Trails.WalkAddEmptyBranchAfter | trail.py:93-105 | An empty branch added after the first mountain: a walk that takes either branch meets the first mountain, then the rest as before; a walk that stops there ends right after the first mountain. |
| Trails.PushFollowingWalk | trail.py:147-148 | Pushing a split's following trail (unless it is empty) puts its walk in front of the stack's. |
| Trails.SplitStep | trail.py:146-155 | Pushing the following trail and then the chosen branch walks exactly as the split itself, and the stack gets smaller. |
| Trails.SeriesStep | trail.py:157-160 | Adding a series' mountain and pushing its following trail walks exactly as the series itself, and the stack gets smaller. |
| Trails.FollowPath | trail.py:136-160 | `follow_path`: the mountains handed to the walker, in order, are exactly those of the recursive walk of the trail. |
| MountainManager.MountainManager.constructor | mountain_manager.py:7-8 | A new manager holds no mountains. |
| MountainManager.MountainManager.AddMountain | mountain_manager.py:10-11 | `add_mountain`: the mountain is appended at the end. |
| MountainManager.MountainManager.RemoveMountain | mountain_manager.py:13-15 | `remove_mountain`: the list without its first copy of the mountain, and one copy fewer as a multiset; nothing changes when it is absent. |
| MountainManager.RemoveFirstSpec | mountain_manager.py:13-15 | `list.remove`: an absent mountain leaves the list alone; otherwise one copy goes, the list shrinks by one, and the copy removed is the first. |
| MountainManager.RemoveAppended | mountain_manager.py:10-15 | Removing a mountain just appended to a list that did not hold it gives back the list. |
| MountainManager.MountainManager.EditMountain | mountain_manager.py:17-20 | `edit_mountain`: when `old` is present, its first copy goes and `new` is appended; otherwise nothing changes. |
| MountainManager.MountainManager.MountainsWithDifficulty | mountain_manager.py:22-24 | `mountains_with_difficulty`: the result is the filter `WithDifficulty` of the list. |
| MountainManager.WithDifficultyCounts | mountain_manager.py:22-24 | The filter holds every mountain of the requested difficulty as often as the list does, and no other mountain. |
| MountainManager.WithDifficultyMembers | mountain_manager.py:22-24 | A mountain is listed exactly when it is on the list with that difficulty. |
| MountainManager.WithDifficultyConcat | mountain_manager.py:22-24 | The filter keeps list order: filtering two lists one after the other gives the two filters one after the other. |
| MountainManager.MountainHash | mountain_manager.py:26-30 | `mountain_hash`: a slot below 27 that differs from the difficulty by a multiple of 27, negative difficulties included. |
| MountainManager.MountainHashSlots | mountain_manager.py:26-30 | Difficulties 0 to 26 are their own slot; difficulties 27 apart share a slot. |
| MountainManager.MountainManager.GroupByDifficulty | mountain_manager.py:32-42 | `group_by_difficulty`: every group is non-empty and is exactly the list's mountains of its difficulty, in list order; groups go by strictly ascending difficulty; every difficulty on the list has a group. |
| MountainManager.Tally | mountain_manager.py:36-40 | The loop that fills the table: each difficulty's group is the filter of the list by it, and the stored keys are exactly the difficulties seen, each once. |
| MountainManager.TallyStep | mountain_manager.py:37-40 | One mountain more: appending to an existing group or creating a new one keeps the table a tally of the mountains so far. |
| MountainManager.LookUpAll | mountain_manager.py:42 | The final comprehension: one group per sorted key, the group stored under that key. |
| MountainManager.GroupsFacts | mountain_manager.py:41-42 | Groups looked up in strictly ascending key order are the filters by their keys, headed by a mountain of that key, and they cover every difficulty. |
| MountainManager.StrictlyAscending | mountain_manager.py:41 | The sorted difficulty keys, each stored once, are strictly ascending. |
| InfiniteHashTable.Hash | infinite_hash_table.py:32-35 | `hash`: a slot below 27; slot 26 exactly when the key is exhausted at this depth. |
| InfiniteHashTable.Singleton | infinite_hash_table.py:72-74 | The child made on a collision, after its first key is set: a valid table one level deeper holding just that leaf. |
| InfiniteHashTable.Insert | infinite_hash_table.py:55-81 | `__setitem__` of a new key: the table stays valid, holds the old leaves plus the new one, and its count grows by one. |
| InfiniteHashTable.InsertIntoSlot | infinite_hash_table.py:63-81 | Replacing the key's slot by one holding one leaf more keeps the table valid, adds exactly that leaf and counts it. |
| InfiniteHashTable.Get | infinite_hash_table.py:37-53 | `__getitem__` as documented: a value returned is stored under the key; `KeyError` only for a key that is not stored. |
| InfiniteHashTable.GetFindsLeaf | infinite_hash_table.py:37-53 | Every stored leaf is what `__getitem__` returns for its key. |
| InfiniteHashTable.InsertThenGet | infinite_hash_table.py:55-81 | Setting a new key and then getting it returns the value set, and `len` grows by one. |
| InfiniteHashTable.InsertKeepsOthers | infinite_hash_table.py:55-81 | Setting a new key leaves every other key's lookup unchanged. |
| InfiniteHashTable.Delete | infinite_hash_table.py:83-116 | `__delitem__`: `KeyError` exactly when the key is absent; otherwise the table stays valid, loses exactly that leaf, and counts one fewer. |
| InfiniteHashTable.Collapsed | infinite_hash_table.py:112-116 | After a delete under a child, the parent stores a child with the same leaves, which is the single remaining leaf once the child holds only one. |
| InfiniteHashTable.CollapseYieldsLeaf | infinite_hash_table.py:112-116 | The collapse loop finds the only leaf of a child counting one, since such a child holds no grandchild. |
| InfiniteHashTable.RemoveFromSlot | infinite_hash_table.py:96-111 | Replacing the key's slot by one holding one leaf fewer keeps the table valid and counts one fewer. |
| InfiniteHashTable.DeleteRemovesKey | infinite_hash_table.py:83-116 | After a delete the key is no longer contained, and `len` drops by one. |
| InfiniteHashTable.DeleteKeepsOthers | infinite_hash_table.py:83-116 | A delete leaves every other key's lookup unchanged. |
| InfiniteHashTable.DeleteShortensPaths | infinite_hash_table.py:112-116 | A delete never lengthens the location of another key. |
| InfiniteHashTable.ValidNoDup | infinite_hash_table.py:55-81 | No key is stored twice in a valid table. |
| InfiniteHashTable.Contains | infinite_hash_table.py:156-167 | `__contains__`: true exactly when the key is stored. |
| InfiniteHashTable.Len | infinite_hash_table.py:118-119 | `__len__`: the root count is the number of stored keys and of stored leaves. |
| InfiniteHashTable.Path | infinite_hash_table.py:139-146 | The slots visited for a key, one per level from the root, each the key's hash at that level. |
| InfiniteHashTable.GetLocation | infinite_hash_table.py:129-153 | `get_location`: `KeyError` exactly when the key is absent; otherwise the slots leading to its leaf, one hash per level. |
| InfiniteHashTable.QuickSort | infinite_hash_table.py:197-209 | `quick_sort`: the result is ascending and a permutation of the input. |
| InfiniteHashTable.Split | infinite_hash_table.py:202-208 | The loop that deals items into `less` and `greater`: together they hold exactly the items, smaller than the pivot in `less`, the rest in `greater`. |
| InfiniteHashTable.JoinAscending | infinite_hash_table.py:209 | Sorted smaller items, pivot, sorted not-smaller items: ascending. |
| InfiniteHashTable.SortKeys | infinite_hash_table.py:169-185 | `sort_keys`: every stored key exactly once, in ascending string order. |
| Probing.PolyHash | double_key_table.py:45-57 | `hash1`/`hash2`: a slot of the table; the empty key hashes to 0. |
| Probing.RollingHash | double_key_table.py:52-56 | The accumulator loop computes `PolyHash`. |
| Probing.Find | double_key_table.py:82-93 | Linear probing: a slot holding the key, or the first free slot on the key's probe sequence, or exhausted exactly when a full turn meets neither. |
| Probing.LinearProbe | double_key_table.py:82-93 | The probe loop returns `Find`. |
| Probing.StoredIsFound | double_key_table.py:82-93 | In a well-placed table a key is stored exactly when its probe finds it. |
| Probing.LookupIsEntry | double_key_table.py:214-223 | In a well-placed table a lookup succeeds exactly on the stored pairs. |
| Probing.ExhaustedFull | double_key_table.py:82-93 | A probe goes all the way round only in a full table. |
| Probing.PutSpec | double_key_table.py:237-240 | Writing a key at the slot its probe reaches: the table stays well placed, the key looks up to the new item, every other key looks up as before, and one slot more is used exactly when the key was new. |
| Probing.Repair | double_key_table.py:259-269 | The repair loop after a delete, with each lifted entry re-inserted into the same inner table: the table ends well placed with the same entries and as many occupied slots. |
| Probing.Reinsert | double_key_table.py:261-269 | One pass of the repair loop, re-inserting into the same inner table: it keeps the entries, moves one slot on, and strictly reduces the total displacement. |
| Probing.RemoveAt | double_key_table.py:255-269 | An inner delete with the intended repair: the entry is gone, the table stays well placed, and one slot fewer is used. |
| Probing.RemoveSpec | double_key_table.py:255-269 | After the delete with the intended repair, the key looks up to `KeyError` and every other key as before. |
| Probing.KeysFound | double_key_table.py:153-155 | The keys a table lists in slot order are exactly those its probe finds, each once. |
| Probing.ItemsFound | double_key_table.py:194-198 | The items a table lists are exactly the results of its lookups. |
| Probing.CollectKeys | double_key_table.py:153-155 | The listing loop returns the keys in slot order. |
| Probing.CollectItems | double_key_table.py:194-198 | The listing loop returns the items in slot order. |
| DoubleKeyTable.DoubleKeyTable.constructor | double_key_table.py:30-42 | `__init__`: the given ladders (the default `TABLE_SIZES`, and the inner ladder defaulting to the outer one), the first size, no pairs, every lookup `KeyError`. |
| DoubleKeyTable.DoubleKeyTable.TableSize | double_key_table.py:293-298 | `table_size`: the current outer size. |
| DoubleKeyTable.DoubleKeyTable.Len | double_key_table.py:300-304 | `__len__`: the number of stored pairs. |
| DoubleKeyTable.DoubleKeyTable.Hash1 | double_key_table.py:45-57 | `hash1`: the polynomial hash for the outer size. |
| DoubleKeyTable.DoubleKeyTable.Hash2 | double_key_table.py:59-71 | `hash2`: the polynomial hash for the inner size. |
| DoubleKeyTable.DoubleKeyTable.LinearProbe | double_key_table.py:73-99 | `_linear_probe`: on insert, a new `key1` claims the free outer slot its probe reaches, with a fresh inner table; then the inner table is probed; `KeyError` or `FullError` as documented. |
| DoubleKeyTable.ClaimKeeps | double_key_table.py:82-93 | Claiming an outer slot keeps the table placed, keeps every lookup and the size, and makes `key1` found. |
| DoubleKeyTable.DoubleKeyTable.GetItem | double_key_table.py:214-223 | `__getitem__`: the value stored under the pair, else `KeyError`; nothing is stored. |
| DoubleKeyTable.DoubleKeyTable.Contains | double_key_table.py:201-212 | `__contains__`: true exactly when the lookup succeeds. |
| DoubleKeyTable.DoubleKeyTable.Store | double_key_table.py:229-240 | The write of `__setitem__`: `FullError` exactly when there is no room; otherwise the new outer slots are `StoreSpec`. |
| DoubleKeyTable.StoreSpecFacts | double_key_table.py:229-240 | After the write the pair looks up to the new value, every other pair as before, the size grows exactly when the pair was new, and the `key1`s found are the old ones plus `key1`. |
| DoubleKeyTable.StoreAtSpec | double_key_table.py:237-240 | Writing into `key1`'s inner table changes that one pair and the count under `key1`, and no outer slot. |
| DoubleKeyTable.DoubleKeyTable.SetItem | double_key_table.py:225-243 | `__setitem__`: the pair then looks up to the data, every other pair as before, the count grows exactly for a new pair, the `key1`s found (those `keys()` lists) are the old ones plus `key1`, and the table moves up one size exactly when the load check fires and the ladder has a next size. |
| DoubleKeyTable.DoubleKeyTable.DelItem | double_key_table.py:245-269 | `__delitem__` with the intended repair: `KeyError` exactly when the pair is absent; otherwise it is gone, every other pair looks up as before, and the count drops by one. |
| DoubleKeyTable.DeleteSpec | double_key_table.py:255-269 | Replacing the inner table by its repaired version (the intended repair) removes the pair alone and keeps every outer key where it was. |
| DoubleKeyTable.DoubleKeyTable.Rehash | double_key_table.py:271-289 | `_rehash`: every pair looks up as before, the same `key1`s are found (including those whose pairs were all deleted), and the count is unchanged; the table moves to the next size, or stays as it is on the last size. |
| DoubleKeyTable.DoubleKeyTable.MoveSlot | double_key_table.py:287-289 | One old outer slot, its `key1` with its whole inner table, moves to the free slot its probe reaches in the new table. |
| DoubleKeyTable.RehashDone | double_key_table.py:287-289 | Once every old slot has moved, the new table holds exactly the old pairs, and as many of them, under exactly the old `key1`s. |
| DoubleKeyTable.DoubleKeyTable.Keys | double_key_table.py:141-156 | `keys`: with no key, every `key1` in outer slot order, exactly those stored; with a `key1`, exactly the `key2`s stored under it; no key listed twice. |
| DoubleKeyTable.KeysOfSpec | double_key_table.py:141-151 | The `key2`s listed for `key1` are exactly those whose pair looks up, each once. |
| DoubleKeyTable.DoubleKeyTable.Values | double_key_table.py:181-199 | `values`: with no key, every stored value, as many as `len`; with a `key1`, exactly the values of its pairs. |
| DoubleKeyTable.AllValuesSpec | double_key_table.py:193-198 | The values listed are exactly those the stored pairs look up to, one per pair. |
| DoubleKeyTable.ValuesOfSpec | double_key_table.py:186-192 | The values listed for `key1` are exactly those its pairs look up to. |
| DoubleKeyFindings.KeysAsWrittenUnfiltered | double_key_table.py:147-151 | As written, `keys(a)` lists a `key2` stored only under another `key1`. |
| DoubleKeyFindings.ValuesAsWrittenWrongTable | double_key_table.py:187-192 | As written, `values("f")` returns the value of the `key1` that sits at `hash1("f")`. |
| DoubleKeyFindings.OuterSlotAsWrittenFull | double_key_table.py:82-95 | As written, a full outer table sends a missing `key1` to another `key1`'s slot. |
| DoubleKeyFindings.RehashIndexAsWrittenOffLadder | double_key_table.py:280-282 | As written, a rehash on the last size leaves the ladder position past the end. |
| DoubleKeyFindings.RehashPairAsWrittenLosesKey | double_key_table.py:289 | As written, the reinsertion never stores anything under the old `key1`. |
| DoubleKeyFindings.RepairMoveAsWritten | double_key_table.py:263-267 | As written, a lifted entry is re-inserted through the outer probe with its `key2` as the `key1`; the result keeps the table's shape and touches no outer slot but the one that probe reaches. |
| DoubleKeyFindings.RepairMoveAsWrittenKeepsOuter | double_key_table.py:266-267 | As written, the move writes into the slot of the lifted `key2` taken as a `key1`, so every other `key1` keeps its slot and its inner table. |
| DoubleKeyFindings.RepairMoveAsWrittenLosesPair | double_key_table.py:261-267 | As written, a pair `(a, y)` stored right behind the deleted one looks up before the repair and raises `KeyError` after it. |
| DoubleKeyFindings.ClearedLosesKey | double_key_table.py:264 | Emptying a key's slot in a well-placed inner table leaves no entry for that key. |
| DoubleKeyFindings.RepairNextAsWrittenOverruns | double_key_table.py:259 | As written, after one rehash the repair steps past the end of a five-slot inner table. |
| InfiniteHashFindings.GetAsWrittenOtherLeaf | infinite_hash_table.py:51-53 | As written, a lookup that meets another key's leaf returns nothing instead of raising `KeyError`. |
| InfiniteHashFindings.GetAsWrittenBelowRoot | infinite_hash_table.py:49 | As written, a lookup that meets a child table fails on `collision[0]`, although the key is stored below. |
| MountainManager.GroupAsWrittenSharedSlot | mountain_manager.py:37-38 | As written, two difficulties that share a root slot make the grouping fail. |

## Left out

- `iter_keys` and `iter_values` (double_key_table.py:118-139, 158-179) are not modelled. They build iterator classes that cannot run as written: they put generators inside `__next__`, and `self` there is the iterator, not the table.
- `__str__` of both tables is not modelled. It only renders values as text.
- `collect_all_mountains`, `difficulty_maximum_paths` and `difficulty_difference_paths` (trail.py:162-172) are not modelled. They only raise `NotImplementedError`.
- The walker personality is external to these files. Its `select_branch` is the function parameter `choose`. Its `add_mountain` calls are the sequence `FollowPath` returns.
- The `LinearProbeTable`, `ArrayR` and `LinkedStack` library types are not part of this model. The inner table is a fixed-size sequence of slots with standard +1 linear probing. An `ArrayR` is a Dafny `array` (the double-key table's outer table, the organiser's list) or a sequence (a trie table). The stack is a sequence whose last element is its top.
- Inner tables never grow. Entries are written straight into the inner table's array (double_key_table.py:240, 267), so the inner table's own count and resizing never run. Every inner table keeps the first inner size.
- The double-key table uses a `sizes` ladder field for the class constant `TABLE_SIZES`, which the constructor may replace (double_key_table.py:34-35). Ladders are required to be increasing sizes of at least 2.
- `Keys` and `Values` read `for key, value in sub_table` (double_key_table.py:150, 191, 197) as iterating the inner table's entries, as their comments describe. As written, `sub_table` is the outer slot's `(key1, inner table)` pair.
- InfiniteHashTable.Insert: requires a key that is not yet stored. Re-setting a stored key recurses without end at the collision branch, and `count` also grows on an overwrite (infinite_hash_table.py:68-81).
- InfiniteHashTable.Insert: requires keys of lower-case letters (`IsLetterKey`). For these, the code modulo 26 tells characters apart, so two different keys always end up in different slots. Other strings can collide at every level.
- The infinite hash table is modelled on values (a `Table` datatype), not as objects updated in place. So aliasing of child tables is not modelled.
- MountainManager.MountainManager.GroupByDifficulty: keys its table directly by difficulty (a `map`) rather than building the trie. The overridden `hash` applies to the root only, and nested tables would take `len` of an integer. Its keys are listed in the order they were first met rather than in slot order; the sort that follows makes the two orders give the same result. The as-written behaviour on the root is `GroupAsWritten` (see "## Findings").
- MountainManager.MountainHash: the table argument of `mountain_hash` is fixed to the infinite hash table's size, 27.
- `list.remove` and the list comprehension are functions on sequences (`RemoveFirst`, `WithDifficulty`).
- A mountain's fields other than its name and difficulty level are not part of this model. The organiser's order and the grouping look only at these two.
- Probing.Repair: re-inserts each lifted entry into the same inner table, by its `key2`. As written, line 266 of double_key_table.py re-inserts it through the outer probe instead (see "## Findings").
- Probing.Reinsert: re-inserts into the same inner table rather than through the outer probe of double_key_table.py:266 (see "## Findings").
- Probing.RemoveAt: models the intended repair. It does not promise what the delete as written does to the pairs lifted out of the cluster (see "## Findings").
- Probing.RemoveSpec: states the intended repair. As written, a pair lifted out of the cluster can move to another `key1` (see "## Findings").
- DoubleKeyTable.DeleteSpec: states the intended repair, not the re-insertion through the outer probe at double_key_table.py:266 (see "## Findings").
- DoubleKeyTable.DoubleKeyTable.DelItem: uses the intended repair. As written, a pair lifted out of the cluster can move to another `key1` (see "## Findings").
- Python's `KeyError`/`FullError` exceptions are returned as `Err` values. The `TypeError` and `IndexError` of the findings are outcomes of the as-written functions.

## Findings

| source | as written | input that shows it | evidently intended | confidence | as-written member | corrected member |
|---|---|---|---|---|---|---|
| double_key_table.py:147 | `keys(key)` lists the `key2`s of every inner table whenever a key is given | a table holding the pair `(b, y)` but no pair `(a, y)`, asked for `keys(a)` | only the `key2`s stored under the given `key1` | not executed | DoubleKeyFindings.KeysAsWrittenUnfiltered | DoubleKeyTable.DoubleKeyTable.Keys |
| double_key_table.py:188-189 | `values(key)` reads outer slot `hash1(key)` without probing | five outer slots, where `"a"` sits at its home slot 2 and `"f"` (home also 2) was probed on to slot 3; `values("f")` gives `[1]` instead of `[2]` | the values under the slot where the probe finds `key1` | not executed | DoubleKeyFindings.ValuesAsWrittenWrongTable | DoubleKeyTable.DoubleKeyTable.Values |
| double_key_table.py:82-95 | a probe loop that meets neither `key1` nor a free slot falls out of the loop and uses the home slot, which holds another `key1` | every outer slot claimed by other `key1`s (slots are never released) | `FullError` on insert, `KeyError` on lookup | not executed | DoubleKeyFindings.OuterSlotAsWrittenFull | DoubleKeyTable.DoubleKeyTable.LinearProbe |
| double_key_table.py:280-282 | `size_index` is increased before the end-of-ladder check, so it is left past the ladder | a rehash while on the last size | stay on the last size | not executed | DoubleKeyFindings.RehashIndexAsWrittenOffLadder | DoubleKeyTable.DoubleKeyTable.Rehash |
| double_key_table.py:289 | `self[sub_table[0]] = sub_table[1]` uses `key1` as the key pair: its first two characters | an old slot holding `key1` `"ab"` is written under the pair `("a", "b")`; a one-character `key1` fails | move `key1` with its whole inner table | not executed | DoubleKeyFindings.RehashPairAsWrittenLosesKey | DoubleKeyTable.DoubleKeyTable.MoveSlot |
| double_key_table.py:266-267 | each entry lifted out of the cluster is re-inserted with `_linear_probe(keykey, value, True)`: its `key2` becomes a `key1` and its value a `key2`, and it is written into that outer slot's inner table | default sizes; `key1` `"a"` holds `key2`s `x` and `y`, with `y` in the inner slot right after `x`; `del t["a", x]` moves `(y, v)` (a string `v`) under `key1` `"y"`, and `t["a", y]` then raises `KeyError` | re-insert the lifted entry into the same inner table, by its `key2` | not executed | DoubleKeyFindings.RepairMoveAsWrittenLosesPair | Probing.Repair |
| double_key_table.py:259 | the repair steps modulo `internal_sizes[size_index]`, the inner size at the outer ladder position | default sizes, one rehash done, delete from inner slot 4 of a five-slot inner table: the next slot is 5 | step modulo the inner table's own size | not executed | DoubleKeyFindings.RepairNextAsWrittenOverruns | Probing.Repair |
| infinite_hash_table.py:51-53 | a lookup that meets a leaf for another key returns `None`; `__contains__` (lines 156-167) inherits this and answers `True` for such an absent key | table holding only `"ab"`, lookup of `"ax"` | `KeyError` | not executed | InfiniteHashFindings.GetAsWrittenOtherLeaf | InfiniteHashTable.Get |
| infinite_hash_table.py:49 | `collision[0]` on a child table looks up the integer 0, whose hash takes `len` of an integer; `__contains__` (lines 156-167) catches only `KeyError`, so this `TypeError` escapes it too | `"ab"` then `"ac"` set (they share root slot 19), then a lookup of `"ab"` | descend into the child table | not executed | InfiniteHashFindings.GetAsWrittenBelowRoot | InfiniteHashTable.Get |
| mountain_manager.py:37-38 | `in` on the root answers yes for a slot holding another difficulty, then `append` is called on the `None` the lookup returns | mountains of difficulty 1 and 28 (both slot 1) | two groups, `[A]` and `[B]` | not executed | MountainManager.GroupAsWrittenSharedSlot | MountainManager.MountainManager.GroupByDifficulty |
