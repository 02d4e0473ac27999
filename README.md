# multi_index_map: the emitted container, modelled in Dafny

`#[derive(MultiIndexMap)]` turns a struct with annotated fields into a
container. The records live in a slab, `_store`, and every indexed field
gets its own lookup table. A unique field's table maps a value to the slot
of the one record holding it. A non-unique field's table maps a value to
the slots of all the records holding it. The macro emits `insert`,
`remove_by_F`, `modify_by_F`, `update_by_F`, `get_by_F`, `iter_by_F` (with
`next_back` for ordered tables), `clear`, `len`, `reserve` and
`shrink_to_fit`. This project models that emitted container for a record
with one field of each index kind plus an unindexed payload. It models
three revisions of the templates.

- **Newest and middle revisions** (`multi_index_map_derive/src/generators.rs`
  and `multi_index_map_derive/src/lib.rs`). Both are modelled by the class
  `MultiIndex.MultiIndexMap` (`multi_index.dfy`), with its table edits and
  their lemmas in `Tables` (`tables.dfy`) and its iterators in `Iterators`
  (`iterators.dfy`). The two revisions emit the same engine, with two
  differences. The middle one clones the whole record before a
  modification, while the newest keeps only the indexed fields; both
  compare the same indexed values. The middle one also has no `update_by_F`.
  - A non-unique table is a `BTreeSet` of slots. It is modelled as
    `set<nat>`, and the set is iterated in ascending order (`Order.Sorted`).
  - `Valid` says every table agrees with the store:
    - every occupied slot is registered under its current values;
    - every registration names an occupied slot holding that value;
    - no set is empty.
  - Each method is proved to keep `Valid`, or to report the uniqueness
    violation after which no table could agree with the store.
- **First revision** (`src/lib.rs`). It is modelled by
  `FirstRevision.FirstRevisionMap` (`first_revision.dfy`), whose methods are
  proved equal to the value-level transitions of `FirstTables`
  (`first_tables.dfy`).
  - It has three index kinds. The non-unique table holds a `Vec` of slots
    in insertion order.
  - Its edits are unchecked:
    - an insert silently re-points a unique value that is already present;
    - a removal deletes the removed record's values as whole keys;
    - a modification moves whole entries.
  - `Sound` means no entry is stale. `Complete` means every record is
    reachable through every table.
  - `Sound` survives inserts and removals. `Complete` does not, and the
    lemmas say exactly when each is kept.
  - In that revision's tests the non-unique field is called `field1`. Here
    it is `field2`.
- **The slab** (`Slab`, `slab.dfy`). It is modelled by what the container
  uses of it:
  - a map from occupied slot to record;
  - `insert` into some vacant slot;
  - `remove` of an occupied slot;
  - iteration over the occupied slots in ascending order.

The panics a caller can reach become `Err` (or `None` in a loop's outcome):
a uniqueness violation, and in the first revision a vacant slot or a
missing entry. Each such result carries the state at the point of the
panic. The later revisions' internal-invariant panics are not modelled
(see "## Left out").

## Model

| member | source | states |
|---|---|---|
| Element.WithPayload | multi_index_map_derive/src/generators.rs:413-424 | the updater's closure reaches only unindexed fields: every indexed value of the record is kept and only the payload changes |
| Slab.Occupied | multi_index_map_derive/src/generators.rs:748-750 | the slab yields each occupied slot exactly once, in ascending order, and no vacant slot |
| Slab.VacantSlotExists | multi_index_map_derive/src/generators.rs:735-736 | the slab always has a vacant slot for `insert` to fill |
| Slab.Vacated | multi_index_map_derive/src/generators.rs:400-401 | removing slots one by one leaves exactly the other occupied slots, with their records unchanged |
| Slab.VacateCount | multi_index_map_derive/src/generators.rs:397-405 | vacating a set of occupied slots lowers the occupied count by the size of the set |
| Slab.NthTraversal | multi_index_map_derive/src/generators.rs:489-512 | the `nth(idx - last_idx)` loop as written reaches, for each target, the occupied slot whose RANK is that target, and panics when no such rank exists |
| Slab.NthVisit | multi_index_map_derive/src/generators.rs:489-512 | the specification of the as-written traversal: it panics exactly when some target is at least the number of occupied slots; otherwise it visits one occupied slot per target |
| Slab.NthTraversalExactIffNoHoles | multi_index_map_derive/src/generators.rs:439-456 | the as-written traversal reaches exactly the target slots if and only if no vacant slot lies below any target |
| Slab.NthTraversalPanicsAfterHoles | multi_index_map/tests/non_unique_holes.rs:18-49 | in that test's state (slots 2..5 of one group, slots 0 and 1 vacated) the as-written traversal panics instead of visiting four records |
| Slab.NthTraversalVisitsWrongSlot | multi_index_map_derive/src/generators.rs:439-456 | with only slot 0 vacant, the traversal aimed at slot 2 silently lands on slot 3 |
| Slab.KeyedTraversal | multi_index_map_derive/src/generators.rs:493-512 | a traversal that checks the slot the iterator reports visits exactly the target slots, in ascending order, whatever holes lie below them |
| Slab.IsEmpty | multi_index_map_derive/src/generators.rs:719-721 | `is_empty`, shared by all three revisions (src/lib.rs:311-313 emits the same body), holds exactly when no slot is occupied, that is when `len` is 0 |
| Slab.Iter | multi_index_map_derive/src/generators.rs:748-750 | `iter`, shared by all three revisions (src/lib.rs:322-324 emits the same body), yields every occupied slot with its record, and nothing else |
| Slab.IterAscending | multi_index_map_derive/src/generators.rs:748-750 | `iter` yields the slots in ascending order, hence each once |
| Tables.GroupAdd | multi_index_map_derive/src/generators.rs:129-133 | `entry(k).or_insert(new).insert(s)`: the key is present afterwards, its set gains `s` (starting empty when the key was absent), and every other key is unchanged |
| Tables.GroupRemove | multi_index_map_derive/src/generators.rs:172-184 | the non-unique part of a removal: the slot leaves the value's set, a remaining set is never empty and only shrinks, and every other value keeps its set |
| Tables.UniqueMove | multi_index_map_derive/src/generators.rs:237-247 | the unique part of a re-key: a changed value moves the slot from the old value to the new one, and every other entry is kept |
| Tables.GroupMove | multi_index_map_derive/src/generators.rs:249-262 | the non-unique part of a re-key: a changed value files the slot under the new value and takes it out of the old value's set, and every other value keeps its set |
| Tables.UniqueLookup | multi_index_map_derive/src/generators.rs:313-318 | under agreement a value is in a unique table exactly when some stored record holds it |
| Tables.UniqueValuesDistinct | multi_index_map_derive/src/generators.rs:119-127 | under agreement no two records share a unique value |
| Tables.SharedUniqueValueBreaks | multi_index_map_derive/src/generators.rs:119-127 | two records sharing a unique value leave no unique table that agrees with the store |
| Tables.GroupIsMatching | multi_index_map_derive/src/generators.rs:319-331 | under agreement the set under a value is exactly the slots of the records holding it, and the value is absent exactly when no record holds it |
| Tables.UniqueDetermined | multi_index_map_derive/src/generators.rs:20-46 | two unique tables that agree with the same store are equal |
| Tables.GroupDetermined | multi_index_map_derive/src/generators.rs:20-46 | two non-unique tables that agree with the same store are equal |
| Tables.AgreementDetermines | multi_index_map_derive/src/generators.rs:697-701 | the store determines all four tables that agree with it |
| Tables.UniqueSize | multi_index_map_derive/src/generators.rs:715-717 | a unique table that agrees with the store has exactly one entry per record |
| Tables.UniqueAdd | multi_index_map_derive/src/generators.rs:119-127 | registering a record in a vacant slot under a fresh unique value keeps the unique table in agreement |
| Tables.GroupAddSlot | multi_index_map_derive/src/generators.rs:129-133 | adding a newly filled slot to its value's set keeps the non-unique table in agreement |
| Tables.UniqueDrop | multi_index_map_derive/src/generators.rs:169-171 | dropping the removed record's unique value keeps the unique table in agreement with the store without that slot |
| Tables.GroupDrop | multi_index_map_derive/src/generators.rs:172-184 | deleting the slot from a set of several, or the whole key for a set of one, keeps the non-unique table in agreement and leaves no empty set |
| Tables.GroupDropKey | multi_index_map_derive/src/generators.rs:397-399 | dropping a value together with all its slots keeps the non-unique table in agreement |
| Tables.UniqueRekey | multi_index_map_derive/src/generators.rs:236-247 | moving a slot from its old unique value to an unclaimed new one keeps the table in agreement |
| Tables.GroupRekey | multi_index_map_derive/src/generators.rs:248-264 | moving a slot between two values' sets keeps the non-unique table in agreement |
| Tables.PayloadKeepsUnique | multi_index_map_derive/src/generators.rs:419-422 | changing only a record's payload keeps a unique table in agreement |
| Tables.PayloadKeepsGroup | multi_index_map_derive/src/generators.rs:441-446 | changing only a record's payload keeps a non-unique table in agreement |
| Tables.PayloadKeepsAll | multi_index_map_derive/src/generators.rs:413-424 | changing only a record's payload keeps all four tables in agreement |
| Tables.Registered | multi_index_map_derive/src/generators.rs:111-136 | the inserts of `insert` in field order: field1's table always maps the value to the new slot, even when that overwrites another record's entry; without a violation every table files the new slot under the record's value |
| Tables.Unregistered | multi_index_map_derive/src/generators.rs:151-188 | the removes template: both unique values leave their tables, the slot leaves its sets in both non-unique tables, and no unique entry is added or changed |
| Tables.Rekeyed | multi_index_map_derive/src/generators.rs:220-266 | the post-modify templates in field order: Ok exactly when neither changed unique value collides; a violation on field1 exactly when field1 collides; an unchanged record changes nothing; without a violation every changed value maps to the slot |
| Tables.RegisteredKeeps | multi_index_map_derive/src/generators.rs:111-136 | `insert`'s table writes keep agreement exactly when no record already holds one of the new unique values; the violation names the first such field in declaration order; after a violation no tables can agree with the store |
| Tables.UnregisteredKeeps | multi_index_map_derive/src/generators.rs:151-188 | vacating an occupied slot and running the removes template for its record keeps every table in agreement |
| Tables.RekeyedKeeps | multi_index_map_derive/src/generators.rs:220-266 | the post-modify steps keep agreement exactly when no other record holds a changed unique value; the violation names the first such field; after it no tables can agree with the store |
| Tables.CollidesIffHeldElsewhere | multi_index_map_derive/src/generators.rs:239-246 | under agreement, re-inserting the changed unique value finds an entry exactly when another record holds that value |
| Tables.DropUniqueUnregistered | multi_index_map_derive/src/generators.rs:389-393 | a unique remover's first `remove(key)` is absorbed by the removes template run afterwards |
| Tables.UnregisteredAllKeeps | multi_index_map_derive/src/generators.rs:397-405 | part-way through a non-unique remover's loop, the tables agree with the remaining store once the key is taken to hold exactly the slots not yet reached |
| Tables.RemovedGroupKeeps | multi_index_map_derive/src/generators.rs:396-411 | a whole non-unique remover leaves tables that agree with the store and no longer hold the key |
| Tables.RemovedGroupSlots | multi_index_map_derive/src/generators.rs:396-411 | a non-unique remover vacates exactly the slots of the records holding the key, and the count drops by their number |
| Tables.GroupEmptyIffStoreEmpty | multi_index_map_derive/src/generators.rs:719-721 | under agreement a non-unique table is empty exactly when the store is |
| Tables.ModifiedAll | multi_index_map_derive/src/generators.rs:482-516 | a non-unique modifier's loop never changes which slots are occupied |
| Tables.ModifiedOne | multi_index_map_derive/src/generators.rs:497-503 | one round of the loop (snapshot, closure, post-modify) never changes which slots are occupied |
| Tables.ModifiedAllStops | multi_index_map_derive/src/generators.rs:495-512 | once a uniqueness panic has ended the loop, later slots change nothing |
| Tables.ModifiedAllKeeps | multi_index_map_derive/src/generators.rs:482-516 | without a violation the loop leaves tables that agree with the store; with one, no tables can agree with the resulting store |
| Tables.ModifiedOneKeeps | multi_index_map_derive/src/generators.rs:497-503 | one round keeps agreement, or leaves a store that no tables can agree with |
| Tables.ModifiedAllContents | multi_index_map_derive/src/generators.rs:495-512 | without a violation each listed record becomes its image under the closure; every other record is untouched |
| Tables.PayloadsUpdated | multi_index_map_derive/src/generators.rs:426-460 | `update_by` on a non-unique key maps the payload of exactly the listed records by the closure, leaves every other part of every record unchanged, and keeps every slot |
| Tables.AgreesSameIndexed | multi_index_map_derive/src/generators.rs:413-460 | tables that agree with a store still agree after any change that leaves indexed values alone |
| Tables.PayloadsUpdatedKeeps | multi_index_map_derive/src/generators.rs:426-460 | updating payloads keeps every table in agreement and every record matched by the same values |
| Iterators.FlattenIn | multi_index_map_derive/src/generators.rs:593-608 | both walks over a non-unique table reach only occupied slots |
| Iterators.FlattenCovers | multi_index_map_derive/src/lib.rs:541-557 | the forward walk reaches every slot of every listed key |
| Iterators.FlattenFrom | multi_index_map_derive/src/lib.rs:550-555 | every slot the forward walk reaches belongs to the container of a key the outer iterator yields |
| Iterators.FlattenDistinct | multi_index_map_derive/src/lib.rs:541-557 | walking distinct keys whose containers repeat no slot and share no slot meets no slot twice |
| Iterators.FlattenAscending | multi_index_map_derive/src/lib.rs:541-557 | walking an ordered non-unique table's ascending keys meets records in ascending order of the field |
| Iterators.FlattenBackReverse | multi_index_map_derive/src/lib.rs:560-579 | walking keys backward, each key's slots backward, is exactly the reverse of the forward walk |
| Iterators.Records | multi_index_map_derive/src/generators.rs:319-331 | the records at the given slots, one per slot, in the slots' order |
| Iterators.KeyedRecords | multi_index_map_derive/src/generators.rs:591 | the records a unique table leads to, one per key, in the keys' order |
| Iterators.Flatten | multi_index_map_derive/src/generators.rs:592-608 | the slots the forward walk reaches, key by key; a single key walks exactly its own set (`FlattenIn`, `FlattenCovers` and `FlattenFrom` state what it reaches) |
| Iterators.FlattenBack | multi_index_map_derive/src/generators.rs:615-628 | the slots the backward walk reaches, key by key, each set back to front; a single key walks its set reversed (`FlattenBackReverse` relates it to `Flatten`) |
| Iterators.WalkForward | multi_index_map_derive/src/generators.rs:592-608 | what the forward walk has still to reach: the inner iterator's slots come first, then the next key's set; with every key consumed only the inner iterator remains |
| Iterators.WalkBackward | multi_index_map_derive/src/generators.rs:615-628 | what the backward walk has still to reach; with every key consumed only the inner iterator's slots, back to front |
| Iterators.UniqueIter.constructor | multi_index_map_derive/src/generators.rs:518-534 | a fresh iterator has consumed nothing from either end |
| Iterators.UniqueIter.Next | multi_index_map_derive/src/generators.rs:591 | `next` yields the record of the next table entry and drops it from what remains; it yields None only when nothing remains |
| Iterators.UniqueIter.NextBack | multi_index_map_derive/src/generators.rs:611-614 | `next_back` yields the record of the last remaining entry of an ordered table; it yields None only when nothing remains |
| Iterators.FreshUniqueIterReverses | multi_index_map/tests/reverse_iter.rs:54-61 | a full backward pass over a unique table is exactly the reverse of a full forward pass |
| Iterators.WalkForwardStep | multi_index_map_derive/src/generators.rs:593-608 | one forward step takes the inner iterator's next slot, or else the first slot of the next key |
| Iterators.WalkBackwardStep | multi_index_map_derive/src/generators.rs:615-628 | one backward step takes the inner iterator's last slot, or else the last slot of the previous key |
| Iterators.GroupIter.constructor | multi_index_map_derive/src/generators.rs:518-534 | a fresh iterator has consumed no key and has no inner iterator |
| Iterators.GroupIter.Next | multi_index_map_derive/src/generators.rs:592-608 | `next` yields the next record of the forward walk and drops it from what remains; its `expect` on a non-empty set never fails |
| Iterators.GroupIter.NextBack | multi_index_map_derive/src/lib.rs:560-579 | `next_back` yields the next record of the backward walk and drops it from what remains; it yields None only when nothing remains |
| Iterators.FreshGroupIterWalks | multi_index_map_derive/src/generators.rs:592-608 | a fresh non-unique iterator walks every key's slots, key by key |
| Iterators.GroupsCover | multi_index_map_derive/src/lib.rs:541-557 | a walk over every key whose sets hold every record meets every stored record, and only stored records |
| Iterators.GroupWalk | multi_index_map_derive/src/lib.rs:541-557 | a walk over every key of an agreeing table meets every stored record and only those; over ascending keys, in ascending order of the field |
| Iterators.FreshGroupIterReverses | multi_index_map/tests/reverse_iter.rs:28-32 | a full backward pass over a non-unique table is exactly the reverse of a full forward pass, for slots and records alike |
| MultiIndex.MultiIndexMap.constructor | multi_index_map_derive/src/generators.rs:697-701 | `Default` is an empty, valid container |
| MultiIndex.MultiIndexMap.WithCapacity | multi_index_map_derive/src/generators.rs:704-709 | `with_capacity(n)` is an empty, valid container with room for at least `n` records |
| MultiIndex.MultiIndexMap.Capacity | multi_index_map_derive/src/generators.rs:711-713 | `capacity` is never below `len` on a valid container |
| MultiIndex.MultiIndexMap.Len | multi_index_map_derive/src/generators.rs:715-717 | `len` is zero exactly when `is_empty` holds |
| MultiIndex.MultiIndexMap.LenMatchesTables | multi_index_map_derive/src/lib.rs:652-658 | under agreement `len` is also the size of each unique table, and the container is empty exactly when every table is |
| MultiIndex.MultiIndexMap.Reserve | multi_index_map_derive/src/lib.rs:661-664 | `reserve` gives room for `additional` more records and changes no record and no table |
| MultiIndex.MultiIndexMap.ShrinkToFit | multi_index_map_derive/src/generators.rs:730-733 | `shrink_to_fit` lowers the capacity no further than the count and changes no record and no table |
| MultiIndex.MultiIndexMap.Clear | multi_index_map_derive/src/generators.rs:742-745 | `clear` empties the store and every table and keeps the container valid |
| MultiIndex.MultiIndexMap.GetByUnique | multi_index_map_derive/src/lib.rs:312-317 | a unique getter finds a record exactly when some record holds the key, and that record holds the key |
| MultiIndex.MultiIndexMap.GetByGroup | multi_index_map_derive/src/generators.rs:319-331 | a non-unique getter returns exactly the records holding the key, in ascending slot order |
| MultiIndex.MultiIndexMap.Insert | multi_index_map_derive/src/generators.rs:735-740 | `insert` as written: the record takes a vacant slot and `len` grows by one; the tables are written in field order; the result is Ok exactly when the container stays valid, and a violation is reported only after the state is written |
| MultiIndex.MultiIndexMap.Register | multi_index_map_derive/src/generators.rs:111-136 | the inserts template leaves the store alone and writes the tables field by field, stopping at the first uniqueness violation |
| MultiIndex.MultiIndexMap.StoredFound | tests/hashed_unique.rs:16-36 | a stored record is found by its own values through every table |
| MultiIndex.MultiIndexMap.TryInsert | multi_index_map_derive/src/generators.rs:119-127 | an insert that checks before writing: it fails exactly when a unique value is already held, in which case nothing changes; it always stays valid |
| MultiIndex.MultiIndexMap.Vacate | multi_index_map_derive/src/generators.rs:400-403 | the remover loop's body takes the record out of its slot and out of every table |
| MultiIndex.MultiIndexMap.VacateAll | multi_index_map_derive/src/generators.rs:397-409 | the non-unique remover's loop vacates the set's slots in ascending order and collects their records in that order |
| MultiIndex.MultiIndexMap.RemoveByUnique | multi_index_map_derive/src/generators.rs:386-395 | `remove_by_F` on a unique field returns what the getter would have returned and takes that record out of the store and every table; an absent key changes nothing; afterwards the key is gone and the container is valid |
| MultiIndex.MultiIndexMap.TakeUnique | multi_index_map_derive/src/generators.rs:389-393 | after the lookup, the key leaves its table, then its slot leaves the store and every table |
| MultiIndex.MultiIndexMap.TakeGroup | multi_index_map_derive/src/generators.rs:397-409 | after the lookup, the key's set leaves its table, then each of its slots leaves the store and every table in ascending order |
| MultiIndex.MultiIndexMap.RemoveByGroup | multi_index_map_derive/src/lib.rs:394-407 | `remove_by_F` on a non-unique field returns what the getter would have returned, in ascending slot order; it removes exactly the records holding the key, and `len` drops by their number; afterwards the key is gone and the container is valid |
| MultiIndex.MultiIndexMap.RemoveGroup | multi_index_map_derive/src/generators.rs:396-409 | with the key present, the remover returns and removes exactly the records holding it and keeps the container valid |
| MultiIndex.MultiIndexMap.PostModify | multi_index_map_derive/src/generators.rs:220-266 | the post-modify template leaves the store alone and re-keys only the changed fields, in field order, stopping at the first uniqueness violation |
| MultiIndex.MultiIndexMap.ModifySlot | multi_index_map_derive/src/generators.rs:473-479 | the closure's image replaces the record in its slot, then the changed fields are re-keyed |
| MultiIndex.MultiIndexMap.ModifyByUnique | multi_index_map_derive/src/generators.rs:467-481 | `modify_by_F` on a unique field: an absent key changes nothing; otherwise the record becomes its image under the closure; the result is Ok exactly when the container stays valid, and an Err names the first changed unique value that another record holds |
| MultiIndex.MultiIndexMap.ModifyAll | multi_index_map_derive/src/generators.rs:495-515 | the modifier's loop performs the rounds of `Tables.ModifiedAll` and collects the changed records |
| MultiIndex.MultiIndexMap.ReachGroup | multi_index_map_derive/src/generators.rs:489-512 | the traversal, with each step checked against the slot reached, visits exactly the slots holding the key, in ascending order |
| MultiIndex.MultiIndexMap.ModifyByGroup | multi_index_map_derive/src/lib.rs:430-462 | `modify_by_F` on a non-unique field changes exactly the records holding the key, in ascending slot order, and returns them; the result is Ok exactly when the container stays valid |
| MultiIndex.MultiIndexMap.UpdateByUnique | multi_index_map_derive/src/generators.rs:413-425 | `update_by_F` on a unique field changes only the payload of the record holding the key; no table changes; it returns what the getter then returns |
| MultiIndex.MultiIndexMap.SetRecord | multi_index_map_derive/src/generators.rs:420-422 | the updater's write through `&mut self._store[idx]`: only that slot's record changes; no table and no other slot changes |
| MultiIndex.MultiIndexMap.UpdateAll | multi_index_map_derive/src/generators.rs:438-457 | the updater's loop maps the payload of each listed record and collects them |
| MultiIndex.MultiIndexMap.UpdateByGroup | multi_index_map_derive/src/generators.rs:426-460 | `update_by_F` on a non-unique field changes only the payloads of the records holding the key; no table changes; it returns what the getter then returns |
| MultiIndex.MultiIndexMap.IterByUnique | multi_index_map_derive/src/lib.rs:466-481 | a unique `iter_by_F` yields every record exactly once, and an ordered table yields them in strictly ascending order of the field |
| MultiIndex.MultiIndexMap.IterByGroup | multi_index_map_derive/src/generators.rs:518-534 | a non-unique `iter_by_F` walks the table's own keys (ascending for an ordered table, the hash map's order otherwise), each key's slot set in ascending slot order; the walk lists every occupied slot exactly once, so it yields every stored record once and `len` records in all; an ordered table yields them in ascending order of the field |
| MultiIndex.NewUniqueIter | multi_index_map_derive/src/generators.rs:518-533 | a fresh iterator over an agreeing unique table has consumed nothing, yields one record per stored record, reaches every record, and yields strictly ascending values when the keys ascend |
| MultiIndex.NewGroupIter | multi_index_map_derive/src/generators.rs:518-533 | a fresh iterator over an agreeing non-unique table walks the table's own slot lists, enumerates every occupied slot exactly once, and yields non-decreasing values when the keys ascend |
| MultiIndex.RemovedUniqueOutcome | multi_index_map_derive/src/generators.rs:386-395 | a unique remover's key names an occupied slot holding the key; removing it leaves agreeing tables without the key |
| MultiIndex.AbsentGroup | multi_index_map_derive/src/generators.rs:407-409 | a key absent from an agreeing non-unique table matches no record, so its remover returns nothing and changes nothing |
| MultiIndex.RemovedGroupOutcome | multi_index_map_derive/src/generators.rs:396-411 | a non-unique remover leaves agreeing tables without the key; the store loses exactly the records holding the key |
| MultiIndex.ModifiedGroupOutcome | multi_index_map_derive/src/generators.rs:482-516 | a non-unique modifier keeps the count; it keeps agreement without a violation and leaves a store no tables fit with one |
| MultiIndex.ModifiedGroupContents | multi_index_map_derive/src/generators.rs:482-516 | without a violation exactly the records holding the key are replaced by their images under the closure |
| MultiIndex.PayloadFound | multi_index_map_derive/src/generators.rs:419-423 | the record a unique key leads to holds the key, and changing its payload keeps agreement and the count |
| MultiIndex.UniqueWalk | multi_index_map_derive/src/generators.rs:591 | walking an agreeing unique table key by key meets each record exactly once, the i-th under the i-th key |
| MultiIndex.SlotListsIndexed | multi_index_map_derive/src/generators.rs:602-606 | under agreement each key's slot list is non-empty, so the iterator's `expect` holds, and lists exactly the slots of that key's records |
| MultiIndex.GroupTableWalk | multi_index_map_derive/src/lib.rs:541-557 | walking an agreeing non-unique table meets every stored record and only those; over ascending keys, in ascending order of the field |
| MultiIndex.GroupTableOnce | multi_index_map_derive/src/lib.rs:541-557 | walking every key of an agreeing non-unique table lists each occupied slot exactly once, so it yields as many records as the store holds |
| FirstTables.Pushed | src/lib.rs:71 | `entry(k).or_insert(Vec).push(s)` adds `k` and leaves every other key's `Vec` alone |
| FirstTables.Inserted | src/lib.rs:315-320 | the first revision's insert: the record takes the new slot; both unique tables map its values to that slot, replacing any entry there, and every other unique entry is kept; the slot is last in its value's `Vec` |
| FirstTables.UniqueSoundInsert | src/lib.rs:74-76 | a plain unique-table insert for a newly filled slot leaves no stale entry |
| FirstTables.GroupSoundInsert | src/lib.rs:69-72 | pushing a newly filled slot onto its value's `Vec` leaves no stale entry, no empty `Vec` and no repeated slot |
| FirstTables.InsertedSound | src/lib.rs:315-320 | `insert` never leaves a stale entry, whatever the record |
| FirstTables.UniqueCompleteInsert | src/lib.rs:74-76 | a unique insert keeps every record reachable exactly when the value is new |
| FirstTables.GroupCompleteInsert | src/lib.rs:69-72 | a push keeps every record reachable through the non-unique table |
| FirstTables.InsertedComplete | src/lib.rs:315-320 | `insert` keeps every record reachable exactly when both its unique values are new: a duplicate silently re-points the entry and raises no error |
| FirstTables.Collected | src/lib.rs:137-149 | the getter's loop: on success one record per listed slot, each a stored record; any failure is a vacant-slot panic |
| FirstTables.GroupLookup | src/lib.rs:137-149 | `get_by_field2`: on success as many records as the key's `Vec` has slots, and none for an absent key; a panic only for a listed key, and only at a vacant slot |
| FirstTables.CollectedRecords | src/lib.rs:139-147 | the getter's loop succeeds exactly when every listed slot is occupied, and then yields their records in order; its only failure is a vacant slot |
| FirstTables.GroupLookupSound | src/lib.rs:137-149 | on a sound map `get_by_F` never panics and returns records holding the key, one per listed slot; on a complete one it returns every record holding the key |
| FirstTables.InsertedLast | src/lib.rs:69-72 | records sharing a non-unique value come back in insertion order: the new one is listed last |
| FirstTables.UniqueSoundDrop | src/lib.rs:82-90 | dropping the removed record's value from a unique table leaves no stale entry |
| FirstTables.Unlisted | src/lib.rs:82-90 | the first revision's removes template: each of the record's values leaves its table as a whole key, every other key keeps its entry, and the slab is untouched |
| FirstTables.GroupSoundDrop | src/lib.rs:82-90 | dropping the removed record's value as a whole key from the non-unique table leaves no stale entry |
| FirstTables.UnlistedSound | src/lib.rs:82-90 | vacating a slot and running the removes template leaves no stale entry |
| FirstTables.RemovedUnique | src/lib.rs:185-192 | `remove_by_field1`/`remove_by_field3`: None exactly when the key is absent; a panic exactly when the key names a vacant slot; otherwise the record at the key's slot is returned and only that slot leaves the slab; the key is never left in its table |
| FirstTables.RemovedUniqueSound | src/lib.rs:185-192 | on a sound map a unique remover never panics: it returns the record holding the key, vacates its slot and stays sound; an absent key changes nothing |
| FirstTables.GroupCompleteDrop | src/lib.rs:82-90 | the non-unique table stays complete after a removal exactly when no other record shares the removed record's value |
| FirstTables.UniqueCompleteDrop | src/lib.rs:186-190 | a unique table stays complete after removing a record's value |
| FirstTables.RemovedUniqueComplete | src/lib.rs:185-192 | removing by a unique value keeps every other record reachable exactly when no other record shares the removed record's non-unique value |
| FirstTables.RemoveSlotsStops | src/lib.rs:174-178 | once a round of the remover's loop has panicked, later rounds change nothing |
| FirstTables.RemoveSlot | src/lib.rs:170-184 | one round of the remover loop: after a panic nothing changes; a vacant slot panics and changes nothing; otherwise that slot leaves the slab and its record is collected last |
| FirstTables.RemoveSlots | src/lib.rs:170-184 | the remover loop over the slots: without a panic one record is collected per slot; a panic is a vacant-slot panic; the slab and the non-unique table only shrink |
| FirstTables.RemovedGroup | src/lib.rs:170-184 | `remove_by_field2`: the key is gone from the table afterwards; without a panic one record per slot of its `Vec` (none for an absent key); any panic is a vacant-slot panic |
| FirstTables.RemoveSlotsSound | src/lib.rs:172-179 | over distinct occupied slots of a sound map the remover's loop never panics; it vacates exactly those slots, returns their records in order and stays sound |
| FirstTables.RemoveSlotSound | src/lib.rs:175-177 | one round of the loop on a sound map vacates the slot and collects its record |
| FirstTables.RemovedGroupSound | src/lib.rs:170-184 | on a sound map the non-unique remover never panics; it returns the records of the key's `Vec` in its order, all holding the key, and the count drops by their number; an absent key changes nothing |
| FirstTables.RemovedGroupPresent | src/lib.rs:172-179 | with the key present, the loop returns the `Vec`'s records, vacates exactly their slots and stays sound |
| FirstTables.VacatedCount | src/lib.rs:174-175 | vacating distinct occupied slots lowers the count by their number |
| FirstTables.UniqueRekeyed | src/lib.rs:94-114 | the unique part of the first revision's modify: a panic exactly when the old value has no entry; otherwise the new value maps to the old value's slot, and a changed old value is gone |
| FirstTables.GroupRekeyed | src/lib.rs:94-114 | the non-unique part: a panic exactly when the old value has no `Vec`; otherwise the whole old `Vec` is appended to the new value's `Vec`, and a changed old value is gone |
| FirstTables.Rekeyed | src/lib.rs:94-114 | every table re-keyed in field order: no panic exactly when all three old values have entries; any panic is a missing-entry panic; the slab is untouched; without a panic all three new values have entries |
| FirstTables.ModifiedUnique | src/lib.rs:195-208 | `modify_by_field1`/`modify_by_field3`: None exactly when the key is absent; a vacant-slot panic exactly when the key names a vacant slot; a returned record is the closure's image of the found record, and it alone replaces it in the slab |
| FirstTables.UniqueRekeyedKeeps | src/lib.rs:108-111 | the unique re-key never panics on a sound, complete table, and it keeps the table so exactly when the value is unchanged or new |
| FirstTables.GroupRekeyedKeeps | src/lib.rs:102-106 | the non-unique re-key never panics on a sound, complete table, and it keeps the table so exactly when the value is unchanged or the record was alone under it |
| FirstTables.ModifiedKeeps | src/lib.rs:195-208 | on a sound, complete map `modify_by_F` returns the changed record; it keeps the map sound and complete exactly when every changed unique value is new and a changed non-unique value was the record's alone |
| FirstTables.RemoveSlotsFilled | src/lib.rs:170-184 | the remover's loop never leaves an empty `Vec` |
| FirstTables.VecsStayFilled | src/lib.rs:271-272 | inserts and both removers never leave an empty `Vec`, sound or not, so the iterator's `expect` never fires |
| FirstTables.ModifiedFilled | src/lib.rs:102-106 | a modification never leaves an empty `Vec` |
| FirstTables.GroupRekeyedFilled | src/lib.rs:104-105 | extending one `Vec` by another keeps every `Vec` non-empty |
| FirstTables.Retag | tests/hashed_non_unique.rs:70 | the test's closure changes only the non-unique value, to 43 |
| FirstTables.SharedInserted | tests/hashed_non_unique.rs:57-68 | the test's two inserts give the state with both records under 42 |
| FirstTables.ModifyCarriesSharers | tests/hashed_non_unique.rs:55-75 | modifying one of two records sharing a value moves the whole `Vec`: both are then returned under 43 although one still holds 42, and the map is no longer sound |
| FirstTables.ModifiedGroupRemoved | tests/hashed_non_unique.rs:77-97 | removing by 43 afterwards returns both records and empties the map |
| FirstTables.StaleSlotPanics | src/lib.rs:82-90 | after that modification, removing the unmodified record by its unique value leaves its vacated slot listed under 43, and looking up 43 panics |
| FirstTables.ShadowedModifyPanics | src/lib.rs:109 | a duplicate unique insert followed by a removal leaves a stored record missing from a table, and modifying it through another table panics on the `expect` |
| FirstTables.EmptySoundComplete | src/lib.rs:300-304 | a new map is sound and complete |
| FirstRevision.FirstRevisionMap.constructor | src/lib.rs:300-304 | `Default` is the empty map |
| FirstRevision.FirstRevisionMap.Len | src/lib.rs:306-308 | `len` is zero exactly when `is_empty` holds |
| FirstRevision.FirstRevisionMap.Insert | src/lib.rs:315-320 | `insert` fills a vacant slot and performs exactly the transition `FirstTables.Inserted`, which keeps the map sound |
| FirstRevision.FirstRevisionMap.GetByUnique | src/lib.rs:150-154 | the getter panics exactly when its entry names a vacant slot; on a sound map it finds only a record holding the key; on a sound, complete map it finds one exactly when some record holds the key |
| FirstRevision.FirstRevisionMap.GetByGroup | src/lib.rs:137-149 | the getter's loop returns exactly `FirstTables.GroupLookup`: the records of the key's `Vec` in insertion order, or a panic at a vacant slot |
| FirstRevision.FirstRevisionMap.Unlist | src/lib.rs:82-90 | the removes template drops the record's values from every table as whole keys |
| FirstRevision.FirstRevisionMap.RemoveByUnique | src/lib.rs:185-192 | the unique remover performs exactly `FirstTables.RemovedUnique`, panics included |
| FirstRevision.FirstRevisionMap.RemoveByGroup | src/lib.rs:170-184 | the non-unique remover's loop performs exactly `FirstTables.RemovedGroup`, stopping at the first panic |
| FirstRevision.FirstRevisionMap.Rekey | src/lib.rs:94-114 | the modifies templates re-key every table unconditionally, in field order, stopping at the first missing entry |
| FirstRevision.FirstRevisionMap.ModifyByUnique | src/lib.rs:195-208 | `modify_by_F` performs exactly `FirstTables.ModifiedUnique`, panics included |
| FirstRevision.FirstRevisionMap.IterByUnique | src/lib.rs:219-225 | a unique `iter_by_F` looks up one slot per entry; on a sound map every slot is occupied, and the ordered table yields strictly ascending values; on a complete map every record is reached |
| FirstRevision.FirstRevisionMap.IterByGroup | src/lib.rs:219-225 | the non-unique `iter_by_F` walks every `Vec`, front to back; on a sound map every slot is occupied; on a complete map every record is reached |
| FirstRevision.LookupsSound | src/lib.rs:275 | through a sound unique table every looked-up slot is occupied, and ascending keys lead to ascending field values |
| FirstRevision.LookupsComplete | src/lib.rs:275 | through a complete unique table every stored slot is looked up when every key is |
| FirstRevision.NewLookupIter | src/lib.rs:219-225 | a fresh iterator over a unique table has consumed no entry, and what remains is one lookup per key in the table's order |
| FirstRevision.FirstUniqueIter.constructor | src/lib.rs:219-225 | a fresh iterator has consumed no entry of the table |
| FirstRevision.FirstGroupIter.constructor | src/lib.rs:219-225 | a fresh iterator has consumed no `Vec` and has no inner iterator |
| FirstRevision.FirstUniqueIter.Next | src/lib.rs:275 | `next` yields the record at the next entry's slot and drops that entry, panics at a vacant slot, and yields None only when nothing remains |
| FirstRevision.FirstGroupIter.Next | src/lib.rs:258-273 | `next` yields the record at the next slot of the walk and drops that slot, panics at a vacant slot, and yields None only when nothing remains; its `expect` on a non-empty `Vec` never fails |

## Left out

- The proc-macro machinery is not modelled: parsing the struct, emitting tokens, naming identifiers and aborting on bad attributes (`get_index_kind`, `index_attributes.rs`). The model fixes one record with one field of each kind. Each per-field method becomes one method per index kind, with the field as a parameter.
- Field values are naturals and the record's unindexed fields are one `int` payload. Hashing, `Clone` and the concrete field types are not modelled.
- Hash-table iteration order is unspecified, so it is a parameter (`hashOrder`) that must list each key once. Ordered tables iterate in ascending key order.
- Capacity is modelled as a number with the lower bounds `with_capacity`, `reserve` and `shrink_to_fit` promise. The slab's and the hash tables' growth policies, and the exact capacities they produce, are not modelled.
- The slab's choice of slot on `insert` is any vacant slot.
- Panics are modelled as `Err` results that carry the state at the point of the panic. Unwinding and the panic messages are not modelled.
- Closures are total functions: `Elem -> Elem` for modify, and payload to payload for update.
- The unsafe `get_mut_by_F` and `iter_mut` (all three revisions) are not modelled, because arbitrary caller mutation can break the invariants by design. The traversal that the non-unique `get_mut_by_F` shares with modify and update is modelled as `Slab.NthTraversal`.
- Iterators: each direction (`next`, `next_back`) is modelled on its own. Calls that mix the two on one iterator share `_inner_iter`, and that case has no contract here.
- The first revision's iterators have no `next_back`, and neither does the model of them.
- The error wrapper, formatting, benches, examples and serde/debug derives are not modelled.
- FirstRevision.FirstRevisionMap.IterByGroup: over a sound map it states only that the pending slots are occupied. It does not state that each slot's record holds the key of its `Vec`.
- FirstRevision.FirstRevisionMap.IterByUnique: the hashed table's order is the `hashOrder` parameter, so ascending order is stated only for the ordered table.
- MultiIndex.MultiIndexMap.IterByUnique: the hashed table's order is the `hashOrder` parameter, so ascending order is stated only for the ordered table.
- MultiIndex.MultiIndexMap.ModifyByGroup and MultiIndex.MultiIndexMap.UpdateByGroup reach their slots through the corrected traversal (`ReachGroup`), not the `nth` stepping as written. The as-written traversal is modelled separately and is listed under Findings.
- The internal-invariant panics of the two later revisions are not modelled: `!elems.remove(&idx)` in the removes and post-modify templates (multi_index_map_derive/src/generators.rs:175-177 and 253-255) and the `expect` on the old value's entry (generators.rs:239 and 251). `Tables.GroupRemove`, `Tables.UniqueMove` and `Tables.GroupMove` carry on silently where these would fire. Every public operation that reaches these steps requires `Valid()`: `RemoveByUnique`, `RemoveByGroup`, `ModifyByUnique` and `ModifyByGroup`. The helper methods that contain the steps do not require it, but they are called only from those operations: `Vacate` through `TakeUnique`, or through `RemoveGroup`, `TakeGroup` and `VacateAll`; `PostModify` through `ModifySlot`, called from `ModifyByUnique` and from `ModifyAll`. `ModifyAll` is called from `ModifyByGroup` and stops at the first uniqueness violation, so each round starts from agreeing tables (`Tables.ModifiedAllKeeps`). `Tables.GroupIsMatching` and `Tables.UniqueLookup` show that on agreeing tables these entries are always present, so the panics are unreachable. `Insert`, `TryInsert`, the getters, the updaters, the iterators and `ShrinkToFit` also require `Valid()`. `Reserve` and `Clear` do not, since they touch no entry. A container used again after a caught uniqueness panic (when it is no longer `Valid()`) is not modelled.

## Findings

| source | as written | input that shows it | evidently intended | confidence | as-written member | corrected member |
|---|---|---|---|---|---|---|
| multi_index_map_derive/src/generators.rs:489-512 | the non-unique modifier, updater and mutable getter step a single `iter_mut` with `nth(idx - last_idx)`. `nth` counts occupied entries, so it reaches the slot whose rank among occupied slots is `idx`, and `val.0` is never compared with `idx`. The non-unique post-modify then re-keys with the loop's `idx` (generators.rs:253 and 261), not with the slot `nth` reached. So with a hole below, the modifier also files the target slot, not the modified one, under the new value. The unique tables re-key the reached slot, because that template rebinds `idx` from the table (generators.rs:239) | one group in slots 2, 3, 4, 5 with slots 0 and 1 vacant (multi_index_map/tests/non_unique_holes.rs:18-27): the first step lands on slot 4, the second on slot 5, and the third panics. With only slot 0 vacant, the target slot 2 lands on slot 3 | every slot of the key's set is visited once, in ascending order, whatever holes lie below it | not executed; proved on the model for all inputs: the as-written traversal is exact if and only if no vacant slot lies below a target | Slab.NthTraversal, Slab.NthTraversalExactIffNoHoles, Slab.NthTraversalPanicsAfterHoles, Slab.NthTraversalVisitsWrongSlot | Slab.KeyedTraversal, MultiIndex.MultiIndexMap.ReachGroup |
| multi_index_map_derive/src/generators.rs:119-127 | `insert` stores the record and writes each table before it finds that a unique value is taken. The colliding entry has by then been overwritten with the new slot, and then the method panics | a container holding a record with field1 = 1, and an insert of another record with field1 = 1: the new record occupies a slot, field1's table maps 1 to it, and the earlier record is no longer reachable through field1 if the panic is caught | a uniqueness violation leaves the container as it was | not executed; low: it matters only where the panic is caught and the container used again | MultiIndex.MultiIndexMap.Insert, Tables.RegisteredKeeps | MultiIndex.MultiIndexMap.TryInsert |
| src/lib.rs:82-90 | the first revision's modify moves the whole `Vec` under the old non-unique value to the new value (src/lib.rs:104-105), carrying every record that shared it. A later removal by a unique value drops only the removed record's own values as whole keys, so the `Vec` it was carried into keeps the vacated slot. That revision's own test (tests/hashed_non_unique.rs:70-73, 92-96) asserts the whole-`Vec` move, so the move itself is intended | the two records of tests/hashed_non_unique.rs:55-75, modified as that test does. Removing the unmodified record by its unique value then leaves its vacated slot listed under 43, and `get_by` of 43 indexes a vacant slot and panics | after any sequence of public calls no vacant slot stays listed, and `get_by` does not panic. The later revisions re-key only the modified slot (generators.rs:248-264), which keeps every table in agreement | not executed | FirstTables.ModifyCarriesSharers, FirstTables.StaleSlotPanics | Tables.GroupRekey, MultiIndex.MultiIndexMap.ModifyByUnique |
