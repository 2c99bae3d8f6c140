# Dapper-Extensions change tracking, modelled in Dafny

This project models the change-tracking unit of work of Dapper-Extensions and
proves properties of it. It covers five parts:

- **Mapper.dfy** models `PropertyMap`. The fluent setters (`Column`, `Key`,
  `Key(name, …)`, `Ignore`, `ReadOnly`, `InsertOnly`) are methods of a class.
  Their exceptions become `Result` errors. The key queries `GetKeyType`,
  `IsAnyKeyType` and `IsKeyType` are pure functions on `MappedProperty`, a
  value view of the map. An entity instance is a `DomainObject`: an object
  reference with a class map and a mutable map from property name to value.
- **Snapshotter.dfy** models the snapshot engine. `RelevantProperties` is the
  filter that picks the properties that take part. The source generates a
  cloner, a differ and a reverter as IL. Here each one is a loop over the plan
  (the relevant property names, in property order). Each loop is proved
  against a specification function: `Capture`, `Changes` and `Restore`.
- **TrackingSpec.dfy** states the registry as a value. A `Tracker` holds one
  `EntryState` per tracked object and the last id handed out.
  - It defines each registry operation as a state transition, and the flush
    order and the calls a flush issues.
  - It proves the registry invariant and the ordering and dispatch properties
    about those definitions.
- **ChangeTracking.dfy** models the imperative code: `DefaultSequenceGenerator`,
  `TrackedEntity<T>` (a class whose flags, id, reference count, key name and
  snapshot change in place) and the registry `ChangeTracking`.
  - The registry holds a map from object reference to tracked entity.
  - Every registry method that changes the registry is proved to keep the
    invariant and to move the state exactly as the matching TrackingSpec
    transition says.
  - The persistence collaborator is a `Connection` that records each
    insert, update and delete call. Whether a call fails is left open, and
    so are the property values it leaves in the entity (hooks, generated
    keys); a reset after the flush snapshots the values as they are then.
- **ChangeTrackingCollection.dfy** models `ChangeTrackingCollection<T>`: a list
  whose insert, remove, set and clear are forwarded to the registry unless the
  `internalActivity` flag is set. `Attach` sets the flag itself.
- **DapperImplementor.dfy** models part of `DapperImplementor`:
  - the key predicate and the id predicate;
  - the key-name defaults of `Update` and `Delete`;
  - the partial-update short-circuit and the column and parameter selection
    of `Update`;
  - the guid assignment and the shape of the key values `Insert` returns.
  SQL text is not modelled; the connection is a `Database` that records
  statements.

The differ in `Snapshotter.cs` builds a list of changes in property order.

Some behaviours of the code are proved as they are, without judging them:

- An object added as new twice and then deleted once stays tracked. It is
  then new and deleted, so a flush issues no insert for it
  (`TrackingSpec.StillReferencedNewIsNotInserted`).
- `Revert(object)` with a null object fails, as the dictionary lookup in the
  source throws.

## Model

| member | source | states |
|---|---|---|
| Mapper.PropertyMap.constructor | DapperExtensions/Mapper/PropertyMap.cs:30-34 | a new map has the property's name as column name, key type NotAKey, no named keys and no flags |
| Mapper.PropertyMap.Column | DapperExtensions/Mapper/PropertyMap.cs:102-106 | only the column name changes, and the map itself is returned |
| Mapper.PropertyMap.Key | DapperExtensions/Mapper/PropertyMap.cs:112-124 | an ignored property fails first, then a read-only one; otherwise only the default key type is set; a key property is never ignored or read-only afterwards |
| Mapper.PropertyMap.NamedKey | DapperExtensions/Mapper/PropertyMap.cs:126-139 | fails for an ignored property, then for a null name, changing nothing; otherwise overwrites the entry for the name and leaves the default key type alone |
| Mapper.PropertyMap.Ignore | DapperExtensions/Mapper/PropertyMap.cs:144-152 | fails exactly when the default key type is not NotAKey; otherwise only the ignored flag is set |
| Mapper.PropertyMap.ReadOnly | DapperExtensions/Mapper/PropertyMap.cs:157-165 | fails exactly when the default key type is not NotAKey; otherwise only the read-only flag is set |
| Mapper.PropertyMap.InsertOnly | DapperExtensions/Mapper/PropertyMap.cs:167-171 | always succeeds and only sets the insert-only flag |
| Mapper.AnyKeyTypeIsSomeLookup | DapperExtensions/Mapper/PropertyMap.cs:56-69 | IsAnyKeyType(k) holds iff the default lookup or some named lookup answers k |
| Mapper.IsKeyTypeByLookups | DapperExtensions/Mapper/PropertyMap.cs:71-79 | for a real key kind k, IsKeyType(k) holds iff every lookup answers k or NotAKey and the property is a default key or has named keys |
| Mapper.NotAKeyByLookups | DapperExtensions/Mapper/PropertyMap.cs:71-74 | IsKeyType(NotAKey) holds iff every lookup, default or named, answers NotAKey |
| Snapshotter.RelevantProperties | DapperExtensions/Snapshotter.cs:84-94 | a name is in the plan iff some property with that name is not ignored, read-only, insert-only or an identity key, has a getter and a setter, and is a value type, string or nullable |
| Snapshotter.AreEqual | DapperExtensions/Snapshotter.cs:107-112 | two values are equal iff they are the same value, nulls included |
| Snapshotter.ChangesExact | DapperExtensions/Snapshotter.cs:114-194 | a change is in the diff iff its name is planned, the copied and live values differ, and it carries the live value |
| Snapshotter.NoChangesIff | DapperExtensions/Snapshotter.cs:114-194 | the diff is empty iff every planned property has its copied value |
| Snapshotter.ChangesFollowPlan | DapperExtensions/Snapshotter.cs:114-194 | every change names a planned property and there are no more changes than planned names |
| Snapshotter.CaptureHasNoChanges | DapperExtensions/Snapshotter.cs:46-50 | the diff against a fresh copy is empty |
| Snapshotter.RestoreHasNoChanges | DapperExtensions/Snapshotter.cs:57-60 | the diff right after a revert is empty |
| Snapshotter.CaptureRestoreRoundTrip | DapperExtensions/Snapshotter.cs:198-247 | capture, change, revert: planned properties are back to their captured values and the others keep their new values |
| Snapshotter.Start | DapperExtensions/Snapshotter.cs:19-23 | the snapshot holds a copy of the object's planned properties and has an empty diff |
| Snapshotter.Clone | DapperExtensions/Snapshotter.cs:198-230 | the copy loop yields exactly the planned properties of the source |
| Snapshotter.Diff | DapperExtensions/Snapshotter.cs:74-82 | the differ loop yields exactly the changes of the live object against the copy, in plan order |
| Snapshotter.Revert | DapperExtensions/Snapshotter.cs:232-247 | the live object gets the copied value of every planned property, keeps every other property, and then has an empty diff |
| TrackingSpec.EntryState.OperationTypeOrder | DapperExtensions/ChangeTracking.cs:53-63 | the rank is 1 iff deleted, 2 iff new and not deleted, 3 iff neither |
| TrackingSpec.CallMatchesRank | DapperExtensions/ChangeTracking.cs:163-174 | new+deleted issues no call, new issues an insert, deleted issues a delete, otherwise an update; the call's rank equals the entry's rank |
| TrackingSpec.CreatedIsConsistent | DapperExtensions/ChangeTracking.cs:123-137 | a new entry has one reference and a snapshot iff not new, snapshot policy on and partial update enabled |
| TrackingSpec.DeletedCount | DapperExtensions/ChangeTracking.cs:85-90 | a delete marks the entry deleted with the key name, lowers the count by one only for a new entry, and reports removal iff a new entry's count reaches 0 |
| TrackingSpec.AddKeepsWellFormed | DapperExtensions/ChangeTracking.cs:289-302 | a successful add keeps every entry referenced, consistent and with a distinct id |
| TrackingSpec.DeleteKeepsWellFormed | DapperExtensions/ChangeTracking.cs:312-321 | delete by object keeps the registry invariant |
| TrackingSpec.DeleteEntryKeepsWellFormed | DapperExtensions/ChangeTracking.cs:319-320 | deleting a tracked entry, and detaching it when removable, keeps the invariant |
| TrackingSpec.ResetKeepsWellFormed | DapperExtensions/ChangeTracking.cs:356-360 | resetting the whole registry keeps the invariant |
| TrackingSpec.ResetOneKeepsWellFormed | DapperExtensions/ChangeTracking.cs:372-378 | resetting one entry keeps the invariant |
| TrackingSpec.RemoveKeepsWellFormed | DapperExtensions/ChangeTracking.cs:349-354 | detaching an entry keeps the invariant |
| TrackingSpec.AddTrackedReference | DapperExtensions/ChangeTracking.cs:152-161 | adding a tracked reference fails iff the status differs; otherwise the same keys remain and the entry is undeleted, gains a reference and takes the next id |
| TrackingSpec.DeleteUntracked | DapperExtensions/ChangeTracking.cs:312-321 | deleting an untracked object leaves it tracked, attached, deleted, with the key name and one reference, after two ids |
| TrackingSpec.RefCountExample | DapperExtensions/ChangeTracking.cs:139-150 | added as new twice and deleted once, an object stays with one reference; a second delete removes it |
| TrackingSpec.ConflictExample | DapperExtensions/ChangeTracking.cs:152-155 | attaching an object tracked as new is the conflicting-status error |
| TrackingSpec.StillReferencedNewIsNotInserted | DapperExtensions/ChangeTracking.cs:165-167 | an object added as new twice and deleted once stays tracked but a flush issues no call for it |
| TrackingSpec.ResetEffect | DapperExtensions/ChangeTracking.cs:189-198 | after a reset exactly the undeleted entries remain, none new or deleted, each with a snapshot iff its policy and partial update ask for one, and each snapshot has an empty diff |
| TrackingSpec.FlushCalls | DapperExtensions/ChangeTracking.cs:402-407 | flushing a sorted sequence issues exactly each visited entry's own call, once per entity, in flush order |
| TrackingSpec.FlushDispatch | DapperExtensions/ChangeTracking.cs:400-410 | a full flush calls the store for every entry that asks for a call and nothing else, never for new+deleted entries, deletes before inserts before updates, and by ascending id within a kind |
| TrackingSpec.FlushOrderUnique | DapperExtensions/ChangeTracking.cs:402 | with distinct ids there is only one flush order |
| TrackingSpec.OrderingExample | DapperExtensions/ChangeTracking.cs:402-407 | an update registered first, a delete second and an insert third are flushed delete, insert, update |
| ChangeTracking.SequenceGenerator.constructor | DapperExtensions/ChangeTracking.cs:22-30 | a new generator starts at 0 |
| ChangeTracking.SequenceGenerator.NextId | DapperExtensions/ChangeTracking.cs:24-29 | each id is the previous one plus 1 |
| ChangeTracking.TrackedEntity.constructor | DapperExtensions/ChangeTracking.cs:123-137 | the entry takes the next id, one reference, the class map's partial-update setting and a snapshot iff attached with snapshot policy and partial update |
| ChangeTracking.TrackedEntity.Delete | DapperExtensions/ChangeTracking.cs:139-150 | sets deleted, the next id and the key name; a non-new entity reports false; a new one fails iff its count is 0, otherwise loses a reference and reports whether that was the last |
| ChangeTracking.TrackedEntity.ReAdd | DapperExtensions/ChangeTracking.cs:152-161 | the other New/Attach status fails with nothing changed; otherwise the entry is undeleted, takes the next id and gains a reference |
| ChangeTracking.TrackedEntity.Reset | DapperExtensions/ChangeTracking.cs:189-198 | reports false and changes nothing iff deleted; otherwise the entry becomes attached with a new snapshot iff its policy asks |
| ChangeTracking.TrackedEntity.Revert | DapperExtensions/ChangeTracking.cs:200-206 | reports whether there is a snapshot; with one, the object is restored from it and its diff is empty; without, the object is untouched |
| ChangeTracking.TrackedEntity.SaveChanges | DapperExtensions/ChangeTracking.cs:163-174 | issues exactly the call the entry's state asks for; only an issued call can fail |
| ChangeTracking.ChangeTracking.constructor | DapperExtensions/ChangeTracking.cs:212-215 | an empty registry on the given generator or on a new default one |
| ChangeTracking.ChangeTracking.Get | DapperExtensions/ChangeTracking.cs:223-231 | null for null or an untracked object; otherwise the object's own entry |
| ChangeTracking.ChangeTracking.TrackNew | DapperExtensions/ChangeTracking.cs:294-297 | a new entry for an untracked object, as the add transition says |
| ChangeTracking.ChangeTracking.ReAddEntry | DapperExtensions/ChangeTracking.cs:298-300 | re-adding a tracked entry fails exactly when the add transition does, with the registry unchanged, and otherwise follows it |
| ChangeTracking.ChangeTracking.DeleteEntry | DapperExtensions/ChangeTracking.cs:319-320 | deleting a tracked entry follows the delete transition, detaching it when its last reference as new goes |
| ChangeTracking.ChangeTracking.Add | DapperExtensions/ChangeTracking.cs:289-302 | null yields null; a conflict fails with nothing changed; otherwise the registry follows the add transition and the result is the object's one entry |
| ChangeTracking.ChangeTracking.AddNew | DapperExtensions/ChangeTracking.cs:276-279 | add as new, with snapshot policy and no key name |
| ChangeTracking.ChangeTracking.Attach | DapperExtensions/ChangeTracking.cs:263-266 | add as attached |
| ChangeTracking.ChangeTracking.DetachTracked | DapperExtensions/ChangeTracking.cs:349-354 | true for null; otherwise removes the entry keyed by the handle's object and reports whether there was one; a valid registry stays valid, its model losing exactly that entry |
| ChangeTracking.ChangeTracking.Detach | DapperExtensions/ChangeTracking.cs:339-347 | true for null; otherwise reports whether the object was tracked and drops its entry |
| ChangeTracking.ChangeTracking.Delete | DapperExtensions/ChangeTracking.cs:312-321 | null changes nothing; otherwise the registry follows the delete transition, attaching an untracked object first |
| ChangeTracking.ChangeTracking.DeleteTracked | DapperExtensions/ChangeTracking.cs:323-329 | null changes nothing; the registry's own entry is deleted without a key name; a stale handle is marked deleted, fails once exhausted, and detaches its object's entry when removable, advancing its generator by one (the registry's next id when it is the registry's own generator) |
| ChangeTracking.ChangeTracking.DeleteAll | DapperExtensions/ChangeTracking.cs:331-337 | every entry is deleted without a key name under a new id; exactly the removable ones leave |
| ChangeTracking.ChangeTracking.ResetOne | DapperExtensions/ChangeTracking.cs:372-378 | resetting a tracked entry detaches it iff deleted and otherwise resets it |
| ChangeTracking.ChangeTracking.ResetTracked | DapperExtensions/ChangeTracking.cs:372-378 | null changes nothing; the registry's own entry is reset or detached; a stale deleted handle detaches its object's entry |
| ChangeTracking.ChangeTracking.Reset | DapperExtensions/ChangeTracking.cs:356-360 | the registry follows the reset transition: deleted entries leave, every other one is reset |
| ChangeTracking.ChangeTracking.ResetEntity | DapperExtensions/ChangeTracking.cs:362-369 | null and untracked objects change nothing; a tracked one is reset or detached |
| ChangeTracking.ChangeTracking.Revert | DapperExtensions/ChangeTracking.cs:381-385 | the registry is unchanged and every tracked object is restored from its snapshot when it has one |
| ChangeTracking.ChangeTracking.RevertEntity | DapperExtensions/ChangeTracking.cs:387-393 | null fails; an untracked object is untouched; a tracked one is restored from its snapshot when it has one |
| ChangeTracking.ChangeTracking.Clear | DapperExtensions/ChangeTracking.cs:395-398 | no entries remain and the id counter is kept |
| ChangeTracking.ChangeTracking.FlushOrder | DapperExtensions/ChangeTracking.cs:402 | the sort yields every entry once, ordered by operation kind and then id |
| ChangeTracking.ChangeTracking.Dispatch | DapperExtensions/ChangeTracking.cs:404-407 | the calls issued are the entries' calls in order, up to and including the first failing one |
| ChangeTracking.ChangeTracking.SaveChanges | DapperExtensions/ChangeTracking.cs:400-410 | the flush visits the entries in flush order and issues their calls; on success the registry is reset iff resetAfter; a failure stops the flush and leaves the registry as it was |
| TrackedCollection.AddNewSpec | DapperExtensions/ChangeTrackingCollection.cs:47-48 | null is ignored; otherwise fails iff the item is tracked as attached, and leaves it tracked as new with every earlier entry kept |
| TrackedCollection.AttachSpec | DapperExtensions/ChangeTrackingCollection.cs:29 | null is ignored; otherwise fails iff the item is tracked as new, and leaves it tracked as attached |
| TrackedCollection.AttachKeepsStatus | DapperExtensions/ChangeTrackingCollection.cs:29 | attaching adds at most the item and changes no entry's status |
| TrackedCollection.AttachAllTracksAll | DapperExtensions/ChangeTrackingCollection.cs:37-43 | attaching a list tracks each of its items as attached and keeps every other entry and its status |
| TrackedCollection.ChangeTrackingCollection.constructor | DapperExtensions/ChangeTrackingCollection.cs:20-23 | an empty list on the registry with the flag clear |
| TrackedCollection.ChangeTrackingCollection.InsertItem | DapperExtensions/ChangeTrackingCollection.cs:45-50 | with the flag clear the item is added as new first, and a conflict leaves the list as it was; with the flag set only the list changes; the item lands at the index |
| TrackedCollection.ChangeTrackingCollection.RemoveItem | DapperExtensions/ChangeTrackingCollection.cs:52-59 | with the flag clear the element at the index is deleted from the registry; the element is removed from the list |
| TrackedCollection.ChangeTrackingCollection.SetItem | DapperExtensions/ChangeTrackingCollection.cs:61-69 | with the flag clear the old element is deleted and the new one added as new; a conflict keeps the list; otherwise the element at the index is replaced |
| TrackedCollection.ChangeTrackingCollection.Replace | DapperExtensions/ChangeTrackingCollection.cs:63-67 | the registry side of SetItem: a delete of the old element followed by an add as new of the new one |
| TrackedCollection.ChangeTrackingCollection.ClearItems | DapperExtensions/ChangeTrackingCollection.cs:71-76 | with the flag clear every registry entry is deleted, in the collection or not; the list is emptied |
| TrackedCollection.ChangeTrackingCollection.Attach | DapperExtensions/ChangeTrackingCollection.cs:25-35 | the item is tracked as attached, never as new, and appended; a conflict changes nothing; the flag is clear afterwards either way |
| TrackedCollection.ChangeTrackingCollection.AttachAndAppend | DapperExtensions/ChangeTrackingCollection.cs:28-31 | with the flag set: attach the item, then append it without adding it as new |
| TrackedCollection.ChangeTrackingCollection.AttachTracked | DapperExtensions/ChangeTrackingCollection.cs:29 | the registry follows the attach transition or reports the conflict unchanged |
| TrackedCollection.ChangeTrackingCollection.AttachAll | DapperExtensions/ChangeTrackingCollection.cs:37-43 | a missing list changes nothing; otherwise the items are attached and appended in order, and the first conflict stops with the items before it attached |
| TrackedCollection.ChangeTrackingCollection.AttachEach | DapperExtensions/ChangeTrackingCollection.cs:41-42 | the loop attaches and appends each item in order up to the first conflict |
| Implementor.Grouped | DapperExtensions/DapperImplementor.cs:363-369 | the result is a single predicate iff there is exactly one, and is the conjunction of all of them |
| Implementor.GetKeyPredicate | DapperExtensions/DapperImplementor.cs:346-370 | fails iff no property is a key under the key name; otherwise one Eq test per key property in property order with the entity's value, single iff one key |
| Implementor.KeyPredicateMatches | DapperExtensions/DapperImplementor.cs:346-370 | a row satisfies the key predicate iff it agrees with the entity on every key property |
| Implementor.GetIdPredicate | DapperExtensions/DapperImplementor.cs:308-344 | a simple id is the value of every key; an id object gives each key its same-named member and fails at the first one missing; single iff one key |
| Implementor.IdOfKeysIsKeyPredicate | DapperExtensions/DapperImplementor.cs:308-370 | when the entity has every key member, an id object made of its values gives each key the entity's own value, and the key predicate is the grouped id predicate |
| Implementor.IdPredicateOfEntity | DapperExtensions/DapperImplementor.cs:308-370 | the id predicate built from such an id object succeeds and equals the entity's key predicate |
| Implementor.DiffParameters | DapperExtensions/DapperImplementor.cs:164-169 | a name is bound iff some change has it and it is a column, and it takes the last such change's value |
| Implementor.PlanIsRelevantInOrder | DapperExtensions/Snapshotter.cs:84-94 | the plan is the names of exactly the relevant properties, in property order (a `Where` then `Select`) |
| Implementor.RelevantIsUpdatable | DapperExtensions/DapperImplementor.cs:163 | every property that takes part in snapshots is a column an update may write |
| Implementor.PartialUpdateBindsChanges | DapperExtensions/DapperImplementor.cs:140-169 | under partial update the bound parameters are exactly the changed planned properties, each with its live value |
| Implementor.Update | DapperExtensions/DapperImplementor.cs:134-182 | the key name defaults to the update default; an empty diff before, or after a changing OnUpdate, succeeds with no statement; otherwise a missing key fails, else one update with the selected columns and the diff or field values |
| Implementor.ResetEntryUpdateIsSkipped | DapperExtensions/DapperImplementor.cs:140-144 | after a reset an untouched entry's flush call is an update; it is partial exactly when the entry kept a snapshot, and that snapshot is of the entity with an empty diff, so the update issues nothing |
| Implementor.Delete | DapperExtensions/DapperImplementor.cs:184-190 | the key name defaults to the delete default; a missing key fails; otherwise one delete with the key predicate |
| Implementor.ShapeRecoversEntries | DapperExtensions/DapperImplementor.cs:126-131 | the result is the bare value iff there is exactly one key value, otherwise all entries, and the entries can be read back |
| Implementor.Insert | DapperExtensions/DapperImplementor.cs:73-132 | two identity columns fail before any statement; otherwise every guid key gets a new guid, the insert is issued, an identity is read back (failing when the query returns no rows, or when it does not fit 32 bits for a non-64-bit property), and the key values are returned in shape |
| Implementor.AddKeyValues | DapperExtensions/DapperImplementor.cs:121-124 | succeeds iff all reported names are distinct, giving each name's current value; otherwise fails on a repeated name |
| Implementor.AssignGuids | DapperExtensions/DapperImplementor.cs:79-86 | every guid key gets a guid not issued before, no two guid keys share one, and every other property is kept |

## Left out

- Asynchronous variants (`SaveChangesAsync`, the async implementor): they duplicate the sync logic around awaits.
- SQL text, dialects and the connection's Query/Execute plumbing: the connection is a collaborator that records statements; affected-row counts and identity values are left open.
- The parameters that the SQL generator adds for the key predicate in `Update` are not modelled, because they come from the SQL generator, which is not part of this model.
- Multiple-statement batching of the identity query is left out. It only changes how the insert and the identity query are sent.
- IL emission and the static per-type caches of cloner, differ and reverter: the model runs the same loop over the plan on every call, which has the same results.
- The clone is a value copy (a map), not a new object; the source never exposes or changes it.
- ChangeTracking.ChangeTracking.constructor: a caller-supplied `ISequenceGenerator` is modelled as the default counter, since an interface with arbitrary implementations is not modelled. Distinct ids, and with them the single flush order of `TrackingSpec.FlushOrderUnique`, rely on that counter; a custom generator that repeats ids would leave ties to the stable order of `OrderBy` over the dictionary's enumeration, which the model does not fix.
- ChangeTracking.ChangeTracking.DeleteAll: the enumeration order of the dictionary is not modelled; each entry gets a new operation id in some order, so the order of the deletes a later flush issues among themselves is left open, as .NET leaves it undefined.
- ChangeTracking.SequenceGenerator.NextId: does not model the 64-bit wrap of `Interlocked.Increment`; ids are unbounded integers.
- `Interlocked` atomicity and thread safety: the model is sequential.
- ChangeTracking.TrackedEntity.ReAdd: does not model the 32-bit overflow of the reference count.
- The generic type check of `Get<T>` (`t as TrackedEntity<T>`) is left out; entries are untyped.
- `AddRange`, `AddNewRange`, `AttachRange`, `DeleteRange`, `AttachCollection`, `AddNewCollection` and `CreateTrackingCollection` are left out. They are plain loops over `Add`, `Delete` and `Attach`.
- `Insert(IEnumerable)` (the bulk insert) is left out. It repeats the guid assignment over several entities.
- `GetNextGuid` is modelled as a source of guids never issued before, not as the comb-guid algorithm.
- `OnInsert` and `OnUpdate` hooks are function parameters (the values they leave and, for `OnUpdate`, its report).
- `ReflectionHelper.IsSimpleType` is not part of this model; the caller chooses a simple id or an id object.
- The index range errors of `Collection<T>` are left out: its public methods check the index before they call the overrides, so the model states a valid index as a precondition.
- `Convert.ToInt32` narrowing is an error when the value does not fit; rounding of non-integer values does not arise.
- `ClassMapper` (how class maps are built) is not part of this model; a class map is a value with properties, partial-update flag and default key names.
