/** The change-tracking unit of work: a registry of tracked entities keyed by
    object reference, each with its lifecycle flags, reference count,
    operation id and optional snapshot, and a flush that calls the
    persistence collaborator once per entry in (operation kind, operation id)
    order. Every method is proved against the transitions in TrackingSpec. */
module ChangeTracking {
  import opened Common
  import opened Mapper
  import opened Snapshotter
  import opened TrackingSpec

  /** The default sequence generator: a counter that hands out the previous
      id plus one. */
  class SequenceGenerator {
    var lastId: int

    constructor ()
      ensures lastId == 0
    {
      lastId := 0;
    }

    method NextId() returns (id: int)
      modifies this
      ensures id == lastId == old(lastId) + 1
    {
      lastId := lastId + 1;
      id := lastId;
    }
  }

  /** The persistence collaborator: it records each statement it is asked to
      run; whether running it fails is up to the data store. Running it may
      also write into the entity (the OnInsert and OnUpdate hooks, generated
      guid keys, an identity read back), so the entity's property values
      afterwards are left open. */
  class Connection {
    var calls: seq<StoreCall>

    constructor ()
      ensures calls == []
    {
      calls := [];
    }

    method Execute(c: StoreCall) returns (failed: bool)
      modifies this, c.entity
      ensures calls == old(calls) + [c]
    {
      calls := calls + [c];
      var written: Fields :| true;
      c.entity.fields := written;
      failed :| true;
    }
  }

  /** The tracking state of one domain object. */
  class TrackedEntity {
    const entity: DomainObject
    const sequenceGenerator: SequenceGenerator
    const takeSnapshot: bool
    const isPartialUpdateEnabled: bool
    var operationId: int
    var isNew: bool
    var isDeleted: bool
    var trackedRefCount: nat
    var keyName: Option<string>
    var snapshot: Option<Snapshot>

    function State(): EntryState
      reads this
    {
      EntryState(isNew, isDeleted, operationId, trackedRefCount, keyName, snapshot, takeSnapshot, isPartialUpdateEnabled)
    }

    ghost predicate Valid()
      reads this
    {
      Consistent(entity, State())
    }

    /** Starts tracking `entity` with one reference and the next operation id;
        an attached entity with a snapshot policy and partial updates gets a
        snapshot. */
    constructor (entity: DomainObject, isNew: bool, takeSnapshot: bool, keyName: Option<string>, generator: SequenceGenerator)
      modifies generator
      ensures this.entity == entity && sequenceGenerator == generator
      ensures generator.lastId == old(generator.lastId) + 1
      ensures State() == Created(entity, isNew, takeSnapshot, keyName, generator.lastId)
      ensures Valid()
    {
      this.entity := entity;
      sequenceGenerator := generator;
      this.keyName := keyName;
      var partial := !entity.classMap.isPartialUpdateDisabled;
      isPartialUpdateEnabled := partial;
      var id := generator.NextId();
      operationId := id;
      this.isNew := isNew;
      isDeleted := false;
      this.takeSnapshot := takeSnapshot;
      if !isNew && takeSnapshot && partial {
        var s := Start(entity);
        snapshot := Some(s);
      } else {
        snapshot := None;
      }
      trackedRefCount := 1;
    }

    /** Marks the entity deleted under a new operation id and key name; a new
        entity also loses a reference, and the result says whether that was
        its last one. */
    method Delete(keyName: Option<string>) returns (r: Result<bool>)
      requires Valid()
      modifies this, sequenceGenerator
      ensures Valid()
      ensures sequenceGenerator.lastId == old(sequenceGenerator.lastId) + 1
      ensures State() == Deleted(old(State()), keyName, sequenceGenerator.lastId)
      ensures !old(isNew) ==> r == Ok(false)
      ensures r.Err? <==> old(isNew) && old(trackedRefCount) == 0
      ensures r.Err? ==> r.error == UntrackedMoreTimes
      ensures r == Ok(true) <==> RemovedOnDelete(old(State()))
    {
      isDeleted := true;
      var id := sequenceGenerator.NextId();
      operationId := id;
      this.keyName := keyName;
      if isNew {
        if trackedRefCount <= 0 {
          return Err(UntrackedMoreTimes);
        }
        trackedRefCount := trackedRefCount - 1;
        return Ok(trackedRefCount == 0);
      }
      r := Ok(false);
    }

    /** Adds a reference under the same New/Attach status; the other status
        is rejected and nothing changes. */
    method ReAdd(isNew: bool) returns (r: Outcome)
      requires Valid()
      modifies this, sequenceGenerator
      ensures Valid()
      ensures old(this.isNew) != isNew ==>
        r == Fail(ConflictingStatus) && State() == old(State()) && sequenceGenerator.lastId == old(sequenceGenerator.lastId)
      ensures old(this.isNew) == isNew ==>
        && r == Pass
        && sequenceGenerator.lastId == old(sequenceGenerator.lastId) + 1
        && State() == ReAdded(old(State()), sequenceGenerator.lastId)
    {
      if this.isNew != isNew {
        return Fail(ConflictingStatus);
      }
      if isDeleted {
        isDeleted := false;
      }
      var id := sequenceGenerator.NextId();
      operationId := id;
      trackedRefCount := trackedRefCount + 1;
      r := Pass;
    }

    /** After a flush: a deleted entity reports false and is left as it is;
        any other becomes attached, with a fresh snapshot when its policy asks
        for one. */
    method Reset() returns (r: bool)
      requires Valid()
      modifies this
      ensures Valid()
      ensures r == !old(isDeleted)
      ensures r ==> State() == ResetEntry(entity, old(State()))
      ensures !r ==> State() == old(State())
    {
      if isDeleted {
        return false;
      }
      isNew := false;
      snapshot := None;
      if takeSnapshot && isPartialUpdateEnabled {
        var s := Start(entity);
        snapshot := Some(s);
      }
      r := true;
    }

    /** Puts the snapshot's values back into the entity; false when there is
        no snapshot. */
    method Revert() returns (r: bool)
      requires Valid()
      modifies entity
      ensures r == State().HasSnapshot()
      ensures r ==> entity.fields == Restore(old(entity.fields), snapshot.value.clone, snapshot.value.plan)
      ensures r ==> DiffOf(snapshot.value) == []
      ensures !r ==> entity.fields == old(entity.fields)
    {
      if snapshot.None? {
        return false;
      }
      Snapshotter.Revert(snapshot.value);
      r := true;
    }

    /** Issues the statement the entity's state asks for: nothing for a new
        deleted entity, an insert for a new one, a delete with the key name for
        a deleted one, an update with key name and snapshot otherwise. */
    method SaveChanges(connection: Connection) returns (r: Outcome)
      modifies connection, entity
      ensures connection.calls == old(connection.calls) + CallList(CallFor(entity, State()))
      ensures r.Fail? ==> r.error == StoreFailure && CallFor(entity, State()).Some?
    {
      var failed := false;
      if isNew {
        if isDeleted {
          return Pass;
        }
        failed := connection.Execute(InsertCall(entity));
      } else if isDeleted {
        failed := connection.Execute(DeleteCall(entity, keyName));
      } else {
        failed := connection.Execute(UpdateCall(entity, keyName, snapshot));
      }
      r := if failed then Fail(StoreFailure) else Pass;
    }
  }

  /** The registry of tracked entities. */
  class ChangeTracking {
    const sequenceGenerator: SequenceGenerator
    var trackedEntities: map<DomainObject, TrackedEntity>

    ghost function Entries(): map<DomainObject, EntryState>
      reads this, trackedEntities.Values
    {
      map o | o in trackedEntities :: trackedEntities[o].State()
    }

    ghost function Model(): Tracker
      reads this, sequenceGenerator, trackedEntities.Values
    {
      Tracker(Entries(), sequenceGenerator.lastId)
    }

    /** Each entry tracks the object it is keyed by and shares the registry's
        generator, and the tracking state is well formed. */
    ghost predicate Valid()
      reads this, sequenceGenerator, trackedEntities.Values
    {
      && (forall o | o in trackedEntities ::
            trackedEntities[o].entity == o && trackedEntities[o].sequenceGenerator == sequenceGenerator)
      && WellFormed(Model())
    }

    /** The entries after only the entry of `o` changed or was added. */
    twostate lemma EntriesAfterUpdate(o: DomainObject)
      requires o in trackedEntities
      requires trackedEntities.Keys == old(trackedEntities).Keys + {o}
      requires forall x | x in old(trackedEntities) && x != o ::
        trackedEntities[x] == old(trackedEntities[x]) && trackedEntities[x].State() == old(trackedEntities[x].State())
      ensures Entries() == old(Entries())[o := trackedEntities[o].State()]
    {
    }

    /** The entries after the entry of `o` was removed and no other changed. */
    twostate lemma EntriesAfterRemoval(o: DomainObject)
      requires trackedEntities.Keys == old(trackedEntities).Keys - {o}
      requires forall x | x in trackedEntities ::
        trackedEntities[x] == old(trackedEntities[x]) && trackedEntities[x].State() == old(trackedEntities[x].State())
      ensures Entries() == old(Entries()) - {o}
    {
    }

    /** A registry with no entries, using `generator` or a new default one. */
    constructor (generator: SequenceGenerator?)
      ensures Valid()
      ensures trackedEntities == map[]
      ensures generator != null ==> sequenceGenerator == generator
      ensures generator == null ==> fresh(sequenceGenerator) && sequenceGenerator.lastId == 0
    {
      if generator == null {
        sequenceGenerator := new SequenceGenerator();
      } else {
        sequenceGenerator := generator;
      }
      trackedEntities := map[];
    }

    /** The entry of an entity, or null for null or an untracked entity. */
    method Get(entity: DomainObject?) returns (t: TrackedEntity?)
      requires Valid()
      ensures entity == null ==> t == null
      ensures entity != null ==> (t != null <==> entity in Entries())
      ensures t != null ==> entity != null && t.entity == entity && t.Valid() && t.State() == Entries()[entity]
      ensures t != null ==> t == trackedEntities[t.entity]
    {
      if entity == null {
        return null;
      }
      if entity in trackedEntities {
        t := trackedEntities[entity];
        assert Entries()[entity] == t.State();
        return t;
      }
      t := null;
    }

    /** The handle is the registry's entry for its entity. */
    ghost predicate Holds(t: TrackedEntity)
      reads this
    {
      t.entity in trackedEntities && trackedEntities[t.entity] == t
    }

    /** Creates the entry of an untracked entity. */
    method TrackNew(entity: DomainObject, isNew: bool, takeSnapshot: bool, keyName: Option<string>) returns (t: TrackedEntity)
      requires Valid() && entity !in trackedEntities
      modifies this, sequenceGenerator
      ensures Valid() && fresh(t) && t.entity == entity
      ensures trackedEntities == old(trackedEntities)[entity := t]
      ensures Model() == AddSpec(old(Model()), entity, isNew, takeSnapshot, keyName).value
    {
      t := new TrackedEntity(entity, isNew, takeSnapshot, keyName, sequenceGenerator);
      trackedEntities := trackedEntities[entity := t];
      EntriesAfterUpdate(entity);
      AddKeepsWellFormed(old(Model()), entity, isNew, takeSnapshot, keyName);
    }

    /** Re-adds a tracked entry. */
    method ReAddEntry(t: TrackedEntity, isNew: bool, ghost takeSnapshot: bool, ghost keyName: Option<string>) returns (o: Outcome)
      requires Valid() && Holds(t)
      modifies t, sequenceGenerator
      ensures Valid() && trackedEntities == old(trackedEntities)
      ensures o.Fail? <==> AddSpec(old(Model()), t.entity, isNew, takeSnapshot, keyName).Err?
      ensures o.Fail? ==> o == Fail(ConflictingStatus) && Model() == old(Model())
      ensures o.Pass? ==> Model() == AddSpec(old(Model()), t.entity, isNew, takeSnapshot, keyName).value
    {
      ghost var s0 := Model();
      assert t.Valid() && t.State() == s0.entries[t.entity];
      o := t.ReAdd(isNew);
      EntriesAfterUpdate(t.entity);
      AddKeepsWellFormed(s0, t.entity, isNew, takeSnapshot, keyName);
      if o.Pass? {
        assert Entries() == s0.entries[t.entity := ReAdded(s0.entries[t.entity], s0.lastId + 1)];
        assert Model() == AddSpec(s0, t.entity, isNew, takeSnapshot, keyName).value;
      } else {
        assert Entries() == s0.entries;
        assert Model() == s0;
      }
    }

    /** Deletes a tracked entry, detaching it when the delete reports its last
        reference gone. */
    method DeleteEntry(t: TrackedEntity, keyName: Option<string>)
      requires Valid() && Holds(t)
      modifies this, t, sequenceGenerator
      ensures Valid()
      ensures trackedEntities == old(trackedEntities) || trackedEntities == old(trackedEntities) - {t.entity}
      ensures Model() == DeleteEntrySpec(old(Model()), t.entity, keyName)
    {
      ghost var s0 := Model();
      DeleteEntryKeepsWellFormed(s0, t.entity, keyName);
      assert t.Valid() && t.State() == s0.entries[t.entity];
      var r := t.Delete(keyName);
      assert r.Ok?;
      if r.value {
        DetachDeleted(t);
        assert Model() == DeleteEntrySpec(s0, t.entity, keyName) by {
          EntriesAfterRemoval(t.entity);
        }
      } else {
        assert Model() == DeleteEntrySpec(s0, t.entity, keyName) by {
          EntriesAfterUpdate(t.entity);
        }
      }
    }

    /** The detach that follows a delete which dropped the last reference. */
    method DetachDeleted(t: TrackedEntity)
      modifies this
      ensures trackedEntities == old(trackedEntities) - {t.entity}
    {
      var _ := DetachTracked(t);
    }

    /** Tracks an entity as new or attached: a new entry for an untracked
        reference, or a re-add of its existing entry. */
    method Add(entity: DomainObject?, isNew: bool, takeSnapshot: bool, keyName: Option<string>) returns (r: Result<TrackedEntity?>)
      requires Valid()
      modifies this, sequenceGenerator, trackedEntities.Values
      ensures Valid()
      ensures fresh(trackedEntities.Values - old(trackedEntities.Values))
      ensures entity == null ==> r == Ok(null) && Model() == old(Model()) && trackedEntities == old(trackedEntities)
      ensures entity != null && AddSpec(old(Model()), entity, isNew, takeSnapshot, keyName).Err? ==>
        r == Err(ConflictingStatus) && Model() == old(Model()) && trackedEntities == old(trackedEntities)
      ensures entity != null && AddSpec(old(Model()), entity, isNew, takeSnapshot, keyName).Ok? ==>
        && Model() == AddSpec(old(Model()), entity, isNew, takeSnapshot, keyName).value
        && r.Ok? && r.value != null && entity in trackedEntities && r.value == trackedEntities[entity]
        && (entity in old(trackedEntities) ==> r.value == old(trackedEntities[entity]))
    {
      if entity == null {
        return Ok(null);
      }
      var t := Get(entity);
      if t == null {
        t := TrackNew(entity, isNew, takeSnapshot, keyName);
      } else {
        var o := ReAddEntry(t, isNew, takeSnapshot, keyName);
        if o.Fail? {
          return Err(o.error);
        }
      }
      r := Ok(t);
    }

    /** Tracks an entity as new. */
    method AddNew(entity: DomainObject?) returns (r: Result<TrackedEntity?>)
      requires Valid()
      modifies this, sequenceGenerator, trackedEntities.Values
      ensures Valid()
      ensures fresh(trackedEntities.Values - old(trackedEntities.Values))
      ensures entity == null ==> r == Ok(null) && Model() == old(Model()) && trackedEntities == old(trackedEntities)
      ensures entity != null && AddSpec(old(Model()), entity, true, true, None).Err? ==>
        r == Err(ConflictingStatus) && Model() == old(Model()) && trackedEntities == old(trackedEntities)
      ensures entity != null && AddSpec(old(Model()), entity, true, true, None).Ok? ==>
        && Model() == AddSpec(old(Model()), entity, true, true, None).value
        && r.Ok? && r.value != null && entity in trackedEntities && r.value == trackedEntities[entity]
    {
      r := Add(entity, true, true, None);
    }

    /** Tracks an entity as attached: it exists in the data store. */
    method Attach(entity: DomainObject?, takeSnapshot: bool, keyName: Option<string>) returns (r: Result<TrackedEntity?>)
      requires Valid()
      modifies this, sequenceGenerator, trackedEntities.Values
      ensures Valid()
      ensures fresh(trackedEntities.Values - old(trackedEntities.Values))
      ensures entity == null ==> r == Ok(null) && Model() == old(Model()) && trackedEntities == old(trackedEntities)
      ensures entity != null && AddSpec(old(Model()), entity, false, takeSnapshot, keyName).Err? ==>
        r == Err(ConflictingStatus) && Model() == old(Model()) && trackedEntities == old(trackedEntities)
      ensures entity != null && AddSpec(old(Model()), entity, false, takeSnapshot, keyName).Ok? ==>
        && Model() == AddSpec(old(Model()), entity, false, takeSnapshot, keyName).value
        && r.Ok? && r.value != null && entity in trackedEntities && r.value == trackedEntities[entity]
    {
      r := Add(entity, false, takeSnapshot, keyName);
    }

    /** Removes the entry keyed by the handle's entity, whichever entry that
        is; true when there was one. A null handle counts as detached. A
        valid registry stays valid. */
    method DetachTracked(t: TrackedEntity?) returns (r: bool)
      modifies this
      ensures t == null ==> r && trackedEntities == old(trackedEntities)
      ensures t != null ==> r == (t.entity in old(trackedEntities)) && trackedEntities == old(trackedEntities) - {t.entity}
      ensures t != null && old(Valid()) ==>
        Valid() && Model() == Tracker(old(Entries()) - {t.entity}, sequenceGenerator.lastId)
    {
      if t == null {
        return true;
      }
      ghost var s0 := Model();
      ghost var wasValid := Valid();
      r := t.entity in trackedEntities;
      trackedEntities := trackedEntities - {t.entity};
      EntriesAfterRemoval(t.entity);
      if wasValid {
        RemoveKeepsWellFormed(s0, t.entity, s0.lastId);
      }
    }

    /** Stops tracking an entity; true for null, false for an untracked one. */
    method Detach(entity: DomainObject?) returns (r: bool)
      requires Valid()
      modifies this
      ensures Valid()
      ensures entity == null ==> r && Model() == old(Model())
      ensures entity != null ==>
        && r == (entity in old(Entries()))
        && Model() == Tracker(old(Entries()) - {entity}, old(sequenceGenerator.lastId))
    {
      if entity == null {
        return true;
      }
      var t := Get(entity);
      if t == null {
        assert old(Entries()) - {entity} == old(Entries());
        return false;
      }
      r := DetachTracked(t);
      assert Entries() == old(Entries()) - {entity};
    }

    /** Deletes an entity: an untracked one is attached first, so that its
        delete is flushed; a new one whose last reference goes is detached. */
    method Delete(entity: DomainObject?, keyName: Option<string>)
      requires Valid()
      modifies this, sequenceGenerator, trackedEntities.Values
      ensures Valid()
      ensures fresh(trackedEntities.Values - old(trackedEntities.Values))
      ensures entity == null ==> Model() == old(Model())
      ensures entity != null ==> Model() == DeleteSpec(old(Model()), entity, keyName)
    {
      if entity == null {
        return;
      }
      var t := Get(entity);
      if t == null {
        t := TrackNew(entity, false, true, keyName);
      }
      ghost var s1 := Model();
      assert s1 == if entity in old(Model()).entries then old(Model())
                   else AddSpec(old(Model()), entity, false, true, keyName).value;
      ghost var values := trackedEntities.Values;
      assert fresh(values - old(trackedEntities.Values));
      DeleteEntry(t, keyName);
      assert trackedEntities.Values <= values;
    }

    /** Deletes through a handle without a key name. For the registry's own
        entry this is the delete of that entry; a stale handle is still marked
        deleted, fails once its count is exhausted, and when its last
        reference goes it detaches whatever entry its entity has. */
    method DeleteTracked(t: TrackedEntity?) returns (r: Outcome)
      requires Valid()
      requires t != null ==> t.Valid()
      modifies this, t, if t != null then {t.sequenceGenerator} else {}
      ensures Valid()
      ensures t == null ==> r == Pass && Model() == old(Model())
      ensures t != null && old(Holds(t)) ==> r == Pass && Model() == DeleteEntrySpec(old(Model()), t.entity, None)
      ensures t != null && !old(Holds(t)) ==>
        && t.State() == Deleted(old(t.State()), None, t.sequenceGenerator.lastId)
        && (r.Fail? <==> old(t.isNew) && old(t.trackedRefCount) == 0)
        && (r.Fail? ==> r.error == UntrackedMoreTimes)
        && Entries() == (if RemovedOnDelete(old(t.State())) then old(Entries()) - {t.entity} else old(Entries()))
        && t.sequenceGenerator.lastId == old(t.sequenceGenerator.lastId) + 1
        && Model().lastId == old(Model().lastId) + (if t.sequenceGenerator == sequenceGenerator then 1 else 0)
    {
      if t == null {
        return Pass;
      }
      if t.entity in trackedEntities && trackedEntities[t.entity] == t {
        DeleteEntry(t, None);
        return Pass;
      }
      assert t !in trackedEntities.Values;
      ghost var s0 := Model();
      var d := t.Delete(None);
      assert Entries() == s0.entries;
      if d.Err? {
        return Fail(d.error);
      }
      if d.value {
        var _ := DetachTracked(t);
        EntriesAfterRemoval(t.entity);
      }
      RemoveKeepsWellFormed(s0, t.entity, sequenceGenerator.lastId);
      assert s0.entries - {t.entity} == s0.entries || t.entity in s0.entries;
      r := Pass;
    }

    /** Deletes every tracked entity without a key name; new entities whose
        last reference goes are detached. */
    method DeleteAll()
      requires Valid()
      modifies this, sequenceGenerator, trackedEntities.Values
      ensures Valid()
      ensures trackedEntities.Values <= old(trackedEntities.Values)
      ensures DeleteAllSpec(old(Model()), Model())
    {
      var remaining := trackedEntities.Keys;
      ghost var s0 := Model();
      DeleteAllStart(s0);
      while remaining != {}
        invariant Valid()
        invariant trackedEntities.Values <= old(trackedEntities.Values)
        invariant DeleteAllSoFar(s0, remaining, Model())
        decreases remaining
      {
        var o :| o in remaining;
        DeleteAllStep(s0, remaining, Model(), o);
        var t := trackedEntities[o];
        DeleteEntry(t, None);
        remaining := remaining - {o};
      }
      DeleteAllDone(s0, Model());
    }

    /** Resets a tracked entry, detaching it when it is deleted. */
    method ResetOne(t: TrackedEntity)
      requires Valid() && Holds(t)
      modifies this, t
      ensures Valid()
      ensures trackedEntities == old(trackedEntities) || trackedEntities == old(trackedEntities) - {t.entity}
      ensures Model() == ResetOneSpec(old(Model()), t.entity)
    {
      ghost var s0 := Model();
      ResetOneKeepsWellFormed(s0, t.entity);
      assert t.Valid() && t.State() == s0.entries[t.entity];
      var kept := t.Reset();
      if !kept {
        var _ := DetachTracked(t);
        assert Model() == ResetOneSpec(s0, t.entity) by {
          EntriesAfterRemoval(t.entity);
        }
      } else {
        assert Model() == ResetOneSpec(s0, t.entity) by {
          EntriesAfterUpdate(t.entity);
        }
      }
    }

    /** Resets through a handle: the registry's own entry is reset or, when
        deleted, detached; a stale deleted handle detaches whatever entry its
        entity has. */
    method ResetTracked(t: TrackedEntity?)
      requires Valid()
      requires t != null ==> t.Valid()
      modifies this, t
      ensures Valid()
      ensures t == null ==> Model() == old(Model())
      ensures t != null && old(Holds(t)) ==> Model() == ResetOneSpec(old(Model()), t.entity)
      ensures t != null && !old(Holds(t)) ==>
        && (old(t.isDeleted) ==> t.State() == old(t.State()) && Model() == Tracker(old(Entries()) - {t.entity}, old(sequenceGenerator.lastId)))
        && (!old(t.isDeleted) ==> t.State() == ResetEntry(t.entity, old(t.State())) && Model() == old(Model()))
    {
      if t == null {
        return;
      }
      if t.entity in trackedEntities && trackedEntities[t.entity] == t {
        ResetOne(t);
        return;
      }
      assert t !in trackedEntities.Values;
      ghost var s0 := Model();
      var kept := t.Reset();
      assert Entries() == s0.entries;
      if !kept {
        var _ := DetachTracked(t);
        EntriesAfterRemoval(t.entity);
        RemoveKeepsWellFormed(s0, t.entity, s0.lastId);
      }
    }

    /** Resets every entry: deleted entries leave the registry, every other
        entry becomes attached with a fresh snapshot when its policy asks. */
    method Reset()
      requires Valid()
      modifies this, trackedEntities.Values
      ensures Valid()
      ensures trackedEntities.Values <= old(trackedEntities.Values)
      ensures Model() == ResetSpec(old(Model()))
    {
      var remaining := trackedEntities.Keys;
      ghost var s0 := Model();
      ResetStart(s0);
      while remaining != {}
        invariant Valid()
        invariant trackedEntities.Values <= old(trackedEntities.Values)
        invariant ResetSoFar(s0, remaining, Model())
        decreases remaining
      {
        var o :| o in remaining;
        ResetNext(s0, remaining, o);
        remaining := remaining - {o};
      }
      ResetDone(s0, Model());
    }

    /** One turn of the loop of Reset. */
    method ResetNext(ghost s0: Tracker, ghost remaining: set<DomainObject>, o: DomainObject)
      requires Valid() && ResetSoFar(s0, remaining, Model()) && o in remaining
      modifies this, trackedEntities.Values
      ensures Valid() && ResetSoFar(s0, remaining - {o}, Model())
      ensures trackedEntities.Values <= old(trackedEntities.Values)
    {
      ResetStep(s0, remaining, Model(), o);
      var t := trackedEntities[o];
      ResetOne(t);
    }

    /** Resets one entity; null and untracked entities are left alone. */
    method ResetEntity(entity: DomainObject?)
      requires Valid()
      modifies this, trackedEntities.Values
      ensures Valid()
      ensures entity == null || entity !in old(trackedEntities) ==> Model() == old(Model())
      ensures entity != null && entity in old(trackedEntities) ==> Model() == ResetOneSpec(old(Model()), entity)
    {
      if entity == null {
        return;
      }
      var t := Get(entity);
      if t != null {
        ResetOne(t);
      }
    }

    /** Reverts every tracked entity that has a snapshot. */
    method Revert()
      requires Valid()
      modifies trackedEntities.Keys
      ensures Valid()
      ensures Model() == old(Model())
      ensures forall o | o in trackedEntities :: o.fields == Reverted(old(o.fields), Entries()[o])
    {
      ghost var m := Entries();
      ghost var f0 := map o | o in trackedEntities :: o.fields;
      assert forall o | o in trackedEntities :: f0[o] == old(o.fields);
      var remaining := trackedEntities.Keys;
      while remaining != {}
        invariant Valid() && Entries() == m && trackedEntities == old(trackedEntities)
        invariant RevertedSoFar(f0, m, remaining)
        decreases remaining
      {
        var o :| o in remaining;
        RevertNext(f0, m, remaining, o);
        remaining := remaining - {o};
      }
    }

    /** The entities of `remaining` still hold the values in `f0`, the other
        entities of `m` hold those values reverted by their entry. */
    ghost predicate RevertedSoFar(f0: map<DomainObject, Fields>, m: map<DomainObject, EntryState>, remaining: set<DomainObject>)
      reads f0.Keys
    {
      && f0.Keys == m.Keys
      && remaining <= m.Keys
      && (forall o | o in f0 :: o.fields == if o in remaining then f0[o] else Reverted(f0[o], m[o]))
    }

    /** One turn of the loop of Revert. */
    method RevertNext(ghost f0: map<DomainObject, Fields>, ghost m: map<DomainObject, EntryState>, ghost remaining: set<DomainObject>, o: DomainObject)
      requires Valid() && Entries() == m && RevertedSoFar(f0, m, remaining) && o in remaining
      modifies o
      ensures Valid() && Entries() == m && RevertedSoFar(f0, m, remaining - {o})
    {
      var t := Get(o);
      var _ := t.Revert();
      RegistryUnchanged();
      forall x | x in f0
        ensures x.fields == if x in remaining - {o} then f0[x] else Reverted(f0[x], m[x])
      {
        if x != o {
          assert x.fields == old(x.fields);
        }
      }
    }

    /** Changing only tracked objects, not the registry or its entries,
        keeps the registry valid and its entries as they were. */
    twostate lemma RegistryUnchanged()
      requires old(Valid())
      requires unchanged(this, sequenceGenerator)
      requires forall o | o in trackedEntities :: unchanged(trackedEntities[o])
      ensures Valid() && Entries() == old(Entries())
    {
    }

    /** Reverts one entity; a null entity is the null-key error of the
        dictionary lookup, an untracked one is left alone. */
    method RevertEntity(entity: DomainObject?) returns (r: Outcome)
      requires Valid()
      modifies entity
      ensures Valid()
      ensures entity == null ==> r == Fail(NullArgument)
      ensures entity != null ==> r == Pass
      ensures entity != null && entity !in trackedEntities ==> entity.fields == old(entity.fields)
      ensures entity != null && entity in trackedEntities ==>
        entity.fields == Reverted(old(entity.fields), Entries()[entity])
    {
      if entity == null {
        return Fail(NullArgument);
      }
      var t := Get(entity);
      if t != null {
        var _ := t.Revert();
      }
      r := Pass;
    }

    /** Forgets every entry. */
    method Clear()
      requires Valid()
      modifies this
      ensures Valid()
      ensures Model() == Tracker(map[], old(sequenceGenerator.lastId))
    {
      trackedEntities := map[];
    }

    /** The tracked entities sorted for the flush, by repeatedly taking an
        entry that is flushed no later than all remaining ones. */
    method FlushOrder() returns (order: seq<DomainObject>)
      requires Valid()
      ensures IsFlushOrder(Entries(), order)
    {
      ghost var m := Entries();
      var remaining := trackedEntities.Keys;
      order := [];
      while remaining != {}
        invariant SelectionSoFar(m, order, remaining)
        decreases remaining
      {
        MinimumExists(m, remaining);
        assert forall x | x in remaining :: m[x] == trackedEntities[x].State();
        var o :| o in remaining && forall x | x in remaining :: FlushBefore(trackedEntities[o].State(), trackedEntities[x].State());
        SelectionStep(m, order, remaining, o);
        order := order + [o];
        remaining := remaining - {o};
      }
    }

    /** Flushes the entries in `order`, stopping at the first failure. */
    method Dispatch(order: seq<DomainObject>, connection: Connection, ghost m: map<DomainObject, EntryState>) returns (r: Outcome, ghost failedAt: nat)
      requires Valid() && m == Entries()
      requires forall i | 0 <= i < |order| :: order[i] in m
      modifies connection, trackedEntities.Keys
      ensures r.Pass? ==> connection.calls == old(connection.calls) + CallsOf(m, order)
      ensures r.Fail? ==> r.error == StoreFailure && failedAt < |order|
      ensures r.Fail? ==> connection.calls == old(connection.calls) + CallsOf(m, order[..failedAt + 1])
    {
      ghost var calls0 := connection.calls;
      var i := 0;
      failedAt := 0;
      while i < |order|
        invariant 0 <= i <= |order|
        invariant connection.calls == calls0 + CallsOf(m, order[..i])
      {
        var t := trackedEntities[order[i]];
        assert t.entity == order[i] && t.State() == m[order[i]];
        var d := t.SaveChanges(connection);
        CallsOfStep(m, order, i);
        assert connection.calls == calls0 + CallsOf(m, order[..i + 1]);
        if d.Fail? {
          return d, i;
        }
        i := i + 1;
      }
      assert order[..i] == order;
      r := Pass;
    }

    /** Flushes every entry in (operation kind, operation id) order, then
        resets the registry when `resetAfter` is set. A failing statement
        stops the flush and leaves the registry as it was. */
    method SaveChanges(connection: Connection, resetAfter: bool) returns (r: Outcome, ghost order: seq<DomainObject>, ghost failedAt: nat)
      requires Valid()
      modifies this, connection, trackedEntities.Values, trackedEntities.Keys
      ensures Valid()
      ensures IsFlushOrder(old(Entries()), order)
      ensures r.Pass? ==> connection.calls == old(connection.calls) + CallsOf(old(Entries()), order)
      ensures r.Pass? ==> Model() == if resetAfter then ResetSpec(old(Model())) else old(Model())
      ensures r.Fail? ==> r.error == StoreFailure && Model() == old(Model()) && failedAt < |order|
      ensures r.Fail? ==> connection.calls == old(connection.calls) + CallsOf(old(Entries()), order[..failedAt + 1])
    {
      ghost var s0 := Model();
      var sorted := FlushOrder();
      order := sorted;
      r, failedAt := Dispatch(sorted, connection, s0.entries);
      assert Entries() == s0.entries && Model() == s0;
      if r.Fail? {
        return;
      }
      if resetAfter {
        Reset();
      }
    }
  }
}
