/** The tracking state of a registry as a value: one EntryState per tracked
    domain object, the last operation id handed out, the state transitions of
    the registry's operations, and the order and content of a flush. The
    classes in ChangeTracking are proved against these definitions. */
module TrackingSpec {
  import opened Common
  import opened Mapper
  import opened Snapshotter

  /** The fields of one tracked entity, as a value. */
  datatype EntryState = EntryState(
    isNew: bool,
    isDeleted: bool,
    operationId: int,
    trackedRefCount: nat,
    keyName: Option<string>,
    snapshot: Option<Snapshot>,
    takeSnapshot: bool,
    isPartialUpdateEnabled: bool)
  {
    /** The flush rank: deletes first, then inserts, then updates. A deleted
        new entity ranks as a delete. */
    function OperationTypeOrder(): (r: int)
      ensures 1 <= r <= 3
      ensures r == 1 <==> isDeleted
      ensures r == 2 <==> isNew && !isDeleted
      ensures r == 3 <==> !isNew && !isDeleted
    {
      if isDeleted then 1 else if isNew then 2 else 3
    }

    predicate HasSnapshot()
    {
      snapshot.Some?
    }
  }

  /** One call of the persistence collaborator, as a flush issues it. */
  datatype StoreCall =
    | InsertCall(entity: DomainObject)
    | UpdateCall(entity: DomainObject, keyName: Option<string>, snapshot: Option<Snapshot>)
    | DeleteCall(entity: DomainObject, keyName: Option<string>)
  {
    /** The flush rank of the kind of statement. */
    function Rank(): int
    {
      match this
      case DeleteCall(_, _) => 1
      case InsertCall(_) => 2
      case UpdateCall(_, _, _) => 3
    }
  }

  /** The call the flush of one entry issues, if any. */
  function CallFor(o: DomainObject, e: EntryState): Option<StoreCall>
  {
    if e.isNew then
      if e.isDeleted then None else Some(InsertCall(o))
    else if e.isDeleted then Some(DeleteCall(o, e.keyName))
    else Some(UpdateCall(o, e.keyName, e.snapshot))
  }

  function CallList(c: Option<StoreCall>): seq<StoreCall>
  {
    if c.Some? then [c.value] else []
  }

  /** A registry: its entries, keyed by object reference, and the state of
      its sequence generator. */
  datatype Tracker = Tracker(entries: map<DomainObject, EntryState>, lastId: int)

  /** What the constructor and Reset keep about one entry: partial update is
      the class map's setting, and there is a snapshot of `o` exactly when the
      entry is not new, asks for snapshots and may update partially. */
  ghost predicate Consistent(o: DomainObject, e: EntryState)
  {
    && e.isPartialUpdateEnabled == !o.classMap.isPartialUpdateDisabled
    && (e.snapshot.Some? <==> !e.isNew && e.takeSnapshot && e.isPartialUpdateEnabled)
    && (e.snapshot.Some? ==> e.snapshot.value.trackedObject == o && e.snapshot.value.plan == PlanOf(o))
  }

  ghost predicate DistinctIds(m: map<DomainObject, EntryState>)
  {
    forall a, b | a in m && b in m && a != b :: m[a].operationId != m[b].operationId
  }

  /** The registry invariant: every entry is consistent, holds at least one
      reference and an id already handed out, and no two entries share an id. */
  ghost predicate WellFormed(s: Tracker)
  {
    && (forall o | o in s.entries ::
          && s.entries[o].trackedRefCount >= 1
          && s.entries[o].operationId <= s.lastId
          && Consistent(o, s.entries[o]))
    && DistinctIds(s.entries)
  }

  /** A new entry for `o`, created with operation id `id`. */
  function Created(o: DomainObject, isNew: bool, takeSnapshot: bool, keyName: Option<string>, id: int): EntryState
    reads o
  {
    var partial := !o.classMap.isPartialUpdateDisabled;
    EntryState(isNew, false, id, 1, keyName,
      if !isNew && takeSnapshot && partial then Some(SnapshotOf(o)) else None,
      takeSnapshot, partial)
  }

  /** An entry added again under the same status. */
  function ReAdded(e: EntryState, id: int): EntryState
  {
    e.(isDeleted := false, operationId := id, trackedRefCount := e.trackedRefCount + 1)
  }

  /** Whether deleting the entry reports it removable: a new entry whose last
      reference goes. */
  predicate RemovedOnDelete(e: EntryState)
  {
    e.isNew && e.trackedRefCount == 1
  }

  /** An entry after a delete that does not remove it. */
  function Deleted(e: EntryState, keyName: Option<string>, id: int): EntryState
  {
    e.(isDeleted := true, operationId := id, keyName := keyName,
       trackedRefCount := if e.isNew && e.trackedRefCount > 0 then e.trackedRefCount - 1 else e.trackedRefCount)
  }

  /** An entry after a reset that keeps it: attached, with a fresh snapshot
      when its policy asks for one. */
  function ResetEntry(o: DomainObject, e: EntryState): EntryState
    reads o
  {
    e.(isNew := false, snapshot := if e.takeSnapshot && e.isPartialUpdateEnabled then Some(SnapshotOf(o)) else None)
  }

  /** Add: a new entry for an untracked reference, a re-add of the existing
      entry under the same status, or the conflicting-status error. */
  function AddSpec(s: Tracker, o: DomainObject, isNew: bool, takeSnapshot: bool, keyName: Option<string>): Result<Tracker>
    reads o
  {
    if o !in s.entries then
      Ok(Tracker(s.entries[o := Created(o, isNew, takeSnapshot, keyName, s.lastId + 1)], s.lastId + 1))
    else if s.entries[o].isNew != isNew then
      Err(ConflictingStatus)
    else
      Ok(Tracker(s.entries[o := ReAdded(s.entries[o], s.lastId + 1)], s.lastId + 1))
  }

  /** Delete of a tracked entry: removes it when the delete reports it
      removable, otherwise marks it deleted. */
  function DeleteEntrySpec(s: Tracker, o: DomainObject, keyName: Option<string>): Tracker
    requires o in s.entries
  {
    var e := s.entries[o];
    if RemovedOnDelete(e) then Tracker(s.entries - {o}, s.lastId + 1)
    else Tracker(s.entries[o := Deleted(e, keyName, s.lastId + 1)], s.lastId + 1)
  }

  /** Delete by object: an untracked object is attached (not new, with a
      snapshot policy) before it is deleted. */
  function DeleteSpec(s: Tracker, o: DomainObject, keyName: Option<string>): Tracker
    reads o
  {
    if o in s.entries then DeleteEntrySpec(s, o, keyName)
    else DeleteEntrySpec(AddSpec(s, o, false, true, keyName).value, o, keyName)
  }

  /** Reset of the whole registry: deleted entries go, every other entry is
      reset. */
  function ResetSpec(s: Tracker): Tracker
    reads s.entries.Keys
  {
    Tracker(map o | o in s.entries && !s.entries[o].isDeleted :: ResetEntry(o, s.entries[o]), s.lastId)
  }

  /** DeleteAll: every entry is deleted without a key name, in some order,
      each taking the next id; the removable ones leave the registry. */
  ghost predicate DeleteAllSpec(s0: Tracker, s1: Tracker)
  {
    && s1.entries.Keys == (set o | o in s0.entries && !RemovedOnDelete(s0.entries[o]))
    && s1.lastId == s0.lastId + |s0.entries.Keys|
    && forall o | o in s1.entries ::
         && o in s0.entries
         && s0.lastId < s1.entries[o].operationId <= s1.lastId
         && s1.entries[o] == Deleted(s0.entries[o], None, s1.entries[o].operationId)
  }

  /** Reset of one tracked entry: a deleted entry goes, any other is reset. */
  function ResetOneSpec(s: Tracker, o: DomainObject): Tracker
    requires o in s.entries
    reads o
  {
    if s.entries[o].isDeleted then Tracker(s.entries - {o}, s.lastId)
    else Tracker(s.entries[o := ResetEntry(o, s.entries[o])], s.lastId)
  }

  /** The property values a revert leaves in a tracked object: the snapshot's
      values where there is a snapshot, the current values otherwise. */
  function Reverted(fields: Fields, e: EntryState): Fields
  {
    if e.snapshot.Some? then Restore(fields, e.snapshot.value.clone, e.snapshot.value.plan) else fields
  }

  /** `a` is flushed no later than `b`: by operation kind, then by id. */
  predicate FlushBefore(a: EntryState, b: EntryState)
  {
    || a.OperationTypeOrder() < b.OperationTypeOrder()
    || (a.OperationTypeOrder() == b.OperationTypeOrder() && a.operationId <= b.operationId)
  }

  /** A sequence of distinct tracked objects sorted for the flush. */
  ghost predicate SortedForFlush(m: map<DomainObject, EntryState>, order: seq<DomainObject>)
  {
    && (forall i | 0 <= i < |order| :: order[i] in m)
    && (forall i, j | 0 <= i < j < |order| :: order[i] != order[j])
    && (forall i, j | 0 <= i < j < |order| :: FlushBefore(m[order[i]], m[order[j]]))
  }

  /** The order in which a flush visits the registry: every entry once, sorted. */
  ghost predicate IsFlushOrder(m: map<DomainObject, EntryState>, order: seq<DomainObject>)
  {
    SortedForFlush(m, order) && forall o | o in m :: o in order
  }

  /** The calls the flush issues when it visits `order`. */
  function CallsOf(m: map<DomainObject, EntryState>, order: seq<DomainObject>): seq<StoreCall>
    requires forall i | 0 <= i < |order| :: order[i] in m
  {
    if order == [] then []
    else
      var last := order[|order| - 1];
      CallsOf(m, order[..|order| - 1]) + CallList(CallFor(last, m[last]))
  }

  /** The calls of one more entry of an order are appended at the end. */
  lemma CallsOfStep(m: map<DomainObject, EntryState>, order: seq<DomainObject>, i: nat)
    requires forall j | 0 <= j < |order| :: order[j] in m
    requires i < |order|
    ensures CallsOf(m, order[..i + 1]) == CallsOf(m, order[..i]) + CallList(CallFor(order[i], m[order[i]]))
  {
    assert order[..i + 1][..i] == order[..i];
  }

  // ---------------------------------------------------------------------
  // Properties of single entries

  /** The kind of call an entry issues matches its flush rank, and a call is
      issued exactly unless the entry is new and deleted. */
  lemma CallMatchesRank(o: DomainObject, e: EntryState)
    ensures CallFor(o, e).None? <==> e.isNew && e.isDeleted
    ensures CallFor(o, e).Some? ==>
      CallFor(o, e).value.entity == o && CallFor(o, e).value.Rank() == e.OperationTypeOrder()
    ensures CallFor(o, e) == Some(InsertCall(o)) <==> e.isNew && !e.isDeleted
    ensures CallFor(o, e).Some? && CallFor(o, e).value.DeleteCall? <==> !e.isNew && e.isDeleted
    ensures CallFor(o, e).Some? && CallFor(o, e).value.UpdateCall? <==> !e.isNew && !e.isDeleted
  {
  }

  /** A new entry has one reference, the given id, and a snapshot exactly
      when it is attached with a snapshot policy and partial update. */
  lemma CreatedIsConsistent(o: DomainObject, isNew: bool, takeSnapshot: bool, keyName: Option<string>, id: int)
    ensures Consistent(o, Created(o, isNew, takeSnapshot, keyName, id))
    ensures Created(o, isNew, takeSnapshot, keyName, id).trackedRefCount == 1
    ensures Created(o, isNew, takeSnapshot, keyName, id).HasSnapshot() <==>
      !isNew && takeSnapshot && !o.classMap.isPartialUpdateDisabled
  {
  }

  /** A delete marks the entry deleted, never lowers a count below zero, and
      lowers it by one exactly for new entries. */
  lemma DeletedCount(e: EntryState, keyName: Option<string>, id: int)
    requires e.trackedRefCount >= 1
    ensures Deleted(e, keyName, id).isDeleted && Deleted(e, keyName, id).keyName == keyName
    ensures Deleted(e, keyName, id).trackedRefCount == if e.isNew then e.trackedRefCount - 1 else e.trackedRefCount
    ensures RemovedOnDelete(e) <==> e.isNew && Deleted(e, keyName, id).trackedRefCount == 0
  {
  }

  // ---------------------------------------------------------------------
  // The registry invariant is preserved

  lemma AddKeepsWellFormed(s: Tracker, o: DomainObject, isNew: bool, takeSnapshot: bool, keyName: Option<string>)
    requires WellFormed(s)
    ensures AddSpec(s, o, isNew, takeSnapshot, keyName).Ok? ==> WellFormed(AddSpec(s, o, isNew, takeSnapshot, keyName).value)
  {
    var r := AddSpec(s, o, isNew, takeSnapshot, keyName);
    if r.Ok? {
      var t := r.value;
      forall a, b | a in t.entries && b in t.entries && a != b
        ensures t.entries[a].operationId != t.entries[b].operationId
      {
        if a != o && b != o {
          assert t.entries[a] == s.entries[a] && t.entries[b] == s.entries[b];
        }
      }
    }
  }

  lemma DeleteKeepsWellFormed(s: Tracker, o: DomainObject, keyName: Option<string>)
    requires WellFormed(s)
    ensures WellFormed(DeleteSpec(s, o, keyName))
  {
    var s1 := s;
    if o !in s.entries {
      AddKeepsWellFormed(s, o, false, true, keyName);
      s1 := AddSpec(s, o, false, true, keyName).value;
    }
    DeleteEntryKeepsWellFormed(s1, o, keyName);
  }

  lemma DeleteEntryKeepsWellFormed(s: Tracker, o: DomainObject, keyName: Option<string>)
    requires WellFormed(s) && o in s.entries
    ensures WellFormed(DeleteEntrySpec(s, o, keyName))
  {
    var t := DeleteEntrySpec(s, o, keyName);
    forall a, b | a in t.entries && b in t.entries && a != b
      ensures t.entries[a].operationId != t.entries[b].operationId
    {
      if a != o && b != o {
        assert t.entries[a] == s.entries[a] && t.entries[b] == s.entries[b];
      }
    }
  }

  lemma ResetKeepsWellFormed(s: Tracker)
    requires WellFormed(s)
    ensures WellFormed(ResetSpec(s))
  {
    var t := ResetSpec(s);
    forall a, b | a in t.entries && b in t.entries && a != b
      ensures t.entries[a].operationId != t.entries[b].operationId
    {
      assert t.entries[a].operationId == s.entries[a].operationId;
      assert t.entries[b].operationId == s.entries[b].operationId;
    }
  }

  lemma ResetOneKeepsWellFormed(s: Tracker, o: DomainObject)
    requires WellFormed(s) && o in s.entries
    ensures WellFormed(ResetOneSpec(s, o))
  {
    var t := ResetOneSpec(s, o);
    forall a, b | a in t.entries && b in t.entries && a != b
      ensures t.entries[a].operationId != t.entries[b].operationId
    {
      assert t.entries[a].operationId == s.entries[a].operationId;
      assert t.entries[b].operationId == s.entries[b].operationId;
    }
  }

  /** Dropping an entry, or handing out further ids, keeps the invariant. */
  lemma RemoveKeepsWellFormed(s: Tracker, o: DomainObject, lastId: int)
    requires WellFormed(s) && s.lastId <= lastId
    ensures WellFormed(Tracker(s.entries - {o}, lastId))
  {
    var t := Tracker(s.entries - {o}, lastId);
    forall a, b | a in t.entries && b in t.entries && a != b
      ensures t.entries[a].operationId != t.entries[b].operationId
    {
      assert t.entries[a] == s.entries[a] && t.entries[b] == s.entries[b];
    }
  }

  // ---------------------------------------------------------------------
  // The loops of DeleteAll and Reset, one entry at a time

  /** DeleteAll part way: the entries in `rem` are still to be deleted, the
      others have been deleted in some order after `s0.lastId`. */
  ghost predicate DeleteAllSoFar(s0: Tracker, rem: set<DomainObject>, s: Tracker)
  {
    && rem <= s0.entries.Keys
    && KeysAfterDeletes(s0, rem, s)
    && s.lastId == s0.lastId + |s0.entries.Keys - rem|
    && (forall o | o in rem :: s.entries[o] == s0.entries[o])
    && DeletedAfter(s0, rem, s)
  }

  ghost predicate KeysAfterDeletes(s0: Tracker, rem: set<DomainObject>, s: Tracker)
  {
    s.entries.Keys == rem + (set o | o in s0.entries && o !in rem && !RemovedOnDelete(s0.entries[o]))
  }

  ghost predicate DeletedAfter(s0: Tracker, rem: set<DomainObject>, s: Tracker)
  {
    forall o | o in s.entries && o !in rem ::
      && o in s0.entries
      && s0.lastId < s.entries[o].operationId <= s.lastId
      && s.entries[o] == Deleted(s0.entries[o], None, s.entries[o].operationId)
  }

  lemma DeleteAllStart(s0: Tracker)
    ensures DeleteAllSoFar(s0, s0.entries.Keys, s0)
  {
    assert s0.entries.Keys - s0.entries.Keys == {};
  }

  lemma DeleteAllStep(s0: Tracker, rem: set<DomainObject>, s: Tracker, o: DomainObject)
    requires DeleteAllSoFar(s0, rem, s) && o in rem
    ensures o in s.entries
    ensures DeleteAllSoFar(s0, rem - {o}, DeleteEntrySpec(s, o, None))
  {
    var t := DeleteEntrySpec(s, o, None);
    var rem' := rem - {o};
    assert |s0.entries.Keys - rem'| == |s0.entries.Keys - rem| + 1 by {
      assert s0.entries.Keys - rem' == (s0.entries.Keys - rem) + {o};
      assert o !in s0.entries.Keys - rem;
    }
    StepKeys(s0, rem, s, o);
    StepDeleted(s0, rem, s, o);
    assert forall x | x in rem' :: t.entries[x] == s0.entries[x] by {
      forall x | x in rem' ensures t.entries[x] == s0.entries[x] {
        assert t.entries[x] == s.entries[x];
      }
    }
  }

  lemma StepKeys(s0: Tracker, rem: set<DomainObject>, s: Tracker, o: DomainObject)
    requires KeysAfterDeletes(s0, rem, s) && o in rem && o in s0.entries && s.entries[o] == s0.entries[o]
    ensures KeysAfterDeletes(s0, rem - {o}, DeleteEntrySpec(s, o, None))
  {
  }

  lemma StepDeleted(s0: Tracker, rem: set<DomainObject>, s: Tracker, o: DomainObject)
    requires DeletedAfter(s0, rem, s) && o in rem && o in s0.entries && o in s.entries
    requires s.entries[o] == s0.entries[o] && s0.lastId <= s.lastId
    ensures DeletedAfter(s0, rem - {o}, DeleteEntrySpec(s, o, None))
  {
    var t := DeleteEntrySpec(s, o, None);
    forall x | x in t.entries && x !in rem - {o}
      ensures && x in s0.entries
              && s0.lastId < t.entries[x].operationId <= t.lastId
              && t.entries[x] == Deleted(s0.entries[x], None, t.entries[x].operationId)
    {
      if x != o {
        assert t.entries[x] == s.entries[x];
      }
    }
  }

  lemma DeleteAllDone(s0: Tracker, s: Tracker)
    requires DeleteAllSoFar(s0, {}, s)
    ensures DeleteAllSpec(s0, s)
  {
  }

  /** Reset part way: the entries in `rem` are still to be reset. */
  ghost predicate ResetSoFar(s0: Tracker, rem: set<DomainObject>, s: Tracker)
    reads s0.entries.Keys
  {
    && rem <= s0.entries.Keys
    && s.lastId == s0.lastId
    && s.entries.Keys == rem + (set o | o in s0.entries && o !in rem && !s0.entries[o].isDeleted)
    && (forall o | o in rem :: s.entries[o] == s0.entries[o])
    && (forall o | o in s.entries && o !in rem :: o in s0.entries && s.entries[o] == ResetEntry(o, s0.entries[o]))
  }

  lemma ResetStart(s0: Tracker)
    ensures ResetSoFar(s0, s0.entries.Keys, s0)
  {
  }

  lemma ResetStep(s0: Tracker, rem: set<DomainObject>, s: Tracker, o: DomainObject)
    requires ResetSoFar(s0, rem, s) && o in rem
    ensures o in s.entries
    ensures ResetSoFar(s0, rem - {o}, ResetOneSpec(s, o))
  {
    var t := ResetOneSpec(s, o);
    var rem' := rem - {o};
    assert t.entries.Keys == rem' + (set x | x in s0.entries && x !in rem' && !s0.entries[x].isDeleted);
  }

  lemma ResetDone(s0: Tracker, s: Tracker)
    requires ResetSoFar(s0, {}, s)
    ensures s == ResetSpec(s0)
  {
    var r := ResetSpec(s0);
    assert s.entries.Keys == r.entries.Keys;
    forall o | o in s.entries ensures s.entries[o] == r.entries[o] {
    }
  }

  // ---------------------------------------------------------------------
  // What the registry operations promise

  /** One reference never has two entries: adding a tracked reference re-adds
      its entry under the same status, and adding it under the other status is
      rejected without any change. */
  lemma AddTrackedReference(s: Tracker, o: DomainObject, isNew: bool, takeSnapshot: bool, keyName: Option<string>)
    requires o in s.entries
    ensures AddSpec(s, o, isNew, takeSnapshot, keyName).Err? <==> s.entries[o].isNew != isNew
    ensures AddSpec(s, o, isNew, takeSnapshot, keyName).Ok? ==>
      var t := AddSpec(s, o, isNew, takeSnapshot, keyName).value;
      && t.entries.Keys == s.entries.Keys
      && !t.entries[o].isDeleted
      && t.entries[o].trackedRefCount == s.entries[o].trackedRefCount + 1
      && t.entries[o].operationId == t.lastId == s.lastId + 1
  {
  }

  /** Deleting an untracked object leaves it tracked as attached and deleted. */
  lemma DeleteUntracked(s: Tracker, o: DomainObject, keyName: Option<string>)
    requires o !in s.entries
    ensures o in DeleteSpec(s, o, keyName).entries
    ensures var e := DeleteSpec(s, o, keyName).entries[o];
      !e.isNew && e.isDeleted && e.keyName == keyName && e.trackedRefCount == 1
    ensures DeleteSpec(s, o, keyName).lastId == s.lastId + 2
  {
  }

  /** Adding the same object as new twice and deleting it once leaves it
      tracked with one reference; deleting it again removes it. */
  lemma RefCountExample(s: Tracker, o: DomainObject)
    requires o !in s.entries
    ensures var s1 := AddSpec(s, o, true, true, None);
      s1.Ok? &&
      var s2 := AddSpec(s1.value, o, true, true, None);
      s2.Ok? &&
      var s3 := DeleteSpec(s2.value, o, None);
      && o in s3.entries
      && s3.entries[o].trackedRefCount == 1
      && o !in DeleteSpec(s3, o, None).entries
  {
  }

  /** Adding an object as new and then attaching it is rejected. */
  lemma ConflictExample(s: Tracker, o: DomainObject, takeSnapshot: bool)
    requires o !in s.entries
    ensures AddSpec(s, o, true, true, None).Ok?
    ensures AddSpec(AddSpec(s, o, true, true, None).value, o, false, takeSnapshot, None) == Err(ConflictingStatus)
  {
  }

  /** After a reset no entry is new or deleted, exactly the deleted entries
      have left, and every kept entry has a snapshot with an empty diff
      exactly when its policy asks for one. */
  lemma ResetEffect(s: Tracker)
    requires WellFormed(s)
    ensures var t := ResetSpec(s);
      && (forall o :: o in t.entries <==> o in s.entries && !s.entries[o].isDeleted)
      && (forall o | o in t.entries :: !t.entries[o].isNew && !t.entries[o].isDeleted)
      && (forall o | o in t.entries ::
            t.entries[o].HasSnapshot() <==> s.entries[o].takeSnapshot && !o.classMap.isPartialUpdateDisabled)
      && (forall o | o in t.entries && t.entries[o].HasSnapshot() :: DiffOf(t.entries[o].snapshot.value) == [])
  {
    var t := ResetSpec(s);
    forall o | o in t.entries && t.entries[o].HasSnapshot()
      ensures DiffOf(t.entries[o].snapshot.value) == []
    {
      CaptureHasNoChanges(o.fields, PlanOf(o));
    }
  }

  // ---------------------------------------------------------------------
  // The flush

  /** Flushing a sorted sequence of distinct entries issues, in that order,
      exactly the call each entry asks for: each call is some visited entry's
      own call, each visited entry that asks for a call gets it, no entry is
      called twice, and calls come by operation kind and then by id. */
  lemma {:induction false} FlushCalls(m: map<DomainObject, EntryState>, order: seq<DomainObject>)
    requires SortedForFlush(m, order)
    ensures var calls := CallsOf(m, order);
      && (forall i | 0 <= i < |calls| ::
            calls[i].entity in order && CallFor(calls[i].entity, m[calls[i].entity]) == Some(calls[i]))
      && (forall o | o in order && CallFor(o, m[o]).Some? :: CallFor(o, m[o]).value in calls)
      && (forall i, j | 0 <= i < j < |calls| :: calls[i].entity != calls[j].entity)
      && (forall i, j | 0 <= i < j < |calls| :: FlushBefore(m[calls[i].entity], m[calls[j].entity]))
  {
    if order != [] {
      var n := |order| - 1;
      var init := order[..n];
      var last := order[n];
      assert SortedForFlush(m, init);
      FlushCalls(m, init);
      var c0 := CallsOf(m, init);
      var calls := CallsOf(m, order);
      assert calls == c0 + CallList(CallFor(last, m[last]));
      forall i | 0 <= i < |calls|
        ensures calls[i].entity in order && CallFor(calls[i].entity, m[calls[i].entity]) == Some(calls[i])
      {
        if i < |c0| {
          assert calls[i] == c0[i];
        }
      }
      forall i, j | 0 <= i < j < |calls|
        ensures calls[i].entity != calls[j].entity
        ensures FlushBefore(m[calls[i].entity], m[calls[j].entity])
      {
        if j >= |c0| {
          assert calls[i] == c0[i];
          var p :| 0 <= p < n && init[p] == c0[i].entity;
          assert calls[j].entity == order[n];
          assert order[p] != order[n] && FlushBefore(m[order[p]], m[order[n]]);
        } else {
          assert calls[i] == c0[i] && calls[j] == c0[j];
        }
      }
    }
  }

  /** A full flush calls the store once for every entry that asks for a call
      and for nothing else, deletes before inserts before updates, and calls
      of one kind in ascending operation id. */
  lemma FlushDispatch(m: map<DomainObject, EntryState>, order: seq<DomainObject>)
    requires IsFlushOrder(m, order)
    ensures var calls := CallsOf(m, order);
      && (forall o | o in m && CallFor(o, m[o]).Some? :: CallFor(o, m[o]).value in calls)
      && (forall i | 0 <= i < |calls| :: calls[i].entity in m && CallFor(calls[i].entity, m[calls[i].entity]) == Some(calls[i]))
      && (forall i | 0 <= i < |calls| :: !(m[calls[i].entity].isNew && m[calls[i].entity].isDeleted))
      && (forall i, j | 0 <= i < j < |calls| :: calls[i].entity != calls[j].entity)
      && (forall i, j | 0 <= i < j < |calls| :: calls[i].Rank() <= calls[j].Rank())
      && (forall i, j | 0 <= i < j < |calls| && calls[i].Rank() == calls[j].Rank() ::
            m[calls[i].entity].operationId <= m[calls[j].entity].operationId)
  {
    var calls := CallsOf(m, order);
    FlushCalls(m, order);
    forall i | 0 <= i < |calls|
      ensures calls[i].Rank() == m[calls[i].entity].OperationTypeOrder()
      ensures !(m[calls[i].entity].isNew && m[calls[i].entity].isDeleted)
    {
      CallMatchesRank(calls[i].entity, m[calls[i].entity]);
    }
    forall o | o in m && CallFor(o, m[o]).Some?
      ensures CallFor(o, m[o]).value in calls
    {
      assert o in order;
    }
  }

  /** Among a non-empty set of entries there is one flushed no later than all. */
  lemma {:induction false} MinimumExists(m: map<DomainObject, EntryState>, s: set<DomainObject>)
    requires s != {} && s <= m.Keys
    ensures exists o :: o in s && forall r | r in s :: FlushBefore(m[o], m[r])
    decreases s
  {
    var x :| x in s;
    if s != {x} {
      MinimumExists(m, s - {x});
      var y :| y in s - {x} && forall r | r in s - {x} :: FlushBefore(m[y], m[r]);
      if FlushBefore(m[x], m[y]) {
        assert forall r | r in s :: FlushBefore(m[x], m[r]);
      } else {
        assert forall r | r in s :: FlushBefore(m[y], m[r]);
      }
    } else {
      assert forall r | r in s :: FlushBefore(m[x], m[r]);
    }
  }

  /** Selection sort part way: `order` is sorted, holds no entry of
      `remaining`, is flushed no later than any of them, and together with
      them covers every entry. */
  ghost predicate SelectionSoFar(m: map<DomainObject, EntryState>, order: seq<DomainObject>, remaining: set<DomainObject>)
  {
    && remaining <= m.Keys
    && (forall i | 0 <= i < |order| :: order[i] !in remaining)
    && (forall o | o in m :: o in remaining || o in order)
    && SortedForFlush(m, order)
    && (forall i, x | 0 <= i < |order| && x in remaining :: FlushBefore(m[order[i]], m[x]))
  }

  lemma SelectionStep(m: map<DomainObject, EntryState>, order: seq<DomainObject>, remaining: set<DomainObject>, o: DomainObject)
    requires SelectionSoFar(m, order, remaining)
    requires o in remaining && forall x | x in remaining :: FlushBefore(m[o], m[x])
    ensures SelectionSoFar(m, order + [o], remaining - {o})
  {
    var order' := order + [o];
    assert forall i | 0 <= i < |order| :: order'[i] == order[i];
  }

  /** With distinct operation ids the flush order is unique: the sort is
      fully determined by (operation kind, operation id). */
  lemma {:induction false} FlushOrderUnique(m: map<DomainObject, EntryState>, a: seq<DomainObject>, b: seq<DomainObject>)
    requires DistinctIds(m)
    requires IsFlushOrder(m, a) && IsFlushOrder(m, b)
    ensures a == b
    decreases |a|
  {
    if a != [] {
      assert a[0] in m;
      assert b != [] by { assert a[0] in b; }
      FirstIsMinimum(m, a, b);
      var m' := m - {a[0]};
      FlushOrderTail(m, a);
      FlushOrderTail(m, b);
      FlushOrderUnique(m', a[1..], b[1..]);
      assert a == [a[0]] + a[1..] && b == [b[0]] + b[1..];
    }
  }

  /** Two flush orders of the same entries start with the same entry. */
  lemma FirstIsMinimum(m: map<DomainObject, EntryState>, a: seq<DomainObject>, b: seq<DomainObject>)
    requires DistinctIds(m)
    requires IsFlushOrder(m, a) && IsFlushOrder(m, b) && a != [] && b != []
    ensures a[0] == b[0]
  {
    assert a[0] in m && b[0] in m;
    assert a[0] in b && b[0] in a;
    assert FlushBefore(m[a[0]], m[b[0]]) && FlushBefore(m[b[0]], m[a[0]]);
  }

  /** Dropping the first entry of a flush order leaves a flush order of the rest. */
  lemma FlushOrderTail(m: map<DomainObject, EntryState>, a: seq<DomainObject>)
    requires IsFlushOrder(m, a) && a != []
    ensures IsFlushOrder(m - {a[0]}, a[1..])
  {
    var m' := m - {a[0]};
    var a' := a[1..];
    forall i | 0 <= i < |a'| ensures a'[i] in m' {
      assert a'[i] == a[i + 1] && a[i + 1] != a[0];
    }
    forall o | o in m' ensures o in a' {
      var p :| 0 <= p < |a| && a[p] == o;
      assert p != 0;
      assert a'[p - 1] == o;
    }
    forall i, j | 0 <= i < j < |a'| ensures a'[i] != a'[j] && FlushBefore(m'[a'[i]], m'[a'[j]]) {
      assert a'[i] == a[i + 1] && a'[j] == a[j + 1];
    }
  }

  /** An update registered first, a delete second and an insert third are
      flushed as the delete, then the insert, then the update. */
  lemma OrderingExample(x: DomainObject, y: DomainObject, z: DomainObject,
                        ex: EntryState, ey: EntryState, ez: EntryState, order: seq<DomainObject>)
    requires x != y && y != z && x != z
    requires !ex.isNew && !ex.isDeleted && ex.operationId == 1
    requires !ey.isNew && ey.isDeleted && ey.operationId == 2
    requires ez.isNew && !ez.isDeleted && ez.operationId == 3
    requires IsFlushOrder(map[x := ex, y := ey, z := ez], order)
    ensures order == [y, z, x]
    ensures CallsOf(map[x := ex, y := ey, z := ez], order) ==
      [DeleteCall(y, ey.keyName), InsertCall(z), UpdateCall(x, ex.keyName, ex.snapshot)]
  {
    var m := map[x := ex, y := ey, z := ez];
    var expected := [y, z, x];
    ExampleOrder(x, y, z, ex, ey, ez);
    FlushOrderUnique(m, order, expected);
    ExampleCalls(x, y, z, ex, ey, ez);
  }

  /** The delete, the insert and the update, in that order, are a flush order. */
  lemma ExampleOrder(x: DomainObject, y: DomainObject, z: DomainObject,
                     ex: EntryState, ey: EntryState, ez: EntryState)
    requires x != y && y != z && x != z
    requires !ex.isNew && !ex.isDeleted && ex.operationId == 1
    requires !ey.isNew && ey.isDeleted && ey.operationId == 2
    requires ez.isNew && !ez.isDeleted && ez.operationId == 3
    ensures DistinctIds(map[x := ex, y := ey, z := ez])
    ensures IsFlushOrder(map[x := ex, y := ey, z := ez], [y, z, x])
  {
    var m := map[x := ex, y := ey, z := ez];
    var expected := [y, z, x];
    assert FlushBefore(ey, ez) && FlushBefore(ez, ex) && FlushBefore(ey, ex);
    assert forall i, j | 0 <= i < j < 3 :: FlushBefore(m[expected[i]], m[expected[j]]);
  }

  /** The calls issued for the example's flush order. */
  lemma ExampleCalls(x: DomainObject, y: DomainObject, z: DomainObject,
                     ex: EntryState, ey: EntryState, ez: EntryState)
    requires x != y && y != z && x != z
    requires !ex.isNew && !ex.isDeleted && ex.operationId == 1
    requires !ey.isNew && ey.isDeleted && ey.operationId == 2
    requires ez.isNew && !ez.isDeleted && ez.operationId == 3
    ensures CallsOf(map[x := ex, y := ey, z := ez], [y, z, x]) ==
      [DeleteCall(y, ey.keyName), InsertCall(z), UpdateCall(x, ex.keyName, ex.snapshot)]
  {
    var m := map[x := ex, y := ey, z := ez];
    var expected := [y, z, x];
    assert expected[..2] == [y, z] && expected[..2][..1] == [y] && expected[..2][..1][..0] == [];
    assert CallsOf(m, [y]) == [DeleteCall(y, ey.keyName)];
    assert CallsOf(m, [y, z]) == [DeleteCall(y, ey.keyName), InsertCall(z)];
  }

  /** An object added as new twice and deleted once is still tracked, yet it
      is deleted and new, so a flush issues no statement for it. */
  lemma StillReferencedNewIsNotInserted(s: Tracker, o: DomainObject)
    requires o !in s.entries
    ensures var s2 := AddSpec(AddSpec(s, o, true, true, None).value, o, true, true, None).value;
      var s3 := DeleteSpec(s2, o, None);
      o in s3.entries && CallFor(o, s3.entries[o]).None?
  {
  }
}
