// A list of entities bound to a change-tracking registry: inserting,
// removing, replacing and clearing elements is forwarded to the registry as
// add-as-new and delete, unless the change comes from the collection's own
// attach, which marks itself with the internal-activity flag.

module TrackedCollection {
  import opened Common
  import opened Mapper
  import opened TrackingSpec
  import opened ChangeTracking

  /** The registry after tracking `item` as new; null is ignored. */
  function AddNewSpec(s: Tracker, item: DomainObject?): (r: Result<Tracker>)
    reads item
    ensures item == null ==> r == Ok(s)
    ensures item != null ==> (r.Err? <==> item in s.entries && !s.entries[item].isNew)
    ensures item != null && r.Ok? ==> item in r.value.entries && r.value.entries[item].isNew
    ensures r.Ok? ==> s.entries.Keys <= r.value.entries.Keys
  {
    if item == null then Ok(s) else AddSpec(s, item, true, true, None)
  }

  /** The registry after tracking `item` as attached; null is ignored. */
  function AttachSpec(s: Tracker, item: DomainObject?, takeSnapshot: bool): (r: Result<Tracker>)
    reads item
    ensures item == null ==> r == Ok(s)
    ensures item != null ==> (r.Err? <==> item in s.entries && s.entries[item].isNew)
    ensures item != null && r.Ok? ==> item in r.value.entries && !r.value.entries[item].isNew
  {
    if item == null then Ok(s) else AddSpec(s, item, false, takeSnapshot, None)
  }

  /** Attaching one entity adds at most that entity and changes no status. */
  lemma AttachKeepsStatus(s: Tracker, item: DomainObject?, takeSnapshot: bool)
    requires AttachSpec(s, item, takeSnapshot).Ok?
    ensures var t := AttachSpec(s, item, takeSnapshot).value;
      && t.entries.Keys == s.entries.Keys + (if item == null then {} else {item})
      && forall o | o in s.entries :: t.entries[o].isNew == s.entries[o].isNew
  {
  }

  /** The registry after deleting `item` without a key name; null is ignored. */
  function DeleteItemSpec(s: Tracker, item: DomainObject?): Tracker
    reads item
  {
    if item == null then s else DeleteSpec(s, item, None)
  }

  /** The registry after attaching `items` one by one, stopping at the first
      conflict. */
  function AttachAllSpec(s: Tracker, items: seq<DomainObject?>, takeSnapshot: bool): Result<Tracker>
    reads set x: DomainObject | x in items
  {
    if items == [] then Ok(s)
    else
      var before := AttachAllSpec(s, items[..|items| - 1], takeSnapshot);
      if before.Err? then before else AttachSpec(before.value, items[|items| - 1], takeSnapshot)
  }

  /** Attaching a list tracks every one of its entities as attached and
      keeps every other entry and its status. */
  lemma {:induction false} AttachAllTracksAll(s: Tracker, items: seq<DomainObject?>, takeSnapshot: bool)
    requires AttachAllSpec(s, items, takeSnapshot).Ok?
    ensures var t := AttachAllSpec(s, items, takeSnapshot).value;
      && (forall i | 0 <= i < |items| && items[i] != null :: items[i] in t.entries && !t.entries[items[i]].isNew)
      && (forall o | o in s.entries :: o in t.entries)
      && (forall o | o in t.entries :: o in s.entries || o in items)
      && (forall o | o in s.entries && o !in items :: t.entries[o].isNew == s.entries[o].isNew)
  {
    if items != [] {
      var init := items[..|items| - 1];
      var last := items[|items| - 1];
      AttachAllTracksAll(s, init, takeSnapshot);
      var before := AttachAllSpec(s, init, takeSnapshot).value;
      var t := AttachAllSpec(s, items, takeSnapshot).value;
      assert t == AttachSpec(before, last, takeSnapshot).value;
      AttachKeepsStatus(before, last, takeSnapshot);
      forall i | 0 <= i < |items| && items[i] != null
        ensures items[i] in t.entries && !t.entries[items[i]].isNew
      {
        if i < |items| - 1 {
          assert items[i] == init[i];
        }
      }
      forall o | o in t.entries
        ensures o in s.entries || o in items
      {
        if o != last {
          assert o in before.entries;
        }
      }
    }
  }

  /** A collection whose element changes are mirrored into a registry. */
  class ChangeTrackingCollection {
    const changeTracking: ChangeTracking
    var items: seq<DomainObject?>
    var internalActivity: bool

    ghost predicate Valid()
      reads changeTracking, changeTracking.sequenceGenerator, changeTracking.trackedEntities.Values
    {
      changeTracking.Valid()
    }

    /** The tracking state of the registry behind the collection. */
    ghost function Registry(): Tracker
      reads changeTracking, changeTracking.sequenceGenerator, changeTracking.trackedEntities.Values
    {
      changeTracking.Model()
    }

    /** An empty collection bound to `changeTracking`. */
    constructor (changeTracking: ChangeTracking)
      ensures this.changeTracking == changeTracking
      ensures items == [] && !internalActivity
    {
      this.changeTracking := changeTracking;
      items := [];
      internalActivity := false;
    }

    /** Inserts `item` at `index`, tracking it as new unless the insert is the
        collection's own. A conflicting status leaves the list unchanged. */
    method InsertItem(index: nat, item: DomainObject?) returns (r: Outcome)
      requires Valid() && index <= |items|
      modifies this, changeTracking, changeTracking.sequenceGenerator, changeTracking.trackedEntities.Values
      ensures fresh(changeTracking.trackedEntities.Values - old(changeTracking.trackedEntities.Values))
      ensures Valid() && internalActivity == old(internalActivity)
      ensures old(internalActivity) ==> r == Pass && Registry() == old(Registry())
      ensures !old(internalActivity) ==> (r.Fail? <==> AddNewSpec(old(Registry()), item).Err?)
      ensures !old(internalActivity) && r.Pass? ==> Registry() == AddNewSpec(old(Registry()), item).value
      ensures r.Fail? ==> r == Fail(ConflictingStatus) && Registry() == old(Registry()) && items == old(items)
      ensures r.Pass? ==> items == old(items)[..index] + [item] + old(items)[index..]
    {
      if !internalActivity {
        var added := changeTracking.AddNew(item);
        if added.Err? {
          return Fail(added.error);
        }
      }
      SetList(items[..index] + [item] + items[index..]);
      r := Pass;
    }

    /** Removes the element at `index`, deleting it from the registry unless
        the removal is the collection's own. */
    method RemoveItem(index: nat)
      requires Valid() && index < |items|
      modifies this, changeTracking, changeTracking.sequenceGenerator, changeTracking.trackedEntities.Values
      ensures fresh(changeTracking.trackedEntities.Values - old(changeTracking.trackedEntities.Values))
      ensures Valid() && internalActivity == old(internalActivity)
      ensures old(internalActivity) ==> Registry() == old(Registry())
      ensures !old(internalActivity) ==> Registry() == DeleteItemSpec(old(Registry()), old(items)[index])
      ensures items == old(items)[..index] + old(items)[index + 1..]
    {
      if !internalActivity {
        var entity := items[index];
        changeTracking.Delete(entity, None);
      }
      SetList(items[..index] + items[index + 1..]);
    }

    /** Replaces the element at `index`: the old one is deleted and the new
        one tracked as new, unless the change is the collection's own. A
        conflicting status of the new one leaves the list unchanged but the
        old one deleted. */
    method SetItem(index: nat, item: DomainObject?) returns (r: Outcome)
      requires Valid() && index < |items|
      modifies this, changeTracking, changeTracking.sequenceGenerator, changeTracking.trackedEntities.Values
      ensures fresh(changeTracking.trackedEntities.Values - old(changeTracking.trackedEntities.Values))
      ensures Valid() && internalActivity == old(internalActivity)
      ensures old(internalActivity) ==> r == Pass && Registry() == old(Registry())
      ensures !old(internalActivity) ==>
        var deleted := DeleteItemSpec(old(Registry()), old(items)[index]);
        && (r.Fail? <==> AddNewSpec(deleted, item).Err?)
        && (r.Fail? ==> Registry() == deleted)
        && (r.Pass? ==> Registry() == AddNewSpec(deleted, item).value)
      ensures r.Fail? ==> r == Fail(ConflictingStatus) && items == old(items)
      ensures r.Pass? ==> items == old(items)[index := item]
    {
      if !internalActivity {
        var entityOld := items[index];
        r := Replace(entityOld, item);
        if r.Fail? {
          return;
        }
      }
      SetList(items[index := item]);
      r := Pass;
    }

    /** The registry side of SetItem: deletes the replaced element and tracks
        the new one as new. */
    method Replace(entityOld: DomainObject?, item: DomainObject?) returns (r: Outcome)
      requires Valid()
      modifies changeTracking, changeTracking.sequenceGenerator, changeTracking.trackedEntities.Values
      ensures fresh(changeTracking.trackedEntities.Values - old(changeTracking.trackedEntities.Values))
      ensures Valid()
      ensures var deleted := DeleteItemSpec(old(Registry()), entityOld);
        && (r.Fail? <==> AddNewSpec(deleted, item).Err?)
        && (r.Fail? ==> r == Fail(ConflictingStatus) && Registry() == deleted)
        && (r.Pass? ==> Registry() == AddNewSpec(deleted, item).value)
    {
      changeTracking.Delete(entityOld, None);
      var added := changeTracking.AddNew(item);
      r := if added.Err? then Fail(added.error) else Pass;
    }

    /** Empties the list; unless the change is the collection's own, every
        entity of the registry is deleted, in this collection or not. */
    method ClearItems()
      requires Valid()
      modifies this, changeTracking, changeTracking.sequenceGenerator, changeTracking.trackedEntities.Values
      ensures fresh(changeTracking.trackedEntities.Values - old(changeTracking.trackedEntities.Values))
      ensures Valid() && internalActivity == old(internalActivity)
      ensures old(internalActivity) ==> Registry() == old(Registry())
      ensures !old(internalActivity) ==> DeleteAllSpec(old(Registry()), Registry())
      ensures items == []
    {
      if !internalActivity {
        changeTracking.DeleteAll();
      }
      SetList([]);
    }

    /** Replaces the list itself; the flag and the registry stay as they are. */
    method SetList(xs: seq<DomainObject?>)
      requires Valid()
      modifies this
      ensures items == xs && internalActivity == old(internalActivity)
      ensures Valid() && Registry() == old(Registry())
    {
      items := xs;
    }

    /** Tracks `item` as attached and appends it without tracking it as new;
        the internal-activity flag is clear afterwards, also on a conflict. */
    method Attach(item: DomainObject?, takeSnapshot: bool) returns (r: Outcome)
      requires Valid()
      modifies this, changeTracking, changeTracking.sequenceGenerator, changeTracking.trackedEntities.Values
      ensures fresh(changeTracking.trackedEntities.Values - old(changeTracking.trackedEntities.Values))
      ensures Valid() && !internalActivity
      ensures r.Fail? <==> AttachSpec(old(Registry()), item, takeSnapshot).Err?
      ensures r.Fail? ==> r == Fail(ConflictingStatus) && Registry() == old(Registry()) && items == old(items)
      ensures r.Pass? ==> Registry() == AttachSpec(old(Registry()), item, takeSnapshot).value
      ensures r.Pass? ==> items == old(items) + [item]
    {
      SetInternalActivity(true);
      r := AttachAndAppend(item, takeSnapshot);
      SetInternalActivity(false);
    }

    /** Sets the internal-activity flag; the list and the registry stay as they are. */
    method SetInternalActivity(active: bool)
      requires Valid()
      modifies this
      ensures internalActivity == active && items == old(items)
      ensures Valid() && Registry() == old(Registry())
    {
      internalActivity := active;
    }

    /** The body of Attach, run with the internal-activity flag set. */
    method AttachAndAppend(item: DomainObject?, takeSnapshot: bool) returns (r: Outcome)
      requires Valid() && internalActivity
      modifies this, changeTracking, changeTracking.sequenceGenerator, changeTracking.trackedEntities.Values
      ensures fresh(changeTracking.trackedEntities.Values - old(changeTracking.trackedEntities.Values))
      ensures Valid() && internalActivity
      ensures r.Fail? <==> AttachSpec(old(Registry()), item, takeSnapshot).Err?
      ensures r.Fail? ==> r == Fail(ConflictingStatus) && Registry() == old(Registry()) && items == old(items)
      ensures r.Pass? ==> Registry() == AttachSpec(old(Registry()), item, takeSnapshot).value
      ensures r.Pass? ==> items == old(items) + [item]
    {
      r := AttachTracked(item, takeSnapshot);
      if r.Fail? {
        return;
      }
      ghost var attachedTo := Registry();
      r := InsertItem(|items|, item);
      assert Registry() == attachedTo && items == old(items) + [item];
    }

    /** The registry side of Attach. */
    method AttachTracked(item: DomainObject?, takeSnapshot: bool) returns (r: Outcome)
      requires Valid()
      modifies changeTracking, changeTracking.sequenceGenerator, changeTracking.trackedEntities.Values
      ensures fresh(changeTracking.trackedEntities.Values - old(changeTracking.trackedEntities.Values))
      ensures Valid()
      ensures r.Fail? <==> AttachSpec(old(Registry()), item, takeSnapshot).Err?
      ensures r.Fail? ==> r == Fail(ConflictingStatus) && Registry() == old(Registry())
      ensures r.Pass? ==> Registry() == AttachSpec(old(Registry()), item, takeSnapshot).value
    {
      var attached := changeTracking.Attach(item, takeSnapshot, None);
      r := if attached.Err? then Fail(attached.error) else Pass;
    }

    /** Attaches the entities in order; nothing for a missing list. The first
        conflict stops the loop and leaves the earlier ones attached. */
    method AttachAll(entities: Option<seq<DomainObject?>>, takeSnapshot: bool) returns (r: Outcome, ghost failedAt: nat)
      requires Valid()
      modifies this, changeTracking, changeTracking.sequenceGenerator, changeTracking.trackedEntities.Values
      ensures fresh(changeTracking.trackedEntities.Values - old(changeTracking.trackedEntities.Values))
      ensures Valid()
      ensures entities.None? ==> r == Pass && Registry() == old(Registry()) && items == old(items)
      ensures entities.Some? && r.Pass? ==>
        && AttachAllSpec(old(Registry()), entities.value, takeSnapshot) == Ok(Registry())
        && items == old(items) + entities.value
      ensures entities.Some? && |entities.value| > 0 ==> !internalActivity
      ensures entities.None? || entities.value == [] ==> internalActivity == old(internalActivity)
      ensures entities.Some? && r.Fail? ==>
        && r == Fail(ConflictingStatus) && failedAt < |entities.value|
        && AttachAllSpec(old(Registry()), entities.value[..failedAt], takeSnapshot) == Ok(Registry())
        && AttachSpec(Registry(), entities.value[failedAt], takeSnapshot).Err?
        && items == old(items) + entities.value[..failedAt]
    {
      if entities.None? {
        return Pass, 0;
      }
      r, failedAt := AttachEach(entities.value, takeSnapshot);
    }

    /** The loop of AttachAll over a present list. */
    method AttachEach(es: seq<DomainObject?>, takeSnapshot: bool) returns (r: Outcome, ghost failedAt: nat)
      requires Valid()
      modifies this, changeTracking, changeTracking.sequenceGenerator, changeTracking.trackedEntities.Values
      ensures fresh(changeTracking.trackedEntities.Values - old(changeTracking.trackedEntities.Values))
      ensures Valid()
      ensures r.Pass? ==> AttachAllSpec(old(Registry()), es, takeSnapshot) == Ok(Registry()) && items == old(items) + es
      ensures |es| > 0 ==> !internalActivity
      ensures es == [] ==> internalActivity == old(internalActivity)
      ensures r.Fail? ==>
        && r == Fail(ConflictingStatus) && failedAt < |es|
        && AttachAllSpec(old(Registry()), es[..failedAt], takeSnapshot) == Ok(Registry())
        && AttachSpec(Registry(), es[failedAt], takeSnapshot).Err?
        && items == old(items) + es[..failedAt]
    {
      failedAt := 0;
      ghost var s0 := Registry();
      var i := 0;
      while i < |es|
        invariant 0 <= i <= |es|
        invariant Valid()
        invariant fresh(changeTracking.trackedEntities.Values - old(changeTracking.trackedEntities.Values))
        invariant AttachAllSpec(s0, es[..i], takeSnapshot) == Ok(Registry())
        invariant items == old(items) + es[..i]
        invariant i > 0 ==> !internalActivity
        invariant i == 0 ==> internalActivity == old(internalActivity)
      {
        var o := AttachNext(es, i, s0, takeSnapshot);
        if o.Fail? {
          return o, i;
        }
        PrefixSnoc(es, i);
        i := i + 1;
      }
      assert es[..i] == es;
      r := Pass;
    }

    /** One round of AttachAll: attaches the entity at `i` after the ones
        before it. */
    method AttachNext(es: seq<DomainObject?>, i: nat, ghost s0: Tracker, takeSnapshot: bool) returns (r: Outcome)
      requires Valid() && i < |es|
      requires AttachAllSpec(s0, es[..i], takeSnapshot) == Ok(Registry())
      modifies this, changeTracking, changeTracking.sequenceGenerator, changeTracking.trackedEntities.Values
      ensures fresh(changeTracking.trackedEntities.Values - old(changeTracking.trackedEntities.Values))
      ensures Valid() && !internalActivity
      ensures r.Fail? ==>
        && r == Fail(ConflictingStatus) && items == old(items)
        && AttachAllSpec(s0, es[..i], takeSnapshot) == Ok(Registry())
        && AttachSpec(Registry(), es[i], takeSnapshot).Err?
      ensures r.Pass? ==> AttachAllSpec(s0, es[..i + 1], takeSnapshot) == Ok(Registry()) && items == old(items) + [es[i]]
    {
      ghost var before := Registry();
      assert es[..i + 1][..i] == es[..i];
      r := Attach(es[i], takeSnapshot);
      assert AttachAllSpec(s0, es[..i], takeSnapshot) == Ok(before);
    }
  }
}
