/** Snapshots for partial updates: a value copy of the properties that take
    part in change tracking, a diff of that copy against the live object, and
    a revert of the live object to the copy. The source generates the cloner,
    differ and reverter as code per entity type; here each is a loop over the
    same plan, the names of the relevant properties in class-map order. */
module Snapshotter {
  import opened Common
  import opened Mapper

  /** A property takes part in snapshots when it is written by updates (not
      ignored, read-only, insert-only or an identity key under any name), has
      a getter and a setter, and holds a value type, a string or a nullable. */
  predicate Relevant(p: MappedProperty)
  {
    && !(p.ignored || p.isReadOnly || p.isInsertOnly || p.IsAnyKeyType(Identity))
    && p.info.hasSetter
    && p.info.hasGetter
    && (IsValueType(p.info.propertyType) || p.info.propertyType == StringType || p.info.propertyType.NullableOf?)
  }

  /** The names of the relevant properties, in property order. */
  function RelevantProperties(properties: seq<MappedProperty>): (plan: seq<string>)
    ensures |plan| <= |properties|
    ensures forall n :: n in plan <==> exists i :: 0 <= i < |properties| && Relevant(properties[i]) && properties[i].Name() == n
  {
    if properties == [] then []
    else
      var init := properties[..|properties| - 1];
      var last := properties[|properties| - 1];
      var plan := RelevantProperties(init) + (if Relevant(last) then [last.Name()] else []);
      assert forall i :: 0 <= i < |init| ==> init[i] == properties[i];
      plan
  }

  /** Equality of two boxed property values: two nulls are equal, a null is
      unequal to a non-null, otherwise Equals decides. */
  function AreEqual(first: Value, second: Value): (r: bool)
    ensures r <==> first == second
  {
    if first == Null && second == Null then true
    else if first == Null && second != Null then false
    else first == second
  }

  /** One changed property and its current value. */
  datatype Change = Change(name: string, newValue: Value)

  /** What the generated differ returns: for each name of the plan, in order,
      the property whose copied and current values differ, with the current one. */
  function Changes(plan: seq<string>, clone: Fields, live: Fields): seq<Change>
  {
    if plan == [] then []
    else
      var n := plan[|plan| - 1];
      Changes(plan[..|plan| - 1], clone, live)
        + (if AreEqual(Get(clone, n), Get(live, n)) then [] else [Change(n, Get(live, n))])
  }

  /** What the generated cloner copies: every planned property of the source. */
  function Capture(source: Fields, plan: seq<string>): Fields
  {
    map n | n in plan :: Get(source, n)
  }

  /** What the generated reverter leaves in the live object: the copied value
      of every planned property, every other property as it was. */
  function Restore(live: Fields, clone: Fields, plan: seq<string>): Fields
  {
    live + map n | n in plan :: Get(clone, n)
  }

  /** A change is reported exactly for a planned property whose values differ,
      and it carries the live value. */
  lemma {:induction false} ChangesExact(plan: seq<string>, clone: Fields, live: Fields, c: Change)
    ensures c in Changes(plan, clone, live) <==>
      c.name in plan && !AreEqual(Get(clone, c.name), Get(live, c.name)) && c.newValue == Get(live, c.name)
  {
    if plan != [] {
      var init := plan[..|plan| - 1];
      ChangesExact(init, clone, live, c);
      assert plan == init + [plan[|plan| - 1]];
    }
  }

  /** The diff is empty exactly when every planned property is unchanged. */
  lemma {:induction false} NoChangesIff(plan: seq<string>, clone: Fields, live: Fields)
    ensures Changes(plan, clone, live) == [] <==> forall n | n in plan :: Get(clone, n) == Get(live, n)
  {
    if plan != [] {
      var init := plan[..|plan| - 1];
      NoChangesIff(init, clone, live);
      assert plan == init + [plan[|plan| - 1]];
    }
  }

  /** Every reported change names a planned property, and there are never
      more changes than planned names. */
  lemma {:induction false} ChangesFollowPlan(plan: seq<string>, clone: Fields, live: Fields)
    ensures |Changes(plan, clone, live)| <= |plan|
    ensures forall i :: 0 <= i < |Changes(plan, clone, live)| ==> Changes(plan, clone, live)[i].name in plan
  {
    if plan != [] {
      var init := plan[..|plan| - 1];
      ChangesFollowPlan(init, clone, live);
      assert forall n :: n in init ==> n in plan;
    }
  }

  /** Right after a capture the diff is empty. */
  lemma CaptureHasNoChanges(source: Fields, plan: seq<string>)
    ensures Changes(plan, Capture(source, plan), source) == []
  {
    NoChangesIff(plan, Capture(source, plan), source);
  }

  /** Right after a revert the diff is empty. */
  lemma RestoreHasNoChanges(live: Fields, clone: Fields, plan: seq<string>)
    ensures Changes(plan, clone, Restore(live, clone, plan)) == []
  {
    NoChangesIff(plan, clone, Restore(live, clone, plan));
  }

  /** Capture, change anything, revert: the planned properties are back to
      their captured values and the other properties keep their new values. */
  lemma CaptureRestoreRoundTrip(original: Fields, changed: Fields, plan: seq<string>)
    ensures forall n | n in plan :: Get(Restore(changed, Capture(original, plan), plan), n) == Get(original, n)
    ensures forall n | n !in plan :: Get(Restore(changed, Capture(original, plan), plan), n) == Get(changed, n)
  {
  }

  /** A snapshot: the value copy and the live object it was taken from, with
      the plan of the entity type. */
  datatype Snapshot = Snapshot(clone: Fields, trackedObject: DomainObject, plan: seq<string>)

  /** The plan of an entity type, from its class map. */
  function PlanOf(obj: DomainObject): seq<string>
  {
    RelevantProperties(obj.classMap.properties)
  }

  /** The snapshot a capture of `obj` in its current state yields. */
  function SnapshotOf(obj: DomainObject): Snapshot
    reads obj
  {
    Snapshot(Capture(obj.fields, PlanOf(obj)), obj, PlanOf(obj))
  }

  /** The changes of the live object since its snapshot was taken. */
  function DiffOf(s: Snapshot): seq<Change>
    reads s.trackedObject
  {
    Changes(s.plan, s.clone, s.trackedObject.fields)
  }

  /** Takes a snapshot of `obj`; its diff is empty until `obj` changes. */
  method Start(obj: DomainObject) returns (s: Snapshot)
    ensures s == SnapshotOf(obj)
    ensures DiffOf(s) == []
  {
    CaptureHasNoChanges(obj.fields, PlanOf(obj));
    var plan := PlanOf(obj);
    var clone := Clone(obj.fields, plan);
    s := Snapshot(clone, obj, plan);
  }

  /** The generated cloner: copies each planned property into a new object. */
  method Clone(source: Fields, plan: seq<string>) returns (clone: Fields)
    ensures clone == Capture(source, plan)
  {
    clone := map[];
    var i := 0;
    while i < |plan|
      invariant 0 <= i <= |plan|
      invariant clone == Capture(source, plan[..i])
    {
      assert plan[..i + 1] == plan[..i] + [plan[i]];
      clone := clone[plan[i] := Get(source, plan[i])];
      i := i + 1;
    }
    assert plan[..i] == plan;
  }

  /** The generated differ, run on the snapshot's copy and its live object. */
  method Diff(s: Snapshot) returns (changes: seq<Change>)
    ensures changes == DiffOf(s)
  {
    var live := s.trackedObject.fields;
    changes := [];
    var i := 0;
    while i < |s.plan|
      invariant 0 <= i <= |s.plan|
      invariant changes == Changes(s.plan[..i], s.clone, live)
    {
      var n := s.plan[i];
      assert s.plan[..i + 1][..i] == s.plan[..i];
      var current := Get(live, n);
      if !AreEqual(Get(s.clone, n), current) {
        changes := changes + [Change(n, current)];
      }
      i := i + 1;
    }
    assert s.plan[..i] == s.plan;
  }

  /** The generated reverter: writes each planned property of the copy back
      into the live object. */
  method Revert(s: Snapshot)
    modifies s.trackedObject
    ensures s.trackedObject.fields == Restore(old(s.trackedObject.fields), s.clone, s.plan)
    ensures DiffOf(s) == []
  {
    RestoreHasNoChanges(s.trackedObject.fields, s.clone, s.plan);
    var obj := s.trackedObject;
    ghost var live := obj.fields;
    var i := 0;
    while i < |s.plan|
      invariant 0 <= i <= |s.plan|
      invariant obj.fields == Restore(live, s.clone, s.plan[..i])
    {
      RestoreStep(live, s.clone, s.plan[..i], s.plan[i]);
      assert s.plan[..i + 1] == s.plan[..i] + [s.plan[i]];
      obj.fields := obj.fields[s.plan[i] := Get(s.clone, s.plan[i])];
      i := i + 1;
    }
    assert s.plan[..i] == s.plan;
  }

  lemma RestoreStep(live: Fields, clone: Fields, plan: seq<string>, n: string)
    ensures Restore(live, clone, plan + [n]) == Restore(live, clone, plan)[n := Get(clone, n)]
  {
    var a := Restore(live, clone, plan + [n]);
    var b := Restore(live, clone, plan)[n := Get(clone, n)];
    assert a.Keys == b.Keys;
    forall k | k in a.Keys ensures a[k] == b[k] {
      if k == n {
      } else if k in plan {
        assert k in plan + [n];
      } else {
        assert k !in plan + [n];
      }
    }
  }
}
