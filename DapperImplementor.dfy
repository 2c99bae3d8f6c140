/** The key- and column-level decisions of the implementor behind the
    extension methods: the WHERE predicate that identifies an entity by its
    keys, the predicate built from an id, which columns and values an update
    sends (with the partial-update short-circuit), the key-name defaults of
    update and delete, and the key values an insert hands back. SQL text and
    the connection are a collaborator that records the statements it is given. */
module Implementor {
  import opened Common
  import opened Mapper
  import opened Snapshotter
  import opened TrackingSpec

  /** An equality test of one property against a value (the operator is
      always Eq and never negated in the predicates built here). */
  datatype FieldPredicate = FieldPredicate(propertyName: string, value: Value)

  /** A single field predicate, or an AND group of field predicates. */
  datatype Predicate = Single(field: FieldPredicate) | AndGroup(fields: seq<FieldPredicate>)

  /** The field predicates a predicate is the conjunction of. */
  function Conjuncts(p: Predicate): seq<FieldPredicate>
  {
    match p
    case Single(f) => [f]
    case AndGroup(fs) => fs
  }

  /** A row satisfies a predicate when it holds every value the predicate compares against. */
  predicate Matches(p: Predicate, row: Fields)
  {
    forall f | f in Conjuncts(p) :: Get(row, f.propertyName) == f.value
  }

  /** The result shape of the key and id predicates: the one predicate when
      there is exactly one, otherwise an AND group of all of them. */
  function Grouped(predicates: seq<FieldPredicate>): (r: Predicate)
    ensures Conjuncts(r) == predicates
    ensures r.Single? <==> |predicates| == 1
  {
    if |predicates| == 1 then Single(predicates[0]) else AndGroup(predicates)
  }

  /** The properties of `properties` that `keep` accepts, in order. */
  function Where(properties: seq<MappedProperty>, keep: MappedProperty -> bool): (r: seq<MappedProperty>)
    ensures |r| <= |properties|
    ensures forall p :: p in r <==> p in properties && keep(p)
  {
    if properties == [] then []
    else
      var init := properties[..|properties| - 1];
      var last := properties[|properties| - 1];
      assert properties == init + [last];
      Where(init, keep) + (if keep(last) then [last] else [])
  }

  /** The names of a sequence of properties. */
  function Names(properties: seq<MappedProperty>): (names: seq<string>)
    ensures |names| == |properties|
    ensures forall i | 0 <= i < |properties| :: names[i] == properties[i].Name()
  {
    seq(|properties|, i requires 0 <= i < |properties| => properties[i].Name())
  }

  /** The key properties under `keyName`: those whose key kind under that
      name is not NotAKey. */
  function KeyProperties(properties: seq<MappedProperty>, keyName: Option<string>): seq<MappedProperty>
  {
    Where(properties, (p: MappedProperty) => p.GetKeyType(keyName) != NotAKey)
  }

  /** One Eq predicate per key property, with the entity's current value. */
  function KeyConjuncts(keys: seq<MappedProperty>, entity: Fields): seq<FieldPredicate>
  {
    seq(|keys|, i requires 0 <= i < |keys| => FieldPredicate(keys[i].Name(), Get(entity, keys[i].Name())))
  }

  /** The predicate that identifies `entity` by its keys under `keyName`; a
      type without such a key is an error. */
  function GetKeyPredicate(classMap: ClassMap, entity: Fields, keyName: Option<string>): (r: Result<Predicate>)
    ensures r.Err? <==> forall p | p in classMap.properties :: p.GetKeyType(keyName) == NotAKey
    ensures r.Err? ==> r.error == NoKeyDefined
    ensures r.Ok? ==> forall f | f in Conjuncts(r.value) :: f.value == Get(entity, f.propertyName)
    ensures r.Ok? ==> Names(KeyProperties(classMap.properties, keyName)) == seq(|Conjuncts(r.value)|, i requires 0 <= i < |Conjuncts(r.value)| => Conjuncts(r.value)[i].propertyName)
    ensures r.Ok? ==> (r.value.Single? <==> |KeyProperties(classMap.properties, keyName)| == 1)
  {
    var keys := KeyProperties(classMap.properties, keyName);
    if keys == [] then
      assert forall p | p in classMap.properties :: p.GetKeyType(keyName) == NotAKey;
      Err(NoKeyDefined)
    else
      assert keys[0] in classMap.properties;
      Ok(Grouped(KeyConjuncts(keys, entity)))
  }

  /** A row satisfies the key predicate of an entity exactly when it agrees
      with the entity on every key property under that key name. */
  lemma KeyPredicateMatches(classMap: ClassMap, entity: Fields, keyName: Option<string>, row: Fields)
    requires GetKeyPredicate(classMap, entity, keyName).Ok?
    ensures Matches(GetKeyPredicate(classMap, entity, keyName).value, row) <==>
      forall p | p in classMap.properties && p.GetKeyType(keyName) != NotAKey :: Get(row, p.Name()) == Get(entity, p.Name())
  {
    var keys := KeyProperties(classMap.properties, keyName);
    var conjuncts := Conjuncts(GetKeyPredicate(classMap, entity, keyName).value);
    assert conjuncts == KeyConjuncts(keys, entity);
    if Matches(GetKeyPredicate(classMap, entity, keyName).value, row) {
      forall p | p in classMap.properties && p.GetKeyType(keyName) != NotAKey
        ensures Get(row, p.Name()) == Get(entity, p.Name())
      {
        var i :| 0 <= i < |keys| && keys[i] == p;
        assert conjuncts[i] in conjuncts;
      }
    } else {
      var f :| f in conjuncts && Get(row, f.propertyName) != f.value;
      var i :| 0 <= i < |keys| && conjuncts[i] == f;
      assert keys[i] in keys;
    }
  }

  /** An id: a simple value used for every key, or an object whose members
      supply the keys by name. */
  datatype IdArg = SimpleId(value: Value) | ObjectId(members: map<string, Value>)

  /** The value an id gives the key property `name`. */
  function IdValue(id: IdArg, name: string): Value
  {
    match id
    case SimpleId(v) => v
    case ObjectId(members) => Get(members, name)
  }

  /** Builds the predicate for an id over the key properties under
      `keyName`: the first key the id object lacks is an error, and a type
      without keys gives an empty AND group. */
  method GetIdPredicate(classMap: ClassMap, id: IdArg, keyName: Option<string>) returns (r: Result<Predicate>)
    ensures var keys := KeyProperties(classMap.properties, keyName);
      r.Err? <==> id.ObjectId? && exists i | 0 <= i < |keys| :: keys[i].Name() !in id.members
    ensures var keys := KeyProperties(classMap.properties, keyName);
      r.Err? ==> exists i | 0 <= i < |keys| ::
        && keys[i].Name() !in id.members
        && (forall j | 0 <= j < i :: keys[j].Name() in id.members)
        && r.error == MissingMember(keys[i].Name())
    ensures var keys := KeyProperties(classMap.properties, keyName);
      r.Ok? ==>
        && |Conjuncts(r.value)| == |keys|
        && (forall i | 0 <= i < |keys| :: Conjuncts(r.value)[i] == FieldPredicate(keys[i].Name(), IdValue(id, keys[i].Name())))
        && (r.value.Single? <==> |keys| == 1)
  {
    var keys := KeyProperties(classMap.properties, keyName);
    var predicates: seq<FieldPredicate> := [];
    var i := 0;
    while i < |keys|
      invariant 0 <= i <= |keys| && |predicates| == i
      invariant forall j | 0 <= j < i :: predicates[j] == FieldPredicate(keys[j].Name(), IdValue(id, keys[j].Name()))
      invariant id.ObjectId? ==> forall j | 0 <= j < i :: keys[j].Name() in id.members
    {
      var k := keys[i];
      var value: Value;
      if id.SimpleId? {
        value := id.value;
      } else {
        if k.Name() !in id.members {
          return Err(MissingMember(k.Name()));
        }
        value := id.members[k.Name()];
      }
      predicates := predicates + [FieldPredicate(k.Name(), value)];
      i := i + 1;
    }
    r := Ok(Grouped(predicates));
  }

  /** An id object carrying an entity's key values yields the entity's key
      predicate: each of its conjuncts compares a key against the entity's
      own value, never against the default of a missing member. */
  lemma IdOfKeysIsKeyPredicate(classMap: ClassMap, entity: Fields, keyName: Option<string>)
    requires GetKeyPredicate(classMap, entity, keyName).Ok?
    requires forall p | p in KeyProperties(classMap.properties, keyName) :: p.Name() in entity
    ensures var keys := KeyProperties(classMap.properties, keyName);
      && (forall i | 0 <= i < |keys| :: IdValue(ObjectId(entity), keys[i].Name()) == entity[keys[i].Name()])
      && GetKeyPredicate(classMap, entity, keyName).value
        == Grouped(seq(|keys|, i requires 0 <= i < |keys| => FieldPredicate(keys[i].Name(), IdValue(ObjectId(entity), keys[i].Name()))))
  {
    var keys := KeyProperties(classMap.properties, keyName);
    forall i | 0 <= i < |keys|
      ensures IdValue(ObjectId(entity), keys[i].Name()) == entity[keys[i].Name()]
    {
      assert keys[i] in keys;
    }
  }

  /** Looking an entity up by an id object that carries its key values
      builds exactly the entity's key predicate. */
  method IdPredicateOfEntity(classMap: ClassMap, entity: Fields, keyName: Option<string>) returns (r: Result<Predicate>)
    requires GetKeyPredicate(classMap, entity, keyName).Ok?
    requires forall p | p in KeyProperties(classMap.properties, keyName) :: p.Name() in entity
    ensures r == GetKeyPredicate(classMap, entity, keyName)
  {
    var keys := KeyProperties(classMap.properties, keyName);
    r := GetIdPredicate(classMap, ObjectId(entity), keyName);
    assert r.Ok?;
    IdOfKeysIsKeyPredicate(classMap, entity, keyName);
    var expected := seq(|keys|, i requires 0 <= i < |keys| => FieldPredicate(keys[i].Name(), IdValue(ObjectId(entity), keys[i].Name())));
    assert Conjuncts(r.value) == expected;
  }

  // ---------------------------------------------------------------------
  // Statements

  /** What the implementor hands the connection; the SQL text itself comes
      from the SQL generator and is not modelled. */
  datatype Statement =
    | UpdateStatement(wherePredicate: Predicate, keyName: Option<string>, properties: Option<seq<string>>, parameters: map<string, Value>)
    | DeleteStatement(wherePredicate: Predicate)
    | InsertStatement(values: Fields)
    | IdentityQuery

  /** The connection: it records every statement; the affected-row count and
      the identity value the store produces are not known in advance. */
  class Database {
    var statements: seq<Statement>

    constructor ()
      ensures statements == []
    {
      statements := [];
    }

    method Execute(s: Statement) returns (rowsAffected: nat)
      modifies this
      ensures statements == old(statements) + [s]
    {
      statements := statements + [s];
      rowsAffected :| true;
    }

    /** Reads back the identity the last insert produced: the first row of
        the identity query, a 64-bit value, or None when it returns no rows. */
    method QueryIdentity() returns (identity: Option<int>)
      modifies this
      ensures statements == old(statements) + [IdentityQuery]
      ensures identity.Some? ==> Int64Min <= identity.value <= Int64Max
    {
      statements := statements + [IdentityQuery];
      identity :| identity.None? || Int64Min <= identity.value <= Int64Max;
    }
  }

  // ---------------------------------------------------------------------
  // Update and delete

  /** A null key name falls back to the class map's default. */
  function KeyNameOr(keyName: Option<string>, default: Option<string>): Option<string>
  {
    if keyName.Some? then keyName else default
  }

  /** Properties an update may write: not ignored, read-only, insert-only or
      an identity key under any name. */
  predicate Updatable(p: MappedProperty)
  {
    !(p.ignored || p.isReadOnly || p.isInsertOnly || p.IsAnyKeyType(Identity))
  }

  /** The names of the columns an update writes: the updatable properties,
      restricted to `selected` when there is a selection. */
  function UpdateColumnNames(properties: seq<MappedProperty>, selected: Option<seq<string>>): set<string>
  {
    set p | p in properties && Updatable(p) && (selected.None? || p.Name() in selected.value) :: p.Name()
  }

  /** The names of the changes of a diff, in order. */
  function ChangeNames(diff: seq<Change>): (names: seq<string>)
    ensures |names| == |diff|
    ensures forall i | 0 <= i < |diff| :: names[i] == diff[i].name
  {
    seq(|diff|, i requires 0 <= i < |diff| => diff[i].name)
  }

  /** The parameters bound from a diff: each change whose name is a column,
      a later change of the same name replacing an earlier one. */
  function DiffParameters(diff: seq<Change>, columns: set<string>): (m: map<string, Value>)
    ensures forall n :: n in m <==> exists i | 0 <= i < |diff| :: diff[i].name == n && n in columns
    ensures forall i | 0 <= i < |diff| && diff[i].name in columns && (forall j | i < j < |diff| :: diff[j].name != diff[i].name) ::
      m[diff[i].name] == diff[i].newValue
  {
    if diff == [] then map[]
    else
      var init := diff[..|diff| - 1];
      var last := diff[|diff| - 1];
      var m := DiffParameters(init, columns);
      assert forall i | 0 <= i < |init| :: init[i] == diff[i];
      if last.name in columns then m[last.name := last.newValue] else m
  }

  /** The parameters bound from the whole object: every column with the
      object's current value. */
  function FieldParameters(fields: Fields, columns: set<string>): map<string, Value>
  {
    map n | n in columns :: Get(fields, n)
  }

  /** The snapshot plan is the names of the relevant properties, kept in
      property order: the differ reports changes in that order. */
  lemma {:induction false} PlanIsRelevantInOrder(properties: seq<MappedProperty>)
    ensures RelevantProperties(properties) == Names(Where(properties, Relevant))
  {
    if properties != [] {
      var init := properties[..|properties| - 1];
      var last := properties[|properties| - 1];
      PlanIsRelevantInOrder(init);
      var tail := if Relevant(last) then [last] else [];
      assert Where(properties, Relevant) == Where(init, Relevant) + tail;
      assert Names(Where(init, Relevant) + tail) == Names(Where(init, Relevant)) + Names(tail);
    }
  }

  /** Every property that takes part in snapshots is one an update writes. */
  lemma RelevantIsUpdatable(p: MappedProperty)
    requires Relevant(p)
    ensures Updatable(p)
  {
  }

  /** Under partial update, with the plan of the class map, the parameters
      bound are exactly the changed properties with their live values. */
  lemma PartialUpdateBindsChanges(classMap: ClassMap, clone: Fields, live: Fields)
    ensures var diff := Changes(RelevantProperties(classMap.properties), clone, live);
      var parameters := DiffParameters(diff, UpdateColumnNames(classMap.properties, Some(ChangeNames(diff))));
      && (forall n :: n in parameters <==> n in RelevantProperties(classMap.properties) && !AreEqual(Get(clone, n), Get(live, n)))
      && (forall n | n in parameters :: parameters[n] == Get(live, n))
  {
    var plan := RelevantProperties(classMap.properties);
    var diff := Changes(plan, clone, live);
    var columns := UpdateColumnNames(classMap.properties, Some(ChangeNames(diff)));
    var parameters := DiffParameters(diff, columns);
    forall n | n in plan && !AreEqual(Get(clone, n), Get(live, n))
      ensures n in parameters
    {
      var c := Change(n, Get(live, n));
      ChangesExact(plan, clone, live, c);
      var i :| 0 <= i < |diff| && diff[i] == c;
      var k :| 0 <= k < |classMap.properties| && Relevant(classMap.properties[k]) && classMap.properties[k].Name() == n;
      RelevantIsUpdatable(classMap.properties[k]);
      assert ChangeNames(diff)[i] == n;
      assert n in columns;
    }
    forall n | n in parameters
      ensures n in plan && !AreEqual(Get(clone, n), Get(live, n)) && parameters[n] == Get(live, n)
    {
      var i :| 0 <= i < |diff| && diff[i].name == n && n in columns;
      ChangesExact(plan, clone, live, diff[i]);
      LastWithName(diff, i);
      var j :| i <= j < |diff| && diff[j].name == n && forall l | j < l < |diff| :: diff[l].name != n;
      ChangesExact(plan, clone, live, diff[j]);
    }
  }

  /** Among the changes named like change `i` there is a last one. */
  lemma LastWithName(diff: seq<Change>, i: nat)
    requires i < |diff|
    ensures exists j | i <= j < |diff| :: diff[j].name == diff[i].name && forall l | j < l < |diff| :: diff[l].name != diff[i].name
    decreases |diff| - i
  {
    if exists l | i < l < |diff| :: diff[l].name == diff[i].name {
      var l :| i < l < |diff| && diff[l].name == diff[i].name;
      LastWithName(diff, l);
    } else {
      assert diff[i].name == diff[i].name && forall l | i < l < |diff| :: diff[l].name != diff[i].name;
    }
  }

  /** Whether an update goes through the snapshot: there is one and the
      class map allows partial updates. */
  predicate IsPartial(classMap: ClassMap, snapshot: Option<Snapshot>)
  {
    snapshot.Some? && !classMap.isPartialUpdateDisabled
  }

  /** Updates an entity. With a partial-update snapshot an empty diff is a
      successful update that issues nothing, checked before the OnUpdate hook
      and again after it when the hook reports a change; the changed names
      then select the columns and the diff supplies the values. Otherwise
      the columns are selected by `properties` and the values read from the
      entity. `onUpdate` is the class map's hook: its report and the property
      values it leaves. */
  method Update(db: Database, entity: DomainObject, keyName: Option<string>, snapshot: Option<Snapshot>,
                properties: Option<seq<string>>, onUpdate: Fields -> (bool, Fields)) returns (r: Result<bool>)
    modifies db, entity
    ensures var partial := IsPartial(entity.classMap, snapshot);
      partial && old(DiffOf(snapshot.value)) == [] ==>
        r == Ok(true) && db.statements == old(db.statements) && entity.fields == old(entity.fields)
    ensures var partial := IsPartial(entity.classMap, snapshot);
      !(partial && old(DiffOf(snapshot.value)) == []) ==> entity.fields == onUpdate(old(entity.fields)).1
    ensures var partial := IsPartial(entity.classMap, snapshot);
      partial && old(DiffOf(snapshot.value)) != [] && onUpdate(old(entity.fields)).0 && DiffOf(snapshot.value) == [] ==>
        r == Ok(true) && db.statements == old(db.statements)
    ensures var partial := IsPartial(entity.classMap, snapshot);
      var issued := !(partial && (old(DiffOf(snapshot.value)) == [] || (onUpdate(old(entity.fields)).0 && DiffOf(snapshot.value) == [])));
      var key := KeyNameOr(keyName, entity.classMap.defaultUpdateKeyName);
      var keyPredicate := GetKeyPredicate(entity.classMap, entity.fields, key);
      var diff := if !partial then [] else if onUpdate(old(entity.fields)).0 then DiffOf(snapshot.value) else old(DiffOf(snapshot.value));
      var selected := if partial then Some(ChangeNames(diff)) else properties;
      var columns := UpdateColumnNames(entity.classMap.properties, selected);
      issued ==>
        && (keyPredicate.Err? ==> r == Err(NoKeyDefined) && db.statements == old(db.statements))
        && (keyPredicate.Ok? ==> r.Ok? && db.statements == old(db.statements) + [UpdateStatement(keyPredicate.value, key, selected,
              if partial then DiffParameters(diff, columns) else FieldParameters(entity.fields, columns))])
  {
    var classMap := entity.classMap;
    var key := KeyNameOr(keyName, classMap.defaultUpdateKeyName);
    var partial := IsPartial(classMap, snapshot);
    var diff: seq<Change> := [];
    var selected := properties;
    if partial {
      diff := Snapshotter.Diff(snapshot.value);
      if diff == [] {
        return Ok(true);
      }
      selected := Some(ChangeNames(diff));
    }
    var hook := onUpdate(entity.fields);
    entity.fields := hook.1;
    if hook.0 && partial {
      diff := Snapshotter.Diff(snapshot.value);
      if diff == [] {
        return Ok(true);
      }
      selected := Some(ChangeNames(diff));
    }
    var keyPredicate := GetKeyPredicate(classMap, entity.fields, key);
    if keyPredicate.Err? {
      return Err(keyPredicate.error);
    }
    var columns := UpdateColumnNames(classMap.properties, selected);
    var parameters := if partial then DiffParameters(diff, columns) else FieldParameters(entity.fields, columns);
    var rows := db.Execute(UpdateStatement(keyPredicate.value, key, selected, parameters));
    r := Ok(rows > 0);
  }

  /** Right after a reset, an entry that is flushed again untouched asks for
      an update, and its snapshot, when it has one, puts `Update` on the
      partial path with an empty diff: the update succeeds and issues
      nothing. Without a snapshot the update is a full one. */
  lemma ResetEntryUpdateIsSkipped(s: Tracker, o: DomainObject)
    requires WellFormed(s) && o in ResetSpec(s).entries
    ensures var e := ResetSpec(s).entries[o];
      && CallFor(o, e) == Some(UpdateCall(o, e.keyName, e.snapshot))
      && (IsPartial(o.classMap, e.snapshot) <==> e.HasSnapshot())
      && (e.HasSnapshot() ==> e.snapshot.value.trackedObject == o && DiffOf(e.snapshot.value) == [])
  {
    ResetEffect(s);
  }

  /** Deletes an entity by its key predicate under `keyName`, or under the
      class map's default delete key when `keyName` is null. */
  method Delete(db: Database, entity: DomainObject, keyName: Option<string>) returns (r: Result<bool>)
    modifies db
    ensures var keyPredicate := GetKeyPredicate(entity.classMap, entity.fields, KeyNameOr(keyName, entity.classMap.defaultDeleteKeyName));
      && (keyPredicate.Err? ==> r == Err(NoKeyDefined) && db.statements == old(db.statements))
      && (keyPredicate.Ok? ==> r.Ok? && db.statements == old(db.statements) + [DeleteStatement(keyPredicate.value)])
  {
    var key := KeyNameOr(keyName, entity.classMap.defaultDeleteKeyName);
    var keyPredicate := GetKeyPredicate(entity.classMap, entity.fields, key);
    if keyPredicate.Err? {
      return Err(keyPredicate.error);
    }
    var rows := db.Execute(DeleteStatement(keyPredicate.value));
    r := Ok(rows > 0);
  }

  // ---------------------------------------------------------------------
  // Insert

  /** A number above every element of `s`. */
  function Above(s: seq<nat>): (b: nat)
    ensures forall i | 0 <= i < |s| :: s[i] < b
  {
    if s == [] then 0
    else
      var b := Above(s[1..]);
      assert forall i | 1 <= i < |s| :: s[i] == s[1..][i - 1];
      if s[0] < b then b else s[0] + 1
  }

  /** The configuration's generator of sequential ("comb") guids; each guid
      differs from all it issued before. */
  class GuidSource {
    var issued: seq<nat>

    constructor ()
      ensures issued == []
    {
      issued := [];
    }

    method Next() returns (g: nat)
      modifies this
      ensures g !in old(issued)
      ensures issued == old(issued) + [g]
    {
      assert Above(issued) !in issued;
      g :| g !in issued;
      issued := issued + [g];
    }
  }

  /** The keys whose value the insert produces or the caller assigns: guid
      and assigned keys under any name. */
  function NonIdentityKeys(properties: seq<MappedProperty>): seq<MappedProperty>
  {
    Where(properties, (p: MappedProperty) => p.IsAnyKeyType(Guid) || p.IsAnyKeyType(KeyType.Assigned))
  }

  /** The identity keys under any name; an insert allows at most one. */
  function IdentityColumns(properties: seq<MappedProperty>): seq<MappedProperty>
  {
    Where(properties, (p: MappedProperty) => p.IsAnyKeyType(Identity))
  }

  /** The names of the non-identity keys that are guid keys by every lookup;
      an insert gives each of them a new guid. */
  function GuidKeyNames(columns: seq<MappedProperty>): set<string>
  {
    set p | p in columns && p.IsKeyType(Guid) :: p.Name()
  }

  /** The names an insert reports key values for: the identity column first
      when there is one, then the non-identity keys in property order. */
  function InsertKeyNames(properties: seq<MappedProperty>): seq<string>
  {
    var identities := IdentityColumns(properties);
    (if |identities| == 1 then [identities[0].Name()] else []) + Names(NonIdentityKeys(properties))
  }

  predicate DistinctNames(names: seq<string>)
  {
    forall i, j | 0 <= i < j < |names| :: names[i] != names[j]
  }

  /** `after` is `before` with a drawn guid in every guid key, no two keys
      sharing one. */
  ghost predicate GuidsAssigned(before: Fields, after: Fields, targets: set<string>, drawn: seq<nat>)
  {
    && after.Keys == before.Keys + targets
    && (forall n | n in after && n !in targets :: after[n] == before[n])
    && (forall n | n in targets :: after[n].GuidValue? && after[n].g in drawn)
    && (forall n, m | n in targets && m in targets && n != m :: after[n] != after[m])
  }

  /** Guids not issued before and not repeated. */
  ghost predicate FreshGuids(drawn: seq<nat>, issuedBefore: seq<nat>)
  {
    forall i | 0 <= i < |drawn| :: drawn[i] !in issuedBefore && drawn[i] !in drawn[..i]
  }

  /** One reported key value. */
  datatype KeyEntry = KeyEntry(name: string, value: Value)

  /** What an insert returns: the bare value when there is exactly one key
      value, otherwise all of them by name (possibly none). */
  datatype InsertResult = KeyValue(value: Value) | KeyValues(entries: seq<KeyEntry>)

  function Shape(entries: seq<KeyEntry>): (r: InsertResult)
  {
    if |entries| == 1 then KeyValue(entries[0].value) else KeyValues(entries)
  }

  /** The key values of `names` as the entity holds them. */
  function ReadKeys(names: seq<string>, fields: Fields): (entries: seq<KeyEntry>)
    ensures |entries| == |names|
    ensures forall i | 0 <= i < |names| :: entries[i] == KeyEntry(names[i], Get(fields, names[i]))
  {
    seq(|names|, i requires 0 <= i < |names| => KeyEntry(names[i], Get(fields, names[i])))
  }

  /** A result reports the value of the single key, or the values of all keys
      under their names; the entries can be read back from it. */
  lemma ShapeRecoversEntries(entries: seq<KeyEntry>)
    ensures |entries| == 1 <==> Shape(entries).KeyValue?
    ensures Shape(entries).KeyValue? ==> entries == [KeyEntry(entries[0].name, Shape(entries).value)]
    ensures Shape(entries).KeyValues? ==> Shape(entries).entries == entries
  {
  }

  /** An identity value fits its property: any 64-bit value for a 64-bit
      property, otherwise one that narrows to 32 bits without overflow. */
  predicate IdentityFits(column: MappedProperty, value: int)
  {
    column.info.propertyType == Int64 || Int32Min <= value <= Int32Max
  }

  /** Inserts an entity: runs the OnInsert hook (`onInsert`, the property
      values it leaves), gives every guid key a new guid, issues the insert
      and, for an identity column, reads back the generated identity into the
      entity (narrowed to 32 bits unless the property is 64-bit). It returns
      the key values the entity then holds. Two identity columns, an
      identity query without rows, an identity that does not fit, and a key
      name reported twice are errors. */
  method Insert(db: Database, guids: GuidSource, entity: DomainObject, onInsert: Fields -> Fields)
    returns (r: Result<InsertResult>, ghost inserted: Fields, ghost drawn: seq<nat>, ghost identity: Option<int>)
    modifies db, guids, entity
    ensures var identities := IdentityColumns(entity.classMap.properties);
      |identities| > 1 ==>
        && r == Err(MoreThanOneIdentity) && db.statements == old(db.statements)
        && entity.fields == onInsert(old(entity.fields)) && guids.issued == old(guids.issued)
    ensures var identities := IdentityColumns(entity.classMap.properties);
      |identities| <= 1 ==>
        && guids.issued == old(guids.issued) + drawn
        && FreshGuids(drawn, old(guids.issued))
        && GuidsAssigned(onInsert(old(entity.fields)), inserted, GuidKeyNames(NonIdentityKeys(entity.classMap.properties)), drawn)
    ensures var identities := IdentityColumns(entity.classMap.properties);
      |identities| == 0 ==> db.statements == old(db.statements) + [InsertStatement(inserted)] && entity.fields == inserted
    ensures var identities := IdentityColumns(entity.classMap.properties);
      |identities| == 1 ==>
        && db.statements == old(db.statements) + [InsertStatement(inserted), IdentityQuery]
        && (r == Err(NoIdentityRow) <==> identity.None?)
        && (identity.None? ==> entity.fields == inserted)
        && (identity.Some? ==>
              && Int64Min <= identity.value <= Int64Max
              && (r == Err(IdentityOverflow) <==> !IdentityFits(identities[0], identity.value))
              && (r == Err(IdentityOverflow) ==> entity.fields == inserted)
              && (r != Err(IdentityOverflow) ==> entity.fields == inserted[identities[0].Name() := IntValue(identity.value)]))
    ensures var identities := IdentityColumns(entity.classMap.properties);
      var names := InsertKeyNames(entity.classMap.properties);
      |identities| <= 1 && (|identities| == 1 ==> identity.Some? && IdentityFits(identities[0], identity.value)) ==>
        && (r.Err? <==> !DistinctNames(names))
        && (r.Err? ==> exists i, j | 0 <= i < j < |names| :: names[i] == names[j] && r.error == DuplicateKeyValue(names[j]))
        && (r.Ok? ==> r.value == Shape(ReadKeys(names, entity.fields)))
  {
    var classMap := entity.classMap;
    entity.fields := onInsert(entity.fields);
    var keys := NonIdentityKeys(classMap.properties);
    var identities := IdentityColumns(classMap.properties);
    drawn := [];
    identity := None;
    if |identities| > 1 {
      inserted := entity.fields;
      return Err(MoreThanOneIdentity), inserted, drawn, identity;
    }
    drawn := AssignGuids(guids, entity, keys);
    inserted := entity.fields;
    var keyValues: seq<KeyEntry> := [];
    var _ := db.Execute(InsertStatement(entity.fields));
    if |identities| == 1 {
      var identityColumn := identities[0];
      var row := db.QueryIdentity();
      identity := row;
      if row.None? {
        return Err(NoIdentityRow), inserted, drawn, identity;
      }
      var identityValue := row.value;
      if !IdentityFits(identityColumn, identityValue) {
        return Err(IdentityOverflow), inserted, drawn, identity;
      }
      keyValues := [KeyEntry(identityColumn.Name(), IntValue(identityValue))];
      entity.fields := entity.fields[identityColumn.Name() := IntValue(identityValue)];
    }
    ghost var prefixNames := if |identities| == 1 then [identities[0].Name()] else [];
    assert keyValues == ReadKeys(prefixNames, entity.fields);
    var collected := AddKeyValues(keyValues, prefixNames, Names(keys), entity.fields);
    if collected.Err? {
      return Err(collected.error), inserted, drawn, identity;
    }
    r := Ok(Shape(collected.value));
  }

  /** The reporting loop of Insert: adds the value of each of `names` to the
      entries so far, failing on the first name already present. */
  method AddKeyValues(keyValues: seq<KeyEntry>, ghost prefixNames: seq<string>, names: seq<string>, fields: Fields)
    returns (r: Result<seq<KeyEntry>>)
    requires DistinctNames(prefixNames) && keyValues == ReadKeys(prefixNames, fields)
    ensures r.Ok? <==> DistinctNames(prefixNames + names)
    ensures r.Ok? ==> r.value == ReadKeys(prefixNames + names, fields)
    ensures r.Err? ==> exists i, j | 0 <= i < j < |prefixNames + names| ::
      (prefixNames + names)[i] == (prefixNames + names)[j] && r.error == DuplicateKeyValue((prefixNames + names)[j])
  {
    ghost var all := prefixNames + names;
    var entries := keyValues;
    var i := 0;
    while i < |names|
      invariant 0 <= i <= |names|
      invariant all[..|prefixNames| + i] == prefixNames + names[..i]
      invariant entries == ReadKeys(all[..|prefixNames| + i], fields)
      invariant DistinctNames(all[..|prefixNames| + i])
    {
      var name := names[i];
      assert all[|prefixNames| + i] == name;
      if exists j | 0 <= j < |entries| :: entries[j].name == name {
        ghost var j :| 0 <= j < |entries| && entries[j].name == name;
        assert all[j] == all[|prefixNames| + i];
        return Err(DuplicateKeyValue(name));
      }
      assert all[..|prefixNames| + i + 1] == all[..|prefixNames| + i] + [name];
      entries := entries + [KeyEntry(name, Get(fields, name))];
      i := i + 1;
    }
    assert all[..|prefixNames| + i] == all;
    r := Ok(entries);
  }

  /** The guid loop of Insert: a new guid into every guid key of `columns`. */
  method AssignGuids(guids: GuidSource, entity: DomainObject, columns: seq<MappedProperty>) returns (ghost drawn: seq<nat>)
    modifies guids, entity
    ensures guids.issued == old(guids.issued) + drawn
    ensures FreshGuids(drawn, old(guids.issued))
    ensures GuidsAssigned(old(entity.fields), entity.fields, GuidKeyNames(columns), drawn)
  {
    drawn := [];
    ghost var issued0 := guids.issued;
    ghost var start := entity.fields;
    var i := 0;
    while i < |columns|
      invariant 0 <= i <= |columns|
      invariant guids.issued == issued0 + drawn
      invariant FreshGuids(drawn, issued0)
      invariant GuidsAssigned(start, entity.fields, GuidKeyNames(columns[..i]), drawn)
    {
      drawn := AssignGuidAt(guids, entity, columns, i, issued0, start, drawn);
      i := i + 1;
    }
    assert columns[..i] == columns;
  }

  /** One round of the guid loop: a new guid into the column at `i` when it
      is a guid key. */
  method AssignGuidAt(guids: GuidSource, entity: DomainObject, columns: seq<MappedProperty>, i: nat,
                      ghost issued0: seq<nat>, ghost start: Fields, ghost drawn: seq<nat>) returns (ghost drawn': seq<nat>)
    requires i < |columns|
    requires guids.issued == issued0 + drawn && FreshGuids(drawn, issued0)
    requires GuidsAssigned(start, entity.fields, GuidKeyNames(columns[..i]), drawn)
    modifies guids, entity
    ensures guids.issued == issued0 + drawn' && FreshGuids(drawn', issued0)
    ensures GuidsAssigned(start, entity.fields, GuidKeyNames(columns[..i + 1]), drawn')
  {
    var column := columns[i];
    ghost var before := entity.fields;
    if column.IsKeyType(Guid) {
      var comb := guids.Next();
      entity.fields := entity.fields[column.Name() := GuidValue(comb)];
      FreshStep(drawn, issued0, comb);
      GuidStep(start, before, columns, i, drawn, comb);
      drawn' := drawn + [comb];
    } else {
      SkipStep(start, before, columns, i, drawn);
      drawn' := drawn;
    }
  }

  lemma FreshStep(drawn: seq<nat>, issuedBefore: seq<nat>, g: nat)
    requires FreshGuids(drawn, issuedBefore) && g !in issuedBefore + drawn
    ensures FreshGuids(drawn + [g], issuedBefore)
  {
    var d := drawn + [g];
    assert d[..|drawn|] == drawn;
    forall i | 0 <= i < |drawn| ensures d[..i] == drawn[..i] {}
  }

  lemma GuidStep(start: Fields, before: Fields, columns: seq<MappedProperty>, i: nat, drawn: seq<nat>, g: nat)
    requires i < |columns| && columns[i].IsKeyType(Guid) && g !in drawn
    requires GuidsAssigned(start, before, GuidKeyNames(columns[..i]), drawn)
    ensures GuidsAssigned(start, before[columns[i].Name() := GuidValue(g)], GuidKeyNames(columns[..i + 1]), drawn + [g])
  {
    GuidKeyNamesStep(columns, i);
    AssignOne(start, before, GuidKeyNames(columns[..i]), drawn, columns[i].Name(), g);
  }

  /** Writing a guid not drawn before into one more target keeps the
      others, and keeps the targets' guids apart. */
  lemma AssignOne(start: Fields, before: Fields, targets: set<string>, drawn: seq<nat>, name: string, g: nat)
    requires GuidsAssigned(start, before, targets, drawn) && g !in drawn
    ensures GuidsAssigned(start, before[name := GuidValue(g)], targets + {name}, drawn + [g])
  {
    var after := before[name := GuidValue(g)];
    forall n | n in targets + {name}
      ensures after[n].GuidValue? && after[n].g in drawn + [g]
    {
      if n != name {
        assert after[n] == before[n];
      }
    }
    forall n, m | n in targets + {name} && m in targets + {name} && n != m
      ensures after[n] != after[m]
    {
      if n == name {
        assert after[m] == before[m] && before[m].g in drawn;
      } else if m == name {
        assert after[n] == before[n] && before[n].g in drawn;
      } else {
        assert after[n] == before[n] && after[m] == before[m];
      }
    }
  }

  lemma SkipStep(start: Fields, before: Fields, columns: seq<MappedProperty>, i: nat, drawn: seq<nat>)
    requires i < |columns| && !columns[i].IsKeyType(Guid)
    requires GuidsAssigned(start, before, GuidKeyNames(columns[..i]), drawn)
    ensures GuidsAssigned(start, before, GuidKeyNames(columns[..i + 1]), drawn)
  {
    GuidKeyNamesStep(columns, i);
    assert GuidKeyNames(columns[..i + 1]) == GuidKeyNames(columns[..i]);
  }

  lemma GuidKeyNamesStep(columns: seq<MappedProperty>, i: nat)
    requires i < |columns|
    ensures GuidKeyNames(columns[..i + 1]) ==
      GuidKeyNames(columns[..i]) + (if columns[i].IsKeyType(Guid) then {columns[i].Name()} else {})
  {
    assert columns[..i + 1] == columns[..i] + [columns[i]];
  }
}
