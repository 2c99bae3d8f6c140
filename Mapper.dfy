/** Property metadata of a mapped entity type: the key kind of each property
    (by default and under named keys), its ignore / read-only / insert-only
    flags and its column name. The pure key queries are defined on the
    immutable view MappedProperty; the fluent setters live on the class
    PropertyMap, whose state that view reflects. */
module Mapper {
  import opened Common

  datatype KeyType = NotAKey | Identity | Guid | Assigned

  /** The declared CLR type of a property, as far as the model needs it. */
  datatype ClrType =
    | Int32
    | Int64
    | Boolean
    | GuidType
    | StringType
    | NullableOf(underlying: ClrType)
    | ReferenceType

  predicate IsValueType(t: ClrType)
  {
    t.Int32? || t.Int64? || t.Boolean? || t.GuidType? || t.NullableOf?
  }

  /** What reflection knows about a property: its name, type and accessors. */
  datatype PropertyInfo = PropertyInfo(name: string, propertyType: ClrType, hasGetter: bool, hasSetter: bool)

  /** The state of one PropertyMap as a value. */
  datatype MappedProperty = MappedProperty(
    info: PropertyInfo,
    columnName: string,
    keyType: KeyType,
    keyTypes: map<string, KeyType>,
    ignored: bool,
    isReadOnly: bool,
    isInsertOnly: bool)
  {
    function Name(): string
    {
      info.name
    }

    /** The key kind under the named key `name`, or the default key kind for a null name. */
    function GetKeyType(name: Option<string>): KeyType
    {
      match name
      case None => keyType
      case Some(n) => if n in keyTypes then keyTypes[n] else NotAKey
    }

    /** The default key kind or some named key kind is `k`. */
    predicate IsAnyKeyType(k: KeyType)
    {
      keyType == k || k in keyTypes.Values
    }

    predicate IsKeyType(k: KeyType)
    {
      if k == NotAKey then
        keyType == k && forall n | n in keyTypes :: keyTypes[n] == k
      else if keyType != NotAKey then
        keyType == k && forall n | n in keyTypes :: keyTypes[n] == k || keyTypes[n] == NotAKey
      else
        |keyTypes| > 0 && forall n | n in keyTypes :: keyTypes[n] == k || keyTypes[n] == NotAKey
    }

    /** What the fluent setters keep: a property that is a key by default is
        neither ignored nor read-only. */
    predicate KeyConsistent()
    {
      keyType != NotAKey ==> !ignored && !isReadOnly
    }
  }

  /** IsAnyKeyType asks whether some lookup, default or named, answers `k`. */
  lemma AnyKeyTypeIsSomeLookup(p: MappedProperty, k: KeyType)
    ensures p.IsAnyKeyType(k) <==>
      (p.GetKeyType(None) == k || exists n :: n in p.keyTypes && p.GetKeyType(Some(n)) == k)
  {
    if k in p.keyTypes.Values {
      var n :| n in p.keyTypes && p.keyTypes[n] == k;
      assert p.GetKeyType(Some(n)) == k;
    }
  }

  /** For a real key kind `k`, IsKeyType says that no lookup answers another real
      key kind, and that the property is a key by default or has named keys. */
  lemma IsKeyTypeByLookups(p: MappedProperty, k: KeyType)
    requires k != NotAKey
    ensures p.IsKeyType(k) <==>
      && (forall name: Option<string> :: p.GetKeyType(name) == k || p.GetKeyType(name) == NotAKey)
      && (p.keyType == k || |p.keyTypes| > 0)
  {
    var all := forall name: Option<string> :: p.GetKeyType(name) == k || p.GetKeyType(name) == NotAKey;
    if all {
      forall n | n in p.keyTypes ensures p.keyTypes[n] == k || p.keyTypes[n] == NotAKey {
        assert p.GetKeyType(Some(n)) == p.keyTypes[n];
      }
      assert p.GetKeyType(None) == p.keyType;
    }
  }

  /** IsKeyType(NotAKey) holds exactly when every lookup answers NotAKey. */
  lemma NotAKeyByLookups(p: MappedProperty)
    ensures p.IsKeyType(NotAKey) <==> forall name: Option<string> :: p.GetKeyType(name) == NotAKey
  {
    if forall name: Option<string> :: p.GetKeyType(name) == NotAKey {
      forall n | n in p.keyTypes ensures p.keyTypes[n] == NotAKey {
        assert p.GetKeyType(Some(n)) == p.keyTypes[n];
      }
      assert p.GetKeyType(None) == p.keyType;
    }
  }

  /** Maps an entity property to its column; the setters return the map itself
      so that calls can be chained, or the error the source throws. */
  class PropertyMap {
    const propertyInfo: PropertyInfo
    var columnName: string
    var keyType: KeyType
    var keyTypes: map<string, KeyType>
    var ignored: bool
    var isReadOnly: bool
    var isInsertOnly: bool

    function View(): MappedProperty
      reads this
    {
      MappedProperty(propertyInfo, columnName, keyType, keyTypes, ignored, isReadOnly, isInsertOnly)
    }

    constructor (info: PropertyInfo)
      ensures View() == MappedProperty(info, info.name, NotAKey, map[], false, false, false)
      ensures View().KeyConsistent()
    {
      propertyInfo := info;
      columnName := info.name;
      keyType := NotAKey;
      keyTypes := map[];
      ignored, isReadOnly, isInsertOnly := false, false, false;
    }

    method Column(name: string) returns (r: PropertyMap)
      modifies this
      ensures r == this
      ensures View() == old(View()).(columnName := name)
    {
      columnName := name;
      r := this;
    }

    /** Makes the property a key of kind `k` by default. */
    method Key(k: KeyType) returns (r: Result<PropertyMap>)
      modifies this
      ensures old(ignored) ==> r == Err(IgnoredCannotBeKey) && View() == old(View())
      ensures !old(ignored) && old(isReadOnly) ==> r == Err(ReadOnlyCannotBeKey) && View() == old(View())
      ensures !old(ignored) && !old(isReadOnly) ==> r == Ok(this) && View() == old(View()).(keyType := k)
      ensures old(View()).KeyConsistent() ==> View().KeyConsistent()
    {
      if ignored {
        return Err(IgnoredCannotBeKey);
      }
      if isReadOnly {
        return Err(ReadOnlyCannotBeKey);
      }
      keyType := k;
      r := Ok(this);
    }

    /** Makes the property a key of kind `k` under the named key `name` only;
        a read-only property may still be a named key. An ignored property is
        refused first; a null name is then refused by the dictionary store. */
    method NamedKey(name: Option<string>, k: KeyType) returns (r: Result<PropertyMap>)
      modifies this
      ensures old(ignored) ==> r == Err(IgnoredCannotBeKey) && View() == old(View())
      ensures !old(ignored) && name.None? ==> r == Err(NullArgument) && View() == old(View())
      ensures !old(ignored) && name.Some? ==>
        r == Ok(this) && View() == old(View()).(keyTypes := old(keyTypes)[name.value := k])
      ensures old(View()).KeyConsistent() ==> View().KeyConsistent()
    {
      if ignored {
        return Err(IgnoredCannotBeKey);
      }
      if name.None? {
        return Err(NullArgument);
      }
      keyTypes := keyTypes[name.value := k];
      r := Ok(this);
    }

    method Ignore() returns (r: Result<PropertyMap>)
      modifies this
      ensures old(keyType) != NotAKey ==> r == Err(KeyCannotBeIgnored) && View() == old(View())
      ensures old(keyType) == NotAKey ==> r == Ok(this) && View() == old(View()).(ignored := true)
      ensures old(View()).KeyConsistent() ==> View().KeyConsistent()
    {
      if keyType != NotAKey {
        return Err(KeyCannotBeIgnored);
      }
      ignored := true;
      r := Ok(this);
    }

    method ReadOnly() returns (r: Result<PropertyMap>)
      modifies this
      ensures old(keyType) != NotAKey ==> r == Err(KeyCannotBeReadOnly) && View() == old(View())
      ensures old(keyType) == NotAKey ==> r == Ok(this) && View() == old(View()).(isReadOnly := true)
      ensures old(View()).KeyConsistent() ==> View().KeyConsistent()
    {
      if keyType != NotAKey {
        return Err(KeyCannotBeReadOnly);
      }
      isReadOnly := true;
      r := Ok(this);
    }

    method InsertOnly() returns (r: PropertyMap)
      modifies this
      ensures r == this
      ensures View() == old(View()).(isInsertOnly := true)
    {
      isInsertOnly := true;
      r := this;
    }
  }

  /** The class map of an entity type as the tracker and the implementor read
      it: its properties in declaration order, whether partial updates are
      switched off, and the named keys used by Update and Delete by default. */
  datatype ClassMap = ClassMap(
    properties: seq<MappedProperty>,
    isPartialUpdateDisabled: bool,
    defaultUpdateKeyName: Option<string>,
    defaultDeleteKeyName: Option<string>)

  /** An instance of a mapped entity type: a reference whose property values
      change in place. */
  class DomainObject {
    const classMap: ClassMap
    var fields: Fields

    constructor (classMap: ClassMap, fields: Fields)
      ensures this.classMap == classMap && this.fields == fields
    {
      this.classMap := classMap;
      this.fields := fields;
    }
  }
}
