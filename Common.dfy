/** Values shared by every part of the model: optional values, results that
    stand for the exceptions the library throws, and property values. */
module Common {

  datatype Option<+T> = None | Some(value: T)

  /** The exceptions of the library, one constructor per throw site kind. */
  datatype Error =
    | ConflictingStatus        // re-adding an entity under the other New/Attach status
    | UntrackedMoreTimes       // a reference count would go below zero
    | NoKeyDefined             // a key-based statement on a type with no key column
    | IgnoredCannotBeKey       // Key on an ignored property
    | ReadOnlyCannotBeKey      // Key on a read-only property
    | KeyCannotBeIgnored       // Ignore on a key property
    | KeyCannotBeReadOnly      // ReadOnly on a key property
    | NullArgument             // a dictionary lookup with a null key
    | MissingMember(name: string)  // an id object without the member a key needs
    | MoreThanOneIdentity      // SingleOrDefault over two identity columns
    | DuplicateKeyValue(name: string)  // the same key name added twice to the result
    | IdentityOverflow         // an identity value that does not fit a 32-bit int
    | NoIdentityRow            // First over an identity query that returned no rows
    | StoreFailure             // the persistence collaborator failed

  datatype Result<+T> = Ok(value: T) | Err(error: Error)

  datatype Outcome = Pass | Fail(error: Error)

  /** The value of one property of an entity, boxed. */
  datatype Value =
    | Null
    | IntValue(i: int)
    | BoolValue(b: bool)
    | GuidValue(g: nat)
    | StringValue(s: string)
    | ReferenceValue(id: nat)

  /** The property values of one entity instance, by property name. */
  type Fields = map<string, Value>

  /** A property getter: a property that was never set holds its default, null. */
  function Get(fields: Fields, name: string): Value
  {
    if name in fields then fields[name] else Null
  }

  const Int32Min: int := -0x8000_0000
  const Int32Max: int := 0x7FFF_FFFF
  const Int64Min: int := -0x8000_0000_0000_0000
  const Int64Max: int := 0x7FFF_FFFF_FFFF_FFFF

  /** A prefix one element longer is the prefix with that element appended. */
  lemma PrefixSnoc<T>(s: seq<T>, i: nat)
    requires i < |s|
    ensures s[..i + 1] == s[..i] + [s[i]]
  {
  }
}
