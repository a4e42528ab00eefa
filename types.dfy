/** The converter kinds a schema node can be bound to. */
module Types {
  import opened Wrappers

  /** The Mapping type's treatment of input keys no subnode names. */
  datatype Policy = Ignore | Raise | Preserve

  datatype Type =
    | Mapping(unknown: Policy)
    | Tuple
    | Sequence(acceptScalar: bool)
    | Integer
    | Boolean

  /** Tuple and Sequence address their children by position, not by name. */
  predicate Positional(t: Type)
  {
    t.Tuple? || t.Sequence?
  }

  function PolicyName(p: Policy): string
  {
    match p
    case Ignore => "ignore"
    case Raise => "raise"
    case Preserve => "preserve"
  }

  /**
   * `Mapping(unknown_keys)`: the constructor accepts only the three policy
   * names and raises ValueError (None) for anything else.
   */
  function MappingOf(unknownKeys: string): (r: Option<Type>)
    ensures r.Some? <==> unknownKeys in ["ignore", "raise", "preserve"]
    ensures r.Some? ==> r.value.Mapping? && PolicyName(r.value.unknown) == unknownKeys
  {
    if unknownKeys == "ignore" then Some(Mapping(Ignore))
    else if unknownKeys == "raise" then Some(Mapping(Raise))
    else if unknownKeys == "preserve" then Some(Mapping(Preserve))
    else None
  }
}
