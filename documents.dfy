/**
 * Document bodies, structure specifications and the runtime type relation.
 */
module Documents {
  import opened Dicts

  /** A Python type (class), by name. */
  datatype Ty = Ty(name: string)

  /**
   * A value held in a document body: a dict (string keys, iteration order);
   * any other iterable (a list, a tuple, a set), as its items in iteration
   * order; a string; or a value that cannot be iterated, of some runtime type.
   */
  datatype Value =
    | Mapping(entries: Dict<string, Value>)
    | Sequence(items: seq<Value>)
    | Text(chars: string)
    | Scalar(ty: Ty, data: string)

  /** A key of a structure: a literal field name, or a type that matches every key of that type. */
  datatype Key = Lit(name: string) | TypePat(ty: Ty)

  /**
   * A structure specification: a leaf type, a one-element list `[spec]`
   * that every element of a list value must match, or a nested dict.
   */
  datatype Spec =
    | Leaf(ty: Ty)
    | ListOf(elem: Spec)
    | Nested(fields: Dict<Key, Spec>)

  /** `isinstance(value, ty)`, supplied by the runtime. */
  type InstanceOf = (Value, Ty) -> bool
}
