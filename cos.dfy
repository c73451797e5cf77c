/** The COS-level dictionary a form field is backed by, reduced to what the
    variable-text accessors use: a map from entry names to values, where a
    value is an integer, a string or some other object. */
module Cos {
  import opened JavaInt

  /** The names that have a constructor of their own in `Key`, and
      `Parent`, which the field's parent handle stands for. */
  predicate Reserved(name: string)
  {
    name in {"Ff", "DA", "DS", "Q", "DV", "RV", "Parent"}
  }

  /** Every other entry name. */
  type OtherName = name: string | !Reserved(name) witness "T"

  /** The entry names these accessors use; `Named` stands for every other,
      so each COS name has exactly one `Key`. */
  datatype Key = Ff | DA | DS | Q | DV | RV | Named(name: OtherName)

  /** A direct (already dereferenced) COS object: a `COSInteger`, a
      `COSString`, or any other kind (name, array, stream, dictionary, ...). */
  datatype Value = Int(n: int) | Str(s: string) | Other

  type Dictionary = map<Key, Value>

  /** The faults an accessor can end in: a `ClassCastException` (wrong kind
      of value), a `NullPointerException` (entry missing where the code
      dereferences it), and the `IllegalArgumentException` of an operation
      the field does not support. */
  datatype Fault = TypeMismatch | MissingValue | Unsupported

  /** `COSDictionary.getInt(key, default)`: the entry's `intValue()` when it
      is a number, `default` when it is absent or of another kind. */
  function GetInt(d: Dictionary, key: Key, default: Int32): (r: Int32)
    ensures key in d && d[key].Int? ==> (r - d[key].n) % TWO_32 == 0
    ensures key in d && d[key].Int? && -TWO_31 <= d[key].n < TWO_31 ==> r == d[key].n
    ensures !(key in d && d[key].Int?) ==> r == default
  {
    if key in d && d[key].Int? then IntValue(d[key].n) else default
  }
}
