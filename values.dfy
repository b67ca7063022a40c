/**
 * Small value types shared by the model: an optional value, and the
 * loosely typed scalars that PHP arrays, YAML documents and cached
 * objects carry.
 */
module Values {

  datatype Option<+T> = None | Some(value: T)

  /** A PHP scalar; Null also stands for an entry that is not set at all. */
  datatype PhpValue = Null | Bool(b: bool) | Int(i: int) | Str(s: string)

  /** `isset($v) && $v === true`: only the boolean true qualifies. */
  predicate IsStrictlyTrue(v: PhpValue) {
    v == Bool(true)
  }

  /** PHP's conversion of a string to bool: only "" and "0" are false. */
  predicate StringTruthy(s: string) {
    s != "" && s != "0"
  }
}
