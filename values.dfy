/** Scalars, flat records and the Python exceptions of the record keeper. */
module Values {

  datatype Option<+T> = None | Some(value: T)

  /** The Python exception classes that the core raises. */
  datatype Failure =
    | KeyError(key: string)  // a dict lookup `r[key]` on a missing key
    | TypeError              // e.g. strptime of a non-string, or indexing a non-dict
    | ValueError             // strptime of a malformed date, or an explicit `raise ValueError`
    | AttributeError         // e.g. `other.mrn` on an object without that attribute
    | UnboundLocalError      // use of a local that one branch never assigned

  /** A computed value, or the exception raised instead. */
  datatype Result<+T> = Ok(value: T) | Err(error: Failure) {
    predicate IsFailure() { Err? }
    function PropagateFailure<U>(): Result<U> requires Err? { Err(error) }
    function Extract(): T requires Ok? { value }
  }

  /** A scalar of a flat record, as the YAML file stores it: a string, a boolean or null. */
  datatype Value = VStr(s: string) | VBool(b: bool) | VNull

  /** A flat record: a dict from attribute names to scalars. */
  type Record = map<string, Value>

  /** `r.get(k)`: the stored value, or None when the key is absent. */
  function Get(r: Record, k: string): Value
  {
    if k in r then r[k] else VNull
  }
}
