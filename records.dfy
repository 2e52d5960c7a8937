/**
 * Course documents as the catalog and the secondary course source hand them
 * around: dictionaries from field names to loosely typed values, together
 * with the few Python dictionary operations the course helpers rely on.
 */
module Records {

  datatype Option<T> = None | Some(value: T)

  /** The Python exceptions the course helpers can raise. */
  datatype Error = UnhashableType

  /** A value returned, or an exception raised. */
  datatype Result<T> = Success(value: T) | Failure(error: Error)

  /** A field value of a course document (a JSON/BSON-like value). */
  datatype Value =
    | Null
    | Bool(b: bool)
    | Int(i: int)
    | Str(s: string)
    | List(items: seq<Value>)
    | Dict(fields: map<string, Value>)

  /** Python's `hash()` refuses lists and dictionaries (`TypeError: unhashable type`). */
  predicate Hashable(v: Value) {
    !v.List? && !v.Dict?
  }

  /** A course document: field name to value. */
  type Record = map<string, Value>

  /** `d.get(k)`: the value stored under `k`, or None when `k` is absent. */
  function Get(d: Record, k: string): Option<Value> {
    if k in d then Some(d[k]) else None
  }

  /**
   * `d.pop(k, default)`: the value removed from under `k` (or `default` when
   * `k` is absent) and the dictionary without `k`.
   */
  function Pop(d: Record, k: string, default: Value): (Value, Record) {
    (if k in d then d[k] else default, d - {k})
  }

  /**
   * `d.setdefault(k, v)` for its effect on `d`: `k` ends up present, keeping
   * the value it had, or bound to `v` when it was absent.
   */
  function SetDefault(d: Record, k: string, v: Value): (r: Record)
    ensures r.Keys == d.Keys + {k}
    ensures r[k] == (if k in d then d[k] else v)
    ensures forall j :: j in d ==> r[j] == d[j]
  {
    if k in d then d else d[k := v]
  }

  /**
   * Python truthiness of an optional dictionary (`if d:`): None and the
   * empty dictionary are both false.
   */
  predicate Truthy(d: Option<Record>) {
    d.Some? && d.value != map[]
  }
}
