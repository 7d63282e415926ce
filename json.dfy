/**
 * The JSON values the calendar scripts read from week files: objects whose
 * fields are null, booleans or strings, with Python's truthiness, `str()`
 * and `dict.get`.
 */
module Json {
  import opened Wrappers

  /** A field value of an event object. */
  datatype Value = Null | Flag(b: bool) | Text(s: string)

  /** A JSON object: Python's `dict` as loaded by `json.loads`. */
  type Object = map<string, Value>

  /** One entry of a week file's `events` list: an object, or anything else. */
  datatype Item = Obj(fields: Object) | NonObject

  /** The `events` field of a week file: a list of entries, or a single value (an absent field reads as `Null`). */
  datatype EventsField = Listed(items: seq<Item>) | Scalar(v: Value)

  /** What `json.loads` gives for a week file: an object with its `week` and `events` fields, or any other JSON value. */
  datatype WeekData = WeekObject(week: Value, events: EventsField) | NotAnObject

  /**
   * What `for evt in (data.get("events") or [])` iterates over: the list's
   * entries, nothing for a falsy value, the characters of a non-empty string
   * (none of them an object), and `None` for `True`, which is not iterable
   * and raises `TypeError`.
   */
  function Iterated(f: EventsField): (r: Option<seq<Item>>)
    ensures r.None? <==> f == Scalar(Flag(true))
    ensures f.Listed? ==> r == Some(f.items)
    ensures f.Scalar? && !Truthy(f.v) ==> r == Some([])
    ensures f.Scalar? && f.v.Text? ==> r.Some? && |r.value| == |f.v.s| && forall i :: 0 <= i < |r.value| ==> r.value[i].NonObject?
  {
    match f
    case Listed(items) => Some(items)
    case Scalar(Null) => Some([])
    case Scalar(Flag(b)) => if b then None else Some([])
    case Scalar(Text(s)) => Some(seq(|s|, _ => NonObject))
  }

  /** Python truthiness: `None`, `False` and `""` are false. */
  predicate Truthy(v: Value) {
    match v
    case Null => false
    case Flag(b) => b
    case Text(s) => s != ""
  }

  /** Python's `str(v)`. */
  function Str(v: Value): string {
    match v
    case Null => "None"
    case Flag(b) => if b then "True" else "False"
    case Text(s) => s
  }

  /** `o.get(k)`: the field, or `None` when absent. */
  function Get(o: Object, k: string): Value {
    if k in o then o[k] else Null
  }

  /** `str(o.get(k) or default)`. */
  function TextOr(o: Object, k: string, default: string): (r: string)
    ensures Truthy(Get(o, k)) ==> r == Str(Get(o, k))
    ensures !Truthy(Get(o, k)) ==> r == default
  {
    var v := Get(o, k);
    if Truthy(v) then Str(v) else default
  }

  /** `v or default`: the value itself when truthy, the default otherwise. */
  function OrElse(v: Value, default: Value): (r: Value)
    ensures Truthy(v) ==> r == v
    ensures !Truthy(v) ==> r == default
  {
    if Truthy(v) then v else default
  }

  /** `o.get(k, default)`: the field, even a falsy one, or `default` when absent. */
  function GetOr(o: Object, k: string, default: Value): (r: Value)
    ensures k in o ==> r == o[k]
    ensures k !in o ==> r == default
    ensures Truthy(r) ==> Truthy(Get(o, k)) || Truthy(default)
  {
    if k in o then o[k] else default
  }
}
