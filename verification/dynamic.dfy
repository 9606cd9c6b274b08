/** The dynamically typed values the Jira client library hands out: plain JSON
    data, resource objects whose members are attributes, and the two resource
    kinds the custom-field coercion tells apart. The Python operations the Jira
    code applies to them (attribute access, `dict.get`, subscripting, `in`,
    truthiness, `str()` and `" ".join`) are spelled out with the exception each
    raises. */
module Dynamic {
  import opened Wrappers
  import opened Strings
  import opened OrderedDict
  import opened Documents

  /** `CustomFieldOption`, `User`, or any other resource object. */
  datatype Kind = FieldOption | UserResource | Resource

  datatype Value =
    | VNone
    | VBool(b: bool)
    | VInt(i: int)
    | VStr(s: string)
    | VList(items: seq<Value>)
    | VDict(entries: Dict<string, Value>)
    | VObj(kind: Kind, attrs: Dict<string, Value>)

  /** Python truthiness; resource objects define no length and are always true. */
  predicate Truthy(v: Value) {
    match v
    case VNone => false
    case VBool(b) => b
    case VInt(i) => i != 0
    case VStr(s) => s != ""
    case VList(items) => |items| > 0
    case VDict(entries) => |entries| > 0
    case VObj(_, _) => true
  }

  /** `getattr(v, name)`: only resource objects carry data attributes. */
  function Attr(v: Value, name: string): (r: Result<Value, SyncError>)
    ensures r.Ok? <==> v.VObj? && name in Keys(v.attrs)
    ensures r.Ok? ==> Get(v.attrs, name) == Some(r.value)
    ensures r.Err? ==> r.error == MissingAttribute(name)
  {
    if v.VObj? then
      match Get(v.attrs, name)
      case Some(x) => Ok(x)
      case None => Err(MissingAttribute(name))
    else Err(MissingAttribute(name))
  }

  predicate HasAttr(v: Value, name: string) {
    Attr(v, name).Ok?
  }

  /** An attribute read straight off an attribute table, such as `issue.fields.x`. */
  function Field(fields: Dict<string, Value>, name: string): (r: Result<Value, SyncError>)
    ensures r.Ok? <==> name in Keys(fields)
    ensures r.Ok? ==> Get(fields, name) == Some(r.value)
    ensures r.Err? ==> r.error == MissingAttribute(name)
  {
    Attr(VObj(Resource, fields), name)
  }

  /** `v.get(key)`: a dict answers `None` for a missing key; nothing else has `get`. */
  function DictGet(v: Value, key: string): (r: Result<Value, SyncError>)
    ensures r.Ok? <==> v.VDict?
    ensures v.VDict? && Get(v.entries, key).Some? ==> r == Ok(Get(v.entries, key).value)
    ensures v.VDict? && Get(v.entries, key).None? ==> r == Ok(VNone)
  {
    match v
    case VDict(es) => Ok(Get(es, key).GetOr(VNone))
    case _ => Err(MissingAttribute("get"))
  }

  /** `v[key]` with a string key: only a dict can answer. */
  function Subscript(v: Value, key: string): (r: Result<Value, SyncError>)
    ensures r.Ok? <==> v.VDict? && key in Keys(v.entries)
    ensures r.Ok? ==> Get(v.entries, key) == Some(r.value)
  {
    match v
    case VDict(es) =>
      (match Get(es, key)
       case Some(x) => Ok(x)
       case None => Err(MissingKey(key)))
    case _ => Err(WrongType("not subscriptable by a string"))
  }

  /** Values Python can iterate: lists, dicts (their keys) and strings. */
  predicate Iterable(v: Value) {
    v.VList? || v.VDict? || v.VStr?
  }

  /** `s in v` for a string `s` and an iterable `v`: membership in a list, a key
      of a dict, a substring of a string. */
  predicate Member(s: string, v: Value)
    requires Iterable(v)
  {
    match v
    case VList(items) => VStr(s) in items
    case VDict(es) => s in Keys(es)
    case VStr(t) => Contains(t, s)
  }

  /** `for x in v`: the items of a list, the keys of a dict, the characters of a
      string. */
  function Iterate(v: Value): (r: Result<seq<Value>, SyncError>)
    ensures r.Ok? <==> Iterable(v)
    ensures v.VList? ==> r == Ok(v.items)
  {
    match v
    case VList(items) => Ok(items)
    case VDict(es) => Ok(seq(|es|, i requires 0 <= i < |es| => VStr(es[i].0)))
    case VStr(t) => Ok(seq(|t|, i requires 0 <= i < |t| => VStr([t[i]])))
    case _ => Err(WrongType("not iterable"))
  }

  /** `str(v)` and f-string interpolation. Scalars are written out; lists, dicts
      and resource objects are written by `repr`, a parameter standing for
      Python's container and object representations. */
  function Str(v: Value, repr: Value -> string): (r: string)
    ensures v.VStr? ==> r == v.s
    ensures v.VNone? ==> r == "None"
  {
    match v
    case VNone => "None"
    case VBool(b) => if b then "True" else "False"
    case VInt(i) => IntToString(i)
    case VStr(s) => s
    case _ => repr(v)
  }

  /** The text of each item when every item is a string. */
  predicate AllText(parts: seq<Value>) {
    forall i :: 0 <= i < |parts| ==> parts[i].VStr?
  }

  function Texts(parts: seq<Value>): (r: seq<string>)
    requires AllText(parts)
    ensures |r| == |parts|
    ensures forall i :: 0 <= i < |parts| ==> parts[i] == VStr(r[i])
  {
    seq(|parts|, i requires 0 <= i < |parts| => parts[i].s)
  }

  /** `sep.join(parts)`: a `TypeError` unless every part is a string. */
  function StrJoin(sep: string, parts: seq<Value>): (r: Result<string, SyncError>)
    ensures r.Ok? <==> AllText(parts)
    ensures r.Ok? ==> r.value == Join(Texts(parts), sep)
  {
    if AllText(parts) then Ok(Join(Texts(parts), sep))
    else Err(WrongType("sequence item: expected str instance"))
  }

  /** `len(v)`: strings, lists and dicts have a length, other values raise. */
  function Len(v: Value): (r: Result<nat, SyncError>)
    ensures v.VStr? ==> r == Ok(|v.s|)
    ensures r.Ok? <==> v.VStr? || v.VList? || v.VDict?
  {
    match v
    case VStr(s) => Ok(|s|)
    case VList(items) => Ok(|items|)
    case VDict(es) => Ok(|es|)
    case _ => Err(WrongType("object has no len()"))
  }
}
