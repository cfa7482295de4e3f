/** JSON values as the services receive them: objects keep the order of their keys. */
module Json {
  import opened Options
  import Decimal

  datatype Value =
    | Null
    | Bool(b: bool)
    | Num(n: real)
    | Str(s: string)
    | Arr(items: seq<Value>)
    | Obj(fields: seq<Field>)

  datatype Field = Field(key: string, value: Value)

  /** JavaScript truthiness of a JSON value. */
  predicate Truthy(j: Value) {
    match j
    case Null => false
    case Bool(b) => b
    case Num(n) => n != 0.0
    case Str(s) => s != ""
    case Arr(_) => true
    case Obj(_) => true
  }

  /** `typeof j === 'object'` and not null. */
  predicate IsStructure(j: Value) {
    j.Arr? || j.Obj?
  }

  /** Position of the first field with this key, or the length when there is none. */
  function IndexOf(fields: seq<Field>, key: string): (i: nat)
    ensures i <= |fields|
    ensures i < |fields| ==> fields[i].key == key
    ensures forall k :: 0 <= k < i ==> fields[k].key != key
  {
    IndexFrom(fields, key, 0)
  }

  function IndexFrom(fields: seq<Field>, key: string, start: nat): (i: nat)
    requires start <= |fields|
    ensures start <= i <= |fields|
    ensures i < |fields| ==> fields[i].key == key
    ensures forall k :: start <= k < i ==> fields[k].key != key
    decreases |fields| - start
  {
    if start == |fields| || fields[start].key == key then start else IndexFrom(fields, key, start + 1)
  }

  /** Property read: anything but an object has none of the keys the services read. */
  function Get(j: Value, key: string): Option<Value> {
    if j.Obj? && IndexOf(j.fields, key) < |j.fields| then Some(j.fields[IndexOf(j.fields, key)].value) else None
  }

  /** `j.key != null` */
  predicate Present(j: Value, key: string) {
    Get(j, key).Some? && !Get(j, key).value.Null?
  }

  /** `j.key` is truthy. */
  predicate HasTruthy(j: Value, key: string) {
    Get(j, key).Some? && Truthy(Get(j, key).value)
  }

  /** `typeof j.key === 'string'` */
  predicate HasString(j: Value, key: string) {
    Get(j, key).Some? && Get(j, key).value.Str?
  }

  /** `a ?? b` */
  function Coalesce(a: Option<Value>, b: Option<Value>): Option<Value> {
    if a.Some? && !a.value.Null? then a else b
  }

  /** The property `second` of the property `first` (`j.first?.second`). */
  function Get2(j: Value, first: string, second: string): Option<Value> {
    match Get(j, first)
    case None => None
    case Some(x) => Get(x, second)
  }

  /** `String(j) === text`, for a non-empty text without a comma that no number prints as. */
  predicate PrintsAs(j: Value, text: string) {
    j == Str(text) || (j.Arr? && |j.items| == 1 && PrintsAs(j.items[0], text))
  }

  /** `Object.entries(j)`, which is also what spreading `...j` copies. */
  function Entries(j: Value): seq<Field> {
    match j
    case Obj(fields) => fields
    case Arr(items) => seq(|items|, i requires 0 <= i < |items| => Field(Decimal.Print(i), items[i]))
    case Str(s) => seq(|s|, i requires 0 <= i < |s| => Field(Decimal.Print(i), Str([s[i]])))
    case _ => []
  }

  /** Assignment of a property: an existing key keeps its place, a new one goes last. */
  function SetField(fields: seq<Field>, key: string, value: Value): seq<Field> {
    var i := IndexOf(fields, key);
    if i < |fields| then fields[i := Field(key, value)] else fields + [Field(key, value)]
  }

  /** `delete obj.key` */
  function RemoveField(fields: seq<Field>, key: string): seq<Field> {
    if fields == [] then []
    else if fields[0].key == key then RemoveField(fields[1..], key)
    else [fields[0]] + RemoveField(fields[1..], key)
  }

  lemma IndexIs(fields: seq<Field>, key: string, i: nat)
    requires i <= |fields|
    requires i < |fields| ==> fields[i].key == key
    requires forall k :: 0 <= k < i ==> fields[k].key != key
    ensures IndexOf(fields, key) == i
  {
  }

  /** A property read after an assignment sees the new value at that key and the old one elsewhere. */
  lemma GetAfterSet(fields: seq<Field>, key: string, value: Value, other: string)
    ensures Get(Obj(SetField(fields, key, value)), other)
         == if other == key then Some(value) else Get(Obj(fields), other)
  {
    var i := IndexOf(fields, key);
    var after := SetField(fields, key, value);
    if other == key {
      IndexIs(after, key, i);
    } else {
      var o := IndexOf(fields, other);
      IndexIs(after, other, if o < |fields| then o else |after|);
    }
  }

  lemma {:induction false} GetAfterRemove(fields: seq<Field>, key: string, other: string)
    ensures Get(Obj(RemoveField(fields, key)), other)
         == if other == key then None else Get(Obj(fields), other)
  {
    if fields != [] {
      var rest := fields[1..];
      GetAfterRemove(rest, key, other);
      IndexIs(fields, other, if fields[0].key == other then 0 else 1 + IndexOf(rest, other));
      var kept, keptRest := RemoveField(fields, key), RemoveField(rest, key);
      if fields[0].key != key {
        assert kept == [fields[0]] + keptRest;
        IndexIs(kept, other, if fields[0].key == other then 0 else 1 + IndexOf(keptRest, other));
      }
    }
  }
}
