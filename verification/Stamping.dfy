/** Version stamps on a manifest, and the content that stamping must leave alone. */
module Stamping {
  import opened Options
  import opened Json

  function WithField(j: Value, key: string, value: Value): Value
    requires j.Obj?
  {
    Obj(SetField(j.fields, key, value))
  }

  /** `{ ...part, version }` */
  function StampMetadata(part: Value, version: string): Value {
    WithField(Obj(Entries(part)), "version", Str(version))
  }

  /** `{ ...part, version, buildNumber }` */
  function StampApp(part: Value, version: string, build: nat): Value {
    WithField(StampMetadata(part, version), "buildNumber", Num(build as real))
  }

  function StampTop(manifest: Value, version: string): Value
    requires manifest.Obj?
  {
    WithField(manifest, "version", Str(version))
  }

  function StampSecond(manifest: Value, version: string): (r: Value)
    requires manifest.Obj?
    ensures r.Obj?
  {
    if HasTruthy(manifest, "metadata")
    then WithField(StampTop(manifest, version), "metadata", StampMetadata(Get(manifest, "metadata").value, version))
    else StampTop(manifest, version)
  }

  /** The manifest that is stored: `version`, and `metadata` and `app` when they are truthy. */
  function Stamp(manifest: Value, version: string, build: nat): (r: Value)
    requires manifest.Obj?
    ensures r.Obj?
  {
    if HasTruthy(manifest, "app")
    then WithField(StampSecond(manifest, version), "app", StampApp(Get(manifest, "app").value, version, build))
    else StampSecond(manifest, version)
  }

  /** A property read from a stamped manifest. */
  lemma GetFromStamp(manifest: Value, version: string, build: nat, key: string)
    requires manifest.Obj?
    ensures Get(Stamp(manifest, version, build), key)
         == if key == "version" then Some(Str(version))
            else if key == "metadata" && HasTruthy(manifest, "metadata")
            then Some(StampMetadata(Get(manifest, "metadata").value, version))
            else if key == "app" && HasTruthy(manifest, "app")
            then Some(StampApp(Get(manifest, "app").value, version, build))
            else Get(manifest, key)
  {
    var top := StampTop(manifest, version);
    GetAfterSet(manifest.fields, "version", Str(version), key);
    var second := StampSecond(manifest, version);
    if HasTruthy(manifest, "metadata") {
      GetAfterSet(top.fields, "metadata", StampMetadata(Get(manifest, "metadata").value, version), key);
    }
    if HasTruthy(manifest, "app") {
      GetAfterSet(second.fields, "app", StampApp(Get(manifest, "app").value, version, build), key);
    }
  }

  // ---------------------------------------------------------------- well stamped manifests

  predicate PartIsObject(manifest: Value, key: string) {
    HasTruthy(manifest, key) ==> Get(manifest, key).value.Obj?
  }

  /** A manifest in the form that stamping produces: every stamp present and equal. */
  predicate IsStamped(manifest: Value, version: string, build: nat) {
    && manifest.Obj?
    && Get(manifest, "version") == Some(Str(version))
    && PartIsObject(manifest, "metadata")
    && (HasTruthy(manifest, "metadata") ==> Get2(manifest, "metadata", "version") == Some(Str(version)))
    && PartIsObject(manifest, "app")
    && (HasTruthy(manifest, "app") ==>
          Get2(manifest, "app", "version") == Some(Str(version))
          && Get2(manifest, "app", "buildNumber") == Some(Num(build as real)))
  }

  lemma StampedPart(part: Value, version: string, build: nat)
    ensures Get(StampMetadata(part, version), "version") == Some(Str(version))
    ensures Get(StampApp(part, version, build), "version") == Some(Str(version))
    ensures Get(StampApp(part, version, build), "buildNumber") == Some(Num(build as real))
  {
    GetAfterSet(Entries(part), "version", Str(version), "version");
    var second := StampMetadata(part, version);
    GetAfterSet(second.fields, "buildNumber", Num(build as real), "version");
    GetAfterSet(second.fields, "buildNumber", Num(build as real), "buildNumber");
  }

  lemma StampIsStamped(manifest: Value, version: string, build: nat)
    requires manifest.Obj?
    ensures IsStamped(Stamp(manifest, version, build), version, build)
  {
    GetFromStamp(manifest, version, build, "version");
    GetFromStamp(manifest, version, build, "metadata");
    GetFromStamp(manifest, version, build, "app");
    if HasTruthy(manifest, "metadata") {
      StampedPart(Get(manifest, "metadata").value, version, build);
    }
    if HasTruthy(manifest, "app") {
      StampedPart(Get(manifest, "app").value, version, build);
    }
  }

  // ---------------------------------------------------------------- stamping twice

  lemma SetSame(fields: seq<Field>, key: string, value: Value)
    requires Get(Obj(fields), key) == Some(value)
    ensures SetField(fields, key, value) == fields
  {
    var i := IndexOf(fields, key);
    assert fields[i] == Field(key, value);
  }

  lemma StampMetadataSame(part: Value, version: string)
    requires part.Obj? && Get(part, "version") == Some(Str(version))
    ensures StampMetadata(part, version) == part
  {
    SetSame(part.fields, "version", Str(version));
  }

  /** Stamping a well stamped manifest with its own stamps changes nothing, so its checksum is stable. */
  lemma StampAgain(manifest: Value, version: string, build: nat)
    requires IsStamped(manifest, version, build)
    ensures Stamp(manifest, version, build) == manifest
  {
    SetSame(manifest.fields, "version", Str(version));
    assert StampTop(manifest, version) == manifest;
    if HasTruthy(manifest, "metadata") {
      StampMetadataSame(Get(manifest, "metadata").value, version);
      SetSame(manifest.fields, "metadata", Get(manifest, "metadata").value);
    }
    assert StampSecond(manifest, version) == manifest;
    if HasTruthy(manifest, "app") {
      var app := Get(manifest, "app").value;
      StampMetadataSame(app, version);
      SetSame(app.fields, "buildNumber", Num(build as real));
      SetSame(manifest.fields, "app", app);
    }
  }

  // ---------------------------------------------------------------- content

  const METADATA_STAMPS: set<string> := {"version"}

  const APP_STAMPS: set<string> := {"version", "buildNumber"}

  /** Each field replaced by the fields that f makes of it. */
  function FlatMap(fields: seq<Field>, f: Field -> seq<Field>): seq<Field> {
    if fields == [] then [] else f(fields[0]) + FlatMap(fields[1..], f)
  }

  function WithoutKeys(fields: seq<Field>, keys: set<string>): seq<Field> {
    FlatMap(fields, (f: Field) => if f.key in keys then [] else [f])
  }

  function PartContent(j: Value, keys: set<string>): Value {
    if j.Obj? then Obj(WithoutKeys(j.fields, keys)) else j
  }

  function FieldContent(f: Field): seq<Field> {
    if f.key == "version" then []
    else if f.key == "metadata" then [Field(f.key, PartContent(f.value, METADATA_STAMPS))]
    else if f.key == "app" then [Field(f.key, PartContent(f.value, APP_STAMPS))]
    else [f]
  }

  function ContentOf(fields: seq<Field>): seq<Field> {
    FlatMap(fields, FieldContent)
  }

  /** A manifest up to `version`, `metadata.version`, `app.version` and `app.buildNumber`. */
  function Content(manifest: Value): Value {
    if manifest.Obj? then Obj(ContentOf(manifest.fields)) else manifest
  }

  lemma {:induction false} FlatMapConcat(a: seq<Field>, b: seq<Field>, f: Field -> seq<Field>)
    ensures FlatMap(a + b, f) == FlatMap(a, f) + FlatMap(b, f)
  {
    if a == [] {
      assert a + b == b;
    } else {
      FlatMapConcat(a[1..], b, f);
      assert (a + b)[1..] == a[1..] + b;
      assert f(a[0]) + (FlatMap(a[1..], f) + FlatMap(b, f)) == (f(a[0]) + FlatMap(a[1..], f)) + FlatMap(b, f);
    }
  }

  lemma FlatMapCons(head: Field, tail: seq<Field>, f: Field -> seq<Field>)
    ensures FlatMap([head] + tail, f) == f(head) + FlatMap(tail, f)
  {
    assert ([head] + tail)[1..] == tail;
  }

  /** Replacing a field by one that f maps to the same fields changes nothing in the result. */
  lemma FlatMapAfterSet(fields: seq<Field>, key: string, value: Value, f: Field -> seq<Field>)
    requires var i := IndexOf(fields, key); f(Field(key, value)) == if i < |fields| then f(fields[i]) else []
    ensures FlatMap(SetField(fields, key, value), f) == FlatMap(fields, f)
  {
    var i := IndexOf(fields, key);
    if i < |fields| {
      SplitAt(fields, i, Field(key, value));
      FlatMapReplace(fields[..i], fields[i], Field(key, value), fields[i + 1..], f);
    } else {
      FlatMapConcat(fields, [Field(key, value)], f);
      FlatMapCons(Field(key, value), [], f);
    }
  }

  lemma SplitAt(fields: seq<Field>, i: nat, field: Field)
    requires i < |fields|
    ensures fields == fields[..i] + ([fields[i]] + fields[i + 1..])
    ensures fields[i := field] == fields[..i] + ([field] + fields[i + 1..])
  {
  }

  lemma FlatMapReplace(before: seq<Field>, a: Field, b: Field, after: seq<Field>, f: Field -> seq<Field>)
    requires f(a) == f(b)
    ensures FlatMap(before + ([a] + after), f) == FlatMap(before + ([b] + after), f)
  {
    FlatMapConcat(before, [a] + after, f);
    FlatMapConcat(before, [b] + after, f);
    FlatMapCons(a, after, f);
    FlatMapCons(b, after, f);
  }

  /** Setting a stamp key does not change what is left without the stamps. */
  lemma WithoutKeysAfterSet(fields: seq<Field>, key: string, value: Value, keys: set<string>)
    requires key in keys
    ensures WithoutKeys(SetField(fields, key, value), keys) == WithoutKeys(fields, keys)
  {
    FlatMapAfterSet(fields, key, value, (f: Field) => if f.key in keys then [] else [f]);
  }

  lemma {:induction false} ContentAfterRemove(fields: seq<Field>)
    ensures ContentOf(RemoveField(fields, "version")) == ContentOf(fields)
  {
    if fields != [] {
      var rest := RemoveField(fields[1..], "version");
      ContentAfterRemove(fields[1..]);
      if fields[0].key != "version" {
        FlatMapCons(fields[0], rest, FieldContent);
      }
    }
  }

  lemma MetadataContent(part: Value, version: string)
    requires part.Obj?
    ensures PartContent(StampMetadata(part, version), METADATA_STAMPS) == PartContent(part, METADATA_STAMPS)
  {
    WithoutKeysAfterSet(part.fields, "version", Str(version), METADATA_STAMPS);
  }

  lemma AppContent(part: Value, version: string, build: nat)
    requires part.Obj?
    ensures PartContent(StampApp(part, version, build), APP_STAMPS) == PartContent(part, APP_STAMPS)
  {
    WithoutKeysAfterSet(part.fields, "version", Str(version), APP_STAMPS);
    var second := StampMetadata(part, version);
    WithoutKeysAfterSet(second.fields, "buildNumber", Num(build as real), APP_STAMPS);
  }

  /** Stamping keeps the content of a manifest whose `metadata` and `app` are objects or falsy. */
  lemma StampKeepsContent(manifest: Value, version: string, build: nat)
    requires manifest.Obj? && PartIsObject(manifest, "metadata") && PartIsObject(manifest, "app")
    ensures Content(Stamp(manifest, version, build)) == Content(manifest)
  {
    var top, second := StampTop(manifest, version), StampSecond(manifest, version);
    FlatMapAfterSet(manifest.fields, "version", Str(version), FieldContent);
    GetAfterSet(manifest.fields, "version", Str(version), "metadata");
    GetAfterSet(manifest.fields, "version", Str(version), "app");
    if HasTruthy(manifest, "metadata") {
      var part := Get(manifest, "metadata").value;
      MetadataContent(part, version);
      FlatMapAfterSet(top.fields, "metadata", StampMetadata(part, version), FieldContent);
      GetAfterSet(top.fields, "metadata", StampMetadata(part, version), "app");
    }
    if HasTruthy(manifest, "app") {
      var part := Get(manifest, "app").value;
      AppContent(part, version, build);
      FlatMapAfterSet(second.fields, "app", StampApp(part, version, build), FieldContent);
    }
  }

  /** Only a truthy `metadata` or `app` that is not an object is changed by stamping. */
  lemma StampKeepsContentExactly(manifest: Value, version: string, build: nat)
    requires manifest.Obj?
    ensures Content(Stamp(manifest, version, build)) == Content(manifest)
       <==> PartIsObject(manifest, "metadata") && PartIsObject(manifest, "app")
  {
    if PartIsObject(manifest, "metadata") && PartIsObject(manifest, "app") {
      StampKeepsContent(manifest, version, build);
    } else if Content(Stamp(manifest, version, build)) == Content(manifest) {
      var key := if PartIsObject(manifest, "metadata") then "app" else "metadata";
      GetFromStamp(manifest, version, build, key);
      ContentTellsParts(manifest, Stamp(manifest, version, build), key);
      assert false;
    }
  }

  /** Equal contents have parts of the same kind. */
  lemma ContentTellsParts(a: Value, b: Value, key: string)
    requires a.Obj? && b.Obj? && Content(a) == Content(b) && key in {"metadata", "app"}
    requires Get(a, key).Some? && Get(b, key).Some?
    ensures Get(a, key).value.Obj? <==> Get(b, key).value.Obj?
  {
    GetFromContent(a.fields, key);
    GetFromContent(b.fields, key);
  }

  lemma {:induction false} GetFromContent(fields: seq<Field>, key: string)
    requires key in {"metadata", "app"}
    ensures Get(Obj(ContentOf(fields)), key)
         == match Get(Obj(fields), key)
            case None => None
            case Some(part) => Some(PartContent(part, if key == "app" then APP_STAMPS else METADATA_STAMPS))
  {
    if fields != [] {
      var rest := ContentOf(fields[1..]);
      var here := FieldContent(fields[0]);
      GetFromContent(fields[1..], key);
      GetFromCons(fields[0], fields[1..], key);
      assert [fields[0]] + fields[1..] == fields;
      if here == [] {
        assert here + rest == rest;
      } else {
        assert here == [here[0]] && here[0].key == fields[0].key;
        GetFromCons(here[0], rest, key);
      }
    }
  }

  lemma GetFromCons(head: Field, tail: seq<Field>, key: string)
    ensures Get(Obj([head] + tail), key) == if head.key == key then Some(head.value) else Get(Obj(tail), key)
  {
    IndexIs([head] + tail, key, if head.key == key then 0 else 1 + IndexOf(tail, key));
  }
}
