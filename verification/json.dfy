/** The JSON values of serde_json (`serde_json::Value`) and the two edits the
    core makes to them: removing top-level keys and `value[key] = v`. */
module JsonValue {
  import opened Errors
  import opened Wrappers

  /** serde_json's default object map is a `BTreeMap`, so an object is a map
      from keys to values; key order is the renderer's business. A number is
      carried as text; which texts the parser accepts as numbers, and how the
      printer writes them, is left to the parser and printer parameters. */
  datatype Json =
    | Null
    | Bool(b: bool)
    | Number(literal: string)
    | Str(s: string)
    | Array(items: seq<Json>)
    | Object(fields: map<string, Json>)

  /** The fields of an object; no fields for anything else. */
  function FieldsOf(j: Json): map<string, Json> {
    if j.Object? then j.fields else map[]
  }

  /** The key-removal loop of `filter_json`: each listed key is removed from
      the object in turn. */
  function Strip(fields: map<string, Json>, skip: seq<string>): (r: map<string, Json>)
    ensures forall k :: k in r <==> k in fields && k !in skip
    ensures forall k :: k in r ==> r[k] == fields[k]
    decreases |skip|
  {
    if |skip| == 0 then fields else Strip(fields - {skip[0]}, skip[1..])
  }

  /** Stripping the same keys a second time changes nothing. */
  lemma StripIdempotent(fields: map<string, Json>, skip: seq<string>)
    ensures Strip(Strip(fields, skip), skip) == Strip(fields, skip)
  {
  }

  /** Only the top level is stripped: a nested object keeps a key of the
      same name as a skipped one. */
  lemma StripKeepsNested(inner: map<string, Json>, key: string, other: string)
    requires key != other && key in inner
    ensures var fields := map[key := Null, other := Object(inner)];
            Strip(fields, [key]) == map[other := Object(inner)]
            && key in Strip(fields, [key])[other].fields
  {
    var fields := map[key := Null, other := Object(inner)];
    assert Strip(fields, [key]).Keys == {other};
  }

  /** `IndexMut<&str> for Value` followed by assignment: an object gets `key`
      set (inserted or replaced); `null` first becomes an empty object; any
      other value panics. */
  function SetKey(j: Json, key: string, v: Json): (r: Fallible<Json>)
    ensures r.Success? <==> j.Object? || j.Null?
    ensures r.Failure? ==> r.error == NotIndexable(key)
    ensures r.Success? ==> r.value.Object? && key in r.value.fields && r.value.fields[key] == v
    ensures r.Success? ==> forall k :: k != key ==>
              (k in r.value.fields <==> k in FieldsOf(j))
              && (k in r.value.fields ==> r.value.fields[k] == FieldsOf(j)[k])
  {
    match j
    case Object(fields) => Success(Object(fields[key := v]))
    case Null => Success(Object(map[key := v]))
    case _ => Failure(NotIndexable(key))
  }
}
