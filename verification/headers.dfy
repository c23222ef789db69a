/** `http::HeaderMap` as the core sees it: the entries in iteration order.
    Names are `HeaderName`s, already validated and lower-cased, so comparing
    names is comparing strings. */
module HeaderMap {
  import opened Wrappers

  datatype Entry = Entry(name: string, value: string)

  type Headers = seq<Entry>

  /** `get_all(name)`: the values stored under `name`, in order. */
  function ValuesOf(h: Headers, name: string): seq<string> {
    if |h| == 0 then []
    else (if h[0].name == name then [h[0].value] else []) + ValuesOf(h[1..], name)
  }

  /** `contains_key(name)`. */
  predicate Contains(h: Headers, name: string) {
    |ValuesOf(h, name)| > 0
  }

  /** `get(name)`: the first value stored under `name`. */
  function Get(h: Headers, name: string): Option<string> {
    if Contains(h, name) then Some(ValuesOf(h, name)[0]) else None
  }

  /** `Contains` holds exactly when some entry carries the name. */
  lemma {:induction false} ContainsEntry(h: Headers, name: string)
    ensures Contains(h, name) <==> exists i :: 0 <= i < |h| && h[i].name == name
  {
    if |h| > 0 {
      ContainsEntry(h[1..], name);
      if h[0].name != name {
        assert forall i :: 1 <= i < |h| ==> h[i] == h[1..][i - 1];
      }
    }
  }

  /** Every entry named `name` dropped, the rest kept in order. */
  function RemoveName(h: Headers, name: string): (r: Headers)
    ensures ValuesOf(r, name) == []
    ensures forall n :: n != name ==> ValuesOf(r, n) == ValuesOf(h, n)
    ensures |r| <= |h|
  {
    if |h| == 0 then []
    else if h[0].name == name then RemoveName(h[1..], name)
    else [h[0]] + RemoveName(h[1..], name)
  }

  /** `insert(name, value)`: when the name is present its first entry takes
      the new value in place (see `InsertInPlace`) and all later entries of that name go; otherwise
      the entry is appended. */
  function Insert(h: Headers, name: string, value: string): (r: Headers)
    ensures ValuesOf(r, name) == [value]
    ensures forall n :: n != name ==> ValuesOf(r, n) == ValuesOf(h, n)
    ensures !Contains(h, name) ==> r == h + [Entry(name, value)]
    ensures Contains(h, name) ==> |r| <= |h|
  {
    if |h| == 0 then [Entry(name, value)]
    else if h[0].name == name then [Entry(name, value)] + RemoveName(h[1..], name)
    else [h[0]] + Insert(h[1..], name, value)
  }

  /** When `name` first occurs at position `i`, inserting it keeps the
      entries before `i` and puts the new value at `i`. */
  lemma {:induction false} InsertInPlace(h: Headers, name: string, value: string, i: nat)
    requires i < |h| && h[i].name == name
    requires forall j :: 0 <= j < i ==> h[j].name != name
    ensures i < |Insert(h, name, value)|
    ensures Insert(h, name, value)[..i] == h[..i]
    ensures Insert(h, name, value)[i] == Entry(name, value)
  {
    if i > 0 {
      InsertInPlace(h[1..], name, value, i - 1);
      var r := Insert(h, name, value);
      assert r == [h[0]] + Insert(h[1..], name, value);
      assert r[..i] == [h[0]] + Insert(h[1..], name, value)[..i - 1];
      assert h[..i] == [h[0]] + h[1..][..i - 1];
    }
  }
}
