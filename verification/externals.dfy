/** Behaviour of the third-party crates the core calls, taken as parameters:
    nothing in this model depends on how they work inside, only on what they
    return. */
module Externals {
  import opened Wrappers
  import opened JsonValue

  datatype Lib = Lib(
    /** `serde_json::from_str` and `str::parse::<serde_json::Value>`. */
    parseJson: string -> Option<Json>,
    /** `serde_json::to_string`. */
    renderJson: Json -> string,
    /** `serde_json::to_string_pretty`. */
    renderPretty: Json -> string,
    /** `serde_urlencoded::to_string`; `None` where it returns an error. */
    encodeForm: Json -> Option<string>,
    /** `HeaderName::from_str`: the validated, lower-cased name, or `None`. */
    headerName: string -> Option<string>,
    /** `HeaderValue::from_str` accepts the text. */
    headerValue: string -> bool
  )

  /** `m` is part of the object `fields`: some of its keys, with their values. */
  predicate SubObject(m: map<string, Json>, fields: map<string, Json>) {
    m.Keys <= fields.Keys && forall k :: k in m ==> m[k] == fields[k]
  }

  /** Pretty-printing an object cut out of a parsed object and parsing the
      text again gives that object back. This is asked only of values the
      parser itself produced (and parts of them), never of arbitrary `Json`
      values the real library could not produce. */
  ghost predicate PrettyRoundTripsParsed(lib: Lib) {
    forall t, m ::
      lib.parseJson(t).Some? && lib.parseJson(t).value.Object?
      && SubObject(m, lib.parseJson(t).value.fields)
      ==> lib.parseJson(lib.renderPretty(Object(m))) == Some(Object(m))
  }

  /** The weaker assumption that pretty-printing such an object and parsing
      the text again gives an object with the same keys. Key strings are
      written and read back exactly, whatever happens to numbers inside. */
  ghost predicate PrettyKeepsKeys(lib: Lib) {
    forall t, m ::
      lib.parseJson(t).Some? && lib.parseJson(t).value.Object?
      && SubObject(m, lib.parseJson(t).value.fields)
      ==> && lib.parseJson(lib.renderPretty(Object(m))).Some?
          && lib.parseJson(lib.renderPretty(Object(m))).value.Object?
          && lib.parseJson(lib.renderPretty(Object(m))).value.fields.Keys == m.Keys
  }

  /** An exact round trip keeps the keys in particular. */
  lemma RoundTripKeepsKeys(lib: Lib)
    requires PrettyRoundTripsParsed(lib)
    ensures PrettyKeepsKeys(lib)
  {
  }
}
