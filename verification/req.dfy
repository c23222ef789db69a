/** Request merging (`RequestProfile::generate`), the Content-Type lookup
    (`get_content_type`) and response normalisation (`ResponseExt::filter_text`
    and `filter_json`). */
module Req {
  import opened Wrappers
  import opened Errors
  import opened Strings
  import opened JsonValue
  import opened HeaderMap
  import opened Externals
  import Cli

  /** `header::CONTENT_TYPE`, as the lower-case name a `HeaderName` holds. */
  const ContentTypeName := "content-type"
  const JsonMime := "application/json"
  const FormMime := "application/x-www-form-urlencoded"
  const MultipartMime := "multipart/form-data"

  /** One side of a profile. `httpMethod` and `url` only matter to sending, which
      is not modelled; they are kept so the record has the program's shape. */
  datatype RequestProfile = RequestProfile(
    httpMethod: string,
    url: string,
    params: Option<Json>,
    headers: Headers,
    body: Option<Json>
  )

  datatype ResponseProfile = ResponseProfile(skipHeaders: seq<string>, skipBody: seq<string>)

  /** The request `generate` hands to the sender: headers, query and encoded body. */
  datatype Request = Request(headers: Headers, query: Json, body: string)

  datatype Version = Http09 | Http10 | Http11 | Http2 | Http3

  /** `http::StatusCode` holds a three-digit code. */
  type StatusCode = n: nat | 100 <= n <= 999 witness 200

  /** A received response: protocol version, status with its canonical reason
      phrase if the code has one, headers in iteration order, and the body
      text (awaiting the body is I/O and happens before this model starts). */
  datatype Response = Response(
    version: Version,
    status: StatusCode,
    reason: Option<string>,
    headers: Headers,
    text: string
  )

  // ---------------------------------------------------------------------------
  // get_content_type

  /** `get_content_type`: `None` without a Content-Type header; otherwise the
      first value up to its first `:` (not `;`, so parameters such as a
      charset stay in). `to_str().unwrap()` panics on a value that is not
      visible ASCII. */
  function ContentType(h: Headers): (r: Fallible<Option<string>>)
    ensures r == Success(None) <==> !Contains(h, ContentTypeName)
    ensures r.Failure? <==> Contains(h, ContentTypeName) && !IsVisibleAscii(Get(h, ContentTypeName).value)
    ensures r.Failure? ==> r.error == ContentTypeNotVisible
    ensures r.Success? && r.value.Some? ==>
              var v := Get(h, ContentTypeName).value;
              var t := r.value.value;
              && ':' !in t
              && |t| <= |v| && t == v[..|t|]
              && (|t| == |v| || v[|t|] == ':')
  {
    match Get(h, ContentTypeName)
    case None => Success(None)
    case Some(v) =>
      if IsVisibleAscii(v) then Success(Some(BeforeFirst(v, ':'))) else Failure(ContentTypeNotVisible)
  }

  /** The three media types `generate` knows are different strings. */
  lemma MediaTypesDistinct()
    ensures JsonMime != FormMime && JsonMime != MultipartMime && FormMime != MultipartMime
  {
    assert |JsonMime| == 16 && |FormMime| == 33 && |MultipartMime| == 19;
  }

  // ---------------------------------------------------------------------------
  // generate: header overrides

  /** A header override `HeaderName::from_str` and `HeaderValue::from_str` both accept. */
  predicate ValidHeaderOverride(ov: (string, string), lib: Lib) {
    lib.headerName(ov.0).Some? && lib.headerValue(ov.1)
  }

  /** The error the `?`s of one header-override insertion raise, name first. */
  function HeaderOverrideError(ov: (string, string), lib: Lib): Error {
    if lib.headerName(ov.0).None? then InvalidHeaderName(ov.0) else InvalidHeaderValue(ov.1)
  }

  /** The value of the last header override whose name parses to `name`. */
  function LastHeaderWrite(ovs: seq<(string, string)>, name: string, lib: Lib): Option<string> {
    if |ovs| == 0 then None
    else if lib.headerName(ovs[|ovs| - 1].0) == Some(name) then Some(ovs[|ovs| - 1].1)
    else LastHeaderWrite(ovs[..|ovs| - 1], name, lib)
  }

  /** The header-override loop of `generate`: each override's name and value
      are parsed (name first) and inserted into the header map. It succeeds exactly when every override is valid, failing on the first that
      is not; then each overridden name holds only its last override's value
      and every other name keeps the template's values. */
  function ApplyHeaderOverrides(h: Headers, ovs: seq<(string, string)>, lib: Lib): (r: Fallible<Headers>)
    ensures r.Success? <==> forall i :: 0 <= i < |ovs| ==> ValidHeaderOverride(ovs[i], lib)
    ensures r.Failure? ==> exists i :: (0 <= i < |ovs|
              && !ValidHeaderOverride(ovs[i], lib)
              && (forall j :: 0 <= j < i ==> ValidHeaderOverride(ovs[j], lib))
              && r.error == HeaderOverrideError(ovs[i], lib))
    ensures r.Success? ==> forall n :: LastHeaderWrite(ovs, n, lib).None? ==> ValuesOf(r.value, n) == ValuesOf(h, n)
    ensures r.Success? ==> forall n :: LastHeaderWrite(ovs, n, lib).Some? ==>
              ValuesOf(r.value, n) == [LastHeaderWrite(ovs, n, lib).value]
    decreases |ovs|
  {
    if |ovs| == 0 then Success(h)
    else
      var front := ovs[..|ovs| - 1];
      var (k, v) := ovs[|ovs| - 1];
      assert forall j :: 0 <= j < |front| ==> front[j] == ovs[j];
      var prev :- ApplyHeaderOverrides(h, front, lib);
      assert ValidHeaderOverride(ovs[|ovs| - 1], lib) ==> forall i :: 0 <= i < |ovs| ==> ValidHeaderOverride(ovs[i], lib);
      match lib.headerName(k)
      case None => Failure(InvalidHeaderName(k))
      case Some(name) =>
        if lib.headerValue(v) then Success(Insert(prev, name, v)) else Failure(InvalidHeaderValue(v))
  }

  /** The Content-Type default: `application/json` is added only when the
      headers carry no Content-Type; otherwise they are left as they are. */
  function WithDefaultContentType(h: Headers): (r: Headers)
    ensures Contains(r, ContentTypeName)
    ensures Contains(h, ContentTypeName) ==> r == h
    ensures !Contains(h, ContentTypeName) ==> r == h + [Entry(ContentTypeName, JsonMime)]
  {
    if Contains(h, ContentTypeName) then h else Insert(h, ContentTypeName, JsonMime)
  }

  /** The headers of the generated request: template, then overrides, then the default. */
  function MergeHeaders(p: RequestProfile, args: Cli.ExtraArgs, lib: Lib): Fallible<Headers> {
    var h :- ApplyHeaderOverrides(p.headers, args.headers, lib);
    Success(WithDefaultContentType(h))
  }

  // ---------------------------------------------------------------------------
  // generate: query and body overrides

  /** The raw value of the last override for `key`. */
  function LastWrite(ovs: seq<(string, string)>, key: string): Option<string> {
    if |ovs| == 0 then None
    else if ovs[|ovs| - 1].0 == key then Some(ovs[|ovs| - 1].1)
    else LastWrite(ovs[..|ovs| - 1], key)
  }

  /** `result` is `base` with the overrides `ovs` applied key by key: its keys
      are the base's keys plus the overridden ones, an overridden key holds the
      parse of its last value, and every other key keeps the base's value. */
  ghost predicate OverridesApplied(result: Json, base: Json, ovs: seq<(string, string)>, lib: Lib) {
    && (forall k :: k in FieldsOf(result) <==> k in FieldsOf(base) || LastWrite(ovs, k).Some?)
    && (forall k :: LastWrite(ovs, k).Some? ==>
          k in FieldsOf(result) && Some(FieldsOf(result)[k]) == lib.parseJson(LastWrite(ovs, k).value))
    && (forall k :: k in FieldsOf(base) && LastWrite(ovs, k).None? ==>
          k in FieldsOf(result) && FieldsOf(result)[k] == FieldsOf(base)[k])
  }

  /** The query- and body-override loops of `generate`: each value is parsed as
      JSON text (a value that is not JSON is an error, not a string) and then
      stored under its key, last write winning; keys nobody overrides keep
      their values. */
  function ApplyJsonOverrides(base: Json, ovs: seq<(string, string)>, lib: Lib): (r: Fallible<Json>)
    ensures |ovs| == 0 ==> r == Success(base)
    ensures r.Success? <==>
              && (|ovs| == 0 || base.Object? || base.Null?)
              && (forall i :: 0 <= i < |ovs| ==> lib.parseJson(ovs[i].1).Some?)
    ensures r.Failure? && (base.Object? || base.Null?) ==> exists i :: (0 <= i < |ovs|
              && lib.parseJson(ovs[i].1).None?
              && (forall j :: 0 <= j < i ==> lib.parseJson(ovs[j].1).Some?)
              && r.error == InvalidJson(ovs[i].1))
    ensures r.Success? && |ovs| > 0 ==> r.value.Object?
    ensures r.Success? ==> OverridesApplied(r.value, base, ovs, lib)
    decreases |ovs|
  {
    if |ovs| == 0 then Success(base)
    else
      var front := ovs[..|ovs| - 1];
      var (k, v) := ovs[|ovs| - 1];
      assert forall j :: 0 <= j < |front| ==> front[j] == ovs[j];
      assert forall key :: LastWrite(ovs, key) == (if key == k then Some(v) else LastWrite(front, key));
      var prev :- ApplyJsonOverrides(base, front, lib);
      assert lib.parseJson(v).Some? ==> forall i :: 0 <= i < |ovs| ==> lib.parseJson(ovs[i].1).Some?;
      match lib.parseJson(v)
      case None => Failure(InvalidJson(v))
      case Some(x) => SetKey(prev, k, x)
  }

  /** Where the query and the body start: the template's `params`, or `{}`. */
  function BaseOf(params: Option<Json>): Json {
    params.GetOr(Object(map[]))
  }

  // ---------------------------------------------------------------------------
  // generate

  /** The body encoding chosen by the (extracted) Content-Type. */
  function EncodeBody(contentType: Option<string>, body: Json, lib: Lib): Fallible<string> {
    if contentType == Some(JsonMime) then Success(lib.renderJson(body))
    else if contentType == Some(FormMime) || contentType == Some(MultipartMime) then
      match lib.encodeForm(body)
      case Some(t) => Success(t)
      case None => Failure(FormEncoding)
    else Failure(UnsupportedContentType)
  }

  /** `RequestProfile::generate`. Both the query and the body start from the
      template's `params`; the template's `body` is never read. */
  function Generate(p: RequestProfile, args: Cli.ExtraArgs, lib: Lib): (r: Fallible<Request>)
    ensures r.Success? ==> Contains(r.value.headers, ContentTypeName)
    ensures r.Success? ==>
              && ContentType(r.value.headers).Success?
              && ContentType(r.value.headers).value in {Some(JsonMime), Some(FormMime), Some(MultipartMime)}
  {
    var headers :- MergeHeaders(p, args, lib);
    var query :- ApplyJsonOverrides(BaseOf(p.params), args.query, lib);
    var body :- ApplyJsonOverrides(BaseOf(p.params), args.body, lib);
    Encode(headers, query, body, lib)
  }

  /** The last stage of `generate`: the body encoded as the Content-Type says. */
  function Encode(headers: Headers, query: Json, body: Json, lib: Lib): (r: Fallible<Request>)
    ensures r.Success? ==> r.value.headers == headers && r.value.query == query
    ensures r.Success? ==> ContentType(headers).Success? && ContentType(headers).value.Some?
    ensures r.Success? ==> ContentType(headers).value in {Some(JsonMime), Some(FormMime), Some(MultipartMime)}
    ensures r.Success? <==>
              && ContentType(headers).Success?
              && (|| ContentType(headers).value == Some(JsonMime)
                  || ((ContentType(headers).value == Some(FormMime) || ContentType(headers).value == Some(MultipartMime))
                      && lib.encodeForm(body).Some?))
    ensures ContentType(headers).Failure? ==> r == Failure(ContentTypeNotVisible)
  {
    MediaTypesDistinct();
    var contentType :- ContentType(headers);
    var text :- EncodeBody(contentType, body, lib);
    Success(Request(headers, query, text))
  }

  /** The body text matches the media type: JSON text for `application/json`,
      form encoding for the two form types. */
  lemma EncodeBodyText(headers: Headers, query: Json, body: Json, lib: Lib)
    requires Encode(headers, query, body, lib).Success?
    ensures var r := Encode(headers, query, body, lib).value;
            var ct := ContentType(headers).value;
            && (ct == Some(JsonMime) ==> r.body == lib.renderJson(body))
            && (ct == Some(FormMime) || ct == Some(MultipartMime) ==> lib.encodeForm(body) == Some(r.body))
  {
    MediaTypesDistinct();
  }

  /** Any other media type is refused. */
  lemma EncodeUnsupported(headers: Headers, query: Json, body: Json, lib: Lib, t: string)
    requires ContentType(headers) == Success(Some(t))
    requires t != JsonMime && t != FormMime && t != MultipartMime
    ensures Encode(headers, query, body, lib) == Failure(UnsupportedContentType)
  {
  }

  /** The stages of `Generate`, each of which succeeded when it did. */
  lemma GenerateSteps(p: RequestProfile, args: Cli.ExtraArgs, lib: Lib)
    requires Generate(p, args, lib).Success?
    ensures MergeHeaders(p, args, lib).Success?
    ensures ApplyHeaderOverrides(p.headers, args.headers, lib).Success?
    ensures MergeHeaders(p, args, lib).value
            == WithDefaultContentType(ApplyHeaderOverrides(p.headers, args.headers, lib).value)
    ensures Generate(p, args, lib).value.headers == MergeHeaders(p, args, lib).value
    ensures ApplyJsonOverrides(BaseOf(p.params), args.query, lib).Success?
    ensures Generate(p, args, lib).value.query == ApplyJsonOverrides(BaseOf(p.params), args.query, lib).value
    ensures ApplyJsonOverrides(BaseOf(p.params), args.body, lib).Success?
    ensures Generate(p, args, lib) == Encode(MergeHeaders(p, args, lib).value,
                                             ApplyJsonOverrides(BaseOf(p.params), args.query, lib).value,
                                             ApplyJsonOverrides(BaseOf(p.params), args.body, lib).value, lib)
  {
  }

  /** After merging, Content-Type holds the last header override for it if
      there is one, else the template's values if it has any, and only
      otherwise the `application/json` default. */
  lemma GenerateContentType(p: RequestProfile, args: Cli.ExtraArgs, lib: Lib)
    requires Generate(p, args, lib).Success?
    ensures var h := Generate(p, args, lib).value.headers;
            var write := LastHeaderWrite(args.headers, ContentTypeName, lib);
            && (write.Some? ==> ValuesOf(h, ContentTypeName) == [write.value])
            && (write.None? && Contains(p.headers, ContentTypeName) ==>
                  ValuesOf(h, ContentTypeName) == ValuesOf(p.headers, ContentTypeName))
            && (write.None? && !Contains(p.headers, ContentTypeName) ==>
                  ValuesOf(h, ContentTypeName) == [JsonMime])
  {
    GenerateSteps(p, args, lib);
    var h1 := ApplyHeaderOverrides(p.headers, args.headers, lib).value;
    var h := Generate(p, args, lib).value.headers;
    assert h == WithDefaultContentType(h1);
    if !Contains(h1, ContentTypeName) {
      assert ValuesOf(h, ContentTypeName) == [JsonMime];
    }
  }

  /** Every header name other than Content-Type ends up with the values the
      overrides and the template give it, nothing else. */
  lemma GenerateOtherHeaders(p: RequestProfile, args: Cli.ExtraArgs, lib: Lib, n: string)
    requires Generate(p, args, lib).Success?
    requires n != ContentTypeName
    ensures var h := Generate(p, args, lib).value.headers;
            var write := LastHeaderWrite(args.headers, n, lib);
            && (write.Some? ==> ValuesOf(h, n) == [write.value])
            && (write.None? ==> ValuesOf(h, n) == ValuesOf(p.headers, n))
  {
    GenerateSteps(p, args, lib);
  }

  /** The query sent starts from the template's `params`, or `{}` when there
      are none, and each query override sets its key, the last one winning;
      every other key keeps its value. */
  lemma GenerateQuery(p: RequestProfile, args: Cli.ExtraArgs, lib: Lib)
    requires Generate(p, args, lib).Success?
    ensures var base := p.params.GetOr(Object(map[]));
            var q := Generate(p, args, lib).value.query;
            && OverridesApplied(q, base, args.query, lib)
            && (|args.query| == 0 ==> q == base)
            && (|args.query| > 0 ==> q.Object?)
  {
    GenerateSteps(p, args, lib);
  }

  /** The body sent is a JSON value built the same way from the template's
      `params` (or `{}`) and the body overrides, written as JSON text for
      `application/json` and form-encoded for the two form types. */
  lemma GenerateBody(p: RequestProfile, args: Cli.ExtraArgs, lib: Lib)
    requires Generate(p, args, lib).Success?
    ensures var base := p.params.GetOr(Object(map[]));
            var r := Generate(p, args, lib).value;
            var ct := ContentType(r.headers).value;
            exists b: Json ::
              && OverridesApplied(b, base, args.body, lib)
              && (|args.body| == 0 ==> b == base)
              && (ct == Some(JsonMime) ==> r.body == lib.renderJson(b))
              && (ct == Some(FormMime) || ct == Some(MultipartMime) ==> lib.encodeForm(b) == Some(r.body))
  {
    GenerateSteps(p, args, lib);
    var r := Generate(p, args, lib).value;
    var b := ApplyJsonOverrides(BaseOf(p.params), args.body, lib).value;
    EncodeBodyText(r.headers, r.query, b, lib);
    assert OverridesApplied(b, BaseOf(p.params), args.body, lib);
  }

  /** An invalid header override is reported before anything else is looked
      at: the first one's error is `generate`'s error. */
  lemma GenerateHeaderError(p: RequestProfile, args: Cli.ExtraArgs, lib: Lib, i: nat)
    requires i < |args.headers| && !ValidHeaderOverride(args.headers[i], lib)
    requires forall j :: 0 <= j < i ==> ValidHeaderOverride(args.headers[j], lib)
    ensures Generate(p, args, lib) == Failure(HeaderOverrideError(args.headers[i], lib))
  {
    var r := ApplyHeaderOverrides(p.headers, args.headers, lib);
    var k :| 0 <= k < |args.headers| && !ValidHeaderOverride(args.headers[k], lib)
             && (forall j :: 0 <= j < k ==> ValidHeaderOverride(args.headers[j], lib))
             && r.error == HeaderOverrideError(args.headers[k], lib);
    assert k == i;
  }

  /** With every header override valid, the first query override that is not
      JSON text is `generate`'s error, before any body override is parsed. */
  lemma GenerateQueryError(p: RequestProfile, args: Cli.ExtraArgs, lib: Lib, i: nat)
    requires forall j :: 0 <= j < |args.headers| ==> ValidHeaderOverride(args.headers[j], lib)
    requires BaseOf(p.params).Object? || BaseOf(p.params).Null?
    requires i < |args.query| && lib.parseJson(args.query[i].1).None?
    requires forall j :: 0 <= j < i ==> lib.parseJson(args.query[j].1).Some?
    ensures Generate(p, args, lib) == Failure(InvalidJson(args.query[i].1))
  {
    var r := ApplyJsonOverrides(BaseOf(p.params), args.query, lib);
    var k :| 0 <= k < |args.query| && lib.parseJson(args.query[k].1).None?
             && (forall j :: 0 <= j < k ==> lib.parseJson(args.query[j].1).Some?)
             && r.error == InvalidJson(args.query[k].1);
    assert k == i;
  }

  /** With the headers and the query merged, the first body override that is
      not JSON text is `generate`'s error. */
  lemma GenerateBodyError(p: RequestProfile, args: Cli.ExtraArgs, lib: Lib, i: nat)
    requires forall j :: 0 <= j < |args.headers| ==> ValidHeaderOverride(args.headers[j], lib)
    requires BaseOf(p.params).Object? || BaseOf(p.params).Null?
    requires forall j :: 0 <= j < |args.query| ==> lib.parseJson(args.query[j].1).Some?
    requires i < |args.body| && lib.parseJson(args.body[i].1).None?
    requires forall j :: 0 <= j < i ==> lib.parseJson(args.body[j].1).Some?
    ensures Generate(p, args, lib) == Failure(InvalidJson(args.body[i].1))
  {
    var r := ApplyJsonOverrides(BaseOf(p.params), args.body, lib);
    var k :| 0 <= k < |args.body| && lib.parseJson(args.body[k].1).None?
             && (forall j :: 0 <= j < k ==> lib.parseJson(args.body[j].1).Some?)
             && r.error == InvalidJson(args.body[k].1);
    assert k == i;
  }

  /** No header override names `name` exactly when none writes it last. */
  lemma {:induction false} NoHeaderWrite(ovs: seq<(string, string)>, name: string, lib: Lib)
    requires forall j :: 0 <= j < |ovs| ==> lib.headerName(ovs[j].0) != Some(name)
    ensures LastHeaderWrite(ovs, name, lib).None?
    decreases |ovs|
  {
    if |ovs| > 0 {
      var front := ovs[..|ovs| - 1];
      assert forall j :: 0 <= j < |front| ==> front[j] == ovs[j];
      NoHeaderWrite(front, name, lib);
    }
  }

  /** The default Content-Type is extracted as `application/json`. */
  lemma DefaultIsJson(h: Headers)
    requires !Contains(h, ContentTypeName)
    ensures ValuesOf(WithDefaultContentType(h), ContentTypeName) == [JsonMime]
    ensures ContentType(WithDefaultContentType(h)) == Success(Some(JsonMime))
  {
    var d := WithDefaultContentType(h);
    assert ValuesOf(d, ContentTypeName) == [JsonMime];
    assert Get(d, ContentTypeName) == Some(JsonMime);
    VisibleAsciiConcat("application", "/json");
    assert JsonMime == "application" + "/json";
    assert ':' !in JsonMime;
    assert BeforeFirst(JsonMime, ':') == JsonMime;
  }

  /** The usual case: valid header overrides, no Content-Type anywhere, a
      template `params` that is an object (or absent) and overrides that are
      all JSON text. Then `generate` succeeds, adds `content-type:
      application/json`, and sends the merged body as JSON text. */
  lemma GenerateDefault(p: RequestProfile, args: Cli.ExtraArgs, lib: Lib)
    requires forall j :: 0 <= j < |args.headers| ==> ValidHeaderOverride(args.headers[j], lib)
    requires forall j :: 0 <= j < |args.headers| ==> lib.headerName(args.headers[j].0) != Some(ContentTypeName)
    requires !Contains(p.headers, ContentTypeName)
    requires BaseOf(p.params).Object? || BaseOf(p.params).Null?
    requires forall j :: 0 <= j < |args.query| ==> lib.parseJson(args.query[j].1).Some?
    requires forall j :: 0 <= j < |args.body| ==> lib.parseJson(args.body[j].1).Some?
    ensures Generate(p, args, lib).Success?
    ensures ValuesOf(Generate(p, args, lib).value.headers, ContentTypeName) == [JsonMime]
    ensures Generate(p, args, lib).value.body
            == lib.renderJson(ApplyJsonOverrides(BaseOf(p.params), args.body, lib).value)
  {
    NoHeaderWrite(args.headers, ContentTypeName, lib);
    var h1 := ApplyHeaderOverrides(p.headers, args.headers, lib).value;
    assert !Contains(h1, ContentTypeName);
    var h := WithDefaultContentType(h1);
    assert MergeHeaders(p, args, lib) == Success(h);
    DefaultIsJson(h1);
    var q := ApplyJsonOverrides(BaseOf(p.params), args.query, lib).value;
    var b := ApplyJsonOverrides(BaseOf(p.params), args.body, lib).value;
    assert Generate(p, args, lib) == Encode(h, q, b, lib);
    assert Encode(h, q, b, lib) == Success(Request(h, q, lib.renderJson(b)));
  }

  /** Once headers, query and body have merged, a Content-Type other than the
      JSON and the two form types is refused. */
  lemma GenerateUnsupported(p: RequestProfile, args: Cli.ExtraArgs, lib: Lib, t: string)
    requires MergeHeaders(p, args, lib).Success?
    requires ContentType(MergeHeaders(p, args, lib).value) == Success(Some(t))
    requires t != JsonMime && t != FormMime && t != MultipartMime
    requires ApplyJsonOverrides(BaseOf(p.params), args.query, lib).Success?
    requires ApplyJsonOverrides(BaseOf(p.params), args.body, lib).Success?
    ensures Generate(p, args, lib) == Failure(UnsupportedContentType)
  {
  }

  /** The template's `body` has no influence on the generated request: the
      body starts from `params`. */
  lemma GenerateIgnoresTemplateBody(p: RequestProfile, body: Option<Json>, args: Cli.ExtraArgs, lib: Lib)
    ensures Generate(p.(body := body), args, lib) == Generate(p, args, lib)
  {
  }

  // ---------------------------------------------------------------------------
  // filter_json

  /** `filter_json`: parse the text, remove the listed top-level keys from the
      object, pretty-print. Unparsable text is an error and a value other than
      an object a panic (`todo!()`). */
  function FilterJson(text: string, skip: seq<string>, lib: Lib): (r: Fallible<string>)
    ensures lib.parseJson(text).None? ==> r == Failure(InvalidJson(text))
    ensures lib.parseJson(text).Some? && !lib.parseJson(text).value.Object? ==> r == Failure(NotAnObject)
    ensures r.Success? <==> lib.parseJson(text).Some? && lib.parseJson(text).value.Object?
  {
    match lib.parseJson(text)
    case None => Failure(InvalidJson(text))
    case Some(Object(fields)) => Success(lib.renderPretty(Object(Strip(fields, skip))))
    case Some(_) => Failure(NotAnObject)
  }

  /** The filtered text reads back as the object without the listed keys;
      every other top-level key keeps its value, nested objects included,
      whatever keys they contain. */
  lemma FilterJsonOutput(text: string, skip: seq<string>, lib: Lib)
    requires PrettyRoundTripsParsed(lib)
    requires FilterJson(text, skip, lib).Success?
    ensures var original := lib.parseJson(text).value.fields;
            var out := lib.parseJson(FilterJson(text, skip, lib).value);
            && out.Some? && out.value.Object?
            && (forall k :: k in skip ==> k !in out.value.fields)
            && (forall k :: k in original && k !in skip ==> k in out.value.fields && out.value.fields[k] == original[k])
            && (forall k :: k in out.value.fields ==> k in original)
  {
    var fields := lib.parseJson(text).value.fields;
    assert lib.parseJson(lib.renderPretty(Object(Strip(fields, skip)))) == Some(Object(Strip(fields, skip)));
  }

  /** Filtering already-filtered text with the same list changes nothing. */
  lemma FilterJsonIdempotent(text: string, skip: seq<string>, lib: Lib)
    requires PrettyRoundTripsParsed(lib)
    requires FilterJson(text, skip, lib).Success?
    ensures FilterJson(FilterJson(text, skip, lib).value, skip, lib) == FilterJson(text, skip, lib)
  {
    var fields := lib.parseJson(text).value.fields;
    var once := Object(Strip(fields, skip));
    assert lib.parseJson(lib.renderPretty(once)) == Some(once);
    StripIdempotent(fields, skip);
  }

  // ---------------------------------------------------------------------------
  // filter_text

  /** `Debug` of `http::Version`. */
  function VersionText(v: Version): string {
    match v
    case Http09 => "HTTP/0.9"
    case Http10 => "HTTP/1.0"
    case Http11 => "HTTP/1.1"
    case Http2 => "HTTP/2.0"
    case Http3 => "HTTP/3.0"
  }

  /** `format!("{:?} {}", version, status)`; `Display` of a status code without
      a canonical reason writes `<unknown status code>`. */
  function StatusLine(resp: Response): string {
    VersionText(resp.version) + " " + NatToString(resp.status) + " " + resp.reason.GetOr("<unknown status code>")
  }

  /** One rendered header: `name: value` ended by a carriage return. */
  function Line(e: Entry): string {
    e.name + ": " + e.value + "\r"
  }

  function Lines(h: Headers): string {
    if |h| == 0 then "" else Line(h[0]) + Lines(h[1..])
  }

  /** The headers whose name is not listed, in order. Names are compared as
      rendered (lower case) with the listed strings, exactly. */
  function Kept(h: Headers, skip: seq<string>): (r: Headers)
    ensures forall i :: 0 <= i < |r| ==> r[i].name !in skip && r[i] in h
    ensures forall e :: e in h && e.name !in skip ==> e in r
    ensures |r| <= |h|
  {
    if |h| == 0 then []
    else (if h[0].name in skip then [] else [h[0]]) + Kept(h[1..], skip)
  }

  /** Keeping distributes over concatenation: the kept headers of a list are
      the kept headers of its parts, in the same order. */
  lemma {:induction false} KeptAppend(a: Headers, b: Headers, skip: seq<string>)
    ensures Kept(a + b, skip) == Kept(a, skip) + Kept(b, skip)
  {
    if |a| > 0 {
      assert (a + b)[1..] == a[1..] + b;
      KeptAppend(a[1..], b, skip);
    } else {
      assert a + b == b;
    }
  }

  /** One header is kept exactly when its name is not listed. */
  lemma KeptSingle(e: Entry, skip: seq<string>)
    ensures Kept([e], skip) == (if e.name in skip then [] else [e])
  {
    assert [e][1..] == [];
  }

  /** The header loop of `filter_text`: every header not skipped is rendered,
      in order; one whose value is not visible ASCII stops it (`to_str()?`). */
  function RenderHeaders(h: Headers, skip: seq<string>): (r: Fallible<string>)
    ensures r.Success? <==> forall i :: 0 <= i < |h| && h[i].name !in skip ==> IsVisibleAscii(h[i].value)
    ensures r.Success? ==> r.value == Lines(Kept(h, skip))
    ensures r.Failure? ==> exists i :: (0 <= i < |h| && h[i].name !in skip
              && !IsVisibleAscii(h[i].value) && r.error == NonVisibleHeaderValue(h[i].name))
  {
    if |h| == 0 then Success("")
    else
      assert forall j :: 1 <= j < |h| ==> h[1..][j - 1] == h[j];
      if h[0].name in skip then
        assert Kept(h, skip) == Kept(h[1..], skip);
        RenderHeaders(h[1..], skip)
      else if !IsVisibleAscii(h[0].value) then Failure(NonVisibleHeaderValue(h[0].name))
      else
        var rest :- RenderHeaders(h[1..], skip);
        Success(Line(h[0]) + rest)
  }

  /** Everything `filter_text` writes before the body. */
  function Preamble(resp: Response, profile: ResponseProfile): string {
    StatusLine(resp) + "\r" + Lines(Kept(resp.headers, profile.skipHeaders)) + "\n"
  }

  /** `ResponseExt::filter_text` once the body text is in hand. */
  function FilterText(resp: Response, profile: ResponseProfile, lib: Lib): (r: Fallible<string>)
    ensures r.Success? <==>
              && RenderHeaders(resp.headers, profile.skipHeaders).Success?
              && ContentType(resp.headers).Success?
              && (ContentType(resp.headers).value == Some(JsonMime) ==>
                    FilterJson(resp.text, profile.skipBody, lib).Success?)
    ensures RenderHeaders(resp.headers, profile.skipHeaders).Failure? ==>
              r == Failure(RenderHeaders(resp.headers, profile.skipHeaders).error)
    ensures RenderHeaders(resp.headers, profile.skipHeaders).Success? && ContentType(resp.headers).Failure? ==>
              r == Failure(ContentTypeNotVisible)
    ensures && RenderHeaders(resp.headers, profile.skipHeaders).Success?
            && ContentType(resp.headers) == Success(Some(JsonMime))
            && FilterJson(resp.text, profile.skipBody, lib).Failure? ==>
              r == Failure(FilterJson(resp.text, profile.skipBody, lib).error)
  {
    var headerLines :- RenderHeaders(resp.headers, profile.skipHeaders);
    var contentType :- ContentType(resp.headers);
    var body :- if contentType == Some(JsonMime) then FilterJson(resp.text, profile.skipBody, lib) else Success(resp.text);
    Success(StatusLine(resp) + "\r" + headerLines + "\n" + body)
  }

  /** The normalised text is the status line, the headers not skipped (in
      order, each `name: value` ended by `\r`) and a `\n`, followed by the
      filtered body when the Content-Type is exactly `application/json` and
      by the body verbatim otherwise. */
  lemma FilterTextLayout(resp: Response, profile: ResponseProfile, lib: Lib)
    requires FilterText(resp, profile, lib).Success?
    ensures var out := FilterText(resp, profile, lib).value;
            var head := Preamble(resp, profile);
            && |head| <= |out| && out[..|head|] == head
            && (ContentType(resp.headers).value == Some(JsonMime) ==>
                  out[|head|..] == FilterJson(resp.text, profile.skipBody, lib).value)
            && (ContentType(resp.headers).value != Some(JsonMime) ==> out[|head|..] == resp.text)
  {
    var out := FilterText(resp, profile, lib).value;
    var head := Preamble(resp, profile);
    var body := if ContentType(resp.headers).value == Some(JsonMime)
                then FilterJson(resp.text, profile.skipBody, lib).value else resp.text;
    assert out == head + body;
  }

  /** A JSON response body, once normalised, holds exactly the top-level keys
      of the received body that are not skipped. Only the keys are assumed
      to survive printing and parsing again, so floating-point read-back does
      not matter here. */
  lemma FilterTextSkipsBodyKeys(resp: Response, profile: ResponseProfile, lib: Lib)
    requires PrettyKeepsKeys(lib)
    requires FilterText(resp, profile, lib).Success?
    requires ContentType(resp.headers).value == Some(JsonMime)
    ensures var out := FilterText(resp, profile, lib).value;
            var body := lib.parseJson(out[|Preamble(resp, profile)|..]);
            var original := lib.parseJson(resp.text).value.fields;
            && body.Some? && body.value.Object?
            && (forall k :: k in profile.skipBody ==> k !in body.value.fields)
            && (forall k :: k in body.value.fields <==> k in original && k !in profile.skipBody)
  {
    FilterTextLayout(resp, profile, lib);
    var fields := lib.parseJson(resp.text).value.fields;
    var kept := Strip(fields, profile.skipBody);
    assert SubObject(kept, fields);
    assert FilterJson(resp.text, profile.skipBody, lib).value == lib.renderPretty(Object(kept));
  }

  /** `application/json; charset=utf-8` holds no `:`, so it is extracted whole. */
  lemma CharsetContentType(h: Headers)
    requires Get(h, ContentTypeName) == Some("application/json; charset=utf-8")
    ensures ContentType(h) == Success(Some("application/json; charset=utf-8"))
  {
    CharsetText();
    var v := "application/json; charset=utf-8";
    assert BeforeFirst(v, ':') == v;
  }

  /** The charset Content-Type is visible ASCII and holds no `:`. */
  lemma CharsetText()
    ensures IsVisibleAscii("application/json; charset=utf-8")
    ensures ':' !in "application/json; charset=utf-8"
  {
    var a, b, c, d := "application", "/json", "; charset", "=utf-8";
    assert "application/json; charset=utf-8" == a + b + c + d;
    VisibleAsciiConcat(a, b);
    VisibleAsciiConcat(a + b, c);
    VisibleAsciiConcat(a + b + c, d);
    assert ':' !in a && ':' !in b && ':' !in c && ':' !in d;
  }

  /** A Content-Type with a parameter, such as a charset, is not
      `application/json`: the body is passed through unfiltered. */
  lemma CharsetBodyVerbatim(resp: Response, profile: ResponseProfile, lib: Lib)
    requires Get(resp.headers, ContentTypeName) == Some("application/json; charset=utf-8")
    requires FilterText(resp, profile, lib).Success?
    ensures var out := FilterText(resp, profile, lib).value;
            out[|Preamble(resp, profile)|..] == resp.text
  {
    FilterTextLayout(resp, profile, lib);
    CharsetContentType(resp.headers);
    assert |"application/json; charset=utf-8"| != |JsonMime|;
  }
}
