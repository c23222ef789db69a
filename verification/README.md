# xdiff core in Dafny

xdiff compares the responses of two HTTP endpoints described by a named
profile. This project models its two pure pieces:

- **Override tokens** (`src/cli.rs`). `parse_key_val` turns a `-e KEY=VALUE` token
  into a `KeyVal`. A leading `%` marks a header, `@` a body field, and an ASCII
  letter a query parameter. `From<Vec<KeyVal>> for ExtraArgs` sorts the
  overrides into three ordered lists.
- **Request merging and response normalisation** (`src/req.rs`).
  `RequestProfile::generate` merges the overrides into a request template and
  encodes the body. `get_content_type` extracts the media type.
  `ResponseExt::filter_text` renders a response as text: the status line, the
  headers not skipped, and the body (`filter_json` strips skipped top-level keys
  from a JSON body).

Files:
- `wrappers.dfy`: `Option` and `Result`.
- `errors.dfy`: the failure taxonomy.
- `strings.dfy`: `trim`, `splitn(2, c)`, `split(c).next()`, whitespace and the
  visible-ASCII test.
- `json.dfy`: `serde_json::Value`, key removal and `value[key] = v`.
- `externals.dfy`: the crates the core calls, as a record of functions.
- `headers.dfy`: `HeaderMap` as an ordered list of entries.
- `cli.dfy`: override tokens and `ExtraArgs`.
- `req.dfy`: `generate`, `get_content_type`, `filter_json` and `filter_text`.

Behaviour follows the code as written, including these points:
- The body of a generated request starts from the template's `params`, not its
  `body` (`GenerateIgnoresTemplateBody`).
- `get_content_type` cuts the value at the first `:`, not `;`. So
  `application/json; charset=utf-8` is not treated as JSON and the body passes
  through unfiltered (`CharsetBodyVerbatim`).
- Override values are parsed as JSON text. A value that is not JSON is an
  error, not a string.
- Skipped header names are compared with the rendered (lower-case) header name
  by exact string equality.
- Three panics are modelled as failures: the `todo!()` on a non-object JSON body,
  `value[key] = …` on a value that is neither an object nor null, and the
  `unwrap()` in `get_content_type` on a value that is not visible ASCII.
- Each override loop stops at the first failing override. The model's error
  is that override's error. Within one override the value is parsed before the
  key is indexed, because Rust evaluates the right side of `=` first.

Library behaviour is a parameter (`Externals.Lib`):
- serde_json parsing, `to_string` and `to_string_pretty`;
- serde_urlencoded;
- `HeaderName::from_str` (validate and lower-case);
- `HeaderValue::from_str`.

Some properties depend on the pretty-printer reading back as the value it
printed. Those lemmas require `PrettyRoundTripsParsed`. It asks this only of
objects cut out of an object the parser produced, never of arbitrary `Json`
values. `FilterTextSkipsBodyKeys` needs less: `PrettyKeepsKeys` asks only that
the keys survive, which `PrettyRoundTripsParsed` implies (`RoundTripKeepsKeys`). `Debug` of `http::Version` and
`Display` of `StatusCode` (the number in decimal, then the reason phrase or
`<unknown status code>`) are written out concretely for the status line.
`HeaderValue::to_str` is modelled concretely: visible ASCII or tab. So is `str::trim`, which cuts
Unicode `White_Space` characters.

## Model

| member | source | states |
|---|---|---|
| Strings.Trim | src/cli.rs:55-58 | the result is the infix of the input that neither starts nor ends with whitespace, with only whitespace cut away on either side |
| Strings.SplitOnce | src/cli.rs:54 | `splitn(2, c)` has no second piece exactly when `c` is absent; otherwise the input is first piece + `c` + second piece and the first piece holds no `c` |
| Strings.SplitOnceAtFirst | src/cli.rs:54 | only the first `c` splits: for `a` free of `c`, `a + c + b` splits into `a` and `b`, whatever `b` holds |
| Strings.BeforeFirst | src/req.rs:136 | `split(c).next()` is the longest prefix free of `c`: it is followed by `c` or is the whole string |
| Cli.ParseKeyVal | src/cli.rs:53-75 | a token without `=` is refused; every refusal carries the token; every accepted override has a trimmed value, an `=`-free key not ending in whitespace, and a query key starting with an ASCII letter |
| Cli.ParseKeyValCases | src/cli.rs:54-68 | for a token `a=b` with `a` free of `=`: key and value are the trimmed sides; `%` gives Header and `@` gives Body, each with that one character removed; an ASCII letter gives Query with the key unchanged; an empty key or any other first character is refused |
| Cli.ParseFormat | src/cli.rs:53-75 | a well-formed override written back as `sigil key=value` parses to itself |
| Cli.ParseCanonical | src/cli.rs:53-75 | whatever is accepted round-trips through its canonical token |
| Cli.FromKeyVals | src/cli.rs:77-95 | the headers, query and body lists are exactly the overrides of each type, as (key, value) pairs, in input order |
| Cli.SelectLengths | src/cli.rs:82-88 | the three list lengths sum to the number of overrides |
| Cli.SelectPosition | src/cli.rs:82-88 | each override appears in the list of its own type, at the position counted by the same-type overrides before it |
| Cli.RankMonotone | src/cli.rs:82-88 | same-type overrides keep their relative order |
| Cli.SelectSound | src/cli.rs:82-88 | every pair in a list comes from an override of that list's type |
| JsonValue.Strip | src/req.rs:49-53 | after removing the skip keys one by one, the keys left are exactly the original keys not listed, each with its original value |
| JsonValue.StripIdempotent | src/req.rs:49-53 | stripping again with the same list changes nothing |
| JsonValue.StripKeepsNested | src/req.rs:49-53 | a nested object keeps a key of the same name as a skipped top-level key |
| JsonValue.SetKey | src/req.rs:110 | `json[k] = v` succeeds exactly on an object or null; the result is an object with `k` bound to `v` and every other key as before (null counting as no keys); otherwise it panics |
| HeaderMap.Insert | src/req.rs:99 | after `insert(name, v)`, `name` holds only `v`; every other name keeps all its values; an absent name is appended at the end |
| HeaderMap.InsertInPlace | src/req.rs:99 | a present name's first entry takes the new value in place, with every entry before it unchanged |
| HeaderMap.ContainsEntry | src/req.rs:102 | `contains_key` holds exactly when some entry has the name |
| Req.ContentType | src/req.rs:133-138 | none exactly when there is no Content-Type header; a value that is not visible ASCII is a failure (the panic); otherwise the prefix of the first value up to its first `:` |
| Req.ApplyHeaderOverrides | src/req.rs:98-100 | succeeds exactly when every override's name and value are valid, otherwise fails with the first bad override's error; each overridden name holds only its last override's value; other names keep the template's values |
| Req.WithDefaultContentType | src/req.rs:102-107 | afterwards Content-Type is present; existing headers are untouched when it already was; otherwise `content-type: application/json` is appended |
| Req.ApplyJsonOverrides | src/req.rs:109-115 | succeeds exactly when every value parses as JSON and, if there are overrides, the base is an object or null; on an object or null base, fails with the first unparsable value; the result has the base's keys plus the overridden ones, each overridden key bound to the parse of its last value, and the rest unchanged |
| Req.Generate | src/req.rs:93-130 | a generated request always carries a Content-Type header, and its media type is JSON, form-urlencoded or multipart |
| Req.Encode | src/req.rs:117-129 | encoding succeeds exactly when the Content-Type extracts and is `application/json`, or is one of the two form types and the form encoder accepts the body; a Content-Type that is not visible ASCII fails as the panic; a success keeps headers and query |
| Req.EncodeBodyText | src/req.rs:119-127 | the body is the JSON text for `application/json` and the form encoding for the two form types |
| Req.EncodeUnsupported | src/req.rs:128 | any other media type is refused with "unsupported content-type" |
| Req.GenerateContentType | src/req.rs:94-107 | Content-Type is the last header override for it if any, else the template's value if any, and only otherwise `application/json` |
| Req.GenerateOtherHeaders | src/req.rs:94-100 | every other header name ends up with the last override's value, or else the template's values |
| Req.GenerateQuery | src/req.rs:95-111 | the query's keys are those of `params` (or `{}`) plus the overridden ones; an overridden key holds the parse of its last value; every other key keeps its value |
| Req.GenerateBody | src/req.rs:96-127 | the body is some JSON value built the same way from `params` (or `{}`) and the body overrides, written as JSON text for `application/json` and form-encoded for the two form types |
| Req.GenerateUnsupported | src/req.rs:117-129 | once merging succeeded, a media type other than the three supported ones makes `generate` fail with "unsupported content-type" |
| Req.GenerateIgnoresTemplateBody | src/req.rs:96 | changing the template's `body` changes nothing in the generated request |
| Req.GenerateHeaderError | src/req.rs:98-100 | the first invalid header override's error (name checked before value) is `generate`'s error, whatever the query and body overrides hold |
| Req.GenerateQueryError | src/req.rs:109-111 | with valid header overrides and an object or absent `params`, the first query override that is not JSON text is `generate`'s error, before any body override is parsed |
| Req.GenerateBodyError | src/req.rs:113-115 | with headers and query merged, the first body override that is not JSON text is `generate`'s error |
| Req.NoHeaderWrite | src/req.rs:98-100 | when no override's name parses to a given name, no override writes that name |
| Req.DefaultIsJson | src/req.rs:102-107 | the default Content-Type holds the single value `application/json` and is extracted as exactly that media type |
| Req.GenerateDefault | src/req.rs:93-122 | with valid header overrides, no Content-Type in the template or the overrides, an object or absent `params` and JSON-text overrides, `generate` succeeds, Content-Type is `application/json` and the body is the merged body's JSON text |
| Req.FilterJson | src/req.rs:45-57 | unparsable text fails with a parse error; a parsed non-object fails (the `todo!()`); it succeeds exactly on an object |
| Req.FilterJsonOutput | src/req.rs:45-57 | the output reads back as an object with no skipped key, and every other original key with its original value |
| Req.FilterJsonIdempotent | src/req.rs:45-57 | filtering the output again with the same list returns the same text |
| Req.Kept | src/req.rs:22-23 | the kept headers are those whose name is not listed, and all of them |
| Req.KeptAppend | src/req.rs:22-23 | keeping distributes over concatenation, so the kept headers come in iteration order, duplicates included |
| Req.KeptSingle | src/req.rs:22-23 | one header is kept exactly when its name is not listed |
| Req.RenderHeaders | src/req.rs:22-26 | succeeds exactly when every kept header's value is visible ASCII; the text is the kept headers in order, each `name: value` followed by `\r`; a failure names a kept header whose value is not visible ASCII |
| Req.FilterText | src/req.rs:18-43 | succeeds exactly when the headers render, the Content-Type extracts, and a JSON body filters; a header that fails to render is reported before the Content-Type panic, and that before a body that fails to filter |
| Req.FilterTextLayout | src/req.rs:19-42 | the output is the status line and `\r`, then the kept header lines, then `\n`, then the filtered body when the media type is exactly `application/json`, and the body verbatim otherwise |
| Req.FilterTextSkipsBodyKeys | src/req.rs:32-36 | a normalised JSON body holds exactly the received body's top-level keys that are not skipped, assuming only that printing and parsing again keeps an object's keys |
| Req.CharsetContentType | src/req.rs:133-138 | `application/json; charset=utf-8` is extracted whole |
| Req.CharsetBodyVerbatim | src/req.rs:30-40 | with that Content-Type the body is appended unfiltered |

## Left out

- `RequestProfile::send` (src/req.rs:79-91): building the reqwest client, the URL query string and the network exchange.
- The awaited body text in `filter_text` (src/req.rs:29) is an input of the model. Its decoding failure is not modelled.
- serde_json, serde_urlencoded and the `http` name and value parsers are parameters. Their insides are not modelled.
- `HeaderMap` hashing and storage: a header map is the sequence of its entries in iteration order.
- Status codes: the canonical reason phrase is carried by the response, and the reason table itself is not modelled.
- `DiffConfig` loading, `get_profile` and the serde/YAML derives (src/config.rs): file and format glue.
- `DiffProfile::diff` (src/config.rs:62-69): its body is `todo!()`, so there is no comparison of two responses to model.
- `main`, `run` and the clap structs `Args`, `Action`, `RunArgs`: process entry and argument dispatch.
- Req.ApplyJsonOverrides: names the failing override's error only when the base is an object or null. For any other base, the first override's error is a parse error or the indexing panic; the contract says only that it fails.
- Req.FilterJsonOutput: the round-trip it assumes is exact. serde_json without its `float_roundtrip` feature may parse some floating-point texts up to one unit in the last place off, so a filtered float can read back slightly different; floating point is not modelled.
- Req.FilterJsonIdempotent: it assumes the exact round-trip of FilterJsonOutput. serde_json without `float_roundtrip` can read a float back one unit in the last place off, and then a second filtering prints a different number; floating point is not modelled.
- Req.FilterTextSkipsBodyKeys: it speaks only of the keys of the normalised body, not their values; it assumes only `PrettyKeepsKeys` (printing and parsing again keeps an object's keys), which a float read back one unit off does not break.
- Req.FilterJson: the contract does not state the success text directly. It is given by FilterJsonOutput, which assumes the pretty-printer reads back as the value printed.
