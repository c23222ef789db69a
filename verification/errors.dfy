/** The failures the core can end in. The program reports all of them through
    `anyhow::Error`; the ones marked "panic" abort the process instead, and are
    modelled here as failures so that every operation stays total. */
module Errors {
  import opened Wrappers

  datatype Error =
    /** A `KEY=VALUE` override token without `=` or with a key of the wrong shape. */
    | InvalidKeyVal(token: string)
    /** Text that serde_json refuses to parse. */
    | InvalidJson(text: string)
    /** A response body that parses to a JSON value other than an object (panic: `todo!()`). */
    | NotAnObject
    /** `value[key] = ...` on a JSON value that is neither an object nor null (panic). */
    | NotIndexable(key: string)
    /** A header override name that `HeaderName::from_str` refuses. */
    | InvalidHeaderName(name: string)
    /** A header override value that `HeaderValue::from_str` refuses. */
    | InvalidHeaderValue(value: string)
    /** A response header kept in the rendering whose value `HeaderValue::to_str` refuses. */
    | NonVisibleHeaderValue(name: string)
    /** A Content-Type value `HeaderValue::to_str` refuses (panic: `unwrap()`). */
    | ContentTypeNotVisible
    /** A body serde_urlencoded cannot encode. */
    | FormEncoding
    /** A Content-Type other than JSON, form-urlencoded or multipart. */
    | UnsupportedContentType

  type Fallible<T> = Result<T, Error>
}
