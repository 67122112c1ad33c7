/**
 * The values the library passes around: header values, header maps, verify data and its
 * entries, request bodies, parsed URLs and the tagged error records.
 */
module Types {
  import opened Wrappers
  import opened JsObject

  /** A header value: `undefined`, one string, or a list of strings. */
  datatype HeaderValue = Absent | Single(text: string) | Multi(items: seq<string>)

  /** Request headers by name, in insertion order. */
  type HttpHeaders = Object<HeaderValue>

  /** The named values a signature covers, in insertion order. */
  type VerifyData = Object<HeaderValue>

  /** One `[name, value]` pair of verify data. */
  type VerifyDataEntry = (string, HeaderValue)

  /** Reading a property: a missing name reads `undefined`. */
  function ValueAt(o: Object<HeaderValue>, k: string): (v: HeaderValue)
    ensures v != Absent ==> Has(o, k)
  {
    GetMeaning(o, k);
    match Get(o, k)
    case None => Absent
    case Some(x) => x
  }

  /** A request body: a string, or a JSON object given by its canonical text. */
  datatype Body = TextBody(text: string) | ObjectBody(canonicalJson: string)

  /** JavaScript truthiness of an optional body: the empty string is falsy, an object never is. */
  predicate Truthy(body: Option<Body>) {
    match body
    case None => false
    case Some(TextBody(t)) => t != ""
    case Some(ObjectBody(_)) => true
  }

  /** The `host` and `path` that `url.parse` reports, either of which may be `null`. */
  datatype ParsedUrl = ParsedUrl(host: Option<string>, path: Option<string>)

  /** The errors `createSignatureHeader` reports. */
  datatype CreateSignatureHeaderError =
    | CreateError(message: string)
    | MalformedInput(message: string)
    | SignFailed(message: string)

  /** The errors `verifySignatureHeader` reports. */
  datatype VerifySignatureHeaderError =
    | VerifyError(message: string)
    | VerifyFailed(message: string)
}
