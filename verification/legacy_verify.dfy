/**
 * The older promise-based verifier: a throwing `getSignatureParams` twin and a
 * `verifySignatureHeader` that keeps the headers whose lower-cased name occurs anywhere in the
 * `headers` text and insists that the generated header list equals that text.
 */
module LegacyVerification {
  import opened Wrappers
  import opened JsText
  import opened JsObject
  import opened Utf8
  import JsNumber
  import opened Types
  import opened Common
  import opened SignatureParamsParsing
  import opened VerifyDataEntries

  const ThrownMissingFieldMessage := "signature string is missing a required field"
  const BadSignatureHeaderMessage := "bad signature header - signature header must be a string"
  const HeadersMismatchMessage := "signature headers string mismatch"

  /** How a promise settles: with a boolean, or rejected with an error message. */
  datatype Settled = Fulfilled(value: bool) | RejectedWith(reason: string)

  /**
   * The collaborators: `url.parse` and `base64URLDecode` (`Err` carries what they throw) and the
   * verifier's promise.
   */
  datatype LegacyEnv = LegacyEnv(
    parseUrl: string -> Result<ParsedUrl, string>,
    base64UrlDecode: string -> Result<seq<byte>, string>,
    verify: (string, seq<byte>, seq<byte>) -> Settled)

  /** The throwing `getSignatureParams`: the same four patterns, a thrown error as `Err`. */
  function GetSignatureParamsOrThrow(value: string): Result<SignatureParams, string> {
    var keyId := KeyIdMatch(value);
    var created := CreatedMatch(value);
    var headers := HeadersMatch(value);
    var signature := SignatureMatch(value);
    if keyId.None? || created.None? || signature.None? || headers.None? then Err(ThrownMissingFieldMessage)
    else Ok(SignatureParams(keyId.value, JsNumber.FromString(created.value), signature.value, headers.value))
  }

  /** The twin reads exactly what the `Result` version reads, and throws where it returns an error. */
  lemma TwinAgrees(value: string)
    ensures GetSignatureParamsOrThrow(value).Ok? <==> GetSignatureParams(value).Ok?
    ensures GetSignatureParamsOrThrow(value).Ok? ==> GetSignatureParamsOrThrow(value).value == GetSignatureParams(value).value
    ensures GetSignatureParamsOrThrow(value).Err? ==>
      GetSignatureParamsOrThrow(value).error == ThrownMissingFieldMessage &&
      GetSignatureParams(value).error == MissingFieldMessage
  {
  }

  /** A header is kept when its lower-cased name occurs anywhere in the `headers` text. */
  function MatchingHeaders(headers: HttpHeaders, headersText: string): HttpHeaders {
    PickBy(headers, k => IndexOf(headersText, ToLower(k)) >= 0)
  }

  lemma MatchingHeadersMeaning(headers: HttpHeaders, headersText: string, k: string)
    ensures Has(MatchingHeaders(headers, headersText), k) <==> Has(headers, k) && IsSubstring(ToLower(k), headersText)
    ensures Get(MatchingHeaders(headers, headersText), k)
      == if IsSubstring(ToLower(k), headersText) then Get(headers, k) else None
  {
    IndexOfMeaning(headersText, ToLower(k));
    PickByKeys(headers, k => IndexOf(headersText, ToLower(k)) >= 0);
    PickByGet(headers, k => IndexOf(headersText, ToLower(k)) >= 0, k);
  }

  /** The verifier's promise once the entries are ready: the header list must be the `headers` text. */
  function CheckAndVerify(env: LegacyEnv, params: SignatureParams, entries: seq<VerifyDataEntry>): Settled {
    if HeadersListString(entries) != params.headers then RejectedWith(HeadersMismatchMessage)
    else match env.base64UrlDecode(params.signature)
      case Err(e) => RejectedWith(e)
      case Ok(decodedSignature) => env.verify(params.keyId, SignatureBytes(entries), decodedSignature)
  }

  /** The older `verifySignatureHeader`, reading the exact-case `Signature` header. */
  function LegacyVerifySignatureHeader(env: LegacyEnv, headers: HttpHeaders, httpMethod: string, url: string, now: int): Settled {
    match ValueAt(headers, "Signature")
    case Absent => RejectedWith(BadSignatureHeaderMessage)
    case Multi(_) => RejectedWith(BadSignatureHeaderMessage)
    case Single(signatureString) =>
      match GetSignatureParamsOrThrow(signatureString)
      case Err(e) => RejectedWith(e)
      case Ok(params) =>
        match env.parseUrl(url)
        case Err(e) => RejectedWith(e)
        case Ok(parsedUrl) =>
          match GenerateVerifyDataEntries(MatchingHeaders(headers, params.headers), params.created, httpMethod, parsedUrl, now)
          case Err(e) => RejectedWith(e)
          case Ok(entries) => CheckAndVerify(env, params, entries)
  }

  /** Only the exact name `Signature` is read: a non-string value there rejects. */
  lemma NonStringSignatureRejects(env: LegacyEnv, headers: HttpHeaders, httpMethod: string, url: string, now: int)
    requires !ValueAt(headers, "Signature").Single?
    ensures LegacyVerifySignatureHeader(env, headers, httpMethod, url, now) == RejectedWith(BadSignatureHeaderMessage)
  {
  }

  /**
   * A fulfilled promise is the verifier's own answer, over the bytes of the entries built from
   * the matching headers, whose header list is exactly the `headers` text: one list feeds both
   * the check and the bytes.
   */
  lemma FulfilledIsVerifierAnswer(env: LegacyEnv, headers: HttpHeaders, httpMethod: string, url: string, now: int)
    requires LegacyVerifySignatureHeader(env, headers, httpMethod, url, now).Fulfilled?
    ensures exists s, params, u, entries, decoded ::
      ValueAt(headers, "Signature") == Single(s) && GetSignatureParamsOrThrow(s) == Ok(params) &&
      env.parseUrl(url) == Ok(u) &&
      GenerateVerifyDataEntries(MatchingHeaders(headers, params.headers), params.created, httpMethod, u, now) == Ok(entries) &&
      HeadersListString(entries) == params.headers &&
      env.base64UrlDecode(params.signature) == Ok(decoded) &&
      env.verify(params.keyId, SignatureBytes(entries), decoded) == LegacyVerifySignatureHeader(env, headers, httpMethod, url, now)
  {
    var s := ValueAt(headers, "Signature").text;
    var params := GetSignatureParamsOrThrow(s).value;
    var u := env.parseUrl(url).value;
    var entries := GenerateVerifyDataEntries(MatchingHeaders(headers, params.headers), params.created, httpMethod, u, now).value;
    var decoded := env.base64UrlDecode(params.signature).value;
    assert env.verify(params.keyId, SignatureBytes(entries), decoded) == LegacyVerifySignatureHeader(env, headers, httpMethod, url, now);
  }

  /** Entries whose header list differs from the `headers` text reject with the mismatch message. */
  lemma MismatchRejects(env: LegacyEnv, params: SignatureParams, entries: seq<VerifyDataEntry>)
    requires HeadersListString(entries) != params.headers
    ensures CheckAndVerify(env, params, entries) == RejectedWith(HeadersMismatchMessage)
  {
  }

  /**
   * In the whole pipeline: once the signature header reads, the URL parses and the entries
   * build, an entry list whose header list is not exactly the `headers` text rejects with the
   * mismatch message, before any decoding or verifying.
   */
  lemma HeaderListMismatchRejects(env: LegacyEnv, headers: HttpHeaders, httpMethod: string, url: string, now: int,
                                  s: string, params: SignatureParams, u: ParsedUrl, entries: seq<VerifyDataEntry>)
    requires ValueAt(headers, "Signature") == Single(s) && GetSignatureParamsOrThrow(s) == Ok(params)
    requires env.parseUrl(url) == Ok(u)
    requires GenerateVerifyDataEntries(MatchingHeaders(headers, params.headers), params.created, httpMethod, u, now) == Ok(entries)
    requires HeadersListString(entries) != params.headers
    ensures LegacyVerifySignatureHeader(env, headers, httpMethod, url, now) == RejectedWith(HeadersMismatchMessage)
  {
    MismatchRejects(env, params, entries);
  }
}
