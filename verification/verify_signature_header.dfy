/**
 * `verifySignatureHeader`: the chain of checks that decides whether a request's cavage
 * `signature` header verifies. Every format problem answers `ok(false)`; only the external
 * verifier's rejection or an unexpected exception is an error.
 */
module SignatureVerification {
  import opened Wrappers
  import opened JsText
  import opened JsObject
  import opened Utf8
  import opened Types
  import opened Common
  import opened SortedEntries
  import opened VerifyDataConstruction
  import opened SignatureParamsParsing
  import opened DigestCheck

  const VerifyFailedMessage := "Failed to verify signature header"
  const UnexpectedErrorMessage := "Failed to verify signature header with unexpected error"

  /** How the external verifier's promise settles: a boolean, a rejection, or a synchronous throw. */
  datatype VerifyOutcome = Resolved(verified: bool) | Rejected | Threw

  /**
   * The collaborators the pipeline calls: `url.parse` (`None` when it throws), `splitWithSpace`,
   * the body digest, `decodeBase64Url` (`None` for its error result) and the verifier.
   */
  datatype VerifyEnv = VerifyEnv(
    parseUrl: string -> Option<ParsedUrl>,
    splitWithSpace: string -> seq<string>,
    digestOf: Body -> string,
    decodeBase64Url: string -> Option<seq<byte>>,
    verify: (string, seq<byte>, seq<byte>) -> VerifyOutcome)

  /** What the pipeline passes as covered fields: the `headers` text itself, or its words. */
  datatype CoveredReading = WholeText | SpaceSeparated

  /** The lower-case `signature` header, when it is a string. */
  function SignatureText(headers: HttpHeaders): Option<string> {
    match ValueAt(headers, "signature")
    case Single(text) => Some(text)
    case _ => None
  }

  /** The headers whose lower-cased name is one of the words of the signature's `headers` list. */
  function HeadersToVerify(env: VerifyEnv, headers: HttpHeaders, headersList: string): HttpHeaders {
    PickBy(headers, k => ToLower(k) in env.splitWithSpace(headersList))
  }

  function CoveredFields(reading: CoveredReading, env: VerifyEnv, headersList: string): CoveredFieldsArg {
    match reading
    case WholeText => Text(headersList)
    case SpaceSeparated => Fields(env.splitWithSpace(headersList))
  }

  /** The pipeline with the covered fields read as `reading` says. */
  function VerifyWith(reading: CoveredReading, env: VerifyEnv, headers: HttpHeaders, httpMethod: string, url: string,
                      body: Option<Body>, now: int): Result<bool, VerifySignatureHeaderError>
  {
    match SignatureText(headers)
    case None => Ok(false)
    case Some(signatureString) =>
      match GetSignatureParams(signatureString)
      case Err(_) => Ok(false)
      case Ok(params) => VerifyParams(reading, env, headers, params, httpMethod, url, body, now)
  }

  /** From the parsed parameters: pick the listed headers and build the verify data. */
  function VerifyParams(reading: CoveredReading, env: VerifyEnv, headers: HttpHeaders, params: SignatureParams,
                        httpMethod: string, url: string, body: Option<Body>, now: int): Result<bool, VerifySignatureHeaderError>
  {
    match env.parseUrl(url)
    case None => Err(VerifyFailed(UnexpectedErrorMessage))
    case Some(parsedUrl) =>
      match GenerateVerifyData(HeadersToVerify(env, headers, params.headers), params.created, httpMethod, parsedUrl, now)
      case Err(_) => Ok(false)
      case Ok(verifyData) => VerifyFromData(reading, env, params, verifyData, body)
  }

  /** From the verify data: check the digest when there is one, then order the entries. */
  function VerifyFromData(reading: CoveredReading, env: VerifyEnv, params: SignatureParams, verifyData: VerifyData,
                      body: Option<Body>): Result<bool, VerifySignatureHeaderError>
  {
    var digest := ValueAt(verifyData, "digest");
    if digest != Absent && !VerifyDigest(digest, body, env.digestOf) then Ok(false)
    else match GenerateSortedVerifyDataEntries(verifyData, CoveredFields(reading, env, params.headers))
    case Err(_) => Ok(false)
    case Ok(sortedEntries) => VerifyEntries(env, params, sortedEntries)
  }

  /** From the ordered entries: decode the signature and ask the verifier. */
  function VerifyEntries(env: VerifyEnv, params: SignatureParams, sortedEntries: seq<VerifyDataEntry>): Result<bool, VerifySignatureHeaderError> {
    match env.decodeBase64Url(params.signature)
    case None => Ok(false)
    case Some(decodedSignature) =>
      match env.verify(params.keyId, SignatureBytes(sortedEntries), decodedSignature)
      case Resolved(verified) => Ok(verified)
      case Rejected => Err(VerifyFailed(VerifyFailedMessage))
      case Threw => Err(VerifyFailed(UnexpectedErrorMessage))
  }

  /** `verifySignatureHeader` as written: the `headers` text itself goes in as the covered fields. */
  function VerifySignatureHeader(env: VerifyEnv, headers: HttpHeaders, httpMethod: string, url: string,
                                 body: Option<Body>, now: int): Result<bool, VerifySignatureHeaderError>
  {
    VerifyWith(WholeText, env, headers, httpMethod, url, body, now)
  }

  /** The evidently intended pipeline: the words of the `headers` list are the covered fields. */
  function VerifySignatureHeaderIntended(env: VerifyEnv, headers: HttpHeaders, httpMethod: string, url: string,
                                         body: Option<Body>, now: int): Result<bool, VerifySignatureHeaderError>
  {
    VerifyWith(SpaceSeparated, env, headers, httpMethod, url, body, now)
  }

  /**
   * The entries the pipeline orders for these parameters, when the URL parses, the verify data
   * builds and the covered fields can be ordered.
   */
  function EntriesFor(reading: CoveredReading, env: VerifyEnv, headers: HttpHeaders, params: SignatureParams,
                      httpMethod: string, url: string, now: int): Option<seq<VerifyDataEntry>>
  {
    match env.parseUrl(url)
    case None => None
    case Some(parsedUrl) =>
      match GenerateVerifyData(HeadersToVerify(env, headers, params.headers), params.created, httpMethod, parsedUrl, now)
      case Err(_) => None
      case Ok(verifyData) =>
        match GenerateSortedVerifyDataEntries(verifyData, CoveredFields(reading, env, params.headers))
        case Err(_) => None
        case Ok(sortedEntries) => Some(sortedEntries)
  }

  /**
   * The verifier, given the parameters' `keyId`, the bytes of `entries` and the decoded
   * signature, answered `answer`.
   */
  ghost predicate VerifierAnswered(env: VerifyEnv, params: SignatureParams, entries: seq<VerifyDataEntry>, answer: VerifyOutcome) {
    exists decoded ::
      env.decodeBase64Url(params.signature) == Some(decoded) && env.verify(params.keyId, SignatureBytes(entries), decoded) == answer
  }

  /** The outcomes of the last stage, in terms of the verifier's answer over `entries`. */
  ghost predicate Accounted(env: VerifyEnv, params: SignatureParams, entries: seq<VerifyDataEntry>, r: Result<bool, VerifySignatureHeaderError>) {
    (r.Err? ==> r.error == VerifyFailed(VerifyFailedMessage) || r.error == VerifyFailed(UnexpectedErrorMessage)) &&
    (r == Ok(true) ==> VerifierAnswered(env, params, entries, Resolved(true))) &&
    (r == Err(VerifyFailed(VerifyFailedMessage)) ==> VerifierAnswered(env, params, entries, Rejected))
  }

  lemma EntriesAccounted(env: VerifyEnv, params: SignatureParams, sortedEntries: seq<VerifyDataEntry>)
    ensures Accounted(env, params, sortedEntries, VerifyEntries(env, params, sortedEntries))
  {
    if env.decodeBase64Url(params.signature).Some? {
      var decoded := env.decodeBase64Url(params.signature).value;
      assert env.verify(params.keyId, SignatureBytes(sortedEntries), decoded) == env.verify(params.keyId, SignatureBytes(sortedEntries), decoded);
    }
  }

  /**
   * After the parameters are read, the only errors are the two `VerifyFailed` ones; `ok(true)`
   * and the rejection error need the ordered entries to exist and the verifier to have answered
   * so over their bytes.
   */
  lemma ParamsAccounted(reading: CoveredReading, env: VerifyEnv, headers: HttpHeaders, params: SignatureParams,
                        httpMethod: string, url: string, body: Option<Body>, now: int)
    ensures var r := VerifyParams(reading, env, headers, params, httpMethod, url, body, now);
      var entries := EntriesFor(reading, env, headers, params, httpMethod, url, now);
      (r.Err? ==> r.error == VerifyFailed(VerifyFailedMessage) || r.error == VerifyFailed(UnexpectedErrorMessage)) &&
      (r == Ok(true) || r == Err(VerifyFailed(VerifyFailedMessage)) ==> entries.Some?) &&
      (entries.Some? ==> Accounted(env, params, entries.value, r))
  {
    if env.parseUrl(url).Some? {
      var u := env.parseUrl(url).value;
      var vdr := GenerateVerifyData(HeadersToVerify(env, headers, params.headers), params.created, httpMethod, u, now);
      if vdr.Ok? {
        var vd := vdr.value;
        var sorted := GenerateSortedVerifyDataEntries(vd, CoveredFields(reading, env, params.headers));
        if sorted.Ok? {
          EntriesAccounted(env, params, sorted.value);
        }
      }
    }
  }

  /**
   * Either reading answers `ok(false)`, the verifier's own boolean, or `VerifyFailed`; it never
   * reports the generic error. `ok(true)` needs the verifier to have resolved `true` for the
   * signature header's `keyId`, its decoded signature and the bytes of the ordered entries, and
   * the rejection error needs the verifier to have rejected those.
   */
  lemma VerifyOutcomes(reading: CoveredReading, env: VerifyEnv, headers: HttpHeaders, httpMethod: string, url: string,
                       body: Option<Body>, now: int)
    ensures var r := VerifyWith(reading, env, headers, httpMethod, url, body, now);
      (r.Err? ==> r.error == VerifyFailed(VerifyFailedMessage) || r.error == VerifyFailed(UnexpectedErrorMessage)) &&
      (r == Ok(true) ==> exists s, p ::
        SignatureText(headers) == Some(s) && GetSignatureParams(s) == Ok(p) &&
        EntriesFor(reading, env, headers, p, httpMethod, url, now).Some? &&
        VerifierAnswered(env, p, EntriesFor(reading, env, headers, p, httpMethod, url, now).value, Resolved(true))) &&
      (r == Err(VerifyFailed(VerifyFailedMessage)) ==> exists s, p ::
        SignatureText(headers) == Some(s) && GetSignatureParams(s) == Ok(p) &&
        EntriesFor(reading, env, headers, p, httpMethod, url, now).Some? &&
        VerifierAnswered(env, p, EntriesFor(reading, env, headers, p, httpMethod, url, now).value, Rejected))
  {
    var s := SignatureText(headers);
    if s.Some? && GetSignatureParams(s.value).Ok? {
      var p := GetSignatureParams(s.value).value;
      ParamsAccounted(reading, env, headers, p, httpMethod, url, body, now);
    }
  }

  /**
   * Once the signature header has been read, a failure to build the verify data, a digest that
   * does not match, covered fields that cannot be ordered, or a signature that does not decode
   * each answer `ok(false)`; only a `url.parse` throw is an error before the verifier is called.
   */
  lemma EarlyExitsAreFalse(reading: CoveredReading, env: VerifyEnv, headers: HttpHeaders, httpMethod: string, url: string,
                           body: Option<Body>, now: int, s: string, p: SignatureParams)
    requires SignatureText(headers) == Some(s) && GetSignatureParams(s) == Ok(p)
    ensures env.parseUrl(url).None? ==> VerifyWith(reading, env, headers, httpMethod, url, body, now) == Err(VerifyFailed(UnexpectedErrorMessage))
    ensures env.parseUrl(url).Some? ==>
      var r := VerifyWith(reading, env, headers, httpMethod, url, body, now);
      var vd := GenerateVerifyData(HeadersToVerify(env, headers, p.headers), p.created, httpMethod, env.parseUrl(url).value, now);
      (vd.Err? ==> r == Ok(false)) &&
      (vd.Ok? && ValueAt(vd.value, "digest") != Absent && !VerifyDigest(ValueAt(vd.value, "digest"), body, env.digestOf) ==> r == Ok(false)) &&
      (vd.Ok? && GenerateSortedVerifyDataEntries(vd.value, CoveredFields(reading, env, p.headers)).Err? ==> r == Ok(false)) &&
      (vd.Ok? && env.decodeBase64Url(p.signature).None? ==> r == Ok(false))
  {
  }

  /** A `signature` header that is missing or not a string answers `ok(false)`, not an error. */
  lemma NonStringSignatureIsFalse(reading: CoveredReading, env: VerifyEnv, headers: HttpHeaders, httpMethod: string, url: string,
                                  body: Option<Body>, now: int)
    requires !ValueAt(headers, "signature").Single?
    ensures VerifyWith(reading, env, headers, httpMethod, url, body, now) == Ok(false)
  {
  }

  /** An unreadable signature header answers `ok(false)`. */
  lemma UnreadableParamsIsFalse(reading: CoveredReading, env: VerifyEnv, headers: HttpHeaders, httpMethod: string, url: string,
                                body: Option<Body>, now: int)
    requires SignatureText(headers).Some? && GetSignatureParams(SignatureText(headers).value).Err?
    ensures VerifyWith(reading, env, headers, httpMethod, url, body, now) == Ok(false)
  {
  }

  /**
   * The verify data is built from exactly the headers whose lower-cased name is a whole word of
   * the `headers` list, with their values; every other header is ignored.
   */
  lemma HeadersToVerifyMeaning(env: VerifyEnv, headers: HttpHeaders, headersList: string, k: string)
    ensures Get(HeadersToVerify(env, headers, headersList), k)
      == if ToLower(k) in env.splitWithSpace(headersList) then Get(headers, k) else None
    ensures Has(HeadersToVerify(env, headers, headersList), k)
      <==> Has(headers, k) && ToLower(k) in env.splitWithSpace(headersList)
  {
    PickByGet(headers, k => ToLower(k) in env.splitWithSpace(headersList), k);
    PickByKeys(headers, k => ToLower(k) in env.splitWithSpace(headersList));
  }

  /** Without a header named `digest` in any letter case, the body plays no part. */
  lemma BodyIgnoredWithoutDigest(reading: CoveredReading, env: VerifyEnv, headers: HttpHeaders, httpMethod: string, url: string,
                                 body: Option<Body>, other: Option<Body>, now: int)
    requires forall i :: 0 <= i < |headers| ==> ToLower(headers[i].0) != "digest"
    ensures VerifyWith(reading, env, headers, httpMethod, url, body, now)
         == VerifyWith(reading, env, headers, httpMethod, url, other, now)
  {
    var s := SignatureText(headers);
    if s.Some? && GetSignatureParams(s.value).Ok? && env.parseUrl(url).Some? {
      var p := GetSignatureParams(s.value).value;
      var picked := HeadersToVerify(env, headers, p.headers);
      var u := env.parseUrl(url).value;
      if GenerateVerifyData(picked, p.created, httpMethod, u, now).Ok? {
        GenerateVerifyDataNames(picked, p.created, httpMethod, u, now);
        var vd := GenerateVerifyData(picked, p.created, httpMethod, u, now).value;
        assert "digest" !in LowerAll(Keys(picked)) by {
          forall i | 0 <= i < |picked| ensures ToLower(picked[i].0) != "digest" {
            HeadersToVerifyMeaning(env, headers, p.headers, picked[i].0);
            assert Has(picked, picked[i].0) by { assert Keys(picked)[i] == picked[i].0; }
            var j :| 0 <= j < |headers| && Keys(headers)[j] == picked[i].0;
          }
        }
        assert !Has(vd, "digest");
        assert ValueAt(vd, "digest") == Absent;
      }
    }
  }

  /** When the first character of the list is not a name, the whole-text reading stops at ordering. */
  lemma WholeTextStops(env: VerifyEnv, params: SignatureParams, verifyData: VerifyData, body: Option<Body>)
    requires params.headers != "" && !Has(verifyData, [params.headers[0]])
    ensures VerifyFromData(WholeText, env, params, verifyData, body) == Ok(false)
  {
    TextCoveredFields(verifyData, params.headers);
  }

  /** Verify data built from headers without one-character names has no one-character name. */
  lemma NoOneCharacterNames(env: VerifyEnv, headers: HttpHeaders, params: SignatureParams, httpMethod: string,
                            u: ParsedUrl, now: int, c: char)
    requires forall i :: 0 <= i < |headers| ==> |headers[i].0| != 1
    requires GenerateVerifyData(HeadersToVerify(env, headers, params.headers), params.created, httpMethod, u, now).Ok?
    ensures !Has(GenerateVerifyData(HeadersToVerify(env, headers, params.headers), params.created, httpMethod, u, now).value, [c])
  {
    var picked := HeadersToVerify(env, headers, params.headers);
    GenerateVerifyDataNames(picked, params.created, httpMethod, u, now);
    forall i | 0 <= i < |picked| ensures |LowerAll(Keys(picked))[i]| != 1 {
      HeadersToVerifyMeaning(env, headers, params.headers, picked[i].0);
      assert Has(picked, picked[i].0) by { assert Keys(picked)[i] == picked[i].0; }
      var j :| 0 <= j < |headers| && Keys(headers)[j] == picked[i].0;
    }
    assert [c] !in LowerAll(Keys(picked));
  }

  /**
   * As written, the covered fields are the single characters of the `headers` list. When no
   * request header has a one-character name, no character is a name of the verify data, so the
   * verifier is never consulted and the answer is never `ok(true)`.
   */
  lemma AsWrittenNeverVerifies(env: VerifyEnv, headers: HttpHeaders, httpMethod: string, url: string,
                               body: Option<Body>, now: int)
    requires forall i :: 0 <= i < |headers| ==> |headers[i].0| != 1
    ensures VerifySignatureHeader(env, headers, httpMethod, url, body, now) == Ok(false)
         || VerifySignatureHeader(env, headers, httpMethod, url, body, now) == Err(VerifyFailed(UnexpectedErrorMessage))
  {
    var s := SignatureText(headers);
    if s.Some? && GetSignatureParams(s.value).Ok? && env.parseUrl(url).Some? {
      var p := GetSignatureParams(s.value).value;
      var u := env.parseUrl(url).value;
      var vdr := GenerateVerifyData(HeadersToVerify(env, headers, p.headers), p.created, httpMethod, u, now);
      if vdr.Ok? {
        GetSignatureParamsFields(s.value);
        NoOneCharacterNames(env, headers, p, httpMethod, u, now, p.headers[0]);
        WholeTextStops(env, p, vdr.value, body);
      }
    }
  }

  /**
   * As intended, a request whose signature header reads, whose verify data builds, that carries
   * no digest, whose listed header words are all names of the verify data, and whose signature
   * decodes, reaches the verifier: the answer is the verifier's, over the bytes of the entries
   * in the listed order.
   */
  lemma IntendedReachesVerifier(env: VerifyEnv, headers: HttpHeaders, httpMethod: string, url: string,
                                body: Option<Body>, now: int, s: string, p: SignatureParams, u: ParsedUrl,
                                vd: VerifyData, decoded: seq<byte>)
    requires SignatureText(headers) == Some(s) && GetSignatureParams(s) == Ok(p) && env.parseUrl(url) == Some(u)
    requires GenerateVerifyData(HeadersToVerify(env, headers, p.headers), p.created, httpMethod, u, now) == Ok(vd)
    requires !Has(vd, "digest")
    requires forall w :: w in env.splitWithSpace(p.headers) ==> Has(vd, w)
    requires env.decodeBase64Url(p.signature) == Some(decoded)
    ensures var words := env.splitWithSpace(p.headers);
      var answer := env.verify(p.keyId, SignatureBytes(CoveredEntries(vd, words)), decoded);
      VerifySignatureHeaderIntended(env, headers, httpMethod, url, body, now)
        == match answer
           case Resolved(b) => Ok(b)
           case Rejected => Err(VerifyFailed(VerifyFailedMessage))
           case Threw => Err(VerifyFailed(UnexpectedErrorMessage))
  {
    GetMeaning(vd, "digest");
  }
}
