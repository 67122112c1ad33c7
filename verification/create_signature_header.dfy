/**
 * `createSignatureHeader`: chooses a signature id (the caller's, or the lowest free `sig<N>`),
 * signs the covered entries, and returns the `Signature` and `Signature-Input` values, each
 * appended with `", "` to the request's existing values when it has both.
 */
module SignatureCreation {
  import opened Wrappers
  import opened JsObject
  import opened Utf8
  import opened Types
  import JsNumber
  import JsText
  import opened Common
  import opened SortedEntries
  import opened SignatureDictionary
  import VerifyDataConstruction

  const EmptyHeadersMessage := "Http headers must not be empty"
  const IdInUseMessage := "Specified signature id is already in use"
  const NoFreeIdMessage := "Could not find a valid signature id to use"
  const UnknownSignErrorMessage := "Unknown"
  const UnexpectedSignErrorMessage := "An error occurred when signing signature header"
  const Algorithm := "ecdsa-p256-sha256"

  /** The covered fields signing asks for, in order. */
  const SignedFields := ["@request-target", "content-type", "host", "@method", "content-digest"]

  /**
   * The names the `in` operator finds on a neverthrow `Ok` wrapper: its own `value`, the methods
   * of its class, and what every object inherits.
   */
  const OkWrapperNames: set<string> := {
    "value", "isOk", "isErr", "map", "mapErr", "andThen", "orElse", "asyncAndThen", "asyncMap",
    "unwrapOr", "match", "_unsafeUnwrap", "_unsafeUnwrapErr"
  } + ObjectPrototypeNames

  /** How the signer's promise settles: bytes, a rejection (with the message of an `Error`), or a throw. */
  datatype SignOutcome = Signed(bytes: seq<byte>) | SignRejected(errorMessage: Option<string>) | SignThrew

  /**
   * The collaborators: the two dictionary parsers (`None` when they throw), the body digest,
   * `generateVerifyData` and `generateSignatureParams` of this revision, the signer, and base64.
   */
  datatype SignEnv = SignEnv(
    parseSignatureInput: string -> Option<seq<InputMember>>,
    parseSignature: string -> Option<map<string, string>>,
    digestOf: Body -> string,
    verifyDataOf: (HttpHeaders, string, string) -> Result<VerifyData, string>,
    signatureParamsOf: (seq<VerifyDataEntry>, string, string) -> string,
    sign: seq<byte> -> SignOutcome,
    base64Encode: seq<byte> -> string)

  /** The three values returned on success. */
  datatype SignatureHeaders = SignatureHeaders(digest: Option<string>, signature: string, signatureInput: string)

  /** The chosen id, with the request's existing `signature` and `signature-input` values if it has both. */
  datatype IdChoice = IdChoice(id: string, existing: Option<(string, string)>)

  /** A string is truthy unless it is empty; a missing one is falsy. */
  predicate Given(s: Option<string>) {
    s.Some? && s.value != ""
  }

  function SigName(i: nat): string {
    "sig" + JsNumber.NatToString(i)
  }

  // Choosing the id (lines 84-123 of the source file).

  /** The first `i` from `from` up to 99 whose `sig<i>` is not a name of the signature data. */
  function FirstFreeFrom(data: Object<SignatureRecord>, from: nat): Option<nat>
    decreases 100 - from
  {
    if from >= 100 then None
    else if !In(SigName(from), data) then Some(from)
    else FirstFreeFrom(data, from + 1)
  }

  /** `sig<m>` is already a name of the signature data, as the `in` operator sees it. */
  predicate Taken(data: Object<SignatureRecord>, m: nat) {
    In(SigName(m), data)
  }

  /** A found number is free, at most 99, and every number from `from` below it is taken. */
  lemma {:induction false} FirstFreeFound(data: Object<SignatureRecord>, from: nat)
    requires FirstFreeFrom(data, from).Some?
    ensures var n := FirstFreeFrom(data, from).value;
      from <= n < 100 && !Taken(data, n) && forall m: nat :: from <= m < n ==> Taken(data, m)
    decreases 100 - from
  {
    if Taken(data, from) {
      FirstFreeFound(data, from + 1);
    }
  }

  /** No number is found exactly when every `sig<m>` from `from` to 99 is taken. */
  lemma {:induction false} FirstFreeNone(data: Object<SignatureRecord>, from: nat)
    ensures FirstFreeFrom(data, from).None? <==> forall m: nat :: from <= m < 100 ==> Taken(data, m)
    decreases 100 - from
  {
    if from >= 100 {
    } else if !Taken(data, from) {
      assert FirstFreeFrom(data, from) == Some(from);
    } else {
      assert FirstFreeFrom(data, from) == FirstFreeFrom(data, from + 1);
      FirstFreeNone(data, from + 1);
    }
  }

  /** The existing signature data, when the lower-cased headers hold both strings. */
  function ExistingPair(lowered: HttpHeaders): Option<(string, string)> {
    match (ValueAt(lowered, "signature"), ValueAt(lowered, "signature-input"))
    case (Single(s), Single(i)) => Some((s, i))
    case _ => None
  }

  /** The id choice as written: an explicit id is tested with `in` against the `Ok` wrapper. */
  function SignatureIdChoice(env: SignEnv, lowered: HttpHeaders, signatureId: Option<string>): Result<IdChoice, CreateSignatureHeaderError> {
    match ExistingPair(lowered)
    case None => Ok(IdChoice(if Given(signatureId) then signatureId.value else "sig1", None))
    case Some(pair) =>
      match env.parseSignatureInput(pair.1)
      case None => Err(SignFailed(UnexpectedSignErrorMessage))
      case Some(members) =>
        match env.parseSignature(pair.0)
        case None => Err(SignFailed(UnexpectedSignErrorMessage))
        case Some(signatures) =>
          match SignatureData(members, signatures)
          case Err(e) => Err(MalformedInput(e))
          case Ok(data) =>
            if Given(signatureId) then
              if signatureId.value in OkWrapperNames then Err(SignFailed(IdInUseMessage))
              else Ok(IdChoice(signatureId.value, Some(pair)))
            else match FirstFreeFrom(data, 1)
              case None => Err(SignFailed(NoFreeIdMessage))
              case Some(n) => Ok(IdChoice(SigName(n), Some(pair)))
  }

  /** The evidently intended choice: an explicit id is tested against the existing signature ids. */
  function SignatureIdChoiceIntended(env: SignEnv, lowered: HttpHeaders, signatureId: Option<string>): Result<IdChoice, CreateSignatureHeaderError> {
    match ExistingPair(lowered)
    case None => Ok(IdChoice(if Given(signatureId) then signatureId.value else "sig1", None))
    case Some(pair) =>
      match env.parseSignatureInput(pair.1)
      case None => Err(SignFailed(UnexpectedSignErrorMessage))
      case Some(members) =>
        match env.parseSignature(pair.0)
        case None => Err(SignFailed(UnexpectedSignErrorMessage))
        case Some(signatures) =>
          match SignatureData(members, signatures)
          case Err(e) => Err(MalformedInput(e))
          case Ok(data) =>
            if Given(signatureId) then
              if In(signatureId.value, data) then Err(SignFailed(IdInUseMessage))
              else Ok(IdChoice(signatureId.value, Some(pair)))
            else match FirstFreeFrom(data, 1)
              case None => Err(SignFailed(NoFreeIdMessage))
              case Some(n) => Ok(IdChoice(SigName(n), Some(pair)))
  }

  /** The id selection, updating `sigKeyToUse` and `existingSignatures` step by step. */
  method ChooseSignatureId(env: SignEnv, lowered: HttpHeaders, signatureId: Option<string>) returns (r: Result<IdChoice, CreateSignatureHeaderError>)
    ensures r == SignatureIdChoice(env, lowered, signatureId)
  {
    var sigKeyToUse: Option<string> := None;
    var existingSignatures := false;
    var signatureString := ValueAt(lowered, "signature");
    var signatureInputString := ValueAt(lowered, "signature-input");
    if signatureString.Single? && signatureInputString.Single? {
      existingSignatures := true;
      var members := env.parseSignatureInput(signatureInputString.text);
      if members.None? {
        return Err(SignFailed(UnexpectedSignErrorMessage));
      }
      var signatures := env.parseSignature(signatureString.text);
      if signatures.None? {
        return Err(SignFailed(UnexpectedSignErrorMessage));
      }
      var existingSignatureData := GetSignatureData(members.value, signatures.value);
      if existingSignatureData.Err? {
        return Err(MalformedInput(existingSignatureData.error));
      }
      if Given(signatureId) {
        if signatureId.value in OkWrapperNames {
          return Err(SignFailed(IdInUseMessage));
        }
        sigKeyToUse := signatureId;
      } else {
        ghost var data := existingSignatureData.value;
        for i := 1 to 100
          invariant sigKeyToUse.None? && FirstFreeFrom(data, 1) == FirstFreeFrom(data, i)
        {
          if !In(SigName(i), existingSignatureData.value) {
            sigKeyToUse := Some(SigName(i));
            break;
          }
        }
        if !Given(sigKeyToUse) {
          return Err(SignFailed(NoFreeIdMessage));
        }
      }
    } else {
      if Given(signatureId) {
        sigKeyToUse := signatureId;
      } else {
        sigKeyToUse := Some("sig1");
      }
    }
    var pair := if existingSignatures then Some((signatureString.text, signatureInputString.text)) else None;
    return Ok(IdChoice(sigKeyToUse.value, pair));
  }

  // Signing and assembling the header values (lines 125-175 of the source file).

  /** Existing header text and `", "`, or nothing. */
  function ExistingPrefix(existing: Option<string>): string {
    match existing
    case None => ""
    case Some(text) => text + ", "
  }

  /** The new header values for an id already chosen. */
  function SignWithId(env: SignEnv, headers: HttpHeaders, keyid: string, httpMethod: string, url: string,
                      body: Option<Body>, choice: IdChoice): Result<SignatureHeaders, CreateSignatureHeaderError>
  {
    var digest := if Types.Truthy(body) then Some(env.digestOf(body.value)) else None;
    var headersToSign := if digest.Some? && digest.value != "" then Put(headers, "Content-Digest", Single(digest.value)) else headers;
    match env.verifyDataOf(headersToSign, url, httpMethod)
    case Err(e) => Err(MalformedInput(e))
    case Ok(verifyData) =>
      match GenerateSortedVerifyDataEntries(verifyData, Fields(SignedFields))
      case Err(e) => Err(MalformedInput(e))
      case Ok(sortedEntries) =>
        var signatureParams := env.signatureParamsOf(sortedEntries, Algorithm, keyid);
        match env.sign(SignatureBytes(sortedEntries + [("@signature-params", Single(signatureParams))]))
        case SignRejected(message) => Err(SignFailed(if message.Some? then message.value else UnknownSignErrorMessage))
        case SignThrew => Err(SignFailed(UnexpectedSignErrorMessage))
        case Signed(bytes) =>
          var signature := env.base64Encode(bytes);
          var existingSignature := if choice.existing.Some? then Some(choice.existing.value.0) else None;
          var existingInput := if choice.existing.Some? then Some(choice.existing.value.1) else None;
          Ok(SignatureHeaders(
            digest,
            ExistingPrefix(existingSignature) + choice.id + "=:" + signature + ":",
            ExistingPrefix(existingInput) + choice.id + "=" + signatureParams))
  }

  /** What `createSignatureHeader` settles to, with the id choice as written. */
  function CreateSignatureHeaderSpec(env: SignEnv, headers: HttpHeaders, keyid: string, httpMethod: string, url: string,
                                     signatureId: Option<string>, body: Option<Body>): Result<SignatureHeaders, CreateSignatureHeaderError>
  {
    if |headers| == 0 then Err(MalformedInput(EmptyHeadersMessage))
    else match SignatureIdChoice(env, VerifyDataConstruction.ReduceKeysToLowerCase(headers), signatureId)
      case Err(e) => Err(e)
      case Ok(choice) => SignWithId(env, headers, keyid, httpMethod, url, body, choice)
  }

  method CreateSignatureHeader(env: SignEnv, headers: HttpHeaders, keyid: string, httpMethod: string, url: string,
                               signatureId: Option<string>, body: Option<Body>) returns (r: Result<SignatureHeaders, CreateSignatureHeaderError>)
    ensures r == CreateSignatureHeaderSpec(env, headers, keyid, httpMethod, url, signatureId, body)
  {
    if |headers| == 0 {
      return Err(MalformedInput(EmptyHeadersMessage));
    }
    var lowerCaseHttpHeaders := VerifyDataConstruction.ReduceKeysToLowerCase(headers);
    var choice := ChooseSignatureId(env, lowerCaseHttpHeaders, signatureId);
    if choice.Err? {
      return Err(choice.error);
    }
    r := SignWithId(env, headers, keyid, httpMethod, url, body, choice.value);
  }

  // Properties of the id choice.

  /** The parsed existing signature data, when the headers carry both values and they parse. */
  predicate ParsesTo(env: SignEnv, lowered: HttpHeaders, data: Object<SignatureRecord>) {
    ExistingPair(lowered).Some? &&
    var pair := ExistingPair(lowered).value;
    env.parseSignatureInput(pair.1).Some? && env.parseSignature(pair.0).Some? &&
    SignatureData(env.parseSignatureInput(pair.1).value, env.parseSignature(pair.0).value) == Ok(data)
  }

  /** Without both existing values the caller's id, or `sig1`, is used and nothing is appended to. */
  lemma FreshRequestChoice(env: SignEnv, lowered: HttpHeaders, signatureId: Option<string>)
    requires ExistingPair(lowered).None?
    ensures SignatureIdChoice(env, lowered, signatureId) == SignatureIdChoiceIntended(env, lowered, signatureId)
    ensures SignatureIdChoice(env, lowered, signatureId).Ok?
    ensures SignatureIdChoice(env, lowered, signatureId).value.id == if Given(signatureId) then signatureId.value else "sig1"
    ensures SignatureIdChoice(env, lowered, signatureId).value.existing.None?
  {
  }

  /** Both existing values are used exactly when both lower-cased headers are strings. */
  lemma ExistingPairMeaning(lowered: HttpHeaders)
    ensures ExistingPair(lowered).Some? <==> ValueAt(lowered, "signature").Single? && ValueAt(lowered, "signature-input").Single?
    ensures ExistingPair(lowered).Some? ==>
      ExistingPair(lowered).value == (ValueAt(lowered, "signature").text, ValueAt(lowered, "signature-input").text)
  {
  }

  /**
   * With existing signatures and no id given, the lowest `sig<n>` not taken is chosen; the choice
   * fails only when `sig1` to `sig99` are all taken.
   */
  lemma GeneratedIdIsLowestFree(env: SignEnv, lowered: HttpHeaders, signatureId: Option<string>, data: Object<SignatureRecord>)
    requires ParsesTo(env, lowered, data) && !Given(signatureId)
    ensures var r := SignatureIdChoice(env, lowered, signatureId);
      (r.Err? <==> forall m: nat :: 1 <= m < 100 ==> Taken(data, m)) &&
      (r.Err? ==> r.error == SignFailed(NoFreeIdMessage)) &&
      (r.Ok? ==> exists n: nat :: 1 <= n < 100 && r.value.id == SigName(n) && !Taken(data, n) &&
                   forall m: nat :: 1 <= m < n ==> Taken(data, m))
  {
    FirstFreeNone(data, 1);
    if FirstFreeFrom(data, 1).Some? {
      FirstFreeFound(data, 1);
    }
  }

  /**
   * As written, an explicit id is refused exactly when it names a member of the `Ok` wrapper,
   * whatever ids the existing signatures use.
   */
  lemma AsWrittenIdCheck(env: SignEnv, lowered: HttpHeaders, signatureId: Option<string>, data: Object<SignatureRecord>)
    requires ParsesTo(env, lowered, data) && Given(signatureId)
    ensures SignatureIdChoice(env, lowered, signatureId) ==
      if signatureId.value in OkWrapperNames then Err(SignFailed(IdInUseMessage))
      else Ok(IdChoice(signatureId.value, ExistingPair(lowered)))
  {
  }

  /** A request already signed as `sig1` parses to data in which `sig1` is taken. */
  lemma UsedIdExample()
    ensures var members := [InputMember("sig1", ["host"], map["keyid" := SfString("key-1"), "created" := SfInteger(1)])];
      var data := SignatureData(members, map["sig1" := "c2ln"]);
      data.Ok? && Has(data.value, "sig1") && "sig1" !in OkWrapperNames
  {
    var m := InputMember("sig1", ["host"], map["keyid" := SfString("key-1"), "created" := SfInteger(1)]);
    var empty: Object<SignatureRecord> := [];
    assert !In("sig1", empty);
    assert !MissingRequired(m);
    var data := Put([], "sig1", RecordOf(m, "c2ln"));
    assert data == [("sig1", RecordOf(m, "c2ln"))];
    assert Walk([m][1..], map["sig1" := "c2ln"], data) == Ok(data);
    assert SignatureData([m], map["sig1" := "c2ln"]) == Ok(data);
    assert Keys(data)[0] == "sig1";
  }

  /**
   * As intended, an explicit id is refused exactly when an existing signature uses it, and
   * every id chosen alongside existing signatures is new to them.
   */
  lemma IntendedIdIsFresh(env: SignEnv, lowered: HttpHeaders, signatureId: Option<string>, data: Object<SignatureRecord>)
    requires ParsesTo(env, lowered, data)
    ensures var r := SignatureIdChoiceIntended(env, lowered, signatureId);
      (r.Ok? ==> !In(r.value.id, data) && r.value.existing == ExistingPair(lowered)) &&
      (r.Err? <==> if Given(signatureId) then In(signatureId.value, data)
                   else forall m: nat :: 1 <= m < 100 ==> Taken(data, m))
  {
    FirstFreeNone(data, 1);
    if FirstFreeFrom(data, 1).Some? {
      FirstFreeFound(data, 1);
    }
  }

  // Properties of the header values.

  /** The headers handed to `generateVerifyData`: `Content-Digest` is set when there is a digest. */
  function HeadersToSign(env: SignEnv, headers: HttpHeaders, body: Option<Body>): HttpHeaders {
    var digest := if Types.Truthy(body) then Some(env.digestOf(body.value)) else None;
    if digest.Some? && digest.value != "" then Put(headers, "Content-Digest", Single(digest.value)) else headers
  }

  /** Only `Content-Digest` can change, and it holds the body's digest exactly when there is one. */
  lemma HeadersToSignMeaning(env: SignEnv, headers: HttpHeaders, body: Option<Body>, k: string)
    ensures k != "Content-Digest" ==> Get(HeadersToSign(env, headers, body), k) == Get(headers, k)
    ensures Types.Truthy(body) && env.digestOf(body.value) != "" ==>
      Get(HeadersToSign(env, headers, body), "Content-Digest") == Some(Single(env.digestOf(body.value)))
  {
    if Types.Truthy(body) && env.digestOf(body.value) != "" {
      PutGet(headers, "Content-Digest", Single(env.digestOf(body.value)), k);
      PutGet(headers, "Content-Digest", Single(env.digestOf(body.value)), "Content-Digest");
    }
  }

  /**
   * The text whose bytes are handed to the signer: the covered entries' signature string, then
   * the `@signature-params` line.
   */
  lemma SignedStringEndsWithParams(entries: seq<VerifyDataEntry>, params: string)
    requires |entries| >= 1
    ensures SignatureString(entries + [("@signature-params", Single(params))]) ==
      SignatureString(entries) + "\n@signature-params: " + JsText.Trim(params)
  {
    var e := ("@signature-params", Single(params));
    var s0 := SignatureString(entries);
    var t := JsText.Trim(params);
    SignatureStringAppend(entries, e);
    assert SignatureLine(e) == "@signature-params: " + t;
    calc {
      SignatureString(entries + [e]);
      s0 + "\n" + ("@signature-params: " + t);
      { assert "\n@signature-params: " == "\n" + "@signature-params: "; }
      s0 + "\n@signature-params: " + t;
    }
  }

  /**
   * A success carries the digest exactly when the body is truthy. The signer was given the UTF-8
   * bytes of the five signed fields' lines, in their fixed order, followed by the
   * `@signature-params` line, and it answered with bytes. `signature` is the existing value and
   * `", "` (when there is one), the id, `=:`, the base64 text of those bytes and `:`;
   * `signatureInput` is the existing value and `", "`, the id, `=` and the params string.
   */
  lemma SignedHeadersFormat(env: SignEnv, headers: HttpHeaders, keyid: string, httpMethod: string, url: string,
                            body: Option<Body>, choice: IdChoice)
    requires SignWithId(env, headers, keyid, httpMethod, url, body, choice).Ok?
    ensures var out := SignWithId(env, headers, keyid, httpMethod, url, body, choice).value;
      (out.digest.Some? <==> Types.Truthy(body)) &&
      (out.digest.Some? ==> out.digest.value == env.digestOf(body.value))
    ensures var out := SignWithId(env, headers, keyid, httpMethod, url, body, choice).value;
      var vd := env.verifyDataOf(HeadersToSign(env, headers, body), url, httpMethod);
      vd.Ok? && GenerateSortedVerifyDataEntries(vd.value, Fields(SignedFields)).Ok? &&
      var entries := GenerateSortedVerifyDataEntries(vd.value, Fields(SignedFields)).value;
      var params := env.signatureParamsOf(entries, Algorithm, keyid);
      var signed := env.sign(Encode(SignatureString(entries) + "\n@signature-params: " + JsText.Trim(params)));
      |entries| == |SignedFields| && (forall i :: 0 <= i < |entries| ==> entries[i].0 == SignedFields[i]) &&
      signed.Signed? &&
      out.signature == ExistingPrefix(if choice.existing.Some? then Some(choice.existing.value.0) else None)
        + choice.id + "=:" + env.base64Encode(signed.bytes) + ":" &&
      out.signatureInput == ExistingPrefix(if choice.existing.Some? then Some(choice.existing.value.1) else None)
        + choice.id + "=" + params
  {
    var vd := env.verifyDataOf(HeadersToSign(env, headers, body), url, httpMethod).value;
    var entries := GenerateSortedVerifyDataEntries(vd, Fields(SignedFields)).value;
    CoveredFieldsEntries(vd, SignedFields);
    var params := env.signatureParamsOf(entries, Algorithm, keyid);
    SignedStringEndsWithParams(entries, params);
  }

  /**
   * A failure is a malformed-input error from `generateVerifyData` or the covered-entries step,
   * or a signing error carrying the signer's message, `Unknown`, or the catch-all message.
   */
  lemma SignWithIdErrors(env: SignEnv, headers: HttpHeaders, keyid: string, httpMethod: string, url: string,
                         body: Option<Body>, choice: IdChoice)
    ensures var r := SignWithId(env, headers, keyid, httpMethod, url, body, choice);
      var verifyData := env.verifyDataOf(HeadersToSign(env, headers, body), url, httpMethod);
      (verifyData.Err? ==> r == Err(MalformedInput(verifyData.error))) &&
      (verifyData.Ok? && GenerateSortedVerifyDataEntries(verifyData.value, Fields(SignedFields)).Err? ==>
        r == Err(MalformedInput(GenerateSortedVerifyDataEntries(verifyData.value, Fields(SignedFields)).error))) &&
      (r.Err? && r.error.SignFailed? ==> verifyData.Ok? && GenerateSortedVerifyDataEntries(verifyData.value, Fields(SignedFields)).Ok?) &&
      (verifyData.Ok? && GenerateSortedVerifyDataEntries(verifyData.value, Fields(SignedFields)).Ok? ==>
        var sorted := GenerateSortedVerifyDataEntries(verifyData.value, Fields(SignedFields)).value;
        var out := env.sign(SignatureBytes(sorted + [("@signature-params", Single(env.signatureParamsOf(sorted, Algorithm, keyid)))]));
        (out.SignRejected? ==> r == Err(SignFailed(if out.errorMessage.Some? then out.errorMessage.value else UnknownSignErrorMessage))) &&
        (out == SignThrew ==> r == Err(SignFailed(UnexpectedSignErrorMessage))) &&
        (out.Signed? <==> r.Ok?)) &&
      !(r.Err? && r.error.CreateError?)
  {
  }

  /**
   * With existing signature headers, a throw from either dictionary parser is the catch-all
   * signing error, and an error from `getSignatureData` is a malformed-input error with its message.
   */
  lemma IdChoiceErrors(env: SignEnv, lowered: HttpHeaders, signatureId: Option<string>)
    requires ExistingPair(lowered).Some?
    ensures var pair := ExistingPair(lowered).value;
      var r := SignatureIdChoice(env, lowered, signatureId);
      (env.parseSignatureInput(pair.1).None? ==> r == Err(SignFailed(UnexpectedSignErrorMessage))) &&
      (env.parseSignatureInput(pair.1).Some? && env.parseSignature(pair.0).None? ==> r == Err(SignFailed(UnexpectedSignErrorMessage))) &&
      (env.parseSignatureInput(pair.1).Some? && env.parseSignature(pair.0).Some? &&
        SignatureData(env.parseSignatureInput(pair.1).value, env.parseSignature(pair.0).value).Err? ==>
        r == Err(MalformedInput(SignatureData(env.parseSignatureInput(pair.1).value, env.parseSignature(pair.0).value).error))) &&
      (r.Err? && r.error.MalformedInput? ==>
        env.parseSignatureInput(pair.1).Some? && env.parseSignature(pair.0).Some? &&
        SignatureData(env.parseSignatureInput(pair.1).value, env.parseSignature(pair.0).value) == Err(r.error.message))
  {
  }

  /** Empty headers are refused before anything else happens. */
  lemma EmptyHeadersRefused(env: SignEnv, keyid: string, httpMethod: string, url: string, signatureId: Option<string>, body: Option<Body>)
    ensures CreateSignatureHeaderSpec(env, [], keyid, httpMethod, url, signatureId, body) == Err(MalformedInput(EmptyHeadersMessage))
  {
  }
}
