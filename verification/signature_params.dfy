/**
 * `getSignatureParams`: reads `keyId`, `created`, `headers` and `signature` out of a
 * draft-cavage `Signature` header value with four independent regular expressions.
 */
module SignatureParamsParsing {
  import opened Wrappers
  import opened JsText
  import JsNumber
  import opened LazyRegex

  const MissingFieldMessage := "Signature string is missing a required field"

  const KeyIdPrefix := "keyId=\""
  const CreatedPrefix := "created="
  const HeadersPrefix := "headers=\""
  const SignaturePrefix := "signature=\""

  /** The parsed parameters; `created` is `Number()` of its text and so may be `NaN`. */
  datatype SignatureParams = SignatureParams(keyId: string, created: JsNumber.Number, signature: string, headers: string)

  /** `/keyId="(.+?)"/`, `/created=(.+?),/`, `/headers="(.+?)"/` and `/signature="(.+?)"/`. */
  function KeyIdMatch(value: string): Option<string> { Exec(value, KeyIdPrefix, '"') }
  function CreatedMatch(value: string): Option<string> { Exec(value, CreatedPrefix, ',') }
  function HeadersMatch(value: string): Option<string> { Exec(value, HeadersPrefix, '"') }
  function SignatureMatch(value: string): Option<string> { Exec(value, SignaturePrefix, '"') }

  function GetSignatureParams(value: string): Result<SignatureParams, string> {
    var keyId := KeyIdMatch(value);
    var created := CreatedMatch(value);
    var headers := HeadersMatch(value);
    var signature := SignatureMatch(value);
    if keyId.None? || created.None? || signature.None? || headers.None? then Err(MissingFieldMessage)
    else Ok(SignatureParams(keyId.value, JsNumber.FromString(created.value), signature.value, headers.value))
  }

  /** The result is an error exactly when one of the four patterns matches nowhere. */
  lemma GetSignatureParamsError(value: string)
    ensures GetSignatureParams(value).Err? <==>
      (forall p: nat :: NoMatchAt(value, p, KeyIdPrefix, '"')) ||
      (forall p: nat :: NoMatchAt(value, p, CreatedPrefix, ',')) ||
      (forall p: nat :: NoMatchAt(value, p, HeadersPrefix, '"')) ||
      (forall p: nat :: NoMatchAt(value, p, SignaturePrefix, '"'))
    ensures GetSignatureParams(value).Err? ==> GetSignatureParams(value).error == MissingFieldMessage
  {
    ExecMeaning(value, KeyIdPrefix, '"');
    ExecMeaning(value, CreatedPrefix, ',');
    ExecMeaning(value, HeadersPrefix, '"');
    ExecMeaning(value, SignaturePrefix, '"');
  }

  /**
   * On success each text field is a non-empty run found between its `name="` and the next
   * quote, `headers` is always present, and `created` is the number read from a run
   * `created=...,` of the input.
   */
  lemma GetSignatureParamsFields(value: string)
    requires GetSignatureParams(value).Ok?
    ensures var r := GetSignatureParams(value).value;
      |r.keyId| >= 1 && IsSubstring(KeyIdPrefix + r.keyId + "\"", value) &&
      |r.headers| >= 1 && IsSubstring(HeadersPrefix + r.headers + "\"", value) &&
      |r.signature| >= 1 && IsSubstring(SignaturePrefix + r.signature + "\"", value) &&
      exists c :: |c| >= 1 && IsSubstring(CreatedPrefix + c + ",", value) && r.created == JsNumber.FromString(c)
  {
    ExecCapture(value, KeyIdPrefix, '"');
    ExecCapture(value, CreatedPrefix, ',');
    ExecCapture(value, HeadersPrefix, '"');
    ExecCapture(value, SignaturePrefix, '"');
  }

  /** `created` is read only up to a comma, so a value with no comma at all is rejected. */
  lemma CreatedNeedsComma(value: string)
    requires ',' !in value
    ensures GetSignatureParams(value) == Err(MissingFieldMessage)
  {
    NoCloseNoMatch(value, CreatedPrefix, ',');
  }

  /** Names are case-sensitive: without the exact text `keyId="` the value is rejected. */
  lemma KeyIdIsCaseSensitive(value: string)
    requires !IsSubstring(KeyIdPrefix, value)
    ensures GetSignatureParams(value) == Err(MissingFieldMessage)
  {
    NoPrefixNoMatch(value, KeyIdPrefix, '"');
  }
}
