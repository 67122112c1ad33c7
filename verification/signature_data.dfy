/**
 * `getSignatureData`: walks the members of a parsed `Signature-Input` dictionary (RFC 9421
 * section 4.1) and pairs each with its member of the parsed `Signature` dictionary (section
 * 4.2), giving one record per signature id, or the first error met.
 */
module SignatureDictionary {
  import opened Wrappers
  import opened JsText
  import opened JsObject

  const InvalidSignatureDataMessage := "Invalid signature data"
  const MissingRequiredFieldMessage := "Signature input string is missing a required field"
  const InvalidSignaturesMessage := "One or more signatures is invalid"

  /** A bare item of a structured field value (RFC 8941 section 3.3); a decimal holds its value. */
  datatype BareItem =
    | SfInteger(i: int)
    | SfDecimal(d: real)
    | SfString(s: string)
    | SfToken(t: string)
    | SfBytes(base64: string)
    | SfBoolean(b: bool)

  /** JavaScript truthiness of the parsed item; tokens and byte sequences are objects. */
  predicate Truthy(item: BareItem) {
    match item
    case SfInteger(i) => i != 0
    case SfDecimal(d) => d != 0.0
    case SfString(s) => s != ""
    case SfToken(_) => true
    case SfBytes(_) => true
    case SfBoolean(b) => b
  }

  /**
   * One parsed `Signature-Input` member: its id, the names of its inner list and its
   * parameters. The parsed dictionary is kept as a list, so an id may occur twice.
   */
  datatype InputMember = InputMember(id: string, coveredNames: seq<string>, params: map<string, BareItem>)

  /** One signature as the walk records it. */
  datatype SignatureRecord = SignatureRecord(keyid: BareItem, created: BareItem, coveredFields: seq<string>, signature: string)

  /** `signatureParams.get(name)`. */
  function Param(m: InputMember, name: string): Option<BareItem> {
    if name in m.params then Some(m.params[name]) else None
  }

  predicate Present(p: Option<BareItem>) {
    p.Some? && Truthy(p.value)
  }

  /** A falsy `keyid` or `created`, no covered names, or an empty id. */
  predicate MissingRequired(m: InputMember) {
    !Present(Param(m, "keyid")) || !Present(Param(m, "created")) || |m.coveredNames| == 0 || m.id == ""
  }

  /** The record of a member that passed the checks; covered names are lower-cased. */
  function RecordOf(m: InputMember, signature: string): SignatureRecord
    requires !MissingRequired(m)
  {
    SignatureRecord(Param(m, "keyid").value, Param(m, "created").value, LowerAll(m.coveredNames), signature)
  }

  /** The walk from some member on, given the records gathered so far. */
  function Walk(members: seq<InputMember>, signatures: map<string, string>, data: Object<SignatureRecord>): Result<Object<SignatureRecord>, string>
    decreases |members|
  {
    if |members| == 0 then Ok(data)
    else
      var m := members[0];
      if In(m.id, data) then Err(InvalidSignatureDataMessage)
      else if MissingRequired(m) then Err(MissingRequiredFieldMessage)
      else if m.id !in signatures then Err(InvalidSignaturesMessage)
      else Walk(members[1..], signatures, Put(data, m.id, RecordOf(m, signatures[m.id])))
  }

  /** What `getSignatureData` returns for the parsed dictionaries. */
  function SignatureData(members: seq<InputMember>, signatures: map<string, string>): Result<Object<SignatureRecord>, string> {
    Walk(members, signatures, [])
  }

  /** The walk over the parsed dictionaries, reassigning the gathered records at each member. */
  method GetSignatureData(members: seq<InputMember>, signatures: map<string, string>) returns (r: Result<Object<SignatureRecord>, string>)
    ensures r == SignatureData(members, signatures)
  {
    var signatureData: Object<SignatureRecord> := [];
    for i := 0 to |members|
      invariant Walk(members[i..], signatures, signatureData) == SignatureData(members, signatures)
    {
      assert members[i..][1..] == members[i + 1..];
      var signatureId := members[i].id;
      if In(signatureId, signatureData) {
        return Err(InvalidSignatureDataMessage);
      }
      var coveredFields := LowerAll(members[i].coveredNames);
      var keyid := Param(members[i], "keyid");
      var created := Param(members[i], "created");
      if !Present(keyid) || !Present(created) || |coveredFields| == 0 || signatureId == "" {
        return Err(MissingRequiredFieldMessage);
      }
      if signatureId !in signatures {
        return Err(InvalidSignaturesMessage);
      }
      signatureData := Put(signatureData, signatureId, SignatureRecord(keyid.value, created.value, coveredFields, signatures[signatureId]));
    }
    return Ok(signatureData);
  }

  // Reference description of the outcome, member by member.

  function Ids(members: seq<InputMember>): (r: seq<string>)
    ensures |r| == |members| && forall i :: 0 <= i < |r| ==> r[i] == members[i].id
  {
    seq(|members|, i requires 0 <= i < |members| => members[i].id)
  }

  /**
   * Why member `j` fails, given the members before it: an id seen before (or one every
   * object already answers to, such as `constructor`), a missing field, or no signature.
   */
  function FailureAt(members: seq<InputMember>, j: nat, signatures: map<string, string>): Option<string>
    requires j < |members|
  {
    var m := members[j];
    if m.id in Ids(members[..j]) || m.id in ObjectPrototypeNames then Some(InvalidSignatureDataMessage)
    else if MissingRequired(m) then Some(MissingRequiredFieldMessage)
    else if m.id !in signatures then Some(InvalidSignaturesMessage)
    else None
  }

  predicate Passes(members: seq<InputMember>, signatures: map<string, string>) {
    forall k :: 0 <= k < |members| ==> !MissingRequired(members[k]) && members[k].id in signatures
  }

  /** One record per member, under its id, in member order. */
  function Records(members: seq<InputMember>, signatures: map<string, string>): (r: Object<SignatureRecord>)
    requires Passes(members, signatures)
    ensures |r| == |members|
    ensures forall i :: 0 <= i < |r| ==> r[i] == (members[i].id, RecordOf(members[i], signatures[members[i].id]))
  {
    seq(|members|, i requires 0 <= i < |members| && Passes(members, signatures) =>
      (members[i].id, RecordOf(members[i], signatures[members[i].id])))
  }

  /** While no member has failed, the walk has gathered exactly the records of the members so far. */
  lemma {:induction false} WalkPrefix(members: seq<InputMember>, signatures: map<string, string>, j: nat)
    requires j <= |members|
    requires forall k :: 0 <= k < j ==> FailureAt(members, k, signatures).None?
    ensures Passes(members[..j], signatures)
    ensures SignatureData(members, signatures) == Walk(members[j..], signatures, Records(members[..j], signatures))
    decreases j
  {
    if j == 0 {
      assert members[0..] == members;
    } else {
      WalkPrefix(members, signatures, j - 1);
      var m := members[j - 1];
      var before := members[..j - 1];
      var data := Records(before, signatures);
      assert FailureAt(members, j - 1, signatures).None?;
      assert Keys(data) == Ids(before);
      assert !In(m.id, data);
      assert members[j - 1..][1..] == members[j..];
      assert members[..j] == before + [m];
      PutNew(data, m.id, RecordOf(m, signatures[m.id]));
      assert Put(data, m.id, RecordOf(m, signatures[m.id])) == Records(members[..j], signatures);
    }
  }

  /** The walk succeeds exactly when no member fails, and then holds one record per member, in order. */
  lemma SignatureDataSuccess(members: seq<InputMember>, signatures: map<string, string>)
    ensures SignatureData(members, signatures).Ok?
        <==> forall k :: 0 <= k < |members| ==> FailureAt(members, k, signatures).None?
    ensures SignatureData(members, signatures).Ok? ==>
      Passes(members, signatures) && SignatureData(members, signatures).value == Records(members, signatures)
  {
    if forall k :: 0 <= k < |members| ==> FailureAt(members, k, signatures).None? {
      WalkPrefix(members, signatures, |members|);
      assert members[..|members|] == members;
    } else {
      var f := 0;
      while f < |members| && FailureAt(members, f, signatures).None?
        invariant f <= |members|
        invariant forall k :: 0 <= k < f ==> FailureAt(members, k, signatures).None?
      {
        f := f + 1;
      }
      FirstFailure(members, signatures, f);
    }
  }

  /** The error is the one of the first failing member; nothing gathered before it escapes. */
  lemma FirstFailure(members: seq<InputMember>, signatures: map<string, string>, j: nat)
    requires j < |members| && FailureAt(members, j, signatures).Some?
    requires forall k :: 0 <= k < j ==> FailureAt(members, k, signatures).None?
    ensures SignatureData(members, signatures) == Err(FailureAt(members, j, signatures).value)
  {
    WalkPrefix(members, signatures, j);
    var data := Records(members[..j], signatures);
    assert Keys(data) == Ids(members[..j]);
    assert members[j..][0] == members[j];
  }

  /** An id met a second time, with every member before it sound, gives "Invalid signature data". */
  lemma DuplicateIdRejected(members: seq<InputMember>, signatures: map<string, string>, i: nat, j: nat)
    requires i < j < |members| && members[i].id == members[j].id
    requires forall k :: 0 <= k < j ==> FailureAt(members, k, signatures).None?
    ensures SignatureData(members, signatures) == Err(InvalidSignatureDataMessage)
  {
    assert members[..j][i] == members[i];
    assert members[j].id in Ids(members[..j]);
    FirstFailure(members, signatures, j);
  }

  /** Signatures whose id no `Signature-Input` member names play no part. */
  lemma {:induction false} ExtraSignaturesIgnored(members: seq<InputMember>, signatures: map<string, string>, more: map<string, string>, data: Object<SignatureRecord>)
    requires forall k :: 0 <= k < |members| && members[k].id in signatures ==> members[k].id in more && more[members[k].id] == signatures[members[k].id]
    requires forall k :: 0 <= k < |members| && members[k].id in more ==> members[k].id in signatures
    ensures Walk(members, signatures, data) == Walk(members, more, data)
    decreases |members|
  {
    if |members| > 0 {
      var m := members[0];
      if !In(m.id, data) && !MissingRequired(m) && m.id in signatures {
        ExtraSignaturesIgnored(members[1..], signatures, more, Put(data, m.id, RecordOf(m, signatures[m.id])));
      }
    }
  }
}
