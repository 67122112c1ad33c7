/**
 * `generateVerifyDataEntries`, the older throwing variant: header names keep their case, a
 * `Digest` header needs a `Content-Type` header, and the entries come back in default sort
 * order. A thrown error is the `Err` case carrying its message.
 */
module VerifyDataEntries {
  import opened Wrappers
  import opened JsText
  import opened JsObject
  import JsNumber
  import opened Types
  import DefaultSort
  import VerifyDataConstruction
  import Common

  const DuplicateHeaderMessage := "duplicate case insensitive header keys detected. Specify an array of values instead."
  const FutureCreatedMessage := "created date cannot be in the future"
  const MissingContentTypeMessage := "content-type header must be defined if a body is defined"
  const UnresolvedUrlMessage := "cannot resolve host and path from url"

  /** The exact-case `Digest` property is defined while the exact-case `Content-Type` one is not. */
  predicate DigestWithoutContentType(headers: HttpHeaders) {
    ValueAt(headers, "Digest") != Absent && ValueAt(headers, "Content-Type") == Absent
  }

  /** The derived fields spread with the headers as given. */
  function MergedData(headers: HttpHeaders, httpMethod: string, path: string, created: JsNumber.Number, host: string): VerifyData {
    Assign(VerifyDataConstruction.DerivedFields(httpMethod, path, created, host), headers)
  }

  function GenerateVerifyDataEntries(headers: HttpHeaders, created: JsNumber.Number, httpMethod: string, url: ParsedUrl, now: int): Result<seq<VerifyDataEntry>, string> {
    if VerifyDataConstruction.IsObjectKeysIgnoreCaseDuplicated(headers) then Err(DuplicateHeaderMessage)
    else if JsNumber.GreaterThan(created, now) then Err(FutureCreatedMessage)
    else if DigestWithoutContentType(headers) then Err(MissingContentTypeMessage)
    else if url.host.None? || url.path.None? then Err(UnresolvedUrlMessage)
    else Ok(DefaultSort.Sort(MergedData(headers, httpMethod, url.path.value, created, url.host.value)))
  }

  /** The four checks in their order; the first failing one decides the message. */
  lemma GenerateVerifyDataEntriesErrors(headers: HttpHeaders, created: JsNumber.Number, httpMethod: string, url: ParsedUrl, now: int)
    ensures var r := GenerateVerifyDataEntries(headers, created, httpMethod, url, now);
      var dup := VerifyDataConstruction.IgnoreCaseCollision(headers);
      var future := JsNumber.GreaterThan(created, now);
      (r == Err(DuplicateHeaderMessage) <==> dup) &&
      (r == Err(FutureCreatedMessage) <==> !dup && future) &&
      (r == Err(MissingContentTypeMessage) <==> !dup && !future && DigestWithoutContentType(headers)) &&
      (r == Err(UnresolvedUrlMessage) <==>
        !dup && !future && !DigestWithoutContentType(headers) && (url.host.None? || url.path.None?)) &&
      (r.Ok? <==> !dup && !future && !DigestWithoutContentType(headers) && url.host.Some? && url.path.Some?)
  {
    VerifyDataConstruction.DuplicateDetection(headers);
  }

  /** The content-type check looks only at the exact names: lower-case `digest` never trips it. */
  lemma ContentTypeCheckIsCaseSensitive(v: HeaderValue)
    requires v != Absent
    ensures !DigestWithoutContentType([("digest", v)])
    ensures DigestWithoutContentType([("Digest", v)])
    ensures !DigestWithoutContentType([("Digest", v), ("Content-Type", v)])
    ensures DigestWithoutContentType([("Digest", v), ("content-type", v)])
  {
    assert Get([("content-type", v)], "Content-Type") == None;
    var both := [("Digest", v), ("Content-Type", v)];
    assert both[0].0 != "Content-Type" && both[1..] == [("Content-Type", v)];
    assert Get(both, "Content-Type") == Some(v);
  }

  /** On success the entries are the merged object's pairs, in default sort order. */
  lemma GenerateVerifyDataEntriesSorted(headers: HttpHeaders, created: JsNumber.Number, httpMethod: string, url: ParsedUrl, now: int)
    requires GenerateVerifyDataEntries(headers, created, httpMethod, url, now).Ok?
    ensures var r := GenerateVerifyDataEntries(headers, created, httpMethod, url, now).value;
      multiset(r) == multiset(MergedData(headers, httpMethod, url.path.value, created, url.host.value)) &&
      DefaultSort.Sorted(r)
  {
    DefaultSort.SortSortedPermutation(MergedData(headers, httpMethod, url.path.value, created, url.host.value));
  }

  /**
   * In the merged object every header keeps its own name and value, and a derived field is
   * replaced only by a header of exactly the same name.
   */
  lemma MergedDataContents(headers: HttpHeaders, httpMethod: string, path: string, created: JsNumber.Number, host: string, k: string)
    requires WellFormed(headers)
    ensures var m := MergedData(headers, httpMethod, path, created, host);
      (Has(headers, k) ==> Get(m, k) == Get(headers, k)) &&
      (k == "host" && !Has(headers, k) ==> Get(m, k) == Some(Single(host))) &&
      (k == "(created)" && !Has(headers, k) ==> Get(m, k) == Some(Single(JsNumber.ToString(created)))) &&
      (k == "(request-target)" && !Has(headers, k) ==> Get(m, k) == Some(Single(JsText.ToLower(httpMethod) + " " + path)))
  {
    var d := VerifyDataConstruction.DerivedFields(httpMethod, path, created, host);
    AssignGet(d, headers, k);
    assert WellFormed(d);
    GetAt(d, 0);
    GetAt(d, 1);
    GetAt(d, 2);
    Common.JoinWithSpacePair(JsText.ToLower(httpMethod), path);
  }
}
