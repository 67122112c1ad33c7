/**
 * `generateVerifyData`: the object of named values a signature covers. It holds the three
 * derived fields `(request-target)`, `(created)` and `host`, then every request header under
 * its lower-cased name.
 */
module VerifyDataConstruction {
  import opened Wrappers
  import opened JsArray
  import opened JsText
  import opened JsObject
  import JsNumber
  import opened Types
  import opened Common

  const DuplicateHeaderMessage := "Duplicate case insensitive header keys detected, specify an array of values instead"
  const FutureCreatedMessage := "Created date cannot be in the future"
  const UnresolvedUrlMessage := "Cannot resolve host and path from url"

  /** `reduceKeysToLowerCase`: the headers re-assigned one by one under lower-cased names. */
  function ReduceKeysToLowerCase(headers: HttpHeaders): HttpHeaders
    decreases |headers|
  {
    if |headers| == 0 then []
    else
      var last := headers[|headers| - 1];
      Put(ReduceKeysToLowerCase(headers[..|headers| - 1]), ToLower(last.0), last.1)
  }

  /** `isObjectKeysIgnoreCaseDuplicated`: lower-casing and de-duplicating the names loses some. */
  function IsObjectKeysIgnoreCaseDuplicated(headers: HttpHeaders): bool {
    |Uniq(LowerAll(Keys(headers)))| != |Keys(headers)|
  }

  /** Reference definition: two headers whose names differ at most in letter case. */
  ghost predicate IgnoreCaseCollision(headers: HttpHeaders) {
    exists i, j :: 0 <= i < j < |headers| && ToLower(headers[i].0) == ToLower(headers[j].0)
  }

  /** The headers with lower-cased names, in their order. */
  function LowerCased(headers: HttpHeaders): (r: HttpHeaders)
    ensures |r| == |headers|
    ensures forall i :: 0 <= i < |r| ==> r[i] == (ToLower(headers[i].0), headers[i].1)
  {
    seq(|headers|, i requires 0 <= i < |headers| => (ToLower(headers[i].0), headers[i].1))
  }

  /** The duplicate check detects exactly the case-insensitive collisions. */
  lemma DuplicateDetection(headers: HttpHeaders)
    ensures IsObjectKeysIgnoreCaseDuplicated(headers) <==> IgnoreCaseCollision(headers)
  {
    var lowered := LowerAll(Keys(headers));
    UniqLength(lowered);
    if IgnoreCaseCollision(headers) {
      var i, j :| 0 <= i < j < |headers| && ToLower(headers[i].0) == ToLower(headers[j].0);
      assert lowered[i] == lowered[j];
    } else {
      forall i, j | 0 <= i < j < |lowered| ensures lowered[i] != lowered[j] {
        assert ToLower(headers[i].0) != ToLower(headers[j].0);
      }
    }
  }

  /** Without collisions, re-assigning under lower-cased names renames every header in place. */
  lemma {:induction false} ReduceKeysToLowerCaseRenames(headers: HttpHeaders)
    requires !IgnoreCaseCollision(headers)
    ensures ReduceKeysToLowerCase(headers) == LowerCased(headers)
    ensures WellFormed(LowerCased(headers))
    decreases |headers|
  {
    if |headers| > 0 {
      var front := headers[..|headers| - 1];
      var last := headers[|headers| - 1];
      forall i, j | 0 <= i < j < |front| ensures ToLower(front[i].0) != ToLower(front[j].0) {
        assert headers[i] == front[i] && headers[j] == front[j];
      }
      ReduceKeysToLowerCaseRenames(front);
      var lf := LowerCased(front);
      assert !Has(lf, ToLower(last.0)) by {
        forall i | 0 <= i < |lf| ensures Keys(lf)[i] != ToLower(last.0) {
          assert headers[i] == front[i];
          assert ToLower(headers[i].0) != ToLower(headers[|headers| - 1].0);
        }
      }
      PutNew(lf, ToLower(last.0), last.1);
      assert LowerCased(headers) == lf + [(ToLower(last.0), last.1)];
      var lh := LowerCased(headers);
      forall i, j | 0 <= i < j < |lh| ensures Keys(lh)[i] != Keys(lh)[j] {
        assert ToLower(headers[i].0) != ToLower(headers[j].0);
      }
    }
  }

  /** The derived fields in their order: request target, creation time, host. */
  function DerivedFields(httpMethod: string, path: string, created: JsNumber.Number, host: string): (r: VerifyData)
    ensures Keys(r) == ["(request-target)", "(created)", "host"]
  {
    [ ("(request-target)", Single(JoinWithSpace([ToLower(httpMethod), path]))),
      ("(created)", Single(JsNumber.ToString(created))),
      ("host", Single(host)) ]
  }

  /** `generateVerifyData`; the clock reading is the parameter `now`, `url.parse`'s answer is `url`. */
  function GenerateVerifyData(headers: HttpHeaders, created: JsNumber.Number, httpMethod: string, url: ParsedUrl, now: int): Result<VerifyData, string> {
    if IsObjectKeysIgnoreCaseDuplicated(headers) then Err(DuplicateHeaderMessage)
    else if JsNumber.GreaterThan(created, now) then Err(FutureCreatedMessage)
    else if url.host.None? || url.path.None? then Err(UnresolvedUrlMessage)
    else Ok(Assign(DerivedFields(httpMethod, url.path.value, created, url.host.value), ReduceKeysToLowerCase(headers)))
  }

  /**
   * The checks run in the order duplicates, clock, URL, and the first failing one decides
   * the error; a creation time equal to `now` passes.
   */
  lemma GenerateVerifyDataErrors(headers: HttpHeaders, created: JsNumber.Number, httpMethod: string, url: ParsedUrl, now: int)
    ensures var r := GenerateVerifyData(headers, created, httpMethod, url, now);
      (r == Err(DuplicateHeaderMessage) <==> IgnoreCaseCollision(headers)) &&
      (r == Err(FutureCreatedMessage) <==> !IgnoreCaseCollision(headers) && JsNumber.GreaterThan(created, now)) &&
      (r == Err(UnresolvedUrlMessage) <==>
        !IgnoreCaseCollision(headers) && !JsNumber.GreaterThan(created, now) && (url.host.None? || url.path.None?)) &&
      (r.Ok? <==>
        !IgnoreCaseCollision(headers) && !JsNumber.GreaterThan(created, now) && url.host.Some? && url.path.Some?)
  {
    DuplicateDetection(headers);
  }

  /** On success the verify data is the derived fields spread with the renamed headers. */
  lemma SuccessIsSpread(headers: HttpHeaders, created: JsNumber.Number, httpMethod: string, url: ParsedUrl, now: int)
    requires GenerateVerifyData(headers, created, httpMethod, url, now).Ok?
    ensures url.host.Some? && url.path.Some?
    ensures GenerateVerifyData(headers, created, httpMethod, url, now).value
      == Assign(DerivedFields(httpMethod, url.path.value, created, url.host.value), LowerCased(headers))
    ensures WellFormed(DerivedFields(httpMethod, url.path.value, created, url.host.value))
    ensures WellFormed(LowerCased(headers))
  {
    DuplicateDetection(headers);
    ReduceKeysToLowerCaseRenames(headers);
  }

  /**
   * On success the derived fields come first, then the lower-cased header names; there are no
   * other names and no name twice.
   */
  lemma GenerateVerifyDataNames(headers: HttpHeaders, created: JsNumber.Number, httpMethod: string, url: ParsedUrl, now: int)
    requires GenerateVerifyData(headers, created, httpMethod, url, now).Ok?
    ensures var vd := GenerateVerifyData(headers, created, httpMethod, url, now).value;
      WellFormed(vd) && |vd| >= 3 &&
      Keys(vd)[..3] == ["(request-target)", "(created)", "host"] &&
      (forall k :: Has(vd, k) <==> k in ["(request-target)", "(created)", "host"] || k in LowerAll(Keys(headers)))
  {
    SuccessIsSpread(headers, created, httpMethod, url, now);
    var d := DerivedFields(httpMethod, url.path.value, created, url.host.value);
    var l := LowerCased(headers);
    AssignKeys(d, l);
    assert Keys(l) == LowerAll(Keys(headers));
  }

  /** On success every header is present under its lower-cased name with its value unchanged. */
  lemma GenerateVerifyDataHeaders(headers: HttpHeaders, created: JsNumber.Number, httpMethod: string, url: ParsedUrl, now: int)
    requires GenerateVerifyData(headers, created, httpMethod, url, now).Ok?
    ensures var vd := GenerateVerifyData(headers, created, httpMethod, url, now).value;
      forall i :: 0 <= i < |headers| ==> Get(vd, ToLower(headers[i].0)) == Some(headers[i].1)
  {
    SuccessIsSpread(headers, created, httpMethod, url, now);
    var d := DerivedFields(httpMethod, url.path.value, created, url.host.value);
    var l := LowerCased(headers);
    forall i | 0 <= i < |headers| ensures Get(Assign(d, l), ToLower(headers[i].0)) == Some(headers[i].1) {
      AssignGet(d, l, ToLower(headers[i].0));
      GetAt(l, i);
      assert Keys(l)[i] == ToLower(headers[i].0);
    }
  }

  /** A derived field keeps its computed value unless some header's lower-cased name replaces it. */
  lemma GenerateVerifyDataDerived(headers: HttpHeaders, created: JsNumber.Number, httpMethod: string, url: ParsedUrl, now: int)
    requires GenerateVerifyData(headers, created, httpMethod, url, now).Ok?
    ensures var vd := GenerateVerifyData(headers, created, httpMethod, url, now).value;
      ("(request-target)" !in LowerAll(Keys(headers)) ==>
        Get(vd, "(request-target)") == Some(Single(ToLower(httpMethod) + " " + url.path.value))) &&
      ("(created)" !in LowerAll(Keys(headers)) ==>
        Get(vd, "(created)") == Some(Single(JsNumber.ToString(created)))) &&
      ("host" !in LowerAll(Keys(headers)) ==>
        Get(vd, "host") == Some(Single(url.host.value)))
  {
    SuccessIsSpread(headers, created, httpMethod, url, now);
    var d := DerivedFields(httpMethod, url.path.value, created, url.host.value);
    var l := LowerCased(headers);
    assert Keys(l) == LowerAll(Keys(headers));
    JoinWithSpacePair(ToLower(httpMethod), url.path.value);
    AssignGet(d, l, "(request-target)");
    AssignGet(d, l, "(created)");
    AssignGet(d, l, "host");
    GetAt(d, 1);
    GetAt(d, 2);
  }
}
