/**
 * `generateSortedVerifyDataEntries`: the verify data as `[name, value]` entries, either in
 * the order of a covered-fields list or, without one, in default sort order.
 */
module SortedEntries {
  import opened Wrappers
  import opened JsObject
  import opened Types
  import DefaultSort

  const MissingCoveredFieldMessage := "Covered fields list must include the exact keys within verifyData"

  /**
   * The `coveredFields` argument: absent, a list of names, or (as some callers pass it) a
   * plain string, which Ramda's `all` and `reduce` walk one character at a time.
   */
  datatype CoveredFieldsArg = Undefined | Fields(names: seq<string>) | Text(text: string)

  /** JavaScript truthiness: any array is truthy, only the empty string is a falsy string. */
  predicate Truthy(c: CoveredFieldsArg) {
    match c
    case Undefined => false
    case Fields(_) => true
    case Text(t) => t != ""
  }

  /** The names the list walk visits: the array's items, or each character of the string. */
  function Walked(c: CoveredFieldsArg): (r: seq<string>)
    ensures c.Fields? ==> r == c.names
    ensures c.Text? ==> |r| == |c.text| && forall i :: 0 <= i < |r| ==> r[i] == [c.text[i]]
  {
    match c
    case Undefined => []
    case Fields(names) => names
    case Text(t) => seq(|t|, i requires 0 <= i < |t| => [t[i]])
  }

  /** The `reduce` that builds `[field, verifyData[field]]` for each covered field in turn. */
  function CoveredEntries(verifyData: VerifyData, fields: seq<string>): (r: seq<VerifyDataEntry>)
    ensures |r| == |fields|
    ensures forall i :: 0 <= i < |fields| ==> r[i] == (fields[i], ValueAt(verifyData, fields[i]))
    decreases |fields|
  {
    if |fields| == 0 then []
    else
      var last := fields[|fields| - 1];
      CoveredEntries(verifyData, fields[..|fields| - 1]) + [(last, ValueAt(verifyData, last))]
  }

  /** `sortByCoveredFields`. */
  function SortByCoveredFields(verifyData: VerifyData, fields: seq<string>): Result<seq<VerifyDataEntry>, string> {
    if !(forall i :: 0 <= i < |fields| ==> Has(verifyData, fields[i])) then Err(MissingCoveredFieldMessage)
    else Ok(CoveredEntries(verifyData, fields))
  }

  /** `sortByDefault`: every pair of the verify data, sorted. */
  function SortByDefault(verifyData: VerifyData): seq<VerifyDataEntry> {
    DefaultSort.Sort(verifyData)
  }

  function GenerateSortedVerifyDataEntries(verifyData: VerifyData, coveredFields: CoveredFieldsArg): Result<seq<VerifyDataEntry>, string> {
    if Truthy(coveredFields) then SortByCoveredFields(verifyData, Walked(coveredFields))
    else Ok(SortByDefault(verifyData))
  }

  /**
   * With a covered-fields list the result is an error exactly when some listed name is not
   * an own name of the verify data; the check does not ask for every name to be listed.
   */
  lemma CoveredFieldsError(verifyData: VerifyData, names: seq<string>)
    ensures GenerateSortedVerifyDataEntries(verifyData, Fields(names)).Err?
        <==> exists i :: 0 <= i < |names| && !Has(verifyData, names[i])
    ensures GenerateSortedVerifyDataEntries(verifyData, Fields(names)).Err?
        ==> GenerateSortedVerifyDataEntries(verifyData, Fields(names)).error == MissingCoveredFieldMessage
  {
  }

  /**
   * On success there is one entry per covered field, in the list's order, holding that
   * field's value: names not listed are dropped and a name listed twice appears twice.
   */
  lemma CoveredFieldsEntries(verifyData: VerifyData, names: seq<string>)
    requires GenerateSortedVerifyDataEntries(verifyData, Fields(names)).Ok?
    ensures var r := GenerateSortedVerifyDataEntries(verifyData, Fields(names)).value;
      |r| == |names| &&
      (forall i :: 0 <= i < |r| ==> r[i].0 == names[i] && Get(verifyData, names[i]) == Some(r[i].1))
  {
    forall i | 0 <= i < |names| ensures Get(verifyData, names[i]) == Some(ValueAt(verifyData, names[i])) {
      GetMeaning(verifyData, names[i]);
    }
  }

  /** An empty array is truthy: it takes the covered-fields path and yields no entries. */
  lemma EmptyCoveredFields(verifyData: VerifyData)
    ensures GenerateSortedVerifyDataEntries(verifyData, Fields([])) == Ok([])
  {
  }

  /** Without covered fields the result is never an error: all pairs, in default sort order. */
  lemma DefaultOrder(verifyData: VerifyData, coveredFields: CoveredFieldsArg)
    requires !Truthy(coveredFields)
    ensures GenerateSortedVerifyDataEntries(verifyData, coveredFields).Ok?
    ensures var r := GenerateSortedVerifyDataEntries(verifyData, coveredFields).value;
      multiset(r) == multiset(verifyData) && DefaultSort.Sorted(r)
  {
    DefaultSort.SortSortedPermutation(verifyData);
  }

  /**
   * A non-empty string in place of the list covers its single characters: it succeeds only
   * when each character is itself a name of the verify data.
   */
  lemma TextCoveredFields(verifyData: VerifyData, text: string)
    requires text != ""
    ensures GenerateSortedVerifyDataEntries(verifyData, Text(text)).Ok?
        <==> forall i :: 0 <= i < |text| ==> Has(verifyData, [text[i]])
  {
    var w := Walked(Text(text));
    assert (forall i :: 0 <= i < |w| ==> Has(verifyData, w[i]))
        <==> forall i :: 0 <= i < |text| ==> Has(verifyData, [text[i]]);
  }
}
