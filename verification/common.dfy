/**
 * Canonicalisation of verify-data entries into the text that is signed, after section 2.3
 * of draft-cavage-http-signatures-12, and the header list of its section 2.1.6.
 */
module Common {
  import opened JsText
  import opened Utf8
  import opened Types

  /** Ramda `join(" ")`. */
  function JoinWithSpace(parts: seq<string>): string {
    Join(parts, " ")
  }

  lemma JoinWithSpacePair(a: string, b: string)
    ensures JoinWithSpace([a, b]) == a + " " + b
  {
    assert [a, b][1..] == [b];
    assert Join([b], " ") == b;
    assert Join([a, b], " ") == a + " " + Join([b], " ");
  }

  /** Words without spaces are recovered by splitting their space-joined text. */
  lemma JoinWithSpaceSplits(parts: seq<string>)
    requires |parts| >= 1
    requires forall i :: 0 <= i < |parts| ==> ' ' !in parts[i]
    ensures Split(JoinWithSpace(parts), ' ') == parts
  {
    SplitJoin(parts, ' ');
  }

  function EntryKeys(entries: seq<VerifyDataEntry>): (r: seq<string>)
    ensures |r| == |entries| && forall i :: 0 <= i < |r| ==> r[i] == entries[i].0
  {
    seq(|entries|, i requires 0 <= i < |entries| => entries[i].0)
  }

  /** `generateHeadersListString`: the entry names in order, space-joined, then lower-cased. */
  function HeadersListString(entries: seq<VerifyDataEntry>): string {
    ToLower(JoinWithSpace(EntryKeys(entries)))
  }

  /**
   * The header list is the lower-cased names in entry order: splitting it on spaces gives
   * one word per entry, unless a name itself holds a space.
   */
  lemma HeadersListStringWords(entries: seq<VerifyDataEntry>)
    requires |entries| >= 1
    requires forall i :: 0 <= i < |entries| ==> ' ' !in entries[i].0
    ensures Split(HeadersListString(entries), ' ') == LowerAll(EntryKeys(entries))
  {
    var keys := EntryKeys(entries);
    ToLowerJoin(keys, " ");
    assert ToLower(" ") == " ";
    forall i | 0 <= i < |keys| ensures ' ' !in LowerAll(keys)[i] {
      assert ' ' !in keys[i];
    }
    SplitJoin(LowerAll(keys), ' ');
  }

  /** The header list of one more entry is the old list, a space and the new lower-cased name. */
  lemma HeadersListStringAppend(entries: seq<VerifyDataEntry>, e: VerifyDataEntry)
    requires |entries| >= 1
    ensures HeadersListString(entries + [e]) == HeadersListString(entries) + " " + ToLower(e.0)
  {
    assert EntryKeys(entries + [e]) == EntryKeys(entries) + [e.0];
    JoinAppend(EntryKeys(entries), e.0, " ");
    ToLowerConcat(JoinWithSpace(EntryKeys(entries)) + " ", e.0);
    ToLowerConcat(JoinWithSpace(EntryKeys(entries)), " ");
  }

  /** The text after `": "` on a line: a list joined by `", "` then trimmed, a string trimmed. */
  function ProcessedValue(v: HeaderValue): string {
    match v
    case Multi(items) => Trim(Join(items, ", "))
    case Single(text) => Trim(text)
    case Absent => "undefined"
  }

  /** A processed value has no white space at either end. */
  lemma ProcessedValueTrimmed(v: HeaderValue)
    ensures Trimmed(ProcessedValue(v))
  {
    match v
    case Multi(items) => TrimIsTrimmed(Join(items, ", "));
    case Single(text) => TrimIsTrimmed(text);
    case Absent =>
  }

  /** One line of the signature string: the name verbatim, `": "`, the processed value. */
  function SignatureLine(e: VerifyDataEntry): string {
    e.0 + ": " + ProcessedValue(e.1)
  }

  function SignatureLines(entries: seq<VerifyDataEntry>): (r: seq<string>)
    ensures |r| == |entries| && forall i :: 0 <= i < |r| ==> r[i] == SignatureLine(entries[i])
  {
    seq(|entries|, i requires 0 <= i < |entries| => SignatureLine(entries[i]))
  }

  /** `generateSignatureStringFromEntries`: the lines joined by newlines. */
  function SignatureString(entries: seq<VerifyDataEntry>): string {
    Join(SignatureLines(entries), "\n")
  }

  /** `generateSignatureBytes`: the UTF-8 bytes of the signature string. */
  function SignatureBytes(entries: seq<VerifyDataEntry>): seq<byte> {
    Encode(SignatureString(entries))
  }

  /** No newline in a name or in any text of a value. */
  predicate SingleLine(e: VerifyDataEntry) {
    '\n' !in e.0 &&
    match e.1
    case Single(text) => '\n' !in text
    case Multi(items) => forall j :: 0 <= j < |items| ==> '\n' !in items[j]
    case Absent => true
  }

  lemma SignatureLineSingle(e: VerifyDataEntry)
    requires SingleLine(e)
    ensures '\n' !in SignatureLine(e)
  {
    match e.1
    case Single(text) => TrimKeepsCharacters(text);
    case Multi(items) =>
      JoinAvoids(items, ", ", '\n');
      TrimKeepsCharacters(Join(items, ", "));
    case Absent =>
  }

  /**
   * The signature string has exactly one line per entry, in entry order: splitting it on
   * newlines gives back the lines, as long as no name or value holds a newline itself.
   */
  lemma SignatureStringLines(entries: seq<VerifyDataEntry>)
    requires |entries| >= 1
    requires forall i :: 0 <= i < |entries| ==> SingleLine(entries[i])
    ensures Split(SignatureString(entries), '\n') == SignatureLines(entries)
  {
    forall i | 0 <= i < |entries| ensures '\n' !in SignatureLines(entries)[i] {
      SignatureLineSingle(entries[i]);
    }
    SplitJoin(SignatureLines(entries), '\n');
  }

  /** One more entry adds a newline and its line: the lines are separators, not terminators. */
  lemma SignatureStringAppend(entries: seq<VerifyDataEntry>, e: VerifyDataEntry)
    requires |entries| >= 1
    ensures SignatureString(entries + [e]) == SignatureString(entries) + "\n" + SignatureLine(e)
  {
    assert SignatureLines(entries + [e]) == SignatureLines(entries) + [SignatureLine(e)];
    JoinAppend(SignatureLines(entries), SignatureLine(e), "\n");
  }

  /** The signature string never ends with a newline. */
  lemma {:induction false} SignatureStringNoTrailingNewline(entries: seq<VerifyDataEntry>)
    ensures |entries| >= 1 ==> |SignatureString(entries)| >= 2
    ensures |entries| >= 1 ==> SignatureString(entries)[|SignatureString(entries)| - 1] != '\n'
    decreases |entries|
  {
    if |entries| >= 1 {
      var last := entries[|entries| - 1];
      var line := SignatureLine(last);
      var pv := ProcessedValue(last.1);
      ProcessedValueTrimmed(last.1);
      assert line[|line| - 1] != '\n' by {
        if |pv| > 0 {
          assert line[|line| - 1] == pv[|pv| - 1];
        } else {
          assert line[|line| - 1] == ' ';
        }
      }
      if |entries| == 1 {
        assert SignatureString(entries) == line;
      } else {
        var front := entries[..|entries| - 1];
        assert entries == front + [last];
        SignatureStringAppend(front, last);
      }
    }
  }

  /** Different signature strings give different bytes, so the bytes fix the signed text. */
  lemma SignatureBytesDetermineString(a: seq<VerifyDataEntry>, b: seq<VerifyDataEntry>)
    requires SignatureBytes(a) == SignatureBytes(b)
    ensures SignatureString(a) == SignatureString(b)
  {
    EncodeInjective(SignatureString(a), SignatureString(b));
  }
}
