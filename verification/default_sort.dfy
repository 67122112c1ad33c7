/**
 * `Array.prototype.sort()` without a comparator on `[name, value]` pairs: each pair is
 * compared by its string form `String([name, value])`, and equal forms keep their order.
 */
module DefaultSort {
  import opened JsText
  import opened Types

  /** The string form of a value inside an array: a list joins with commas, `undefined` is empty. */
  function ValueText(v: HeaderValue): string {
    match v
    case Single(text) => text
    case Multi(items) => Join(items, ",")
    case Absent => ""
  }

  /** `String([name, value])`. */
  function EntryText(e: VerifyDataEntry): string {
    e.0 + "," + ValueText(e.1)
  }

  /** Every pair of entries is in order of their string forms. */
  ghost predicate Sorted(s: seq<VerifyDataEntry>) {
    forall i, j :: 0 <= i < j < |s| ==> LexLe(EntryText(s[i]), EntryText(s[j]))
  }

  /** Places `x` after every entry whose string form is not greater. */
  function Insert(x: VerifyDataEntry, s: seq<VerifyDataEntry>): seq<VerifyDataEntry>
    decreases |s|
  {
    if |s| == 0 then [x]
    else if !LexLe(EntryText(s[0]), EntryText(x)) then [x] + s
    else [s[0]] + Insert(x, s[1..])
  }

  /** The default sort, as an insertion sort taking the entries front to back. */
  function Sort(s: seq<VerifyDataEntry>): seq<VerifyDataEntry>
    decreases |s|
  {
    if |s| == 0 then [] else Insert(s[|s| - 1], Sort(s[..|s| - 1]))
  }

  lemma {:induction false} InsertPermutation(x: VerifyDataEntry, s: seq<VerifyDataEntry>)
    ensures multiset(Insert(x, s)) == multiset(s) + multiset{x}
    decreases |s|
  {
    if |s| > 0 && LexLe(EntryText(s[0]), EntryText(x)) {
      assert s == [s[0]] + s[1..];
      InsertPermutation(x, s[1..]);
    }
  }

  /** A lower bound of `x` and of every entry of `s` bounds every entry of the insertion. */
  lemma InsertBounded(a: string, x: VerifyDataEntry, s: seq<VerifyDataEntry>)
    requires LexLe(a, EntryText(x))
    requires forall k :: 0 <= k < |s| ==> LexLe(a, EntryText(s[k]))
    ensures forall k :: 0 <= k < |Insert(x, s)| ==> LexLe(a, EntryText(Insert(x, s)[k]))
  {
    var r := Insert(x, s);
    InsertPermutation(x, s);
    forall k | 0 <= k < |r| ensures LexLe(a, EntryText(r[k])) {
      assert r[k] in multiset(r);
      if r[k] != x {
        assert r[k] in multiset(s);
        var m :| 0 <= m < |s| && s[m] == r[k];
      }
    }
  }

  lemma {:induction false} InsertSorted(x: VerifyDataEntry, s: seq<VerifyDataEntry>)
    requires Sorted(s)
    ensures Sorted(Insert(x, s))
    decreases |s|
  {
    if |s| == 0 {
    } else if !LexLe(EntryText(s[0]), EntryText(x)) {
      LexLeTotal(EntryText(s[0]), EntryText(x));
      var r := [x] + s;
      forall i, j | 0 <= i < j < |r| ensures LexLe(EntryText(r[i]), EntryText(r[j])) {
        if i == 0 && j > 1 {
          LexLeTransitive(EntryText(x), EntryText(s[0]), EntryText(s[j - 1]));
        } else if i > 0 {
          assert r[i] == s[i - 1] && r[j] == s[j - 1];
        }
      }
    } else {
      var t := Insert(x, s[1..]);
      InsertSorted(x, s[1..]);
      InsertBounded(EntryText(s[0]), x, s[1..]);
      var r := [s[0]] + t;
      forall i, j | 0 <= i < j < |r| ensures LexLe(EntryText(r[i]), EntryText(r[j])) {
        if i == 0 {
          assert r[j] == t[j - 1];
        } else {
          assert r[i] == t[i - 1] && r[j] == t[j - 1];
        }
      }
    }
  }

  /** The default sort returns the same entries, in order of their string forms. */
  lemma {:induction false} SortSortedPermutation(s: seq<VerifyDataEntry>)
    ensures multiset(Sort(s)) == multiset(s)
    ensures Sorted(Sort(s))
    decreases |s|
  {
    if |s| > 0 {
      var front := s[..|s| - 1];
      SortSortedPermutation(front);
      InsertPermutation(s[|s| - 1], Sort(front));
      InsertSorted(s[|s| - 1], Sort(front));
      assert s == front + [s[|s| - 1]];
    }
  }
}
