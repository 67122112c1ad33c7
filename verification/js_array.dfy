/** Array helpers with the meaning Ramda and JavaScript give them. */
module JsArray {

  /** No element occurs twice. */
  ghost predicate Distinct<T>(s: seq<T>) {
    forall i, j :: 0 <= i < j < |s| ==> s[i] != s[j]
  }

  /** Ramda `uniq`: the first occurrence of every element, in order. */
  function Uniq<T(==)>(s: seq<T>): seq<T>
    decreases |s|
  {
    if |s| == 0 then []
    else
      var u := Uniq(s[..|s| - 1]);
      if s[|s| - 1] in u then u else u + [s[|s| - 1]]
  }

  lemma {:induction false} UniqElements<T>(s: seq<T>)
    ensures |Uniq(s)| <= |s|
    ensures forall x :: x in Uniq(s) <==> x in s
    decreases |s|
  {
    if |s| > 0 {
      var p := s[..|s| - 1];
      UniqElements(p);
      assert s == p + [s[|s| - 1]];
    }
  }

  /** `uniq` shortens a list exactly when the list repeats an element. */
  lemma {:induction false} UniqLength<T>(s: seq<T>)
    ensures |Uniq(s)| == |s| <==> Distinct(s)
    decreases |s|
  {
    if |s| > 0 {
      var p := s[..|s| - 1];
      var x := s[|s| - 1];
      UniqLength(p);
      UniqElements(p);
      if x in p {
        var j :| 0 <= j < |p| && p[j] == x;
        assert s[j] == s[|s| - 1];
      } else if Distinct(p) {
        assert Distinct(s) by {
          forall i, k | 0 <= i < k < |s| ensures s[i] != s[k] {
            if k == |s| - 1 {
              assert s[i] == p[i];
            } else {
              assert s[i] == p[i] && s[k] == p[k];
            }
          }
        }
      } else {
        var i, k :| 0 <= i < k < |p| && p[i] == p[k];
        assert s[i] == s[k];
      }
    }
  }
}
