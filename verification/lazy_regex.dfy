/**
 * `RegExp.prototype.exec` for the patterns the parameter parser uses, which all have the shape
 * `<literal prefix>(.+?)<closing character>`: the leftmost start at which the prefix occurs and a
 * lazy group of one or more characters other than line terminators reaches the closing character,
 * and the shortest such group there.
 */
module LazyRegex {
  import opened Wrappers
  import opened JsText

  /** The characters `.` does not match. */
  predicate LineTerminator(c: char) {
    c == '\n' || c == '\r' || c == '\U{2028}' || c == '\U{2029}'
  }

  /** `s[start..e]` is a possible group: non-empty, free of line terminators, and `s[e]` closes it. */
  ghost predicate Closes(s: string, start: nat, e: nat, close: char) {
    start < e < |s| && s[e] == close && forall i :: start <= i < e ==> !LineTerminator(s[i])
  }

  predicate PrefixAt(s: string, p: nat, prefix: string) {
    p + |prefix| <= |s| && s[p..p + |prefix|] == prefix
  }

  /** The pattern matches at `p` with group `g`, and no shorter group would do. */
  ghost predicate LazyMatchAt(s: string, p: nat, prefix: string, close: char, g: string) {
    var start := p + |prefix|;
    PrefixAt(s, p, prefix) && Closes(s, start, start + |g|, close) && g == s[start..start + |g|] &&
    forall e: nat :: start < e < start + |g| ==> !Closes(s, start, e, close)
  }

  /** No group starting at `start` is closed. */
  ghost predicate NoGroupFrom(s: string, start: nat, close: char) {
    forall e: nat :: !Closes(s, start, e, close)
  }

  /** The pattern cannot match at `p` with any group. */
  ghost predicate NoMatchAt(s: string, p: nat, prefix: string, close: char) {
    !PrefixAt(s, p, prefix) || NoGroupFrom(s, p + |prefix|, close)
  }

  /** Lazy extension: tries `s[k]` as the closing character after the group `s[start..k]`. */
  function LazyEnd(s: string, start: nat, k: nat, close: char): (r: Option<nat>)
    requires start < k
    ensures r.Some? ==> k <= r.value < |s|
    decreases |s| - k
  {
    if k >= |s| || LineTerminator(s[k - 1]) then None
    else if s[k] == close then Some(k)
    else LazyEnd(s, start, k + 1, close)
  }

  /** The group the pattern captures when matching at `p`, if it matches there. */
  function MatchAt(s: string, p: nat, prefix: string, close: char): Option<string> {
    if !PrefixAt(s, p, prefix) then None
    else
      var start := p + |prefix|;
      match LazyEnd(s, start, start + 1, close)
      case None => None
      case Some(e) => Some(s[start..e])
  }

  /** The first match at a start position from `p` on. */
  function ExecFrom(s: string, p: nat, prefix: string, close: char): Option<string>
    decreases |s| + 1 - p
  {
    if p > |s| then None
    else match MatchAt(s, p, prefix, close)
      case Some(g) => Some(g)
      case None => ExecFrom(s, p + 1, prefix, close)
  }

  /** The captured group of `exec`, or `None` for `null`. */
  function Exec(s: string, prefix: string, close: char): Option<string> {
    ExecFrom(s, 0, prefix, close)
  }

  lemma {:induction false} LazyEndMeaning(s: string, start: nat, k: nat, close: char)
    requires start < k
    requires forall i :: start <= i < k - 1 && i < |s| ==> !LineTerminator(s[i])
    requires forall e: nat :: start < e < k ==> !Closes(s, start, e, close)
    ensures LazyEnd(s, start, k, close).Some? ==>
      var e := LazyEnd(s, start, k, close).value;
      Closes(s, start, e, close) && forall e': nat :: start < e' < e ==> !Closes(s, start, e', close)
    ensures LazyEnd(s, start, k, close).None? ==> NoGroupFrom(s, start, close)
    decreases |s| - k
  {
    if k >= |s| {
    } else if LineTerminator(s[k - 1]) {
      forall e: nat ensures !Closes(s, start, e, close) {
        if k <= e && start < e < |s| {
          assert start <= k - 1 < e;
        }
      }
    } else if s[k] != close {
      LazyEndMeaning(s, start, k + 1, close);
    }
  }

  lemma MatchAtMeaning(s: string, p: nat, prefix: string, close: char)
    ensures MatchAt(s, p, prefix, close).Some? ==> LazyMatchAt(s, p, prefix, close, MatchAt(s, p, prefix, close).value)
    ensures MatchAt(s, p, prefix, close).None? ==> NoMatchAt(s, p, prefix, close)
  {
    if PrefixAt(s, p, prefix) {
      var start := p + |prefix|;
      LazyEndMeaning(s, start, start + 1, close);
    }
  }

  lemma {:induction false} ExecFromMeaning(s: string, p: nat, prefix: string, close: char)
    ensures ExecFrom(s, p, prefix, close).Some? ==>
      exists q: nat :: (p <= q &&
        LazyMatchAt(s, q, prefix, close, ExecFrom(s, p, prefix, close).value) &&
        forall r: nat :: p <= r < q ==> NoMatchAt(s, r, prefix, close))
    ensures ExecFrom(s, p, prefix, close).None? ==> forall q: nat :: p <= q ==> NoMatchAt(s, q, prefix, close)
    decreases |s| + 1 - p
  {
    if p <= |s| {
      MatchAtMeaning(s, p, prefix, close);
      if MatchAt(s, p, prefix, close).None? {
        ExecFromMeaning(s, p + 1, prefix, close);
        if ExecFrom(s, p + 1, prefix, close).Some? {
          var q: nat :| p + 1 <= q && LazyMatchAt(s, q, prefix, close, ExecFrom(s, p + 1, prefix, close).value) &&
            forall r: nat :: p + 1 <= r < q ==> NoMatchAt(s, r, prefix, close);
          assert forall r: nat :: p <= r < q ==> NoMatchAt(s, r, prefix, close);
        }
      }
    } else {
      forall q: nat | p <= q ensures NoMatchAt(s, q, prefix, close) {
        assert !PrefixAt(s, q, prefix);
      }
    }
  }

  /**
   * `exec` finds the leftmost start at which the pattern matches and the shortest group there;
   * it gives `null` exactly when the pattern matches nowhere.
   */
  lemma ExecMeaning(s: string, prefix: string, close: char)
    ensures Exec(s, prefix, close).Some? ==> exists p: nat ::
      LazyMatchAt(s, p, prefix, close, Exec(s, prefix, close).value) &&
      forall q: nat :: q < p ==> NoMatchAt(s, q, prefix, close)
    ensures Exec(s, prefix, close).None? <==> forall p: nat :: NoMatchAt(s, p, prefix, close)
  {
    ExecFromMeaning(s, 0, prefix, close);
    if Exec(s, prefix, close).Some? {
      var p: nat :| LazyMatchAt(s, p, prefix, close, Exec(s, prefix, close).value);
      assert !NoMatchAt(s, p, prefix, close);
    }
  }

  lemma CaptureAt(s: string, p: nat, prefix: string, close: char, g: string)
    requires LazyMatchAt(s, p, prefix, close, g)
    ensures OccursAt(s, prefix + g + [close], p)
    ensures forall i :: 0 <= i < |g| ==> !LineTerminator(g[i])
    ensures close !in g[1..]
  {
    var start := p + |prefix|;
    var e := start + |g|;
    assert s[p..e + 1] == s[p..start] + s[start..e] + [s[e]];
    forall i | 0 <= i < |g| ensures !LineTerminator(g[i]) {
      assert g[i] == s[start + i];
    }
    forall i | 1 <= i < |g| ensures g[i] != close {
      assert !Closes(s, start, start + i, close);
      assert g[i] == s[start + i];
    }
  }

  /**
   * A captured group is a non-empty run without line terminators, and the prefix, the group and
   * the closing character occur together in the input; only the group's first character may be
   * the closing character.
   */
  lemma ExecCapture(s: string, prefix: string, close: char)
    requires Exec(s, prefix, close).Some?
    ensures var g := Exec(s, prefix, close).value;
      |g| >= 1 && IsSubstring(prefix + g + [close], s) &&
      (forall i :: 0 <= i < |g| ==> !LineTerminator(g[i])) &&
      close !in g[1..]
  {
    ExecMeaning(s, prefix, close);
    var g := Exec(s, prefix, close).value;
    var p: nat :| LazyMatchAt(s, p, prefix, close, g);
    CaptureAt(s, p, prefix, close, g);
  }

  /** Without the closing character anywhere after the prefix, there is no match. */
  lemma NoCloseNoMatch(s: string, prefix: string, close: char)
    requires close !in s
    ensures Exec(s, prefix, close).None?
  {
    ExecMeaning(s, prefix, close);
    forall p: nat ensures NoMatchAt(s, p, prefix, close) {
      var start := p + |prefix|;
      forall e: nat ensures !Closes(s, start, e, close) {
        if e < |s| {
          assert s[e] in s;
        }
      }
    }
  }

  /** Without the prefix anywhere, there is no match. */
  lemma NoPrefixNoMatch(s: string, prefix: string, close: char)
    requires !IsSubstring(prefix, s)
    ensures Exec(s, prefix, close).None?
  {
    ExecMeaning(s, prefix, close);
    forall p: nat ensures NoMatchAt(s, p, prefix, close) {
      if PrefixAt(s, p, prefix) {
        assert OccursAt(s, prefix, p);
      }
    }
  }
}
