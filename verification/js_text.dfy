/**
 * The JavaScript string operations the library relies on: `toLowerCase`, `trim`,
 * `Array.prototype.join`, `String.prototype.split` with a one-character separator,
 * substring search and the code-point order used by the default `sort`.
 * Strings are sequences of Unicode scalar values.
 */
module JsText {

  /** `toLowerCase` on one character; only ASCII letters are folded in this model. */
  function LowerChar(c: char): char {
    if 'A' <= c <= 'Z' then (c as int + 32) as char else c
  }

  /** `String.prototype.toLowerCase`. */
  function ToLower(s: string): string {
    seq(|s|, i requires 0 <= i < |s| => LowerChar(s[i]))
  }

  lemma ToLowerConcat(a: string, b: string)
    ensures ToLower(a + b) == ToLower(a) + ToLower(b)
  {
  }

  lemma ToLowerIdempotent(s: string)
    ensures ToLower(ToLower(s)) == ToLower(s)
  {
  }

  /** Lower-cases every string of a list (Ramda `map(toLower)`). */
  function LowerAll(names: seq<string>): seq<string> {
    seq(|names|, i requires 0 <= i < |names| => ToLower(names[i]))
  }

  /** The characters `trim` strips: ECMAScript WhiteSpace and LineTerminator. */
  predicate IsJsWhiteSpace(c: char) {
    || c == '\t' || c == '\n' || c == '\U{B}' || c == '\U{C}' || c == '\r' || c == ' '
    || c == '\U{A0}' || c == '\U{1680}' || ('\U{2000}' <= c <= '\U{200A}')
    || c == '\U{2028}' || c == '\U{2029}' || c == '\U{202F}' || c == '\U{205F}'
    || c == '\U{3000}' || c == '\U{FEFF}'
  }

  predicate AllWhiteSpace(s: string) {
    forall i :: 0 <= i < |s| ==> IsJsWhiteSpace(s[i])
  }

  function TrimStart(s: string): string
    decreases |s|
  {
    if |s| > 0 && IsJsWhiteSpace(s[0]) then TrimStart(s[1..]) else s
  }

  function TrimEnd(s: string): string
    decreases |s|
  {
    if |s| > 0 && IsJsWhiteSpace(s[|s| - 1]) then TrimEnd(s[..|s| - 1]) else s
  }

  /** `String.prototype.trim`. */
  function Trim(s: string): string {
    TrimEnd(TrimStart(s))
  }

  /** Neither end of the string is white space. */
  predicate Trimmed(s: string) {
    |s| == 0 || (!IsJsWhiteSpace(s[0]) && !IsJsWhiteSpace(s[|s| - 1]))
  }

  lemma {:induction false} TrimStartShape(s: string)
    ensures |TrimStart(s)| == 0 || !IsJsWhiteSpace(TrimStart(s)[0])
    ensures |TrimStart(s)| == 0 <==> AllWhiteSpace(s)
    decreases |s|
  {
    if |s| > 0 && IsJsWhiteSpace(s[0]) {
      TrimStartShape(s[1..]);
      if AllWhiteSpace(s[1..]) {
        assert AllWhiteSpace(s) by {
          forall i | 0 <= i < |s| ensures IsJsWhiteSpace(s[i]) {
            if i > 0 { assert s[i] == s[1..][i - 1]; }
          }
        }
      }
    }
  }

  lemma {:induction false} TrimEndShape(s: string)
    ensures |TrimEnd(s)| == 0 || !IsJsWhiteSpace(TrimEnd(s)[|TrimEnd(s)| - 1])
    ensures |TrimEnd(s)| > 0 ==> TrimEnd(s)[0] == s[0]
    ensures |TrimEnd(s)| <= |s|
    decreases |s|
  {
    if |s| > 0 && IsJsWhiteSpace(s[|s| - 1]) {
      TrimEndShape(s[..|s| - 1]);
    }
  }

  /** `trim` leaves no white space at either end. */
  lemma TrimIsTrimmed(s: string)
    ensures Trimmed(Trim(s))
  {
    TrimStartShape(s);
    TrimEndShape(TrimStart(s));
  }

  lemma {:induction false} TrimStartKeepsTrimmed(s: string)
    requires Trimmed(s)
    ensures TrimStart(s) == s
  {
  }

  lemma {:induction false} TrimEndKeepsTrimmed(s: string)
    requires Trimmed(s)
    ensures TrimEnd(s) == s
  {
  }

  /** A string without outer white space is its own `trim`; hence `trim` is idempotent. */
  lemma TrimFixesTrimmed(s: string)
    requires Trimmed(s)
    ensures Trim(s) == s
  {
    TrimStartKeepsTrimmed(s);
    TrimEndKeepsTrimmed(s);
  }

  lemma TrimIdempotent(s: string)
    ensures Trim(Trim(s)) == Trim(s)
  {
    TrimIsTrimmed(s);
    TrimFixesTrimmed(Trim(s));
  }

  /** `Array.prototype.join(sep)` on a list of strings. */
  function Join(parts: seq<string>, sep: string): string
    decreases |parts|
  {
    if |parts| == 0 then ""
    else if |parts| == 1 then parts[0]
    else parts[0] + sep + Join(parts[1..], sep)
  }

  lemma JoinAppend(parts: seq<string>, last: string, sep: string)
    requires |parts| > 0
    ensures Join(parts + [last], sep) == Join(parts, sep) + sep + last
    decreases |parts|
  {
    if |parts| == 1 {
      assert parts + [last] == [parts[0], last];
    } else {
      assert (parts + [last])[1..] == parts[1..] + [last];
      JoinAppend(parts[1..], last, sep);
    }
  }

  /** `String.prototype.split(sep)` with a one-character separator. */
  function Split(s: string, sep: char): seq<string>
    decreases |s|
  {
    if |s| == 0 then [""]
    else if s[0] == sep then [""] + Split(s[1..], sep)
    else
      var rest := Split(s[1..], sep);
      [[s[0]] + rest[0]] + rest[1..]
  }

  lemma {:induction false} SplitNonEmpty(s: string, sep: char)
    ensures |Split(s, sep)| >= 1
    decreases |s|
  {
    if |s| > 0 { SplitNonEmpty(s[1..], sep); }
  }

  /** Splitting `p + t` where `p` holds no separator glues `p` onto the first piece of `t`. */
  lemma {:induction false} SplitPrefix(p: string, t: string, sep: char)
    requires sep !in p
    ensures |Split(t, sep)| >= 1
    ensures Split(p + t, sep) == [p + Split(t, sep)[0]] + Split(t, sep)[1..]
    decreases |p|
  {
    SplitNonEmpty(t, sep);
    if |p| > 0 {
      SplitPrefix(p[1..], t, sep);
      assert (p + t)[0] == p[0] && (p + t)[1..] == p[1..] + t;
      var rest := Split(p[1..] + t, sep);
      assert Split(p + t, sep) == [[p[0]] + rest[0]] + rest[1..];
      assert [p[0]] + (p[1..] + Split(t, sep)[0]) == p + Split(t, sep)[0];
    } else {
      var r := Split(t, sep);
      assert p + t == t && p + r[0] == r[0];
      assert r == [r[0]] + r[1..];
    }
  }

  /** `split` undoes `join` when no part contains the separator. */
  lemma {:induction false} SplitJoin(parts: seq<string>, sep: char)
    requires |parts| >= 1
    requires forall i :: 0 <= i < |parts| ==> sep !in parts[i]
    ensures Split(Join(parts, [sep]), sep) == parts
    decreases |parts|
  {
    if |parts| == 1 {
      SplitPrefix(parts[0], "", sep);
      assert parts[0] + "" == parts[0];
    } else {
      var tail := Join(parts[1..], [sep]);
      SplitJoin(parts[1..], sep);
      SplitPrefix(parts[0], [sep] + tail, sep);
      assert Join(parts, [sep]) == parts[0] + ([sep] + tail);
      assert Split([sep] + tail, sep) == [""] + Split(tail, sep) by {
        assert ([sep] + tail)[0] == sep && ([sep] + tail)[1..] == tail;
      }
      assert parts[0] + "" == parts[0];
      assert parts == [parts[0]] + parts[1..];
    }
  }

  /** `t` occurs in `s` starting at index `i`. */
  predicate OccursAt(s: string, t: string, i: int) {
    0 <= i && i + |t| <= |s| && s[i..i + |t|] == t
  }

  /** `s.indexOf(t) >= 0`: `t` is a substring of `s`. */
  predicate IsSubstring(t: string, s: string) {
    exists i :: 0 <= i <= |s| && OccursAt(s, t, i)
  }

  function IndexOfFrom(s: string, t: string, i: nat): int
    decreases |s| - i
  {
    if i + |t| > |s| then -1
    else if s[i..i + |t|] == t then i
    else IndexOfFrom(s, t, i + 1)
  }

  /** `String.prototype.indexOf`. */
  function IndexOf(s: string, t: string): int {
    IndexOfFrom(s, t, 0)
  }

  lemma {:induction false} IndexOfFromMeaning(s: string, t: string, i: nat)
    ensures IndexOfFrom(s, t, i) >= 0 ==> i <= IndexOfFrom(s, t, i) && OccursAt(s, t, IndexOfFrom(s, t, i))
    ensures IndexOfFrom(s, t, i) < 0 ==> forall j :: i <= j <= |s| ==> !OccursAt(s, t, j)
    decreases |s| - i
  {
    if i + |t| <= |s| && s[i..i + |t|] != t {
      IndexOfFromMeaning(s, t, i + 1);
    }
  }

  /** `indexOf` finds an occurrence exactly when there is one. */
  lemma IndexOfMeaning(s: string, t: string)
    ensures IndexOf(s, t) >= 0 <==> IsSubstring(t, s)
  {
    IndexOfFromMeaning(s, t, 0);
  }

  /** Lexicographic order on characters: JavaScript's default string comparison. */
  predicate LexLe(a: string, b: string)
    decreases |a|
  {
    |a| == 0 || (|b| > 0 && (a[0] < b[0] || (a[0] == b[0] && LexLe(a[1..], b[1..]))))
  }

  lemma {:induction false} LexLeTotal(a: string, b: string)
    ensures LexLe(a, b) || LexLe(b, a)
    decreases |a|
  {
    if |a| > 0 && |b| > 0 && a[0] == b[0] {
      LexLeTotal(a[1..], b[1..]);
    }
  }

  lemma {:induction false} LexLeTransitive(a: string, b: string, c: string)
    requires LexLe(a, b) && LexLe(b, c)
    ensures LexLe(a, c)
    decreases |a|
  {
    if |a| > 0 && a[0] == b[0] && b[0] == c[0] {
      LexLeTransitive(a[1..], b[1..], c[1..]);
    }
  }

  lemma {:induction false} TrimStartIsSuffix(s: string)
    ensures |TrimStart(s)| <= |s| && TrimStart(s) == s[|s| - |TrimStart(s)|..]
    decreases |s|
  {
    if |s| > 0 && IsJsWhiteSpace(s[0]) {
      TrimStartIsSuffix(s[1..]);
    }
  }

  lemma {:induction false} TrimEndIsPrefix(s: string)
    ensures |TrimEnd(s)| <= |s| && TrimEnd(s) == s[..|TrimEnd(s)|]
    decreases |s|
  {
    if |s| > 0 && IsJsWhiteSpace(s[|s| - 1]) {
      TrimEndIsPrefix(s[..|s| - 1]);
    }
  }

  /** `trim` only removes characters: what remains is a piece of the original. */
  lemma TrimKeepsCharacters(s: string)
    ensures forall c :: c in Trim(s) ==> c in s
  {
    var t := TrimStart(s);
    TrimStartIsSuffix(s);
    TrimEndIsPrefix(t);
    forall c | c in Trim(s) ensures c in s {
      var i :| 0 <= i < |Trim(s)| && Trim(s)[i] == c;
      assert Trim(s)[i] == t[i] == s[|s| - |t| + i];
    }
  }

  /** A character absent from every part and from the separator is absent from the joined text. */
  lemma {:induction false} JoinAvoids(parts: seq<string>, sep: string, c: char)
    requires c !in sep
    requires forall i :: 0 <= i < |parts| ==> c !in parts[i]
    ensures c !in Join(parts, sep)
    decreases |parts|
  {
    if |parts| > 1 {
      JoinAvoids(parts[1..], sep, c);
      assert c !in parts[0];
    }
  }

  /** Lower-casing a joined text lower-cases each part and the separator. */
  lemma {:induction false} ToLowerJoin(parts: seq<string>, sep: string)
    ensures ToLower(Join(parts, sep)) == Join(LowerAll(parts), ToLower(sep))
    decreases |parts|
  {
    if |parts| > 1 {
      ToLowerJoin(parts[1..], sep);
      ToLowerConcat(parts[0] + sep, Join(parts[1..], sep));
      ToLowerConcat(parts[0], sep);
      assert LowerAll(parts)[1..] == LowerAll(parts[1..]);
    }
  }
}
