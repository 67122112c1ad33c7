/**
 * UTF-8 encoding of strings, as `Buffer.from(str, "utf-8")` produces it. Strings are
 * sequences of Unicode scalar values, so every character has an encoding.
 */
module Utf8 {
  newtype byte = x: int | 0 <= x < 256

  /** The one to four bytes that encode one code point. */
  function EncodeChar(c: char): (r: seq<byte>)
    ensures 1 <= |r| <= 4
  {
    var n := c as int;
    if n < 0x80 then [n as byte]
    else if n < 0x800 then [(0xC0 + n / 64) as byte, (0x80 + n % 64) as byte]
    else if n < 0x10000 then
      [(0xE0 + n / 4096) as byte, (0x80 + (n / 64) % 64) as byte, (0x80 + n % 64) as byte]
    else
      [(0xF0 + n / 262144) as byte, (0x80 + (n / 4096) % 64) as byte,
       (0x80 + (n / 64) % 64) as byte, (0x80 + n % 64) as byte]
  }

  /** The UTF-8 bytes of a string. */
  function Encode(s: string): seq<byte>
    decreases |s|
  {
    if |s| == 0 then [] else EncodeChar(s[0]) + Encode(s[1..])
  }

  /** The sequence length a lead byte announces. */
  function LeadLength(b: byte): nat {
    if b < 0x80 then 1 else if b < 0xE0 then 2 else if b < 0xF0 then 3 else 4
  }

  /** The code point held by a lead byte and its continuation bytes. */
  function CodePointOf(bs: seq<byte>): int
    requires 1 <= |bs| <= 4
  {
    var b := seq(|bs|, i requires 0 <= i < |bs| => bs[i] as int);
    if |bs| == 1 then b[0]
    else if |bs| == 2 then (b[0] - 0xC0) * 64 + (b[1] - 0x80)
    else if |bs| == 3 then (b[0] - 0xE0) * 4096 + (b[1] - 0x80) * 64 + (b[2] - 0x80)
    else (b[0] - 0xF0) * 262144 + (b[1] - 0x80) * 4096 + (b[2] - 0x80) * 64 + (b[3] - 0x80)
  }

  /** A reference decoder: the code points of well-formed UTF-8 bytes. */
  function Decode(bs: seq<byte>): seq<int>
    decreases |bs|
  {
    if |bs| == 0 then []
    else
      var n := LeadLength(bs[0]);
      if |bs| < n then [] else [CodePointOf(bs[..n])] + Decode(bs[n..])
  }

  function CodePoints(s: string): (r: seq<int>)
    ensures |r| == |s| && forall i :: 0 <= i < |s| ==> r[i] == s[i] as int
  {
    seq(|s|, i requires 0 <= i < |s| => s[i] as int)
  }

  /** The lead byte of a character announces its length, and the bytes decode back to it. */
  lemma EncodeCharDecodes(c: char)
    ensures LeadLength(EncodeChar(c)[0]) == |EncodeChar(c)|
    ensures CodePointOf(EncodeChar(c)) == c as int
  {
    var n := c as int;
    assert n == (n / 64) * 64 + n % 64;
    assert n / 64 == ((n / 64) / 64) * 64 + (n / 64) % 64;
    assert n / 4096 == (n / 64) / 64;
    assert n / 4096 == ((n / 4096) / 64) * 64 + (n / 4096) % 64;
    assert n / 262144 == (n / 4096) / 64;
  }

  lemma {:induction false} EncodeDecodes(s: string)
    ensures Decode(Encode(s)) == CodePoints(s)
    decreases |s|
  {
    if |s| > 0 {
      var e := EncodeChar(s[0]);
      EncodeCharDecodes(s[0]);
      EncodeDecodes(s[1..]);
      var bs := Encode(s);
      assert bs[0] == e[0];
      assert bs[..|e|] == e && bs[|e|..] == Encode(s[1..]);
      assert CodePoints(s) == [s[0] as int] + CodePoints(s[1..]);
    }
  }

  /** Different strings have different encodings, so equal bytes come from equal strings. */
  lemma EncodeInjective(s: string, t: string)
    requires Encode(s) == Encode(t)
    ensures s == t
  {
    EncodeDecodes(s);
    EncodeDecodes(t);
    assert |s| == |t|;
    forall i | 0 <= i < |s| ensures s[i] == t[i] {
      assert CodePoints(s)[i] == CodePoints(t)[i];
    }
  }

  /** Encoding distributes over concatenation. */
  lemma {:induction false} EncodeAppend(s: string, t: string)
    ensures Encode(s + t) == Encode(s) + Encode(t)
    decreases |s|
  {
    if |s| > 0 {
      assert (s + t)[0] == s[0] && (s + t)[1..] == s[1..] + t;
      EncodeAppend(s[1..], t);
    } else {
      assert s + t == t;
    }
  }

  /** ASCII text encodes to one byte per character holding its code. */
  lemma {:induction false} EncodeAscii(s: string)
    requires forall i :: 0 <= i < |s| ==> s[i] as int < 0x80
    ensures Encode(s) == seq(|s|, i requires 0 <= i < |s| => s[i] as int as byte)
    decreases |s|
  {
    if |s| > 0 {
      EncodeAscii(s[1..]);
    }
  }
}
