/**
 * `verifyDigest`: whether a `digest` value matches the digest of the request body. The digest
 * computation (SHA-256 over the canonical text) is the parameter `digestOf`.
 */
module DigestCheck {
  import opened Wrappers
  import opened Types

  function VerifyDigest(digest: HeaderValue, body: Option<Body>, digestOf: Body -> string): (r: bool)
    ensures r ==> digest.Single? && body.Some?
    ensures r <==> digest.Single? && body.Some? && digestOf(body.value) == digest.text
  {
    if digest.Multi? then false
    else if body.None? then false
    else match digest
      case Single(text) => digestOf(body.value) == text
      case Absent => false
  }

  /** A list of digests never matches, whatever the body. */
  lemma ListDigestNeverMatches(items: seq<string>, body: Option<Body>, digestOf: Body -> string)
    ensures !VerifyDigest(Multi(items), body, digestOf)
  {
  }
}
