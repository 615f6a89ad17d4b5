/** Proof Key for Code Exchange as the token endpoint checks it (RFC 7636
    section 4.6): the stored challenge against a presented verifier. */
module Pkce {
  import opened Wrappers
  import opened Bytes
  import Base64

  const S256: string := "S256"
  const Plain: string := "plain"

  /** The S256 challenge computed from a verifier: the standard Base64 of its
      SHA-256 digest, rewritten to Base64url and stripped of '='. `sha256`
      stands for Node's hash of the verifier's UTF-8 bytes. */
  function S256Challenge(verifier: string, sha256: string -> seq<Byte>): (c: string)
    ensures c == Base64.EncodeUrl(sha256(verifier))
    ensures |sha256(verifier)| == 32 ==> |c| == 43
  {
    Base64.UrlRewriteOfEncode(sha256(verifier));
    Base64.ToBase64Url(Base64.Encode(sha256(verifier)))
  }

  /** Whether `verifier` satisfies `challenge` under the stored method. */
  function VerifierMatches(challengeMethod: Option<string>, challenge: string, verifier: string,
                           sha256: string -> seq<Byte>): (ok: bool)
    ensures challengeMethod == Some(S256) ==> (ok <==> Base64.EncodeUrl(sha256(verifier)) == challenge)
    ensures challengeMethod == Some(Plain) || !Present(challengeMethod) ==> (ok <==> verifier == challenge)
    ensures challengeMethod.Some? && challengeMethod.value !in {S256, Plain, ""} ==> !ok
  {
    if challengeMethod == Some(S256) then S256Challenge(verifier, sha256) == challenge
    else if challengeMethod == Some(Plain) || !Present(challengeMethod) then verifier == challenge
    else false
  }
}
