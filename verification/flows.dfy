/** End-to-end facts across the two endpoints: a client registers, the
    authorization step (not part of this model) issues it a code, and the
    client exchanges the code at the token endpoint. */
module Flows {
  import opened Wrappers
  import opened Bytes
  import opened OAuthStore
  import T = TokenEndpoint
  import R = Registration
  import Pkce
  import Http

  /** The store once the authorization step has recorded code `ac`. */
  function WithCode(st: Store, ac: AuthCode): Store {
    st.(codes := st.codes[ac.code := ac])
  }

  /** The token request a client sends for code `ac`. */
  function ExchangeRequest(ac: AuthCode, clientId: string, secret: Option<string>, verifier: Option<string>): T.TokenRequest {
    T.TokenRequest(Some(T.AuthorizationCodeGrant), Some(ac.code), Some(ac.redirectUri), Some(clientId), secret, verifier)
  }

  /** A freshly registered client whose code carries no PKCE challenge gets a
      token exactly when it presents the secret registration returned; any
      other secret, or none, is 401 "Invalid client". */
  lemma RegisteredClientWithoutPkceMustPresentSecret(
      st: Store, rreq: R.RegisterRequest, entropy: seq<Byte>, newId: string, newClientId: string,
      ac: AuthCode, secret: Option<string>, verifier: Option<string>,
      now: int, tokenEntropy: seq<Byte>, sha256: string -> seq<Byte>)
    requires |entropy| == 32 && |tokenEntropy| == 32
    requires R.Register(st, rreq, entropy, newId, newClientId, false).result.Success?
    requires newClientId != "" && ac.code != "" && ac.redirectUri != ""
    requires ac.clientId == newId && !Present(ac.codeChallenge) && now <= ac.expiresAt
    requires ToHex(tokenEntropy) !in st.tokens
    ensures var reg := R.Register(st, rreq, entropy, newId, newClientId, false);
      var out := T.Redeem(WithCode(reg.store, ac), ExchangeRequest(ac, newClientId, secret, verifier),
                          now, tokenEntropy, sha256, T.NoFault);
      && (out.result.Success? <==> secret == Some(reg.result.value.clientSecret))
      && (out.result.Failure? ==> T.Respond(out.result) == Http.HttpResponse(401, T.ErrorBody("Invalid client")))
  {
  }

  /** The same client redeeming a code that carries a challenge needs no
      secret at all: the verifier alone decides, whatever secret is sent. */
  lemma RegisteredClientWithPkceNeedsNoSecret(
      st: Store, rreq: R.RegisterRequest, entropy: seq<Byte>, newId: string, newClientId: string,
      ac: AuthCode, secret: Option<string>, verifier: string,
      now: int, tokenEntropy: seq<Byte>, sha256: string -> seq<Byte>)
    requires |entropy| == 32 && |tokenEntropy| == 32
    requires R.Register(st, rreq, entropy, newId, newClientId, false).result.Success?
    requires newClientId != "" && ac.code != "" && ac.redirectUri != "" && verifier != ""
    requires ac.clientId == newId && Present(ac.codeChallenge) && now <= ac.expiresAt
    requires ToHex(tokenEntropy) !in st.tokens
    ensures var reg := R.Register(st, rreq, entropy, newId, newClientId, false);
      var out := T.Redeem(WithCode(reg.store, ac), ExchangeRequest(ac, newClientId, secret, Some(verifier)),
                          now, tokenEntropy, sha256, T.NoFault);
      (out.result.Success?
       <==> Pkce.VerifierMatches(ac.codeChallengeMethod, ac.codeChallenge.value, verifier, sha256))
  {
  }

  /** Registration, code issue, exchange, replay: the token is bound to the
      registered client and the code's user, and the replay is "Invalid code". */
  lemma RegisterExchangeReplay(
      st: Store, rreq: R.RegisterRequest, entropy: seq<Byte>, newId: string, newClientId: string,
      ac: AuthCode, now: int, tokenEntropy: seq<Byte>, tokenEntropy': seq<Byte>, sha256: string -> seq<Byte>)
    requires |entropy| == 32 && |tokenEntropy| == 32 && |tokenEntropy'| == 32
    requires R.Register(st, rreq, entropy, newId, newClientId, false).result.Success?
    requires newClientId != "" && ac.code != "" && ac.redirectUri != ""
    requires ac.clientId == newId && !Present(ac.codeChallenge) && now <= ac.expiresAt
    requires ToHex(tokenEntropy) !in st.tokens
    ensures var reg := R.Register(st, rreq, entropy, newId, newClientId, false);
      var req := ExchangeRequest(ac, newClientId, Some(reg.result.value.clientSecret), None);
      var first := T.Redeem(WithCode(reg.store, ac), req, now, tokenEntropy, sha256, T.NoFault);
      var second := T.Redeem(first.store, req, now, tokenEntropy', sha256, T.NoFault);
      && first.result.Success?
      && first.store.tokens[ToHex(tokenEntropy)] == AccessToken(ToHex(tokenEntropy), newId, ac.userId, now + 3600000)
      && T.Respond(second.result) == Http.HttpResponse(400, T.ErrorBody("Invalid code"))
  {
    var reg := R.Register(st, rreq, entropy, newId, newClientId, false);
    var st2 := WithCode(reg.store, ac);
    var req := ExchangeRequest(ac, newClientId, Some(reg.result.value.clientSecret), None);
    RegisteredClientWithoutPkceMustPresentSecret(st, rreq, entropy, newId, newClientId, ac,
      Some(reg.result.value.clientSecret), None, now, tokenEntropy, sha256);
    T.ReplayIsInvalidCode(st2, req, now, tokenEntropy, sha256, T.NoFault, req, now, tokenEntropy', T.NoFault);
  }
}
