/** The authorization-code token endpoint (RFC 6749 section 4.1.3 with the
    PKCE check of RFC 7636 section 4.6): a fail-fast validation of the
    request against the store, and on success the single mutation that
    consumes the code and issues one bearer token. */
module TokenEndpoint {
  import opened Wrappers
  import opened Bytes
  import opened OAuthStore
  import Pkce
  import opened Http

  const AuthorizationCodeGrant: string := "authorization_code"
  const BearerTokenType: string := "Bearer"
  /** One hour, in milliseconds of the store's clock. */
  const TokenLifetimeMs: int := 60 * 60 * 1000
  /** One hour, in seconds, as reported to the client. */
  const ExpiresInSeconds: int := 3600

  /** The form fields of a token request; None is a field that was not sent. */
  datatype TokenRequest = TokenRequest(
    grantType: Option<string>,
    code: Option<string>,
    redirectUri: Option<string>,
    clientId: Option<string>,
    clientSecret: Option<string>,
    codeVerifier: Option<string>)

  /** Every way the request can fail, one tag per cause; several causes share
      an external message (see Respond). */
  datatype TokenError =
    | UnsupportedGrantType
    | InvalidRequest
    | UnknownClient
    | CodeNotFound
    | CodeOfOtherClient
    | RedirectMismatch
    | CodeExpired
    | MissingVerifier
    | VerifierMismatch
    | SecretMismatch
    | ServerError

  /** Which database call, if any, throws: the lookups of the client and the
      code, the deletion of the code, or the creation of the token. */
  datatype Fault = NoFault | ClientLookupFault | CodeLookupFault | DeleteFault | CreateFault

  datatype TokenResponse = TokenResponse(accessToken: string, tokenType: string, expiresIn: int)

  /** The client and code a request was validated against. */
  datatype Grant = Grant(client: Client, authCode: AuthCode)

  /** What one token request returns, together with the store after it. */
  datatype Exchange = Exchange(result: Result<TokenResponse, TokenError>, store: Store)

  /** The PKCE branch: only a code that carries a challenge is checked. */
  function CheckPkce(ac: AuthCode, verifier: Option<string>, sha256: string -> seq<Byte>): Outcome<TokenError> {
    if !Present(ac.codeChallenge) then Pass
    else if !Present(verifier) then Fail(MissingVerifier)
    else if Pkce.VerifierMatches(ac.codeChallengeMethod, ac.codeChallenge.value, verifier.value, sha256) then Pass
    else Fail(VerifierMismatch)
  }

  /** The confidential-client branch: a code without a challenge, redeemed by
      a client that has a secret, needs that exact secret. */
  predicate SecretRejected(client: Client, ac: AuthCode, secret: Option<string>) {
    !Present(ac.codeChallenge) && Present(client.clientSecret) && client.clientSecret != secret
  }

  /** The validation sequence, in the endpoint's order; it reads the store and
      never changes it. */
  function Validate(st: Store, req: TokenRequest, now: int, sha256: string -> seq<Byte>, fault: Fault): Result<Grant, TokenError> {
    if req.grantType != Some(AuthorizationCodeGrant) then Failure(UnsupportedGrantType)
    else if !Present(req.code) || !Present(req.redirectUri) || !Present(req.clientId) then Failure(InvalidRequest)
    else if fault == ClientLookupFault then Failure(ServerError)
    else if req.clientId.value !in st.clients then Failure(UnknownClient)
    else
      var client := st.clients[req.clientId.value];
      if fault == CodeLookupFault then Failure(ServerError)
      else if req.code.value !in st.codes then Failure(CodeNotFound)
      else
        var ac := st.codes[req.code.value];
        if ac.clientId != client.id then Failure(CodeOfOtherClient)
        else if ac.redirectUri != req.redirectUri.value then Failure(RedirectMismatch)
        else if ac.expiresAt < now then Failure(CodeExpired)
        else
          match CheckPkce(ac, req.codeVerifier, sha256)
          case Fail(e) => Failure(e)
          case Pass =>
            if SecretRejected(client, ac, req.clientSecret) then Failure(SecretMismatch)
            else Success(Grant(client, ac))
  }

  /** The token the endpoint issues for a grant at time `now`. */
  function IssuedToken(token: string, g: Grant, now: int): AccessToken {
    AccessToken(token, g.client.id, g.authCode.userId, now + TokenLifetimeMs)
  }

  /** The token request. `now` is the clock, `entropy` the 32 random octets
      whose hex form becomes the token, `sha256` the digest function and
      `fault` the database call that throws, if any. The code is deleted
      before the token is created, so a failure in between leaves the code
      consumed without a token. */
  function Redeem(st: Store, req: TokenRequest, now: int, entropy: seq<Byte>,
                  sha256: string -> seq<Byte>, fault: Fault): (out: Exchange)
    requires |entropy| == 32
    ensures out.store.clients == st.clients
    ensures out.result.Failure? ==> out.store.tokens == st.tokens
    ensures out.result.Failure? && out.result.error != ServerError ==> out.store == st
    ensures out.result.Failure? && out.store != st ==>
      && (fault == CreateFault || ToHex(entropy) in st.tokens)
      && req.code.Some? && req.code.value in st.codes && req.code.value !in out.store.codes
    ensures out.result.Success? ==>
      && var t := out.result.value;
      && req.code.Some? && req.code.value in st.codes && req.clientId.Some? && req.clientId.value in st.clients
      && var ac := st.codes[req.code.value];
      && ac.clientId == st.clients[req.clientId.value].id
      && req.code.value !in out.store.codes
      && (UniqueCodeIds(st.codes) ==> out.store.codes == st.codes - {req.code.value})
      && t.accessToken !in st.tokens
      && out.store.tokens == st.tokens[t.accessToken := AccessToken(t.accessToken, ac.clientId, ac.userId, now + TokenLifetimeMs)]
      && t.tokenType == "Bearer" && t.expiresIn == 3600
      && |t.accessToken| == 64 && IsLowerHex(t.accessToken)
  {
    match Validate(st, req, now, sha256, fault)
    case Failure(e) => Exchange(Failure(e), st)
    case Success(g) =>
      if fault == DeleteFault then Exchange(Failure(ServerError), st)
      else
        var consumed := st.(codes := DeleteCode(st.codes, g.authCode.id));
        var token := ToHex(entropy);
        if fault == CreateFault || token in st.tokens then Exchange(Failure(ServerError), consumed)
        else
          Exchange(Success(TokenResponse(token, BearerTokenType, ExpiresInSeconds)),
                   consumed.(tokens := st.tokens[token := IssuedToken(token, g, now)]))
  }

  // ---------------------------------------------------------------------------
  // The HTTP responses

  datatype Body =
    | ErrorBody(error: string)
    | TokenBody(accessToken: string, tokenType: string, expiresIn: int)

  function Status(e: TokenError): int {
    match e
    case UnknownClient | SecretMismatch => 401
    case ServerError => 500
    case _ => 400
  }

  function Message(e: TokenError): string {
    match e
    case UnsupportedGrantType => "Unsupported grant type"
    case InvalidRequest => "Invalid request"
    case UnknownClient | SecretMismatch => "Invalid client"
    case CodeNotFound | CodeOfOtherClient | RedirectMismatch => "Invalid code"
    case CodeExpired => "Code expired"
    case MissingVerifier => "Missing code_verifier for PKCE"
    case VerifierMismatch => "Invalid code_verifier for PKCE"
    case ServerError => "Server error"
  }

  /** The handler's response for each outcome, status and JSON body. */
  function Respond(r: Result<TokenResponse, TokenError>): (resp: HttpResponse<Body>)
    ensures r.Success? ==>
      resp == HttpResponse(200, TokenBody(r.value.accessToken, r.value.tokenType, r.value.expiresIn))
    ensures r == Failure(UnsupportedGrantType) ==> resp == HttpResponse(400, ErrorBody("Unsupported grant type"))
    ensures r == Failure(InvalidRequest) ==> resp == HttpResponse(400, ErrorBody("Invalid request"))
    ensures r == Failure(UnknownClient) ==> resp == HttpResponse(401, ErrorBody("Invalid client"))
    ensures r == Failure(CodeNotFound) ==> resp == HttpResponse(400, ErrorBody("Invalid code"))
    ensures r == Failure(CodeOfOtherClient) ==> resp == HttpResponse(400, ErrorBody("Invalid code"))
    ensures r == Failure(RedirectMismatch) ==> resp == HttpResponse(400, ErrorBody("Invalid code"))
    ensures r == Failure(CodeExpired) ==> resp == HttpResponse(400, ErrorBody("Code expired"))
    ensures r == Failure(MissingVerifier) ==> resp == HttpResponse(400, ErrorBody("Missing code_verifier for PKCE"))
    ensures r == Failure(VerifierMismatch) ==> resp == HttpResponse(400, ErrorBody("Invalid code_verifier for PKCE"))
    ensures r == Failure(SecretMismatch) ==> resp == HttpResponse(401, ErrorBody("Invalid client"))
    ensures r == Failure(ServerError) ==> resp == HttpResponse(500, ErrorBody("Server error"))
  {
    match r
    case Success(t) => HttpResponse(200, TokenBody(t.accessToken, t.tokenType, t.expiresIn))
    case Failure(e) => HttpResponse(Status(e), ErrorBody(Message(e)))
  }

  /** The causes the endpoint deliberately reports as one "Invalid code". */
  predicate InvalidCodeCause(e: TokenError) {
    e.CodeNotFound? || e.CodeOfOtherClient? || e.RedirectMismatch?
  }

  /** The causes reported as one 401 "Invalid client". */
  predicate InvalidClientCause(e: TokenError) {
    e.UnknownClient? || e.SecretMismatch?
  }

  /** Two failures a caller cannot tell apart. */
  predicate Indistinguishable(e: TokenError, e': TokenError) {
    e == e' || (InvalidCodeCause(e) && InvalidCodeCause(e')) || (InvalidClientCause(e) && InvalidClientCause(e'))
  }

  /** The responses merge exactly the intended causes and keep every other
      pair of failures apart. */
  lemma ResponsesMergeOnlyIntendedCauses(e: TokenError, e': TokenError)
    ensures Respond(Failure(e)) == Respond(Failure(e')) <==> Indistinguishable(e, e')
  {
  }

  // ---------------------------------------------------------------------------
  // Properties of the exchange

  /** The code was issued to this client for this redirect URI (exact string equality). */
  predicate IssuedFor(ac: AuthCode, client: Client, redirectUri: string) {
    ac.clientId == client.id && ac.redirectUri == redirectUri
  }

  /** The caller proves it is the client the code was issued to: by PKCE when
      the code carries a challenge, otherwise by the client's secret if it has one. */
  predicate ProvesPossession(client: Client, ac: AuthCode, req: TokenRequest, sha256: string -> seq<Byte>) {
    if Present(ac.codeChallenge) then
      Present(req.codeVerifier) && Pkce.VerifierMatches(ac.codeChallengeMethod, ac.codeChallenge.value, req.codeVerifier.value, sha256)
    else
      !Present(client.clientSecret) || req.clientSecret == client.clientSecret
  }

  /** Everything a request needs for its code to be exchanged, with no order among the checks. */
  predicate Redeemable(st: Store, req: TokenRequest, now: int, sha256: string -> seq<Byte>) {
    && req.grantType == Some(AuthorizationCodeGrant)
    && Present(req.code) && Present(req.redirectUri) && Present(req.clientId)
    && req.clientId.value in st.clients
    && req.code.value in st.codes
    && IssuedFor(st.codes[req.code.value], st.clients[req.clientId.value], req.redirectUri.value)
    && now <= st.codes[req.code.value].expiresAt
    && ProvesPossession(st.clients[req.clientId.value], st.codes[req.code.value], req, sha256)
  }

  /** A request gets a token exactly when it is redeemable, no database call
      fails and the fresh token is not already taken; the response is then a
      200 Bearer token valid for 3600 seconds. */
  lemma RedeemSucceedsIff(st: Store, req: TokenRequest, now: int, entropy: seq<Byte>,
                          sha256: string -> seq<Byte>, fault: Fault)
    requires |entropy| == 32
    ensures Redeem(st, req, now, entropy, sha256, fault).result.Success?
        <==> Redeemable(st, req, now, sha256) && fault == NoFault && ToHex(entropy) !in st.tokens
    ensures Redeem(st, req, now, entropy, sha256, fault).result.Success? ==>
      Respond(Redeem(st, req, now, entropy, sha256, fault).result)
        == HttpResponse(200, TokenBody(ToHex(entropy), "Bearer", 3600))
  {
  }

  /** A grant type other than authorization_code is refused before anything
      else is looked at, whatever the store or the database does. */
  lemma GrantTypeCheckedFirst(st: Store, req: TokenRequest, now: int, entropy: seq<Byte>,
                              sha256: string -> seq<Byte>, fault: Fault)
    requires |entropy| == 32
    requires req.grantType != Some(AuthorizationCodeGrant)
    ensures Redeem(st, req, now, entropy, sha256, fault) == Exchange(Failure(UnsupportedGrantType), st)
    ensures Respond(Failure(UnsupportedGrantType)) == HttpResponse(400, ErrorBody("Unsupported grant type"))
  {
  }

  /** A missing or empty code, redirect_uri or client_id is refused without
      touching the store: the answer is the same for every store and fault. */
  lemma MissingFieldsRefusedWithoutStore(st: Store, st': Store, req: TokenRequest, now: int, entropy: seq<Byte>,
                                         sha256: string -> seq<Byte>, fault: Fault, fault': Fault)
    requires |entropy| == 32
    requires req.grantType == Some(AuthorizationCodeGrant)
    requires !Present(req.code) || !Present(req.redirectUri) || !Present(req.clientId)
    ensures Redeem(st, req, now, entropy, sha256, fault) == Exchange(Failure(InvalidRequest), st)
    ensures Redeem(st', req, now, entropy, sha256, fault').result == Failure(InvalidRequest)
    ensures Respond(Failure(InvalidRequest)) == HttpResponse(400, ErrorBody("Invalid request"))
  {
  }

  /** An unknown client_id is an authentication failure. */
  lemma UnknownClientRefused(st: Store, req: TokenRequest, now: int, entropy: seq<Byte>,
                             sha256: string -> seq<Byte>, fault: Fault)
    requires |entropy| == 32
    requires req.grantType == Some(AuthorizationCodeGrant)
    requires Present(req.code) && Present(req.redirectUri) && Present(req.clientId)
    requires fault != ClientLookupFault
    requires req.clientId.value !in st.clients
    ensures Redeem(st, req, now, entropy, sha256, fault) == Exchange(Failure(UnknownClient), st)
    ensures Respond(Failure(UnknownClient)) == HttpResponse(401, ErrorBody("Invalid client"))
  {
  }

  /** The request got past the grant-type, field and client checks, and both lookups answer. */
  predicate ClientKnown(st: Store, req: TokenRequest, fault: Fault) {
    && req.grantType == Some(AuthorizationCodeGrant)
    && Present(req.code) && Present(req.redirectUri) && Present(req.clientId)
    && req.clientId.value in st.clients
    && fault != ClientLookupFault && fault != CodeLookupFault
  }

  /** An unknown code, a code of another client and a redirect_uri that
      differs from the stored one by any character all get the one
      response 400 "Invalid code", and leave the store as it was. */
  lemma InvalidCodeCausesShareOneResponse(st: Store, req: TokenRequest, now: int, entropy: seq<Byte>,
                                          sha256: string -> seq<Byte>, fault: Fault)
    requires |entropy| == 32
    requires ClientKnown(st, req, fault)
    requires req.code.value !in st.codes
          || !IssuedFor(st.codes[req.code.value], st.clients[req.clientId.value], req.redirectUri.value)
    ensures InvalidCodeCause(Redeem(st, req, now, entropy, sha256, fault).result.error)
    ensures Redeem(st, req, now, entropy, sha256, fault).store == st
    ensures Respond(Redeem(st, req, now, entropy, sha256, fault).result) == HttpResponse(400, ErrorBody("Invalid code"))
  {
  }

  /** The request names a code that exists, belongs to the client and matches the redirect_uri. */
  predicate CodeMatches(st: Store, req: TokenRequest, fault: Fault) {
    && ClientKnown(st, req, fault)
    && req.code.value in st.codes
    && IssuedFor(st.codes[req.code.value], st.clients[req.clientId.value], req.redirectUri.value)
  }

  /** A code is expired only when its expiry lies strictly before now: at
      `expiresAt == now` it is still accepted. */
  lemma ExpiryBoundary(st: Store, req: TokenRequest, now: int, entropy: seq<Byte>,
                       sha256: string -> seq<Byte>, fault: Fault)
    requires |entropy| == 32
    requires CodeMatches(st, req, fault)
    ensures Redeem(st, req, now, entropy, sha256, fault).result == Failure(CodeExpired)
        <==> st.codes[req.code.value].expiresAt < now
    ensures Respond(Failure(CodeExpired)) == HttpResponse(400, ErrorBody("Code expired"))
  {
  }

  /** For a code that carries a challenge the verifier alone decides: absent
      or empty is "Missing code_verifier for PKCE", one that does not match is
      "Invalid code_verifier for PKCE", and the client secret is never read,
      even for a confidential client. */
  lemma PkceDecidesChallengedCodes(st: Store, req: TokenRequest, now: int, entropy: seq<Byte>,
                                   sha256: string -> seq<Byte>, fault: Fault, otherSecret: Option<string>)
    requires |entropy| == 32
    requires CodeMatches(st, req, fault)
    requires now <= st.codes[req.code.value].expiresAt
    requires Present(st.codes[req.code.value].codeChallenge)
    ensures Redeem(st, req, now, entropy, sha256, fault).result == Failure(MissingVerifier) <==> !Present(req.codeVerifier)
    ensures var ac := st.codes[req.code.value];
      (Redeem(st, req, now, entropy, sha256, fault).result == Failure(VerifierMismatch)
       <==> Present(req.codeVerifier)
            && !Pkce.VerifierMatches(ac.codeChallengeMethod, ac.codeChallenge.value, req.codeVerifier.value, sha256))
    ensures Redeem(st, req.(clientSecret := otherSecret), now, entropy, sha256, fault)
         == Redeem(st, req, now, entropy, sha256, fault)
    ensures Respond(Failure(MissingVerifier)) == HttpResponse(400, ErrorBody("Missing code_verifier for PKCE"))
    ensures Respond(Failure(VerifierMismatch)) == HttpResponse(400, ErrorBody("Invalid code_verifier for PKCE"))
  {
  }

  /** For a code without a challenge the client secret alone decides: a
      client with a secret must send exactly it, a public client needs none,
      and the code_verifier is never read. */
  lemma SecretDecidesUnchallengedCodes(st: Store, req: TokenRequest, now: int, entropy: seq<Byte>,
                                       sha256: string -> seq<Byte>, fault: Fault, otherVerifier: Option<string>)
    requires |entropy| == 32
    requires CodeMatches(st, req, fault)
    requires now <= st.codes[req.code.value].expiresAt
    requires !Present(st.codes[req.code.value].codeChallenge)
    ensures var client := st.clients[req.clientId.value];
      (Redeem(st, req, now, entropy, sha256, fault).result == Failure(SecretMismatch)
       <==> Present(client.clientSecret) && req.clientSecret != client.clientSecret)
    ensures Redeem(st, req.(codeVerifier := otherVerifier), now, entropy, sha256, fault)
         == Redeem(st, req, now, entropy, sha256, fault)
    ensures Respond(Failure(SecretMismatch)) == HttpResponse(401, ErrorBody("Invalid client"))
  {
  }

  /** A code is single-use: once it has been exchanged, every later request
      for it, by any known client, is "Invalid code". */
  lemma ReplayIsInvalidCode(st: Store, req: TokenRequest, now: int, entropy: seq<Byte>,
                            sha256: string -> seq<Byte>, fault: Fault,
                            req': TokenRequest, now': int, entropy': seq<Byte>, fault': Fault)
    requires |entropy| == 32 && |entropy'| == 32
    requires Redeem(st, req, now, entropy, sha256, fault).result.Success?
    requires req'.code == req.code
    requires ClientKnown(Redeem(st, req, now, entropy, sha256, fault).store, req', fault')
    ensures Redeem(Redeem(st, req, now, entropy, sha256, fault).store, req', now', entropy', sha256, fault').result
         == Failure(CodeNotFound)
  {
  }

  /** The code is deleted before the token is created: when creation throws
      the request fails with "Server error", no token exists and the code is
      gone for good; when the deletion itself throws nothing changes. */
  lemma ServerErrorAfterDelete(st: Store, req: TokenRequest, now: int, entropy: seq<Byte>,
                               sha256: string -> seq<Byte>)
    requires |entropy| == 32
    requires Redeemable(st, req, now, sha256)
    ensures Redeem(st, req, now, entropy, sha256, DeleteFault) == Exchange(Failure(ServerError), st)
    ensures var out := Redeem(st, req, now, entropy, sha256, CreateFault);
      && out.result == Failure(ServerError)
      && out.store.tokens == st.tokens
      && req.code.value !in out.store.codes
    ensures Respond(Failure(ServerError)) == HttpResponse(500, ErrorBody("Server error"))
  {
  }

  /** Exchanging a code keeps the database's uniqueness constraints. */
  lemma RedeemPreservesValid(st: Store, req: TokenRequest, now: int, entropy: seq<Byte>,
                             sha256: string -> seq<Byte>, fault: Fault)
    requires |entropy| == 32
    requires Valid(st)
    ensures Valid(Redeem(st, req, now, entropy, sha256, fault).store)
  {
  }
}
