# OAuth authorization-code exchange and client registration, in Dafny

This project models the two OAuth endpoints of the Gmail MCP gateway:

- the token endpoint (`POST /api/oauth/token`). It redeems an authorization code for a bearer token, following section 4.1.3 of RFC 6749. A code that carries a challenge is checked with PKCE, as in section 4.6 of RFC 7636.
- the client registration endpoint (`POST /api/oauth/register`). It is a reduced form of section 3 of RFC 7591.

Both endpoints are pure functions over an immutable store. The store holds clients keyed by public `client_id`, authorization codes keyed by code string, and access tokens keyed by token string. Each function returns a tagged result together with the new store.

- `TokenEndpoint.Redeem` runs the same fail-fast sequence as the handler: grant type, required fields, client lookup, code ownership and exact redirect URI, expiry, PKCE branch, confidential-client secret branch. Only then does it make its one mutation: delete the code (by its row id), then create one token.
- `Registration.Register` checks the two fields, generates the secret and inserts one client.

Things from outside the handlers are parameters:
- the clock `now`, in milliseconds;
- the random octets `entropy` behind `randomBytes(32)`;
- SHA-256, as `sha256: string -> seq<Byte>`;
- database failures (`Fault`, `createFails`).

Hex encoding of secrets and tokens, and the Base64 → Base64url rewrite of the S256 challenge, are modelled concretely.

Modules:
- `Wrappers` — Option, Result, Outcome; `Http` — a status with a JSON body.
- `Bytes` — octets and lower-case hex.
- `Base64` — RFC 4648 sections 4 and 5, and the endpoint's rewrite between them.
- `OAuthStore` — the entities, the store and its uniqueness invariant.
- `Pkce` — the S256 and plain challenge checks.
- `TokenEndpoint` — the exchange, its HTTP responses and its properties.
- `Registration` — registration and its properties.
- `Flows` — facts that span registration and exchange.

Edge cases of the code, modelled as written:
- **Expiry.** A code is rejected only when `expiresAt < now` (src/app/api/oauth/token/route.ts:85). A code with `expiresAt == now` is still accepted.
- **Verifier errors.** A missing verifier and a wrong verifier get distinct messages (src/app/api/oauth/token/route.ts:102 and 122).
- **Redirect URIs at registration.** `redirect_uris` is only tested for truthiness (src/app/api/oauth/register/route.ts:10), so an empty list is accepted.

## Model

| member | source | states |
|---|---|---|
| TokenEndpoint.Redeem | src/app/api/oauth/token/route.ts:31-175 | Clients are never changed. No error adds a token. Every error other than a server error leaves the store as it was. A server error that changes the store happened after the code was deleted, and the code is gone. On success: the code existed and belonged to the named client; it is removed, and when code row ids are unique (the table's primary key) nothing else is; exactly one new token is added, bound to the client's id and the code's user and expiring at now + 3,600,000 ms; the token is 64 lower-case hex characters; the response says "Bearer" and 3600. |
| TokenEndpoint.RedeemSucceedsIff | src/app/api/oauth/token/route.ts:31-175 | A token is issued if and only if all of these hold: the request is redeemable (every condition, stated without an order), no database call throws, and the fresh token is unused. The response is then 200 with the token, "Bearer" and 3600. |
| TokenEndpoint.GrantTypeCheckedFirst | src/app/api/oauth/token/route.ts:31-41 | Any grant_type other than "authorization_code" gives 400 "Unsupported grant type". This holds for every store and fault, and the store is unchanged. |
| TokenEndpoint.MissingFieldsRefusedWithoutStore | src/app/api/oauth/token/route.ts:43-53 | An absent or empty code, redirect_uri or client_id gives 400 "Invalid request". The store is unchanged, and the answer is the same for every store and every fault, so the store is never consulted. |
| TokenEndpoint.UnknownClientRefused | src/app/api/oauth/token/route.ts:57-68 | A client_id with no client gives 401 "Invalid client" and leaves the store unchanged. |
| TokenEndpoint.InvalidCodeCausesShareOneResponse | src/app/api/oauth/token/route.ts:71-82 | Three causes give the identical 400 "Invalid code" and leave the store unchanged: an unknown code, a code of another client, and a stored redirect URI that is not string-equal to the request's. |
| TokenEndpoint.ExpiryBoundary | src/app/api/oauth/token/route.ts:85-95 | Once the code matches, the result is "Code expired" exactly when expiresAt < now. At expiresAt == now the code is accepted. |
| TokenEndpoint.PkceDecidesChallengedCodes | src/app/api/oauth/token/route.ts:99-131 | For a code with a challenge, an absent or empty verifier gives "Missing code_verifier for PKCE". A verifier that fails the method's check gives "Invalid code_verifier for PKCE". Changing client_secret never changes the outcome, even for a confidential client. |
| TokenEndpoint.SecretDecidesUnchallengedCodes | src/app/api/oauth/token/route.ts:133-144 | For a code without a challenge, the result is 401 "Invalid client" exactly when the client has a non-empty secret and the request's client_secret differs from it. Changing code_verifier never changes the outcome. |
| TokenEndpoint.ReplayIsInvalidCode | src/app/api/oauth/token/route.ts:146-149 | After a successful exchange, every later request for the same code by a known client is "Invalid code". |
| TokenEndpoint.ServerErrorAfterDelete | src/app/api/oauth/token/route.ts:146-185 | For a redeemable request, a failing delete gives "Server error" with the store unchanged. A failing token insert gives "Server error" with no new token and the code consumed. |
| TokenEndpoint.RedeemPreservesValid | src/app/api/oauth/token/route.ts:146-162 | The exchange keeps the store's uniqueness constraints: every row sits under its own key, and ids are unique. |
| TokenEndpoint.Respond | src/app/api/oauth/token/route.ts:31-185 | A success is 200 with the token, "Bearer" and 3600. Each failure gets the handler's status and message: 400 "Unsupported grant type", 400 "Invalid request", 401 "Invalid client" (unknown client or wrong secret), 400 "Invalid code" (three causes), 400 "Code expired", 400 "Missing code_verifier for PKCE", 400 "Invalid code_verifier for PKCE" and 500 "Server error". |
| TokenEndpoint.ResponsesMergeOnlyIntendedCauses | src/app/api/oauth/token/route.ts:31-185 | Two failures get the same HTTP response if and only if they are the same cause, or both are "Invalid code" causes, or both are "Invalid client" causes. |
| Pkce.VerifierMatches | src/app/api/oauth/token/route.ts:111-120 | For S256, the check accepts if and only if the unpadded Base64url of SHA-256(verifier) equals the challenge. For plain or an unset method, it accepts exactly on string equality. Any other method string never accepts. |
| Pkce.S256Challenge | src/app/api/oauth/token/route.ts:112-117 | The endpoint's computed challenge is the BASE64URL-ENCODE(SHA256(verifier)) of RFC 7636 Appendix A. For a 32-octet digest it is 43 characters long. |
| Base64.UrlRewriteOfEncode | src/app/api/oauth/token/route.ts:113-116 | For every octet string, rewriting standard Base64 ('+' to '-', '/' to '_', trailing '=' dropped) gives exactly the unpadded URL-safe encoding of RFC 4648 section 5. |
| Base64.ToBase64Url | src/app/api/oauth/token/route.ts:113-116 | The rewritten text contains no '+' and no '/', and does not end in '='. |
| Base64.StripTrailing | src/app/api/oauth/token/route.ts:116 | `replace(/=+$/, '')` keeps a prefix that does not end in '=', and removes only '=' characters. |
| Base64.Encode | src/app/api/oauth/token/route.ts:113 | Node's standard Base64 output for n octets, '=' padding included, is 4·⌈n/3⌉ characters long. |
| Base64.EncodeUrl | src/app/api/oauth/token/route.ts:113-117 | The unpadded URL-safe encoding is ⌈4n/3⌉ characters long, all from the URL-safe alphabet. |
| Base64.Sextets | src/app/api/oauth/token/route.ts:113 | An n-octet string splits into ⌈4n/3⌉ six-bit groups, each below 64. |
| Bytes.ToHex | src/app/api/oauth/token/route.ts:151 | `randomBytes(32).toString('hex')` gives two lower-case hex digits per octet. The same encoding makes the client secret at src/app/api/oauth/register/route.ts:24. |
| Bytes.FromHexToHex | src/app/api/oauth/register/route.ts:24 | Decoding the hex text of any octet string gives those octets back. |
| Bytes.ToHexFromHex | src/app/api/oauth/register/route.ts:24 | Lower-case hex text has exactly one octet preimage, and encoding that preimage gives the text back. |
| Bytes.FromHexAccepts | src/app/api/oauth/register/route.ts:24 | Text decodes as hex if and only if it has even length and uses only lower-case hex digits. |
| OAuthStore.DeleteCode | src/app/api/oauth/token/route.ts:148 | Deleting by row id only removes rows and leaves no row with that id. When code ids are unique, it removes exactly the one code with that id. |
| Registration.Register | src/app/api/oauth/register/route.ts:7-61 | The result is 400 "Missing required fields" if and only if client_name is absent or empty or redirect_uris is absent. Registration succeeds if and only if both fields pass, the insert does not throw and the generated ids are free. Any failure leaves the store unchanged. On success exactly one client is added under a fresh client_id: its name and redirect URIs are the given ones, its secret is the generated one, and it has no user. Codes and tokens are untouched. The returned secret is 64 lower-case hex characters and decodes to the 32 random octets. |
| Registration.PersistenceFailureAddsNoClient | src/app/api/oauth/register/route.ts:48-52 | When the insert throws, the result is 500 "Error creating client" and no client is added. |
| Registration.ResponseEchoesStoredClient | src/app/api/oauth/register/route.ts:31-40 | A successful registration answers 200. The response's client_id names the stored client, its client_secret is that client's stored secret, and its redirect_uris echo the request. |
| Registration.Respond | src/app/api/oauth/register/route.ts:11-53 | The status is 200 exactly on success. A success body carries the registered client_id, client_secret and redirect_uris. Missing fields give 400 "Missing required fields" and a failed insert gives 500 "Error creating client". |
| Registration.RegisterPreservesValid | src/app/api/oauth/register/route.ts:27-34 | Registration keeps the store's uniqueness constraints. |
| Registration.RegisteringTwiceGivesTwoClients | src/app/api/oauth/register/route.ts:27-34 | Two successful registrations, even with the same name, create two clients. Their public ids differ and their internal ids differ. |
| Flows.RegisteredClientWithoutPkceMustPresentSecret | src/app/api/oauth/token/route.ts:134-144 | A freshly registered client exchanging a code without a challenge gets a token if and only if it sends the secret registration returned. Any other secret gives 401 "Invalid client". |
| Flows.RegisteredClientWithPkceNeedsNoSecret | src/app/api/oauth/token/route.ts:99-144 | For a code with a challenge, the same client succeeds if and only if its verifier passes the method's check. The secret it sends does not matter. |
| Flows.RegisterExchangeReplay | src/app/api/oauth/token/route.ts:146-175 | Register, issue a code, exchange it: the token is bound to the new client and the code's user, and expires one hour later. Replaying the exchange gives 400 "Invalid code". |

## Left out

- CORS headers, the `OPTIONS` handlers (including the branch at the top of the token `POST`), form and JSON body parsing, and logging: transport plumbing with no decision in it.
- Randomness: `randomBytes(32)` is the `entropy` parameter. The model asks only that it holds 32 octets.
- SHA-256 and the UTF-8 encoding of the verifier: foreign crypto, passed in as the uninterpreted function `sha256`.
- The clock: the handler reads it twice, once for the expiry check and once for the token's expiry. The model uses one reading, `now`, for both.
- Concurrency: two simultaneous exchanges of one code race between the separate delete and create calls. The model is sequential. A failing token insert after the delete is the `CreateFault` case.
- The database: it is an abstract store. Throwing calls are the `Fault` and `createFails` parameters. The ids the database generates for a new client are the parameters `newId` and `newClientId`. An insert that reuses a taken key fails like any other insert.
- JSON values of other types: a `client_name` or `redirect_uris` that is a number, an object or another non-string value is not modelled. The model's request fields are optional strings and an optional list of strings.
- Issuing authorization codes: that happens in an authorization step that is not part of this model. `Flows.WithCode` stands in for it.
- Bearer-token authentication in `src/app/[transport]/route.ts` is not part of this model, and neither are the discovery documents, the NextAuth configuration, the UI or the Prisma client wiring.
