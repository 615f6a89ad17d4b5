/** The persistent state the OAuth endpoints read and write: registered
    clients, outstanding authorization codes and issued access tokens. Times
    are milliseconds since the epoch, as JavaScript `Date` values compare. */
module OAuthStore {
  import opened Wrappers

  /** A registered client. `id` is the internal key that codes and tokens
      refer to; `clientId` is the public identifier clients send. A client
      without a (non-empty) secret is public. */
  datatype Client = Client(
    id: string,
    clientId: string,
    clientSecret: Option<string>,
    redirectUris: seq<string>,
    name: string,
    userId: Option<string>)

  /** An authorization code issued to a client (by its internal id) on behalf
      of a user, with its redirect URI and optional PKCE challenge. */
  datatype AuthCode = AuthCode(
    id: string,
    code: string,
    clientId: string,
    userId: string,
    redirectUri: string,
    codeChallenge: Option<string>,
    codeChallengeMethod: Option<string>,
    expiresAt: int)

  /** A bearer token bound to a client's internal id and a user. */
  datatype AccessToken = AccessToken(token: string, clientId: string, userId: string, expiresAt: int)

  /** Clients keyed by public client id, codes by code string, tokens by token string. */
  datatype Store = Store(
    clients: map<string, Client>,
    codes: map<string, AuthCode>,
    tokens: map<string, AccessToken>)

  /** The uniqueness constraints the database enforces: every row sits under
      its own unique key, and internal ids are unique. */
  predicate Valid(st: Store) {
    && (forall k :: k in st.clients ==> st.clients[k].clientId == k)
    && (forall k, k' :: k in st.clients && k' in st.clients && st.clients[k].id == st.clients[k'].id ==> k == k')
    && (forall k :: k in st.codes ==> st.codes[k].code == k)
    && UniqueCodeIds(st.codes)
    && (forall k :: k in st.tokens ==> st.tokens[k].token == k)
  }

  /** Whether some client already has internal id `id`. */
  predicate InternalIdTaken(st: Store, id: string) {
    exists k :: k in st.clients && st.clients[k].id == id
  }

  /** No two authorization-code rows share an internal id. */
  predicate UniqueCodeIds(codes: map<string, AuthCode>) {
    forall k, k' :: k in codes && k' in codes && codes[k].id == codes[k'].id ==> k == k'
  }

  /** `delete where id = ...` on the authorization-code table: it only
      removes rows, it removes every row with that id, and when ids are
      unique it removes exactly the one code that has it. */
  function DeleteCode(codes: map<string, AuthCode>, id: string): (r: map<string, AuthCode>)
    ensures r.Keys <= codes.Keys
    ensures forall k :: k in r ==> r[k] == codes[k] && r[k].id != id
    ensures forall key :: key in codes && codes[key].id == id && UniqueCodeIds(codes) ==> r == codes - {key}
  {
    map k | k in codes && codes[k].id != id :: codes[k]
  }
}
