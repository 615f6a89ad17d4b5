/** Dynamic client registration, a reduced form of RFC 7591 section 3: a
    name and redirect URIs in, a new confidential client with a fresh secret
    out. */
module Registration {
  import opened Wrappers
  import opened Bytes
  import opened OAuthStore
  import opened Http

  /** The JSON body; None is a member that was not sent. An empty list of
      redirect URIs is a present (truthy) value. */
  datatype RegisterRequest = RegisterRequest(clientName: Option<string>, redirectUris: Option<seq<string>>)

  datatype RegisterError = MissingRequiredFields | ErrorCreatingClient

  /** What the client is told: its public id, its secret (the only time it is
      disclosed) and its redirect URIs. */
  datatype Registered = Registered(clientId: string, clientSecret: string, redirectUris: seq<string>)

  /** What one registration request returns, together with the store after it. */
  datatype Enrolment = Enrolment(result: Result<Registered, RegisterError>, store: Store)

  /** Registration. `entropy` is the 32 random octets whose hex form is the
      secret; `newId` and `newClientId` are the keys the database generates
      for the row; `createFails` says the insert throws. An insert whose keys
      are already taken fails as well. */
  function Register(st: Store, req: RegisterRequest, entropy: seq<Byte>,
                    newId: string, newClientId: string, createFails: bool): (out: Enrolment)
    requires |entropy| == 32
    ensures (!Present(req.clientName) || req.redirectUris.None?) <==> out.result == Failure(MissingRequiredFields)
    ensures out.result.Success?
        <==> Present(req.clientName) && req.redirectUris.Some?
             && !createFails && newClientId !in st.clients && !InternalIdTaken(st, newId)
    ensures out.result.Failure? ==> out.store == st
    ensures out.result.Success? ==>
      && var reg := out.result.value;
      && newClientId !in st.clients
      && reg.clientId == newClientId
      && out.store.clients.Keys == st.clients.Keys + {newClientId}
      && (forall k :: k in st.clients ==> out.store.clients[k] == st.clients[k])
      && out.store.clients[newClientId]
           == Client(newId, newClientId, Some(reg.clientSecret), req.redirectUris.value, req.clientName.value, None)
      && out.store.codes == st.codes && out.store.tokens == st.tokens
      && reg.redirectUris == req.redirectUris.value
      && |reg.clientSecret| == 64 && IsLowerHex(reg.clientSecret)
      && FromHex(reg.clientSecret) == Some(entropy)
  {
    if !Present(req.clientName) || req.redirectUris.None? then Enrolment(Failure(MissingRequiredFields), st)
    else
      var secret := ToHex(entropy);
      if createFails || newClientId in st.clients || InternalIdTaken(st, newId) then
        Enrolment(Failure(ErrorCreatingClient), st)
      else
        FromHexToHex(entropy);
        var client := Client(newId, newClientId, Some(secret), req.redirectUris.value, req.clientName.value, None);
        Enrolment(Success(Registered(newClientId, secret, req.redirectUris.value)),
                  st.(clients := st.clients[newClientId := client]))
  }

  /** The JSON body: the new client's credentials, or an error message. */
  datatype Body =
    | Credentials(clientId: string, clientSecret: string, redirectUris: seq<string>)
    | ErrorBody(error: string)

  function Respond(r: Result<Registered, RegisterError>): (resp: HttpResponse<Body>)
    ensures resp.status == 200 <==> r.Success?
    ensures r.Success? ==>
      resp.body == Credentials(r.value.clientId, r.value.clientSecret, r.value.redirectUris)
    ensures r == Failure(MissingRequiredFields) ==> resp == HttpResponse(400, ErrorBody("Missing required fields"))
    ensures r == Failure(ErrorCreatingClient) ==> resp == HttpResponse(500, ErrorBody("Error creating client"))
  {
    match r
    case Success(reg) => HttpResponse(200, Credentials(reg.clientId, reg.clientSecret, reg.redirectUris))
    case Failure(MissingRequiredFields) => HttpResponse(400, ErrorBody("Missing required fields"))
    case Failure(ErrorCreatingClient) => HttpResponse(500, ErrorBody("Error creating client"))
  }

  /** A database failure on a well-formed request is a 500 and adds no client. */
  lemma PersistenceFailureAddsNoClient(st: Store, req: RegisterRequest, entropy: seq<Byte>,
                                       newId: string, newClientId: string)
    requires |entropy| == 32
    requires Present(req.clientName) && req.redirectUris.Some?
    ensures Register(st, req, entropy, newId, newClientId, true) == Enrolment(Failure(ErrorCreatingClient), st)
    ensures Respond(Failure(ErrorCreatingClient)) == HttpResponse(500, ErrorBody("Error creating client"))
  {
  }

  /** A successful registration answers 200 with the stored client's public id
      and secret and echoes the redirect URIs. */
  lemma ResponseEchoesStoredClient(st: Store, req: RegisterRequest, entropy: seq<Byte>,
                                   newId: string, newClientId: string, createFails: bool)
    requires |entropy| == 32
    requires Register(st, req, entropy, newId, newClientId, createFails).result.Success?
    ensures var out := Register(st, req, entropy, newId, newClientId, createFails);
      var body := Respond(out.result).body;
      && Respond(out.result).status == 200
      && body.Credentials?
      && body.clientId in out.store.clients
      && out.store.clients[body.clientId].clientSecret == Some(body.clientSecret)
      && body.redirectUris == req.redirectUris.value
  {
  }

  /** Registration keeps the database's uniqueness constraints. */
  lemma RegisterPreservesValid(st: Store, req: RegisterRequest, entropy: seq<Byte>,
                               newId: string, newClientId: string, createFails: bool)
    requires |entropy| == 32
    requires Valid(st)
    ensures Valid(Register(st, req, entropy, newId, newClientId, createFails).store)
  {
  }

  /** Names need not be unique, but two successful registrations in a row
      give two different clients, public ids and internal ids alike. */
  lemma RegisteringTwiceGivesTwoClients(st: Store, req: RegisterRequest, entropy: seq<Byte>, entropy': seq<Byte>,
                                        newId: string, newClientId: string, newId': string, newClientId': string)
    requires |entropy| == 32 && |entropy'| == 32
    requires Register(st, req, entropy, newId, newClientId, false).result.Success?
    requires Register(Register(st, req, entropy, newId, newClientId, false).store, req,
                      entropy', newId', newClientId', false).result.Success?
    ensures newClientId' != newClientId && newId' != newId
    ensures var st2 := Register(Register(st, req, entropy, newId, newClientId, false).store, req,
                                entropy', newId', newClientId', false).store;
      st2.clients.Keys == st.clients.Keys + {newClientId, newClientId'}
  {
  }
}
