/** The OAuth routes of the Flask app as a state machine over the signed
    session, a string-keyed map (app.py, `authorize`, `oauth2callback`,
    `tokens`, `logout`). The provider's consent URL, the state it issues and
    the token exchange are opaque to the app and arrive here as parameters. */
module OAuthSession {
  import opened Wrappers

  /** Where the app sends the browser after a login or a logout. */
  const FrontendOrigin: string := "http://127.0.0.1:5001/logs"
  const StateKey: string := "state"
  const TokensKey: string := "tokens"

  /** A session value: the CSRF state string, or the credential record that
      `json.loads(credentials.to_json())` yields. */
  datatype Value = Text(text: string) | Record(fields: map<string, string>)

  /** The outcome of `flow.fetch_token`: the credential record, or an
      exception (which Flask turns into a 500 response). */
  datatype Exchange = Granted(credentials: map<string, string>) | ExchangeFailed

  datatype Response =
    | Redirect(location: string)
    | Abort(status: int, message: string)
    | Json(body: Option<Value>)
    | InternalServerError

  /** `session.get(key)`: the stored value, or `None` exactly when the key
      is absent. */
  function Get(session: map<string, Value>, key: string): (r: Option<Value>)
    ensures r == None <==> key !in session
    ensures forall v :: r == Some(v) ==> key in session && session[key] == v
  {
    if key in session then Some(session[key]) else None
  }

  /** Python truthiness of a stored value: `""` and `{}` are false. */
  predicate Truthy(v: Value) {
    match v
    case Text(t) => t != ""
    case Record(f) => f != map[]
  }

  /** The callback's guard (`if not state or request.args.get("state") !=
      state: abort`): it passes exactly when the session holds a non-empty
      state string and the request carries that same string. */
  predicate StateAccepted(session: map<string, Value>, received: Option<string>): (b: bool)
    ensures b <==> received.Some? && received.value != "" && Get(session, StateKey) == Some(Text(received.value))
  {
    StateKey in session && Truthy(session[StateKey]) &&
    received.Some? && Text(received.value) == session[StateKey]
  }

  class Session {
    /** The Flask `session` contents. */
    var data: map<string, Value>

    constructor ()
      ensures data == map[]
    {
      data := map[];
    }

    /** `GET /authorize`: remember the state issued with the consent URL and
        send the browser there. */
    method Authorize(authUrl: string, issuedState: string) returns (resp: Response)
      modifies this
      ensures data == old(data)[StateKey := Text(issuedState)]
      ensures resp == Redirect(authUrl)
    {
      data := data[StateKey := Text(issuedState)];
      resp := Redirect(authUrl);
    }

    /** `GET /oauth2callback`: reject unless the stored state matches the
        request's; otherwise exchange the code and store the credentials. */
    method OAuth2Callback(received: Option<string>, exchange: Exchange) returns (resp: Response)
      modifies this
      ensures !StateAccepted(old(data), received) ==>
        resp == Abort(400, "state mismatch") && data == old(data)
      ensures StateAccepted(old(data), received) && exchange.ExchangeFailed? ==>
        resp == InternalServerError && data == old(data)
      ensures StateAccepted(old(data), received) && exchange.Granted? ==>
        resp == Redirect(FrontendOrigin) && data == old(data)[TokensKey := Record(exchange.credentials)]
    {
      var state := Get(data, StateKey);
      if state.None? || !Truthy(state.value) || received.None? || Text(received.value) != state.value {
        return Abort(400, "state mismatch");
      }
      match exchange
      case ExchangeFailed =>
        resp := InternalServerError;
      case Granted(credentials) =>
        data := data[TokensKey := Record(credentials)];
        resp := Redirect(FrontendOrigin);
    }

    /** `GET /tokens`: the stored credentials as JSON, `null` when absent. */
    method Tokens() returns (resp: Response)
      ensures resp == Json(Get(data, TokensKey))
    {
      resp := Json(Get(data, TokensKey));
    }

    /** `GET /logout`: forget everything. */
    method Logout() returns (resp: Response)
      modifies this
      ensures data == map[]
      ensures resp == Redirect(FrontendOrigin)
    {
      data := map[];
      resp := Redirect(FrontendOrigin);
    }
  }

  /** A full login: the browser comes back with the state it was given and
      the exchange succeeds, so the credentials become readable. */
  method LoginRoundTrip(session: Session, authUrl: string, issuedState: string, credentials: map<string, string>)
    returns (tokens: Response)
    requires issuedState != ""
    modifies session
    ensures tokens == Json(Some(Record(credentials)))
    ensures session.data == old(session.data)[StateKey := Text(issuedState)][TokensKey := Record(credentials)]
  {
    var r := session.Authorize(authUrl, issuedState);
    r := session.OAuth2Callback(Some(issuedState), Granted(credentials));
    assert r == Redirect(FrontendOrigin);
    tokens := session.Tokens();
  }

  /** A callback whose state differs from the one issued is refused and
      leaves the stored credentials as they were. */
  method ForgedCallback(session: Session, authUrl: string, issuedState: string, forged: Option<string>, exchange: Exchange)
    returns (resp: Response)
    requires forged != Some(issuedState)
    modifies session
    ensures resp == Abort(400, "state mismatch")
    ensures Get(session.data, TokensKey) == old(Get(session.data, TokensKey))
  {
    var r := session.Authorize(authUrl, issuedState);
    resp := session.OAuth2Callback(forged, exchange);
  }

  /** After a logout the session the server hands back is empty: its
      credentials are gone and a callback presenting it is refused, whatever
      state it carries. */
  method LogoutClears(session: Session, received: Option<string>, exchange: Exchange)
    returns (tokens: Response, callback: Response)
    modifies session
    ensures tokens == Json(None)
    ensures callback == Abort(400, "state mismatch")
    ensures session.data == map[]
  {
    var r := session.Logout();
    tokens := session.Tokens();
    callback := session.OAuth2Callback(received, exchange);
  }

  /** The callback does not consume the stored state: a second callback with
      the same state passes the guard again, and when its exchange succeeds
      (which takes a fresh authorization code) it overwrites the credentials. */
  method ReplayAccepted(session: Session, authUrl: string, issuedState: string, first: map<string, string>, second: map<string, string>)
    returns (resp: Response)
    requires issuedState != ""
    modifies session
    ensures resp == Redirect(FrontendOrigin)
    ensures Get(session.data, TokensKey) == Some(Record(second))
  {
    var r := session.Authorize(authUrl, issuedState);
    r := session.OAuth2Callback(Some(issuedState), Granted(first));
    resp := session.OAuth2Callback(Some(issuedState), Granted(second));
  }
}
