/** The LINE Notify client: an OAuth 2.0 authorization-code client (section
    4.1 of RFC 6749) that then calls the notify and revoke endpoints with a
    bearer token (section 2.1 of RFC 6750). Every call is a pure function from
    the configuration, its arguments and the transport's outcome to the
    request it sends and the value it returns; the transport itself is not
    modelled. */
module LineNotifyService {
  import opened Optional
  import opened Php
  import opened FormEncoding

  const NotifyApiUrl: string := "https://notify-api.line.me/api/"
  const OauthApiUrl: string := "https://notify-bot.line.me/oauth/"
  const AuthorizeEndpoint: string := OauthApiUrl + "authorize?"

  /** The service's settings, read with `env()` at construction; an unset
      variable reads as null. */
  datatype Config = Config(clientId: Option<string>, clientSecret: Option<string>, redirectUri: Option<string>)

  /** A form-encoded POST as the HTTP client sends it. */
  datatype HttpRequest = FormPost(url: string, headers: seq<(string, string)>, form: seq<Field>) {
    /** The request body on the wire. */
    function Body(): string {
      BuildQuery(form)
    }
  }

  /** The scalar JSON values the code can meet where it reads a field. */
  datatype Json = JNull | JString(s: string) | JInt(n: int) | JBool(b: bool)

  /** What the HTTP client produces: an exception (connection failure,
      timeout), or a response with its status and its body decoded as a JSON
      object (`None` when the body is not one). */
  datatype HttpOutcome = Threw | Responded(status: int, json: Option<map<string, Json>>)

  /** A call to the provider: the request sent and the value returned. */
  datatype Exchange<T> = Exchange(request: HttpRequest, result: T)

  /** Laravel's `Response::successful()`: a 2xx status (section 15.3 of RFC 9110). */
  predicate Successful(o: HttpOutcome) {
    o.Responded? && 200 <= o.status < 300
  }

  /** The Authorization header value's token under the `Bearer` scheme. */
  function BearerToken(req: HttpRequest): Option<string> {
    if |req.headers| == 1 && req.headers[0].0 == "Authorization"
       && StartsWith(req.headers[0].1, "Bearer ")
    then Some(req.headers[0].1[7..])
    else None
  }

  function AuthFields(cfg: Config, state: string): seq<Field> {
    [("response_type", Some("code")), ("client_id", cfg.clientId), ("redirect_uri", cfg.redirectUri),
     ("scope", Some("notify")), ("state", Some(state))]
  }

  /** The pairs of the authorization request, in order, as the provider reads them. */
  function AuthPairs(cfg: Config, state: string): seq<(string, string)> {
    [("response_type", "code")] + Emit(("client_id", cfg.clientId))
    + Emit(("redirect_uri", cfg.redirectUri)) + [("scope", "notify"), ("state", state)]
  }

  lemma AuthFieldsEmit(cfg: Config, state: string)
    ensures Present(AuthFields(cfg, state)) == AuthPairs(cfg, state)
  {
    var f := AuthFields(cfg, state);
    PresentFive(f);
  }

  /** `getAuthUrl`: the authorization request of section 4.1.1 of RFC 6749.
      The URL is the authorize endpoint followed by a query that reads back
      as `response_type=code`, `client_id`, `redirect_uri`, `scope=notify`
      and `state`, in that order, minus any unset setting. */
  function GetAuthUrl(cfg: Config, state: string): (url: string)
    ensures StartsWith(url, AuthorizeEndpoint)
    ensures ParseQuery(url[|AuthorizeEndpoint|..]) == Some(AuthPairs(cfg, state))
  {
    var fields := AuthFields(cfg, state);
    AuthFieldsEmit(cfg, state);
    var url := AuthorizeEndpoint + BuildQuery(fields);
    assert url[|AuthorizeEndpoint|..] == BuildQuery(fields);
    url
  }

  /** Different states give different authorization URLs. */
  lemma AuthUrlInjective(cfg: Config, s1: string, s2: string)
    ensures GetAuthUrl(cfg, s1) == GetAuthUrl(cfg, s2) <==> s1 == s2
  {
    if GetAuthUrl(cfg, s1) == GetAuthUrl(cfg, s2) {
      var p1, p2 := AuthPairs(cfg, s1), AuthPairs(cfg, s2);
      assert p1 == p2;
      assert p1[|p1| - 1] == ("state", s1);
      assert p2[|p2| - 1] == ("state", s2);
    }
  }

  function TokenFields(cfg: Config, code: string): seq<Field> {
    [("grant_type", Some("authorization_code")), ("code", Some(code)),
     ("redirect_uri", cfg.redirectUri), ("client_id", cfg.clientId), ("client_secret", cfg.clientSecret)]
  }

  /** The pairs of the token request, in order, as the provider reads them. */
  function TokenPairs(cfg: Config, code: string): seq<(string, string)> {
    [("grant_type", "authorization_code"), ("code", code)] + Emit(("redirect_uri", cfg.redirectUri))
    + Emit(("client_id", cfg.clientId)) + Emit(("client_secret", cfg.clientSecret))
  }

  lemma TokenFieldsEmit(cfg: Config, code: string)
    ensures Present(TokenFields(cfg, code)) == TokenPairs(cfg, code)
  {
    var f := TokenFields(cfg, code);
    PresentFive(f);
  }

  /** The token request of section 4.1.3 of RFC 6749, sent by `getAccessToken`
      to the token endpoint as a form post without extra headers. */
  function TokenRequest(cfg: Config, code: string): (req: HttpRequest)
    ensures req.url == OauthApiUrl + "token" && req.headers == []
  {
    FormPost(OauthApiUrl + "token", [], TokenFields(cfg, code))
  }

  /** The token request's body reads back as `grant_type=authorization_code`,
      the code, and the client's settings, in that order, minus any unset
      setting. */
  lemma TokenRequestReadsBack(cfg: Config, code: string)
    ensures ParseQuery(TokenRequest(cfg, code).Body()) == Some(TokenPairs(cfg, code))
  {
    TokenFieldsEmit(cfg, code);
  }

  /** The `?string` return type's coercion of what `$data['access_token'] ?? null` yields. */
  function AsNullableString(j: Json): Option<string> {
    match j
    case JNull => None
    case JString(s) => Some(s)
    case JInt(n) => Some(IntToString(n))
    case JBool(b) => Some(if b then "1" else "")
  }

  /** `$response->json()[name]`: the named field of a JSON object body;
      absent when the call threw, the body is not an object, or it lacks the field. */
  function JsonField(reply: HttpOutcome, name: string): Option<Json> {
    if reply.Responded? && reply.json.Some? && name in reply.json.value
    then Some(reply.json.value[name])
    else None
  }

  /** How `getAccessToken` reads the provider's answer: the body's
      `access_token`, whatever the response status; null when the call threw,
      the body is not a JSON object, or the field is missing or null. */
  function AccessTokenOf(reply: HttpOutcome): (r: Option<string>)
    ensures var f := JsonField(reply, "access_token");
      && (r.None? <==> f.None? || f.value.JNull?)
      && (f.Some? && f.value.JString? ==> r == Some(f.value.s))
  {
    match reply
    case Threw => None
    case Responded(_, json) =>
      if json.Some? && "access_token" in json.value then AsNullableString(json.value["access_token"]) else None
  }

  /** `getAccessToken`: posts the token request for `code` and reads the
      access token out of the answer. */
  function GetAccessToken(cfg: Config, code: string, reply: HttpOutcome): (x: Exchange<Option<string>>)
    ensures x.request == TokenRequest(cfg, code)
    ensures x.result == AccessTokenOf(reply)
  {
    Exchange(TokenRequest(cfg, code), AccessTokenOf(reply))
  }

  /** The HTTP status plays no part in `getAccessToken`'s result. */
  lemma AccessTokenIgnoresStatus(cfg: Config, code: string, s1: int, s2: int, json: Option<map<string, Json>>)
    ensures GetAccessToken(cfg, code, Responded(s1, json)).result == GetAccessToken(cfg, code, Responded(s2, json)).result
  {
  }

  /** The request `sendMessage` sends. */
  function NotifyRequest(token: string, message: string): (req: HttpRequest)
    ensures req.url == NotifyApiUrl + "notify"
    ensures BearerToken(req) == Some(token)
    ensures ParseQuery(req.Body()) == Some([("message", message)])
  {
    var req := FormPost(NotifyApiUrl + "notify", [("Authorization", "Bearer " + token)], [("message", Some(message))]);
    assert Present(req.form) == [("message", message)];
    assert ("Bearer " + token)[7..] == token;
    req
  }

  /** `sendMessage`: true exactly when the provider answers 2xx; false on
      any other status and when the call throws. */
  function SendMessage(token: string, message: string, reply: HttpOutcome): (x: Exchange<bool>)
    ensures x.request == NotifyRequest(token, message)
    ensures x.result <==> reply.Responded? && 200 <= reply.status < 300
  {
    Exchange(NotifyRequest(token, message), Successful(reply))
  }

  /** The request `revokeToken` sends: bearer header, empty form. */
  function RevokeRequest(token: string): (req: HttpRequest)
    ensures req.url == NotifyApiUrl + "revoke"
    ensures BearerToken(req) == Some(token)
    ensures req.Body() == "" && ParseQuery(req.Body()) == Some([])
  {
    var req := FormPost(NotifyApiUrl + "revoke", [("Authorization", "Bearer " + token)], []);
    assert ("Bearer " + token)[7..] == token;
    req
  }

  /** `revokeToken`: true exactly when the provider answers 2xx. */
  function RevokeToken(token: string, reply: HttpOutcome): (x: Exchange<bool>)
    ensures x.request == RevokeRequest(token)
    ensures x.result <==> reply.Responded? && 200 <= reply.status < 300
  {
    Exchange(RevokeRequest(token), Successful(reply))
  }
}
