/** The three LINE Notify routes as transitions on the per-tenant credential
    store: the OAuth redirect callback binds a token, `send-message` uses it,
    `revoke` clears it once the provider confirms. Each handler takes the
    provider's outcome as a parameter and reports the requests it actually
    sent, so "no outbound call" is a statement about that list. */
module LineNotifyRoutes {
  import opened Optional
  import opened Php
  import opened LineNotifyService

  type TenantId = string

  /** Each tenant record's `line_notify_token`; a tenant missing from the map
      holds no token. */
  type CredentialStore = map<TenantId, Option<string>>

  function StoredToken(store: CredentialStore, tenant: TenantId): Option<string> {
    if tenant in store then store[tenant] else None
  }

  const BindSucceeded: string := "LINE Notify 綁定成功！"
  const BindFailed: string := "LINE Notify 綁定失敗。"
  const TokenNotFound: string := "LINE Notify token not found for this tenant."

  /** A route's answer: plain text, a one-field JSON object with a status,
      or the framework's error page for an uncaught error. */
  datatype Reply =
    | Plain(text: string)
    | JsonReply(code: int, key: string, text: string)
    | ServerError
  {
    function Status(): int {
      match this
      case Plain(_) => 200
      case JsonReply(code, _, _) => code
      case ServerError => 500
    }
  }

  const NotFoundReply: Reply := JsonReply(404, "error", TokenNotFound)
  const SentReply: Reply := JsonReply(200, "status", "Message sent successfully.")
  const SendFailedReply: Reply := JsonReply(500, "status", "Failed to send message.")
  const RevokedReply: Reply := JsonReply(200, "status", "Token revoked successfully.")
  const RevokeFailedReply: Reply := JsonReply(500, "status", "Failed to revoke token.")

  /** The result of handling one request. */
  datatype Handled = Handled(reply: Reply, store: CredentialStore, calls: seq<HttpRequest>)

  /** The query string of the provider's redirect back to the application. */
  datatype RedirectQuery = RedirectQuery(code: Option<string>, state: Option<string>)

  /** Every stored token is truthy: the routes never store "" or "0". */
  ghost predicate TokensTruthy(store: CredentialStore) {
    forall t :: t in store && store[t].Some? ==> Truthy(store[t].value)
  }

  /** Only `tenant`'s entry may differ between the two stores. */
  ghost predicate OthersUnchanged(before: CredentialStore, after: CredentialStore, tenant: TenantId) {
    forall t :: t != tenant ==> StoredToken(after, t) == StoredToken(before, t)
  }

  /** Writing `tenant`'s entry leaves every other tenant's token as it was. */
  lemma BindLeavesOthers(store: CredentialStore, tenant: TenantId, token: Option<string>)
    ensures OthersUnchanged(store, store[tenant := token], tenant)
  {
    forall t | t != tenant
      ensures StoredToken(store[tenant := token], t) == StoredToken(store, t)
    {
    }
  }

  /** `GET /line-notify/redirect`, run in the context of the tenant the
      request's domain resolves to. A falsy code fails without calling the
      provider; otherwise the code is exchanged and a truthy token is bound to
      that tenant. The OAuth `state` is not read. */
  function Redirect(cfg: Config, store: CredentialStore, tenant: TenantId, query: RedirectQuery,
                    reply: HttpOutcome): (h: Handled)
    ensures h.reply == Plain(BindSucceeded) || h.reply == Plain(BindFailed)
    ensures !TruthyOpt(query.code) ==> h.calls == [] && h.store == store
    ensures TruthyOpt(query.code) ==> h.calls == [TokenRequest(cfg, query.code.value)]
    ensures h.reply == Plain(BindSucceeded) <==> TruthyOpt(query.code) && TruthyOpt(AccessTokenOf(reply))
    ensures h.reply == Plain(BindSucceeded) ==> h.store == store[tenant := AccessTokenOf(reply)]
    ensures h.reply == Plain(BindFailed) ==> h.store == store
    ensures OthersUnchanged(store, h.store, tenant)
  {
    if TruthyOpt(query.code) then
      var exchange := GetAccessToken(cfg, query.code.value, reply);
      if TruthyOpt(exchange.result) then
        BindLeavesOthers(store, tenant, exchange.result);
        Handled(Plain(BindSucceeded), store[tenant := exchange.result], [exchange.request])
      else
        Handled(Plain(BindFailed), store, [exchange.request])
    else
      Handled(Plain(BindFailed), store, [])
  }

  /** `POST /api/line-notify/send-message`. No tenant or a falsy token gives
      404 without calling the provider; a missing message is passed as null
      to a `string` parameter, a `TypeError` the route does not catch;
      otherwise the provider's verdict decides between 200 and 500. The store
      is never written. */
  function SendMessageRoute(store: CredentialStore, tenant: Option<TenantId>, message: Option<string>,
                            reply: HttpOutcome): (h: Handled)
    ensures h.store == store
    ensures tenant.None? || !TruthyOpt(StoredToken(store, tenant.value)) ==> h.reply == NotFoundReply && h.calls == []
    ensures h.reply.Status() == 404 <==> tenant.None? || !TruthyOpt(StoredToken(store, tenant.value))
    ensures h.calls != [] <==> tenant.Some? && TruthyOpt(StoredToken(store, tenant.value)) && message.Some?
    ensures h.calls != [] ==> h.calls == [NotifyRequest(StoredToken(store, tenant.value).value, message.value)]
    ensures h.reply.Status() == 200 <==>
      tenant.Some? && TruthyOpt(StoredToken(store, tenant.value)) && message.Some? && Successful(reply)
    ensures h.reply.Status() in {200, 404, 500}
    ensures h.reply.Status() == 200 ==> h.reply == SentReply
    ensures h.reply.Status() == 500 ==> if message.None? then h.reply == ServerError else h.reply == SendFailedReply
  {
    if tenant.None? || !TruthyOpt(StoredToken(store, tenant.value)) then
      Handled(NotFoundReply, store, [])
    else if message.None? then
      Handled(ServerError, store, [])
    else
      var exchange := SendMessage(StoredToken(store, tenant.value).value, message.value, reply);
      if exchange.result then
        Handled(SentReply, store, [exchange.request])
      else
        Handled(SendFailedReply, store, [exchange.request])
  }

  /** `POST /api/line-notify/revoke`. No tenant or a falsy token gives 404
      without calling the provider; otherwise the token is revoked and, only
      if the provider confirms, cleared. */
  function RevokeRoute(store: CredentialStore, tenant: Option<TenantId>, reply: HttpOutcome): (h: Handled)
    ensures tenant.None? || !TruthyOpt(StoredToken(store, tenant.value)) ==>
      h == Handled(NotFoundReply, store, [])
    ensures tenant.Some? && TruthyOpt(StoredToken(store, tenant.value)) ==>
      h.calls == [RevokeRequest(StoredToken(store, tenant.value).value)]
    ensures h.reply.Status() == 404 <==> tenant.None? || !TruthyOpt(StoredToken(store, tenant.value))
    ensures h.reply.Status() == 200 <==> h.calls != [] && Successful(reply)
    ensures h.calls != [] && !Successful(reply) ==> h.reply.Status() == 500
    ensures h.reply.Status() == 200 ==> h.store == store[tenant.value := None]
    ensures h.reply.Status() != 200 ==> h.store == store
    ensures h.reply.Status() in {200, 404, 500}
    ensures h.reply.Status() == 200 ==> h.reply == RevokedReply
    ensures h.reply.Status() == 500 ==> h.reply == RevokeFailedReply
  {
    if tenant.None? || !TruthyOpt(StoredToken(store, tenant.value)) then
      Handled(NotFoundReply, store, [])
    else
      var exchange := RevokeToken(StoredToken(store, tenant.value).value, reply);
      if exchange.result then
        Handled(RevokedReply, store[tenant.value := None], [exchange.request])
      else
        Handled(RevokeFailedReply, store, [exchange.request])
  }

  // ------------------------------------------------------ relating the routes

  /** After a successful revoke, revoking again finds no token: 404, no call. */
  lemma RevokeTwice(store: CredentialStore, tenant: TenantId, first: HttpOutcome, second: HttpOutcome)
    requires RevokeRoute(store, Some(tenant), first).reply.Status() == 200
    ensures var after := RevokeRoute(store, Some(tenant), first).store;
      RevokeRoute(after, Some(tenant), second) == Handled(NotFoundReply, after, [])
  {
    var after := RevokeRoute(store, Some(tenant), first).store;
    assert StoredToken(after, tenant) == None;
  }

  /** A token bound by the redirect is the one `send-message` then presents
      as its bearer credential. */
  lemma BindThenSend(cfg: Config, store: CredentialStore, tenant: TenantId, query: RedirectQuery,
                     exchange: HttpOutcome, message: string, reply: HttpOutcome)
    requires TruthyOpt(query.code) && TruthyOpt(AccessTokenOf(exchange))
    ensures var h := SendMessageRoute(Redirect(cfg, store, tenant, query, exchange).store, Some(tenant), Some(message), reply);
      h.calls != [] && BearerToken(h.calls[0]) == AccessTokenOf(exchange)
  {
    var bound := Redirect(cfg, store, tenant, query, exchange).store;
    assert StoredToken(bound, tenant) == AccessTokenOf(exchange);
  }

  /** One request to any of the three routes. */
  datatype Event =
    | RedirectEvent(tenant: TenantId, query: RedirectQuery, reply: HttpOutcome)
    | SendEvent(sender: Option<TenantId>, message: Option<string>, reply: HttpOutcome)
    | RevokeEvent(revoker: Option<TenantId>, reply: HttpOutcome)

  function Step(cfg: Config, store: CredentialStore, e: Event): Handled {
    match e
    case RedirectEvent(t, q, r) => Redirect(cfg, store, t, q, r)
    case SendEvent(t, m, r) => SendMessageRoute(store, t, m, r)
    case RevokeEvent(t, r) => RevokeRoute(store, t, r)
  }

  /** The store after handling `events` in order. */
  function Run(cfg: Config, store: CredentialStore, events: seq<Event>): CredentialStore
    decreases |events|
  {
    if events == [] then store else Run(cfg, Step(cfg, store, events[0]).store, events[1..])
  }

  /** Whether the event is handled in `tenant`'s context. */
  predicate Addresses(e: Event, tenant: TenantId) {
    match e
    case RedirectEvent(t, _, _) => t == tenant
    case SendEvent(t, _, _) => t == Some(tenant)
    case RevokeEvent(t, _) => t == Some(tenant)
  }

  lemma StepKeepsTokensTruthy(cfg: Config, store: CredentialStore, e: Event)
    requires TokensTruthy(store)
    ensures TokensTruthy(Step(cfg, store, e).store)
  {
    match e
    case RedirectEvent(t, q, r) =>
      var h := Redirect(cfg, store, t, q, r);
      if h.reply == Plain(BindSucceeded) {
        BindKeepsTokensTruthy(store, t, AccessTokenOf(r));
      }
    case SendEvent(t, m, r) =>
    case RevokeEvent(t, r) =>
      var h := RevokeRoute(store, t, r);
      if h.reply.Status() == 200 {
        BindKeepsTokensTruthy(store, t.value, None);
      }
  }

  /** Writing null or a truthy token keeps every stored token truthy. */
  lemma BindKeepsTokensTruthy(store: CredentialStore, tenant: TenantId, token: Option<string>)
    requires TokensTruthy(store) && (token.None? || Truthy(token.value))
    ensures TokensTruthy(store[tenant := token])
  {
  }

  /** No sequence of requests ever leaves a falsy token in the store. */
  lemma {:induction false} RunKeepsTokensTruthy(cfg: Config, store: CredentialStore, events: seq<Event>)
    requires TokensTruthy(store)
    ensures TokensTruthy(Run(cfg, store, events))
    decreases |events|
  {
    if events != [] {
      StepKeepsTokensTruthy(cfg, store, events[0]);
      RunKeepsTokensTruthy(cfg, Step(cfg, store, events[0]).store, events[1..]);
    }
  }

  /** Requests made in other tenants' contexts never touch a tenant's token. */
  lemma {:induction false} RunIsolatesTenants(cfg: Config, store: CredentialStore, events: seq<Event>, tenant: TenantId)
    requires forall i :: 0 <= i < |events| ==> !Addresses(events[i], tenant)
    ensures StoredToken(Run(cfg, store, events), tenant) == StoredToken(store, tenant)
    decreases |events|
  {
    if events != [] {
      var next := Step(cfg, store, events[0]).store;
      assert StoredToken(next, tenant) == StoredToken(store, tenant);
      RunIsolatesTenants(cfg, next, events[1..], tenant);
    }
  }

  /** A token one request leaves for `tenant` was there before, or is the
      access token the provider returned to that tenant's redirect. */
  lemma StepTokenProvenance(cfg: Config, store: CredentialStore, e: Event, tenant: TenantId)
    ensures var after := StoredToken(Step(cfg, store, e).store, tenant);
      || after.None?
      || after == StoredToken(store, tenant)
      || (e.RedirectEvent? && e.tenant == tenant && AccessTokenOf(e.reply) == after)
  {
    if e.RedirectEvent? && e.tenant != tenant {
      assert OthersUnchanged(store, Step(cfg, store, e).store, e.tenant);
    }
  }

  /** Every token in the store was there to begin with or is the access token
      the provider returned to a redirect handled for that very tenant. */
  lemma {:induction false} RunTokenProvenance(cfg: Config, store: CredentialStore, events: seq<Event>, tenant: TenantId)
    ensures var final := StoredToken(Run(cfg, store, events), tenant);
      || final.None?
      || final == StoredToken(store, tenant)
      || exists i :: 0 <= i < |events| && events[i].RedirectEvent? && events[i].tenant == tenant
                     && AccessTokenOf(events[i].reply) == final
    decreases |events|
  {
    if events != [] {
      var next := Step(cfg, store, events[0]).store;
      RunTokenProvenance(cfg, next, events[1..], tenant);
      var final := StoredToken(Run(cfg, store, events), tenant);
      assert Run(cfg, store, events) == Run(cfg, next, events[1..]);
      if exists i :: 0 <= i < |events[1..]| && events[1..][i].RedirectEvent? && events[1..][i].tenant == tenant
                     && AccessTokenOf(events[1..][i].reply) == final {
        var i :| 0 <= i < |events[1..]| && events[1..][i].RedirectEvent? && events[1..][i].tenant == tenant
                 && AccessTokenOf(events[1..][i].reply) == final;
        assert events[i + 1] == events[1..][i];
      } else if final == StoredToken(next, tenant) && final != StoredToken(store, tenant) && final.Some? {
        StepTokenProvenance(cfg, store, events[0], tenant);
      }
    }
  }
}
