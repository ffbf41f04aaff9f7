/** The application's own API routes: `POST /login`, `POST /register` and
    `GET /line-notify/auth-url`. Password hashing and token issuance are
    library code outside the model and enter as parameters. */
module ApiRoutes {
  import opened Optional
  import opened Php
  import opened FormEncoding
  import opened Validation
  import opened LineNotifyService
  import opened LineNotifyRoutes

  // -------------------------------------------------- the authorization URL

  const StatePrefix: string := "tenant-"

  /** The OAuth `state` for the current tenant, `tenant-default` without one. */
  function AuthState(tenant: Option<TenantId>): (state: string)
    ensures StartsWith(state, StatePrefix)
    ensures tenant.Some? ==> state[|StatePrefix|..] == tenant.value
    ensures tenant.None? ==> state[|StatePrefix|..] == "default"
  {
    StatePrefix + (if tenant.Some? then tenant.value else "default")
  }

  /** Distinct tenants get distinct states. */
  lemma AuthStateInjective(a: TenantId, b: TenantId)
    ensures AuthState(Some(a)) == AuthState(Some(b)) <==> a == b
  {
    if AuthState(Some(a)) == AuthState(Some(b)) {
      assert a == AuthState(Some(a))[|StatePrefix|..];
      assert b == AuthState(Some(b))[|StatePrefix|..];
    }
  }

  /** A tenant whose id is "default" gets the same state as no tenant. */
  lemma DefaultTenantCollides()
    ensures AuthState(Some("default")) == AuthState(None)
  {
  }

  /** `GET /line-notify/auth-url`: the `auth_url` field of the reply, the
      authorization URL carrying the tenant's state. */
  function AuthUrlRoute(cfg: Config, tenant: Option<TenantId>): (url: string)
    ensures StartsWith(url, AuthorizeEndpoint)
    ensures ParseQuery(url[|AuthorizeEndpoint|..]) == Some(AuthPairs(cfg, AuthState(tenant)))
  {
    GetAuthUrl(cfg, AuthState(tenant))
  }

  /** The `state` value a reader of the URL's query finds: the tenant's own. */
  lemma AuthUrlCarriesTenant(cfg: Config, tenant: TenantId)
    ensures var pairs := ParseQuery(AuthUrlRoute(cfg, Some(tenant))[|AuthorizeEndpoint|..]).value;
      |pairs| >= 2 && pairs[|pairs| - 1] == ("state", StatePrefix + tenant)
  {
    var pairs := AuthPairs(cfg, AuthState(Some(tenant)));
    assert pairs[|pairs| - 1] == ("state", AuthState(Some(tenant)));
  }

  /** Different tenants are sent to different authorization URLs. */
  lemma AuthUrlSeparatesTenants(cfg: Config, a: TenantId, b: TenantId)
    requires a != b
    ensures AuthUrlRoute(cfg, Some(a)) != AuthUrlRoute(cfg, Some(b))
  {
    AuthStateInjective(a, b);
    AuthUrlInjective(cfg, AuthState(Some(a)), AuthState(Some(b)));
  }

  /** The callback binds the token to the tenant the request resolves to,
      even when the `state` it carries was issued for another tenant, whose
      entry stays as it was. */
  lemma CrossTenantBinding(cfg: Config, store: CredentialStore, issuedFor: TenantId, arrivedAt: TenantId,
                           code: string, reply: HttpOutcome)
    requires issuedFor != arrivedAt
    requires Truthy(code) && TruthyOpt(AccessTokenOf(reply))
    ensures var h := Redirect(cfg, store, arrivedAt, RedirectQuery(Some(code), Some(AuthState(Some(issuedFor)))), reply);
      && StoredToken(h.store, arrivedAt) == AccessTokenOf(reply)
      && StoredToken(h.store, issuedFor) == StoredToken(store, issuedFor)
  {
    var h := Redirect(cfg, store, arrivedAt, RedirectQuery(Some(code), Some(AuthState(Some(issuedFor)))), reply);
    assert h.store == store[arrivedAt := AccessTokenOf(reply)];
  }

  // ------------------------------------------------------------ the users

  /** A row of the `users` table. */
  datatype User = User(name: string, email: string, passwordHash: string)

  /** Password hashing and token issuance, as the framework provides them. */
  datatype Auth = Auth(check: (string, string) -> bool, make: string -> string, issue: User -> string)

  /** A route's answer. */
  datatype ApiReply =
    | TokenReply(code: int, message: string, token: string)
    | Errors(errors: set<string>)
    | Unauthorized
  {
    function Status(): int {
      match this
      case TokenReply(code, _, _) => code
      case Errors(_) => 422
      case Unauthorized => 401
    }
  }

  const LoginSucceeded: string := "Login successful"
  const Registered: string := "Registration successful"

  /** `User::where('email', e)->first()`: the first row with that address. */
  function FirstWithEmail(users: seq<User>, e: string): (r: Option<nat>)
    ensures r.Some? ==> r.value < |users| && users[r.value].email == e
    ensures r.Some? ==> forall j :: 0 <= j < r.value ==> users[j].email != e
    ensures r.None? ==> forall j :: 0 <= j < |users| ==> users[j].email != e
  {
    if users == [] then None
    else if users[0].email == e then Some(0)
    else
      match FirstWithEmail(users[1..], e)
      case None => None
      case Some(i) => Some(i + 1)
  }

  /** No two users share an address (the column's unique index). */
  predicate EmailsDistinct(users: seq<User>) {
    forall i, j :: 0 <= i < j < |users| ==> users[i].email != users[j].email
  }

  function LoginRules(): seq<FieldRules> {
    [ FieldRules("email", [Required, Email]),
      FieldRules("password", [Required]),
      FieldRules("tenant_domain", [Required, IsString]) ]
  }

  /** What the login rules admit: a filled e-mail address, a filled password
      and a filled tenant domain. */
  predicate LoginAcceptable(input: Input, ck: Checkers) {
    && FilledText(input, "email") && ck.isEmail(input["email"].s)
    && "password" in input && !input["password"].Null?
    && !(input["password"].Str? && Blank(input["password"].s))
    && FilledText(input, "tenant_domain")
  }

  lemma LoginRulesAccept(input: Input, ck: Checkers)
    ensures Validate(LoginRules(), input, ck).Valid? <==> LoginAcceptable(input, ck)
  {
    var spec := LoginRules();
    ValidIffAllPass(spec, input, ck);
    RequiredEmailRule(input, "email", ck);
    RequiredRule(input, "password", ck);
    RequiredStringRule(input, "tenant_domain", ck);
    if Validate(spec, input, ck).Valid? {
      assert Passes(spec[0], input, ck) && Passes(spec[1], input, ck) && Passes(spec[2], input, ck);
    }
  }

  /** `POST /login`: 422 for invalid input; a token for the first user with
      the address when the password matches; 401 otherwise. */
  function Login(users: seq<User>, input: Input, ck: Checkers, auth: Auth): (r: ApiReply)
    ensures r.Status() in {200, 401, 422}
    ensures r.Status() == 422 <==> !LoginAcceptable(input, ck)
    ensures var v := Validate(LoginRules(), input, ck);
      r.Status() == 422 ==> v.Invalid? && r == Errors(v.errors)
    ensures r.Status() == 200 <==>
      && LoginAcceptable(input, ck)
      && (exists i :: && 0 <= i < |users| && users[i].email == input["email"].s
                      && (forall j :: 0 <= j < i ==> users[j].email != input["email"].s)
                      && auth.check(Text(input["password"]), users[i].passwordHash))
    ensures r.Status() == 401 ==> r == Unauthorized
    ensures r.Status() == 200 ==> r == TokenReply(200, LoginSucceeded,
      auth.issue(users[FirstWithEmail(users, input["email"].s).value]))
  {
    LoginRulesAccept(input, ck);
    match Validate(LoginRules(), input, ck)
    case Invalid(errors) => Errors(errors)
    case Valid(_) =>
      var found := FirstWithEmail(users, input["email"].s);
      if found.Some? && auth.check(Text(input["password"]), users[found.value].passwordHash) then
        TokenReply(200, LoginSucceeded, auth.issue(users[found.value]))
      else
        Unauthorized
  }

  /** With distinct addresses, login succeeds exactly when some user has the
      address and the password matches that user's hash. */
  lemma LoginIffCredentialsMatch(users: seq<User>, input: Input, ck: Checkers, auth: Auth)
    requires EmailsDistinct(users)
    requires LoginAcceptable(input, ck)
    ensures Login(users, input, ck, auth).Status() == 200 <==>
      exists u :: u in users && u.email == input["email"].s && auth.check(Text(input["password"]), u.passwordHash)
  {
    var e := input["email"].s;
    if u :| u in users && u.email == e && auth.check(Text(input["password"]), u.passwordHash) {
      var i :| 0 <= i < |users| && users[i] == u;
      var found := FirstWithEmail(users, e);
      assert found == Some(i);
    }
  }

  function RegisterRules(taken: set<string>): seq<FieldRules> {
    [ FieldRules("name", [Required, IsString, Max(255)]),
      FieldRules("email", [Required, Email, Unique(taken)]),
      FieldRules("password", [Required, IsString, Min(6)]),
      FieldRules("tenant_domain", [Required, IsString]) ]
  }

  /** The addresses `unique:users,email` compares against. */
  function UserEmails(users: seq<User>): set<string> {
    set i | 0 <= i < |users| :: users[i].email
  }

  /** What registration admits: a filled name of at most 255 characters, a
      filled address not yet taken, a password of at least 6 characters and
      a filled tenant domain. */
  predicate RegisterAcceptable(input: Input, taken: set<string>, ck: Checkers) {
    && FilledText(input, "name") && |input["name"].s| <= 255
    && FilledText(input, "email") && ck.isEmail(input["email"].s) && input["email"].s !in taken
    && FilledText(input, "password") && |input["password"].s| >= 6
    && FilledText(input, "tenant_domain")
  }

  lemma RegisterRulesAccept(input: Input, taken: set<string>, ck: Checkers)
    ensures Validate(RegisterRules(taken), input, ck).Valid? <==> RegisterAcceptable(input, taken, ck)
  {
    var spec := RegisterRules(taken);
    ValidIffAllPass(spec, input, ck);
    RequiredStringMaxRule(input, "name", 255, ck);
    RequiredEmailUniqueRule(input, "email", taken, ck);
    RequiredStringMinRule(input, "password", 6, ck);
    RequiredStringRule(input, "tenant_domain", ck);
    if Validate(spec, input, ck).Valid? {
      assert Passes(spec[0], input, ck) && Passes(spec[1], input, ck);
      assert Passes(spec[2], input, ck) && Passes(spec[3], input, ck);
    }
  }

  datatype Registration = Registration(reply: ApiReply, users: seq<User>)

  /** The user registration creates from valid input. */
  function NewUser(input: Input, auth: Auth): User
    requires "name" in input && "email" in input && "password" in input
  {
    User(Text(input["name"]), Text(input["email"]), auth.make(Text(input["password"])))
  }

  /** `POST /register`: 422 and no change for invalid input; otherwise the
      user is appended with the hashed password and a token is issued. */
  function Register(users: seq<User>, input: Input, ck: Checkers, auth: Auth): (r: Registration)
    ensures r.reply.Status() in {201, 422}
    ensures r.reply.Status() == 201 <==> RegisterAcceptable(input, UserEmails(users), ck)
    ensures r.reply.Status() == 422 ==> r.users == users
    ensures var v := Validate(RegisterRules(UserEmails(users)), input, ck);
      r.reply.Status() == 422 ==> v.Invalid? && r.reply == Errors(v.errors)
    ensures r.reply.Status() == 201 ==>
      && r.users == users + [User(input["name"].s, input["email"].s, auth.make(input["password"].s))]
      && r.reply == TokenReply(201, Registered, auth.issue(r.users[|users|]))
  {
    RegisterRulesAccept(input, UserEmails(users), ck);
    match Validate(RegisterRules(UserEmails(users)), input, ck)
    case Invalid(errors) => Registration(Errors(errors), users)
    case Valid(data) =>
      var spec := RegisterRules(UserEmails(users));
      assert spec[0].field == "name" && spec[1].field == "email" && spec[2].field == "password";
      var user := NewUser(data, auth);
      Registration(TokenReply(201, Registered, auth.issue(user)), users + [user])
  }

  /** Registration keeps addresses distinct. */
  lemma RegisterKeepsEmailsDistinct(users: seq<User>, input: Input, ck: Checkers, auth: Auth)
    requires EmailsDistinct(users)
    ensures EmailsDistinct(Register(users, input, ck, auth).users)
  {
    var r := Register(users, input, ck, auth);
    if r.reply.Status() == 201 {
      forall i | 0 <= i < |users|
        ensures users[i].email in UserEmails(users)
      {
      }
    }
  }

  /** Once registered, the same address and password log in, as long as the
      hash check accepts what the hash function made. */
  lemma RegisterThenLogin(users: seq<User>, input: Input, ck: Checkers, auth: Auth)
    requires Register(users, input, ck, auth).reply.Status() == 201
    requires forall p :: auth.check(p, auth.make(p))
    ensures var r := Register(users, input, ck, auth);
      Login(r.users, input, ck, auth) == TokenReply(200, LoginSucceeded, auth.issue(r.users[|users|]))
  {
    var after := Register(users, input, ck, auth).users;
    var e := input["email"].s;
    LoginRulesAccept(input, ck);
    forall j | 0 <= j < |users|
      ensures users[j].email != e
    {
      assert users[j].email in UserEmails(users);
    }
    assert after[|users|].email == e;
    assert FirstWithEmail(after, e) == Some(|users|);
  }
}
