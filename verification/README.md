# SaaSumi core, modelled in Dafny

SaaSumi is a multi-tenant hotel back end written in PHP on Laravel. This
project models the four pieces of it whose behaviour can be stated exactly:

- **The LINE Notify client** (`LineNotifyService`). It is an OAuth 2.0
  authorization-code client (sections 4.1.1 and 4.1.3 of RFC 6749). It builds
  the authorization URL and the token request with PHP's `http_build_query`.
  It sends messages and revocations with a bearer token (section 2.1 of
  RFC 6750), and it reads a 2xx status as success (section 15.3 of RFC 9110).
- **The LINE Notify routes** (`routes.php` of the module). The redirect
  callback, `send-message` and `revoke` are transitions on a per-tenant
  credential store `map<TenantId, Option<string>>`. Each takes the provider's
  outcome as a parameter and returns the reply, the new store and the list of
  outbound requests actually sent.
- **The guest controller**. It covers:
  - the listing: a case-insensitive substring search on name and e-mail,
    then a stable sort by any attribute;
  - create, show, update and delete on a `guests` table;
  - the Laravel validation rules that guard create and update.
- **The API routes**. These are the OAuth `state` derivation for the
  authorization URL, the login decision and registration.

Supporting modules:

- `Optional`: an `Option` type standing for PHP's `null`.
- `Php`:
  - PHP truthiness;
  - `strtolower`;
  - `str_contains`, with a reference definition;
  - `trim`-blankness;
  - integer ↔ decimal text.
- `FormEncoding`: `urlencode` and `http_build_query` in RFC 1738 style, plus
  a decoder. The round trip gives the encoder's injectivity.
- `Validation`: the subset of Laravel's rule engine the code uses.
- `Sorting`: a stable sort by key under any total preorder, with the
  permutation, sortedness and stability proved.

Nothing outside the process is modelled. HTTP replies, hashing, token
issuance and the e-mail and date checks enter as parameters.

Behaviour of the code worth noting:

- A `send-message` request without a message is not rejected by validation.
  The route passes `null` to a `string` parameter. The resulting `TypeError`
  is not caught, and the framework answers 500. `SendMessageRoute` models
  exactly this.
- The provider base URLs are fixed constants in the code, not configuration
  options.
- The redirect callback never reads `state`. `ApiRoutes.CrossTenantBinding`
  states the consequence: a token is bound to the tenant whose domain the
  callback arrives on, even if the `state` was issued for another tenant.
- Only the redirect callback's route group
  (`backend/app/Modules/LineNotify/routes.php:9`) initialises tenancy. The
  `send-message` and `revoke` group (line 28) and the `auth-url` route
  (`backend/routes/api.php:68-89`) rely on tenancy being set up elsewhere.
  If `tenant()` is null there, the two routes always answer 404 and the
  state is always "tenant-default". The model takes the tenant as an
  optional input, so both situations are covered.

## Model

| member | source | states |
|---|---|---|
| Php.TruthyByLength | backend/app/Modules/LineNotify/routes.php:13 | a string of two or more characters is truthy, a one-character string exactly when it is not "0", and the empty string never |
| Php.Lower | backend/app/Http/Controllers/GuestController.php:28-29 | the result has the input's length; each ASCII capital becomes its small letter and every other character is kept |
| Php.Contains | backend/app/Http/Controllers/GuestController.php:28-29 | a needle at the start of the haystack is found (so the empty needle always is), and a found needle is no longer than the haystack |
| Php.LowerIdempotent | backend/app/Http/Controllers/GuestController.php:28-29 | lower-casing an already lower-cased string changes nothing |
| Php.ContainsIffOccurs | backend/app/Http/Controllers/GuestController.php:28-29 | the scanning `str_contains` holds exactly when the needle is a contiguous slice of the haystack |
| FormEncoding.Encode | backend/app/Modules/LineNotify/LineNotifyService.php:25-31 | the encoding is at least as long as the input and holds only letters, digits, `-_.`, `+` and `%` |
| FormEncoding.DecodeEncode | backend/app/Modules/LineNotify/LineNotifyService.php:25-31 | decoding the URL-encoding of any string gives the string back |
| FormEncoding.EncodeInjective | backend/app/Modules/LineNotify/LineNotifyService.php:25-31 | distinct strings have distinct URL-encodings |
| FormEncoding.BuildQuery | backend/app/Modules/LineNotify/LineNotifyService.php:25-31 | parsing a built query yields exactly the non-null pairs, in order, with their original keys and values |
| FormEncoding.BuildQueryInjective | backend/app/Modules/LineNotify/LineNotifyService.php:25-31 | two field lists build the same query only if they have the same non-null pairs in the same order |
| LineNotifyService.GetAuthUrl | backend/app/Modules/LineNotify/LineNotifyService.php:23-34 | the URL starts with the authorize endpoint; its query reads back as response_type=code, client_id, redirect_uri (each only when configured), scope=notify, state, in that order |
| LineNotifyService.AuthUrlInjective | backend/app/Modules/LineNotify/LineNotifyService.php:23-34 | two states give the same authorization URL exactly when they are equal |
| LineNotifyService.TokenRequest | backend/app/Modules/LineNotify/LineNotifyService.php:39-45 | the token request goes to the oauth base + "token" with no headers |
| LineNotifyService.TokenRequestReadsBack | backend/app/Modules/LineNotify/LineNotifyService.php:39-45 | the token request's body reads back as grant_type=authorization_code, code, then the configured redirect_uri, client_id and client_secret, each unset setting omitted |
| LineNotifyService.AccessTokenOf | backend/app/Modules/LineNotify/LineNotifyService.php:47-52 | the result is null exactly when the call threw, the body is not an object, or access_token is missing or null; a string access_token is returned unchanged |
| LineNotifyService.GetAccessToken | backend/app/Modules/LineNotify/LineNotifyService.php:36-53 | the call sends the token request for the given code and returns what AccessTokenOf reads from the reply, whatever the status |
| LineNotifyService.AccessTokenIgnoresStatus | backend/app/Modules/LineNotify/LineNotifyService.php:47-48 | two replies differing only in HTTP status give the same token |
| LineNotifyService.NotifyRequest | backend/app/Modules/LineNotify/LineNotifyService.php:58-62 | the request goes to the notify endpoint, carries Bearer with the given token, and its body reads back as the single pair message=message |
| LineNotifyService.SendMessage | backend/app/Modules/LineNotify/LineNotifyService.php:55-69 | true exactly when the provider responded with a status in [200, 300); false on any other status or an exception |
| LineNotifyService.RevokeRequest | backend/app/Modules/LineNotify/LineNotifyService.php:74-76 | the request goes to the revoke endpoint with the bearer token and an empty body |
| LineNotifyService.RevokeToken | backend/app/Modules/LineNotify/LineNotifyService.php:71-83 | true exactly when the provider responded 2xx; false otherwise and on an exception |
| LineNotifyRoutes.Redirect | backend/app/Modules/LineNotify/routes.php:11-25 | a falsy code makes no call and leaves the store; a truthy one sends exactly the token request for that code; success holds exactly when code and returned token are truthy, and then only the current tenant's entry becomes that token; failure leaves the store unchanged |
| LineNotifyRoutes.SendMessageRoute | backend/app/Modules/LineNotify/routes.php:29-44 | 404 exactly when there is no tenant or its token is falsy, and then no call; the notify request with the stored token and the message is sent exactly when there is a tenant, a truthy token and a message; 200 with "Message sent successfully." exactly when it was sent and the provider answered 2xx; 500 with "Failed to send message." when the provider refused, or the framework's error page when the message is missing; the store never changes |
| LineNotifyRoutes.RevokeRoute | backend/app/Modules/LineNotify/routes.php:46-61 | 404 exactly when there is no tenant or its token is falsy, and then no call and the same store; otherwise the revoke request is sent; 200 with "Token revoked successfully." exactly when it succeeded, and then that tenant's token becomes null; a failed revoke answers 500 with "Failed to revoke token." and leaves the store unchanged |
| LineNotifyRoutes.RevokeTwice | backend/app/Modules/LineNotify/routes.php:46-61 | after a successful revoke a second revoke answers 404 without calling the provider |
| LineNotifyRoutes.BindThenSend | backend/app/Modules/LineNotify/routes.php:11-44 | after a successful binding, send-message calls the provider with the bound token as its bearer credential |
| LineNotifyRoutes.StepKeepsTokensTruthy | backend/app/Modules/LineNotify/routes.php:15-21 | no single request stores an empty or "0" token when none was stored before |
| LineNotifyRoutes.StepTokenProvenance | backend/app/Modules/LineNotify/routes.php:15-21 | after one request a tenant's token is null, unchanged, or the access token returned to that tenant's own redirect |
| LineNotifyRoutes.RunKeepsTokensTruthy | backend/app/Modules/LineNotify/routes.php:11-61 | no sequence of requests stores an empty or "0" token |
| LineNotifyRoutes.RunIsolatesTenants | backend/app/Modules/LineNotify/routes.php:11-61 | requests handled for other tenants never change a tenant's token |
| LineNotifyRoutes.RunTokenProvenance | backend/app/Modules/LineNotify/routes.php:15-21 | every token in the store was there initially or is the access token returned to a redirect handled for that same tenant |
| Validation.Validate | backend/app/Http/Controllers/GuestController.php:46-54 | validation fails exactly when some field fails its rules, and the errors name exactly the failing fields; on success the data holds exactly the ruled fields that were sent, with their input values |
| Validation.RequiredStringMaxRule | backend/app/Http/Controllers/GuestController.php:47 | required, string, max:n admit exactly a non-blank string of at most n characters |
| Validation.RequiredEmailUniqueRule | backend/app/Http/Controllers/GuestController.php:48 | required, email, unique admit exactly a non-blank address the e-mail check accepts and no row already holds |
| Validation.NullableStringMaxRule | backend/app/Http/Controllers/GuestController.php:49-50 | nullable, string, max:n admit an absent, null or blank field, or a string of at most n characters |
| Validation.NullableIntegerMinRule | backend/app/Http/Controllers/GuestController.php:51 | nullable, integer, min:n admit an omitted field, or an integer, or the decimal text of one, of at least n |
| Validation.NullableDateRule | backend/app/Http/Controllers/GuestController.php:52 | nullable, date admit an omitted field or text the date parser accepts |
| Validation.NullableStringInRule | backend/app/Http/Controllers/GuestController.php:53 | nullable, string, in admit an omitted field or one of the listed strings |
| Validation.SometimesRequiredStringMaxRule | backend/app/Http/Controllers/GuestController.php:82 | with sometimes, an absent field passes; a sent one must be a non-blank string of at most n characters |
| Validation.SometimesRequiredEmailUniqueRule | backend/app/Http/Controllers/GuestController.php:83 | with sometimes, an absent address passes; a sent one must be non-blank, valid and not held by another row |
| Validation.RequiredEmailRule | backend/routes/api.php:25 | required, email admit exactly a non-blank address the e-mail check accepts |
| Validation.RequiredStringRule | backend/routes/api.php:27 | required, string admit exactly a non-blank string |
| Validation.RequiredStringMinRule | backend/routes/api.php:51 | required, string, min:n admit exactly a non-blank string of at least n characters |
| Sorting.SortBy | backend/app/Http/Controllers/GuestController.php:33-35 | the result is a permutation of the input, ordered by key under the given total preorder |
| Sorting.SortStable | backend/app/Http/Controllers/GuestController.php:33-35 | elements whose keys tie appear in the result in their input order |
| Sorting.TiesFlip | backend/app/Http/Controllers/GuestController.php:35 | reversing the comparison for a descending sort does not change which elements tie |
| Sorting.FlipTotalPreorder | backend/app/Http/Controllers/GuestController.php:35 | the reversed comparison is again a total preorder |
| Guests.Filter | backend/app/Http/Controllers/GuestController.php:27-30 | each guest occurs in the result as often as in the input if it matches the query, otherwise not at all |
| Guests.FilterAppend | backend/app/Http/Controllers/GuestController.php:27-30 | filtering a concatenation is the concatenation of the filtered parts, so matching guests keep their input order |
| Guests.FilterTies | backend/app/Http/Controllers/GuestController.php:27-35 | taking the guests tied on a key commutes with filtering, so the search keeps each tie group in its fetched order |
| Guests.Search | backend/app/Http/Controllers/GuestController.php:26-31 | a falsy query keeps every guest; a truthy one keeps exactly the matching guests, each with its input multiplicity |
| Guests.Matches | backend/app/Http/Controllers/GuestController.php:28-29 | an empty query matches every guest; a matching query is no longer than the guest's name or e-mail |
| Guests.MatchesIffOccurs | backend/app/Http/Controllers/GuestController.php:28-29 | a guest matches exactly when the lower-cased query is a substring of the lower-cased name or of the lower-cased e-mail |
| Guests.SearchIgnoresCase | backend/app/Http/Controllers/GuestController.php:26-29 | searching for a query and for its lower-cased form gives the same list |
| Guests.Index | backend/app/Http/Controllers/GuestController.php:14-38 | the listing is a permutation of the searched guests, sorted by the chosen attribute (id by default, strings lower-cased), descending only for sortDirection "desc" |
| Guests.IndexStable | backend/app/Http/Controllers/GuestController.php:26-35 | in both directions, the guests whose keys tie appear in the listing exactly as the fetched guests with that key, searched, in fetched order |
| Guests.UnknownFieldKeepsOrder | backend/app/Http/Controllers/GuestController.php:33-35 | sorting by an attribute no row has leaves the searched list unchanged |
| Guests.StoreRulesAccept | backend/app/Http/Controllers/GuestController.php:46-54 | the store rules accept exactly: a name of at most 255 characters, a fresh valid e-mail, phone at most 50, country at most 100, stay_count an integer of at least 0, a parseable date, status active or inactive; optional fields may be omitted |
| Guests.UpdateRulesAccept | backend/app/Http/Controllers/GuestController.php:81-89 | the update rules accept the same, except that name and e-mail may be absent and the e-mail may be the row's own |
| Guests.OptionalRulesAccept | backend/app/Http/Controllers/GuestController.php:49-53 | the five optional columns pass their rules exactly when each is omitted or within its bound |
| Guests.Store | backend/app/Http/Controllers/GuestController.php:43-64 | 422 exactly for unacceptable input, naming exactly the fields that fail their rules; the framework's error page (500) exactly when an accepted input sends null for a NOT NULL column; otherwise 201: the row gets the next key and the sent ruled columns over the defaults stay_count 0 and status active, and the reply omits the defaults; nothing changes on failure |
| Guests.Show | backend/app/Http/Controllers/GuestController.php:69-73 | 200 with the stored row exactly when the key exists, otherwise 404 |
| Guests.Update | backend/app/Http/Controllers/GuestController.php:78-96 | the plain 404 exactly for an unknown key; 422 exactly for unacceptable input, naming exactly the fields that fail their rules; the framework's error page (500) exactly when an accepted input sends null for a NOT NULL column; on 200 the sent ruled columns take their input values, every other column and every other row keeps its value |
| Guests.Destroy | backend/app/Http/Controllers/GuestController.php:101-106 | 204 with no body exactly when the row existed, which is then removed; otherwise 404 and no change |
| Guests.StoreKeepsWellFormed | backend/app/Http/Controllers/GuestController.php:48 | creation keeps every row under its own key and keeps e-mail addresses distinct |
| Guests.UpdateKeepsWellFormed | backend/app/Http/Controllers/GuestController.php:83 | update keeps e-mail addresses distinct, since uniqueness ignores only the row itself |
| Guests.DestroyKeepsWellFormed | backend/app/Http/Controllers/GuestController.php:104 | deletion keeps the table well formed |
| Guests.DestroyThenShow | backend/app/Http/Controllers/GuestController.php:101-106 | a deleted guest is then not found |
| Guests.EmptyUpdateKeepsRow | backend/app/Http/Controllers/GuestController.php:81-92 | an update that sends no fields answers 200 with the row unchanged |
| ApiRoutes.AuthState | backend/routes/api.php:86 | the state starts with "tenant-" and the rest is the tenant's id, or "default" without a tenant |
| ApiRoutes.AuthStateInjective | backend/routes/api.php:86 | two tenants get the same state exactly when they are the same tenant |
| ApiRoutes.DefaultTenantCollides | backend/routes/api.php:86 | a tenant whose id is "default" gets the same state as no tenant |
| ApiRoutes.AuthUrlRoute | backend/routes/api.php:83-89 | the auth_url starts with the authorize endpoint and its query carries "tenant-" + id, or "tenant-default", as the state |
| ApiRoutes.AuthUrlCarriesTenant | backend/routes/api.php:86-88 | the last pair of the URL's query is state = "tenant-" + the tenant's id |
| ApiRoutes.AuthUrlSeparatesTenants | backend/routes/api.php:86-88 | distinct tenants receive distinct authorization URLs |
| ApiRoutes.CrossTenantBinding | backend/app/Modules/LineNotify/routes.php:11-25 | a callback carrying a state issued for one tenant but arriving on another's domain binds the token to the arriving tenant and leaves the issuing tenant's entry alone |
| ApiRoutes.FirstWithEmail | backend/routes/api.php:35 | the lookup finds the first user with the address, or reports that no user has it |
| ApiRoutes.LoginRulesAccept | backend/routes/api.php:24-28 | the login rules accept exactly a valid non-blank e-mail, a non-blank password and a non-blank tenant domain |
| ApiRoutes.Login | backend/routes/api.php:23-44 | 422 exactly for unacceptable input, naming exactly the failing fields; 200 with a token for the first user with the address exactly when the password check passes for that user; otherwise the bare 401 reply, with no token |
| ApiRoutes.LoginIffCredentialsMatch | backend/routes/api.php:35-43 | with distinct addresses, login succeeds exactly when some user has the address and the password matches that user's hash |
| ApiRoutes.RegisterRulesAccept | backend/routes/api.php:48-53 | registration accepts exactly: a name of at most 255 characters, an unused valid e-mail, a password of at least 6 characters and a tenant domain |
| ApiRoutes.Register | backend/routes/api.php:47-65 | 201 exactly for acceptable input, with the user appended (password hashed) and a token issued for it; otherwise 422 naming exactly the failing fields, and no change |
| ApiRoutes.RegisterKeepsEmailsDistinct | backend/routes/api.php:50 | registration never creates a second user with the same address |
| ApiRoutes.RegisterThenLogin | backend/routes/api.php:23-65 | after registering, the same e-mail and password log in and receive a token for the new user, provided the hash check accepts its own hashes |

## Left out

- Laravel's `Http` client, `Log` and `env()`: the configuration is a parameter, and each outbound call's result is an `HttpOutcome` parameter (an exception, or a status with the body decoded as a JSON object).
- JSON values other than null, strings, integers and booleans in the token reply: floats, arrays and objects under `access_token`.
- Request parameters that arrive as arrays: `code`, `message` and the listing's query parameters are modelled as optional strings.
- Stancl tenancy resolution (`tenant()`): the current tenant is an input. Saving the tenant record is the map update.
- Sanctum token issuance and `Hash::make` / `Hash::check` are the parameters of `Auth`. The e-mail and date rules are the parameters of `Checkers`.
- ApiRoutes.Auth: `make` and `issue` are functions of their inputs. The program's `Hash::make` salts each hash, and Sanctum's `createToken` issues a fresh random token on every call (`backend/routes/api.php:39`, `:60`, `:63`). So in the model, equal passwords get equal hashes, and a user receives the same token at registration and at every login. The program gives neither guarantee. `ApiRoutes.RegisterThenLogin` should be read in that light: it says the login returns a token issued for the new user, which in the program is a different token from the one registration returned.
- The `auth:sanctum` middleware (`backend/app/Modules/LineNotify/routes.php:28`, `backend/routes/api.php:68`): a request to `send-message`, `revoke`, `auth-url` or the guest routes without a valid token is answered 401 before any handler runs, and the provider is not called. The route members model the handlers only, as if the request was authenticated.
- PHP strings are byte strings, but the model's `string` is a sequence of Unicode characters. Input that is not valid UTF-8, such as a `code` or search query decoded from `%FF`, cannot be represented. On such input `urlencode` and `strtolower` work byte by byte, and `mb_strlen` counts malformed bytes.
- ApiRoutes.Login: assumes the request expects JSON. The route does not catch the validation exception, and Laravel answers 422 only for such requests; otherwise it redirects back with a 302.
- ApiRoutes.Register: assumes the request expects JSON, for the same reason as `ApiRoutes.Login`.
- Validation.Value: request payloads are null, strings or integers only. JSON booleans, floats, arrays and objects sent to the guest, login and register routes are not modelled. For instance, `true` for `stay_count` would pass `integer`, and an array `name` would fail `string`.
- Guests.Index: the database query `Guest::orderBy('id', 'desc')->get()` is not modelled. The listing takes the fetched rows in the order the database returned them.
- Guests.Index: PHP's `SORT_NATURAL | SORT_FLAG_CASE` comparison is abstracted as an arbitrary total preorder `le` on attribute values. The contracts hold for every such order.
- The `BelongsToTenant` scope on the Guest model: the `guests` table is modelled as one table.
- Timestamps, the `date` cast of `last_stay_date`, and the database's conversion of column types: stored values are the validated input values.
- The database's string collation: uniqueness and the login lookup compare addresses exactly. A race between the uniqueness check and the insert is not modelled either.
- Validation.NullableIntegerMinRule: `FILTER_VALIDATE_INT` also accepts surrounding whitespace and rejects values beyond the 64-bit range. The model accepts exactly an optional sign followed by canonical digits, with no bound.
- Laravel's global `TrimStrings` and `ConvertEmptyStringsToNull` middleware: the model's input is the request as validation sees it.
- The content of validation error messages: a 422 reply carries the set of failing fields.
- `http_build_query` assumes the default `arg_separator.output` of `&`.
- Service providers, `DashboardController` (constant mock figures), `AIProxyService`, the `/user` and `/ai/recommend` routes, and the `fastapi-recommend` service: these are wiring, mocks or a proxy to a separate program.
