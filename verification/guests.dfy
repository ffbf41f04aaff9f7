/** The guest API (`GuestController`): a listing filtered by a
    case-insensitive substring and sorted stably by any attribute, and the
    create, show, update and delete operations on the `guests` table, with
    the validation rules that guard creation and update. */
module Guests {
  import opened Optional
  import opened Php
  import opened Validation
  import opened Sorting
  import opened Lists

  /** A row of the `guests` table: its key and its other columns. */
  datatype Guest = Guest(id: nat, columns: map<string, Value>)

  /** `$guest->{$name}`: the key, a column, or null for an attribute the row lacks. */
  function Attribute(g: Guest, name: string): Value {
    if name == "id" then Int(g.id) else if name in g.columns then g.columns[name] else Null
  }

  /** The text of the guest's e-mail column. */
  function EmailOf(g: Guest): string {
    Text(Attribute(g, "email"))
  }

  // ------------------------------------------------------------ the listing

  /** The search test: the lower-cased query occurs in the lower-cased name
      or the lower-cased e-mail. */
  predicate Matches(g: Guest, query: string)
    ensures query == [] ==> Matches(g, query)
    ensures Matches(g, query) ==>
      |query| <= |Text(Attribute(g, "name"))| || |query| <= |Text(Attribute(g, "email"))|
  {
    || Contains(Lower(Text(Attribute(g, "name"))), Lower(query))
    || Contains(Lower(Text(Attribute(g, "email"))), Lower(query))
  }

  /** Whether the listing keeps `g`: every guest when the query is falsy. */
  predicate Kept(g: Guest, query: Option<string>) {
    !TruthyOpt(query) || Matches(g, query.value)
  }

  /** The collection's `filter` with the search test, keeping input order. */
  function Filter(gs: seq<Guest>, query: string): (r: seq<Guest>)
    ensures forall g :: multiset(r)[g] == if Matches(g, query) then multiset(gs)[g] else 0
  {
    SelectCount(gs, g => Matches(g, query));
    Select(gs, g => Matches(g, query))
  }

  lemma FilterCons(g: Guest, gs: seq<Guest>, query: string)
    ensures Filter([g] + gs, query) == (if Matches(g, query) then [g] else []) + Filter(gs, query)
  {
    SelectCons(g, gs, g => Matches(g, query));
  }

  /** Filtering a concatenation filters each part and keeps them in order:
      with `FilterCons`, the filter keeps the matching guests in input order. */
  lemma FilterAppend(a: seq<Guest>, b: seq<Guest>, query: string)
    ensures Filter(a + b, query) == Filter(a, query) + Filter(b, query)
  {
    SelectAppend(a, b, g => Matches(g, query));
  }

  /** The search step of the listing: filter only when the query is truthy. */
  function Search(gs: seq<Guest>, query: Option<string>): (r: seq<Guest>)
    ensures forall g :: multiset(r)[g] == if Kept(g, query) then multiset(gs)[g] else 0
  {
    if TruthyOpt(query) then Filter(gs, query.value) else gs
  }

  /** The search test is the substring relation on the lower-cased texts. */
  lemma MatchesIffOccurs(g: Guest, query: string)
    ensures Matches(g, query) <==>
      || Occurs(Lower(query), Lower(Text(Attribute(g, "name"))))
      || Occurs(Lower(query), Lower(Text(Attribute(g, "email"))))
  {
    ContainsIffOccurs(Lower(Text(Attribute(g, "name"))), Lower(query));
    ContainsIffOccurs(Lower(Text(Attribute(g, "email"))), Lower(query));
  }

  /** Lower-casing keeps a string falsy or truthy. */
  lemma LowerKeepsTruthiness(s: string)
    ensures Truthy(Lower(s)) <==> Truthy(s)
  {
    if |s| == 1 {
      assert Lower(s) == [LowerChar(s[0])];
    }
  }

  lemma {:induction false} FilterIgnoresCase(gs: seq<Guest>, query: string)
    ensures Filter(gs, Lower(query)) == Filter(gs, query)
  {
    LowerIdempotent(query);
    if gs != [] {
      FilterIgnoresCase(gs[1..], query);
    }
  }

  /** The search ignores the case of the query. */
  lemma SearchIgnoresCase(gs: seq<Guest>, query: string)
    ensures Search(gs, Some(Lower(query))) == Search(gs, Some(query))
  {
    LowerKeepsTruthiness(query);
    FilterIgnoresCase(gs, query);
  }

  /** The sort key: strings lower-cased, other values as they are. */
  function SortKey(field: string): Guest -> Value {
    g => var v := Attribute(g, field); if v.Str? then Str(Lower(v.s)) else v
  }

  /** The `sortBy` parameter, `id` when absent. */
  function SortField(sortBy: Option<string>): string {
    if sortBy.Some? then sortBy.value else "id"
  }

  /** Descending exactly when `sortDirection` is the string "desc". */
  predicate Descending(sortDirection: Option<string>) {
    sortDirection == Some("desc")
  }

  /** The comparison the sort uses: `le`, reversed for a descending sort. */
  function Direction(le: (Value, Value) -> bool, sortDirection: Option<string>): (Value, Value) -> bool {
    if Descending(sortDirection) then Flip(le) else le
  }

  /** `GET /api/guests`: the rows as fetched, searched, then sorted stably by
      the chosen attribute. `le` is the order on keys. */
  function Index(fetched: seq<Guest>, query: Option<string>, sortBy: Option<string>,
                 sortDirection: Option<string>, le: (Value, Value) -> bool): (r: seq<Guest>)
    requires TotalPreorder(le)
    ensures multiset(r) == multiset(Search(fetched, query))
    ensures forall g :: multiset(r)[g] == if Kept(g, query) then multiset(fetched)[g] else 0
    ensures SortedBy(r, SortKey(SortField(sortBy)), Direction(le, sortDirection))
  {
    FlipTotalPreorder(le);
    SortBy(Search(fetched, query), SortKey(SortField(sortBy)), Direction(le, sortDirection))
  }

  /** Picking out the guests tied with `k` commutes with the filter. */
  lemma {:induction false} FilterTies(gs: seq<Guest>, query: string, key: Guest -> Value,
                                      le: (Value, Value) -> bool, k: Value)
    ensures Ties(Filter(gs, query), key, le, k) == Filter(Ties(gs, key, le, k), query)
  {
    if gs != [] {
      FilterTies(gs[1..], query, key, le, k);
      var rest := Filter(gs[1..], query);
      var tail := Ties(gs[1..], key, le, k);
      if Matches(gs[0], query) {
        assert Filter(gs, query) == [gs[0]] + rest;
        TiesCons(gs[0], rest, key, le, k);
      } else {
        assert Filter(gs, query) == rest;
      }
      if Tied(le, key(gs[0]), k) {
        assert Ties(gs, key, le, k) == [gs[0]] + tail;
        FilterCons(gs[0], tail, query);
      } else {
        assert Ties(gs, key, le, k) == tail;
      }
    }
  }

  /** The sort keeps the searched order of guests whose keys tie. */
  lemma SearchedTiesKept(fetched: seq<Guest>, query: Option<string>, sortBy: Option<string>,
                         sortDirection: Option<string>, le: (Value, Value) -> bool, k: Value)
    requires TotalPreorder(le)
    ensures var key := SortKey(SortField(sortBy));
      Ties(Index(fetched, query, sortBy, sortDirection, le), key, le, k) == Ties(Search(fetched, query), key, le, k)
  {
    var key := SortKey(SortField(sortBy));
    var found := Search(fetched, query);
    FlipTotalPreorder(le);
    SortStable(found, key, Direction(le, sortDirection), k);
    if Descending(sortDirection) {
      TiesFlip(SortBy(found, key, Flip(le)), key, le, k);
      TiesFlip(found, key, le, k);
    }
  }

  /** Guests whose keys tie appear in the listing in the order they were
      fetched, in either direction: they are the fetched guests tied with
      `k`, searched. */
  lemma IndexStable(fetched: seq<Guest>, query: Option<string>, sortBy: Option<string>,
                    sortDirection: Option<string>, le: (Value, Value) -> bool, k: Value)
    requires TotalPreorder(le)
    ensures var key := SortKey(SortField(sortBy));
      Ties(Index(fetched, query, sortBy, sortDirection, le), key, le, k) == Search(Ties(fetched, key, le, k), query)
  {
    SearchedTiesKept(fetched, query, sortBy, sortDirection, le, k);
    if TruthyOpt(query) {
      FilterTies(fetched, query.value, SortKey(SortField(sortBy)), le, k);
    }
  }

  /** A list whose keys all tie with `k` is its own run of ties. */
  lemma {:induction false} AllTied<T, K>(xs: seq<T>, key: T -> K, le: (K, K) -> bool, k: K)
    requires forall i :: 0 <= i < |xs| ==> Tied(le, key(xs[i]), k)
    ensures Ties(xs, key, le, k) == xs
  {
    if xs != [] {
      AllTied(xs[1..], key, le, k);
    }
  }

  /** Sorting by an attribute no row has leaves the searched order as it is. */
  lemma UnknownFieldKeepsOrder(fetched: seq<Guest>, query: Option<string>, field: string,
                               sortDirection: Option<string>, le: (Value, Value) -> bool)
    requires TotalPreorder(le)
    requires field != "id" && forall i :: 0 <= i < |fetched| ==> field !in fetched[i].columns
    ensures Index(fetched, query, Some(field), sortDirection, le) == Search(fetched, query)
  {
    var key := SortKey(field);
    var found := Search(fetched, query);
    var r := Index(fetched, query, Some(field), sortDirection, le);
    forall i | 0 <= i < |found|
      ensures Tied(le, key(found[i]), Null)
    {
      assert found[i] in multiset(found);
      assert found[i] in multiset(fetched);
    }
    forall i | 0 <= i < |r|
      ensures Tied(le, key(r[i]), Null)
    {
      assert r[i] in multiset(r);
      assert r[i] in multiset(fetched);
    }
    AllTied(found, key, le, Null);
    AllTied(r, key, le, Null);
    SearchedTiesKept(fetched, query, Some(field), sortDirection, le, Null);
  }

  // ----------------------------------------------------------- the table

  /** The `guests` table and the key the next insert receives. */
  datatype GuestTable = GuestTable(rows: map<nat, Guest>, nextId: nat)

  /** Each row sits under its own key, below the next key to hand out, and
      no two rows share an e-mail address (the column's unique index). */
  ghost predicate WellFormed(t: GuestTable) {
    && (forall id :: id in t.rows ==> t.rows[id].id == id && id < t.nextId)
    && (forall i, j :: i in t.rows && j in t.rows && i != j ==> EmailOf(t.rows[i]) != EmailOf(t.rows[j]))
  }

  /** The addresses `unique:guests,email` compares against, ignoring one row. */
  function Emails(t: GuestTable, except: Option<nat>): set<string> {
    set id | id in t.rows && except != Some(id) :: EmailOf(t.rows[id])
  }

  const Statuses: set<string> := {"active", "inactive"}

  /** The columns declared NOT NULL with a default, and those defaults. */
  const Defaults: map<string, Value> := map["stay_count" := Int(0), "status" := Str("active")]

  /** The rules both `store` and `update` put on the optional columns. */
  function OptionalRules(): seq<FieldRules> {
    [ FieldRules("phone", [Nullable, IsString, Max(50)]),
      FieldRules("country", [Nullable, IsString, Max(100)]),
      FieldRules("stay_count", [Nullable, IsInteger, Min(0)]),
      FieldRules("last_stay_date", [Nullable, Date]),
      FieldRules("status", [Nullable, IsString, In(Statuses)]) ]
  }

  function StoreRules(taken: set<string>): seq<FieldRules> {
    [ FieldRules("name", [Required, IsString, Max(255)]),
      FieldRules("email", [Required, Email, Unique(taken)]) ] + OptionalRules()
  }

  function UpdateRules(taken: set<string>): seq<FieldRules> {
    [ FieldRules("name", [Sometimes, Required, IsString, Max(255)]),
      FieldRules("email", [Sometimes, Required, Email, Unique(taken)]) ] + OptionalRules()
  }

  /** What the optional columns admit, field by field. */
  predicate OptionalAcceptable(input: Input, ck: Checkers) {
    && (Omitted(input, "phone") || (input["phone"].Str? && |input["phone"].s| <= 50))
    && (Omitted(input, "country") || (input["country"].Str? && |input["country"].s| <= 100))
    && (|| Omitted(input, "stay_count")
        || (input["stay_count"].Int? && input["stay_count"].n >= 0)
        || (input["stay_count"].Str? && ParseInt(input["stay_count"].s).Some? && ParseInt(input["stay_count"].s).value >= 0))
    && (Omitted(input, "last_stay_date") || ck.isDate(Text(input["last_stay_date"])))
    && (Omitted(input, "status") || (input["status"].Str? && input["status"].s in Statuses))
  }

  /** What `store` admits: a filled name of at most 255 characters, a filled
      e-mail address not yet taken, and acceptable optional columns. */
  predicate StoreAcceptable(input: Input, taken: set<string>, ck: Checkers) {
    && FilledText(input, "name") && |input["name"].s| <= 255
    && FilledText(input, "email") && ck.isEmail(input["email"].s) && input["email"].s !in taken
    && OptionalAcceptable(input, ck)
  }

  /** What `update` admits: name and e-mail may be left out, but when sent
      they must be as for `store`. */
  predicate UpdateAcceptable(input: Input, taken: set<string>, ck: Checkers) {
    && ("name" !in input || (FilledText(input, "name") && |input["name"].s| <= 255))
    && ("email" !in input || (FilledText(input, "email") && ck.isEmail(input["email"].s) && input["email"].s !in taken))
    && OptionalAcceptable(input, ck)
  }

  lemma OptionalRulesAccept(input: Input, ck: Checkers)
    ensures (forall i :: 0 <= i < 5 ==> Passes(OptionalRules()[i], input, ck)) <==> OptionalAcceptable(input, ck)
  {
    NullableStringMaxRule(input, "phone", 50, ck);
    NullableStringMaxRule(input, "country", 100, ck);
    NullableIntegerMinRule(input, "stay_count", 0, ck);
    NullableDateRule(input, "last_stay_date", ck);
    NullableStringInRule(input, "status", Statuses, ck);
    var rs := OptionalRules();
    if OptionalAcceptable(input, ck) {
      forall i | 0 <= i < 5
        ensures Passes(rs[i], input, ck)
      {
      }
    }
    if forall i :: 0 <= i < 5 ==> Passes(rs[i], input, ck) {
      assert Passes(rs[0], input, ck) && Passes(rs[1], input, ck) && Passes(rs[2], input, ck);
      assert Passes(rs[3], input, ck) && Passes(rs[4], input, ck);
    }
  }

  /** The store rules accept exactly the inputs `StoreAcceptable` describes. */
  lemma StoreRulesAccept(input: Input, taken: set<string>, ck: Checkers)
    ensures Validate(StoreRules(taken), input, ck).Valid? <==> StoreAcceptable(input, taken, ck)
  {
    var spec := StoreRules(taken);
    ValidIffAllPass(spec, input, ck);
    RequiredStringMaxRule(input, "name", 255, ck);
    RequiredEmailUniqueRule(input, "email", taken, ck);
    OptionalRulesAccept(input, ck);
    assert forall i :: 0 <= i < 5 ==> spec[i + 2] == OptionalRules()[i];
    if StoreAcceptable(input, taken, ck) {
      forall i | 0 <= i < |spec|
        ensures Passes(spec[i], input, ck)
      {
        if i >= 2 {
          assert spec[i] == OptionalRules()[i - 2];
        }
      }
    }
    if Validate(spec, input, ck).Valid? {
      assert Passes(spec[0], input, ck) && Passes(spec[1], input, ck);
      forall i | 0 <= i < 5
        ensures Passes(OptionalRules()[i], input, ck)
      {
        assert spec[i + 2] == OptionalRules()[i];
      }
    }
  }

  /** The update rules accept exactly the inputs `UpdateAcceptable` describes. */
  lemma UpdateRulesAccept(input: Input, taken: set<string>, ck: Checkers)
    ensures Validate(UpdateRules(taken), input, ck).Valid? <==> UpdateAcceptable(input, taken, ck)
  {
    var spec := UpdateRules(taken);
    ValidIffAllPass(spec, input, ck);
    SometimesRequiredStringMaxRule(input, "name", 255, ck);
    SometimesRequiredEmailUniqueRule(input, "email", taken, ck);
    OptionalRulesAccept(input, ck);
    assert forall i :: 0 <= i < 5 ==> spec[i + 2] == OptionalRules()[i];
    if UpdateAcceptable(input, taken, ck) {
      forall i | 0 <= i < |spec|
        ensures Passes(spec[i], input, ck)
      {
        if i >= 2 {
          assert spec[i] == OptionalRules()[i - 2];
        }
      }
    }
    if Validate(spec, input, ck).Valid? {
      assert Passes(spec[0], input, ck) && Passes(spec[1], input, ck);
      forall i | 0 <= i < 5
        ensures Passes(OptionalRules()[i], input, ck)
      {
        assert spec[i + 2] == OptionalRules()[i];
      }
    }
  }

  // ------------------------------------------------------- the operations

  /** A controller's answer. */
  datatype Reply =
    | GuestBody(code: int, guest: Guest)
    | Errors(errors: set<string>)
    | NoContent
    | NotFound
    | ServerError
  {
    function Status(): int {
      match this
      case GuestBody(code, _) => code
      case Errors(_) => 422
      case NoContent => 204
      case NotFound => 404
      case ServerError => 500
    }
  }

  datatype Outcome = Outcome(reply: Reply, table: GuestTable)

  /** The validated data sets a NOT NULL column to null: the insert or update
      fails in the database. */
  predicate NullIntoNotNull(data: map<string, Value>) {
    exists c :: c in Defaults && c in data && data[c].Null?
  }

  /** The request sends null for a column declared NOT NULL with a default. */
  predicate SendsNullForDefaulted(input: Input) {
    ("stay_count" in input && input["stay_count"].Null?) || ("status" in input && input["status"].Null?)
  }

  /** `POST /api/guests`. Invalid input gives 422 and changes nothing;
      otherwise the row is inserted under the next key with the validated
      columns, the database filling in the defaults. The reply carries the
      model as created, without the defaults. */
  function Store(t: GuestTable, input: Input, ck: Checkers): (o: Outcome)
    ensures o.reply.Status() in {201, 422, 500}
    ensures o.reply.Status() != 201 ==> o.table == t
    ensures o.reply.Status() == 422 <==> !StoreAcceptable(input, Emails(t, None), ck)
    ensures var v := Validate(StoreRules(Emails(t, None)), input, ck);
      o.reply.Status() == 422 ==> v.Invalid? && o.reply == Errors(v.errors)
    ensures o.reply.Status() == 500 <==> StoreAcceptable(input, Emails(t, None), ck) && SendsNullForDefaulted(input)
    ensures o.reply.Status() == 500 ==> o.reply == ServerError
    ensures o.reply.Status() == 201 ==>
      && o.table == GuestTable(t.rows[t.nextId := Guest(t.nextId, Defaults + o.reply.guest.columns)], t.nextId + 1)
      && o.reply.guest.id == t.nextId
      && (forall c :: c in o.reply.guest.columns <==> c in input && c in Fields)
      && (forall c :: c in o.reply.guest.columns ==> o.reply.guest.columns[c] == input[c])
  {
    var taken := Emails(t, None);
    StoreRulesAccept(input, taken, ck);
    match Validate(StoreRules(taken), input, ck)
    case Invalid(errors) => Outcome(Errors(errors), t)
    case Valid(data) =>
      if NullIntoNotNull(data) then Outcome(ServerError, t)
      else
        ValidatedColumns(StoreRules(taken), taken, input, ck);
        Outcome(GuestBody(201, Guest(t.nextId, data)),
                GuestTable(t.rows[t.nextId := Guest(t.nextId, Defaults + data)], t.nextId + 1))
  }

  /** The columns either rule set names. */
  const Fields: set<string> := {"name", "email", "phone", "country", "stay_count", "last_stay_date", "status"}

  lemma RuleFields(taken: set<string>)
    ensures forall f :: f in Fields <==> exists i :: 0 <= i < |StoreRules(taken)| && StoreRules(taken)[i].field == f
    ensures forall f :: f in Fields <==> exists i :: 0 <= i < |UpdateRules(taken)| && UpdateRules(taken)[i].field == f
  {
    var spec, spec' := StoreRules(taken), UpdateRules(taken);
    assert spec[0].field == "name" && spec[1].field == "email" && spec[2].field == "phone";
    assert spec[3].field == "country" && spec[4].field == "stay_count";
    assert spec[5].field == "last_stay_date" && spec[6].field == "status";
    assert spec'[0].field == "name" && spec'[1].field == "email" && spec'[2].field == "phone";
    assert spec'[3].field == "country" && spec'[4].field == "stay_count";
    assert spec'[5].field == "last_stay_date" && spec'[6].field == "status";
  }

  /** What either rule set lets through: the input's values for exactly the
      columns in `Fields` that the input holds. */
  lemma ValidatedColumns(rules: seq<FieldRules>, taken: set<string>, input: Input, ck: Checkers)
    requires rules == StoreRules(taken) || rules == UpdateRules(taken)
    requires Validate(rules, input, ck).Valid?
    ensures var data := Validate(rules, input, ck).data;
      && (forall c :: c in data <==> c in input && c in Fields)
      && (forall c :: c in data ==> data[c] == input[c])
  {
    RuleFields(taken);
  }

  /** `GET /api/guests/{id}`. */
  function Show(t: GuestTable, id: nat): (o: Reply)
    ensures o.Status() == 200 <==> id in t.rows
    ensures o.Status() == 200 ==> o.guest == t.rows[id]
    ensures o.Status() != 200 ==> o == NotFound
  {
    if id in t.rows then GuestBody(200, t.rows[id]) else NotFound
  }

  /** `PUT /api/guests/{id}`. An unknown key gives 404; invalid input gives
      422; otherwise the validated columns overwrite the row's and every
      other column keeps its value. The e-mail may stay the row's own. */
  function Update(t: GuestTable, id: nat, input: Input, ck: Checkers): (o: Outcome)
    ensures o.reply.Status() in {200, 404, 422, 500}
    ensures o.reply.Status() == 404 <==> id !in t.rows
    ensures o.reply.Status() == 404 ==> o.reply == NotFound
    ensures o.reply.Status() == 500 ==> o.reply == ServerError
    ensures o.reply.Status() != 200 ==> o.table == t
    ensures o.reply.Status() == 422 <==> id in t.rows && !UpdateAcceptable(input, Emails(t, Some(id)), ck)
    ensures var v := Validate(UpdateRules(Emails(t, Some(id))), input, ck);
      o.reply.Status() == 422 ==> v.Invalid? && o.reply == Errors(v.errors)
    ensures o.reply.Status() == 500 <==>
      id in t.rows && UpdateAcceptable(input, Emails(t, Some(id)), ck) && SendsNullForDefaulted(input)
    ensures o.reply.Status() == 200 ==>
      && id in t.rows
      && o.table == GuestTable(t.rows[id := o.reply.guest], t.nextId)
      && o.reply.guest.id == t.rows[id].id
      && (forall c :: c in input && c in Fields ==> c in o.reply.guest.columns && o.reply.guest.columns[c] == input[c])
      && (forall c :: c in t.rows[id].columns && !(c in input && c in Fields) ==>
            c in o.reply.guest.columns && o.reply.guest.columns[c] == t.rows[id].columns[c])
      && (forall c :: c in o.reply.guest.columns ==> c in t.rows[id].columns || (c in input && c in Fields))
  {
    if id !in t.rows then Outcome(NotFound, t)
    else
      var taken := Emails(t, Some(id));
      UpdateRulesAccept(input, taken, ck);
      match Validate(UpdateRules(taken), input, ck)
      case Invalid(errors) => Outcome(Errors(errors), t)
      case Valid(data) =>
        if NullIntoNotNull(data) then Outcome(ServerError, t)
        else
          ValidatedColumns(UpdateRules(taken), taken, input, ck);
          var g := t.rows[id];
          var updated := Guest(g.id, g.columns + data);
          Outcome(GuestBody(200, updated), GuestTable(t.rows[id := updated], t.nextId))
  }

  /** `DELETE /api/guests/{id}`: 204 with a null body once the row is gone. */
  function Destroy(t: GuestTable, id: nat): (o: Outcome)
    ensures o.reply.Status() == 204 <==> id in t.rows
    ensures o.reply.Status() == 204 ==> o.reply == NoContent && o.table == GuestTable(t.rows - {id}, t.nextId)
    ensures o.reply.Status() != 204 ==> o == Outcome(NotFound, t)
  {
    if id in t.rows then Outcome(NoContent, GuestTable(t.rows - {id}, t.nextId)) else Outcome(NotFound, t)
  }

  // ------------------------------------------------------------ invariants

  lemma StoreKeepsWellFormed(t: GuestTable, input: Input, ck: Checkers)
    requires WellFormed(t)
    ensures WellFormed(Store(t, input, ck).table)
  {
    var o := Store(t, input, ck);
    if o.reply.Status() == 201 {
      var g := o.table.rows[t.nextId];
      assert EmailOf(g) == input["email"].s;
      InsertFreshKeepsWellFormed(t, g);
    }
  }

  /** A row under the next key whose address no row holds keeps the table
      well formed. */
  lemma InsertFreshKeepsWellFormed(t: GuestTable, g: Guest)
    requires WellFormed(t) && g.id == t.nextId && EmailOf(g) !in Emails(t, None)
    ensures WellFormed(GuestTable(t.rows[t.nextId := g], t.nextId + 1))
  {
    forall i | i in t.rows
      ensures EmailOf(t.rows[i]) in Emails(t, None)
    {
    }
  }

  lemma UpdateKeepsWellFormed(t: GuestTable, id: nat, input: Input, ck: Checkers)
    requires WellFormed(t)
    ensures WellFormed(Update(t, id, input, ck).table)
  {
    var o := Update(t, id, input, ck);
    if o.reply.Status() == 200 {
      var g := o.table.rows[id];
      if "email" in input {
        assert EmailOf(g) == input["email"].s;
      } else {
        assert EmailOf(g) == EmailOf(t.rows[id]);
      }
      ReplaceKeepsWellFormed(t, id, g);
    }
  }

  /** Rewriting a row in place keeps the table well formed when its address
      stays its own or is one no other row holds. */
  lemma ReplaceKeepsWellFormed(t: GuestTable, id: nat, g: Guest)
    requires WellFormed(t) && id in t.rows && g.id == id
    requires EmailOf(g) == EmailOf(t.rows[id]) || EmailOf(g) !in Emails(t, Some(id))
    ensures WellFormed(GuestTable(t.rows[id := g], t.nextId))
  {
    forall i | i in t.rows && i != id
      ensures EmailOf(t.rows[i]) in Emails(t, Some(id))
    {
    }
  }

  lemma DestroyKeepsWellFormed(t: GuestTable, id: nat)
    requires WellFormed(t)
    ensures WellFormed(Destroy(t, id).table)
  {
  }

  /** A deleted guest is no longer found. */
  lemma DestroyThenShow(t: GuestTable, id: nat)
    ensures Show(Destroy(t, id).table, id) == NotFound
  {
  }

  /** Updating with no fields changes nothing but still answers 200. */
  lemma EmptyUpdateKeepsRow(t: GuestTable, id: nat, ck: Checkers)
    requires id in t.rows
    ensures Update(t, id, map[], ck) == Outcome(GuestBody(200, t.rows[id]), t)
  {
    var taken := Emails(t, Some(id));
    UpdateRulesAccept(map[], taken, ck);
    var data := Validate(UpdateRules(taken), map[], ck).data;
    assert data == map[];
    assert t.rows[id].columns + data == t.rows[id].columns;
    assert t.rows[id := t.rows[id]] == t.rows;
  }
}
