/** The part of Laravel's request validation the routes rely on: the rules
    `sometimes`, `required`, `nullable`, `string`, `integer`, `email`, `date`,
    `max`, `min`, `in` and `unique`, applied field by field. Whether a string
    is an e-mail address or a date is decided by code outside this model and
    enters as a parameter; `unique` enters as the set of values already taken. */
module Validation {
  import opened Optional
  import opened Php

  /** A request input value as the framework decoded it. */
  datatype Value = Null | Str(s: string) | Int(n: int)

  /** The request payload; a key that is absent was not sent. */
  type Input = map<string, Value>

  /** Checks performed by library code this model does not include. */
  datatype Checkers = Checkers(isEmail: string -> bool, isDate: string -> bool)

  datatype Rule =
    | Sometimes
    | Required
    | Nullable
    | IsString
    | IsInteger
    | Email
    | Date
    | Max(limit: int)
    | Min(limit: int)
    | In(options: set<string>)
    | Unique(taken: set<string>)

  /** The rules attached to one input field. */
  datatype FieldRules = FieldRules(field: string, rules: seq<Rule>)

  /** The outcome of validation: the validated data, or the fields that failed. */
  datatype Validated = Valid(data: map<string, Value>) | Invalid(errors: set<string>)

  /** PHP's `(string)` cast of an input value. */
  function Text(v: Value): string {
    match v
    case Null => ""
    case Str(s) => s
    case Int(n) => IntToString(n)
  }

  /** `required`: present, not null and not a blank string. */
  predicate Filled(present: bool, v: Value) {
    present && !v.Null? && !(v.Str? && Blank(v.s))
  }

  /** Whether the rules other than `required` are applied: Laravel skips them
      for an absent field, a blank string, and a null value marked `nullable`. */
  predicate RulesApply(rules: seq<Rule>, present: bool, v: Value) {
    present && !(v.Str? && Blank(v.s)) && !(Nullable in rules && v.Null?)
  }

  /** The size `max` and `min` compare: the number itself for a field with a
      numeric rule, otherwise the length of the text. */
  function Size(rules: seq<Rule>, v: Value): int {
    if IsInteger in rules then
      match v
      case Int(n) => n
      case Str(s) => if ParseInt(s).Some? then ParseInt(s).value else |s|
      case Null => 0
    else |Text(v)|
  }

  /** Whether one non-implicit rule accepts `v`. */
  predicate Accepts(r: Rule, rules: seq<Rule>, v: Value, ck: Checkers) {
    match r
    case Sometimes => true
    case Required => true
    case Nullable => true
    case IsString => v.Str?
    case IsInteger => v.Int? || (v.Str? && ParseInt(v.s).Some?)
    case Email => v.Str? && ck.isEmail(v.s)
    case Date => !v.Null? && ck.isDate(Text(v))
    case Max(limit) => Size(rules, v) <= limit
    case Min(limit) => Size(rules, v) >= limit
    case In(options) => Text(v) in options
    case Unique(taken) => Text(v) !in taken
  }

  /** Whether a field passes all its rules. */
  predicate FieldPasses(rules: seq<Rule>, present: bool, v: Value, ck: Checkers) {
    || (Sometimes in rules && !present)
    || (&& (Required in rules ==> Filled(present, v))
        && (RulesApply(rules, present, v) ==> forall r :: r in rules ==> Accepts(r, rules, v, ck)))
  }

  /** The input value of a field, null when absent. */
  function Get(input: Input, field: string): Value {
    if field in input then input[field] else Null
  }

  predicate Passes(fr: FieldRules, input: Input, ck: Checkers) {
    FieldPasses(fr.rules, fr.field in input, Get(input, fr.field), ck)
  }

  /** `$request->validate($rules)`: the fields with rules that were sent,
      when every field passes; the failing fields otherwise. */
  function Validate(spec: seq<FieldRules>, input: Input, ck: Checkers): (r: Validated)
    ensures r.Invalid? <==> exists i :: 0 <= i < |spec| && !Passes(spec[i], input, ck)
    ensures r.Invalid? ==> r.errors != {}
    ensures r.Invalid? ==> forall f :: f in r.errors <==>
      exists i :: 0 <= i < |spec| && spec[i].field == f && !Passes(spec[i], input, ck)
    ensures r.Valid? ==> forall f :: f in r.data <==> f in input && exists i :: 0 <= i < |spec| && spec[i].field == f
    ensures r.Valid? ==> forall f :: f in r.data ==> r.data[f] == input[f]
  {
    var failed := set i | 0 <= i < |spec| && !Passes(spec[i], input, ck) :: spec[i].field;
    assert forall i | 0 <= i < |spec| && !Passes(spec[i], input, ck) :: spec[i].field in failed;
    if failed != {} then Invalid(failed)
    else
      Valid(map f | f in input && (exists i :: 0 <= i < |spec| && spec[i].field == f) :: input[f])
  }

  // ------------------------------------------ what each combination admits

  /** Absent, null or blank: a field whose non-implicit rules are skipped. */
  predicate Omitted(input: Input, f: string) {
    f !in input || input[f].Null? || (input[f].Str? && Blank(input[f].s))
  }

  /** A string that is not blank: what `required|string` admits. */
  predicate FilledText(input: Input, f: string) {
    f in input && input[f].Str? && !Blank(input[f].s)
  }

  /** Validation succeeds exactly when every field passes its rules. */
  lemma ValidIffAllPass(spec: seq<FieldRules>, input: Input, ck: Checkers)
    ensures Validate(spec, input, ck).Valid? <==> forall i :: 0 <= i < |spec| ==> Passes(spec[i], input, ck)
  {
  }

  /** `required` alone: present, not null, not blank. */
  lemma RequiredRule(input: Input, f: string, ck: Checkers)
    ensures Passes(FieldRules(f, [Required]), input, ck) <==>
      f in input && !input[f].Null? && !(input[f].Str? && Blank(input[f].s))
  {
  }

  /** `required|string`. */
  lemma RequiredStringRule(input: Input, f: string, ck: Checkers)
    ensures Passes(FieldRules(f, [Required, IsString]), input, ck) <==> FilledText(input, f)
  {
    assert IsString in [Required, IsString];
  }

  /** `required|string|max:n`: a filled string of at most `n` characters. */
  lemma RequiredStringMaxRule(input: Input, f: string, n: int, ck: Checkers)
    ensures Passes(FieldRules(f, [Required, IsString, Max(n)]), input, ck) <==>
      FilledText(input, f) && |input[f].s| <= n
  {
    assert IsString in [Required, IsString, Max(n)];
    assert Max(n) in [Required, IsString, Max(n)];
  }

  /** `sometimes|required|string|max:n`: absent, or as `required|string|max:n`. */
  lemma SometimesRequiredStringMaxRule(input: Input, f: string, n: int, ck: Checkers)
    ensures Passes(FieldRules(f, [Sometimes, Required, IsString, Max(n)]), input, ck) <==>
      f !in input || (FilledText(input, f) && |input[f].s| <= n)
  {
    assert IsString in [Sometimes, Required, IsString, Max(n)];
    assert Max(n) in [Sometimes, Required, IsString, Max(n)];
  }

  /** `required|string|min:n`: a filled string of at least `n` characters. */
  lemma RequiredStringMinRule(input: Input, f: string, n: int, ck: Checkers)
    ensures Passes(FieldRules(f, [Required, IsString, Min(n)]), input, ck) <==>
      FilledText(input, f) && |input[f].s| >= n
  {
    assert IsString in [Required, IsString, Min(n)];
    assert Min(n) in [Required, IsString, Min(n)];
  }

  /** `required|email`. */
  lemma RequiredEmailRule(input: Input, f: string, ck: Checkers)
    ensures Passes(FieldRules(f, [Required, Email]), input, ck) <==>
      FilledText(input, f) && ck.isEmail(input[f].s)
  {
    assert Email in [Required, Email];
  }

  /** `required|email|unique`: a filled address not already taken. */
  lemma RequiredEmailUniqueRule(input: Input, f: string, taken: set<string>, ck: Checkers)
    ensures Passes(FieldRules(f, [Required, Email, Unique(taken)]), input, ck) <==>
      FilledText(input, f) && ck.isEmail(input[f].s) && input[f].s !in taken
  {
    assert Email in [Required, Email, Unique(taken)];
    assert Unique(taken) in [Required, Email, Unique(taken)];
  }

  /** `sometimes|required|email|unique`: absent, or a filled address not taken. */
  lemma SometimesRequiredEmailUniqueRule(input: Input, f: string, taken: set<string>, ck: Checkers)
    ensures Passes(FieldRules(f, [Sometimes, Required, Email, Unique(taken)]), input, ck) <==>
      f !in input || (FilledText(input, f) && ck.isEmail(input[f].s) && input[f].s !in taken)
  {
    assert Email in [Sometimes, Required, Email, Unique(taken)];
    assert Unique(taken) in [Sometimes, Required, Email, Unique(taken)];
  }

  /** `nullable|string|max:n`: omitted, or a string of at most `n` characters. */
  lemma NullableStringMaxRule(input: Input, f: string, n: int, ck: Checkers)
    ensures Passes(FieldRules(f, [Nullable, IsString, Max(n)]), input, ck) <==>
      Omitted(input, f) || (input[f].Str? && |input[f].s| <= n)
  {
    assert IsString in [Nullable, IsString, Max(n)];
    assert Max(n) in [Nullable, IsString, Max(n)];
  }

  /** `nullable|integer|min:n`: omitted, or an integer (or its decimal text) of at least `n`. */
  lemma NullableIntegerMinRule(input: Input, f: string, n: int, ck: Checkers)
    ensures Passes(FieldRules(f, [Nullable, IsInteger, Min(n)]), input, ck) <==>
      || Omitted(input, f)
      || (input[f].Int? && input[f].n >= n)
      || (input[f].Str? && ParseInt(input[f].s).Some? && ParseInt(input[f].s).value >= n)
  {
    assert IsInteger in [Nullable, IsInteger, Min(n)];
    assert Min(n) in [Nullable, IsInteger, Min(n)];
  }

  /** `nullable|date`: omitted, or text the date parser accepts. */
  lemma NullableDateRule(input: Input, f: string, ck: Checkers)
    ensures Passes(FieldRules(f, [Nullable, Date]), input, ck) <==>
      Omitted(input, f) || ck.isDate(Text(input[f]))
  {
    assert Date in [Nullable, Date];
  }

  /** `nullable|string|in:...`: omitted, or one of the listed strings. */
  lemma NullableStringInRule(input: Input, f: string, options: set<string>, ck: Checkers)
    ensures Passes(FieldRules(f, [Nullable, IsString, In(options)]), input, ck) <==>
      Omitted(input, f) || (input[f].Str? && input[f].s in options)
  {
    assert IsString in [Nullable, IsString, In(options)];
    assert In(options) in [Nullable, IsString, In(options)];
  }
}
