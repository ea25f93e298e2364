/** The request validator, as a declarative schema per operation: each field
    is either `required` or `nullable`, followed by checks on its value. A
    required field fails when it is absent, null or blank; the checks of a
    nullable field, like every check that is not `required`, are skipped when
    the value is absent, null or blank. The errors are the set of fields with
    at least one failing rule (every rule of a field is evaluated, there is
    no `bail`). */
module Validation {
  import opened Users

  datatype Check = IsString | Max(n: nat) | Min(n: nat) | IpAddress | EmailAddress | UniqueEmail

  datatype Rules = Required(checks: seq<Check>) | Nullable(checks: seq<Check>)

  type Schema = map<Field, Rules>

  /** One check on a filled value; `taken` is the set of e-mail addresses the
      users table already holds (the `unique:users,email` lookup). */
  predicate Passes(c: Check, s: string, taken: set<string>)
  {
    match c
    case IsString => true
    case Max(n) => |s| <= n
    case Min(n) => |s| >= n
    case IpAddress => IsIp(s)
    case EmailAddress => IsEmail(s)
    case UniqueEmail => s !in taken
  }

  predicate AllPass(checks: seq<Check>, s: string, taken: set<string>)
  {
    forall i :: 0 <= i < |checks| ==> Passes(checks[i], s, taken)
  }

  predicate FieldFails(r: Rules, v: Param, taken: set<string>)
  {
    match r
    case Required(checks) => !Filled(v) || !AllPass(checks, v.s, taken)
    case Nullable(checks) => Filled(v) && !AllPass(checks, v.s, taken)
  }

  /** `Validator::make($request->all(), $rules)->errors()`, keyed by field. */
  function Errors(schema: Schema, input: Input, taken: set<string>): set<Field>
  {
    set f | f in schema && FieldFails(schema[f], input.Get(f), taken)
  }

  lemma ErrorsOnField(schema: Schema, input: Input, taken: set<string>, f: Field)
    ensures f in Errors(schema, input, taken) <==> f in schema && FieldFails(schema[f], input.Get(f), taken)
  {
  }

  lemma AllPassOne(a: Check, s: string, taken: set<string>)
    ensures AllPass([a], s, taken) <==> Passes(a, s, taken)
  {
    assert [a][0] == a;
  }

  lemma AllPassPair(a: Check, b: Check, s: string, taken: set<string>)
    ensures AllPass([a, b], s, taken) <==> Passes(a, s, taken) && Passes(b, s, taken)
  {
    assert [a, b][0] == a && [a, b][1] == b;
  }

  /** The rules of the web update. */
  const UpdateSchema: Schema := map[
    Name := Required([IsString, Max(255)]),
    Ip := Nullable([IpAddress]),
    Comment := Nullable([IsString]),
    Password := Nullable([IsString, Min(6)])
  ]

  /** The rules shared by the web store and the API create. */
  const CreateSchema: Schema := map[
    Name := Required([IsString, Max(255)]),
    Email := Required([EmailAddress, UniqueEmail]),
    Password := Required([IsString, Min(6)]),
    Ip := Nullable([IpAddress]),
    Comment := Nullable([IsString])
  ]

  /** Field errors of a web update: the name must be filled and at most 255
      characters; an ip, when filled, must be an IP literal; a password, when
      filled, must have at least 6 characters. Nothing else can fail. */
  function UpdateErrors(input: Input): (e: set<Field>)
    ensures e <= {Name, Ip, Password}
    ensures Name in e <==> !Filled(input.name) || |input.name.s| > 255
    ensures Ip in e <==> Filled(input.ip) && !IsIp(input.ip.s)
    ensures Password in e <==> Filled(input.password) && |input.password.s| < 6
  {
    ErrorsOnField(UpdateSchema, input, {}, Name);
    ErrorsOnField(UpdateSchema, input, {}, Ip);
    ErrorsOnField(UpdateSchema, input, {}, Comment);
    ErrorsOnField(UpdateSchema, input, {}, Password);
    ErrorsOnField(UpdateSchema, input, {}, Email);
    AllPassPair(IsString, Max(255), TextOf(input.name), {});
    AllPassPair(IsString, Min(6), TextOf(input.password), {});
    AllPassOne(IpAddress, TextOf(input.ip), {});
    AllPassOne(IsString, TextOf(input.comment), {});
    Errors(UpdateSchema, input, {})
  }

  /** Field errors of a creation. Besides the update's rules on name and ip,
      the e-mail must be filled, well formed and not yet taken, and the
      password is mandatory with at least 6 characters. */
  function CreateErrors(input: Input, taken: set<string>): (e: set<Field>)
    ensures e <= {Name, Email, Password, Ip}
    ensures Name in e <==> !Filled(input.name) || |input.name.s| > 255
    ensures Email in e <==> !Filled(input.email) || !IsEmail(input.email.s) || input.email.s in taken
    ensures Password in e <==> !Filled(input.password) || |input.password.s| < 6
    ensures Ip in e <==> Filled(input.ip) && !IsIp(input.ip.s)
  {
    ErrorsOnField(CreateSchema, input, taken, Name);
    ErrorsOnField(CreateSchema, input, taken, Email);
    ErrorsOnField(CreateSchema, input, taken, Ip);
    ErrorsOnField(CreateSchema, input, taken, Comment);
    ErrorsOnField(CreateSchema, input, taken, Password);
    AllPassPair(IsString, Max(255), TextOf(input.name), taken);
    AllPassPair(EmailAddress, UniqueEmail, TextOf(input.email), taken);
    AllPassPair(IsString, Min(6), TextOf(input.password), taken);
    AllPassOne(IpAddress, TextOf(input.ip), taken);
    AllPassOne(IsString, TextOf(input.comment), taken);
    Errors(CreateSchema, input, taken)
  }

  /** An e-mail address already held by a user is always reported on the
      `email` field, whatever else the input holds. */
  lemma DuplicateEmailRejected(input: Input, taken: set<string>)
    requires input.email.Given? && input.email.s in taken
    ensures Email in CreateErrors(input, taken)
  {
  }
}
