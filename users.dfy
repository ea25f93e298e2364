/** The user record, the request values the two controllers read, and the
    framework primitives they rely on (password hashing, the `filled` test,
    the e-mail and IP format rules). */
module Users {

  datatype Option<+T> = None | Some(value: T)

  /** One request parameter as a controller sees it: the key is absent, it is
      present with a null value, or it carries a string. */
  datatype Param = Missing | Null | Given(s: string)

  /** The request keys the controllers read when writing a user; they are also
      the columns of the users table that a write may touch. */
  datatype Field = Name | Email | Password | Ip | Comment

  /** The write request: every other key a client sends is ignored by the
      controllers' allow-lists, so it is not represented. */
  datatype Input = Input(name: Param, email: Param, password: Param, ip: Param, comment: Param)
  {
    function Get(f: Field): Param
    {
      match f
      case Name => name
      case Email => email
      case Password => password
      case Ip => ip
      case Comment => comment
    }
  }

  /** A stored password. `Hash::make` is modelled as an injective function
      into a type of its own, which keeps digests and plaintexts apart. */
  datatype Digest = Bcrypt(secret: string)

  function Hash(plain: string): Digest
  {
    Bcrypt(plain)
  }

  /** Distinct plaintexts never share a digest. */
  lemma HashInjective(a: string, b: string)
    ensures Hash(a) == Hash(b) ==> a == b
  {
  }

  /** A row of the users table (the id is the key of the store's map). */
  datatype User = User(name: string, email: string, password: Digest, ip: Option<string>, comment: Option<string>)

  /** How the controlling outcome of one request is reported: a success
      (redirect with a success message, HTTP 200), a creation (HTTP 201), an
      unknown id (HTTP 404), the validator's field errors (redirect back with
      errors, HTTP 422), or any other failure (redirect back with an error
      message, HTTP 500). */
  datatype Outcome = Ok | Created | NotFound | ValidationError(fields: set<Field>) | Error

  /** A controller's reply: its outcome and, where it has one, its payload. */
  datatype Response<+T> = Response(outcome: Outcome, body: Option<T>)

  /** The characters PHP's `trim` strips by default. */
  predicate IsTrimmed(c: char)
  {
    c == ' ' || c == '\t' || c == '\n' || c == '\r' || c == '\0' || c == '\U{0B}'
  }

  /** A string that is empty once trimmed. */
  predicate Blank(s: string)
  {
    forall i :: 0 <= i < |s| ==> IsTrimmed(s[i])
  }

  /** `$request->filled(key)`: present, not null and not blank. */
  predicate Filled(p: Param)
    ensures Filled(p) ==> p.Given? && |p.s| > 0
  {
    p.Given? && !Blank(p.s)
  }

  /** `$request->input(key)` written into a nullable column: an absent key
      and a null value both become NULL. */
  function ValueOf(p: Param): Option<string>
  {
    match p
    case Given(s) => Some(s)
    case _ => None
  }

  /** `$request->input(key, default)`: the default replaces an absent key
      only; a null value stays null. */
  function InputOr(p: Param, default: string): Option<string>
  {
    match p
    case Missing => Some(default)
    case Null => None
    case Given(s) => Some(s)
  }

  /** The string a parameter carries; PHP turns null into the empty string
      when it is concatenated. */
  function TextOf(p: Param): string
  {
    if p.Given? then p.s else ""
  }

  /** Stand-in for the validator's `email` rule: one `@` with a non-empty
      local part and a non-empty domain, and no blank characters. */
  predicate IsEmail(s: string)
  {
    (exists i :: 0 < i < |s| - 1 && s[i] == '@' && '@' !in s[..i] && '@' !in s[i + 1..])
    && (forall i :: 0 <= i < |s| ==> !IsTrimmed(s[i]))
  }

  predicate IsDigit(c: char)
  {
    '0' <= c <= '9'
  }

  predicate IsHexDigit(c: char)
  {
    IsDigit(c) || 'a' <= c <= 'f' || 'A' <= c <= 'F'
  }

  /** Value of a string of decimal digits. */
  function DecimalValue(s: string): nat
    requires forall i :: 0 <= i < |s| ==> IsDigit(s[i])
  {
    if s == [] then 0
    else
      assert IsDigit(s[|s| - 1]);
      DecimalValue(s[..|s| - 1]) * 10 + (s[|s| - 1] as int - '0' as int)
  }

  /** One IPv4 octet: 1 to 3 digits, no leading zero, at most 255. */
  predicate IsOctet(s: string)
  {
    1 <= |s| <= 3
    && (forall i :: 0 <= i < |s| ==> IsDigit(s[i]))
    && (|s| > 1 ==> s[0] != '0')
    && DecimalValue(s) <= 255
  }

  /** Dotted-quad IPv4 literal. */
  predicate IsIPv4(s: string)
  {
    exists i, j, k ::
      0 <= i < j < k < |s| && s[i] == '.' && s[j] == '.' && s[k] == '.'
      && IsOctet(s[..i]) && IsOctet(s[i + 1..j]) && IsOctet(s[j + 1..k]) && IsOctet(s[k + 1..])
  }

  /** Shape of an IPv6 literal: hexadecimal groups and at least two colons. */
  predicate IsIPv6(s: string)
  {
    2 <= |s| <= 39
    && (forall i :: 0 <= i < |s| ==> IsHexDigit(s[i]) || s[i] == ':')
    && (exists i, j :: 0 <= i < j < |s| && s[i] == ':' && s[j] == ':')
  }

  /** Stand-in for the validator's `ip` rule. */
  predicate IsIp(s: string)
  {
    IsIPv4(s) || IsIPv6(s)
  }
}
