/** The users table behind the `User` model: records keyed by an
    auto-increment id, with a unique e-mail column. */
module UserTable {
  import opened Users
  import opened Listing

  /** No two records share an e-mail address. */
  ghost predicate EmailsUnique(users: map<nat, User>)
  {
    forall a, b :: a in users && b in users && users[a].email == users[b].email ==> a == b
  }

  /** A value written into a column by a mass update. */
  datatype Value = Str(s: string) | Nul | Hashed(d: Digest)

  /** The attribute array handed to `$user->update($data)`. */
  type Attributes = map<Field, Value>

  /** Digests go to the password column and only there. */
  predicate WellTyped(data: Attributes)
  {
    forall f :: f in data ==> (data[f].Hashed? <==> f == Password)
  }

  /** The value a column of the record holds. */
  function Read(u: User, f: Field): Value
  {
    match f
    case Name => Str(u.name)
    case Email => Str(u.email)
    case Password => Hashed(u.password)
    case Ip => if u.ip.Some? then Str(u.ip.value) else Nul
    case Comment => if u.comment.Some? then Str(u.comment.value) else Nul
  }

  /** `name`, `email` and `password` are NOT NULL columns. */
  predicate NotNullColumn(f: Field)
  {
    f == Name || f == Email || f == Password
  }

  /** `$user->fill($data)` followed by the write: either the store refuses a
      NULL in a NOT NULL column, or every written column reads back what was
      written and every other column keeps its value. */
  function Fill(u: User, data: Attributes): (r: Option<User>)
    requires WellTyped(data)
    ensures r.None? <==> exists f :: f in data && NotNullColumn(f) && data[f] == Nul
    ensures r.Some? ==> forall f :: f in data ==> Read(r.value, f) == data[f]
    ensures r.Some? ==> forall f :: f !in data ==> Read(r.value, f) == Read(u, f)
  {
    if (Name in data && data[Name] == Nul) || (Email in data && data[Email] == Nul) then None
    else
      Some(User(
        if Name in data then data[Name].s else u.name,
        if Email in data then data[Email].s else u.email,
        if Password in data then data[Password].d else u.password,
        if Ip in data then (if data[Ip].Str? then Some(data[Ip].s) else None) else u.ip,
        if Comment in data then (if data[Comment].Str? then Some(data[Comment].s) else None) else u.comment))
  }

  class UserStore {
    var users: map<nat, User>
    /** The auto-increment counter: the id the next insert receives. */
    var nextId: nat

    /** Ids are issued from 1 upwards and every issued id is below the
        counter; e-mail addresses are unique. */
    ghost predicate Valid()
      reads this
    {
      nextId >= 1
      && (forall id :: id in users ==> 1 <= id < nextId)
      && EmailsUnique(users)
    }

    constructor ()
      ensures Valid() && users == map[] && nextId == 1
    {
      users := map[];
      nextId := 1;
    }

    /** The addresses the `unique:users,email` rule looks up. */
    function Emails(): set<string>
      reads this
    {
      set id | id in users :: users[id].email
    }

    /** The table in primary-key order, as a query without `orderBy` or with
        `orderBy('id', 'asc')` scans it. */
    function Table(): (t: seq<Row>)
      reads this
      requires Valid()
      ensures Ascending(t)
      ensures forall r :: r in t <==> r.id in users && users[r.id] == r.user
    {
      ScanSpec(users, nextId);
      Scan(users, nextId)
    }

    /** `User::findOrFail($id)`: the record, or nothing (the framework then
        throws its not-found exception). */
    function FindOrFail(id: nat): (r: Option<User>)
      reads this
      ensures r.Some? <==> id in users
      ensures r.Some? ==> r.value == users[id]
    {
      if id in users then Some(users[id]) else None
    }

    /** `User::create(...)`: stores the record under a fresh id. */
    method Insert(u: User) returns (id: nat)
      requires Valid()
      requires u.email !in Emails()
      modifies this
      ensures Valid()
      ensures id == old(nextId) && id !in old(users)
      ensures users == old(users)[id := u]
      ensures nextId == old(nextId) + 1
    {
      id := nextId;
      assert forall k :: k in users ==> users[k].email in Emails();
      users := users[id := u];
      nextId := nextId + 1;
    }

    /** `$user->save()` of a record whose e-mail is untouched. */
    method Save(id: nat, u: User)
      requires Valid()
      requires id in users && u.email == users[id].email
      modifies this
      ensures Valid()
      ensures users == old(users)[id := u]
      ensures nextId == old(nextId)
    {
      users := users[id := u];
    }

    /** `$user->delete()`: a hard delete; the id is never issued again. */
    method Delete(id: nat)
      requires Valid()
      requires id in users
      modifies this
      ensures Valid()
      ensures users == old(users) - {id}
      ensures nextId == old(nextId)
    {
      users := users - {id};
    }
  }
}
