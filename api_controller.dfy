/** The JSON adapter (`API\UserController`). Nothing here catches
    exceptions: `findOrFail` answers 404 and any other fault a 500. */
module ApiUserController {
  import opened Users
  import opened Validation
  import opened Listing
  import opened UserTable

  /** The query string of `GET /users`. */
  datatype IndexRequest = IndexRequest(page: Option<int>, search: Param, sort: Param)

  /** The rows the search lets through: all of them when the `search` key is
      absent; otherwise those whose name contains it (a null search is
      concatenated as the empty string and so matches every name). */
  function Matching(table: seq<Row>, search: Param): (r: seq<Row>)
    ensures forall x :: x in r <==> x in table && (!search.Missing? ==> Contains(x.user.name, TextOf(search)))
  {
    if search.Missing? then table else Filter(table, TextOf(search))
  }

  /** `index` over a table scanned in key order: `orderBy('id', 'asc')`, the
      search, then `orderBy('name', sort)`, then page 10. `None` is the query
      builder's exception for a sort order other than asc/desc. */
  function List(table: seq<Row>, q: IndexRequest): (r: Option<seq<Row>>)
    ensures r.Some? <==> Direction(InputOr(q.sort, "asc")).Some?
    ensures r.Some? ==> |r.value| <= PageSize
  {
    var dir := Direction(InputOr(q.sort, "asc"));
    if dir.None? then None
    else Some(Page(Sort(ByIdThenName(dir.value), Matching(table, q.search)), CurrentPage(q.page)))
  }

  /** Ordering by id first leaves nothing for the name to decide: the page is
      cut from the matching rows in key order, whatever `sort` says. */
  lemma ListInKeyOrder(table: seq<Row>, q: IndexRequest)
    requires Ascending(table)
    requires Direction(InputOr(q.sort, "asc")).Some?
    ensures List(table, q) == Some(Page(Matching(table, q.search), CurrentPage(q.page)))
  {
    var d := Direction(InputOr(q.sort, "asc")).value;
    var m := Matching(table, q.search);
    if !q.search.Missing? {
      FilterSorted(ById(Asc), table, TextOf(q.search));
    }
    AscendingDistinct(m);
    IdThenNameIsById(d, m);
    SortIdentity(ByIdThenName(d), m);
  }

  /** Two valid `sort` values give the same page. */
  lemma SortNeverReorders(table: seq<Row>, q1: IndexRequest, q2: IndexRequest)
    requires Ascending(table)
    requires q1.page == q2.page && q1.search == q2.search
    requires Direction(InputOr(q1.sort, "asc")).Some? && Direction(InputOr(q2.sort, "asc")).Some?
    ensures List(table, q1) == List(table, q2)
  {
    ListInKeyOrder(table, q1);
    ListInKeyOrder(table, q2);
  }

  /** `index` over the current table: a page of at most 10 stored records,
      each passing the search. */
  function Index(store: UserStore, q: IndexRequest): (r: Option<seq<Row>>)
    reads store
    requires store.Valid()
    ensures r.Some? <==> Direction(InputOr(q.sort, "asc")).Some?
    ensures r.Some? ==> |r.value| <= PageSize
    ensures r.Some? ==> forall x :: x in r.value ==>
              x.id in store.users && store.users[x.id] == x.user
              && (!q.search.Missing? ==> Contains(x.user.name, TextOf(q.search)))
  {
    var r := List(store.Table(), q);
    if r.Some? then
      ListInKeyOrder(store.Table(), q);
      PageRowsFromSource(Matching(store.Table(), q.search), CurrentPage(q.page));
      r
    else r
  }

  /** `show`: the record, or 404 from `findOrFail` (the explicit `!$user`
      branch after it is never reached). */
  function Show(store: UserStore, id: nat): (r: Response<Row>)
    reads store
    ensures r.outcome == NotFound <==> id !in store.users
    ensures r.outcome != NotFound ==> r.outcome == Ok && r.body == Some(Row(id, store.users[id]))
    ensures r.outcome == NotFound ==> r.body.None?
  {
    match store.FindOrFail(id)
    case None => Response(NotFound, None)
    case Some(user) => Response(Ok, Some(Row(id, user)))
  }

  /** `create`: 422 with the field errors, or 201 with the new record. */
  method Create(store: UserStore, input: Input) returns (r: Response<Row>)
    requires store.Valid()
    modifies store
    ensures store.Valid()
    ensures CreateErrors(input, old(store.Emails())) != {} ==>
              r == Response(ValidationError(CreateErrors(input, old(store.Emails()))), None)
              && store.users == old(store.users) && store.nextId == old(store.nextId)
    ensures CreateErrors(input, old(store.Emails())) == {} ==>
              r.outcome == Created
              && old(store.nextId) !in old(store.users)
              && store.nextId == old(store.nextId) + 1
              && old(store.nextId) in store.users
              && store.users == old(store.users)[old(store.nextId) := store.users[old(store.nextId)]]
              && r.body == Some(Row(old(store.nextId), store.users[old(store.nextId)]))
              && var created := store.users[old(store.nextId)];
                 created.name == input.name.s
                 && created.email == input.email.s
                 && created.password == Hash(input.password.s)
                 && created.ip == ValueOf(input.ip)
                 && created.comment == ValueOf(input.comment)
  {
    var errors := CreateErrors(input, store.Emails());
    if errors != {} {
      return Response(ValidationError(errors), None);
    }
    var user := User(input.name.s, input.email.s, Hash(input.password.s), ValueOf(input.ip), ValueOf(input.comment));
    var id := store.Insert(user);
    r := Response(Created, Some(Row(id, user)));
  }

  /** `$request->only($keys)`: the listed keys that are present, with their
      values (null included). */
  function Only(input: Input, keys: set<Field>): (data: Attributes)
    ensures forall f :: f in data <==> f in keys && !input.Get(f).Missing?
    ensures forall f :: f in data ==> data[f] == (if input.Get(f).Given? then Str(input.Get(f).s) else Nul)
  {
    map f | f in keys && !input.Get(f).Missing? :: if input.Get(f).Given? then Str(input.Get(f).s) else Nul
  }

  /** `update`: the present keys among name, ip and comment, plus the
      password's digest when one is filled in, written into the record with
      no validation. A present null name hits the NOT NULL column and fails. */
  method Update(store: UserStore, id: nat, input: Input) returns (r: Response<Row>)
    requires store.Valid()
    modifies store
    ensures store.Valid() && store.nextId == old(store.nextId)
    ensures id !in old(store.users) ==>
              r == Response(NotFound, None) && store.users == old(store.users)
    ensures id in old(store.users) && input.name.Null? ==>
              r == Response(Error, None) && store.users == old(store.users)
    ensures id in old(store.users) && !input.name.Null? ==>
              r.outcome == Ok && id in store.users
              && store.users == old(store.users)[id := store.users[id]]
              && r.body == Some(Row(id, store.users[id]))
              && var before, after := old(store.users[id]), store.users[id];
                 after.name == (if input.name.Given? then input.name.s else before.name)
                 && after.ip == (if input.ip.Missing? then before.ip else ValueOf(input.ip))
                 && after.comment == (if input.comment.Missing? then before.comment else ValueOf(input.comment))
                 && after.email == before.email
                 && after.password == (if Filled(input.password) then Hash(input.password.s) else before.password)
  {
    var found := store.FindOrFail(id);
    if found.None? {
      return Response(NotFound, None);
    }
    var data := Only(input, {Name, Ip, Comment});
    if Filled(input.password) {
      data := data[Password := Hashed(Hash(input.password.s))];
    }
    var saved := Fill(found.value, data);
    if saved.None? {
      return Response(Error, None);
    }
    var user := saved.value;
    assert Read(user, Email) == Read(found.value, Email);
    assert Read(user, Name) == if Name in data then data[Name] else Read(found.value, Name);
    assert Read(user, Ip) == if Ip in data then data[Ip] else Read(found.value, Ip);
    assert Read(user, Comment) == if Comment in data then data[Comment] else Read(found.value, Comment);
    assert Read(user, Password) == if Password in data then data[Password] else Read(found.value, Password);
    store.Save(id, user);
    r := Response(Ok, Some(Row(id, user)));
  }

  /** `destroy`: 404 from `findOrFail`, or the record is deleted and a
      confirmation returned. */
  method Destroy(store: UserStore, id: nat) returns (outcome: Outcome)
    requires store.Valid()
    modifies store
    ensures store.Valid() && store.nextId == old(store.nextId)
    ensures id !in old(store.users) ==> outcome == NotFound && store.users == old(store.users)
    ensures id in old(store.users) ==> outcome == Ok && store.users == old(store.users) - {id}
  {
    var found := store.FindOrFail(id);
    if found.None? {
      return NotFound;
    }
    store.Delete(id);
    outcome := Ok;
  }
}
