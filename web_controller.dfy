/** The server-rendered adapter (`Web\UserController`): the `Home` page's
    list, the edit form, and update / store / destroy with redirect-and-flash
    outcomes. Every exception inside update, store and destroy, including the
    not-found exception of `findOrFail`, is caught and becomes `Error`. */
module WebUserController {
  import opened Users
  import opened Validation
  import opened Listing
  import opened UserTable

  /** The query string of the list page. */
  datatype IndexRequest = IndexRequest(page: Option<int>, sortField: Param, sortOrder: Param, search: Param)

  datatype SortProps = SortProps(field: string, order: Option<string>)

  /** The props of the `Home` page. */
  datatype HomeProps = HomeProps(users: seq<Row>, sort: SortProps, search: Option<string>)

  /** The props of the `Home` page with the edit form open. */
  datatype EditProps = EditProps(users: seq<Row>, userToEdit: User, sort: SortProps, search: Option<string>)

  /** PHP truthiness of a string or null: null, "" and "0" are falsy. */
  predicate Truthy(v: Option<string>)
  {
    v.Some? && v.value != "" && v.value != "0"
  }

  /** The fields the list page may be sorted by. */
  const AllowedSortFields: set<string> := {"id", "name"}

  /** `$request->input('sort_field', 'id')` after the allow-list check: a
      field outside the list, or null, becomes `id`. */
  function SortField(p: Param): (f: string)
    ensures f in AllowedSortFields
    ensures p.Given? && p.s in AllowedSortFields ==> f == p.s
    ensures !(p.Given? && p.s in AllowedSortFields) ==> f == "id"
    ensures f == "name" <==> p == Given("name")
  {
    var requested := InputOr(p, "id");
    if requested.Some? && requested.value in AllowedSortFields then requested.value else "id"
  }

  function Ordering(field: string, d: Dir): Order
  {
    if field == "name" then ByName(d) else ById(d)
  }

  /** The rows the search lets through: all of them for a falsy search, else
      those whose name contains it. */
  function Matching(table: seq<Row>, search: Option<string>): (r: seq<Row>)
    ensures forall x :: x in r <==> x in table && (Truthy(search) ==> Contains(x.user.name, search.value))
  {
    if Truthy(search) then Filter(table, search.value) else table
  }

  /** The `index` action over a table scanned in key order. `None` is the
      query builder's exception for a sort order other than asc/desc. */
  function List(table: seq<Row>, q: IndexRequest): (r: Option<HomeProps>)
    ensures r.Some? <==> Direction(InputOr(q.sortOrder, "asc")).Some?
    ensures r.Some? ==> r.value.sort == SortProps(SortField(q.sortField), InputOr(q.sortOrder, "asc"))
    ensures r.Some? ==> r.value.search == InputOr(q.search, "")
    ensures r.Some? ==> |r.value.users| <= PageSize
  {
    var field := SortField(q.sortField);
    var order := InputOr(q.sortOrder, "asc");
    var search := InputOr(q.search, "");
    var dir := Direction(order);
    if dir.None? then None
    else
      var ordered := Sort(Ordering(field, dir.value), Matching(table, search));
      Some(HomeProps(Page(ordered, CurrentPage(q.page)), SortProps(field, order), search))
  }

  /** The ordered, filtered rows the list page is cut from. */
  function Listed(table: seq<Row>, q: IndexRequest): seq<Row>
    requires Direction(InputOr(q.sortOrder, "asc")).Some?
  {
    Sort(Ordering(SortField(q.sortField), Direction(InputOr(q.sortOrder, "asc")).value),
         Matching(table, InputOr(q.search, "")))
  }

  /** What the list page holds: the rows of the table that pass the search,
      ordered by the effective field and direction, of which the page shows
      positions [(page-1)*10, page*10). */
  lemma ListSpec(table: seq<Row>, q: IndexRequest)
    requires Ascending(table)
    requires Direction(InputOr(q.sortOrder, "asc")).Some?
    ensures var o := Ordering(SortField(q.sortField), Direction(InputOr(q.sortOrder, "asc")).value);
            SortedBy(o, Listed(table, q))
    ensures var search := InputOr(q.search, "");
            forall x :: x in Listed(table, q) <==> x in table && (Truthy(search) ==> Contains(x.user.name, search.value))
    ensures var page, listed := List(table, q).value.users, Listed(table, q);
            var first := (CurrentPage(q.page) - 1) * PageSize;
            (forall i :: 0 <= i < |page| ==> page[i] == listed[first + i])
            && (|page| == PageSize || first + |page| == |listed| || (first >= |listed| && page == []))
  {
    var search := InputOr(q.search, "");
    var m := Matching(table, search);
    AscendingDistinct(table);
    assert DistinctIds(m) by {
      if Truthy(search) {
        FilterSorted(ById(Asc), table, search.value);
        AscendingDistinct(m);
      }
    }
    SortSorted(Ordering(SortField(q.sortField), Direction(InputOr(q.sortOrder, "asc")).value), m);
  }

  /** A sort field outside the allow-list behaves exactly like `id`. */
  lemma SortFieldFallback(table: seq<Row>, q: IndexRequest)
    requires q.sortField != Given("name")
    ensures List(table, q) == List(table, q.(sortField := Given("id")))
  {
  }

  /** Ascending by id is the table's own order: that listing is the filtered
      scan itself. */
  lemma {:induction false} IdAscendingIsScanOrder(table: seq<Row>, q: IndexRequest)
    requires Ascending(table)
    requires q.sortField != Given("name")
    requires Direction(InputOr(q.sortOrder, "asc")) == Some(Asc)
    ensures Listed(table, q) == Matching(table, InputOr(q.search, ""))
  {
    var search := InputOr(q.search, "");
    if Truthy(search) {
      FilterSorted(ById(Asc), table, search.value);
    }
    SortIdentity(ById(Asc), Matching(table, search));
  }

  /** `index`: the list page over the current table. Every row shown is a
      stored record that passes the search. */
  function Index(store: UserStore, q: IndexRequest): (r: Option<HomeProps>)
    reads store
    requires store.Valid()
    ensures r.Some? <==> Direction(InputOr(q.sortOrder, "asc")).Some?
    ensures r.Some? ==> forall x :: x in r.value.users ==>
              x.id in store.users && store.users[x.id] == x.user
              && (Truthy(InputOr(q.search, "")) ==> Contains(x.user.name, InputOr(q.search, "").value))
  {
    var r := List(store.Table(), q);
    if r.Some? then
      PageRowsFromSource(Listed(store.Table(), q), CurrentPage(q.page));
      r
    else r
  }

  /** `edit`: the record to edit, or not-found (this action has no
      try/catch, so the framework answers 404). The list beside the form is
      the first-requested page of the table, with the default sort props. */
  function Edit(store: UserStore, id: nat, page: Option<int>): (r: Response<EditProps>)
    reads store
    requires store.Valid()
    ensures r.outcome == NotFound <==> id !in store.users
    ensures r.outcome != NotFound ==>
              r.outcome == Ok && r.body.Some? && r.body.value.userToEdit == store.users[id]
              && r.body.value.sort == SortProps("id", Some("asc")) && r.body.value.search == Some("")
              && |r.body.value.users| <= PageSize
              && forall x :: x in r.body.value.users ==> x.id in store.users && store.users[x.id] == x.user
    ensures r.outcome == NotFound ==> r.body.None?
  {
    match store.FindOrFail(id)
    case None => Response(NotFound, None)
    case Some(user) =>
      PageRowsFromSource(store.Table(), CurrentPage(page));
      Response(Ok, Some(EditProps(Page(store.Table(), CurrentPage(page)), user, SortProps("id", Some("asc")), Some(""))))
  }

  /** `update`: find, validate, then assign name, ip and comment and, when a
      password is filled in, its digest, and save. */
  method Update(store: UserStore, id: nat, input: Input) returns (outcome: Outcome)
    requires store.Valid()
    modifies store
    ensures store.Valid() && store.nextId == old(store.nextId)
    ensures id !in old(store.users) ==> outcome == Error && store.users == old(store.users)
    ensures id in old(store.users) && UpdateErrors(input) != {} ==>
              outcome == ValidationError(UpdateErrors(input)) && store.users == old(store.users)
    ensures id in old(store.users) && UpdateErrors(input) == {} ==>
              outcome == Ok && id in store.users
              && store.users == old(store.users)[id := store.users[id]]
              && var before, after := old(store.users[id]), store.users[id];
                 after.name == input.name.s
                 && after.ip == ValueOf(input.ip)
                 && after.comment == ValueOf(input.comment)
                 && after.email == before.email
                 && after.password == (if Filled(input.password) then Hash(input.password.s) else before.password)
  {
    var found := store.FindOrFail(id);
    if found.None? {
      return Error;
    }
    var errors := UpdateErrors(input);
    if errors != {} {
      return ValidationError(errors);
    }
    var user := found.value;
    user := user.(name := input.name.s);
    user := user.(ip := ValueOf(input.ip));
    user := user.(comment := ValueOf(input.comment));
    if Filled(input.password) {
      user := user.(password := Hash(input.password.s));
    }
    store.Save(id, user);
    outcome := Ok;
  }

  /** `store`: validate, then create the record with the password's digest. */
  method Store(store: UserStore, input: Input) returns (outcome: Outcome)
    requires store.Valid()
    modifies store
    ensures store.Valid()
    ensures CreateErrors(input, old(store.Emails())) != {} ==>
              outcome == ValidationError(CreateErrors(input, old(store.Emails())))
              && store.users == old(store.users) && store.nextId == old(store.nextId)
    ensures CreateErrors(input, old(store.Emails())) == {} ==>
              outcome == Ok
              && old(store.nextId) !in old(store.users)
              && store.nextId == old(store.nextId) + 1
              && old(store.nextId) in store.users
              && store.users == old(store.users)[old(store.nextId) := store.users[old(store.nextId)]]
              && var created := store.users[old(store.nextId)];
                 created.name == input.name.s
                 && created.email == input.email.s
                 && created.password == Hash(input.password.s)
                 && created.ip == ValueOf(input.ip)
                 && created.comment == ValueOf(input.comment)
  {
    var errors := CreateErrors(input, store.Emails());
    if errors != {} {
      return ValidationError(errors);
    }
    var user := User(input.name.s, input.email.s, Hash(input.password.s), ValueOf(input.ip), ValueOf(input.comment));
    var _ := store.Insert(user);
    outcome := Ok;
  }

  /** `destroy`: find, then delete exactly that record. */
  method Destroy(store: UserStore, id: nat) returns (outcome: Outcome)
    requires store.Valid()
    modifies store
    ensures store.Valid() && store.nextId == old(store.nextId)
    ensures id !in old(store.users) ==> outcome == Error && store.users == old(store.users)
    ensures id in old(store.users) ==> outcome == Ok && store.users == old(store.users) - {id}
  {
    var found := store.FindOrFail(id);
    if found.None? {
      return Error;
    }
    store.Delete(id);
    outcome := Ok;
  }
}
