/** A client of both adapters, reasoning only from their contracts: create a
    user, fail to create a second one with the same e-mail, find the first
    by a search, update it without a password, delete it, and no longer find
    it. */
module Walkthrough {
  import opened Users
  import opened Validation
  import opened Listing
  import opened UserTable
  import Web = WebUserController
  import Api = ApiUserController

  const AliceInput := Input(Given("Alice"), Given("a@x.com"), Given("secret1"), Missing, Missing)
  const BobInput := Input(Given("Bob"), Given("a@x.com"), Given("secret2"), Missing, Missing)
  const RenameInput := Input(Given("Alicia"), Missing, Missing, Given("10.0.0.1"), Missing)

  lemma AliceInputValid()
    ensures CreateErrors(AliceInput, {}) == {}
  {
    var e := "a@x.com";
    assert e[..1] == "a" && e[2..] == "x.com";
    assert IsEmail(e);
    assert !Blank("Alice") && !Blank("a@x.com") && !Blank("secret1") by {
      assert !IsTrimmed("Alice"[0]) && !IsTrimmed("a@x.com"[0]) && !IsTrimmed("secret1"[0]);
    }
  }

  lemma RenameInputValid()
    ensures UpdateErrors(RenameInput) == {}
  {
    var ip := "10.0.0.1";
    assert ip[..2] == "10" && ip[2 + 1..4] == "0" && ip[4 + 1..6] == "0" && ip[6 + 1..] == "1";
    assert DecimalValue("10") == 10;
    assert IsOctet(ip[..2]);
    assert IsOctet(ip[2 + 1..4]);
    assert IsOctet(ip[4 + 1..6]);
    assert IsOctet(ip[6 + 1..]);
    assert ip[2] == '.' && ip[4] == '.' && ip[6] == '.';
    assert IsIPv4(ip);
    assert !Blank("Alicia") by {
      assert !IsTrimmed("Alicia"[0]);
    }
  }

  const Alice := User("Alice", "a@x.com", Hash("secret1"), None, None)

  lemma TableOfOne(store: UserStore)
    requires store.Valid() && store.users == map[1 := Alice] && store.nextId == 2
    ensures store.Table() == [Row(1, Alice)]
  {
    assert Scan(store.users, 1) == [];
  }

  lemma SearchFindsAlice(q: Web.IndexRequest)
    requires q == Web.IndexRequest(None, Missing, Missing, Given("Ali"))
    ensures Web.List([Row(1, Alice)], q).Some?
    ensures Web.List([Row(1, Alice)], q).value.users == [Row(1, Alice)]
  {
    assert Direction(Some("asc")) == Some(Asc);
    assert OccursAt("Alice", "Ali", 0);
    var m := Web.Matching([Row(1, Alice)], Some("Ali"));
    assert m == [Row(1, Alice)];
    assert Web.Listed([Row(1, Alice)], q) == [Row(1, Alice)];
  }

  method Scenario() returns (created: Outcome, duplicate: Outcome, afterDuplicate: map<nat, User>,
                             found: seq<Row>, updated: Outcome, renamed: User,
                             removed: Outcome, lookup: Outcome)
    ensures created == Ok
    ensures duplicate.ValidationError? && Email in duplicate.fields
    ensures afterDuplicate == map[1 := User("Alice", "a@x.com", Hash("secret1"), None, None)]
    ensures found == [Row(1, User("Alice", "a@x.com", Hash("secret1"), None, None))]
    ensures updated == Ok
    ensures renamed == User("Alicia", "a@x.com", Hash("secret1"), Some("10.0.0.1"), None)
    ensures removed == Ok
    ensures lookup == NotFound
  {
    var store := new UserStore();
    AliceInputValid();
    created := Web.Store(store, AliceInput);
    assert store.users == map[1 := Alice];

    assert store.users[1].email in store.Emails();
    duplicate := Web.Store(store, BobInput);
    afterDuplicate := store.users;

    var q := Web.IndexRequest(None, Missing, Missing, Given("Ali"));
    TableOfOne(store);
    SearchFindsAlice(q);
    found := Web.Index(store, q).value.users;

    RenameInputValid();
    updated := Web.Update(store, 1, RenameInput);
    renamed := store.users[1];

    removed := Web.Destroy(store, 1);
    lookup := Api.Show(store, 1).outcome;
  }
}
