/** The read side of the users table: scanning it in primary-key order, the
    `name like %search%` filter, `orderBy`, and `paginate(10)`. */
module Listing {
  import opened Users

  /** One row of a result set: the primary key and the record. */
  datatype Row = Row(id: nat, user: User)

  datatype Dir = Asc | Desc

  /** A result ordering: `orderBy('id', d)`, `orderBy('name', d)` (ties in
      primary-key order), or `orderBy('id', 'asc')->orderBy('name', d)`. */
  datatype Order = ById(dir: Dir) | ByName(dir: Dir) | ByIdThenName(dir: Dir)

  const PageSize: nat := 10

  // ---------------------------------------------------------------------------
  // Scanning the table

  /** The rows whose key is below `n`, in ascending key order. */
  function Scan(m: map<nat, User>, n: nat): seq<Row>
  {
    if n == 0 then []
    else Scan(m, n - 1) + (if n - 1 in m then [Row(n - 1, m[n - 1])] else [])
  }

  lemma {:induction false} ScanSpec(m: map<nat, User>, n: nat)
    ensures Ascending(Scan(m, n))
    ensures forall r :: r in Scan(m, n) <==> r.id < n && r.id in m && m[r.id] == r.user
  {
    if n > 0 {
      ScanSpec(m, n - 1);
      var s := Scan(m, n - 1);
      var t: seq<Row> := if n - 1 in m then [Row(n - 1, m[n - 1])] else [];
      assert Scan(m, n) == s + t;
      forall i, j | 0 <= i < j < |s + t| ensures Precedes(ById(Asc), (s + t)[i], (s + t)[j]) {
        if j >= |s| {
          assert (s + t)[i] in s;
        }
      }
    }
  }

  // ---------------------------------------------------------------------------
  // Ordering

  /** Code-point lexicographic order on strings, strict. */
  predicate LexLess(a: string, b: string)
    decreases |a|
  {
    if a == [] then b != []
    else if b == [] then false
    else if a[0] == b[0] then LexLess(a[1..], b[1..])
    else a[0] < b[0]
  }

  lemma {:induction false} LexLessIrreflexive(a: string)
    ensures !LexLess(a, a)
  {
    if a != [] {
      LexLessIrreflexive(a[1..]);
    }
  }

  lemma {:induction false} LexLessTransitive(a: string, b: string, c: string)
    requires LexLess(a, b) && LexLess(b, c)
    ensures LexLess(a, c)
    decreases |a|
  {
    if a != [] && b != [] && c != [] && a[0] == b[0] && b[0] == c[0] {
      LexLessTransitive(a[1..], b[1..], c[1..]);
    }
  }

  lemma {:induction false} LexLessTotal(a: string, b: string)
    requires a != b
    ensures LexLess(a, b) || LexLess(b, a)
    decreases |a|
  {
    if a != [] && b != [] && a[0] == b[0] {
      assert a == [a[0]] + a[1..] && b == [b[0]] + b[1..];
      LexLessTotal(a[1..], b[1..]);
    }
  }

  predicate NameBefore(d: Dir, a: string, b: string)
  {
    if d == Asc then LexLess(a, b) else LexLess(b, a)
  }

  /** `a` comes strictly before `b` in ordering `o`. */
  predicate Precedes(o: Order, a: Row, b: Row)
  {
    match o
    case ById(d) => if d == Asc then a.id < b.id else a.id > b.id
    case ByName(d) =>
      if a.user.name == b.user.name then a.id < b.id else NameBefore(d, a.user.name, b.user.name)
    case ByIdThenName(d) =>
      a.id < b.id || (a.id == b.id && NameBefore(d, a.user.name, b.user.name))
  }

  lemma PrecedesTransitive(o: Order, a: Row, b: Row, c: Row)
    requires Precedes(o, a, b) && Precedes(o, b, c)
    ensures Precedes(o, a, c)
  {
    match o
    case ById(_) =>
    case ByName(d) =>
      var x, y, z := a.user.name, b.user.name, c.user.name;
      if x != y && y != z {
        if d == Asc { LexLessTransitive(x, y, z); } else { LexLessTransitive(z, y, x); }
        if x == z {
          if d == Asc { LexLessIrreflexive(x); } else { LexLessIrreflexive(z); }
        }
      }
    case ByIdThenName(d) =>
      if a.id == b.id == c.id {
        var x, y, z := a.user.name, b.user.name, c.user.name;
        if d == Asc { LexLessTransitive(x, y, z); } else { LexLessTransitive(z, y, x); }
      }
  }

  lemma PrecedesTotal(o: Order, a: Row, b: Row)
    requires a.id != b.id
    ensures Precedes(o, a, b) || Precedes(o, b, a)
  {
    if o.ByName? && a.user.name != b.user.name {
      LexLessTotal(a.user.name, b.user.name);
    }
  }

  /** Every earlier row strictly precedes every later one. */
  predicate SortedBy(o: Order, s: seq<Row>)
  {
    forall i, j :: 0 <= i < j < |s| ==> Precedes(o, s[i], s[j])
  }

  /** Strictly ascending primary keys: the order of a table scan. */
  predicate Ascending(s: seq<Row>)
  {
    SortedBy(ById(Asc), s)
  }

  predicate DistinctIds(s: seq<Row>)
  {
    forall i, j :: 0 <= i < j < |s| ==> s[i].id != s[j].id
  }

  function Insert(o: Order, x: Row, s: seq<Row>): (r: seq<Row>)
    ensures multiset(r) == multiset(s) + multiset{x}
  {
    if s == [] || Precedes(o, x, s[0]) then [x] + s
    else
      assert s == [s[0]] + s[1..];
      [s[0]] + Insert(o, x, s[1..])
  }

  /** Insertion sort: the rows of `s` rearranged into ordering `o`. */
  function Sort(o: Order, s: seq<Row>): (r: seq<Row>)
    ensures multiset(r) == multiset(s)
    ensures |r| == |s|
    ensures forall x :: x in r <==> x in s
  {
    if s == [] then []
    else
      assert s == [s[0]] + s[1..];
      var r := Insert(o, s[0], Sort(o, s[1..]));
      assert forall x :: x in r <==> x in multiset(r);
      r
  }

  lemma {:induction false} InsertSorted(o: Order, x: Row, s: seq<Row>)
    requires SortedBy(o, s)
    requires forall y :: y in s ==> y.id != x.id
    ensures SortedBy(o, Insert(o, x, s))
  {
    if s == [] {
    } else if Precedes(o, x, s[0]) {
      var r := [x] + s;
      forall i, j | 0 <= i < j < |r| ensures Precedes(o, r[i], r[j]) {
        if i == 0 && j > 1 {
          PrecedesTransitive(o, x, s[0], s[j - 1]);
        }
      }
    } else {
      PrecedesTotal(o, x, s[0]);
      var t := Insert(o, x, s[1..]);
      InsertSorted(o, x, s[1..]);
      forall k | 0 <= k < |t| ensures Precedes(o, s[0], t[k]) {
        assert t[k] in multiset(t);
        if t[k] != x {
          assert t[k] in multiset(s[1..]);
          var j :| 0 <= j < |s[1..]| && s[1..][j] == t[k];
          assert s[j + 1] == t[k];
        }
      }
      var r := [s[0]] + t;
      forall i, j | 0 <= i < j < |r| ensures Precedes(o, r[i], r[j]) {
        if i == 0 {
          assert r[j] == t[j - 1];
        } else {
          assert r[i] == t[i - 1] && r[j] == t[j - 1];
        }
      }
    }
  }

  /** Sorting rows with distinct keys yields a sequence ordered by `o`. */
  lemma {:induction false} SortSorted(o: Order, s: seq<Row>)
    requires DistinctIds(s)
    ensures SortedBy(o, Sort(o, s))
  {
    if s != [] {
      var t := Sort(o, s[1..]);
      SortSorted(o, s[1..]);
      forall y | y in t ensures y.id != s[0].id {
        assert y in multiset(s[1..]);
        var j :| 0 <= j < |s[1..]| && s[1..][j] == y;
        assert s[j + 1] == y;
      }
      InsertSorted(o, s[0], t);
    }
  }

  /** Sorting what is already in order changes nothing. */
  lemma {:induction false} SortIdentity(o: Order, s: seq<Row>)
    requires SortedBy(o, s)
    ensures Sort(o, s) == s
  {
    if s != [] {
      SortIdentity(o, s[1..]);
      assert s == [s[0]] + s[1..];
    }
  }

  /** Rows with distinct keys are in one ordering `ByIdThenName(d)` exactly
      when they are in primary-key order: with unique ids the name never
      decides. */
  lemma IdThenNameIsById(d: Dir, s: seq<Row>)
    requires DistinctIds(s)
    ensures SortedBy(ByIdThenName(d), s) <==> Ascending(s)
  {
  }

  lemma AscendingDistinct(s: seq<Row>)
    requires Ascending(s)
    ensures DistinctIds(s)
  {
  }

  // ---------------------------------------------------------------------------
  // Filtering

  predicate OccursAt(haystack: string, needle: string, i: int)
  {
    0 <= i && i + |needle| <= |haystack| && haystack[i..i + |needle|] == needle
  }

  /** `haystack like '%needle%'`, read as plain substring containment. */
  predicate Contains(haystack: string, needle: string)
  {
    exists i :: 0 <= i <= |haystack| && OccursAt(haystack, needle, i)
  }

  /** `where('name', 'like', '%' . search . '%')`: the rows whose name
      contains `search`, in their original order. */
  function Filter(s: seq<Row>, search: string): (r: seq<Row>)
    ensures |r| <= |s|
    ensures forall x :: x in r <==> x in s && Contains(x.user.name, search)
  {
    if s == [] then []
    else
      var rest := Filter(s[1..], search);
      assert forall x :: x in s <==> x == s[0] || x in s[1..];
      if Contains(s[0].user.name, search) then [s[0]] + rest else rest
  }

  /** Filtering keeps the relative order of the rows it keeps. */
  lemma {:induction false} FilterSorted(o: Order, s: seq<Row>, search: string)
    requires SortedBy(o, s)
    ensures SortedBy(o, Filter(s, search))
  {
    if s != [] {
      FilterSorted(o, s[1..], search);
      var rest := Filter(s[1..], search);
      if Contains(s[0].user.name, search) {
        forall k | 0 <= k < |rest| ensures Precedes(o, s[0], rest[k]) {
          assert rest[k] in s[1..];
        }
        var r := [s[0]] + rest;
        forall i, j | 0 <= i < j < |r| ensures Precedes(o, r[i], r[j]) {
          if i > 0 {
            assert r[i] == rest[i - 1] && r[j] == rest[j - 1];
          } else {
            assert r[j] == rest[j - 1];
          }
        }
      }
    }
  }

  // ---------------------------------------------------------------------------
  // Pagination

  /** The paginator's current page: a page number of at least 1, else 1. */
  function CurrentPage(requested: Option<int>): (p: nat)
    ensures p >= 1
    ensures requested.Some? && requested.value >= 1 ==> p == requested.value
    ensures !(requested.Some? && requested.value >= 1) ==> p == 1
  {
    if requested.Some? && requested.value >= 1 then requested.value else 1
  }

  /** Page `p` of `s`: the rows at positions [(p-1)*10, p*10). */
  function Page(s: seq<Row>, p: nat): (r: seq<Row>)
    requires p >= 1
    ensures |r| <= PageSize
    ensures |r| == if (p - 1) * PageSize >= |s| then 0
                   else if p * PageSize <= |s| then PageSize
                   else |s| - (p - 1) * PageSize
    ensures forall i :: 0 <= i < |r| ==> r[i] == s[(p - 1) * PageSize + i]
  {
    var lo := (p - 1) * PageSize;
    if lo >= |s| then []
    else if lo + PageSize <= |s| then s[lo..lo + PageSize]
    else s[lo..]
  }

  /** Every row of a page is a row of what was paginated. */
  lemma PageRowsFromSource(s: seq<Row>, p: nat)
    requires p >= 1
    ensures forall x :: x in Page(s, p) ==> x in s
  {
    var r := Page(s, p);
    forall x | x in r ensures x in s {
      var i :| 0 <= i < |r| && r[i] == x;
      assert s[(p - 1) * PageSize + i] == x;
    }
  }

  // ---------------------------------------------------------------------------
  // Sort direction

  function LowerChar(c: char): char
  {
    if 'A' <= c <= 'Z' then (c as int + 32) as char else c
  }

  /** `strtolower` on ASCII. */
  function Lower(s: string): (r: string)
    ensures |r| == |s|
    ensures forall i :: 0 <= i < |s| ==> r[i] == LowerChar(s[i])
  {
    seq(|s|, i requires 0 <= i < |s| => LowerChar(s[i]))
  }

  /** The query builder's direction check: the direction is lower-cased and
      must then be `asc` or `desc`; anything else, including null, is
      rejected with an exception. */
  function Direction(order: Option<string>): (d: Option<Dir>)
    ensures d == Some(Asc) <==> order.Some? && Lower(order.value) == "asc"
    ensures d == Some(Desc) <==> order.Some? && Lower(order.value) == "desc"
  {
    if order.None? then None
    else if Lower(order.value) == "asc" then Some(Asc)
    else if Lower(order.value) == "desc" then Some(Desc)
    else None
  }

  /** Lower-casing is idempotent. */
  lemma LowerIdempotent(s: string)
    ensures Lower(Lower(s)) == Lower(s)
  {
  }

  /** The direction check does not see letter case: a direction and its
      lower-cased spelling are accepted or rejected alike. */
  lemma DirectionIgnoresCase(s: string)
    ensures Direction(Some(s)) == Direction(Some(Lower(s)))
  {
    LowerIdempotent(s);
  }
}
