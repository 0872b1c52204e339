/**
 `sorted(friendly_clients, key=lambda i: i['name'])`: a stable sort of the
 surviving reservations by name. Python's sort is stable, so reservations
 with equal names keep their relative order; the model states stability as
 "for every name, the subsequence of reservations carrying that name is
 unchanged", and proves that sortedness and stability together determine the
 result.
 */
module StableSort {
  import opened ClientTable
  import opened NameOrder

  /** Non-decreasing by name. */
  ghost predicate SortedByName(s: seq<Reservation>)
  {
    forall i, j :: 0 <= i < j < |s| ==> NameLe(s[i].name, s[j].name)
  }

  /** The reservations of `s` whose name is `n`, in their order in `s`. */
  function WithName(s: seq<Reservation>, n: string): (r: seq<Reservation>)
    ensures |r| <= |s|
    ensures forall k :: 0 <= k < |r| ==> r[k].name == n && r[k] in s
  {
    if s == [] then []
    else if s[0].name == n then [s[0]] + WithName(s[1..], n)
    else WithName(s[1..], n)
  }

  lemma {:induction false} WithNameAppend(a: seq<Reservation>, b: seq<Reservation>, n: string)
    ensures WithName(a + b, n) == WithName(a, n) + WithName(b, n)
  {
    if a != [] {
      WithNameAppend(a[1..], b, n);
      assert (a + b)[0] == a[0] && (a + b)[1..] == a[1..] + b;
      var head := if a[0].name == n then [a[0]] else [];
      assert WithName(a + b, n) == head + WithName(a[1..] + b, n);
      assert WithName(a, n) == head + WithName(a[1..], n);
      assert head + (WithName(a[1..], n) + WithName(b, n)) == (head + WithName(a[1..], n)) + WithName(b, n);
    } else {
      assert a + b == b;
    }
  }

  /** Insertion into a sorted sequence, in front of the first name that is
      not smaller, so that `x` precedes the equal names already there. */
  function Insert(x: Reservation, s: seq<Reservation>): (r: seq<Reservation>)
    ensures multiset(r) == multiset(s) + multiset{x}
  {
    if s == [] || NameLe(x.name, s[0].name) then [x] + s
    else
      assert s == [s[0]] + s[1..];
      [s[0]] + Insert(x, s[1..])
  }

  /** Stable insertion sort: the first element is inserted last, in front of
      every later element with the same name. */
  function SortByName(s: seq<Reservation>): (r: seq<Reservation>)
    ensures multiset(r) == multiset(s)
  {
    if s == [] then []
    else
      assert s == [s[0]] + s[1..];
      Insert(s[0], SortByName(s[1..]))
  }

  /** A reservation whose name is at most every name of a sorted sequence
      can go in front of it. */
  lemma PrependSorted(y: Reservation, r: seq<Reservation>)
    requires SortedByName(r)
    requires forall j :: 0 <= j < |r| ==> NameLe(y.name, r[j].name)
    ensures SortedByName([y] + r)
  {
    var yr := [y] + r;
    forall i, j | 0 <= i < j < |yr|
      ensures NameLe(yr[i].name, yr[j].name)
    {
      assert yr[j] == r[j - 1];
      if i > 0 {
        assert yr[i] == r[i - 1];
      }
    }
  }

  lemma InsertMember(x: Reservation, s: seq<Reservation>, y: Reservation)
    requires y in Insert(x, s)
    ensures y == x || y in s
  {
    assert y in multiset(Insert(x, s));
  }

  lemma {:induction false} InsertSorted(x: Reservation, s: seq<Reservation>)
    requires SortedByName(s)
    ensures SortedByName(Insert(x, s))
  {
    if s == [] || NameLe(x.name, s[0].name) {
      forall j | 0 <= j < |s|
        ensures NameLe(x.name, s[j].name)
      {
        if j > 0 {
          NameLeTransitive(x.name, s[0].name, s[j].name);
        }
      }
      PrependSorted(x, s);
    } else {
      NameLeStrict(x.name, s[0].name);
      InsertSorted(x, s[1..]);
      var r := Insert(x, s[1..]);
      forall j | 0 <= j < |r|
        ensures NameLe(s[0].name, r[j].name)
      {
        InsertMember(x, s[1..], r[j]);
        if r[j] != x {
          var k :| 0 <= k < |s[1..]| && s[1..][k] == r[j];
          assert s[k + 1] == r[j];
        }
      }
      PrependSorted(s[0], r);
      assert Insert(x, s) == [s[0]] + r;
    }
  }

  lemma WithNameCons(y: Reservation, r: seq<Reservation>, n: string)
    ensures WithName([y] + r, n) == (if y.name == n then [y] else []) + WithName(r, n)
  {
    assert ([y] + r)[0] == y && ([y] + r)[1..] == r;
  }

  lemma {:induction false} InsertStable(x: Reservation, s: seq<Reservation>, n: string)
    requires SortedByName(s)
    ensures WithName(Insert(x, s), n) == (if x.name == n then [x] else []) + WithName(s, n)
  {
    var front := if x.name == n then [x] else [];
    if s == [] || NameLe(x.name, s[0].name) {
      assert Insert(x, s) == [x] + s;
      WithNameCons(x, s, n);
      assert WithName(Insert(x, s), n) == front + WithName(s, n);
    } else {
      NameLeStrict(x.name, s[0].name);
      InsertStable(x, s[1..], n);
      var rest := Insert(x, s[1..]);
      assert Insert(x, s) == [s[0]] + rest;
      WithNameCons(s[0], rest, n);
      assert WithName(rest, n) == front + WithName(s[1..], n);
      if s[0].name == n {
        assert front == [];
        assert WithName(rest, n) == WithName(s[1..], n);
        assert WithName(s, n) == [s[0]] + WithName(s[1..], n);
        assert WithName(Insert(x, s), n) == [s[0]] + WithName(rest, n);
        assert front + WithName(s, n) == WithName(s, n);
      } else {
        assert WithName(s, n) == WithName(s[1..], n);
        assert WithName(Insert(x, s), n) == WithName(rest, n);
      }
    }
  }

  lemma {:induction false} SortByNameSorted(s: seq<Reservation>)
    ensures SortedByName(SortByName(s))
  {
    if s != [] {
      SortByNameSorted(s[1..]);
      InsertSorted(s[0], SortByName(s[1..]));
    }
  }

  /** The sort is stable: for every name, the reservations carrying it keep
      their relative order. */
  lemma {:induction false} SortByNameStable(s: seq<Reservation>, n: string)
    ensures WithName(SortByName(s), n) == WithName(s, n)
  {
    if s != [] {
      SortByNameSorted(s[1..]);
      SortByNameStable(s[1..], n);
      InsertStable(s[0], SortByName(s[1..]), n);
    }
  }

  /** The first element of a sorted sequence carries a least name. */
  lemma FirstIsLeast(s: seq<Reservation>, x: Reservation)
    requires SortedByName(s) && x in s
    ensures NameLe(s[0].name, x.name)
  {
    var k :| 0 <= k < |s| && s[k] == x;
    if k == 0 {
      NameLeReflexive(x.name);
    }
  }

  lemma WithNameHead(s: seq<Reservation>)
    requires s != []
    ensures WithName(s, s[0].name) == [s[0]] + WithName(s[1..], s[0].name)
  {
  }

  /** Sortedness and stability pin the result down: a sorted sequence that
      keeps every name's subsequence of `s` is the sort of `s`. */
  lemma {:induction false} SortedStableUnique(u: seq<Reservation>, v: seq<Reservation>)
    requires SortedByName(u) && SortedByName(v)
    requires forall n :: WithName(u, n) == WithName(v, n)
    ensures u == v
    decreases |u| + |v|
  {
    if u == [] && v == [] {
    } else if u == [] {
      WithNameHead(v);
    } else if v == [] {
      WithNameHead(u);
    } else {
      var a, b := u[0].name, v[0].name;
      WithNameHead(u);
      WithNameHead(v);
      assert WithName(v, a)[0] in v;
      FirstIsLeast(v, WithName(v, a)[0]);
      assert WithName(u, b)[0] in u;
      FirstIsLeast(u, WithName(u, b)[0]);
      NameLeAntisymmetric(a, b);
      assert u[0] == v[0];
      forall n
        ensures WithName(u[1..], n) == WithName(v[1..], n)
      {
        if n == a {
          assert [u[0]] + WithName(u[1..], n) == [v[0]] + WithName(v[1..], n);
          assert WithName(u[1..], n) == ([u[0]] + WithName(u[1..], n))[1..];
          assert WithName(v[1..], n) == ([v[0]] + WithName(v[1..], n))[1..];
        } else {
          assert WithName(u, n) == WithName(u[1..], n);
          assert WithName(v, n) == WithName(v[1..], n);
        }
      }
      SortedStableUnique(u[1..], v[1..]);
      assert u == [u[0]] + u[1..] && v == [v[0]] + v[1..];
    }
  }

  /** The sort in one statement: `SortByName(s)` is the one sequence that is
      sorted by name and keeps every name's reservations in their order in `s`. */
  lemma SortByNameCharacterized(s: seq<Reservation>, u: seq<Reservation>)
    ensures SortedByName(SortByName(s)) && multiset(SortByName(s)) == multiset(s)
    ensures u == SortByName(s) ==> SortedByName(u) && forall n :: WithName(u, n) == WithName(s, n)
    ensures SortedByName(u) && (forall n :: WithName(u, n) == WithName(s, n)) ==> u == SortByName(s)
  {
    SortByNameSorted(s);
    forall n
      ensures WithName(SortByName(s), n) == WithName(s, n)
    {
      SortByNameStable(s, n);
    }
    if SortedByName(u) && forall n :: WithName(u, n) == WithName(s, n) {
      assert forall n :: WithName(u, n) == WithName(SortByName(s), n);
      SortedStableUnique(u, SortByName(s));
    }
  }
}
