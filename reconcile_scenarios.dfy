/** The reconciliation on small controller responses, for any MACs, names
    and addresses, and one concrete sort by code point. */
module ReconcileScenarios {
  import opened ClientTable
  import opened NameFilter
  import opened NameOrder
  import opened StableSort
  import opened Reconciliation

  /** A `data` object with exactly a MAC, a name and an address field. */
  function Record(mac: Mac, name: string, ipKey: string, ip: string): RawClient
  {
    map[MacKey := mac, NameKey := name, ipKey := ip]
  }

  /** A merge pass over a sequence that starts with such a record writes it
      and goes on with the rest. */
  lemma MergedRecord(t: Table, cs: seq<RawClient>, mac: Mac, name: string, ipKey: string, ip: string)
    requires t.Valid() && ipKey in {FixedIpKey, IpKey}
    requires cs != [] && cs[0] == Record(mac, name, ipKey, ip)
    ensures Merged(t, cs, ipKey) == Merged(t.Put(mac, Reservation(name, ip)), cs[1..], ipKey)
  {
    var c := cs[0];
    assert |MacKey| != |NameKey| && |MacKey| != |ipKey| && |NameKey| != |ipKey|;
    assert Accepted(c, ipKey) && MacKey in c && c[MacKey] == mac;
    assert EntryOf(c, ipKey) == Reservation(name, ip);
  }

  /** An active record for a configured MAC replaces its name and address;
      the result holds it when its new name passes the filter. */
  lemma ActiveReplacesConfigured(mac: Mac, name: string, ip: string, newName: string, newIp: string)
    ensures Reconciled([Record(mac, name, FixedIpKey, ip)], [Record(mac, newName, IpKey, newIp)], true)
         == Ok(if NameMatches(newName) then [Reservation(newName, newIp)] else [])
  {
    var t := MergedSingle(Empty, mac, name, FixedIpKey, ip);
    var u := MergedSingle(t, mac, newName, IpKey, newIp);
    assert u.order == [mac];
    SingleSurvivor(Reservation(newName, newIp), u.Values());
  }

  /** The filter and the sort of a single value. */
  lemma SingleSurvivor(x: Reservation, vs: seq<Reservation>)
    requires vs == [x]
    ensures SortByName(Friendly(vs)) == if NameMatches(x.name) then [x] else []
  {
    assert vs[..0] == [];
  }

  /** A single configured client is reserved under its name and address,
      whatever the address (an empty one included), when its name passes the
      filter, and is dropped, not an error, when it does not. */
  lemma SingleConfiguredClient(mac: Mac, name: string, ip: string, includeActive: bool)
    ensures Reconciled([Record(mac, name, FixedIpKey, ip)], [], includeActive)
         == Ok(if NameMatches(name) then [Reservation(name, ip)] else [])
  {
    var t := MergedSingle(Empty, mac, name, FixedIpKey, ip);
    assert Merged(t, [], IpKey) == Ok(t);
    assert t.order == [mac];
    SingleSurvivor(Reservation(name, ip), t.Values());
  }

  /** Equal names keep the dictionary order, and a MAC overwritten by an
      active record keeps the position of its configured entry. */
  lemma EqualNamesKeepFirstInsertion(m1: Mac, m2: Mac, name: string, ip1: string, ip2: string, ip3: string)
    requires m1 != m2 && NameMatches(name)
    ensures Reconciled([Record(m1, name, FixedIpKey, ip1), Record(m2, name, FixedIpKey, ip2)],
                       [Record(m1, name, IpKey, ip3)], true)
         == Ok([Reservation(name, ip3), Reservation(name, ip2)])
  {
    var u := TwoKeysMerged(m1, m2, name, ip1, ip2, ip3);
    TwoKeysValues(m1, m2, Reservation(name, ip1), Reservation(name, ip2), Reservation(name, ip3), u);
    SameNameFilteredSorted(u.Values());
  }

  /** The table the two passes build: `m1` written, `m2` written, `m1` overwritten. */
  lemma TwoKeysMerged(m1: Mac, m2: Mac, name: string, ip1: string, ip2: string, ip3: string) returns (u: Table)
    ensures u == Empty.Put(m1, Reservation(name, ip1)).Put(m2, Reservation(name, ip2)).Put(m1, Reservation(name, ip3))
    ensures MergedTable([Record(m1, name, FixedIpKey, ip1), Record(m2, name, FixedIpKey, ip2)],
                        [Record(m1, name, IpKey, ip3)], true) == Ok(u)
  {
    var t2 := MergedPair(Empty, m1, name, ip1, m2, name, ip2, FixedIpKey);
    u := MergedSingle(t2, m1, name, IpKey, ip3);
  }

  lemma MergedSingle(t: Table, mac: Mac, name: string, ipKey: string, ip: string) returns (u: Table)
    requires t.Valid() && ipKey in {FixedIpKey, IpKey}
    ensures u == t.Put(mac, Reservation(name, ip))
    ensures Merged(t, [Record(mac, name, ipKey, ip)], ipKey) == Ok(u)
  {
    u := t.Put(mac, Reservation(name, ip));
    var cs := [Record(mac, name, ipKey, ip)];
    MergedRecord(t, cs, mac, name, ipKey, ip);
    assert cs[1..] == [];
  }

  lemma MergedPair(t: Table, mac1: Mac, name1: string, ip1: string, mac2: Mac, name2: string, ip2: string, ipKey: string)
    returns (u: Table)
    requires t.Valid() && ipKey in {FixedIpKey, IpKey}
    ensures u == t.Put(mac1, Reservation(name1, ip1)).Put(mac2, Reservation(name2, ip2))
    ensures Merged(t, [Record(mac1, name1, ipKey, ip1), Record(mac2, name2, ipKey, ip2)], ipKey) == Ok(u)
  {
    var cs := [Record(mac1, name1, ipKey, ip1), Record(mac2, name2, ipKey, ip2)];
    var t1 := t.Put(mac1, Reservation(name1, ip1));
    MergedRecord(t, cs, mac1, name1, ipKey, ip1);
    assert cs[1..] == [Record(mac2, name2, ipKey, ip2)];
    u := MergedSingle(t1, mac2, name2, ipKey, ip2);
  }

  /** Three writes to two distinct keys: the values in first-insertion order. */
  lemma TwoKeysValues(m1: Mac, m2: Mac, r1: Reservation, r2: Reservation, r3: Reservation, u: Table)
    requires m1 != m2 && u == Empty.Put(m1, r1).Put(m2, r2).Put(m1, r3)
    ensures u.Valid() && u.Values() == [r3, r2]
  {
    TwoKeysOrder(m1, m2, r1, r2, r3, u);
    PairValues(u);
  }

  lemma TwoKeysOrder(m1: Mac, m2: Mac, r1: Reservation, r2: Reservation, r3: Reservation, u: Table)
    requires m1 != m2 && u == Empty.Put(m1, r1).Put(m2, r2).Put(m1, r3)
    ensures u.Valid() && u.order == [m1, m2] && u.entries[m1] == r3 && u.entries[m2] == r2
  {
    var t2 := TwoFreshKeys(m1, m2, r1, r2);
    assert m1 in t2.entries;
  }

  lemma TwoFreshKeys(m1: Mac, m2: Mac, r1: Reservation, r2: Reservation) returns (t2: Table)
    requires m1 != m2
    ensures t2 == Empty.Put(m1, r1).Put(m2, r2)
    ensures t2.Valid() && t2.order == [m1, m2]
  {
    var t1 := Empty.Put(m1, r1);
    assert t1.order == [m1];
    assert m2 !in t1.entries;
    t2 := t1.Put(m2, r2);
  }

  lemma PairValues(t: Table)
    requires t.Valid() && |t.order| == 2
    ensures t.Values() == [t.entries[t.order[0]], t.entries[t.order[1]]]
  {
    var vs := t.Values();
    assert |vs| == 2 && vs[0] == t.entries[t.order[0]] && vs[1] == t.entries[t.order[1]];
  }

  /** Two values with the same passing name survive the filter and the sort
      in their order. */
  lemma SameNameFilteredSorted(vs: seq<Reservation>)
    requires |vs| == 2 && vs[0].name == vs[1].name && NameMatches(vs[0].name)
    ensures SortByName(Friendly(vs)) == vs
  {
    PairFriendly(vs);
    NameLeReflexive(vs[0].name);
    PairSorted(vs);
  }

  lemma PairFriendly(vs: seq<Reservation>)
    requires |vs| == 2 && NameMatches(vs[0].name) && NameMatches(vs[1].name)
    ensures Friendly(vs) == vs
  {
    assert vs[..1][..0] == [];
    assert Friendly(vs[..1]) == [vs[0]];
    assert vs[..1] + [vs[1]] == vs;
  }

  lemma PairSorted(vs: seq<Reservation>)
    requires |vs| == 2 && NameLe(vs[0].name, vs[1].name)
    ensures SortByName(vs) == vs
  {
    assert vs[1..][1..] == [];
    assert SortByName(vs[1..]) == [vs[1]];
    assert [vs[0]] + [vs[1]] == vs;
  }

  /** Names sort by code point, upper-case letters before lower-case ones. */
  lemma UpperCaseSortsFirstExample()
    ensures SortByName([Reservation("zeta", "10.0.0.1"), Reservation("alpha", "10.0.0.2"), Reservation("Mid-1", "10.0.0.3")])
         == [Reservation("Mid-1", "10.0.0.3"), Reservation("alpha", "10.0.0.2"), Reservation("zeta", "10.0.0.1")]
  {
    var z, a, m := Reservation("zeta", "10.0.0.1"), Reservation("alpha", "10.0.0.2"), Reservation("Mid-1", "10.0.0.3");
    UpperCaseOrder();
    assert [z, a, m][1..] == [a, m];
    assert [a, m][1..] == [m];
    assert SortByName([m]) == [m];
    assert Insert(a, [m]) == [m, a];
    assert SortByName([a, m]) == [m, a];
    assert Insert(z, [a]) == [a, z];
    assert Insert(z, [m, a]) == [m, a, z];
  }

  lemma UpperCaseOrder()
    ensures NameLe("Mid-1", "alpha") && !NameLe("alpha", "Mid-1")
    ensures !NameLe("zeta", "alpha") && !NameLe("zeta", "Mid-1")
  {
  }
}
