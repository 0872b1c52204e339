/**
 The reconciliation inside `get_clients` (get_unifi_reservations.py): the
 configured clients and then, unless FIXED_ONLY is set, the active clients are
 written into a dictionary keyed by MAC; the values whose name passes the name
 filter are collected in the dictionary's order and sorted stably by name.

 The two client lists are the `data` arrays the controller returned; fetching
 them, logging in and reading the environment are the caller's job.
 */
module Reconciliation {
  import opened ClientTable
  import opened NameFilter
  import opened StableSort

  /** A client object of a `data` array: its keys and their string values.
      The reconciliation only ever asks whether a key is present. */
  type RawClient = map<string, string>

  const NameKey: string := "name"
  const MacKey: string := "mac"
  /** The reserved address of a configured client. */
  const FixedIpKey: string := "fixed_ip"
  /** The current address of an active client. */
  const IpKey: string := "ip"

  datatype Option<T> = None | Some(value: T)

  /** The one exception the reconciliation itself raises: `c['mac']` on a
      record that passed the field check but has no `mac` key (a KeyError). */
  datatype Error = MissingMac

  datatype Result<T> = Ok(value: T) | Err(error: Error)

  /** `fixed_only is False`. FIXED_ONLY is read as a raw string whose default
      is the value False, so active clients are merged only when the variable
      is unset; any value it is set to, even "false", turns merging off. */
  function ActiveMergingEnabled(fixedOnly: Option<string>): bool
  {
    fixedOnly.None?
  }

  /** The field check of a merge pass: both keys are present (their values
      may be empty). */
  predicate Accepted(c: RawClient, ipKey: string)
  {
    NameKey in c && ipKey in c
  }

  /** The value an accepted record writes. */
  function EntryOf(c: RawClient, ipKey: string): Reservation
    requires Accepted(c, ipKey)
  {
    Reservation(c[NameKey], c[ipKey])
  }

  /** The record writes to the dictionary under `mac`. */
  predicate Writes(c: RawClient, ipKey: string, mac: Mac)
  {
    Accepted(c, ipKey) && MacKey in c && c[MacKey] == mac
  }

  /** One iteration of a merge loop. */
  function Step(t: Table, c: RawClient, ipKey: string): (r: Result<Table>)
    requires t.Valid()
    ensures r.Ok? ==> r.value.Valid() && |t.order| <= |r.value.order| && r.value.order[..|t.order|] == t.order
  {
    if !Accepted(c, ipKey) then Ok(t)
    else if MacKey !in c then Err(MissingMac)
    else Ok(t.Put(c[MacKey], EntryOf(c, ipKey)))
  }

  /** A merge loop over `cs`, starting from the dictionary `t`; the first
      KeyError ends it. */
  function Merged(t: Table, cs: seq<RawClient>, ipKey: string): (r: Result<Table>)
    requires t.Valid()
    ensures r.Ok? ==> r.value.Valid() && |t.order| <= |r.value.order| && r.value.order[..|t.order|] == t.order
    decreases |cs|
  {
    if cs == [] then Ok(t)
    else
      match Step(t, cs[0], ipKey)
      case Err(e) => Err(e)
      case Ok(t1) => Merged(t1, cs[1..], ipKey)
  }

  /** The `clients` dictionary after both merge passes. */
  function MergedTable(configured: seq<RawClient>, active: seq<RawClient>, includeActive: bool): (r: Result<Table>)
    ensures r.Ok? ==> r.value.Valid()
  {
    match Merged(Empty, configured, FixedIpKey)
    case Err(e) => Err(e)
    case Ok(t) => if includeActive then Merged(t, active, IpKey) else Ok(t)
  }

  /** `friendly_clients`: the values whose name passes the filter, in order. */
  function Friendly(vs: seq<Reservation>): (r: seq<Reservation>)
    ensures |r| <= |vs|
    ensures forall k :: 0 <= k < |r| ==> NameMatches(r[k].name)
  {
    if vs == [] then []
    else
      var last := vs[|vs| - 1];
      Friendly(vs[..|vs| - 1]) + if NameMatches(last.name) then [last] else []
  }

  /** Every value whose name passes occurs in `friendly_clients` exactly as
      often as among the dictionary's values; every other value is dropped. */
  lemma {:induction false} FriendlyCounts(vs: seq<Reservation>, x: Reservation)
    ensures multiset(Friendly(vs))[x] == if NameMatches(x.name) then multiset(vs)[x] else 0
  {
    if vs != [] {
      FriendlyCounts(vs[..|vs| - 1], x);
      assert vs == vs[..|vs| - 1] + [vs[|vs| - 1]];
    }
  }

  /** Filtering by name keeps or drops a name's values all together, so the
      values sharing a passing name keep their dictionary order. */
  lemma {:induction false} FriendlyPerName(vs: seq<Reservation>, n: string)
    ensures WithName(Friendly(vs), n) == if NameMatches(n) then WithName(vs, n) else []
  {
    if vs != [] {
      var init, last := vs[..|vs| - 1], vs[|vs| - 1];
      var kept := if NameMatches(last.name) then [last] else [];
      FriendlyPerName(init, n);
      assert vs == init + [last];
      WithNameAppend(init, [last], n);
      assert Friendly(vs) == Friendly(init) + kept;
      WithNameAppend(Friendly(init), kept, n);
      var single := if last.name == n then [last] else [];
      assert WithName([last], n) == single;
      assert WithName(kept, n) == if NameMatches(n) then single else [];
    }
  }

  /** What `get_clients` returns for the two fetched lists. */
  function Reconciled(configured: seq<RawClient>, active: seq<RawClient>, includeActive: bool): Result<seq<Reservation>>
  {
    match MergedTable(configured, active, includeActive)
    case Err(e) => Err(e)
    case Ok(t) => Ok(SortByName(Friendly(t.Values())))
  }

  /** One merge loop, writing into the dictionary in place: a later record
      for the same MAC overwrites the value, a new MAC is appended to the
      iteration order. */
  method Merge(t0: Table, cs: seq<RawClient>, ipKey: string) returns (r: Result<Table>)
    requires t0.Valid()
    ensures r == Merged(t0, cs, ipKey)
  {
    var entries, order := t0.entries, t0.order;
    for i := 0 to |cs|
      invariant Table(entries, order).Valid()
      invariant Merged(t0, cs, ipKey) == Merged(Table(entries, order), cs[i..], ipKey)
    {
      var c := cs[i];
      assert cs[i..] == [c] + cs[i + 1..];
      if NameKey in c && ipKey in c {
        if MacKey !in c {
          return Err(MissingMac);
        }
        var mac := c[MacKey];
        if mac !in entries {
          order := order + [mac];
        }
        entries := entries[mac := Reservation(c[NameKey], c[ipKey])];
      }
    }
    assert cs[|cs|..] == [];
    return Ok(Table(entries, order));
  }

  /** The filter loop: the values whose name passes are appended to
      `friendly_clients`; the others are skipped (logged, never raised). */
  method KeepFriendly(values: seq<Reservation>) returns (friendly: seq<Reservation>)
    ensures friendly == Friendly(values)
  {
    friendly := [];
    for i := 0 to |values|
      invariant friendly == Friendly(values[..i])
    {
      var client := values[i];
      assert values[..i + 1][..i] == values[..i];
      if NameMatches(client.name) {
        friendly := friendly + [client];
      }
    }
    assert values[..|values|] == values;
  }

  /** The reconciliation body of `get_clients`. */
  method Reconcile(configured: seq<RawClient>, active: seq<RawClient>, includeActive: bool)
    returns (r: Result<seq<Reservation>>)
    ensures r == Reconciled(configured, active, includeActive)
    ensures r.Ok? ==> SortedByName(r.value)
    ensures r.Ok? ==> forall k :: 0 <= k < |r.value| ==> NameMatches(r.value[k].name)
  {
    var clients := Merge(Empty, configured, FixedIpKey);
    if clients.Err? {
      return Err(clients.error);
    }
    if includeActive {
      clients := Merge(clients.value, active, IpKey);
      if clients.Err? {
        return Err(clients.error);
      }
    }
    var friendly := KeepFriendly(clients.value.Values());
    SortByNameSorted(friendly);
    var sorted := SortByName(friendly);
    forall k | 0 <= k < |sorted|
      ensures NameMatches(sorted[k].name)
    {
      assert sorted[k] in multiset(friendly);
    }
    return Ok(sorted);
  }
}
