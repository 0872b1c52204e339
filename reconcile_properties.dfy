/**
 What the reconciliation guarantees, stated against independent descriptions
 of its inputs: which record writes a MAC last, which writes it first, which
 records would raise, and which names pass the filter.
 */
module ReconcileProperties {
  import opened ClientTable
  import opened NameFilter
  import opened StableSort
  import opened Reconciliation

  /** Record `i` passes the field check but has no `mac` key. */
  ghost predicate MissingMacAt(cs: seq<RawClient>, ipKey: string, i: int)
  {
    0 <= i < |cs| && Accepted(cs[i], ipKey) && MacKey !in cs[i]
  }

  /** Some record of `cs` writes to `mac`. */
  ghost predicate WrittenBy(cs: seq<RawClient>, ipKey: string, mac: Mac)
  {
    exists i :: 0 <= i < |cs| && Writes(cs[i], ipKey, mac)
  }

  /** Record `i` is the last record of `cs` that writes to `mac`. */
  ghost predicate LastWrite(cs: seq<RawClient>, ipKey: string, mac: Mac, i: int)
  {
    0 <= i < |cs| && Writes(cs[i], ipKey, mac) && forall j :: i < j < |cs| ==> !Writes(cs[j], ipKey, mac)
  }

  /** The index of the first record of `cs` that writes to `mac`, or `|cs|`. */
  function FirstWrite(cs: seq<RawClient>, ipKey: string, mac: Mac): (r: nat)
    ensures r <= |cs|
    ensures r < |cs| ==> Writes(cs[r], ipKey, mac)
    ensures forall j :: 0 <= j < r ==> !Writes(cs[j], ipKey, mac)
  {
    if cs == [] then 0
    else if Writes(cs[0], ipKey, mac) then 0
    else 1 + FirstWrite(cs[1..], ipKey, mac)
  }

  /** The MACs the accepted records of `cs` carry. */
  ghost function AcceptedMacs(cs: seq<RawClient>, ipKey: string): set<Mac>
  {
    set i | 0 <= i < |cs| && Accepted(cs[i], ipKey) && MacKey in cs[i] :: cs[i][MacKey]
  }

  lemma WrittenByCons(cs: seq<RawClient>, ipKey: string, mac: Mac)
    requires cs != []
    ensures WrittenBy(cs, ipKey, mac) <==> Writes(cs[0], ipKey, mac) || WrittenBy(cs[1..], ipKey, mac)
  {
    if WrittenBy(cs, ipKey, mac) && !Writes(cs[0], ipKey, mac) {
      var i :| 0 <= i < |cs| && Writes(cs[i], ipKey, mac);
      assert cs[1..][i - 1] == cs[i];
    }
    if WrittenBy(cs[1..], ipKey, mac) {
      var i :| 0 <= i < |cs[1..]| && Writes(cs[1..][i], ipKey, mac);
      assert cs[i + 1] == cs[1..][i];
    }
  }

  lemma LastWriteCons(cs: seq<RawClient>, ipKey: string, mac: Mac, i: int)
    requires cs != []
    ensures 0 < i ==> (LastWrite(cs, ipKey, mac, i) <==> LastWrite(cs[1..], ipKey, mac, i - 1))
    ensures LastWrite(cs, ipKey, mac, 0) <==> Writes(cs[0], ipKey, mac) && !WrittenBy(cs[1..], ipKey, mac)
  {
    if 0 < i && LastWrite(cs[1..], ipKey, mac, i - 1) {
      forall j | i < j < |cs|
        ensures !Writes(cs[j], ipKey, mac)
      {
        assert cs[j] == cs[1..][j - 1];
      }
    }
    if Writes(cs[0], ipKey, mac) && !WrittenBy(cs[1..], ipKey, mac) {
      forall j | 0 < j < |cs|
        ensures !Writes(cs[j], ipKey, mac)
      {
        assert cs[j] == cs[1..][j - 1];
      }
    }
  }

  /** A merge pass raises exactly when one of its records passes the field
      check without a `mac` key. */
  lemma {:induction false} MergedFailsIffMacMissing(t: Table, cs: seq<RawClient>, ipKey: string)
    requires t.Valid()
    ensures Merged(t, cs, ipKey).Err? <==> exists i :: MissingMacAt(cs, ipKey, i)
    decreases |cs|
  {
    if cs != [] {
      match Step(t, cs[0], ipKey)
      case Err(_) =>
        assert MissingMacAt(cs, ipKey, 0);
      case Ok(t1) =>
        MergedFailsIffMacMissing(t1, cs[1..], ipKey);
        assert !MissingMacAt(cs, ipKey, 0);
        forall i | MissingMacAt(cs[1..], ipKey, i)
          ensures MissingMacAt(cs, ipKey, i + 1)
        {
          assert cs[1..][i] == cs[i + 1];
        }
        forall i | MissingMacAt(cs, ipKey, i)
          ensures MissingMacAt(cs[1..], ipKey, i - 1)
        {
          assert cs[1..][i - 1] == cs[i];
        }
    }
  }

  /** Last writer wins: after a merge pass the dictionary holds exactly the
      old keys and the MACs written, each written MAC maps to the value of the
      last record that wrote it, and the other keys are untouched. Records
      missing a field write nothing. */
  lemma {:induction false} MergedLastWriterWins(t: Table, cs: seq<RawClient>, ipKey: string, u: Table)
    requires t.Valid() && Merged(t, cs, ipKey) == Ok(u)
    ensures forall mac :: mac in u.entries <==> mac in t.entries || WrittenBy(cs, ipKey, mac)
    ensures forall mac, i :: LastWrite(cs, ipKey, mac, i) ==> mac in u.entries && u.entries[mac] == EntryOf(cs[i], ipKey)
    ensures forall mac :: mac in t.entries && !WrittenBy(cs, ipKey, mac) ==> u.entries[mac] == t.entries[mac]
    decreases |cs|
  {
    if cs == [] {
      assert u == t;
    } else {
      var c := cs[0];
      assert Step(t, c, ipKey).Ok?;
      var t1 := Step(t, c, ipKey).value;
      assert Merged(t1, cs[1..], ipKey) == Ok(u);
      MergedLastWriterWins(t1, cs[1..], ipKey, u);
      forall mac
        ensures mac in u.entries <==> mac in t.entries || WrittenBy(cs, ipKey, mac)
        ensures mac in t.entries && !WrittenBy(cs, ipKey, mac) ==> u.entries[mac] == t.entries[mac]
      {
        WrittenByCons(cs, ipKey, mac);
      }
      forall mac, i | LastWrite(cs, ipKey, mac, i)
        ensures mac in u.entries && u.entries[mac] == EntryOf(cs[i], ipKey)
      {
        LastWriteCons(cs, ipKey, mac, i);
        if i > 0 {
          assert cs[1..][i - 1] == cs[i];
        }
      }
    }
  }

  /** Running a merge pass over `a + b` is running it over `a` and then,
      unless that raised, over `b`. */
  lemma {:induction false} MergedConcat(t: Table, a: seq<RawClient>, b: seq<RawClient>, ipKey: string)
    requires t.Valid()
    ensures Merged(t, a + b, ipKey) == match Merged(t, a, ipKey)
                                       case Err(e) => Err(e)
                                       case Ok(t1) => Merged(t1, b, ipKey)
    decreases |a|
  {
    if a == [] {
      assert a + b == b;
    } else {
      assert (a + b)[0] == a[0] && (a + b)[1..] == a[1..] + b;
      match Step(t, a[0], ipKey)
      case Err(_) =>
      case Ok(t1) =>
        MergedConcat(t1, a[1..], b, ipKey);
    }
  }

  /** A record without the `name` key or without the address key is skipped:
      the pass ends exactly as it would without that record. */
  lemma RecordMissingFieldSkipped(t: Table, cs: seq<RawClient>, ipKey: string, i: int)
    requires t.Valid() && 0 <= i < |cs| && !Accepted(cs[i], ipKey)
    ensures Merged(t, cs, ipKey) == Merged(t, cs[..i] + cs[i + 1..], ipKey)
  {
    var rest := [cs[i]] + cs[i + 1..];
    assert cs == cs[..i] + rest;
    MergedConcat(t, cs[..i], rest, ipKey);
    MergedConcat(t, cs[..i], cs[i + 1..], ipKey);
    assert rest[1..] == cs[i + 1..];
  }

  /** One loop iteration adds the MAC it writes to the keys, at the end of
      the order when the MAC is new and nowhere else. */
  lemma StepEffect(t: Table, c: RawClient, ipKey: string, t1: Table)
    requires t.Valid() && Step(t, c, ipKey) == Ok(t1)
    ensures forall m :: m in t1.entries <==> m in t.entries || Writes(c, ipKey, m)
    ensures t1.order == t.order || (Writes(c, ipKey, c[MacKey]) && c[MacKey] !in t.entries && t1.order == t.order + [c[MacKey]])
  {
  }

  /** The keys a merge pass appends are new keys that some record writes. */
  lemma {:induction false} MergedAppendsNewKeys(t: Table, cs: seq<RawClient>, ipKey: string, u: Table)
    requires t.Valid() && Merged(t, cs, ipKey) == Ok(u)
    ensures |t.order| <= |u.order| && u.order[..|t.order|] == t.order
    ensures forall i :: |t.order| <= i < |u.order| ==> u.order[i] !in t.entries && FirstWrite(cs, ipKey, u.order[i]) < |cs|
    decreases |cs|
  {
    if cs == [] {
      assert u == t;
    } else {
      var c := cs[0];
      assert Step(t, c, ipKey).Ok?;
      var t1 := Step(t, c, ipKey).value;
      assert Merged(t1, cs[1..], ipKey) == Ok(u);
      StepEffect(t, c, ipKey, t1);
      MergedAppendsNewKeys(t1, cs[1..], ipKey, u);
      var p, p1 := |t.order|, |t1.order|;
      assert u.order[..p] == t.order by {
        assert u.order[..p] == u.order[..p1][..p];
      }
      forall i | p <= i < |u.order|
        ensures u.order[i] !in t.entries && FirstWrite(cs, ipKey, u.order[i]) < |cs|
      {
        var mac := u.order[i];
        if i < p1 {
          assert mac == t1.order[i] == c[MacKey];
          assert Writes(c, ipKey, mac);
        } else {
          assert mac !in t1.entries && FirstWrite(cs[1..], ipKey, mac) < |cs| - 1;
          assert FirstWrite(cs, ipKey, mac) <= 1 + FirstWrite(cs[1..], ipKey, mac);
        }
      }
    }
  }

  /** A key keeps the position of its first insertion: the old order is a
      prefix of the new one, and the MACs appended after it are new keys,
      each written by some record, in the order of their first writes. */
  lemma {:induction false} MergedKeepsFirstPosition(t: Table, cs: seq<RawClient>, ipKey: string, u: Table)
    requires t.Valid() && Merged(t, cs, ipKey) == Ok(u)
    ensures |t.order| <= |u.order| && u.order[..|t.order|] == t.order
    ensures forall i :: |t.order| <= i < |u.order| ==> u.order[i] !in t.entries && FirstWrite(cs, ipKey, u.order[i]) < |cs|
    ensures forall i, j :: |t.order| <= i < j < |u.order| ==>
      FirstWrite(cs, ipKey, u.order[i]) < FirstWrite(cs, ipKey, u.order[j])
    decreases |cs|
  {
    MergedAppendsNewKeys(t, cs, ipKey, u);
    if cs != [] {
      var c := cs[0];
      assert Step(t, c, ipKey).Ok?;
      var t1 := Step(t, c, ipKey).value;
      assert Merged(t1, cs[1..], ipKey) == Ok(u);
      StepEffect(t, c, ipKey, t1);
      MergedKeepsFirstPosition(t1, cs[1..], ipKey, u);
      var p, p1 := |t.order|, |t1.order|;
      forall i, j | p <= i < j < |u.order|
        ensures FirstWrite(cs, ipKey, u.order[i]) < FirstWrite(cs, ipKey, u.order[j])
      {
        assert p1 <= j && u.order[j] !in t1.entries;
        if i < p1 {
          assert u.order[i] == t1.order[i] == c[MacKey];
        } else {
          assert u.order[i] !in t1.entries;
        }
      }
    }
  }

  /** The reconciliation raises exactly when a configured record, or an active
      record while active merging is on, passes its field check without a
      `mac` key. */
  lemma ReconciledFailsIffMacMissing(configured: seq<RawClient>, active: seq<RawClient>, includeActive: bool)
    ensures Reconciled(configured, active, includeActive).Err? <==>
      (exists i :: MissingMacAt(configured, FixedIpKey, i)) || (includeActive && exists i :: MissingMacAt(active, IpKey, i))
  {
    MergedFailsIffMacMissing(Empty, configured, FixedIpKey);
    match Merged(Empty, configured, FixedIpKey)
    case Err(_) =>
    case Ok(t) =>
      MergedFailsIffMacMissing(t, active, IpKey);
  }

  /** The dictionary after both passes holds one entry per MAC written by an
      accepted configured record or, when active merging is on, by an accepted
      active record. */
  lemma MergedTableKeys(configured: seq<RawClient>, active: seq<RawClient>, includeActive: bool, u: Table, mac: Mac)
    requires MergedTable(configured, active, includeActive) == Ok(u)
    ensures mac in u.entries <==> WrittenBy(configured, FixedIpKey, mac) || (includeActive && WrittenBy(active, IpKey, mac))
  {
    var t := Merged(Empty, configured, FixedIpKey).value;
    MergedLastWriterWins(Empty, configured, FixedIpKey, t);
    if includeActive {
      MergedLastWriterWins(t, active, IpKey, u);
    }
  }

  /** The active record overrides: when merging is on, a MAC that an active
      record writes ends with the name and address of the last such record,
      whatever the configured records said. */
  lemma ActiveOverridesConfigured(configured: seq<RawClient>, active: seq<RawClient>, u: Table, mac: Mac, i: int)
    requires MergedTable(configured, active, true) == Ok(u)
    requires LastWrite(active, IpKey, mac, i)
    ensures mac in u.entries && u.entries[mac] == Reservation(active[i][NameKey], active[i][IpKey])
  {
    var t := Merged(Empty, configured, FixedIpKey).value;
    MergedLastWriterWins(t, active, IpKey, u);
  }

  /** A configured reservation survives when no active record writes its MAC
      (or merging is off): the entry is that of the last configured record. */
  lemma ConfiguredKeptWithoutActive(configured: seq<RawClient>, active: seq<RawClient>, includeActive: bool, u: Table, mac: Mac, i: int)
    requires MergedTable(configured, active, includeActive) == Ok(u)
    requires LastWrite(configured, FixedIpKey, mac, i)
    requires !includeActive || !WrittenBy(active, IpKey, mac)
    ensures mac in u.entries && u.entries[mac] == Reservation(configured[i][NameKey], configured[i][FixedIpKey])
  {
    var t := Merged(Empty, configured, FixedIpKey).value;
    MergedLastWriterWins(Empty, configured, FixedIpKey, t);
    if includeActive {
      MergedLastWriterWins(t, active, IpKey, u);
    }
  }

  /** With FIXED_ONLY set to any value the active list is never merged: the
      result is the one an empty active list would give. */
  lemma FixedOnlyIgnoresActive(configured: seq<RawClient>, active: seq<RawClient>, fixedOnly: string)
    ensures !ActiveMergingEnabled(Some(fixedOnly))
    ensures Reconciled(configured, active, ActiveMergingEnabled(Some(fixedOnly))) == Reconciled(configured, [], true)
  {
    match Merged(Empty, configured, FixedIpKey)
    case Err(_) =>
    case Ok(t) =>
      assert Merged(t, [], IpKey) == Ok(t);
  }

  /** The output, in one statement: given the merged dictionary, the result is
      the one sequence that is sorted by name and holds, for every name that
      passes the filter, the dictionary's values with that name in dictionary
      order, and nothing with a name that fails it. */
  lemma ReconciledCharacterized(configured: seq<RawClient>, active: seq<RawClient>, includeActive: bool, u: Table, out: seq<Reservation>)
    requires MergedTable(configured, active, includeActive) == Ok(u)
    ensures Reconciled(configured, active, includeActive) == Ok(out) ==>
      SortedByName(out) && forall n :: WithName(out, n) == if NameMatches(n) then WithName(u.Values(), n) else []
    ensures SortedByName(out) && (forall n :: WithName(out, n) == if NameMatches(n) then WithName(u.Values(), n) else []) ==>
      Reconciled(configured, active, includeActive) == Ok(out)
  {
    var kept := Friendly(u.Values());
    SortByNameCharacterized(kept, out);
    forall n
      ensures WithName(kept, n) == if NameMatches(n) then WithName(u.Values(), n) else []
    {
      FriendlyPerName(u.Values(), n);
    }
  }

  lemma SubsetCard(a: set<Mac>, b: set<Mac>)
    requires a <= b
    ensures |a| <= |b|
  {
    assert b == a + (b - a);
  }

  /** Every output name passes the filter, and there are never more
      reservations than distinct MACs among the accepted records. */
  lemma ReconciledNamesAndSize(configured: seq<RawClient>, active: seq<RawClient>, includeActive: bool, out: seq<Reservation>)
    requires Reconciled(configured, active, includeActive) == Ok(out)
    ensures forall k :: 0 <= k < |out| ==> NameMatches(out[k].name)
    ensures |out| <= |AcceptedMacs(configured, FixedIpKey) + (if includeActive then AcceptedMacs(active, IpKey) else {})|
  {
    var u := MergedTable(configured, active, includeActive).value;
    var kept := Friendly(u.Values());
    assert out == SortByName(kept);
    forall k | 0 <= k < |out|
      ensures NameMatches(out[k].name)
    {
      assert out[k] in multiset(kept);
    }
    assert |out| == |multiset(out)| == |multiset(kept)| == |kept|;
    ValuesOnePerKey(u);
    var macs := AcceptedMacs(configured, FixedIpKey) + (if includeActive then AcceptedMacs(active, IpKey) else {});
    forall mac | mac in u.entries
      ensures mac in macs
    {
      MergedTableKeys(configured, active, includeActive, u, mac);
      if WrittenBy(configured, FixedIpKey, mac) {
        var i :| 0 <= i < |configured| && Writes(configured[i], FixedIpKey, mac);
        assert mac in AcceptedMacs(configured, FixedIpKey);
      } else {
        var i :| 0 <= i < |active| && Writes(active[i], IpKey, mac);
        assert mac in AcceptedMacs(active, IpKey);
      }
    }
    SubsetCard(u.entries.Keys, macs);
  }

  /** Two empty lists give an empty list, not an error. */
  lemma EmptyInputsGiveEmptyOutput(includeActive: bool)
    ensures Reconciled([], [], includeActive) == Ok([])
  {
    assert Merged(Empty, [], FixedIpKey) == Ok(Empty);
    assert Merged(Empty, [], IpKey) == Ok(Empty);
  }
}
