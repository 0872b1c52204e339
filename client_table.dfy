/**
 The `clients` dictionary of the reconciliation: a Python `dict` from MAC
 address to a `{name, ip}` record. A Python dict iterates its values in the
 order the keys were FIRST inserted; overwriting the value of a key already
 present keeps the key where it was. The table is therefore a map together
 with the sequence of its keys in first-insertion order.
 */
module ClientTable {

  /** A device key: the `mac` field of a raw client record, compared exactly. */
  type Mac = string

  /** The `{'name': ..., 'ip': ...}` dictionary stored per MAC and returned. */
  datatype Reservation = Reservation(name: string, ip: string)

  datatype Table = Table(entries: map<Mac, Reservation>, order: seq<Mac>)
  {
    /** Every key appears in `order` exactly once and nothing else does. */
    ghost predicate Valid()
    {
      && (forall i, j :: 0 <= i < j < |order| ==> order[i] != order[j])
      && (forall m :: m in entries <==> m in order)
    }

    /** `clients[mac] = r`: the value is replaced, a new key goes last,
        an existing key keeps its position. */
    function Put(mac: Mac, r: Reservation): (u: Table)
      requires Valid()
      ensures u.Valid()
      ensures u.entries == entries[mac := r]
      ensures |order| <= |u.order| && u.order[..|order|] == order
      ensures mac in entries ==> u.order == order
      ensures mac !in entries ==> u.order == order + [mac]
    {
      if mac in entries then Table(entries[mac := r], order)
      else Table(entries[mac := r], order + [mac])
    }

    /** `clients.values()`, in iteration order. */
    function Values(): (vs: seq<Reservation>)
      requires Valid()
      ensures |vs| == |order|
      ensures forall i :: 0 <= i < |order| ==> vs[i] == entries[order[i]]
    {
      ValuesOf(entries, order)
    }
  }

  /** The empty dictionary `{}`. */
  const Empty: Table := Table(map[], [])

  function ValuesOf(entries: map<Mac, Reservation>, keys: seq<Mac>): (vs: seq<Reservation>)
    requires forall m :: m in keys ==> m in entries
    ensures |vs| == |keys|
    ensures forall i :: 0 <= i < |keys| ==> vs[i] == entries[keys[i]]
  {
    if keys == [] then [] else [entries[keys[0]]] + ValuesOf(entries, keys[1..])
  }

  /** `values()` yields one value per key: as many values as the dict has keys. */
  lemma ValuesOnePerKey(t: Table)
    requires t.Valid()
    ensures |t.Values()| == |t.entries|
  {
    DistinctKeysCount(t.order);
    assert t.entries.Keys == set m | m in t.order;
  }

  lemma {:induction false} DistinctKeysCount(keys: seq<Mac>)
    requires forall i, j :: 0 <= i < j < |keys| ==> keys[i] != keys[j]
    ensures |set m | m in keys| == |keys|
  {
    if keys != [] {
      DistinctKeysCount(keys[1..]);
      assert (set m | m in keys) == {keys[0]} + (set m | m in keys[1..]);
      assert keys[0] !in keys[1..];
    }
  }
}
