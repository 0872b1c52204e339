# unifi-dns client reconciliation, in Dafny

`get_unifi_reservations.py` asks a UniFi controller for two lists of clients and
turns them into the `{name, ip}` reservations a DNS server can serve. It uses the
configured clients (`list/user`, with a reserved `fixed_ip`) and the active
clients (`stat/sta`, with their current `ip`). This project models the part of
`get_clients` that does the work, once the two `data` arrays have been fetched:

1. **Configured pass.** Every configured record that has a `name` key and a
   `fixed_ip` key is written into the `clients` dictionary under its `mac`.
2. **Active pass.** Unless `FIXED_ONLY` is set, every active record that has a
   `name` key and an `ip` key is written into the same dictionary. It overwrites
   a configured entry with the same MAC.
3. **Name filter.** The values whose name passes `re.search('^[a-zA-Z0-9-]+$', name)`
   are collected in dictionary order. The rest are dropped without an error.
4. **Sort.** The collected values are stably sorted by name.

The modules:

- `ClientTable` (client_table.dfy): the Python `dict`. It is a map from MAC to
  reservation together with its keys in first-insertion order. Overwriting a
  key keeps its position.
- `NameFilter` (name_filter.dfy): the exact set of names the regular expression
  accepts. Without the MULTILINE flag, `$` also matches before one final newline,
  so a non-empty word over `[a-zA-Z0-9-]` passes, with or without one trailing `"\n"`.
- `NameOrder` (name_order.dfy): Python's `<=` on `str`, lexicographic by code point.
- `StableSort` (stable_sort.dfy): the stable sort by name. It is proved sorted,
  a permutation, and stable. It is also proved to be the only sequence with those
  properties.
- `Reconciliation` (reconcile.dfy): the specification functions (`Merged`,
  `Friendly`, `Reconciled`). It also holds the imperative methods: the loops `Merge` and
  `KeepFriendly`, and `Reconcile`, which calls them. Each is proved equal to its function.
- `ReconcileProperties` (reconcile_properties.dfy): last writer wins,
  first-insertion position, the KeyError condition, `FIXED_ONLY`, and the
  characterisation and size of the output.
- `ReconcileScenarios` (reconcile_scenarios.dfy): one- and two-record
  controller responses, solved for all MACs, names and addresses.

A raw client record is a `map<string, string>`, because the code only asks
whether a key is present and reads string values. `c['mac']` on an accepted
record without a `mac` key raises `KeyError` in Python. The model returns
`Err(MissingMac)` in that case instead of requiring it away. The `FIXED_ONLY`
switch enters as the boolean `includeActive`. `ActiveMergingEnabled` gives how
the code derives it from the environment value.

The model follows these details of the code:

- Lines 38 and 45 test key presence only, so a record whose address is the
  empty string is still written.
- Lines 39 and 46 key the dictionary by the `mac` string as it is, so MACs are
  compared exactly, with no case folding.
- Line 50 is a `re.search` whose `$` also matches before one final newline, so a
  name with one trailing newline passes.
- Line 41 tests `fixed_only is False`, and line 11 reads `FIXED_ONLY` as a raw
  string, so any value it is set to, even `"false"`, turns the active pass off.

## Model

| member | source | states |
|---|---|---|
| ClientTable.Table.Put | get_unifi_reservations.py:39 | `clients[mac] = r`: the map gets the new value, a new key is appended to the iteration order, an existing key keeps its position, and key order stays duplicate-free and in step with the map |
| ClientTable.Table.Values | get_unifi_reservations.py:49 | `clients.values()` yields, at position i, the value of the i-th key in first-insertion order |
| ClientTable.ValuesOnePerKey | get_unifi_reservations.py:49 | `values()` yields exactly as many values as the dictionary has keys |
| NameFilter.NameMatchesShape | get_unifi_reservations.py:50 | a name passes the filter iff it is a non-empty word over `[a-zA-Z0-9-]`, optionally followed by one newline |
| NameFilter.NameMatchesWithoutNewline | get_unifi_reservations.py:50 | for a name not ending in a newline, the filter is exactly a full match of the character class |
| NameFilter.RejectsForeignCharacter | get_unifi_reservations.py:50 | a character outside the class anywhere, other than a single final newline, makes the name fail |
| NameFilter.NameFilterExamples | get_unifi_reservations.py:50 | `host-1`, `ABC123` and `host-1\n` pass; `host_1`, `host 1`, `héllo`, the empty name, `\n` and `host-1\n\n` fail |
| NameOrder.NameLeReflexive | get_unifi_reservations.py:55 | every name is `<=` itself |
| NameOrder.NameLeTotal | get_unifi_reservations.py:55 | any two names are comparable |
| NameOrder.NameLeAntisymmetric | get_unifi_reservations.py:55 | names that are `<=` each other are equal |
| NameOrder.NameLeTransitive | get_unifi_reservations.py:55 | the name order is transitive |
| NameOrder.NameLeStrict | get_unifi_reservations.py:55 | if `a <= b` fails then `b < a` |
| StableSort.Insert | get_unifi_reservations.py:55 | insertion adds exactly one occurrence of the new value to the multiset |
| StableSort.SortByName | get_unifi_reservations.py:55 | the sorted list is a permutation of its input |
| StableSort.InsertSorted | get_unifi_reservations.py:55 | insertion into a sorted list keeps it sorted |
| StableSort.InsertStable | get_unifi_reservations.py:55 | insertion puts the new value in front of the values already there with the same name |
| StableSort.SortByNameSorted | get_unifi_reservations.py:55 | the output is non-decreasing by name |
| StableSort.SortByNameStable | get_unifi_reservations.py:55 | for every name, the values with that name keep their input order |
| StableSort.SortedStableUnique | get_unifi_reservations.py:55 | two lists that are both sorted by name and agree on every name's subsequence are equal |
| StableSort.SortByNameCharacterized | get_unifi_reservations.py:55 | the sort of s is sorted and a permutation of s; a list equals it iff it is sorted and keeps every name's subsequence of s |
| Reconciliation.Step | get_unifi_reservations.py:38-39 | a written table stays well formed and keeps its old key order as a prefix |
| Reconciliation.Merged | get_unifi_reservations.py:37-39 | a whole merge loop keeps the dictionary well formed and its old key order as a prefix, unless it raises |
| Reconciliation.MergedTable | get_unifi_reservations.py:35-46 | the dictionary after both passes (the second only when active merging is on) is well formed |
| Reconciliation.Friendly | get_unifi_reservations.py:48-53 | the kept values are no more than the values, and every kept name passes the filter |
| Reconciliation.FriendlyCounts | get_unifi_reservations.py:48-53 | a value with a passing name is kept exactly as often as it occurs; a value with a failing name is dropped |
| Reconciliation.FriendlyPerName | get_unifi_reservations.py:48-53 | the filter keeps all values with a passing name, in order, and none with a failing name |
| Reconciliation.Merge | get_unifi_reservations.py:37-46 | the in-place merge loop, with its early KeyError exit, computes exactly `Merged` |
| Reconciliation.KeepFriendly | get_unifi_reservations.py:48-53 | the appending filter loop computes exactly `Friendly` |
| Reconciliation.Reconcile | get_unifi_reservations.py:35-55 | `get_clients` returns `Reconciled`: on success a list sorted by name whose every name passes the filter |
| ReconcileProperties.FirstWrite | get_unifi_reservations.py:37-46 | the index of the first record that writes a MAC: that record writes it and no earlier one does |
| ReconcileProperties.MergedFailsIffMacMissing | get_unifi_reservations.py:38-39 | a merge pass raises iff one of its records has both fields but no `mac` key |
| ReconcileProperties.MergedLastWriterWins | get_unifi_reservations.py:37-39 | after a pass the keys are the old keys plus the MACs written; each written MAC holds the last writer's name and address; other keys are unchanged |
| ReconcileProperties.MergedConcat | get_unifi_reservations.py:37-39 | merging `a + b` is merging `a`, then `b` from where it stopped |
| ReconcileProperties.RecordMissingFieldSkipped | get_unifi_reservations.py:38-39 | a record without the name or the address key has no effect at all: the pass ends as it would without it |
| ReconcileProperties.StepEffect | get_unifi_reservations.py:39 | one write adds its MAC to the keys, appending it to the order only when it is new |
| ReconcileProperties.MergedAppendsNewKeys | get_unifi_reservations.py:37-39 | the keys a pass appends were not keys before and are each written by some record of the pass |
| ReconcileProperties.MergedKeepsFirstPosition | get_unifi_reservations.py:37-46 | old keys keep their positions; new keys are appended in the order of their first writes |
| ReconcileProperties.ReconciledFailsIffMacMissing | get_unifi_reservations.py:35-46 | `get_clients` raises iff a configured record, or an active one while merging is on, has both fields but no `mac` |
| ReconcileProperties.MergedTableKeys | get_unifi_reservations.py:35-46 | the dictionary holds a MAC iff an accepted configured record, or, with merging on, an accepted active record, writes it |
| ReconcileProperties.ActiveOverridesConfigured | get_unifi_reservations.py:41-46 | with merging on, a MAC written by an active record ends with the last such record's name and `ip`, whatever the configured records said |
| ReconcileProperties.ConfiguredKeptWithoutActive | get_unifi_reservations.py:37-46 | a MAC no active record writes (or any MAC when merging is off) keeps the last configured record's name and `fixed_ip` |
| ReconcileProperties.FixedOnlyIgnoresActive | get_unifi_reservations.py:41-46 | any set value of `FIXED_ONLY` disables merging, and the result is the one an empty active list gives |
| ReconcileProperties.ReconciledCharacterized | get_unifi_reservations.py:48-55 | the result is exactly the list that is sorted by name and holds, per passing name, the dictionary values with that name in dictionary order, and nothing else |
| ReconcileProperties.ReconciledNamesAndSize | get_unifi_reservations.py:35-55 | every output name passes the filter, and the output is no longer than the number of distinct MACs among accepted records |
| ReconcileProperties.EmptyInputsGiveEmptyOutput | get_unifi_reservations.py:35-55 | two empty lists give an empty result, not an error |
| ReconcileScenarios.ActiveReplacesConfigured | get_unifi_reservations.py:39-46 | a configured and an active record for one MAC give the active name and address, or nothing if that name fails the filter |
| ReconcileScenarios.SingleConfiguredClient | get_unifi_reservations.py:37-53 | one configured client, with any address including the empty string, is reserved iff its name passes the filter |
| ReconcileScenarios.EqualNamesKeepFirstInsertion | get_unifi_reservations.py:39-55 | two MACs with equal names keep dictionary order, and an overwritten MAC keeps its first position |
| ReconcileScenarios.UpperCaseSortsFirstExample | get_unifi_reservations.py:55 | `zeta`, `alpha`, `Mid-1` sort to `Mid-1`, `alpha`, `zeta`: upper case before lower case |

## Left out

- The login POST and the two fetchers, `get_configured_clients` and `get_active_clients` (lines 15-33), are network I/O. Their `data` arrays are inputs, and `raise_for_status`, JSON decoding and certificate handling are not modelled.
- Environment reading (lines 7-12) is left out, apart from how `FIXED_ONLY` becomes `includeActive` (`ActiveMergingEnabled`).
- The `logging.debug` line for a rejected name (line 53) and the logging setup have no effect on the result and are not modelled.
- The `__main__` block (lines 58-73) is process plumbing and is not modelled: printing `ip name` lines, exception handling and exit codes.
- Record values other than strings are not modelled, e.g. a `null` name, which would make `re.search` raise `TypeError`. Neither are list elements that are not objects. Every field of a raw record is a string here, so the only exception the model produces is the `KeyError` on `c['mac']`.
