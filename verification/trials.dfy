/**
  The discovery trials: `itemsToFind` times, pick a collected item at random,
  ask the DHT for one provider of it, and count the answer. Both variants stop
  at the first miss. The random indices, the DHT's answers and the lookup
  events processed while a trial runs are inputs.
*/
module Trials {
  import opened Common
  import opened Hops

  /** The number of trials the loop runs: none for a non-positive parameter. */
  function Budget(itemsToFind: int): nat {
    if itemsToFind < 0 then 0 else itemsToFind
  }

  /** Length of the longest prefix of `outcomes` made only of successes. */
  function SuccessPrefix(outcomes: seq<bool>): (n: nat)
    ensures n <= |outcomes|
    ensures forall i :: 0 <= i < n ==> outcomes[i]
    ensures n < |outcomes| ==> !outcomes[n]
  {
    if |outcomes| == 0 || !outcomes[0] then 0
    else 1 + SuccessPrefix(outcomes[1..])
  }

  /** A prefix of successes that ends at a miss or at the end is the
      longest one. */
  lemma {:induction false} SuccessPrefixIs(outcomes: seq<bool>, n: nat)
    requires n <= |outcomes|
    requires forall i :: 0 <= i < n ==> outcomes[i]
    requires n == |outcomes| || !outcomes[n]
    ensures SuccessPrefix(outcomes) == n
  {
    if n > 0 {
      SuccessPrefixIs(outcomes[1..], n - 1);
    }
  }

  /** Single-root variant: count the found records, stopping at the first
      miss. `requested` lists the keys looked up, one per trial run. */
  method DhtTrials(items: seq<Key>, itemsToFind: int, indices: seq<int>, found: seq<bool>)
    returns (recordsFound: nat, requested: seq<Key>)
    requires Budget(itemsToFind) <= |indices| && Budget(itemsToFind) <= |found|
    requires forall i :: 0 <= i < Budget(itemsToFind) ==> 0 <= indices[i] < |items|
    ensures recordsFound == SuccessPrefix(found[..Budget(itemsToFind)])
    ensures recordsFound <= Budget(itemsToFind)
    ensures |requested| == if recordsFound < Budget(itemsToFind) then recordsFound + 1 else recordsFound
    ensures forall j :: 0 <= j < |requested| ==> requested[j] == items[indices[j]]
  {
    recordsFound := 0;
    requested := [];
    var i := 0;
    while i < itemsToFind
      invariant 0 <= i <= Budget(itemsToFind)
      invariant recordsFound == i
      invariant forall j :: 0 <= j < i ==> found[j]
      invariant |requested| == i
      invariant forall j :: 0 <= j < i ==> requested[j] == items[indices[j]]
    {
      var index := indices[i];
      requested := requested + [items[index]];
      if found[i] {
        recordsFound := recordsFound + 1;
      } else {
        break;
      }
      i := i + 1;
    }
    SuccessPrefixIs(found[..Budget(itemsToFind)], recordsFound);
  }

  /** The counters of the multi-cluster trial loop. */
  datatype TrialStats = TrialStats(recordsFound: nat, recordsMissed: nat, hopsToProvider: int)

  /** The keys the first `n` trials draw, in trial order. */
  function Draw(items: seq<Key>, indices: seq<int>, n: nat): (keys: seq<Key>)
    requires n <= |indices|
    requires forall j :: 0 <= j < n ==> 0 <= indices[j] < |items|
    ensures |keys| == n
  {
    if n == 0 then [] else Draw(items, indices, n - 1) + [items[indices[n - 1]]]
  }

  /** Trial j looks up the item at its random index. */
  lemma {:induction false} DrawnKeys(items: seq<Key>, indices: seq<int>, n: nat)
    requires n <= |indices|
    requires forall j :: 0 <= j < n ==> 0 <= indices[j] < |items|
    ensures forall j :: 0 <= j < n ==> Draw(items, indices, n)[j] == items[indices[j]]
  {
    if n > 0 {
      DrawnKeys(items, indices, n - 1);
    }
  }

  /** The keys with a sub-table after the first `n` trials: those of the
      initial table and every key a trial has reset. */
  function Covered(tableKeys: set<Key>, keys: seq<Key>, n: nat): set<Key>
    requires n <= |keys|
  {
    if n == 0 then tableKeys else Covered(tableKeys, keys, n - 1) + {keys[n - 1]}
  }

  /** The provider hops a trial on `key` reads, computed from that trial's own
      events for `key` alone, starting from an empty sub-table; an absent
      "provider" entry counts as 0 (the provider was already known locally). */
  function ProviderHops(key: Key, window: seq<LookupEvent>): (h: int)
    ensures h >= 0
  {
    HopsOr0(SubFold(map[], OnlyKey(window, key)), Provider)
  }

  /** The hops of the first `n` trials, summed. */
  function SumHops(keys: seq<Key>, windows: seq<seq<LookupEvent>>, n: nat): (h: int)
    requires n <= |keys| && n <= |windows|
    ensures h >= 0
  {
    if n == 0 then 0
    else SumHops(keys, windows, n - 1) + ProviderHops(keys[n - 1], windows[n - 1])
  }

  /** Resetting the key's sub-table before a trial makes the value the trial
      reads independent of everything before it: whatever the table held, and
      whatever events about other keys arrive in the window. */
  lemma ResetIsolatesTrial(table: HopTable, key: Key, window: seq<LookupEvent>)
    requires SafeEvents(table.Keys + {key}, window)
    ensures var reset := table[key := map[]];
      SafeEvents(reset.Keys, window)
      && HopsOr0(ApplyEvents(reset, window)[key], Provider) == ProviderHops(key, window)
  {
    var reset := table[key := map[]];
    assert reset.Keys == table.Keys + {key};
    PerKeyOrder(reset, window, key);
    KeyFoldAgrees(reset, OnlyKey(window, key), key);
  }

  /** One trial's bookkeeping on the hop table: reset the key's sub-table,
      let the consumer process the window's events, then read the "provider"
      entry (0 when absent). */
  method RunWindow(t: HopTable, key: Key, window: seq<LookupEvent>) returns (t': HopTable, hops: int)
    requires SafeEvents(t.Keys + {key}, window)
    requires WellFormed(t)
    ensures t'.Keys == t.Keys + {key}
    ensures WellFormed(t')
    ensures hops == ProviderHops(key, window)
  {
    ResetIsolatesTrial(t, key, window);
    t' := t[key := map[]];
    t' := ApplyEvents(t', window);
    hops := 0;
    if Provider in t'[key] {
      hops := t'[key][Provider];
    }
  }

  /** The windows of the first `n` trials only write to keys that have a
      sub-table: a key of the initial table, or one that trial i or an
      earlier trial has reset. */
  ghost predicate WindowsSafe(tableKeys: set<Key>, keys: seq<Key>, windows: seq<seq<LookupEvent>>, n: nat)
    requires n <= |keys| && n <= |windows|
  {
    forall i, j :: 0 <= i < n && 0 <= j < |windows[i]| ==>
      windows[i][j].key in tableKeys || windows[i][j].key in keys[..i + 1] || !Writes(windows[i][j])
  }

  /** The reset keys of the first `n` trials are all covered. */
  lemma {:induction false} CoveredContains(tableKeys: set<Key>, keys: seq<Key>, n: nat)
    requires n <= |keys|
    ensures tableKeys <= Covered(tableKeys, keys, n)
    ensures forall x :: x in keys[..n] ==> x in Covered(tableKeys, keys, n)
  {
    if n > 0 {
      CoveredContains(tableKeys, keys, n - 1);
      assert keys[..n] == keys[..n - 1] + [keys[n - 1]];
    }
  }

  /** The window of trial i is safe once trial i has reset its own key. */
  lemma WindowIsSafe(tableKeys: set<Key>, keys: seq<Key>, windows: seq<seq<LookupEvent>>,
                     n: nat, i: nat, current: set<Key>)
    requires i < n <= |keys| && n <= |windows|
    requires WindowsSafe(tableKeys, keys, windows, n)
    requires Covered(tableKeys, keys, i) <= current
    ensures SafeEvents(current + {keys[i]}, windows[i])
  {
    CoveredContains(tableKeys, keys, i);
    assert keys[..i + 1] == keys[..i] + [keys[i]];
    forall j | 0 <= j < |windows[i]|
      ensures windows[i][j].key in current + {keys[i]} || !Writes(windows[i][j])
    {
      assert windows[i][j].key in tableKeys || windows[i][j].key in keys[..i + 1] || !Writes(windows[i][j]);
    }
  }

  /** Trial `i`'s work on the hop table, given that the table has a sub-table
      for every key reset so far: afterwards it also has one for the trial's
      own key, and the hops read are what the trial's window says. */
  method Trial(t: HopTable, ghost tableKeys: set<Key>, keys: seq<Key>, windows: seq<seq<LookupEvent>>,
               ghost n: nat, i: nat) returns (t': HopTable, hops: int)
    requires i < n <= |keys| && n <= |windows|
    requires WindowsSafe(tableKeys, keys, windows, n)
    requires Covered(tableKeys, keys, i) <= t.Keys
    requires WellFormed(t)
    ensures Covered(tableKeys, keys, i + 1) <= t'.Keys
    ensures WellFormed(t')
    ensures hops == ProviderHops(keys[i], windows[i])
    ensures SumHops(keys, windows, i) + hops == SumHops(keys, windows, i + 1)
  {
    WindowIsSafe(tableKeys, keys, windows, n, i, t.Keys);
    t', hops := RunWindow(t, keys[i], windows[i]);
  }

  /** The multi-cluster trial loop over the drawn keys: before each trial the
      key's sub-table is reset, the events of the trial's window are
      consumed, and on success the provider hops (0 when absent) are added;
      the loop stops at the first miss. `windows[i]` holds the lookup events
      the consumer processes between trial i's reset and its read. */
  method TrialLoop(keys: seq<Key>, itemsToFind: int, found: seq<bool>,
                   windows: seq<seq<LookupEvent>>, table: HopTable)
    returns (recordsFound: nat, recordsMissed: nat, hopsToProvider: int, t: HopTable)
    requires Budget(itemsToFind) <= |keys| && Budget(itemsToFind) <= |found|
    requires Budget(itemsToFind) <= |windows|
    requires WindowsSafe(table.Keys, keys, windows, Budget(itemsToFind))
    requires WellFormed(table)
    ensures recordsFound <= Budget(itemsToFind)
    ensures forall j :: 0 <= j < recordsFound ==> found[j]
    ensures recordsMissed == 0 ==> recordsFound == Budget(itemsToFind)
    ensures recordsMissed != 0 ==> recordsMissed == 1 && recordsFound < Budget(itemsToFind) && !found[recordsFound]
    ensures hopsToProvider == SumHops(keys, windows, recordsFound)
    ensures WellFormed(t)
  {
    recordsFound := 0;
    recordsMissed := 0;
    hopsToProvider := 0;
    t := table;
    var i := 0;
    while i < itemsToFind
      invariant 0 <= i <= Budget(itemsToFind)
      invariant recordsFound == i && recordsMissed == 0
      invariant forall j :: 0 <= j < i ==> found[j]
      invariant Covered(table.Keys, keys, i) <= t.Keys
      invariant WellFormed(t)
      invariant hopsToProvider == SumHops(keys, windows, i)
    {
      var hops;
      t, hops := Trial(t, table.Keys, keys, windows, Budget(itemsToFind), i);
      if found[i] {
        hopsToProvider := hopsToProvider + hops;
        recordsFound := recordsFound + 1;
      } else {
        recordsMissed := recordsMissed + 1;
        break;
      }
      i := i + 1;
    }
  }

  /** The windows only write to keys that have a sub-table when trial i
      reads: a key of the initial table, or the item drawn by trial i or by
      an earlier trial. */
  ghost predicate DrawnWindowsSafe(tableKeys: set<Key>, items: seq<Key>, indices: seq<int>,
                                   windows: seq<seq<LookupEvent>>, n: nat)
    requires n <= |indices| && n <= |windows|
    requires forall j :: 0 <= j < n ==> 0 <= indices[j] < |items|
  {
    forall i, j :: 0 <= i < n && 0 <= j < |windows[i]| ==>
      || windows[i][j].key in tableKeys
      || (exists m :: 0 <= m <= i && items[indices[m]] == windows[i][j].key)
      || !Writes(windows[i][j])
  }

  /** The same condition, read over the drawn keys. */
  lemma DrawnWindowsAreSafe(tableKeys: set<Key>, items: seq<Key>, indices: seq<int>,
                            windows: seq<seq<LookupEvent>>, n: nat)
    requires n <= |indices| && n <= |windows|
    requires forall j :: 0 <= j < n ==> 0 <= indices[j] < |items|
    requires DrawnWindowsSafe(tableKeys, items, indices, windows, n)
    ensures WindowsSafe(tableKeys, Draw(items, indices, n), windows, n)
  {
    var keys := Draw(items, indices, n);
    DrawnKeys(items, indices, n);
    forall i, j | 0 <= i < n && 0 <= j < |windows[i]|
      ensures windows[i][j].key in tableKeys || windows[i][j].key in keys[..i + 1] || !Writes(windows[i][j])
    {
      if exists m :: 0 <= m <= i && items[indices[m]] == windows[i][j].key {
        var m :| 0 <= m <= i && items[indices[m]] == windows[i][j].key;
        assert keys[..i + 1][m] == windows[i][j].key;
      }
    }
  }

  /** The hop sum of the first `n` trials reads only their keys. */
  lemma {:induction false} SumHopsPrefix(keys: seq<Key>, other: seq<Key>, windows: seq<seq<LookupEvent>>, n: nat)
    requires n <= |keys| && n <= |other| && n <= |windows|
    requires keys[..n] == other[..n]
    ensures SumHops(keys, windows, n) == SumHops(other, windows, n)
  {
    if n > 0 {
      assert keys[n - 1] == keys[..n][n - 1] == other[n - 1];
      assert keys[..n - 1] == keys[..n][..n - 1];
      assert other[..n - 1] == other[..n][..n - 1];
      SumHopsPrefix(keys, other, windows, n - 1);
    }
  }

  /** Multi-cluster variant, as reported: the records found are the leading
      run of successes (capped at `itemsToFind`), at most one miss is
      counted, and the hops to the provider are the sum, over the successful
      trials, of what each trial's own events say. `requested` lists the keys
      looked up, one per trial run. */
  method MldhtTrials(items: seq<Key>, itemsToFind: int, indices: seq<int>, found: seq<bool>,
                     windows: seq<seq<LookupEvent>>, table: HopTable)
    returns (stats: TrialStats, requested: seq<Key>, t: HopTable)
    requires Budget(itemsToFind) <= |indices| && Budget(itemsToFind) <= |found|
    requires Budget(itemsToFind) <= |windows|
    requires forall i :: 0 <= i < Budget(itemsToFind) ==> 0 <= indices[i] < |items|
    requires DrawnWindowsSafe(table.Keys, items, indices, windows, Budget(itemsToFind))
    requires WellFormed(table)
    ensures stats.recordsFound == SuccessPrefix(found[..Budget(itemsToFind)])
    ensures stats.recordsMissed == if stats.recordsFound < Budget(itemsToFind) then 1 else 0
    ensures stats.recordsFound + stats.recordsMissed <= Budget(itemsToFind)
    ensures |requested| == stats.recordsFound + stats.recordsMissed
    ensures forall j :: 0 <= j < |requested| ==> requested[j] == items[indices[j]]
    ensures stats.hopsToProvider == SumHops(requested, windows, stats.recordsFound)
    ensures stats.hopsToProvider >= 0
    ensures WellFormed(t)
  {
    var keys := Draw(items, indices, Budget(itemsToFind));
    DrawnKeys(items, indices, Budget(itemsToFind));
    DrawnWindowsAreSafe(table.Keys, items, indices, windows, Budget(itemsToFind));
    var recordsFound, recordsMissed, hopsToProvider;
    recordsFound, recordsMissed, hopsToProvider, t := TrialLoop(keys, itemsToFind, found, windows, table);
    SuccessPrefixIs(found[..Budget(itemsToFind)], recordsFound);
    requested := keys[..recordsFound + recordsMissed];
    SumHopsPrefix(keys, requested, windows, recordsFound);
    stats := TrialStats(recordsFound, recordsMissed, hopsToProvider);
  }
}
