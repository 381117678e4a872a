/**
  The "bootstrap-completed" counter that serialises the bootstrap phase.

  A node with sequence number 1 signals completion at once; a node with
  sequence number k > 1 waits until the counter reaches k - 1, connects and
  then signals. After that every node signals again and waits for the whole
  fleet (the "DHT bootstrap completed" rendezvous).

  The two rendezvous are meant to be distinct, but both are declared with the
  same state name, so the second signal of every node also advances the
  counter that later nodes' barriers read. `Count(log, true)` models the code
  as written (every signal counts), `Count(log, false)` the intended counter
  (only bootstrap completions count).
*/
module Barrier {

  /** One signal on the shared state, in arrival order at the sync service. */
  datatype Signal =
    | Bootstrapped(node: int)  // the node finished its bootstrap connect
    | Ready(node: int)         // the node entered the fleet-wide rendezvous

  /** The counter value after `log`; with `shared` every signal counts. */
  function Count(log: seq<Signal>, shared: bool): (n: nat)
    ensures n <= |log|
    ensures shared ==> n == |log|
  {
    if |log| == 0 then 0
    else Count(log[..|log| - 1], shared)
         + (if shared || log[|log| - 1].Bootstrapped? then 1 else 0)
  }

  /** May signal `s` arrive after `prefix`? A node signals each state once,
      a node k > 1 passes its barrier only once the counter reaches k - 1,
      and the fleet-wide signal follows the node's own bootstrap. */
  predicate MayEmit(prefix: seq<Signal>, s: Signal, shared: bool) {
    match s
    case Bootstrapped(k) =>
      && k >= 1
      && Bootstrapped(k) !in prefix
      && (k == 1 || Count(prefix, shared) >= k - 1)
    case Ready(k) =>
      Bootstrapped(k) in prefix && Ready(k) !in prefix
  }

  /** Every signal of `log` was allowed when it arrived. */
  predicate Valid(log: seq<Signal>, shared: bool) {
    forall j {:trigger log[j]} :: 0 <= j < |log| ==> MayEmit(log[..j], log[j], shared)
  }

  /** The completed nodes of `prefix` are exactly 1 .. counter. */
  ghost predicate CompletedUpToCount(prefix: seq<Signal>) {
    forall i :: Bootstrapped(i) in prefix <==> 1 <= i <= Count(prefix, false)
  }

  /** One allowed signal keeps the completed nodes a gap-free 1 .. counter. */
  lemma {:induction false} CompletionStep(prefix: seq<Signal>, s: Signal)
    requires CompletedUpToCount(prefix)
    requires MayEmit(prefix, s, false)
    ensures CompletedUpToCount(prefix + [s])
  {
    var log := prefix + [s];
    assert log[..|log| - 1] == prefix;
    var m := Count(prefix, false);
    match s
    case Bootstrapped(k) =>
      assert Count(log, false) == m + 1;
      assert k == m + 1;
      forall i ensures Bootstrapped(i) in log <==> 1 <= i <= m + 1 {
        assert Bootstrapped(i) in log <==> Bootstrapped(i) in prefix || i == k;
      }
    case Ready(k) =>
      assert Count(log, false) == m;
      forall i ensures Bootstrapped(i) in log <==> Bootstrapped(i) in prefix {
        assert Bootstrapped(i) in log <==> Bootstrapped(i) in prefix || Bootstrapped(i) == s;
      }
  }

  /** The signal at position n - 1 of a valid schedule extends the gap-free
      completions of the prefix before it. */
  lemma PrefixStep(log: seq<Signal>, n: nat)
    requires 0 < n <= |log|
    requires MayEmit(log[..n - 1], log[n - 1], false)
    requires CompletedUpToCount(log[..n - 1])
    ensures CompletedUpToCount(log[..n])
  {
    CompletionStep(log[..n - 1], log[n - 1]);
    assert log[..n] == log[..n - 1] + [log[n - 1]];
  }

  /** The first `n` signals of `log` were each allowed when they arrived. */
  ghost predicate ValidUpTo(log: seq<Signal>, n: nat)
    requires n <= |log|
  {
    n == 0 || (ValidUpTo(log, n - 1) && MayEmit(log[..n - 1], log[n - 1], false))
  }

  /** A valid schedule is valid up to each of its positions. */
  lemma {:induction false} ValidPrefixes(log: seq<Signal>, n: nat)
    requires Valid(log, false)
    requires n <= |log|
    ensures ValidUpTo(log, n)
  {
    if n > 0 {
      ValidPrefixes(log, n - 1);
      assert MayEmit(log[..n - 1], log[n - 1], false);
    }
  }

  /** Completions stay gap-free along the positions checked so far. */
  lemma {:induction false} CompletionsUpTo(log: seq<Signal>, n: nat)
    requires n <= |log|
    requires ValidUpTo(log, n)
    ensures CompletedUpToCount(log[..n])
  {
    if n == 0 {
      assert log[..0] == [];
    } else {
      CompletionsUpTo(log, n - 1);
      PrefixStep(log, n);
    }
  }

  /** With the intended counter, after any prefix of a valid schedule the nodes
      that have bootstrapped are exactly 1 .. counter: completions arrive in
      sequence-number order. */
  lemma CompletionsInOrder(log: seq<Signal>, n: nat)
    requires Valid(log, false)
    requires n <= |log|
    ensures CompletedUpToCount(log[..n])
  {
    ValidPrefixes(log, n);
    CompletionsUpTo(log, n);
  }

  /** Intended behaviour: once a node with sequence number `k` passes its
      barrier (the counter has reached k - 1), every node with a smaller
      sequence number has finished its bootstrap. */
  lemma PredecessorsBootstrapped(log: seq<Signal>, n: nat, k: int)
    requires Valid(log, false)
    requires n <= |log|
    requires Count(log[..n], false) >= k - 1
    ensures forall i :: 1 <= i < k ==> Bootstrapped(i) in log[..n]
  {
    CompletionsInOrder(log, n);
  }

  /** As written: the fleet-wide signal of node 1 advances the same counter,
      so node 3's barrier (threshold 2) opens while node 2 has not
      bootstrapped yet. */
  lemma SharedCounterReleasesEarly()
    ensures var log := [Bootstrapped(1), Ready(1)];
      && Valid(log, true)
      && Count(log, true) >= 3 - 1
      && Bootstrapped(2) !in log
  {
    var log := [Bootstrapped(1), Ready(1)];
    assert log[..0] == [];
    assert log[..1] == [Bootstrapped(1)];
    assert Valid(log, true);
  }
}
