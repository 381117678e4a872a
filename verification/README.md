# DHT test plans: bootstrap sequencing, hop counting and discovery trials

This project models the sequential logic inside the two DHT test plans of a
testground repository. `MLDHTTest` in `tests/mldht_testcase.go` is the
multi-cluster variant. `DHTTest` in `tests/dht_testcase.go` is the
single-root variant. Everything around that logic is orchestration I/O:
the sync client, libp2p and the Kademlia DHT. The model takes its outputs
as inputs:
- the sequence numbers handed out by the "libp2p-init-completed"
  rendezvous;
- the arrival order of the published records;
- the random trial indices;
- whether each provider lookup found a provider;
- the lookup events the DHT emits.

Modules (one file each):

- `Common` (`common.dfy`): peer identities and content keys as strings, and
  an `Option` type.
- `Barrier` (`barrier.dfy`): the "bootstrap-completed" counter that
  serialises the bootstrap phase. It covers the schedules of signals the
  barriers allow, with the counter as written (shared with the fleet-wide
  rendezvous) and as intended (bootstrap completions only).
- `Bootstrap` (`bootstrap.dfy`):
  - the multi-cluster target-selection loop, as a fold (`Select`) and as
    the loop itself (`SelectTarget`);
  - the phase decision shared by both variants (signal, or wait / connect
    / signal);
  - the single-root variant's "only the root publishes, take the first
    record" choice.
- `Hops` (`hops.dfy`): the lookup-event consumer that builds the per-key
  hop table. The goroutine and its lock only let it run beside the trial
  loop, so it is modelled as a sequential fold (`ApplyEvent`,
  `ApplyEvents`).
- `Trials` (`trials.dfy`): the discovery-trial loops of both variants:
  - fail-fast at the first miss;
  - the key's sub-table reset before each trial;
  - the "provider" hop count added on success, 0 when absent.

The sub-table of a key is keyed by `Slot = Learned(peer) | Provider`. The
Go code uses the peer ID's string and the literal "provider" as map keys.
A peer ID is a multihash and never equals that literal, so the two
namespaces are kept apart.

## Model

| member | source | states |
|---|---|---|
| Barrier.Count | tests/mldht_testcase.go:131-143 | The "bootstrap-completed" counter after a schedule of signals never exceeds the number of signals. As written (both rendezvous share the state) it equals the number of signals; the intended counter counts only bootstrap completions |
| Barrier.MayEmit | tests/mldht_testcase.go:130-143 | The barrier gating, with the counter as written or as intended: node 1 signals at once, node k > 1 signals its bootstrap only once the counter has reached k - 1, each node signals each state once, and a node's fleet-wide signal follows its own bootstrap. `CompletionsInOrder` and `SharedCounterReleasesEarly` state what it admits |
| Barrier.CompletionsInOrder | tests/mldht_testcase.go:130-142 | With the counter counting only bootstrap completions, after every prefix of an allowed schedule the nodes that have bootstrapped are exactly 1 .. counter: nodes complete in sequence-number order with no gaps |
| Barrier.CompletionsUpTo | tests/mldht_testcase.go:130-142 | The same gap-free property along the positions of a schedule checked one signal at a time |
| Barrier.PredecessorsBootstrapped | tests/mldht_testcase.go:134-141 | Intended barrier: when the counter has reached k - 1 (node k's barrier opens), every node with a smaller sequence number has already signalled its bootstrap |
| Barrier.SharedCounterReleasesEarly | tests/mldht_testcase.go:48-49 | As written, both rendezvous use the state "bootstrap-completed". The schedule [node 1 bootstraps, node 1 enters the fleet-wide rendezvous] is allowed and lifts the counter to 2, which opens node 3's barrier while node 2 has not bootstrapped |
| Bootstrap.Observe | tests/mldht_testcase.go:112-124 | One received record: a clustermate (same cluster, smaller sequence) becomes the target and clears firstInGroup. Any other record leaves firstInGroup alone. While firstInGroup holds, a sequence-1 record that is not a clustermate becomes the target and any other such record leaves it alone; once firstInGroup is cleared no such record changes the target. A record of the own cluster adds its ID to localNodes |
| Bootstrap.Select | tests/mldht_testcase.go:110-125 | After all records, localNodes is exactly the set of IDs of received records in the node's cluster (its own included), and firstInGroup holds exactly when no clustermate was received |
| Bootstrap.SelectedTarget | tests/mldht_testcase.go:118-124 | Order-independent reference: the target is the last clustermate to arrive if any arrived, otherwise the last record with sequence 1, otherwise nil |
| Bootstrap.TargetIsClustermate | tests/mldht_testcase.go:121-124 | If any clustermate was received, the target is a received record of the same cluster with a strictly smaller sequence number, so it is never the node itself |
| Bootstrap.TargetFallsBackToRoot | tests/mldht_testcase.go:118-120 | Without a clustermate the target is non-nil exactly when a sequence-1 record was received, and it is then such a record |
| Bootstrap.ClusterHeadTargetsRoot | tests/mldht_testcase.go:118-120 | With a unique sequence-1 record, a node that receives no clustermate (the head of its cluster) targets that root |
| Bootstrap.ClustermateIsKept | tests/mldht_testcase.go:118-124 | Once a clustermate is chosen, later records that are not clustermates (the root's included) change neither the target nor firstInGroup |
| Bootstrap.LastArrivingClustermateWins | tests/mldht_testcase.go:121-124 | Concrete case: clustermates with sequences 2 and 3 in either arrival order; the one that arrives last is chosen, not the one with the smaller sequence |
| Bootstrap.SelectTarget | tests/mldht_testcase.go:110-125 | The loop computes the fold: its target equals `Select`'s, localNodes is the cluster's received IDs, and a received clustermate yields a same-cluster target with smaller sequence |
| Bootstrap.BootstrapPhase | tests/mldht_testcase.go:130-142 | Sequence 1 only signals. Any other node first waits for seq-1 completions. It connects only after that wait and only to the selected target. It signals only after a successful connect. Nothing else happens: one wait, at most one connect and at most one signal. A non-root node with a target dials exactly that target right after the barrier, and on a successful connect signals and completes. A connect error ends the phase with that error and no signal. The phase ends on a nil target exactly when a non-root node has none, and then never signals |
| Bootstrap.MldhtPhaseDialsTarget | tests/mldht_testcase.go:110-142 | Multi-cluster variant: the root dials nobody. A non-root node dials the last received clustermate (same cluster, smaller sequence) whenever one arrived; otherwise it dials the last received sequence-1 record, and it ends on a nil target exactly when no sequence-1 record arrived either |
| Bootstrap.SelectedTargetHasBootstrapped | tests/mldht_testcase.go:130-136 | With the intended counter, the clustermate a node dials once its barrier opens has already completed its own bootstrap |
| Bootstrap.Publications | tests/dht_testcase.go:93-95 | The records published on the "nodeinfo" topic, in fleet order: only nodes with sequence 1 publish. `PublishedExactlyRoots`, `UniqueRootPublishesOnce` and `NoRootNoPublications` characterise it |
| Bootstrap.PublishedExactlyRoots | tests/dht_testcase.go:93-95 | A peer ID is published exactly when some node with that ID has sequence 1 |
| Bootstrap.UniqueRootPublishesOnce | tests/dht_testcase.go:93-95 | With a unique sequence-1 node, exactly one record, the root's, is published |
| Bootstrap.NoRootNoPublications | tests/dht_testcase.go:93-95 | A fleet with no sequence-1 node publishes nothing |
| Bootstrap.DhtTargetIsRoot | tests/dht_testcase.go:93-98 | Whatever the arrival order of the published records, the first record received is the root's |
| Bootstrap.FirstReceived | tests/dht_testcase.go:96-98 | The bootstrap node is the first record received on the channel; with none received the node is still blocked. `DhtTargetIsRoot` shows it is the root's record for every arrival order |
| Bootstrap.DhtPhaseDialsRoot | tests/dht_testcase.go:103-115 | In the single-root variant the root never dials, and every other node dials the root right after its barrier |
| Hops.RecordPeer | tests/mldht_testcase.go:168-179 | A heard peer is added once: existing entries keep their values, a new peer gets the cause's hops + 1 (1 when the cause is absent), and peers stay at least 1 hop |
| Hops.RecordHeard | tests/mldht_testcase.go:165-180 | After the heard loop the sub-table's slots are the old ones plus every heard peer; old entries are unchanged and well-formedness is kept |
| Hops.HeardHops | tests/mldht_testcase.go:165-180 | A newly heard peer gets the cause's hops + 1 if the cause was already known. Otherwise it gets 2 if the cause appeared earlier in the same list, else 1. A peer heard twice keeps the value of its first occurrence |
| Hops.ApplyResponse | tests/mldht_testcase.go:165-189 | A response adds exactly the heard peers (plus "provider" when it answered) and never changes a known peer. New peers get `ExpectedHops`. "provider" is written only when queried is non-empty and heard is empty, and then holds the cause's hops or 0 when the cause is absent |
| Hops.Writes | tests/mldht_testcase.go:165-188 | An event would write to a key that has no sub-table, and so panic at lines 179/187, exactly when it has a response that heard some peer or answered the query. `ApplyEvent` and `SafeEvents` exclude such events; for a key that has a sub-table the event may still leave it unchanged, since every heard peer may already be known |
| Hops.ApplyEvent | tests/mldht_testcase.go:153-191 | One event: a nil response changes nothing, other keys' sub-tables are unchanged, the key set is unchanged, and peer entries stay at least 1 |
| Hops.ApplyEvents | tests/mldht_testcase.go:152-193 | Consuming events in order keeps the key set and well-formedness |
| Hops.PerKeyOrder | tests/mldht_testcase.go:153-191 | A key's sub-table after all events equals its sub-table after that key's events alone, in their order |
| Hops.SubFold | tests/mldht_testcase.go:153-191 | The one-key fold keeps peer entries at least 1 and "provider" at least 0 |
| Hops.KeyFoldAgrees | tests/mldht_testcase.go:153-191 | For events of one key, the whole-table fold computes that key's sub-table exactly as the one-key fold does |
| Hops.OtherKeysUntouched | tests/mldht_testcase.go:153-191 | Events about other keys leave a key's sub-table unchanged |
| Trials.SuccessPrefix | tests/dht_testcase.go:144-155 | The length of the leading run of successes: all earlier outcomes succeed and the next one, if any, fails |
| Trials.DhtTrials | tests/dht_testcase.go:143-156 | The record count is the leading run of successes among the first itemsToFind outcomes. One lookup is issued per trial run, including the failing one, and each looks up the item at the trial's random index |
| Trials.DrawnKeys | tests/mldht_testcase.go:223-224 | The key of trial j is the item at the trial's random index |
| Trials.ResetIsolatesTrial | tests/mldht_testcase.go:225-237 | After the reset, the "provider" value a trial reads depends only on the trial's own events for its key, whatever the table held and whatever events for other keys arrive |
| Trials.RunWindow | tests/mldht_testcase.go:225-241 | Reset, consume the window and read "provider" (0 when absent): the key gains a sub-table and the hops read are the trial's own provider hops |
| Trials.Trial | tests/mldht_testcase.go:222-241 | A trial keeps every reset key's sub-table present and adds its own, reads its window's provider hops, and extends the running hop sum by them |
| Trials.TrialLoop | tests/mldht_testcase.go:220-250 | The loop stops at the first miss, counting at most one miss. Without a miss it ran all trials. The hop total is the sum of the successful trials' provider hops |
| Trials.MldhtTrials | tests/mldht_testcase.go:220-250 | Found records are the leading run of successes, capped at itemsToFind. Misses are 1 exactly when that run stops short. found + missed <= itemsToFind. One lookup is issued per trial run, each for the item at the trial's random index. The hop total is the per-trial provider hops summed over the successful trials, and it is non-negative |

## Left out

- The testground sync client: topics, barriers, `MustSignalAndWait` and
  sequence-number assignment. Their results (sequence numbers, arrival
  orders, counter values) are inputs.
- The network client, libp2p host construction, key generation and
  multiaddr handling. Peers are their identity strings.
- The Kademlia DHT library: `Provide`, `FindProvidersAsync`, routing-table
  size and lookup-event registration. Find outcomes are a `seq<bool>` and
  lookup events are inputs.
- The consumer goroutine and the `RWMutex`. The consumer is a sequential
  fold. Each trial's events are given as the window processed between its
  reset and its read. Events outside any window are not modelled: they
  touch sub-tables that are reset again before being read.
- `time.Sleep` calls: timing only shapes which events fall in a window.
- `rand.Intn`: the indices are an input, required to lie in
  [0, number of items).
- CID hashing of the item payload: keys are opaque strings.
- The average at tests/mldht_testcase.go:257 (a float division that gives
  NaN with no successes) and the other metric emissions. Only the integer
  sum and counts are modelled.
- Go's 64-bit integers. Hop counts and counters are unbounded, and the
  model does not treat overflow.
- The nil-map write panic when an event writes to a key that has no
  sub-table. `ApplyEvent` requires that key's sub-table to exist, and the
  trial loop requires every window to write only to keys reset so far.
- The setup and teardown steps: the sidecar check, network initialisation,
  providing and collecting items, and the "experiment-completed"
  rendezvous.
- `tests/main.go` (a test-case dispatch map) and `tests/store_lookup.go`
  (interface enumeration and I/O) are not part of this model.
- Behaviour one might expect but the code does not have:
  - The code picks the LAST clustermate to arrive, not the one with the
    minimum sequence.
  - A connect failure is fatal: it returns the error and never signals.
    It is not a tolerated degraded state.
  - There is no "run all trials" mode: both loops always stop at the
    first miss.

  The model follows the code in each case.
- Bootstrap.BootstrapPhase: the nil-target case is modelled as an end
  state `NilTarget`, not as a crash. In the multi-cluster variant it stands
  for the nil-pointer panic of a non-root node that received neither a
  clustermate nor a root. In the single-root variant a node with no record
  received never panics: it is still blocked on the channel at
  tests/dht_testcase.go:98, so `BootstrapPhase(_, FirstReceived([]), _)`
  stands for a node that never reaches its bootstrap.

## Findings

| source | as written | input that shows it | evidently intended | confidence | as-written member | corrected member |
|---|---|---|---|---|---|---|
| tests/mldht_testcase.go:48-49 (also tests/dht_testcase.go:42-43) | `nodeBootstrapCompleted` and `dhtBootstrapCompleted` are both `sync.State("bootstrap-completed")`, so the fleet-wide `MustSignalAndWait` at line 143 advances the same counter that the `MustBarrier(seq-1)` at line 134 waits on | Node 1 signals at line 131, then enters line 143 and signals again: the counter is 2, so node 3's barrier opens before node 2 has bootstrapped | Two distinct states, so that the barrier for seq-1 opens only after nodes 1 .. seq-1 have all completed their bootstrap | high on the reading of the code; not executed | Barrier.SharedCounterReleasesEarly | Barrier.PredecessorsBootstrapped |
