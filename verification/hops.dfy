/**
  Hop counting from the DHT's lookup events.

  For every content key the node keeps a sub-table from learned peers to the
  number of hops it took to hear of them, plus a "provider" entry recording
  the hops to the peer that answered the query. Events are consumed one at a
  time, in arrival order; the consumer task and its lock only serve to run
  this fold beside the trial loop, so it is modelled sequentially.
*/
module Hops {
  import opened Common

  /** A slot of a sub-table. The source keys the sub-table by the peer ID's
      string and uses the literal "provider" for the sentinel; a peer ID is a
      multihash and never equals that string, so the two are kept apart. */
  datatype Slot = Learned(peer: PeerId) | Provider

  type SubTable = map<Slot, int>
  type HopTable = map<Key, SubTable>

  /** The part of a lookup response the hop count reads. */
  datatype Response = Response(cause: PeerId, heard: seq<PeerId>, queried: seq<PeerId>)

  /** A lookup event; the response is nil for events that only announce a
      query's start or end. */
  datatype LookupEvent = LookupEvent(key: Key, response: Option<Response>)

  /** A map read with Go's zero default. */
  function HopsOr0(sub: SubTable, s: Slot): int {
    if s in sub then sub[s] else 0
  }

  /** Peers get at least one hop; the provider sentinel at least zero. */
  predicate WellFormedSub(sub: SubTable) {
    forall s :: s in sub ==> sub[s] >= (if s.Learned? then 1 else 0)
  }

  predicate WellFormed(table: HopTable) {
    forall k :: k in table ==> WellFormedSub(table[k])
  }

  /** Record one heard peer, unless it is already known. */
  function RecordPeer(sub: SubTable, cause: PeerId, p: PeerId): (r: SubTable)
    ensures r.Keys == sub.Keys + {Learned(p)}
    ensures forall s :: s in sub ==> r[s] == sub[s]
    ensures Learned(p) !in sub ==> r[Learned(p)] == HopsOr0(sub, Learned(cause)) + 1
    ensures WellFormedSub(sub) ==> WellFormedSub(r)
  {
    if Learned(p) in sub then sub
    else sub[Learned(p) := if Learned(cause) in sub then sub[Learned(cause)] + 1 else 1]
  }

  /** The slots of a list of heard peers. */
  ghost function LearnedSlots(heard: seq<PeerId>): set<Slot> {
    set p | p in heard :: Learned(p)
  }

  /** Record the heard peers in order. */
  function RecordHeard(sub: SubTable, cause: PeerId, heard: seq<PeerId>): (r: SubTable)
    ensures r.Keys == sub.Keys + LearnedSlots(heard)
    ensures forall s :: s in sub ==> r[s] == sub[s]
    ensures WellFormedSub(sub) ==> WellFormedSub(r)
    decreases |heard|
  {
    if |heard| == 0 then sub
    else
      assert LearnedSlots(heard) == {Learned(heard[0])} + LearnedSlots(heard[1..]);
      RecordHeard(RecordPeer(sub, cause, heard[0]), cause, heard[1..])
  }

  /** Position of the first occurrence of `x`. */
  function FirstIndex(xs: seq<PeerId>, x: PeerId): (i: nat)
    requires x in xs
    ensures i < |xs| && xs[i] == x && x !in xs[..i]
  {
    if xs[0] == x then 0
    else
      var i := 1 + FirstIndex(xs[1..], x);
      assert xs[..i] == [xs[0]] + xs[1..][..i - 1];
      i
  }

  /** Independent statement of the hops a newly heard peer gets: one more than
      its cause if the cause was already known, otherwise 1 -- or 2 when the
      cause itself appears earlier in the same list and so was learned (at 1
      hop) just before. */
  function ExpectedHops(sub: SubTable, cause: PeerId, heard: seq<PeerId>, p: PeerId): int
    requires p in heard
  {
    if Learned(cause) in sub then sub[Learned(cause)] + 1
    else if cause in heard && FirstIndex(heard, cause) < FirstIndex(heard, p) then 2
    else 1
  }

  /** Every newly heard peer gets the hop count of `ExpectedHops`; in
      particular a peer heard twice keeps the value of its first occurrence. */
  lemma {:induction false} HeardHops(sub: SubTable, cause: PeerId, heard: seq<PeerId>, p: PeerId)
    requires p in heard && Learned(p) !in sub
    ensures RecordHeard(sub, cause, heard)[Learned(p)] == ExpectedHops(sub, cause, heard, p)
    decreases |heard|
  {
    var h := heard[0];
    var rest := heard[1..];
    var sub1 := RecordPeer(sub, cause, h);
    if h == p {
      assert FirstIndex(heard, p) == 0;
      assert RecordHeard(sub, cause, heard)[Learned(p)] == sub1[Learned(p)];
    } else {
      assert p in rest;
      HeardHops(sub1, cause, rest, p);
      assert FirstIndex(heard, p) == 1 + FirstIndex(rest, p);
      if Learned(cause) in sub {
        assert sub1[Learned(cause)] == sub[Learned(cause)];
      } else if cause == h {
        assert sub1[Learned(cause)] == 1;
        assert FirstIndex(heard, cause) == 0;
      } else {
        assert Learned(cause) !in sub1;
        if cause in heard {
          assert cause in rest;
          assert FirstIndex(heard, cause) == 1 + FirstIndex(rest, cause);
        }
      }
    }
  }

  /** The provider sentinel is written only for a response that queried a
      peer and heard of nobody: that peer answered. */
  predicate AnswersQuery(r: Response) {
    |r.queried| > 0 && |r.heard| == 0
  }

  /** Apply a non-nil response to the key's sub-table. */
  function ApplyResponse(sub: SubTable, r: Response): (t: SubTable)
    ensures t.Keys == sub.Keys + LearnedSlots(r.heard) + (if AnswersQuery(r) then {Provider} else {})
    ensures forall s :: s in sub && s.Learned? ==> t[s] == sub[s]
    ensures forall p :: p in r.heard && Learned(p) !in sub ==> t[Learned(p)] == ExpectedHops(sub, r.cause, r.heard, p)
    ensures !AnswersQuery(r) && Provider in sub ==> t[Provider] == sub[Provider]
    ensures AnswersQuery(r) ==> t[Provider] == HopsOr0(sub, Learned(r.cause))
    ensures WellFormedSub(sub) ==> WellFormedSub(t)
  {
    var heard := RecordHeard(sub, r.cause, r.heard);
    assert forall p :: p in r.heard && Learned(p) !in sub ==> heard[Learned(p)] == ExpectedHops(sub, r.cause, r.heard, p) by {
      forall p | p in r.heard && Learned(p) !in sub {
        HeardHops(sub, r.cause, r.heard, p);
      }
    }
    if AnswersQuery(r) then
      assert heard == sub by { assert LearnedSlots(r.heard) == {}; }
      heard[Provider := HopsOr0(heard, Learned(r.cause))]
    else heard
  }

  /** Would the event write to its key's sub-table if that key had none? It
      does exactly when its response heard some peer or answered the query,
      and such a write to a missing sub-table is a nil-map write, which
      panics. For a key that has a sub-table the event may still change
      nothing: every heard peer may already be known. */
  predicate Writes(e: LookupEvent) {
    e.response.Some? && (|e.response.value.heard| > 0 || AnswersQuery(e.response.value))
  }

  /** Consume one lookup event. */
  function ApplyEvent(table: HopTable, e: LookupEvent): (t: HopTable)
    requires e.key in table || !Writes(e)
    ensures t.Keys == table.Keys
    ensures forall k :: k in table && k != e.key ==> t[k] == table[k]
    ensures e.response.None? ==> t == table
    ensures e.key in table && e.response.Some? ==> t[e.key] == ApplyResponse(table[e.key], e.response.value)
    ensures WellFormed(table) ==> WellFormed(t)
  {
    match e.response
    case None => table
    case Some(r) =>
      if e.key in table then table[e.key := ApplyResponse(table[e.key], r)]
      else
        assert r.heard == [];
        table
  }

  /** No event of the list writes to a key without a sub-table. */
  ghost predicate SafeEvents(keys: set<Key>, events: seq<LookupEvent>) {
    forall i :: 0 <= i < |events| ==> events[i].key in keys || !Writes(events[i])
  }

  /** Consume a list of lookup events in arrival order. */
  function ApplyEvents(table: HopTable, events: seq<LookupEvent>): (t: HopTable)
    requires SafeEvents(table.Keys, events)
    ensures t.Keys == table.Keys
    ensures WellFormed(table) ==> WellFormed(t)
  {
    if |events| == 0 then table
    else
      var prefix := events[..|events| - 1];
      assert forall i :: 0 <= i < |prefix| ==> prefix[i] == events[i];
      ApplyEvent(ApplyEvents(table, prefix), events[|events| - 1])
  }

  /** The events of `events` that are about `k`, in order. */
  function OnlyKey(events: seq<LookupEvent>, k: Key): (r: seq<LookupEvent>)
    ensures forall i :: 0 <= i < |r| ==> r[i].key == k && r[i] in events
    ensures forall e :: e in events && e.key == k ==> e in r
  {
    if |events| == 0 then []
    else
      var prefix := events[..|events| - 1];
      var last := events[|events| - 1];
      assert events == prefix + [last];
      OnlyKey(prefix, k) + (if last.key == k then [last] else [])
  }

  /** Only a key's own events shape its sub-table, so keeping one consumer per
      key (rather than one global order) is enough: the sub-table of `k`
      after all events equals the one after `k`'s events alone. */
  lemma {:induction false} PerKeyOrder(table: HopTable, events: seq<LookupEvent>, k: Key)
    requires SafeEvents(table.Keys, events)
    requires k in table
    ensures SafeEvents(table.Keys, OnlyKey(events, k))
    ensures ApplyEvents(table, events)[k] == ApplyEvents(table, OnlyKey(events, k))[k]
  {
    var only := OnlyKey(events, k);
    assert SafeEvents(table.Keys, only) by {
      forall i | 0 <= i < |only| ensures only[i].key in table.Keys || !Writes(only[i]) {
        assert only[i].key == k;
      }
    }
    if |events| > 0 {
      var prefix := events[..|events| - 1];
      var last := events[|events| - 1];
      assert forall i :: 0 <= i < |prefix| ==> prefix[i] == events[i];
      PerKeyOrder(table, prefix, k);
      var onlyPrefix := OnlyKey(prefix, k);
      if last.key == k {
        assert only == onlyPrefix + [last];
        assert only[..|only| - 1] == onlyPrefix;
      } else {
        assert only == onlyPrefix;
      }
    }
  }

  /** The fold of one key's events over that key's sub-table alone. */
  function SubFold(sub: SubTable, events: seq<LookupEvent>): (t: SubTable)
    ensures WellFormedSub(sub) ==> WellFormedSub(t)
  {
    if |events| == 0 then sub
    else
      var s := SubFold(sub, events[..|events| - 1]);
      match events[|events| - 1].response
      case None => s
      case Some(r) => ApplyResponse(s, r)
  }

  /** For events about `k` alone, the whole-table fold computes `k`'s
      sub-table exactly as the one-key fold does, whatever the other keys
      hold. */
  lemma {:induction false} KeyFoldAgrees(table: HopTable, events: seq<LookupEvent>, k: Key)
    requires k in table
    requires forall i :: 0 <= i < |events| ==> events[i].key == k
    ensures SafeEvents(table.Keys, events)
    ensures ApplyEvents(table, events)[k] == SubFold(table[k], events)
  {
    if |events| > 0 {
      var prefix := events[..|events| - 1];
      assert forall i :: 0 <= i < |prefix| ==> prefix[i] == events[i];
      KeyFoldAgrees(table, prefix, k);
    }
  }

  /** Events about other keys leave `k`'s sub-table alone. */
  lemma {:induction false} OtherKeysUntouched(table: HopTable, events: seq<LookupEvent>, k: Key)
    requires SafeEvents(table.Keys, events)
    requires k in table
    requires forall i :: 0 <= i < |events| ==> events[i].key != k
    ensures ApplyEvents(table, events)[k] == table[k]
  {
    if |events| > 0 {
      var prefix := events[..|events| - 1];
      assert forall i :: 0 <= i < |prefix| ==> prefix[i] == events[i];
      OtherKeysUntouched(table, prefix, k);
    }
  }
}
