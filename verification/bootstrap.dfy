/**
  Bootstrap sequencing: which peer a node connects to, and the order in which
  it waits, connects and signals.

  Multi-cluster variant: every node publishes a `NodeInfo`, reads all of them
  in arrival order and folds them into a `Selection`. Single-root variant:
  only the node with sequence number 1 publishes, and every node takes the
  first record it receives. Both variants then run the same phase decision.
*/
module Bootstrap {
  import opened Common
  import Barrier

  /** A node's announcement: its peer identity, its cluster and the sequence
      number it got from the "libp2p-init-completed" rendezvous. */
  datatype NodeInfo = NodeInfo(id: PeerId, clusterId: string, bootSeq: int)

  /** State of the target-selection loop: whether no clustermate has been
      chosen yet, the current target (nil until a record qualifies), and the
      identities seen in the node's own cluster. */
  datatype Selection = Selection(firstInGroup: bool, target: Option<NodeInfo>, localNodes: set<PeerId>)

  const Initial := Selection(true, None, {})

  /** A record of the node's own cluster with a smaller sequence number. */
  predicate IsClustermate(n: NodeInfo, ownSeq: int, clusterId: string) {
    n.clusterId == clusterId && n.bootSeq < ownSeq
  }

  /** Consume one received record. */
  function Observe(s: Selection, n: NodeInfo, ownSeq: int, clusterId: string): (r: Selection)
    ensures IsClustermate(n, ownSeq, clusterId) ==> r.target == Some(n) && !r.firstInGroup
    ensures !IsClustermate(n, ownSeq, clusterId) ==> r.firstInGroup == s.firstInGroup
    ensures !s.firstInGroup && !IsClustermate(n, ownSeq, clusterId) ==> r.target == s.target
    ensures s.firstInGroup && !IsClustermate(n, ownSeq, clusterId) ==>
      r.target == (if n.bootSeq == 1 then Some(n) else s.target)
    ensures r.localNodes == if n.clusterId == clusterId then s.localNodes + {n.id} else s.localNodes
  {
    var local := if n.clusterId == clusterId then s.localNodes + {n.id} else s.localNodes;
    var target := if n.bootSeq == 1 && s.firstInGroup then Some(n) else s.target;
    if IsClustermate(n, ownSeq, clusterId) then Selection(false, Some(n), local)
    else Selection(s.firstInGroup, target, local)
  }

  /** The identities of the received records that belong to `clusterId`. */
  ghost function ClusterIds(nodes: seq<NodeInfo>, clusterId: string): set<PeerId> {
    set i | 0 <= i < |nodes| && nodes[i].clusterId == clusterId :: nodes[i].id
  }

  /** The selection after receiving `nodes` in this order. */
  function Select(nodes: seq<NodeInfo>, ownSeq: int, clusterId: string): (r: Selection)
    ensures r.localNodes == ClusterIds(nodes, clusterId)
    ensures r.firstInGroup <==> forall i :: 0 <= i < |nodes| ==> !IsClustermate(nodes[i], ownSeq, clusterId)
  {
    if |nodes| == 0 then Initial
    else
      var prefix := nodes[..|nodes| - 1];
      var last := nodes[|nodes| - 1];
      assert forall i :: 0 <= i < |prefix| ==> prefix[i] == nodes[i];
      assert ClusterIds(nodes, clusterId)
          == ClusterIds(prefix, clusterId) + (if last.clusterId == clusterId then {last.id} else {});
      Observe(Select(prefix, ownSeq, clusterId), last, ownSeq, clusterId)
  }

  /** Position of the last received clustermate, if any. */
  function LastClustermate(nodes: seq<NodeInfo>, ownSeq: int, clusterId: string): (r: Option<nat>)
    ensures r.Some? ==> r.value < |nodes| && IsClustermate(nodes[r.value], ownSeq, clusterId)
    ensures r.Some? ==> forall k :: r.value < k < |nodes| ==> !IsClustermate(nodes[k], ownSeq, clusterId)
    ensures r.None? ==> forall k :: 0 <= k < |nodes| ==> !IsClustermate(nodes[k], ownSeq, clusterId)
  {
    if |nodes| == 0 then None
    else if IsClustermate(nodes[|nodes| - 1], ownSeq, clusterId) then Some(|nodes| - 1)
    else LastClustermate(nodes[..|nodes| - 1], ownSeq, clusterId)
  }

  /** Position of the last received record with sequence number 1, if any. */
  function LastRoot(nodes: seq<NodeInfo>): (r: Option<nat>)
    ensures r.Some? ==> r.value < |nodes| && nodes[r.value].bootSeq == 1
    ensures r.Some? ==> forall k :: r.value < k < |nodes| ==> nodes[k].bootSeq != 1
    ensures r.None? ==> forall k :: 0 <= k < |nodes| ==> nodes[k].bootSeq != 1
  {
    if |nodes| == 0 then None
    else if nodes[|nodes| - 1].bootSeq == 1 then Some(|nodes| - 1)
    else LastRoot(nodes[..|nodes| - 1])
  }

  /** The record at an optional position. */
  function At(nodes: seq<NodeInfo>, i: Option<nat>): Option<NodeInfo>
    requires i.Some? ==> i.value < |nodes|
  {
    match i
    case None => None
    case Some(k) => Some(nodes[k])
  }

  /** Independent statement of the selected target: the last clustermate to
      arrive if there is one, otherwise the last record with sequence number
      1, otherwise none. */
  lemma {:induction false} SelectedTarget(nodes: seq<NodeInfo>, ownSeq: int, clusterId: string)
    ensures Select(nodes, ownSeq, clusterId).target
         == if LastClustermate(nodes, ownSeq, clusterId).Some?
            then At(nodes, LastClustermate(nodes, ownSeq, clusterId))
            else At(nodes, LastRoot(nodes))
  {
    if |nodes| > 0 {
      var prefix := nodes[..|nodes| - 1];
      var last := nodes[|nodes| - 1];
      SelectedTarget(prefix, ownSeq, clusterId);
      assert forall i :: 0 <= i < |prefix| ==> prefix[i] == nodes[i];
    }
  }

  /** If a clustermate was received, the target is a received clustermate: a
      record of the node's own cluster with a strictly smaller sequence
      number, hence never the node's own record. */
  lemma {:induction false} TargetIsClustermate(nodes: seq<NodeInfo>, ownSeq: int, clusterId: string)
    requires exists i :: 0 <= i < |nodes| && IsClustermate(nodes[i], ownSeq, clusterId)
    ensures var t := Select(nodes, ownSeq, clusterId).target;
      t.Some? && t.value in nodes && t.value.clusterId == clusterId && t.value.bootSeq < ownSeq
  {
    SelectedTarget(nodes, ownSeq, clusterId);
  }

  /** Without a clustermate the node falls back to the root: the target is a
      received record with sequence number 1 whenever one was received, and
      nil otherwise. */
  lemma {:induction false} TargetFallsBackToRoot(nodes: seq<NodeInfo>, ownSeq: int, clusterId: string)
    requires forall i :: 0 <= i < |nodes| ==> !IsClustermate(nodes[i], ownSeq, clusterId)
    ensures var t := Select(nodes, ownSeq, clusterId).target;
      && (t.Some? <==> exists i :: 0 <= i < |nodes| && nodes[i].bootSeq == 1)
      && (t.Some? ==> t.value in nodes && t.value.bootSeq == 1)
  {
    SelectedTarget(nodes, ownSeq, clusterId);
  }

  /** A fleet in which only `nodes[r]` holds sequence number 1: the first
      node of every cluster (no received clustermate) targets that root. */
  lemma {:induction false} ClusterHeadTargetsRoot(nodes: seq<NodeInfo>, ownSeq: int, clusterId: string, r: nat)
    requires r < |nodes| && nodes[r].bootSeq == 1
    requires forall i :: 0 <= i < |nodes| && i != r ==> nodes[i].bootSeq != 1
    requires forall i :: 0 <= i < |nodes| ==> !IsClustermate(nodes[i], ownSeq, clusterId)
    ensures Select(nodes, ownSeq, clusterId).target == Some(nodes[r])
  {
    SelectedTarget(nodes, ownSeq, clusterId);
  }

  /** Once a clustermate has been chosen, records that are not clustermates
      (the root's included) never replace it. */
  lemma {:induction false} ClustermateIsKept(prefix: seq<NodeInfo>, later: seq<NodeInfo>, ownSeq: int, clusterId: string)
    requires !Select(prefix, ownSeq, clusterId).firstInGroup
    requires forall i :: 0 <= i < |later| ==> !IsClustermate(later[i], ownSeq, clusterId)
    ensures !Select(prefix + later, ownSeq, clusterId).firstInGroup
    ensures Select(prefix + later, ownSeq, clusterId).target == Select(prefix, ownSeq, clusterId).target
  {
    if |later| == 0 {
      assert prefix + later == prefix;
    } else {
      var shorter := later[..|later| - 1];
      assert (prefix + later)[..|prefix + later| - 1] == prefix + shorter;
      ClustermateIsKept(prefix, shorter, ownSeq, clusterId);
    }
  }

  /** The choice depends on arrival order: among clustermates the last to
      arrive wins, not the one with the smallest sequence number. */
  lemma LastArrivingClustermateWins()
    ensures var a := NodeInfo("peer-a", "c1", 2);
      var b := NodeInfo("peer-b", "c1", 3);
      && Select([a, b], 4, "c1").target == Some(b)
      && Select([b, a], 4, "c1").target == Some(a)
  {
    var a := NodeInfo("peer-a", "c1", 2);
    var b := NodeInfo("peer-b", "c1", 3);
    assert [a, b][..1] == [a];
    assert [b, a][..1] == [b];
  }

  /** The target-selection loop over the `totalNodes` received records. */
  method SelectTarget(nodes: seq<NodeInfo>, ownSeq: int, clusterId: string)
    returns (bootstrapNode: Option<NodeInfo>, localNodes: set<PeerId>)
    ensures localNodes == ClusterIds(nodes, clusterId)
    ensures (exists i :: 0 <= i < |nodes| && IsClustermate(nodes[i], ownSeq, clusterId))
        ==> bootstrapNode.Some? && bootstrapNode.value.clusterId == clusterId && bootstrapNode.value.bootSeq < ownSeq
    ensures bootstrapNode == Select(nodes, ownSeq, clusterId).target
  {
    var firstInGroup := true;
    bootstrapNode := None;
    localNodes := {};
    var i := 0;
    while i < |nodes|
      invariant 0 <= i <= |nodes|
      invariant Select(nodes[..i], ownSeq, clusterId) == Selection(firstInGroup, bootstrapNode, localNodes)
    {
      var node := nodes[i];
      if node.clusterId == clusterId {
        localNodes := localNodes + {node.id};
      }
      if node.bootSeq == 1 && firstInGroup {
        bootstrapNode := Some(node);
      }
      if node.clusterId == clusterId && node.bootSeq < ownSeq {
        firstInGroup := false;
        bootstrapNode := Some(node);
      }
      assert nodes[..i + 1][..i] == nodes[..i];
      i := i + 1;
    }
    assert nodes[..i] == nodes;
    if exists i :: 0 <= i < |nodes| && IsClustermate(nodes[i], ownSeq, clusterId) {
      TargetIsClustermate(nodes, ownSeq, clusterId);
    }
  }

  // ---------------------------------------------------------------------
  // Phase decision, shared by both variants
  // ---------------------------------------------------------------------

  /** A step a node takes against the sync service or the network. */
  datatype Action =
    | SignalEntry               // signal "bootstrap-completed"
    | AwaitBarrier(threshold: int) // wait for that many completions
    | Connect(target: PeerId)   // dial the bootstrap target

  /** How the phase ends: normally, with the connect error returned to the
      test runner, or with a nil-pointer panic when no target was chosen. */
  datatype PhaseEnd = Completed | ConnectFailed(err: string) | NilTarget

  datatype Phase = Phase(actions: seq<Action>, end: PhaseEnd)

  /** The bootstrap phase of a node with sequence number `ownSeq`. The network's
      answer to a connect attempt is the input `connectErr`. */
  function BootstrapPhase(ownSeq: int, target: Option<PeerId>, connectErr: Option<string>): (p: Phase)
    ensures ownSeq == 1 ==> p == Phase([SignalEntry], Completed)
    ensures ownSeq != 1 ==> |p.actions| >= 1 && p.actions[0] == AwaitBarrier(ownSeq - 1)
    ensures (SignalEntry in p.actions) <==> p.end == Completed
    ensures p.end == Completed ==> p.actions[|p.actions| - 1] == SignalEntry
    ensures forall i :: 0 <= i < |p.actions| && p.actions[i].Connect? ==>
      ownSeq != 1 && i > 0 && p.actions[i - 1] == AwaitBarrier(ownSeq - 1) && target == Some(p.actions[i].target)
    ensures ownSeq != 1 && p.end == Completed ==> target.Some? && Connect(target.value) in p.actions && connectErr.None?
    ensures p.end.ConnectFailed? <==> ownSeq != 1 && target.Some? && connectErr.Some?
    ensures p.end.ConnectFailed? ==> p.end.err == connectErr.value
    ensures ownSeq != 1 && target.Some? ==> |p.actions| >= 2 && p.actions[1] == Connect(target.value)
    ensures ownSeq != 1 && target.Some? && connectErr.None? ==> p.end == Completed
    ensures p.end == NilTarget <==> ownSeq != 1 && target.None?
    ensures |p.actions| == (if ownSeq == 1 || target.None? then 1 else if connectErr.Some? then 2 else 3)
  {
    if ownSeq == 1 then Phase([SignalEntry], Completed)
    else
      match target
      case None => Phase([AwaitBarrier(ownSeq - 1)], NilTarget)
      case Some(t) =>
        match connectErr
        case Some(e) => Phase([AwaitBarrier(ownSeq - 1), Connect(t)], ConnectFailed(e))
        case None => Phase([AwaitBarrier(ownSeq - 1), Connect(t), SignalEntry], Completed)
  }

  /** The identity of an optional record. */
  function IdOf(n: Option<NodeInfo>): Option<PeerId> {
    match n
    case None => None
    case Some(info) => Some(info.id)
  }

  /** Multi-cluster variant: the root dials nobody. Every other node dials the
      target its selection loop chose: the last received clustermate (same
      cluster, smaller sequence number) if one arrived, otherwise the last
      received sequence-1 record; it ends on a nil target only when neither
      arrived. */
  lemma {:induction false} MldhtPhaseDialsTarget(nodes: seq<NodeInfo>, ownSeq: int, clusterId: string, connectErr: Option<string>)
    ensures var p := BootstrapPhase(ownSeq, IdOf(Select(nodes, ownSeq, clusterId).target), connectErr);
      ownSeq == 1 ==> forall a :: a in p.actions ==> !a.Connect?
    ensures var p := BootstrapPhase(ownSeq, IdOf(Select(nodes, ownSeq, clusterId).target), connectErr);
      ownSeq != 1 && (exists i :: 0 <= i < |nodes| && IsClustermate(nodes[i], ownSeq, clusterId)) ==>
        |p.actions| >= 2
        && exists i :: 0 <= i < |nodes| && IsClustermate(nodes[i], ownSeq, clusterId)
             && (forall k :: i < k < |nodes| ==> !IsClustermate(nodes[k], ownSeq, clusterId))
             && p.actions[1] == Connect(nodes[i].id)
    ensures var p := BootstrapPhase(ownSeq, IdOf(Select(nodes, ownSeq, clusterId).target), connectErr);
      ownSeq != 1 && (forall i :: 0 <= i < |nodes| ==> !IsClustermate(nodes[i], ownSeq, clusterId)) ==>
        && (p.end == NilTarget <==> forall i :: 0 <= i < |nodes| ==> nodes[i].bootSeq != 1)
        && (p.end != NilTarget ==>
              exists i :: 0 <= i < |nodes| && nodes[i].bootSeq == 1
                && (forall k :: i < k < |nodes| ==> nodes[k].bootSeq != 1)
                && p.actions[1] == Connect(nodes[i].id))
  {
    SelectedTarget(nodes, ownSeq, clusterId);
    var c := LastClustermate(nodes, ownSeq, clusterId);
    var r := LastRoot(nodes);
    var p := BootstrapPhase(ownSeq, IdOf(Select(nodes, ownSeq, clusterId).target), connectErr);
    if ownSeq != 1 && c.Some? {
      assert p.actions[1] == Connect(nodes[c.value].id);
    }
    if ownSeq != 1 && c.None? && r.Some? {
      assert p.actions[1] == Connect(nodes[r.value].id);
    }
  }

  /** Multi-cluster variant: with the intended barrier counter, when a node
      dials its selected target, the target has already finished its own
      bootstrap (its sequence number is smaller and the barrier has let
      through all smaller sequence numbers). */
  lemma SelectedTargetHasBootstrapped(nodes: seq<NodeInfo>, ownSeq: int, clusterId: string,
                                      log: seq<Barrier.Signal>, n: nat)
    requires exists i :: 0 <= i < |nodes| && IsClustermate(nodes[i], ownSeq, clusterId)
    requires forall i :: 0 <= i < |nodes| ==> nodes[i].bootSeq >= 1
    requires Barrier.Valid(log, false) && n <= |log|
    requires Barrier.Count(log[..n], false) >= ownSeq - 1
    ensures var t := Select(nodes, ownSeq, clusterId).target;
      t.Some? && Barrier.Bootstrapped(t.value.bootSeq) in log[..n]
  {
    TargetIsClustermate(nodes, ownSeq, clusterId);
    Barrier.PredecessorsBootstrapped(log, n, ownSeq);
  }

  // ---------------------------------------------------------------------
  // Single-root variant
  // ---------------------------------------------------------------------

  /** A node of the single-root variant: its identity and sequence number. */
  datatype Participant = Participant(id: PeerId, bootSeq: int)

  /** The records published on the "nodeinfo" topic: only the node with
      sequence number 1 publishes. */
  function Publications(fleet: seq<Participant>): seq<PeerId> {
    if |fleet| == 0 then []
    else
      Publications(fleet[..|fleet| - 1])
      + (if fleet[|fleet| - 1].bootSeq == 1 then [fleet[|fleet| - 1].id] else [])
  }

  /** A peer ID is published exactly when a node with that ID holds sequence
      number 1. */
  lemma {:induction false} PublishedExactlyRoots(fleet: seq<Participant>)
    ensures forall p :: p in Publications(fleet) <==>
      exists i :: 0 <= i < |fleet| && fleet[i].bootSeq == 1 && fleet[i].id == p
  {
    if |fleet| > 0 {
      var prefix := fleet[..|fleet| - 1];
      PublishedExactlyRoots(prefix);
      assert forall i :: 0 <= i < |prefix| ==> prefix[i] == fleet[i];
    }
  }

  /** The bootstrap node is the first record received (nil while none has
      arrived, in which case the node is still blocked on the channel). */
  function FirstReceived(received: seq<PeerId>): Option<PeerId> {
    if |received| == 0 then None else Some(received[0])
  }

  /** With a unique root, exactly one record is ever published. */
  lemma {:induction false} UniqueRootPublishesOnce(fleet: seq<Participant>, r: nat)
    requires r < |fleet| && fleet[r].bootSeq == 1
    requires forall i :: 0 <= i < |fleet| && i != r ==> fleet[i].bootSeq != 1
    ensures Publications(fleet) == [fleet[r].id]
  {
    var prefix := fleet[..|fleet| - 1];
    if r == |fleet| - 1 {
      NoRootNoPublications(prefix);
    } else {
      UniqueRootPublishesOnce(prefix, r);
    }
  }

  /** A fleet without sequence number 1 publishes nothing. */
  lemma {:induction false} NoRootNoPublications(fleet: seq<Participant>)
    requires forall i :: 0 <= i < |fleet| ==> fleet[i].bootSeq != 1
    ensures Publications(fleet) == []
  {
    if |fleet| > 0 {
      NoRootNoPublications(fleet[..|fleet| - 1]);
    }
  }

  /** Single-root variant: whatever the arrival order of the published
      records, every node's bootstrap node is the root. */
  lemma {:induction false} DhtTargetIsRoot(fleet: seq<Participant>, r: nat, received: seq<PeerId>)
    requires r < |fleet| && fleet[r].bootSeq == 1
    requires forall i :: 0 <= i < |fleet| && i != r ==> fleet[i].bootSeq != 1
    requires multiset(received) == multiset(Publications(fleet))
    ensures FirstReceived(received) == Some(fleet[r].id)
  {
    UniqueRootPublishesOnce(fleet, r);
    assert |received| == 1;
    assert received[0] in multiset(received);
  }

  /** Single-root variant: the root signals without dialling anyone, and
      every other node dials exactly the root, after its barrier. */
  lemma {:induction false} DhtPhaseDialsRoot(fleet: seq<Participant>, r: nat, received: seq<PeerId>,
                          me: Participant, connectErr: Option<string>)
    requires r < |fleet| && fleet[r].bootSeq == 1
    requires forall i :: 0 <= i < |fleet| && i != r ==> fleet[i].bootSeq != 1
    requires multiset(received) == multiset(Publications(fleet))
    ensures var p := BootstrapPhase(me.bootSeq, FirstReceived(received), connectErr);
      && (me.bootSeq == 1 ==> forall a :: a in p.actions ==> !a.Connect?)
      && (me.bootSeq != 1 ==> |p.actions| >= 2 && p.actions[1] == Connect(fleet[r].id))
  {
    DhtTargetIsRoot(fleet, r, received);
  }
}
