/** Live-node membership and primary/alternate replica selection over a
    consistent-hash ring (ec2_node/nodeHashRing.py). The ring library is
    foreign: the ring is its set of node names, and placement is an
    uninterpreted lookup that only promises to answer with a ring member. */
module Ring {
  import opened Types

  /** `HashRing.get_node(key)` for a ring holding exactly `nodes`. */
  type LookupFn = (set<NodeId>, Key) -> Option<NodeId>

  /** All that is assumed of the ring's placement: a non-empty ring answers
      with one of its nodes, an empty ring answers None. */
  ghost predicate IsRingLookup(lookup: LookupFn)
  {
    forall nodes: set<NodeId>, key: Key ::
      (lookup(nodes, key).Some? <==> nodes != {}) &&
      (lookup(nodes, key).Some? ==> lookup(nodes, key).value in nodes)
  }

  /** Heartbeats older than this many milliseconds mean the node is gone. */
  const FreshnessWindow: int := 15000

  /** One row of the liveness registry. */
  datatype Row = Row(ip: NodeId, lastActiveTime: int)

  /** The result of a registry scan, with the clock reading taken right
      after it; a scan that raises is caught and changes nothing. */
  datatype Scan = Scanned(items: seq<Row>, now: int) | ScanFailed

  predicate Fresh(row: Row, now: int): (b: bool)
    ensures b <==> now - row.lastActiveTime <= 15000
  {
    row.lastActiveTime >= now - FreshnessWindow
  }

  /** The IPs of the fresh rows, in scan order. */
  function LiveFilter(items: seq<Row>, now: int): (live: seq<NodeId>)
    ensures |live| <= |items|
  {
    if items == [] then []
    else (if Fresh(items[0], now) then [items[0].ip] else []) + LiveFilter(items[1..], now)
  }

  /** An IP is live exactly when some fresh row carries it. */
  lemma {:induction false} LiveFilterMembership(items: seq<Row>, now: int, ip: NodeId)
    ensures ip in LiveFilter(items, now) <==>
            exists i :: 0 <= i < |items| && items[i].ip == ip && Fresh(items[i], now)
  {
    if items != [] {
      var tail := items[1..];
      LiveFilterMembership(tail, now, ip);
      if ip in LiveFilter(tail, now) {
        var i :| 0 <= i < |tail| && tail[i].ip == ip && Fresh(tail[i], now);
        assert items[i + 1] == tail[i];
      }
      if exists i :: 0 <= i < |items| && items[i].ip == ip && Fresh(items[i], now) {
        var i :| 0 <= i < |items| && items[i].ip == ip && Fresh(items[i], now);
        if i > 0 {
          assert tail[i - 1] == items[i];
        }
      }
    }
  }

  /** The filter works row by row: the live list of a concatenation is the
      concatenation of the live lists, so the scan order is kept. */
  lemma {:induction false} LiveFilterAppend(a: seq<Row>, b: seq<Row>, now: int)
    ensures LiveFilter(a + b, now) == LiveFilter(a, now) + LiveFilter(b, now)
  {
    if a == [] {
      assert a + b == b;
    } else {
      var head := if Fresh(a[0], now) then [a[0].ip] else [];
      assert (a + b)[0] == a[0] && (a + b)[1..] == a[1..] + b;
      assert LiveFilter(a + b, now) == head + LiveFilter(a[1..] + b, now);
      LiveFilterAppend(a[1..], b, now);
      assert LiveFilter(a, now) == head + LiveFilter(a[1..], now);
    }
  }

  /** When every row is fresh, nothing is dropped. */
  lemma {:induction false} LiveFilterAllFresh(items: seq<Row>, now: int)
    requires forall i :: 0 <= i < |items| ==> Fresh(items[i], now)
    ensures |LiveFilter(items, now)| == |items|
    ensures forall i :: 0 <= i < |items| ==> LiveFilter(items, now)[i] == items[i].ip
  {
    if items != [] {
      LiveFilterAllFresh(items[1..], now);
    }
  }

  /** The membership counters and the last live list. */
  datatype Membership = Membership(num: nat, prev: nat, live: seq<NodeId>)

  /** One `get_live_node_list` call: the live list is always replaced by
      the filtered scan, and the change flag is raised (and the counters
      shifted) exactly when the list's length changed. */
  function Poll(m: Membership, scan: Scan): (r: (Membership, bool))
    ensures scan.ScanFailed? ==> r == (m, false)
    ensures scan.Scanned? ==> r.0.live == LiveFilter(scan.items, scan.now)
    ensures scan.Scanned? ==> (r.1 <==> |r.0.live| != |m.live|)
    ensures r.1 ==> r.0.num == |r.0.live| && r.0.prev == m.num
    ensures !r.1 ==> r.0.num == m.num && r.0.prev == m.prev
  {
    match scan
    case ScanFailed => (m, false)
    case Scanned(items, now) =>
      var newLive := LiveFilter(items, now);
      // the code compares the absolute difference of the lengths with zero
      if |newLive| != |m.live| then (Membership(|newLive|, m.num, newLive), true)
      else (Membership(m.num, m.prev, newLive), false)
  }

  /** Polling the same registry contents again reports no change. */
  lemma PollSettles(m: Membership, scan: Scan)
    ensures Poll(Poll(m, scan).0, scan) == (Poll(m, scan).0, false)
  {
  }

  /** The alternate as the code reports it: `-1` when the lookup found nothing. */
  function AltTarget(n: Option<NodeId>): (t: Target)
    ensures n.None? <==> t == Sentinel
    ensures n.Some? ==> t == Ip(n.value)
  {
    match n
    case Some(ip) => Ip(ip)
    case None => Sentinel
  }

  /** Primary then alternate for `key` on a ring holding `nodes`: the
      alternate is what the ring answers once the primary is taken out. */
  function Resolve(lookup: LookupFn, nodes: set<NodeId>, key: Key): (r: (Target, Target))
    requires IsRingLookup(lookup)
    ensures r.0.Null? <==> nodes == {}
    ensures !r.0.Sentinel?
    ensures r.0.Ip? ==> r.0.addr in nodes
    ensures |nodes| >= 2 ==> r.1.Ip? && r.1.addr in nodes && r.1.addr != r.0.addr
    ensures |nodes| <= 1 ==> r.1 == Sentinel
    ensures r.0 != r.1
  {
    match lookup(nodes, key)
    case None => (Null, Sentinel)
    case Some(m) =>
      var rest := nodes - {m};
      assert |rest| == |nodes| - 1 by {
        assert nodes == rest + {m};
      }
      (Ip(m), AltTarget(lookup(rest, key)))
  }

  /** What `get_target_and_alt_node_ips` hands back, together with the
      membership its syncs leave behind. */
  datatype Resolution = Resolution(main: Target, alt: Target, members: Membership)

  /** Sync the ring on `scan` and resolve `key`; when the synced ring is
      empty, sync once more on `retryScan` and take the alternate from that
      ring (the primary stays None). The ring always ends as the set of the
      resulting live list. */
  function SyncedResolve(lookup: LookupFn, m: Membership, key: Key, scan: Scan, retryScan: Scan): (r: Resolution)
    requires IsRingLookup(lookup)
    ensures r.main != r.alt && !r.main.Sentinel?
    ensures r.main.Null? <==> Poll(m, scan).0.live == []
    ensures r.main.Ip? ==> r.members == Poll(m, scan).0 && r.main.addr in r.members.live
    ensures r.main.Ip? ==> (r.main, r.alt) == Resolve(lookup, Elems(r.members.live), key)
    ensures r.main.Ip? && |Elems(r.members.live)| >= 2 ==>
              r.alt.Ip? && r.alt.addr in r.members.live && r.alt.addr != r.main.addr
    ensures r.main.Ip? && |Elems(r.members.live)| == 1 ==> r.alt == Sentinel
    ensures r.main.Null? ==> r.members == Poll(Poll(m, scan).0, retryScan).0
    ensures r.main.Null? ==> (r.alt == Sentinel <==> r.members.live == [])
    ensures r.main.Null? && r.alt.Ip? ==> r.alt.addr in r.members.live
  {
    var synced := Poll(m, scan).0;
    if synced.live != [] then
      assert synced.live[0] in Elems(synced.live);
      var p := Resolve(lookup, Elems(synced.live), key);
      Resolution(p.0, p.1, synced)
    else
      var retried := Poll(synced, retryScan).0;
      assert retried.live != [] ==> retried.live[0] in Elems(retried.live);
      Resolution(Null, AltTarget(lookup(Elems(retried.live), key)), retried)
  }

  /** One call into the ring library that changes its node set:
      `add_node`, `remove_node`, or building a new `HashRing(nodes=..)`. */
  datatype RingOp = Added(node: NodeId) | Removed(node: NodeId) | Rebuilt(nodes: set<NodeId>)

  /** The nodes a run of ring operations adds. */
  function NodesAdded(ops: seq<RingOp>): (r: set<NodeId>)
    ensures forall n :: n in r <==> Added(n) in ops
  {
    set op | op in ops && op.Added? :: op.node
  }

  /** The nodes a run of ring operations removes. */
  function NodesRemoved(ops: seq<RingOp>): (r: set<NodeId>)
    ensures forall n :: n in r <==> Removed(n) in ops
  {
    set op | op in ops && op.Removed? :: op.node
  }

  /** A run of single-node additions and removals, none of them repeated. */
  predicate SingleNodeOps(ops: seq<RingOp>)
  {
    (forall i :: 0 <= i < |ops| ==> !ops[i].Rebuilt?) &&
    (forall i, j :: 0 <= i < j < |ops| ==> ops[i] != ops[j])
  }

  /** `ops` brings a ring holding `before` in line with `live` touching
      only the nodes that differ: it adds each live node the ring lacked and
      removes each ring node that is not live, once, and nothing else. */
  predicate IsSync(ops: seq<RingOp>, before: set<NodeId>, live: set<NodeId>)
  {
    SingleNodeOps(ops) && NodesAdded(ops) == live - before && NodesRemoved(ops) == before - live
  }

  class NodeHashRing {
    const lookup: LookupFn
    var numLiveNodes: nat
    var prevNumLiveNodes: nat
    var liveNodes: seq<NodeId>
    var doBackup: bool
    var changeInNumNodes: bool
    /** The nodes placed on the hash ring. */
    var ring: set<NodeId>
    /** Every change made to the ring since it was built, oldest first. */
    ghost var ringOps: seq<RingOp>

    ghost predicate Valid()
      reads this
    {
      IsRingLookup(lookup)
    }

    function Members(): (m: Membership)
      reads this
      ensures m.num == numLiveNodes && m.prev == prevNumLiveNodes && m.live == liveNodes
    {
      Membership(numLiveNodes, prevNumLiveNodes, liveNodes)
    }

    /** Start from zero counters and an empty list, poll once, and build the
        ring from the live list. */
    constructor (lookup: LookupFn, scan: Scan)
      requires IsRingLookup(lookup)
      ensures Valid()
      ensures (Members(), doBackup) == Poll(Membership(0, 0, []), scan)
      ensures ring == Elems(liveNodes) && !changeInNumNodes && ringOps == []
      ensures this.lookup == lookup
    {
      this.lookup := lookup;
      numLiveNodes := 0;
      prevNumLiveNodes := 0;
      liveNodes := [];
      doBackup := false;
      changeInNumNodes := false;
      ring := {};
      ringOps := [];
      new;
      var live, backup := GetLiveNodeList(scan);
      liveNodes, doBackup := live, backup;
      changeInNumNodes := false;
      ring := Elems(liveNodes);
    }

    /** Filter a registry scan to the fresh nodes and report whether the
        number of live nodes changed. */
    method GetLiveNodeList(scan: Scan) returns (live: seq<NodeId>, doBackup: bool)
      modifies this`liveNodes, this`numLiveNodes, this`prevNumLiveNodes
      ensures (Members(), doBackup) == Poll(old(Members()), scan)
      ensures live == liveNodes
    {
      doBackup := false;
      match scan {
        case Scanned(items, now) =>
          var newLiveNodes := LiveFilter(items, now);
          if |newLiveNodes| != |liveNodes| {
            SetNumLiveAndPrevNodes(|newLiveNodes|);
            doBackup := true;
          }
          liveNodes := newLiveNodes;
        case ScanFailed =>
      }
      live := liveNodes;
    }

    method SetNumLiveAndPrevNodes(newNumNodes: nat)
      modifies this`numLiveNodes, this`prevNumLiveNodes
      ensures prevNumLiveNodes == old(numLiveNodes) && numLiveNodes == newNumNodes
    {
      prevNumLiveNodes := numLiveNodes;
      numLiveNodes := newNumNodes;
    }

    /** How far the live count moved at the last shift. */
    function NumDifferenceInNodes(): (d: nat)
      reads this
      ensures numLiveNodes == prevNumLiveNodes + d || prevNumLiveNodes == numLiveNodes + d
    {
      if numLiveNodes >= prevNumLiveNodes then numLiveNodes - prevNumLiveNodes
      else prevNumLiveNodes - numLiveNodes
    }

    /** `hash_ring.add_node(n)`. */
    method AddNode(n: NodeId)
      modifies this`ring, this`ringOps
      ensures ring == old(ring) + {n}
      ensures ringOps == old(ringOps) + [Added(n)]
    {
      ring := ring + {n};
      ringOps := ringOps + [Added(n)];
    }

    /** `hash_ring.remove_node(n)`. */
    method RemoveNode(n: NodeId)
      modifies this`ring, this`ringOps
      ensures ring == old(ring) - {n}
      ensures ringOps == old(ringOps) + [Removed(n)]
    {
      ring := ring - {n};
      ringOps := ringOps + [Removed(n)];
    }

    /** Poll, then bring the ring in line with the live list one node at a
        time: add the newcomers, then remove the nodes no longer live. The
        ring operations `ops` touch only nodes in one of the old ring and
        the live list but not the other, so a node in both is never taken
        off the ring. */
    method UpdateLiveNodes(scan: Scan) returns (doBackup: bool, ghost ops: seq<RingOp>)
      modifies this`liveNodes, this`numLiveNodes, this`prevNumLiveNodes, this`ring, this`ringOps
      ensures (Members(), doBackup) == Poll(old(Members()), scan)
      ensures ring == Elems(liveNodes)
      ensures ringOps == old(ringOps) + ops && IsSync(ops, old(ring), Elems(liveNodes))
    {
      var liveNodesList;
      liveNodesList, doBackup := GetLiveNodeList(scan);
      ghost var added := AddMissingNodes(liveNodesList);
      var nodesToRemove := NodesNotIn(liveNodesList);
      ghost var removed := RemoveNodes(nodesToRemove);
      SyncOpsCombine(added, removed, nodesToRemove, old(ring), Elems(liveNodesList));
      ops := added + removed;
    }

    /** The first loop: every live node not yet on the ring is added, once. */
    method AddMissingNodes(live: seq<NodeId>) returns (ghost ops: seq<RingOp>)
      modifies this`ring, this`ringOps
      ensures ring == old(ring) + Elems(live)
      ensures ringOps == old(ringOps) + ops
      ensures SingleNodeOps(ops) && NodesAdded(ops) == Elems(live) - old(ring) && NodesRemoved(ops) == {}
    {
      ops := [];
      var i := 0;
      while i < |live|
        invariant 0 <= i <= |live|
        invariant ring == old(ring) + Elems(live[..i])
        invariant ringOps == old(ringOps) + ops
        invariant SingleNodeOps(ops) && NodesRemoved(ops) == {}
        invariant NodesAdded(ops) == Elems(live[..i]) - old(ring)
      {
        assert live[..i + 1] == live[..i] + [live[i]];
        if live[i] !in ring {
          AddNode(live[i]);
          ops := ops + [Added(live[i])];
        }
        i := i + 1;
      }
      assert live[..i] == live;
    }

    /** The second loop: the ring nodes that are not in the live list, each
        listed once. */
    method NodesNotIn(live: seq<NodeId>) returns (nodesToRemove: seq<NodeId>)
      ensures Elems(nodesToRemove) == ring - Elems(live)
      ensures forall i, j :: 0 <= i < j < |nodesToRemove| ==> nodesToRemove[i] != nodesToRemove[j]
    {
      nodesToRemove := [];
      var pending := ring;
      while pending != {}
        invariant pending <= ring
        invariant Elems(nodesToRemove) == (ring - pending) - Elems(live)
        invariant forall i, j :: 0 <= i < j < |nodesToRemove| ==> nodesToRemove[i] != nodesToRemove[j]
        decreases pending
      {
        var nodeKey :| nodeKey in pending;
        if nodeKey !in live {
          assert nodeKey !in Elems(nodesToRemove);
          nodesToRemove := nodesToRemove + [nodeKey];
        }
        pending := pending - {nodeKey};
      }
    }

    /** The third loop: take each listed node off the ring. */
    method RemoveNodes(nodes: seq<NodeId>) returns (ghost ops: seq<RingOp>)
      modifies this`ring, this`ringOps
      ensures ring == old(ring) - Elems(nodes)
      ensures ringOps == old(ringOps) + ops
      ensures |ops| == |nodes| && forall j :: 0 <= j < |nodes| ==> ops[j] == Removed(nodes[j])
    {
      ops := [];
      var j := 0;
      while j < |nodes|
        invariant 0 <= j <= |nodes|
        invariant ring == old(ring) - Elems(nodes[..j])
        invariant ringOps == old(ringOps) + ops
        invariant |ops| == j && forall i :: 0 <= i < j ==> ops[i] == Removed(nodes[i])
      {
        assert nodes[..j + 1] == nodes[..j] + [nodes[j]];
        RemoveNode(nodes[j]);
        ops := ops + [Removed(nodes[j])];
        j := j + 1;
      }
      assert nodes[..j] == nodes;
    }

    /** The syncs of `get_target_and_alt_node_ips` and its first query:
        sync, ask the ring for the primary, and sync once more when there
        is none. `syncOps` are the ring operations of the syncs. */
    method SyncAndLookUp(key: Key, scan: Scan, retryScan: Scan)
      returns (mainNode: Option<NodeId>, ghost syncOps: seq<RingOp>)
      modifies this`liveNodes, this`numLiveNodes, this`prevNumLiveNodes, this`ring, this`ringOps
      ensures ring == Elems(liveNodes) && ringOps == old(ringOps) + syncOps
      ensures mainNode == lookup(Elems(Poll(old(Members()), scan).0.live), key)
      ensures mainNode.Some? ==> Members() == Poll(old(Members()), scan).0 &&
                                 IsSync(syncOps, old(ring), Elems(liveNodes))
      ensures mainNode.None? ==> Members() == Poll(Poll(old(Members()), scan).0, retryScan).0
      ensures mainNode.None? && Poll(old(Members()), scan).0.live == [] ==>
                NodesRemoved(syncOps) == old(ring) && NodesAdded(syncOps) == Elems(liveNodes)
    {
      var backup;
      backup, syncOps := UpdateLiveNodes(scan);
      mainNode := lookup(ring, key);
      if mainNode.None? {
        ghost var retryOps;
        backup, retryOps := UpdateLiveNodes(retryScan);
        syncOps := syncOps + retryOps;
      }
    }

    /** Resolve the primary and alternate for `key`. The ring is refreshed
        first (and once more when it yields no primary); the primary is
        taken off, the ring queried again, and the primary put back. The
        library's `remove_node(None)` and `add_node(None)` are treated as
        leaving the ring alone. `syncOps` are the ring operations of the
        syncs; the transient removal and re-addition of the primary follow. */
    method GetTargetAndAltNodeIps(key: Key, scan: Scan, retryScan: Scan)
      returns (main: Target, alt: Target, ghost syncOps: seq<RingOp>)
      requires Valid()
      modifies this`liveNodes, this`numLiveNodes, this`prevNumLiveNodes, this`ring, this`ringOps
      ensures ring == Elems(liveNodes)
      ensures Resolution(main, alt, Members()) == SyncedResolve(lookup, old(Members()), key, scan, retryScan)
      ensures main.Ip? ==> IsSync(syncOps, old(ring), Elems(liveNodes)) &&
                           ringOps == old(ringOps) + syncOps + [Removed(main.addr), Added(main.addr)]
      ensures main.Null? ==> ringOps == old(ringOps) + syncOps &&
                             NodesRemoved(syncOps) == old(ring) && NodesAdded(syncOps) == Elems(liveNodes)
    {
      var mainNode;
      mainNode, syncOps := SyncAndLookUp(key, scan, retryScan);
      if mainNode.Some? {
        RemoveNode(mainNode.value);
      }
      var altNode := lookup(ring, key);
      if mainNode.Some? {
        AddNode(mainNode.value);
      }
      main := ToTarget(mainNode);
      alt := AltTarget(altNode);
    }

    /** Rebuild the ring from scratch on `currentLiveNodes`. */
    method UpdateHashRing(currentLiveNodes: seq<NodeId>)
      modifies this`liveNodes, this`numLiveNodes, this`prevNumLiveNodes, this`ring, this`ringOps
      ensures prevNumLiveNodes == old(numLiveNodes) && numLiveNodes == |currentLiveNodes|
      ensures liveNodes == currentLiveNodes && ring == Elems(currentLiveNodes)
      ensures ringOps == old(ringOps) + [Rebuilt(Elems(currentLiveNodes))]
    {
      SetNumLiveAndPrevNodes(|currentLiveNodes|);
      liveNodes := currentLiveNodes;
      ring := Elems(liveNodes);
      ringOps := ringOps + [Rebuilt(ring)];
    }
  }

  /** The additions of the first loop followed by the removals of the
      third make a sync. */
  lemma SyncOpsCombine(adds: seq<RingOp>, removes: seq<RingOp>, nodes: seq<NodeId>,
                       before: set<NodeId>, live: set<NodeId>)
    requires SingleNodeOps(adds) && NodesAdded(adds) == live - before && NodesRemoved(adds) == {}
    requires Elems(nodes) == before - live
    requires forall i, j :: 0 <= i < j < |nodes| ==> nodes[i] != nodes[j]
    requires |removes| == |nodes| && forall j :: 0 <= j < |nodes| ==> removes[j] == Removed(nodes[j])
    ensures IsSync(adds + removes, before, live)
  {
    var ops := adds + removes;
    forall i, j | 0 <= i < j < |ops|
      ensures ops[i] != ops[j]
    {
      if j < |adds| {
        assert ops[i] == adds[i] && ops[j] == adds[j];
      } else if i >= |adds| {
        assert ops[i] == Removed(nodes[i - |adds|]) && ops[j] == Removed(nodes[j - |adds|]);
      } else {
        assert Added(ops[i].node) in adds;
        assert ops[j].Removed?;
      }
    }
    forall n | n in NodesRemoved(ops)
      ensures n in before - live
    {
      assert Removed(n) in ops;
      if Removed(n) !in adds {
        var j :| 0 <= j < |removes| && removes[j] == Removed(n);
        assert nodes[j] in Elems(nodes);
      }
    }
    forall n | n in before - live
      ensures n in NodesRemoved(ops)
    {
      var j :| 0 <= j < |nodes| && nodes[j] == n;
      assert ops[|adds| + j] == Removed(n);
    }
  }

  /** A sync of a ring that already holds exactly the live nodes does
      nothing. */
  lemma SettledSyncIsEmpty(ops: seq<RingOp>, nodes: set<NodeId>)
    requires IsSync(ops, nodes, nodes)
    ensures ops == []
  {
    FirstOpTouchesItsNode(ops);
  }

  /** The first of a run of single-node operations adds or removes its node. */
  lemma FirstOpTouchesItsNode(ops: seq<RingOp>)
    requires SingleNodeOps(ops)
    ensures ops != [] ==> ops[0].node in NodesAdded(ops) + NodesRemoved(ops)
  {
    if ops != [] {
      assert ops[0] in ops;
    }
  }

  /** Syncing twice against the same registry contents: the second sync
      reports no change and makes no ring operation. */
  method SyncTwiceScenario(h: NodeHashRing, scan: Scan)
    modifies h
    ensures h.ring == Elems(h.liveNodes)
  {
    var d1, ops1 := h.UpdateLiveNodes(scan);
    ghost var ringAfterFirst := h.ring;
    ghost var membersAfterFirst := h.Members();
    var d2, ops2 := h.UpdateLiveNodes(scan);
    PollSettles(old(h.Members()), scan);
    SettledSyncIsEmpty(ops2, ringAfterFirst);
    assert !d2 && ops2 == [];
    assert h.ring == ringAfterFirst && h.Members() == membersAfterFirst;
  }
}
