/** Request routing, failover, the self-exclusion of `put`, and the
    migration pass run on a membership change (app.py). The web framework,
    the registry and the network are outside: registry scans and the
    network's answer to each request are parameters. */
module App {
  import opened Types
  import opened Cache
  import opened Node
  import opened Ring

  /** What `ans.json()` makes of the write path's answer: a peer's body is
      parsed; the 404 marker is a plain string and raises AttributeError. */
  datatype PutResponse = Json(text: string) | AttributeErrorRaised

  /** The failover state machine's result: the answer, the node that
      answered (None when both attempts raised), and the targets tried. */
  datatype Trace<T> = Trace(answer: T, servedBy: Option<Target>, tried: seq<Target>)

  /** Try the primary; only if that raises a ConnectionError, try the
      alternate; if that raises too, the answer is `marker`. */
  function Failover<T>(main: Target, first: Attempt<T>, alt: Target, second: Attempt<T>, marker: T): (t: Trace<T>)
    ensures t.tried == (if first.ConnError? then [main, alt] else [main])
    ensures first.Done? ==> t.answer == first.value && t.servedBy == Some(main)
    ensures first.ConnError? && second.Done? ==> t.answer == second.value && t.servedBy == Some(alt)
    ensures first.ConnError? && second.ConnError? ==> t.answer == marker && t.servedBy == None
  {
    match first
    case Done(v) => Trace(v, Some(main), [main])
    case ConnError =>
      match second
      case Done(w) => Trace(w, Some(alt), [main, alt])
      case ConnError => Trace(marker, None, [main, alt])
  }

  /** The peer a node records after a failover: the one that answered, or
      the previous one when both attempts raised. */
  function NextSecondary<T>(t: Trace<T>, previous: Target): (s: Target)
    ensures t.servedBy.None? ==> s == previous
    ensures t.servedBy.Some? ==> s == t.servedBy.value
  {
    match t.servedBy
    case Some(n) => n
    case None => previous
  }

  /** The self-exclusion of `put`: outcome of taking this node off the ring,
      resolving a new primary, taking that off too, resolving a new
      alternate, and putting back only those two; `ops` are the ring
      operations in the order they are made. */
  datatype SelfExclusion = SelfExclusion(main: Target, alt: Target, ring: set<NodeId>, ops: seq<RingOp>)

  /** The pair and ring the self-exclusion leaves: neither target is this
      node, and this node is off the ring. */
  function ExcludeSelf(lookup: LookupFn, nodes: set<NodeId>, self: NodeId, key: Key): (r: SelfExclusion)
    requires IsRingLookup(lookup)
    ensures r.ring == nodes - {self}
    ensures r.main != Ip(self) && r.alt != Ip(self)
    ensures !r.main.Sentinel? && !r.alt.Sentinel?
    ensures r.main.Ip? <==> nodes - {self} != {}
    ensures r.main.Ip? ==> r.main.addr in nodes
  {
    var rest := nodes - {self};
    var newMain := lookup(rest, key);
    var rest2 := if newMain.Some? then rest - {newMain.value} else rest;
    var newAlt := lookup(rest2, key);
    var withMain := if newMain.Some? then rest2 + {newMain.value} else rest2;
    var withAlt := if newAlt.Some? then withMain + {newAlt.value} else withMain;
    SelfExclusion(ToTarget(newMain), ToTarget(newAlt), withAlt, ExclusionOps(self, newMain, newAlt))
  }

  /** The ring operations of the self-exclusion, given what the two ring
      queries answered: `remove_node` of this node, `remove_node` and
      `add_node` of the new primary, `add_node` of the new alternate. */
  function ExclusionOps(self: NodeId, newMain: Option<NodeId>, newAlt: Option<NodeId>): (ops: seq<RingOp>)
    ensures |ops| > 0 && ops[0] == Removed(self)
  {
    [Removed(self)] +
    (if newMain.Some? then [Removed(newMain.value), Added(newMain.value)] else []) +
    (if newAlt.Some? then [Added(newAlt.value)] else [])
  }

  /** The self-exclusion removes this node first and never adds it back;
      the nodes it adds back are exactly the new primary and the new
      alternate. */
  lemma ExcludeSelfReAddsOnlyTargets(lookup: LookupFn, nodes: set<NodeId>, self: NodeId, key: Key)
    requires IsRingLookup(lookup)
    ensures var r := ExcludeSelf(lookup, nodes, self, key);
            |r.ops| > 0 && r.ops[0] == Removed(self) && Added(self) !in r.ops &&
            forall n :: Added(n) in r.ops <==> Ip(n) == r.main || Ip(n) == r.alt
  {
    var rest := nodes - {self};
    var newMain := lookup(rest, key);
    var rest2 := if newMain.Some? then rest - {newMain.value} else rest;
    var newAlt := lookup(rest2, key);
    ExclusionOpsAddBack(self, newMain, newAlt);
  }

  /** Given query answers other than this node, the operations add back
      exactly the nodes the queries answered. */
  lemma ExclusionOpsAddBack(self: NodeId, newMain: Option<NodeId>, newAlt: Option<NodeId>)
    requires newMain.Some? ==> newMain.value != self
    requires newAlt.Some? ==> newAlt.value != self
    ensures Added(self) !in ExclusionOps(self, newMain, newAlt)
    ensures forall n :: Added(n) in ExclusionOps(self, newMain, newAlt) <==> Some(n) == newMain || Some(n) == newAlt
  {
  }

  /** The fallback of the self-exclusion exists exactly when two nodes
      other than this one are on the ring, and is then a ring node other
      than the new primary. */
  lemma ExcludeSelfFallback(lookup: LookupFn, nodes: set<NodeId>, self: NodeId, key: Key)
    requires IsRingLookup(lookup)
    ensures var r := ExcludeSelf(lookup, nodes, self, key);
            (r.alt.Ip? <==> |nodes - {self}| >= 2) &&
            (r.alt.Ip? ==> r.alt.addr in nodes && r.alt != r.main)
  {
    var rest := nodes - {self};
    var newMain := lookup(rest, key);
    if newMain.Some? {
      var rest2 := rest - {newMain.value};
      assert rest == rest2 + {newMain.value};
      assert |rest2| == |rest| - 1;
    }
  }

  /** With this node and at least two others on the ring, the write-through
      target and its fallback are two distinct other nodes. */
  lemma ExcludeSelfWithThreeNodes(lookup: LookupFn, nodes: set<NodeId>, self: NodeId, key: Key)
    requires IsRingLookup(lookup)
    requires self in nodes && |nodes| >= 3
    ensures var r := ExcludeSelf(lookup, nodes, self, key);
            r.main.Ip? && r.alt.Ip? && r.main != r.alt &&
            r.main.addr in nodes - {self} && r.alt.addr in nodes - {self}
  {
    ExcludeSelfFallback(lookup, nodes, self, key);
  }

  /** With this node and exactly one other, the other is the target and no
      fallback exists (the code passes None on, not -1). */
  lemma ExcludeSelfWithTwoNodes(lookup: LookupFn, nodes: set<NodeId>, self: NodeId, other: NodeId, key: Key)
    requires IsRingLookup(lookup)
    requires nodes == {self, other} && self != other
    ensures ExcludeSelf(lookup, nodes, self, key).main == Ip(other)
    ensures ExcludeSelf(lookup, nodes, self, key).alt == Null
  {
    ExcludeSelfFallback(lookup, nodes, self, key);
  }

  /** The write-through posts of one key, one per target tried. */
  function Posts(tried: seq<Target>, key: Key, data: Data, expirationDate: Expiration): (p: seq<Request>)
    ensures |p| == |tried|
  {
    seq(|tried|, i requires 0 <= i < |tried| => SetValue(tried[i], key, data, expirationDate))
  }

  /** The remote reads of one key, one per target tried. */
  function Reads(tried: seq<Target>, key: Key): (p: seq<Request>)
    ensures |p| == |tried|
  {
    seq(|tried|, i requires 0 <= i < |tried| => GetValue(tried[i], key))
  }

  /** The migration test `secondary != main or secondary != alt`. */
  predicate MigrationTest(secondary: Target, main: Target, alt: Target): (b: bool)
    ensures !b ==> main == alt
  {
    secondary != main || secondary != alt
  }

  /** Whatever the recorded secondary is, the test passes for every pair a
      resolution can yield, so the migration pass moves every key. */
  lemma ResolvedPairPassesMigrationTest(lookup: LookupFn, nodes: set<NodeId>, key: Key, secondary: Target)
    requires IsRingLookup(lookup)
    ensures MigrationTest(secondary, Resolve(lookup, nodes, key).0, Resolve(lookup, nodes, key).1)
  {
  }

  /** Where the migration pass stands after some keys: the membership the
      per-key resolutions left, the recorded secondary, and the posts sent
      so far. */
  datatype MigrationState = MigrationState(members: Membership, secondary: Target, posts: seq<Request>)

  /** One key of the migration pass: resolve its pair after a sync; when the
      test passes, write the popped entry through to the primary and, only
      if that raised, to the alternate; when both raise, go on to the next
      key with the secondary as it was. `posts` is the node's request log. */
  function MigrationStep(lookup: LookupFn, s: MigrationState, key: Key, e: Entry,
                         scan: Scan, retryScan: Scan, net: Request -> Transport): (r: MigrationState)
    requires IsRingLookup(lookup)
    ensures |s.posts| < |r.posts| <= |s.posts| + 2
  {
    var r := SyncedResolve(lookup, s.members, key, scan, retryScan);
    if MigrationTest(s.secondary, r.main, r.alt) then
      var t := Failover(r.main, CallPeer(net(SetValue(r.main, key, e.data, e.expirationDate))),
                        r.alt, CallPeer(net(SetValue(r.alt, key, e.data, e.expirationDate))), Status404);
      MigrationState(r.members, NextSecondary(t, s.secondary), s.posts + Posts(t.tried, key, e.data, e.expirationDate))
    else
      assert false;
      s
  }

  /** `order` lists each key of `keys` exactly once. */
  predicate Enumerates(order: seq<Key>, keys: set<Key>)
  {
    (forall k :: k in order ==> k in keys) && (forall k :: k in keys ==> k in order) && |order| == |keys|
  }

  /** One key's step appends a post to its primary and, exactly when that
      raised, one to its alternate, both carrying the key's entry; the
      membership is what the key's resolution left. */
  lemma MigrationStepPosts(lookup: LookupFn, s: MigrationState, key: Key, e: Entry,
                           scan: Scan, retryScan: Scan, net: Request -> Transport)
    requires IsRingLookup(lookup)
    ensures var r := SyncedResolve(lookup, s.members, key, scan, retryScan);
            var s' := MigrationStep(lookup, s, key, e, scan, retryScan, net);
            s'.members == r.members &&
            |s.posts| < |s'.posts| <= |s.posts| + 2 && s'.posts[..|s.posts|] == s.posts &&
            s'.posts[|s.posts|] == SetValue(r.main, key, e.data, e.expirationDate) &&
            (|s'.posts| == |s.posts| + 2 <==> CallPeer(net(SetValue(r.main, key, e.data, e.expirationDate))).ConnError?) &&
            (|s'.posts| == |s.posts| + 2 ==> s'.posts[|s.posts| + 1] == SetValue(r.alt, key, e.data, e.expirationDate))
  {
  }

  /** The migration pass over the keys of `snapshot` in the order `keys`. */
  function Migration(lookup: LookupFn, s0: MigrationState, snapshot: map<Key, Entry>, keys: seq<Key>,
                     scans: Key -> Scan, retryScans: Key -> Scan, net: Request -> Transport): (r: MigrationState)
    requires IsRingLookup(lookup)
    requires forall i :: 0 <= i < |keys| ==> keys[i] in snapshot
    ensures |s0.posts| + |keys| <= |r.posts|
    decreases |keys|
  {
    if keys == [] then s0
    else
      var k := keys[|keys| - 1];
      MigrationStep(lookup, Migration(lookup, s0, snapshot, keys[..|keys| - 1], scans, retryScans, net),
                    k, snapshot[k], scans(k), retryScans(k), net)
  }

  /** A post of the migration pass: a `SetValue` of one of the visited keys
      carrying that key's snapshot entry unchanged. */
  predicate IsMigrationPost(req: Request, snapshot: map<Key, Entry>, keys: seq<Key>)
  {
    req.SetValue? && req.key in keys && req.key in snapshot &&
    req.data == snapshot[req.key].data && req.expirationDate == snapshot[req.key].expirationDate
  }

  /** The migration pass only appends to the log; every post it appends
      carries a visited key's own entry; and every key is posted once or,
      after a raise, twice. */
  lemma {:induction false} MigrationPostsCarryTheSnapshot(lookup: LookupFn, s0: MigrationState, snapshot: map<Key, Entry>,
                                                          keys: seq<Key>, scans: Key -> Scan, retryScans: Key -> Scan,
                                                          net: Request -> Transport)
    requires IsRingLookup(lookup)
    requires forall i :: 0 <= i < |keys| ==> keys[i] in snapshot
    ensures var s := Migration(lookup, s0, snapshot, keys, scans, retryScans, net);
            |s0.posts| + |keys| <= |s.posts| <= |s0.posts| + 2 * |keys| &&
            s.posts[..|s0.posts|] == s0.posts &&
            forall i :: |s0.posts| <= i < |s.posts| ==> IsMigrationPost(s.posts[i], snapshot, keys)
  {
    if keys != [] {
      var init := keys[..|keys| - 1];
      var k := keys[|keys| - 1];
      MigrationPostsCarryTheSnapshot(lookup, s0, snapshot, init, scans, retryScans, net);
      var p := Migration(lookup, s0, snapshot, init, scans, retryScans, net);
      var s := Migration(lookup, s0, snapshot, keys, scans, retryScans, net);
      assert s == MigrationStep(lookup, p, k, snapshot[k], scans(k), retryScans(k), net);
      MigrationStepPosts(lookup, p, k, snapshot[k], scans(k), retryScans(k), net);
      assert s.posts[..|s0.posts|] == p.posts[..|s0.posts|] by {
        assert s.posts[..|p.posts|] == p.posts;
      }
      forall i | |s0.posts| <= i < |s.posts|
        ensures IsMigrationPost(s.posts[i], snapshot, keys)
      {
        if i < |p.posts| {
          assert s.posts[i] == p.posts[i] by {
            assert s.posts[..|p.posts|] == p.posts;
          }
          var j :| 0 <= j < |init| && init[j] == p.posts[i].key;
          assert keys[j] == init[j];
        } else {
          assert s.posts[i].key == keys[|keys| - 1];
        }
      }
    }
  }

  /** The log `q` holds a post of `key` at position `from` or later. */
  predicate PostedAfter(q: seq<Request>, from: nat, key: Key)
  {
    exists i :: from <= i < |q| && q[i].SetValue? && q[i].key == key
  }

  /** A log that extends `p` with a post of `k` still posts every key `p`
      did, and `k` too. */
  lemma PostedKeysExtend(p: seq<Request>, q: seq<Request>, from: nat, init: seq<Key>, k: Key, keys: seq<Key>)
    requires keys == init + [k]
    requires from <= |p| < |q| && q[..|p|] == p
    requires q[|p|].SetValue? && q[|p|].key == k
    requires forall j :: 0 <= j < |init| ==> PostedAfter(p, from, init[j])
    ensures forall j :: 0 <= j < |keys| ==> PostedAfter(q, from, keys[j])
  {
    forall j | 0 <= j < |keys|
      ensures PostedAfter(q, from, keys[j])
    {
      if j < |init| {
        assert exists i :: from <= i < |p| && p[i].SetValue? && p[i].key == init[j];
        var i :| from <= i < |p| && p[i].SetValue? && p[i].key == init[j];
        assert q[i] == q[..|p|][i];
      } else {
        assert q[|p|].key == keys[j];
      }
    }
  }

  /** One key's step keeps the log so far and appends a post of that key. */
  lemma MigrationStepExtendsLog(lookup: LookupFn, s: MigrationState, key: Key, e: Entry,
                                scan: Scan, retryScan: Scan, net: Request -> Transport)
    requires IsRingLookup(lookup)
    ensures var s' := MigrationStep(lookup, s, key, e, scan, retryScan, net);
            |s.posts| < |s'.posts| && s'.posts[..|s.posts|] == s.posts &&
            s'.posts[|s.posts|].SetValue? && s'.posts[|s.posts|].key == key
  {
    MigrationStepPosts(lookup, s, key, e, scan, retryScan, net);
  }

  /** A non-empty sequence is its front followed by its last element. */
  lemma SplitLast<T>(s: seq<T>)
    requires s != []
    ensures s == s[..|s| - 1] + [s[|s| - 1]]
    ensures forall i :: 0 <= i < |s| - 1 ==> s[..|s| - 1][i] == s[i]
  {
  }

  /** Every visited key is posted, after the posts already in the log. */
  lemma {:induction false} MigrationPostsEveryKey(lookup: LookupFn, s0: MigrationState, snapshot: map<Key, Entry>,
                                                  keys: seq<Key>, scans: Key -> Scan, retryScans: Key -> Scan,
                                                  net: Request -> Transport)
    requires IsRingLookup(lookup)
    requires forall i :: 0 <= i < |keys| ==> keys[i] in snapshot
    ensures var s := Migration(lookup, s0, snapshot, keys, scans, retryScans, net);
            |s0.posts| <= |s.posts| &&
            forall j :: 0 <= j < |keys| ==> PostedAfter(s.posts, |s0.posts|, keys[j])
  {
    if keys != [] {
      var init := keys[..|keys| - 1];
      var k := keys[|keys| - 1];
      SplitLast(keys);
      MigrationPostsEveryKey(lookup, s0, snapshot, init, scans, retryScans, net);
      MigrationUnfolds(lookup, s0, snapshot, init, k, scans, retryScans, net);
      var p := Migration(lookup, s0, snapshot, init, scans, retryScans, net);
      var s := Migration(lookup, s0, snapshot, keys, scans, retryScans, net);
      MigrationStepExtendsLog(lookup, p, k, snapshot[k], scans(k), retryScans(k), net);
      PostedKeysExtend(p.posts, s.posts, |s0.posts|, init, k, keys);
    }
  }

  /** The self-exclusion spelled out as the ring queries it makes. */
  lemma ExcludeSelfSteps(lookup: LookupFn, nodes: set<NodeId>, self: NodeId, key: Key)
    requires IsRingLookup(lookup)
    ensures var newMain := lookup(nodes - {self}, key);
            var rest2 := if newMain.Some? then nodes - {self} - {newMain.value} else nodes - {self};
            var newAlt := lookup(rest2, key);
            var withMain := if newMain.Some? then rest2 + {newMain.value} else rest2;
            ExcludeSelf(lookup, nodes, self, key) ==
            SelfExclusion(ToTarget(newMain), ToTarget(newAlt),
                          if newAlt.Some? then withMain + {newAlt.value} else withMain,
                          ExclusionOps(self, newMain, newAlt))
  {
  }

  /** The process-wide state of one node: its cache node, its ring, and the
      live-node count at the last migration. */
  class Server {
    const node: Ec2Node
    const nodesHashRing: NodeHashRing
    var liveNodesPool: int

    ghost predicate Valid()
      reads this, node, nodesHashRing
    {
      node.Valid() && nodesHashRing.Valid()
    }

    /** Module start-up: a node on port 8080, a ring built from the first
        registry scan, and a pool count of 1. */
    constructor (lookup: LookupFn, scan: Scan)
      requires IsRingLookup(lookup)
      ensures Valid()
      ensures fresh(node) && fresh(node.cache) && fresh(node.backupCache) && fresh(nodesHashRing)
      ensures node.cache.entries == map[] && node.backupCache.entries == map[]
      ensures node.ip == "" && node.secondaryNode == Ip("") && node.sentRequests == []
      ensures (nodesHashRing.Members(), nodesHashRing.doBackup) == Poll(Membership(0, 0, []), scan)
      ensures nodesHashRing.ring == Elems(nodesHashRing.liveNodes)
      ensures nodesHashRing.lookup == lookup && !nodesHashRing.changeInNumNodes
      ensures node.vpcPort == 8080 && !node.hasBeenBackedUp
      ensures liveNodesPool == 1
    {
      node := new Ec2Node(8080);
      nodesHashRing := new NodeHashRing(lookup, scan);
      liveNodesPool := 1;
    }

    /** Record this node's public IP, discovered outside the model. */
    method Setup(ipAddress: NodeId)
      modifies node`ip
      ensures node.ip == ipAddress
    {
      node.ip := ipAddress;
    }

    /** The read route: sync the ring, resolve primary and alternate (which
        syncs again), then read through the primary and fall back to the
        alternate only when the primary attempt raised. */
    method Get(key: Key, syncScan: Scan, scan: Scan, retryScan: Scan, net: Request -> Transport)
      returns (ans: GetReply, main: Target, alt: Target, tried: seq<Target>)
      requires Valid()
      modifies node`secondaryNode, node`sentRequests, nodesHashRing`liveNodes,
               nodesHashRing`numLiveNodes, nodesHashRing`prevNumLiveNodes, nodesHashRing`ring, nodesHashRing`ringOps
      ensures Valid()
      ensures var r := SyncedResolve(nodesHashRing.lookup, Poll(old(nodesHashRing.Members()), syncScan).0, key, scan, retryScan);
              main == r.main && alt == r.alt && nodesHashRing.Members() == r.members
      ensures nodesHashRing.ring == Elems(nodesHashRing.liveNodes)
      ensures nodesHashRing.doBackup == old(nodesHashRing.doBackup)
      ensures nodesHashRing.changeInNumNodes == old(nodesHashRing.changeInNumNodes)
      ensures node.cache.entries == old(node.cache.entries)
      ensures node.backupCache.entries == old(node.backupCache.entries)
      ensures var t := Failover(main, ReadThrough(node.cache.entries, key, main, net),
                                alt, ReadThrough(node.cache.entries, key, alt, net), Remote(Status404));
              ans == t.answer && tried == t.tried &&
              node.secondaryNode == NextSecondary(t, old(node.secondaryNode)) &&
              node.sentRequests == old(node.sentRequests) + (if key in node.cache.entries then [] else Reads(tried, key))
    {
      main, alt := RouteTargets(key, syncScan, scan, retryScan);
      ans, tried := ReadWithFailover(key, main, alt, net);
    }

    /** The start of both routes: the route's own sync, then the resolution
        of `key`, which syncs again. */
    method RouteTargets(key: Key, syncScan: Scan, scan: Scan, retryScan: Scan) returns (main: Target, alt: Target)
      requires Valid()
      modifies nodesHashRing`liveNodes, nodesHashRing`numLiveNodes, nodesHashRing`prevNumLiveNodes,
               nodesHashRing`ring, nodesHashRing`ringOps
      ensures var r := SyncedResolve(nodesHashRing.lookup, Poll(old(nodesHashRing.Members()), syncScan).0, key, scan, retryScan);
              main == r.main && alt == r.alt && nodesHashRing.Members() == r.members
      ensures nodesHashRing.ring == Elems(nodesHashRing.liveNodes)
    {
      var backup, syncOps := nodesHashRing.UpdateLiveNodes(syncScan);
      ghost var resolveOps;
      main, alt, resolveOps := nodesHashRing.GetTargetAndAltNodeIps(key, scan, retryScan);
    }

    /** Read through `main`; only if that raised, read through `alt`; if
        both raised, the 404 marker. The recorded secondary follows the node
        that answered. */
    method ReadWithFailover(key: Key, main: Target, alt: Target, net: Request -> Transport)
      returns (ans: GetReply, tried: seq<Target>)
      modifies node`secondaryNode, node`sentRequests
      ensures var t := Failover(main, ReadThrough(node.cache.entries, key, main, net),
                                alt, ReadThrough(node.cache.entries, key, alt, net), Remote(Status404));
              ans == t.answer && tried == t.tried &&
              node.secondaryNode == NextSecondary(t, old(node.secondaryNode)) &&
              node.sentRequests == old(node.sentRequests) + (if key in node.cache.entries then [] else Reads(tried, key))
    {
      var first := node.GetDataAndGetReq(key, main, net);
      if first.Done? {
        ans := first.value;
        node.secondaryNode := main;
        tried := [main];
      } else {
        tried := [main, alt];
        var second := node.GetDataAndGetReq(key, alt, net);
        if second.Done? {
          ans := second.value;
          node.secondaryNode := alt;
        } else {
          ans := Remote(Status404);
        }
      }
    }

    /** The write route: sync the ring and resolve; if this node is the
        primary, exclude it and resolve a new pair; then store locally and
        write through to the primary, falling back to the alternate only
        when that raised. This node is not put back on the ring. */
    method Put(key: Key, data: Data, expirationDate: Expiration,
               syncScan: Scan, scan: Scan, retryScan: Scan, net: Request -> Transport)
      returns (ans: Reply, response: PutResponse, resolved: Target, main: Target, alt: Target, tried: seq<Target>)
      requires Valid()
      modifies node`secondaryNode, node`sentRequests, node.cache`entries, nodesHashRing`liveNodes,
               nodesHashRing`numLiveNodes, nodesHashRing`prevNumLiveNodes, nodesHashRing`ring, nodesHashRing`ringOps
      ensures Valid()
      ensures node.cache.entries == old(node.cache.entries)[key := Entry(data, expirationDate)]
      ensures node.backupCache.entries == old(node.backupCache.entries)
      ensures nodesHashRing.doBackup == old(nodesHashRing.doBackup)
      ensures nodesHashRing.changeInNumNodes == old(nodesHashRing.changeInNumNodes)
      ensures var r := SyncedResolve(nodesHashRing.lookup, Poll(old(nodesHashRing.Members()), syncScan).0, key, scan, retryScan);
              resolved == r.main && nodesHashRing.Members() == r.members &&
              (resolved != Ip(node.ip) ==>
                 main == r.main && alt == r.alt && nodesHashRing.ring == Elems(nodesHashRing.liveNodes))
      ensures resolved == Ip(node.ip) ==>
                var x := ExcludeSelf(nodesHashRing.lookup, Elems(nodesHashRing.liveNodes), node.ip, key);
                main == x.main && alt == x.alt && nodesHashRing.ring == x.ring
      ensures resolved == Ip(node.ip) ==> node.ip !in nodesHashRing.ring
      ensures var t := Failover(main, CallPeer(net(SetValue(main, key, data, expirationDate))),
                                alt, CallPeer(net(SetValue(alt, key, data, expirationDate))), Status404);
              ans == t.answer && tried == t.tried &&
              node.secondaryNode == NextSecondary(t, old(node.secondaryNode)) &&
              node.sentRequests == old(node.sentRequests) + Posts(tried, key, data, expirationDate)
      ensures response == if ans.Body? then Json(ans.text) else AttributeErrorRaised
    {
      resolved, main, alt := WriteTargets(key, syncScan, scan, retryScan);
      ans, tried := WriteThrough(key, data, expirationDate, main, alt, net);
      response := if ans.Body? then Json(ans.text) else AttributeErrorRaised;
    }

    /** The first half of the write route: sync, resolve, and when the pair
        resolved to this node, exclude it and resolve again. */
    method WriteTargets(key: Key, syncScan: Scan, scan: Scan, retryScan: Scan)
      returns (resolved: Target, main: Target, alt: Target)
      requires Valid()
      modifies nodesHashRing`liveNodes, nodesHashRing`numLiveNodes, nodesHashRing`prevNumLiveNodes, nodesHashRing`ring, nodesHashRing`ringOps
      ensures var r := SyncedResolve(nodesHashRing.lookup, Poll(old(nodesHashRing.Members()), syncScan).0, key, scan, retryScan);
              resolved == r.main && nodesHashRing.Members() == r.members &&
              (resolved != Ip(node.ip) ==>
                 main == r.main && alt == r.alt && nodesHashRing.ring == Elems(nodesHashRing.liveNodes))
      ensures resolved == Ip(node.ip) ==>
                var x := ExcludeSelf(nodesHashRing.lookup, Elems(nodesHashRing.liveNodes), node.ip, key);
                main == x.main && alt == x.alt && nodesHashRing.ring == x.ring
      ensures resolved == Ip(node.ip) ==> node.ip !in nodesHashRing.ring
    {
      main, alt := RouteTargets(key, syncScan, scan, retryScan);
      resolved := main;
      if main == Ip(node.ip) {
        main, alt := ExcludeSelfFromRing(key);
      }
    }

    /** Take this node off the ring, resolve a new primary, take that off,
        resolve a new alternate, then put back the new primary and the new
        alternate only. The ring library's `remove_node(None)` and
        `add_node(None)` are treated as leaving the ring alone. */
    method ExcludeSelfFromRing(key: Key) returns (main: Target, alt: Target)
      requires Valid()
      modifies nodesHashRing`ring, nodesHashRing`ringOps
      ensures var x := ExcludeSelf(nodesHashRing.lookup, old(nodesHashRing.ring), node.ip, key);
              main == x.main && alt == x.alt && nodesHashRing.ring == x.ring &&
              nodesHashRing.ringOps == old(nodesHashRing.ringOps) + x.ops
    {
      ghost var ring0, ops0 := nodesHashRing.ring, nodesHashRing.ringOps;
      var self := node.ip;
      nodesHashRing.RemoveNode(self);
      var newMain := nodesHashRing.lookup(nodesHashRing.ring, key);
      if newMain.Some? {
        nodesHashRing.RemoveNode(newMain.value);
      }
      var newAltNode := nodesHashRing.lookup(nodesHashRing.ring, key);
      ghost var ring2 := nodesHashRing.ring;
      if newMain.Some? {
        nodesHashRing.AddNode(newMain.value);
      }
      if newAltNode.Some? {
        nodesHashRing.AddNode(newAltNode.value);
      }
      main, alt := ToTarget(newMain), ToTarget(newAltNode);
      ExcludeSelfSteps(nodesHashRing.lookup, ring0, self, key);
      assert nodesHashRing.ringOps == ops0 + ExclusionOps(self, newMain, newAltNode);
    }
    /** Store locally and write through to `main`; only if that raised,
        store again and write through to `alt`; if both raised, the 404
        marker. The recorded secondary follows the node that answered. */
    method WriteThrough(key: Key, data: Data, expirationDate: Expiration,
                        main: Target, alt: Target, net: Request -> Transport)
      returns (ans: Reply, tried: seq<Target>)
      requires Valid()
      modifies node`secondaryNode, node`sentRequests, node.cache`entries
      ensures node.cache.entries == old(node.cache.entries)[key := Entry(data, expirationDate)]
      ensures node.backupCache.entries == old(node.backupCache.entries)
      ensures var t := Failover(main, CallPeer(net(SetValue(main, key, data, expirationDate))),
                                alt, CallPeer(net(SetValue(alt, key, data, expirationDate))), Status404);
              ans == t.answer && tried == t.tried &&
              node.secondaryNode == NextSecondary(t, old(node.secondaryNode)) &&
              node.sentRequests == old(node.sentRequests) + Posts(tried, key, data, expirationDate)
    {
      var first := node.StoreDataAndPostReq(key, data, expirationDate, main, net);
      if first.Done? {
        ans := first.value;
        node.secondaryNode := main;
        tried := [main];
      } else {
        tried := [main, alt];
        var second := node.StoreDataAndPostReq(key, data, expirationDate, alt, net);
        if second.Done? {
          ans := second.value;
          node.secondaryNode := alt;
        } else {
          ans := Status404;
        }
      }
    }

    /** The health-check hook: poll the registry and run the migration pass
        only when the live count differs from the pool count. */
    method NodeHealthCheck(scan: Scan, scans: Key -> Scan, retryScans: Key -> Scan, net: Request -> Transport)
      returns (currentLiveNodes: seq<NodeId>, ran: bool, ghost order: seq<Key>)
      requires Valid()
      modifies this`liveNodesPool, node`secondaryNode, node`sentRequests, node.cache`entries,
               nodesHashRing`liveNodes, nodesHashRing`numLiveNodes, nodesHashRing`prevNumLiveNodes, nodesHashRing`ring, nodesHashRing`ringOps
      ensures Valid()
      ensures currentLiveNodes == Poll(old(nodesHashRing.Members()), scan).0.live
      ensures ran <==> |currentLiveNodes| != old(liveNodesPool)
      ensures !ran ==> liveNodesPool == old(liveNodesPool) && order == [] &&
                       nodesHashRing.Members() == Poll(old(nodesHashRing.Members()), scan).0 &&
                       nodesHashRing.ring == old(nodesHashRing.ring) &&
                       node.secondaryNode == old(node.secondaryNode) && node.sentRequests == old(node.sentRequests)
      ensures ran ==> liveNodesPool == |currentLiveNodes| &&
                      Enumerates(order, old(node.cache.entries).Keys) &&
                      var s := Migration(nodesHashRing.lookup,
                                         MigrationState(Membership(|currentLiveNodes|, Poll(old(nodesHashRing.Members()), scan).0.num, currentLiveNodes),
                                                        old(node.secondaryNode), old(node.sentRequests)),
                                         old(node.cache.entries), order, scans, retryScans, net);
                      MigrationState(nodesHashRing.Members(), node.secondaryNode, node.sentRequests) == s
      ensures ran ==> nodesHashRing.ring == Elems(nodesHashRing.liveNodes)
      ensures node.cache.entries == old(node.cache.entries)
      ensures node.backupCache.entries == old(node.backupCache.entries)
    {
      var changed;
      currentLiveNodes, changed := nodesHashRing.GetLiveNodeList(scan);
      var numCurrentLiveNodes := |currentLiveNodes|;
      ran := numCurrentLiveNodes != liveNodesPool;
      order := [];
      if ran {
        order := UpdateHashRingNodesWithData(currentLiveNodes, numCurrentLiveNodes, scans, retryScans, net);
      }
    }

    /** The migration pass: rebuild the ring, then for each key of a
        snapshot of the primary partition resolve its new pair, pop the
        entry and write it through (storing it locally again first), falling
        back to the alternate. `order` is the order the keys were visited
        in: each key of the snapshot exactly once. */
    method UpdateHashRingNodesWithData(currentLiveNodes: seq<NodeId>, newNumLiveNodes: int,
                                       scans: Key -> Scan, retryScans: Key -> Scan,
                                       net: Request -> Transport)
      returns (ghost order: seq<Key>)
      requires Valid()
      modifies this`liveNodesPool, node`secondaryNode, node`sentRequests, node.cache`entries,
               nodesHashRing`liveNodes, nodesHashRing`numLiveNodes, nodesHashRing`prevNumLiveNodes, nodesHashRing`ring, nodesHashRing`ringOps
      ensures Valid()
      ensures Enumerates(order, old(node.cache.entries).Keys)
      ensures var s := Migration(nodesHashRing.lookup,
                                 MigrationState(Membership(|currentLiveNodes|, old(nodesHashRing.numLiveNodes), currentLiveNodes),
                                                old(node.secondaryNode), old(node.sentRequests)),
                                 old(node.cache.entries), order, scans, retryScans, net);
              MigrationState(nodesHashRing.Members(), node.secondaryNode, node.sentRequests) == s
      ensures node.cache.entries == old(node.cache.entries)
      ensures node.backupCache.entries == old(node.backupCache.entries)
      ensures nodesHashRing.ring == Elems(nodesHashRing.liveNodes)
      ensures liveNodesPool == newNumLiveNodes
    {
      nodesHashRing.UpdateHashRing(currentLiveNodes);
      var nodeCache := node.cache.GetFullCache();
      order := MigrateSnapshot(nodeCache, scans, retryScans, net);
      liveNodesPool := newNumLiveNodes;
    }

    /** The loop of the migration pass over `snapshot`, a copy of the
        primary partition: every key once, each as `MigrationStep` says. */
    method MigrateSnapshot(snapshot: map<Key, Entry>, scans: Key -> Scan, retryScans: Key -> Scan,
                           net: Request -> Transport)
      returns (ghost order: seq<Key>)
      requires Valid()
      requires node.cache.entries == snapshot
      requires nodesHashRing.ring == Elems(nodesHashRing.liveNodes)
      modifies node`secondaryNode, node`sentRequests, node.cache`entries,
               nodesHashRing`liveNodes, nodesHashRing`numLiveNodes, nodesHashRing`prevNumLiveNodes, nodesHashRing`ring, nodesHashRing`ringOps
      ensures Valid()
      ensures Enumerates(order, snapshot.Keys)
      ensures MigrationState(nodesHashRing.Members(), node.secondaryNode, node.sentRequests) ==
              Migration(nodesHashRing.lookup,
                        MigrationState(old(nodesHashRing.Members()), old(node.secondaryNode), old(node.sentRequests)),
                        snapshot, order, scans, retryScans, net)
      ensures node.cache.entries == snapshot
      ensures node.backupCache.entries == old(node.backupCache.entries)
      ensures nodesHashRing.ring == Elems(nodesHashRing.liveNodes)
    {
      ghost var s0 := MigrationState(nodesHashRing.Members(), node.secondaryNode, node.sentRequests);
      var pending := snapshot.Keys;
      ghost var visited: set<Key> := {};
      order := [];
      while pending != {}
        invariant Valid()
        invariant Visiting(order, visited, pending, snapshot)
        invariant node.cache.entries == snapshot
        invariant node.backupCache.entries == old(node.backupCache.entries)
        invariant nodesHashRing.ring == Elems(nodesHashRing.liveNodes)
        invariant MigrationState(nodesHashRing.Members(), node.secondaryNode, node.sentRequests) ==
                  Migration(nodesHashRing.lookup, s0, snapshot, order, scans, retryScans, net)
        decreases pending
      {
        var key :| key in pending;
        MigrateNext(key, scans, retryScans, net, s0, snapshot, order);
        VisitingStep(order, visited, pending, snapshot, key);
        order := order + [key];
        visited := visited + {key};
        pending := pending - {key};
      }
    }

    /** The pass so far extended by one key. */
    method MigrateNext(key: Key, scans: Key -> Scan, retryScans: Key -> Scan, net: Request -> Transport,
                       ghost s0: MigrationState, ghost snapshot: map<Key, Entry>, ghost order: seq<Key>)
      requires Valid()
      requires key in snapshot && node.cache.entries == snapshot
      requires forall i :: 0 <= i < |order| ==> order[i] in snapshot
      requires MigrationState(nodesHashRing.Members(), node.secondaryNode, node.sentRequests) ==
               Migration(nodesHashRing.lookup, s0, snapshot, order, scans, retryScans, net)
      modifies node`secondaryNode, node`sentRequests, node.cache`entries,
               nodesHashRing`liveNodes, nodesHashRing`numLiveNodes, nodesHashRing`prevNumLiveNodes, nodesHashRing`ring, nodesHashRing`ringOps
      ensures Valid()
      ensures forall i :: 0 <= i < |order + [key]| ==> (order + [key])[i] in snapshot
      ensures MigrationState(nodesHashRing.Members(), node.secondaryNode, node.sentRequests) ==
              Migration(nodesHashRing.lookup, s0, snapshot, order + [key], scans, retryScans, net)
      ensures node.cache.entries == snapshot
      ensures node.backupCache.entries == old(node.backupCache.entries)
      ensures nodesHashRing.ring == Elems(nodesHashRing.liveNodes)
    {
      MigrationUnfolds(nodesHashRing.lookup, s0, snapshot, order, key, scans, retryScans, net);
      MigrateKey(key, scans(key), retryScans(key), net);
    }

    /** One key of the migration pass, as `MigrationStep` describes it: the
        entry is popped and stored again by the write-through, so the
        primary partition ends as it began. */
    method MigrateKey(key: Key, scan: Scan, retryScan: Scan, net: Request -> Transport)
      requires Valid()
      requires key in node.cache.entries
      modifies node`secondaryNode, node`sentRequests, node.cache`entries,
               nodesHashRing`liveNodes, nodesHashRing`numLiveNodes, nodesHashRing`prevNumLiveNodes, nodesHashRing`ring, nodesHashRing`ringOps
      ensures Valid()
      ensures MigrationState(nodesHashRing.Members(), node.secondaryNode, node.sentRequests) ==
              MigrationStep(nodesHashRing.lookup, MigrationState(old(nodesHashRing.Members()), old(node.secondaryNode), old(node.sentRequests)),
                            key, old(node.cache.entries)[key], scan, retryScan, net)
      ensures node.cache.entries == old(node.cache.entries)
      ensures node.backupCache.entries == old(node.backupCache.entries)
      ensures nodesHashRing.ring == Elems(nodesHashRing.liveNodes)
    {
      var newMainNode, newAltNode, syncOps := nodesHashRing.GetTargetAndAltNodeIps(key, scan, retryScan);
      if node.secondaryNode != newMainNode || node.secondaryNode != newAltNode {
        var dateFromKey := node.cache.PopItem(key);
        var entry := dateFromKey.value;
        PopThenPutRestores(old(node.cache.entries), key);
        // a write-through that raises on both nodes moves on (`continue`)
        var ans, tried := WriteThrough(key, entry.data, entry.expirationDate, newMainNode, newAltNode, net);
      }
    }
  }

  /** Part way through a pass over `snapshot`: `order` lists the keys
      visited so far, each once, and `pending` holds the rest. */
  ghost predicate Visiting(order: seq<Key>, visited: set<Key>, pending: set<Key>, snapshot: map<Key, Entry>)
  {
    visited + pending == snapshot.Keys && visited !! pending && Enumerates(order, visited) &&
    forall i :: 0 <= i < |order| ==> order[i] in snapshot
  }

  /** Visiting one pending key moves it from `pending` to `visited` and to
      the end of `order`. */
  lemma VisitingStep(order: seq<Key>, visited: set<Key>, pending: set<Key>, snapshot: map<Key, Entry>, key: Key)
    requires Visiting(order, visited, pending, snapshot) && key in pending
    ensures Visiting(order + [key], visited + {key}, pending - {key}, snapshot)
  {
  }

  /** The migration pass over one more key is one more step. */
  lemma MigrationUnfolds(lookup: LookupFn, s0: MigrationState, snapshot: map<Key, Entry>, keys: seq<Key>, key: Key,
                         scans: Key -> Scan, retryScans: Key -> Scan, net: Request -> Transport)
    requires IsRingLookup(lookup)
    requires forall i :: 0 <= i < |keys| ==> keys[i] in snapshot
    requires key in snapshot
    ensures forall i :: 0 <= i < |keys + [key]| ==> (keys + [key])[i] in snapshot
    ensures Migration(lookup, s0, snapshot, keys + [key], scans, retryScans, net) ==
            MigrationStep(lookup, Migration(lookup, s0, snapshot, keys, scans, retryScans, net),
                          key, snapshot[key], scans(key), retryScans(key), net)
  {
    assert (keys + [key])[..|keys|] == keys;
  }
}
