/** A cache node's local state: a primary and a backup partition, the peer
    that last answered a read or a write-through, and the routing of reads and writes between
    the local partitions and remote peers (ec2_node/ec2Node.py). */
module Node {
  import opened Types
  import opened Cache

  /** The `{"cache": .., "back_up_cache": ..}` dump of both partitions. */
  datatype FullCache = FullCache(cache: map<Key, Entry>, backUpCache: map<Key, Entry>)

  /** What the backup push ends with: the peer's answer parsed by
      `res.json()`, a status string of the node's own, or the decode error
      `res.json()` raises, uncaught, for an answer that is not JSON. */
  datatype BackupReply = Parsed(json: string) | Own(reply: Reply) | JsonDecodeErrorRaised

  /** A read's answer: the local value, or whatever the remote peer replied. */
  datatype GetReply = LocalData(data: Data) | Remote(reply: Reply)

  /** How `post_to_target_node` and `get_from_target_node` surface a
      transport outcome: a refused connection is swallowed into the 404
      marker, and only an escaping error reaches the caller. */
  function CallPeer(t: Transport): (a: Attempt<Reply>)
    ensures a.ConnError? <==> t.Escaped?
    ensures t.Delivered? ==> a == Done(Body(t.body))
    ensures t.Refused? ==> a == Done(Status404)
  {
    match t
    case Delivered(body) => Done(Body(body))
    case Refused => Done(Status404)
    case Escaped => ConnError
  }

  /** A remote read, as seen by the read path. */
  function RemoteRead(t: Transport): (a: Attempt<GetReply>)
    ensures a.ConnError? <==> t.Escaped?
    ensures a.Done? ==> a.value == Remote(CallPeer(t).value)
  {
    match CallPeer(t)
    case Done(r) => Done(Remote(r))
    case ConnError => ConnError
  }

  /** What a read through `target` yields against a primary partition
      holding `entries`: the local value when there is one, otherwise the
      remote read. */
  function ReadThrough(entries: map<Key, Entry>, key: Key, target: Target, net: Request -> Transport): (a: Attempt<GetReply>)
    ensures (a.Done? && a.value.LocalData?) <==> key in entries
    ensures key in entries ==> a.value.data == entries[key].data
    ensures a.ConnError? <==> key !in entries && net(GetValue(target, key)).Escaped?
  {
    if key in entries then Done(LocalData(entries[key].data))
    else RemoteRead(net(GetValue(target, key)))
  }

  class Ec2Node {
    const vpcPort: int
    var ip: NodeId
    /** The primary partition: keys this node serves as owner. */
    const cache: NodeCache
    /** The backup partition: data held on behalf of a neighbour. */
    const backupCache: NodeCache
    var hasBeenBackedUp: bool
    /** The node the last successful write-through or read went to. */
    var secondaryNode: Target
    /** Every request this node has sent a peer, oldest first. */
    ghost var sentRequests: seq<Request>

    ghost predicate Valid()
      reads this
    {
      cache != backupCache && backupCache.isBackup && !cache.isBackup
    }

    constructor (vpcPort: int)
      ensures Valid() && fresh(cache) && fresh(backupCache)
      ensures cache.entries == map[] && backupCache.entries == map[]
      ensures !cache.hasBeenBackedUp && !backupCache.hasBeenBackedUp
      ensures this.vpcPort == vpcPort && ip == ""
      ensures !hasBeenBackedUp && secondaryNode == Ip("") && sentRequests == []
    {
      this.vpcPort := vpcPort;
      ip := "";
      cache := new NodeCache(false);
      backupCache := new NodeCache(true);
      hasBeenBackedUp := false;
      secondaryNode := Ip("");
      sentRequests := [];
    }

    /** Write to the primary partition only. */
    method StoreDataInCache(key: Key, data: Data, expirationDate: Expiration) returns (ok: bool)
      requires Valid()
      modifies cache`entries
      ensures ok
      ensures cache.entries == old(cache.entries)[key := Entry(data, expirationDate)]
      ensures backupCache.entries == old(backupCache.entries)
    {
      ok := cache.Put(key, data, expirationDate);
      assert cache.entries == old(cache.entries)[key := Entry(data, expirationDate)];
    }

    /** Write to the backup partition only. */
    method StoreDataInBackup(key: Key, data: Data, expirationDate: Expiration) returns (ok: bool)
      requires Valid()
      modifies backupCache`entries
      ensures ok
      ensures backupCache.entries == old(backupCache.entries)[key := Entry(data, expirationDate)]
      ensures cache.entries == old(cache.entries)
    {
      ok := backupCache.Put(key, data, expirationDate);
      assert backupCache.entries == old(backupCache.entries)[key := Entry(data, expirationDate)];
    }

    /** Read the primary partition. */
    method GetDataFromCache(key: Key) returns (data: Option<Data>)
      ensures data.Some? <==> key in cache.entries
      ensures data.Some? ==> data.value == cache.entries[key].data
    {
      data := cache.Get(key);
    }

    /** Read the backup partition. */
    method GetDataFromBackup(key: Key) returns (data: Option<Data>)
      ensures data.Some? <==> key in backupCache.entries
      ensures data.Some? ==> data.value == backupCache.entries[key].data
    {
      data := backupCache.Get(key);
    }

    method GetMainCache() returns (m: map<Key, Entry>)
      ensures m == cache.entries
    {
      m := cache.GetFullCache();
    }

    method GetBackupCache() returns (m: map<Key, Entry>)
      ensures m == backupCache.entries
    {
      m := backupCache.GetFullCache();
    }

    /** Both partitions, each under its own name and never merged. */
    method GetFullCache() returns (f: FullCache)
      ensures f.cache == cache.entries && f.backUpCache == backupCache.entries
    {
      var main := GetMainCache();
      var backup := GetBackupCache();
      f := FullCache(main, backup);
    }

    /** Store locally first, then post the same item to `target`. The post
        is sent only if the local store succeeded, which it always does; the
        local write stays even when the post raises. */
    method StoreDataAndPostReq(key: Key, data: Data, expirationDate: Expiration,
                               target: Target, net: Request -> Transport)
      returns (a: Attempt<Reply>)
      requires Valid()
      modifies cache`entries, this`sentRequests
      ensures cache.entries == old(cache.entries)[key := Entry(data, expirationDate)]
      ensures backupCache.entries == old(backupCache.entries)
      ensures sentRequests == old(sentRequests) + [SetValue(target, key, data, expirationDate)]
      ensures a == CallPeer(net(SetValue(target, key, data, expirationDate)))
    {
      var hasBeenCached := StoreDataInCache(key, data, expirationDate);
      assert hasBeenCached;
      var req := SetValue(target, key, data, expirationDate);
      sentRequests := sentRequests + [req];
      a := CallPeer(net(req));
    }

    /** Use the local primary value when there is one, otherwise ask `target`.
        The source calls `store_data_in_cache(key)` at this step, which lacks
        two arguments and raises TypeError; the model performs the intended
        `get_data_from_cache(key)`. */
    method GetDataAndGetReq(key: Key, target: Target, net: Request -> Transport)
      returns (a: Attempt<GetReply>)
      modifies this`sentRequests
      ensures a == ReadThrough(cache.entries, key, target, net)
      ensures key in cache.entries ==> sentRequests == old(sentRequests)
      ensures key !in cache.entries ==> sentRequests == old(sentRequests) + [GetValue(target, key)]
    {
      var dataFromCache := GetDataFromCache(key);
      if dataFromCache.None? {
        var req := GetValue(target, key);
        sentRequests := sentRequests + [req];
        a := RemoteRead(net(req));
      } else {
        a := Done(LocalData(dataFromCache.value));
      }
    }

    /** Push the whole primary partition to `secondaryNode`. With an empty
        primary no request is sent at all; a connection error on the push
        is caught and yields the 404 marker. A delivered answer is parsed as
        JSON, and `isJson` says which answers parse; the parse error is not
        caught. */
    method BackupMainCache(startNodeIp: NodeId, numNodesInRing: int, net: Request -> Transport,
                           isJson: string -> bool)
      returns (res: BackupReply, sent: Option<Request>)
      modifies this`sentRequests
      ensures sentRequests == old(sentRequests) + (if sent.Some? then [sent.value] else [])
      ensures sent.None? <==> cache.entries == map[]
      ensures sent.None? ==> res == Own(Status200(Some("Backup cachce is empty")))
      ensures sent.Some? ==> sent.value == Backup(secondaryNode, startNodeIp, numNodesInRing, cache.entries)
      ensures sent.Some? && !net(sent.value).Delivered? ==> res == Own(Status404)
      ensures sent.Some? && net(sent.value).Delivered? ==>
                res == (if isJson(net(sent.value).body) then Parsed(net(sent.value).body) else JsonDecodeErrorRaised)
    {
      var fullCache := cache.GetFullCache();
      if fullCache != map[] {
        var req := Backup(secondaryNode, startNodeIp, numNodesInRing, fullCache);
        sent := Some(req);
        sentRequests := sentRequests + [req];
        match net(req)
        case Delivered(body) =>
          res := if isJson(body) then Parsed(body) else JsonDecodeErrorRaised;
        case Refused => res := Own(Status404);
        case Escaped => res := Own(Status404);
      } else {
        assert cache.entries == map[];
        sent := None;
        res := Own(Status200(Some("Backup cachce is empty")));
      }
    }

    /** Replace the backup partition wholesale with a neighbour's dump. */
    method BackupNeighborsCache(newCache: map<Key, Entry>) returns (res: Reply)
      requires Valid()
      modifies backupCache`entries
      ensures backupCache.entries == newCache
      ensures cache.entries == old(cache.entries)
      ensures res == Status200(None)
    {
      backupCache.entries := newCache;
      res := Status200(None);
    }
  }

  /** A neighbour's backup push never disturbs the primary partition, and
      a later push supersedes an earlier one. */
  method BackupPushScenario(n: Ec2Node, first: map<Key, Entry>, second: map<Key, Entry>)
    requires n.Valid()
    modifies n.backupCache
    ensures n.backupCache.entries == second
    ensures n.cache.entries == old(n.cache.entries)
  {
    var r1 := n.BackupNeighborsCache(first);
    var r2 := n.BackupNeighborsCache(second);
    var f := n.GetFullCache();
    assert f.backUpCache == second;
  }
}
