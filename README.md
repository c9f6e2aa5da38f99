# Peer-to-peer in-memory cache: node state, ring membership and routing

This project models the coordination core of a small peer-to-peer cache.
Each node runs as a web service and keeps two cache partitions: the primary
holds keys the node owns, the backup holds data pushed by a neighbour. Nodes
find each other through a consistent-hash ring over the live nodes' IPs. The
live nodes are those whose heartbeat in a liveness registry is at most 15 s old.

The model has five modules, one per source file plus shared types:

- `Types`: node identities, cache entries, ring targets and the abstract
  outcome of an HTTP call.
- `Cache` (`ec2_node/nodeCache.py`): class `NodeCache`, a map mutated in place.
- `Node` (`ec2_node/ec2Node.py`): class `Ec2Node`, which holds the two
  partitions, the peer that last answered a read or a write-through, and the
  local side of remote reads, writes and backups.
- `Ring` (`ec2_node/nodeHashRing.py`): class `NodeHashRing`. It holds the
  membership counters, the live list and the ring's node set. It provides the
  registry filter, the incremental ring sync, the full rebuild and
  primary/alternate resolution.
- `App` (`app.py`): class `Server`, which stands for the module's globals. It
  provides the read and write routes with their one-hop failover, the
  self-exclusion step of a write, the health-check gate and the migration pass.

How the outside world appears:

- The ring library (`uhashring`) is a set of node names. Its `get_node` is a
  `LookupFn` held by the ring object. All that is assumed of it
  (`IsRingLookup`): a non-empty ring answers with one of its own nodes, and an
  empty ring answers None.
- A registry scan is a parameter: `Scanned(rows, now)`, or `ScanFailed` when
  the scan raises (the state is left as it was). `now` is the clock reading in
  milliseconds.
- The network is a parameter `net: Request -> Transport`. It maps each request
  to one of three outcomes:
  - `Delivered(body)`: the peer answers.
  - `Refused`: a ConnectionError that the node code catches and turns into the
    404 marker.
  - `Escaped`: a ConnectionError that reaches the routes' `except` clauses.
    The shown node code catches every ConnectionError, so only a transport
    that raises some other way reaches those fallbacks.
- Sending is recorded in a ghost request log on the node (`sentRequests`).
  Every remote read, write-through post and backup push appends its request.
  The routes and the migration pass state their effect on the network as
  the exact requests they append, in order. The log has no counterpart in
  the code.
- Every `add_node`, `remove_node` and rebuild of the ring is recorded in a
  ghost log on the ring object (`ringOps`). A sync is stated as the
  operations it makes (`IsSync`): each node in exactly one of the old ring
  and the live list is added or removed once, and nothing else is touched.
  This log has no counterpart in the code either.

Where the model departs from the code as written, or the code departs from
its design:

- `get_data_and_get_req` calls `store_data_in_cache(key)` with one argument
  (ec2_node/ec2Node.py:77). That raises TypeError. The model performs the
  evident intent, `get_data_from_cache(key)`.
- A write that resolves to this node removes it from the ring and re-adds
  only the new primary and the new alternate (app.py:63-68). This node stays
  off the ring until the next sync, unlike the primary in the alternate
  lookup, which is always put back.
- `put` ends with `ans.json()` (app.py:82). When `ans` is the 404 marker
  string this raises AttributeError. The model states it as
  `AttributeErrorRaised`.
- When the ring query finds no primary, the code still calls
  `remove_node(None)` (ec2_node/nodeHashRing.py:61), and a write that
  excluded this node calls `remove_node(new_main)` even when `new_main` is
  None (app.py:65). The library's `remove_node` raises KeyError for a name
  not on the ring, so the code raises out of the route there. The library's
  source is not part of this model. The model's choice is to treat
  `remove_node(None)` and `add_node(None)` as leaving the ring unchanged.
  Resolution then yields `(None, -1)`, or `(None, node)` when the retry sync
  filled the ring.
- `dict.pop` on a missing key raises KeyError. `PopItem` returns None in that
  case. The migration pass is proved never to reach it.

## Model

| member | source | states |
|---|---|---|
| `Cache.NodeCache.constructor` | ec2_node/nodeCache.py:10-15 | a new partition is empty, not backed up, and keeps the given backup flag |
| `Cache.NodeCache.Put` | ec2_node/nodeCache.py:17-34 | returns True; the key now maps to exactly `{data, expiration}`, old entry overwritten; every other key keeps its presence and entry |
| `Cache.NodeCache.Get` | ec2_node/nodeCache.py:36-49 | an absent key gives None with no error; a present key gives its stored data; nothing is modified |
| `Cache.NodeCache.GetFullCache` | ec2_node/nodeCache.py:51-57 | returns the current contents, key for key |
| `Cache.NodeCache.PopItem` | ec2_node/nodeCache.py:59-60 | on a present key returns exactly the stored entry and removes that key only; on an absent key (KeyError) changes nothing |
| `Cache.PopThenPutRestores` | app.py:198-203 | re-storing the popped entry gives back the original partition |
| `Cache.PutGetPopScenario` | ec2_node/nodeCache.py:17-60 | a put is seen by the next get; other keys read the same; a pop returns the put entry, and a get after it finds nothing |
| `Node.ReadThrough` | ec2_node/ec2Node.py:77-80 | the answer is local data exactly when the key is in the primary, and then it is that key's data; otherwise it is the remote read of the key from the target, which raises exactly when the transport's error escapes |
| `Node.CallPeer` | ec2_node/ec2Node.py:25-54 | a refused connection becomes the 404 marker; a delivered body is returned; only an escaping error reaches the caller |
| `Node.RemoteRead` | ec2_node/ec2Node.py:42-54 | a remote read raises exactly when the transport's error escapes, and otherwise carries the peer's reply |
| `Node.Ec2Node.constructor` | ec2_node/ec2Node.py:17-23 | both partitions are fresh, distinct and empty; only the backup one is flagged as backup; ip and secondary node are `""`; not backed up; nothing has been sent |
| `Node.Ec2Node.StoreDataInCache` | ec2_node/ec2Node.py:82-83 | writes the entry into the primary partition; the backup partition is unchanged |
| `Node.Ec2Node.StoreDataInBackup` | ec2_node/ec2Node.py:85-86 | writes the entry into the backup partition; the primary partition is unchanged |
| `Node.Ec2Node.GetDataFromCache` | ec2_node/ec2Node.py:88-89 | reads the primary partition only (None when absent), changing nothing |
| `Node.Ec2Node.GetDataFromBackup` | ec2_node/ec2Node.py:91-92 | reads the backup partition only (None when absent), changing nothing |
| `Node.Ec2Node.GetMainCache` | ec2_node/ec2Node.py:98-99 | returns the primary partition's map |
| `Node.Ec2Node.GetBackupCache` | ec2_node/ec2Node.py:101-102 | returns the backup partition's map |
| `Node.Ec2Node.GetFullCache` | ec2_node/ec2Node.py:94-96 | `cache` is the primary map and `back_up_cache` the backup map, never merged |
| `Node.Ec2Node.StoreDataAndPostReq` | ec2_node/ec2Node.py:56-68 | the primary gains the entry even when the post raises; the backup is untouched; exactly one request is sent, a post to the target with the same key, data and expiration, and the answer is what the network made of it |
| `Node.Ec2Node.GetDataAndGetReq` | ec2_node/ec2Node.py:70-80 | a key held in the primary is answered with its local data and nothing is sent; otherwise exactly one read of the key goes to the target and the answer is the remote read |
| `Node.Ec2Node.BackupMainCache` | ec2_node/ec2Node.py:104-119 | nothing is sent exactly when the primary is empty, and then the answer is the "empty" status; otherwise exactly one push of the full primary goes to the secondary node; a connection error gives 404; a delivered answer is the parsed JSON body, or a JSONDecodeError when the body is not JSON |
| `Node.Ec2Node.BackupNeighborsCache` | ec2_node/ec2Node.py:121-124 | the backup partition becomes exactly the pushed map; the primary is untouched; returns status 200 |
| `Node.BackupPushScenario` | ec2_node/ec2Node.py:121-124 | after two pushes the backup holds the second; the primary is unchanged throughout |
| `Ring.Fresh` | ec2_node/nodeHashRing.py:33 | a row is live iff its heartbeat is at most 15000 ms older than the clock reading |
| `Ring.LiveFilter` | ec2_node/nodeHashRing.py:32-33 | the live list is never longer than the scan |
| `Ring.LiveFilterMembership` | ec2_node/nodeHashRing.py:32-33 | an IP is live iff some scanned row carries it with `lastActiveTime >= now - 15000` |
| `Ring.LiveFilterAppend` | ec2_node/nodeHashRing.py:32-33 | the filter distributes over concatenation, so scan order is kept |
| `Ring.LiveFilterAllFresh` | ec2_node/nodeHashRing.py:32-33 | when every row is fresh, the live list is the scan's IPs, position by position |
| `Ring.Poll` | ec2_node/nodeHashRing.py:22-44 | the live list is always replaced by the filtered scan; the change flag is true iff its length differs from the previous list's; the counters shift only then; a failed scan changes nothing and reports no change |
| `Ring.PollSettles` | ec2_node/nodeHashRing.py:35-39 | polling the same scan a second time reports no change and leaves the membership as it was |
| `Ring.AltTarget` | ec2_node/nodeHashRing.py:64-65 | a missing alternate becomes `-1`; a found one is passed on unchanged |
| `Ring.Resolve` | ec2_node/nodeHashRing.py:58-68 | on a non-empty ring the primary is a ring node; with two or more nodes the alternate is a different ring node; with one node it is `-1`; primary and alternate always differ |
| `Ring.SyncedResolve` | ec2_node/nodeHashRing.py:56-68 | the primary is None exactly when the synced live list is empty, and then the membership is what the retry sync left and the alternate is `-1` iff that list is empty too, else one of its nodes; otherwise the membership is the first sync's, the primary is a live node, and the pair is `Resolve` on the live set (a different live node with two or more, `-1` with one); primary and alternate always differ |
| `Ring.NodeHashRing.constructor` | ec2_node/nodeHashRing.py:10-20 | counters start at zero and the list empty; one poll is taken; the ring is built from the polled list |
| `Ring.NodeHashRing.GetLiveNodeList` | ec2_node/nodeHashRing.py:22-44 | the state moves exactly as `Poll` says, and the returned list is the stored one |
| `Ring.NodeHashRing.SetNumLiveAndPrevNodes` | ec2_node/nodeHashRing.py:46-48 | `prev` takes the old count and the count takes the new value |
| `Ring.NodeHashRing.NumDifferenceInNodes` | ec2_node/nodeHashRing.py:50-51 | the result is the absolute difference of the two counters |
| `Ring.NodeHashRing.AddNode` | ec2_node/nodeHashRing.py:75 | the ring gains the node, and the log records one addition of it |
| `Ring.NodeHashRing.RemoveNode` | ec2_node/nodeHashRing.py:82 | the ring loses the node, and the log records one removal of it |
| `Ring.NodeHashRing.UpdateLiveNodes` | ec2_node/nodeHashRing.py:70-84 | polls as `Poll` says; afterwards the ring's node set is the live list's set; the ring operations made are a sync: each live node the ring lacked is added once, each ring node no longer live is removed once, and no other node is touched, so a node in both is never removed |
| `Ring.NodeHashRing.AddMissingNodes` | ec2_node/nodeHashRing.py:73-75 | the ring gains exactly the live nodes it lacked, by one addition each and no removal |
| `Ring.NodeHashRing.NodesNotIn` | ec2_node/nodeHashRing.py:77-79 | the removal list holds exactly the ring nodes absent from the live list, each once |
| `Ring.NodeHashRing.RemoveNodes` | ec2_node/nodeHashRing.py:81-82 | the ring loses exactly the listed nodes, by one removal each in list order |
| `Ring.SyncOpsCombine` | ec2_node/nodeHashRing.py:73-82 | the additions of the first loop followed by the removals of the last form a sync from the old ring to the live set |
| `Ring.SettledSyncIsEmpty` | ec2_node/nodeHashRing.py:70-84 | a sync of a ring that already equals the live set makes no ring operation at all |
| `Ring.NodeHashRing.SyncAndLookUp` | ec2_node/nodeHashRing.py:57-60 | the primary is the ring's answer on the first poll's live set, and when it exists the membership is that poll's and the ring operations are one sync; when there is none, a second poll decides the membership, and when the first live set was empty the nodes removed are exactly the old ring and the nodes added exactly the live set the retry found; the ring ends equal to the live set |
| `Ring.NodeHashRing.GetTargetAndAltNodeIps` | ec2_node/nodeHashRing.py:56-68 | the pair and the membership are exactly what `SyncedResolve` gives for the old membership, including the second sync and the `(None, node)` pair when no primary was found; the ring is put back as the set of the live list; with a primary, the ring operations are a sync followed by one removal and one re-addition of the primary, and nothing else |
| `Ring.NodeHashRing.UpdateHashRing` | ec2_node/nodeHashRing.py:86-89 | the ring is rebuilt as the set of the list, logged as one rebuild; the live list is replaced; the counters shift with the new count being the list's length |
| `Ring.SyncTwiceScenario` | ec2_node/nodeHashRing.py:70-84 | a second sync against the same scan reports no change, makes no ring operation and leaves ring and membership as the first left them |
| `App.Failover` | app.py:33-41 | the primary is tried first; the alternate is tried only if the primary raised; if both raise the answer is the 404 marker; the answer comes from the node that answered |
| `App.NextSecondary` | app.py:35-41 | the secondary becomes the node whose attempt succeeded, and is kept when both raised |
| `App.ExcludeSelf` | app.py:62-70 | the ring ends as the old ring minus this node; neither target is this node; the primary exists iff another node does, and is then a ring node |
| `App.ExclusionOps` | app.py:63-68 | the ring operations of the exclusion start with the removal of this node |
| `App.ExcludeSelfReAddsOnlyTargets` | app.py:63-68 | this node is removed first and never added back; a node is added back iff it is the new primary or the new alternate |
| `App.ExcludeSelfFallback` | app.py:64-66 | the alternate exists iff at least two other nodes are on the ring, and is then a ring node different from the primary |
| `App.ExcludeSelfWithThreeNodes` | app.py:62-70 | with this node and at least two others, target and fallback are two distinct other ring nodes |
| `App.ExcludeSelfWithTwoNodes` | app.py:62-70 | with exactly one other node, it is the target and the fallback is None |
| `App.ResolvedPairPassesMigrationTest` | app.py:194-197 | `secondary != main or secondary != alt` holds for every resolved pair, whatever the secondary |
| `App.MigrationTest` | app.py:196-197 | the test fails only when the primary and the alternate are the same target |
| `App.MigrationStep` | app.py:194-211 | one key appends one post, or two when the first raised |
| `App.Migration` | app.py:192-211 | the pass appends at least one post per visited key |
| `App.MigrationStepPosts` | app.py:194-211 | one key appends a post of its entry to its own resolved primary and, exactly when that raised, one to its alternate, and nothing else; the membership is the one its resolution left |
| `App.MigrationPostsCarryTheSnapshot` | app.py:192-211 | the pass only appends to the log; every post it sends is a `SetValue` of a visited key with that key's snapshot data and expiration unchanged; between one and two posts per key |
| `App.MigrationPostsEveryKey` | app.py:192-211 | every visited key is written through at least once by the pass |
| `App.Server.constructor` | app.py:10-16 | a fresh node with empty partitions, a ring built from the first scan, pool count 1 |
| `App.Server.Setup` | app.py:216-220 | the node records the discovered IP |
| `App.Server.Get` | app.py:23-41 | the route's own sync is followed by the resolution's, so the pair and the membership are `SyncedResolve` after one poll; the read follows `Failover` and the secondary `NextSecondary`; the log gains exactly the remote reads of the targets tried (none when the key is local); the flags, the partitions and the ring's relation to the live list are kept |
| `App.Server.RouteTargets` | app.py:30-32 | the route's sync then the resolution: the pair and membership are `SyncedResolve` after one poll; the primary, when found, is a live node; the ring equals the live set |
| `App.Server.ReadWithFailover` | app.py:33-41 | the read follows `Failover` over `ReadThrough` on the primary then the alternate; the secondary follows `NextSecondary`; the log gains exactly the remote reads of the targets tried |
| `App.Server.Put` | app.py:51-82 | the pair and membership are `WriteTargets`'s; the primary gains the entry; the log gains exactly one post per target tried, the alternate only after the primary raised; answer and secondary as `Failover` and `NextSecondary` say; the response is the parsed body or AttributeError; the flags are kept |
| `App.Server.WriteTargets` | app.py:57-70 | the membership is what the route's sync and the resolution's syncs left (`SyncedResolve` after one poll); when the resolved primary is not this node the write goes to exactly that pair and the ring equals the live set; when it is, the pair and ring are `ExcludeSelf`'s and this node is off the ring |
| `App.Server.ExcludeSelfFromRing` | app.py:62-70 | the ring operations give exactly the pair and ring that `ExcludeSelf` describes, and the ring's log gains exactly its operations |
| `App.Server.WriteThrough` | app.py:72-80 | store then post to the primary; only if that raised, store again and post to the alternate; the log gains exactly those posts in that order; answer and secondary as `Failover` and `NextSecondary` say |
| `App.Server.NodeHealthCheck` | app.py:180-185 | the migration pass runs iff the polled live count differs from the pool count; when it runs, the pool becomes that count and the state and log are `Migration` over every snapshot key once; otherwise only the poll happens and nothing is sent |
| `App.Server.UpdateHashRingNodesWithData` | app.py:188-213 | the ring is rebuilt from the live list; the keys are visited in some order listing each key of the snapshot exactly once; membership, secondary and log end exactly as `Migration` over that order says; the primary partition ends as it began; the pool becomes the new count |
| `App.Server.MigrateSnapshot` | app.py:192-211 | the loop visits every snapshot key exactly once, and the state and log after it are `Migration` from the state before it |
| `App.Server.MigrateNext` | app.py:193-211 | after one more key the membership, secondary and log are `Migration` over the keys visited so far plus that key; the primary partition ends as the snapshot |
| `App.Server.MigrateKey` | app.py:194-211 | one key: resolve after a sync, pop the entry, write it through with failover, all as `MigrationStep` says; the primary partition ends as it began |

## Left out

- HTTP routing, request parsing and JSON building (the web framework) are
  outside the model. So are the `/api/get_val`, `/api/set_value`,
  `/api/print-cache` and `/api/show_me_the_living` handlers, `hello_world`
  and `health_check` beyond their call to `node_health_check`.
- The registry's `scan`, `update_item` and `put_item` are left out, and so is
  `update_health_table`. Each scan's rows arrive as a parameter. A row with a
  missing field, or a time that `int()` cannot convert, makes the scan raise;
  the model treats that as a failed scan. The model's times are integers, so
  the truncation `int()` applies to a fractional time is not modelled.
- Timestamps (`_last_updated`, `update_time`, `get_current_time`) are left
  out. They are not observable behaviour.
- The ring library's ketama/md5 placement and virtual nodes are left out.
  Only the lookup's membership contract is kept. The KeyError that
  `remove_node(None)` raises is left out: the model treats `remove_node(None)`
  and `add_node(None)` as no-ops.
- `get_target_node` and `to_string` are left out. They are one-line calls
  into the ring library.
- `readjust_cache` is called in `/api/set_value` but is not defined. There is
  no `/api/backup` route. So reconciliation and the backup-forwarding chain do
  not exist in the code and are not modelled. Expiration is stored but never
  enforced.
- A query argument that is missing arrives as None: a `put` without `data`
  stores None, and a later read of that key then finds no local data and
  goes to the peer. Keys and data are strings in the model, which cannot
  represent the missing argument.
- `Node.Ec2Node.BackupMainCache`: which answers parse as JSON is a parameter
  (`isJson`). The model does not fix it as the framework's 404 page that a
  peer running this program sends, there being no `/api/backup` route.
- Public-IP discovery: `Setup` takes the IP as a parameter.
- Concurrency between requests is left out. The model is sequential.
- Logging and `print` output are left out.
- Aliasing: `get_full_cache` hands out the partition dict itself, and
  `backup_neighbors_cache` stores the caller's dict. The model copies maps by
  value. The migration pass takes an explicit `.copy()`, so its reasoning
  does not depend on this.
- `App.Server.UpdateHashRingNodesWithData`: does not state that keys are
  visited in the dict's insertion order. The model visits them in an order it
  chooses, and says which order it took (`order`). The final `secondary_node`
  and the log are stated for that order.
- `App.Server.Get`: does not model the `ans is None` branch (app.py:44-47).
  With the intended local lookup the answer is never None.
- The network is a function of the request. Sending the same request twice
  in one step gets the same outcome. This matters only when primary and
  alternate coincide, which resolution rules out except where both are None
  in `put`.
