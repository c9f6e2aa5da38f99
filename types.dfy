/** Values shared by every part of the peer-to-peer cache: node identities,
    cache entries, what a ring query yields, and the abstract outcome of an
    HTTP call between nodes. */
module Types {

  datatype Option<+T> = None | Some(value: T)

  /** A node is identified by its IP address. */
  type NodeId = string
  /** Keys, data and expiration dates arrive as query-string arguments. */
  type Key = string
  type Data = string
  type Expiration = string

  /** One cache item, the `{"data": .., "expiration_date": ..}` dict.
      The expiration date is stored but nothing ever checks it. */
  datatype Entry = Entry(data: Data, expirationDate: Expiration)

  /** What a ring query hands to the router: a node address, Python's `None`
      (the ring had no node), or the `-1` that stands for "no alternate". */
  datatype Target = Ip(addr: NodeId) | Null | Sentinel

  /** `None` becomes `Null`: the target the code passes on when a ring query
      found nothing and no `-1` substitution is made. */
  function ToTarget(n: Option<NodeId>): (t: Target)
    ensures t.Ip? <==> n.Some?
    ensures n.Some? ==> t.addr == n.value
    ensures n.None? ==> t == Null
  {
    match n
    case Some(ip) => Ip(ip)
    case None => Null
  }

  /** The HTTP requests one node sends another. */
  datatype Request =
    | SetValue(to: Target, key: Key, data: Data, expirationDate: Expiration)
    | GetValue(to: Target, key: Key)
    | Backup(to: Target, startNode: NodeId, nodesToBackup: int, dump: map<Key, Entry>)

  /** What the network does with one request: the peer answers with a body;
      the connection is refused and `requests` raises a ConnectionError that
      the node code catches; or a ConnectionError escapes to the caller (the
      shown node code catches every ConnectionError, so only a transport that
      raises in some other way reaches the routes' fallbacks). */
  datatype Transport = Delivered(body: string) | Refused | Escaped

  /** Replies the node code produces: a peer's response body, the
      `{'status_code': 404}` marker string, or a `{'status_code': 200}` string
      with an optional item. */
  datatype Reply = Body(text: string) | Status404 | Status200(item: Option<string>)

  /** A call either returned a value or raised a ConnectionError into its caller. */
  datatype Attempt<T> = Done(value: T) | ConnError

  /** The set of elements of a list, as `set(l)` or `HashRing(nodes=l)` sees it. */
  function Elems(s: seq<NodeId>): (r: set<NodeId>)
    ensures forall x :: x in r <==> x in s
  {
    set x | x in s
  }
}
