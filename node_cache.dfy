/** One partition of a node's store: a map from key to entry, mutated in
    place (ec2_node/nodeCache.py). */
module Cache {
  import opened Types

  class NodeCache {
    /** The `_cache` dict. */
    var entries: map<Key, Entry>
    const isBackup: bool
    var hasBeenBackedUp: bool

    /** A new partition is empty and not yet backed up. */
    constructor (isBackup: bool)
      ensures entries == map[]
      ensures this.isBackup == isBackup && !hasBeenBackedUp
    {
      entries := map[];
      this.isBackup := isBackup;
      hasBeenBackedUp := false;
    }

    /** Insert or overwrite the entry for `key`. Assigning a string key into a
        dict cannot fail, so the `except` branch returning False is never taken. */
    method Put(key: Key, data: Data, expirationDate: Expiration) returns (ok: bool)
      modifies this`entries
      ensures ok
      ensures key in entries && entries[key] == Entry(data, expirationDate)
      ensures forall k :: k != key ==> (k in entries <==> k in old(entries))
      ensures forall k :: k != key && k in old(entries) ==> entries[k] == old(entries)[k]
    {
      entries := entries[key := Entry(data, expirationDate)];
      ok := true;
    }

    /** The data stored under `key`, or None for an absent key (the KeyError
        is caught and only logged). Reads change no entry. */
    method Get(key: Key) returns (data: Option<Data>)
      ensures data.Some? <==> key in entries
      ensures data.Some? ==> data.value == entries[key].data
    {
      if key in entries {
        data := Some(entries[key].data);
      } else {
        data := None;
      }
    }

    /** The whole partition as it is now. */
    method GetFullCache() returns (m: map<Key, Entry>)
      ensures m.Keys == entries.Keys
      ensures forall k :: k in m ==> m[k] == entries[k]
    {
      m := entries;
    }

    /** Remove `key` and return its full entry. `dict.pop` raises KeyError
        for an absent key; that outcome is None, with the map unchanged. */
    method PopItem(key: Key) returns (e: Option<Entry>)
      modifies this`entries
      ensures key in old(entries) ==> e == Some(old(entries)[key]) && entries == old(entries) - {key}
      ensures key !in old(entries) ==> e == None && entries == old(entries)
    {
      if key in entries {
        e := Some(entries[key]);
        entries := entries - {key};
      } else {
        e := None;
      }
    }
  }

  /** Putting back the entry that was popped restores the partition: the
      step the migration pass relies on to keep the primary cache intact. */
  lemma PopThenPutRestores(m: map<Key, Entry>, key: Key)
    requires key in m
    ensures (m - {key})[key := m[key]] == m
  {
  }

  /** Clients' view of the store: a put is seen by the next get, other keys
      are untouched, and a pop hands back exactly what was put. */
  method PutGetPopScenario(c: NodeCache, key: Key, other: Key, data: Data, exp: Expiration)
    requires key != other
    modifies c
    ensures c.entries.Keys == old(c.entries).Keys - {key}
  {
    var before := c.Get(other);
    var ok := c.Put(key, data, exp);
    assert ok;
    var got := c.Get(key);
    assert got == Some(data);
    var after := c.Get(other);
    assert after == before;
    var popped := c.PopItem(key);
    assert popped == Some(Entry(data, exp));
    var gone := c.Get(key);
    assert gone == None;
  }
}
