/** The key-value store the crawler uses as its cache (a Redis server seen
    through its client). The clock is not modelled: an entry keeps the
    expiry it was written with, in hours, and never expires in the model. */
module Redis {
  import opened Common

  /** A stored value and the time-to-live it was written with. */
  datatype Entry = Entry(value: string, ttlHours: nat)

  /** What `GET key` yields: the stored value, or an error. Both a missing
      key (`redis.Nil`) and an unreachable server are errors. */
  function Lookup(entries: map<string, Entry>, reachable: bool, key: string): (r: Option<string>)
    ensures r.Some? <==> reachable && key in entries
    ensures r.Some? ==> r.value == entries[key].value
  {
    if reachable && key in entries then Some(entries[key].value) else None
  }

  /** The entries after `SET key value EX ttl`; on an unreachable server the
      command fails and nothing changes. */
  function Stored(entries: map<string, Entry>, reachable: bool, key: string, e: Entry): (r: map<string, Entry>)
    ensures reachable ==> r.Keys == entries.Keys + {key} && r[key] == e
    ensures forall k :: k in entries && k != key ==> k in r && r[k] == entries[k]
    ensures !reachable ==> r == entries
  {
    if reachable then entries[key := e] else entries
  }

  class Client {
    var entries: map<string, Entry>
    var reachable: bool

    constructor (reachable: bool)
      ensures entries == map[] && this.reachable == reachable
    {
      entries := map[];
      this.reachable := reachable;
    }

    /** `GET key`. */
    method Get(key: string) returns (r: Option<string>)
      ensures r == Lookup(entries, reachable, key)
    {
      if reachable && key in entries {
        r := Some(entries[key].value);
      } else {
        r := None;
      }
    }

    /** `SET key value EX ttl`; the caller ignores a failure. */
    method Set(key: string, value: string, ttlHours: nat)
      modifies this`entries
      ensures entries == Stored(old(entries), reachable, key, Entry(value, ttlHours))
    {
      if reachable {
        entries := entries[key := Entry(value, ttlHours)];
      }
    }
  }
}
