/** The lookup cache (`GeoCache`): a bounded least-recently-used map from an
    IP address to the serialised lookup result, shared by the request
    handlers. Calls are taken one at a time; the mutex that serialises them
    in the service is not modelled. */
module Cache {
  import opened Wrappers
  import opened Lru

  /** An IP address, version 4 or version 6, as its fixed-width number. */
  datatype IpAddr = V4(v4: bv32) | V6(v6: bv128)

  class GeoCache {
    const capacity: NonZero
    /** Stored addresses, least recently used first. */
    var order: seq<IpAddr>
    /** The serialised result stored under each address. */
    var values: map<IpAddr, string>

    /** The state of the underlying least-recently-used map. */
    function Model(): LruCache<IpAddr, string>
      reads this
    {
      LruCache(capacity, order, values)
    }

    ghost predicate Valid()
      reads this
    {
      Model().Valid()
    }

    /** `GeoCache::new(size)`; a size of zero makes the service panic, so it
        is a precondition here. */
    constructor (size: nat)
      requires size > 0
      ensures Valid() && capacity == size && values == map[] && order == []
    {
      capacity := size;
      order := [];
      values := map[];
    }

    /** `GeoCache::get`: a hit returns the stored string and makes the address
        the most recently used; a miss returns `None` and changes nothing. */
    method Get(ip: IpAddr) returns (r: Option<string>)
      requires Valid()
      modifies this
      ensures Valid()
      ensures (Model(), r) == Lru.Get(old(Model()), ip)
      ensures r == (if ip in old(values) then Some(old(values)[ip]) else None)
      ensures values == old(values)
    {
      GetKeepsValid(Model(), ip);
      if ip in values {
        r := Some(values[ip]);
        order := Touch(order, ip);
      } else {
        r := None;
      }
    }

    /** `GeoCache::insert`: stores or overwrites the address's result as the
        most recently used entry, evicting the least recently used entry
        when a new address arrives at a full cache. */
    method Insert(ip: IpAddr, result: string)
      requires Valid()
      modifies this
      ensures Valid()
      ensures Model() == Lru.Put(old(Model()), ip, result)
      ensures ip in values && values[ip] == result && |values| <= capacity
    {
      PutKeepsValid(Model(), ip, result);
      if ip in values {
        order := Touch(order, ip);
      } else if |order| == capacity {
        values := values - {order[0]};
        order := order[1..] + [ip];
      } else {
        order := order + [ip];
      }
      values := values[ip := result];
      SizeWithinCapacity(Model());
    }
  }
}
