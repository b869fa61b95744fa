/** The least-recently-used map the lookup cache delegates to (the `lru`
    crate's `LruCache`), as the contract its `get` and `put` offer. A value
    of `LruCache` is one state of such a map: its capacity, its keys in
    recency order and the value stored under each key. */
module Lru {
  import opened Wrappers

  /** A capacity as `NonZeroUsize` holds it: a positive count. */
  type NonZero = n: nat | 0 < n witness 1

  /** No element occurs twice in `s`. */
  predicate Distinct<K(==)>(s: seq<K>) {
    forall i, j :: 0 <= i < j < |s| ==> s[i] != s[j]
  }

  /** `order` lists the stored keys, least recently used first and most
      recently used last; `values` maps each stored key to its value. */
  datatype LruCache<K(==, !new), V> = LruCache(capacity: NonZero, order: seq<K>, values: map<K, V>)
  {
    /** At most `capacity` entries, every stored key listed exactly once. */
    ghost predicate Valid() {
      |order| <= capacity && Distinct(order) && forall k :: k in values <==> k in order
    }
  }

  /** `LruCache::new(cap)`: nothing stored yet. */
  function Empty<K(==, !new), V>(cap: NonZero): (c: LruCache<K, V>)
    ensures c.Valid() && c.capacity == cap && |c.values| == 0
  {
    LruCache(cap, [], map[])
  }

  /** `s` without `x`; the other elements keep their relative order. */
  function Remove<K(==, !new)>(s: seq<K>, x: K): (r: seq<K>)
    ensures forall y :: y in r <==> y in s && y != x
    ensures x !in s ==> r == s
    ensures Distinct(s) ==> Distinct(r)
    ensures Distinct(s) && x in s ==> |r| == |s| - 1
  {
    if s == [] then []
    else
      var rest := Remove(s[1..], x);
      if s[0] == x then rest
      else
        DistinctCons(s[0], rest);
        [s[0]] + rest
  }

  lemma DistinctCons<K>(a: K, r: seq<K>)
    ensures Distinct([a] + r) <==> a !in r && Distinct(r)
  {
    var o := [a] + r;
    if a !in r && Distinct(r) {
      forall i, j | 0 <= i < j < |o| ensures o[i] != o[j] {
        assert o[j] == r[j - 1];
        if i > 0 { assert o[i] == r[i - 1]; }
      }
    }
    if Distinct(o) {
      forall i, j | 0 <= i < j < |r| ensures r[i] != r[j] {
        assert o[i + 1] == r[i] && o[j + 1] == r[j];
      }
      forall j | 0 <= j < |r| ensures r[j] != a {
        assert o[0] == a && o[j + 1] == r[j];
      }
    }
  }

  /** The recency order after a use of `x`: `x` becomes the most recently used. */
  function Touch<K(==, !new)>(s: seq<K>, x: K): seq<K> {
    Remove(s, x) + [x]
  }

  /** `get`: on a hit, the stored value, and the key becomes the most recently
      used; on a miss, `None` and nothing changes. */
  function Get<K(==, !new), V>(c: LruCache<K, V>, k: K): (r: (LruCache<K, V>, Option<V>))
    ensures r.1.Some? <==> k in c.values
    ensures r.1.Some? ==> r.1.value == c.values[k]
    ensures r.0.values == c.values && r.0.capacity == c.capacity
    ensures k in c.values ==> r.0.order != [] && r.0.order[|r.0.order| - 1] == k
  {
    if k in c.values then (c.(order := Touch(c.order, k)), Some(c.values[k]))
    else (c, None)
  }

  /** `put`: an existing key takes the new value and becomes the most recently
      used; a new key is added as the most recently used, after the least
      recently used entry is evicted when the map is full. */
  function Put<K(==, !new), V>(c: LruCache<K, V>, k: K, v: V): (r: LruCache<K, V>)
    ensures r.capacity == c.capacity && k in r.values && r.values[k] == v
    ensures r.order != [] && r.order[|r.order| - 1] == k
    ensures forall y :: y in r.values && y != k ==> y in c.values && r.values[y] == c.values[y]
  {
    if k in c.values then
      c.(order := Touch(c.order, k), values := c.values[k := v])
    else if |c.order| == c.capacity then
      c.(order := c.order[1..] + [k], values := (c.values - {c.order[0]})[k := v])
    else
      c.(order := c.order + [k], values := c.values[k := v])
  }

  lemma {:induction false} CardOfDistinct<K(!new)>(s: seq<K>)
    requires Distinct(s)
    ensures |set x | x in s| == |s|
  {
    if s != [] {
      CardOfDistinct(s[1..]);
      assert (set x | x in s) == (set x | x in s[1..]) + {s[0]};
      assert s[0] !in (set x | x in s[1..]);
    }
  }

  /** A valid map stores exactly as many entries as its recency order lists,
      hence never more than its capacity. */
  lemma SizeWithinCapacity<K(!new), V>(c: LruCache<K, V>)
    requires c.Valid()
    ensures |c.values| == |c.order| <= c.capacity
  {
    assert c.values.Keys == set x | x in c.order;
    CardOfDistinct(c.order);
  }

  lemma GetKeepsValid<K(!new), V>(c: LruCache<K, V>, k: K)
    requires c.Valid()
    ensures Get(c, k).0.Valid() && Get(c, k).0.capacity == c.capacity
  {
  }

  lemma PutKeepsValid<K(!new), V>(c: LruCache<K, V>, k: K, v: V)
    requires c.Valid()
    ensures Put(c, k, v).Valid() && Put(c, k, v).capacity == c.capacity
  {
    if k !in c.values && |c.order| == c.capacity {
      var o := c.order[1..] + [k];
      forall i, j | 0 <= i < j < |o| ensures o[i] != o[j] {
        if j == |o| - 1 {
          assert o[i] == c.order[i + 1];
        } else {
          assert o[i] == c.order[i + 1] && o[j] == c.order[j + 1];
        }
      }
      forall y ensures y in Put(c, k, v).values <==> y in o {
        if y in c.order[1..] {
          var m :| 1 <= m < |c.order| && c.order[m] == y;
          assert y != c.order[0];
        }
      }
    }
  }

  /** A hit returns the stored value, leaves every stored value as it was and
      makes the key the most recently used, the other keys keeping their order. */
  lemma GetHit<K(!new), V>(c: LruCache<K, V>, k: K)
    requires c.Valid() && k in c.values
    ensures var (c', r) := Get(c, k);
      r == Some(c.values[k]) && c'.values == c.values &&
      c'.order[|c'.order| - 1] == k && Remove(c'.order, k) == Remove(c.order, k)
  {
    var o := Touch(c.order, k);
    assert o == Remove(c.order, k) + [k];
    RemoveLast(Remove(c.order, k), k);
  }

  lemma {:induction false} RemoveLast<K(!new)>(s: seq<K>, x: K)
    requires x !in s
    ensures Remove(s + [x], x) == s
  {
    if s != [] {
      assert (s + [x])[1..] == s[1..] + [x];
      RemoveLast(s[1..], x);
    }
  }

  /** A miss returns nothing and changes nothing. */
  lemma GetMiss<K(!new), V>(c: LruCache<K, V>, k: K)
    requires k !in c.values
    ensures Get(c, k) == (c, None)
  {
  }

  /** After a `put`, a `get` of the same key returns the value just stored. */
  lemma GetAfterPut<K(!new), V>(c: LruCache<K, V>, k: K, v: V)
    requires c.Valid()
    ensures Get(Put(c, k, v), k).1 == Some(v)
  {
  }

  /** `put` of a key already stored overwrites its value, makes it the most
      recently used and evicts nothing. */
  lemma PutExisting<K(!new), V>(c: LruCache<K, V>, k: K, v: V)
    requires c.Valid() && k in c.values
    ensures var c' := Put(c, k, v);
      c'.values == c.values[k := v] && c'.values.Keys == c.values.Keys &&
      |c'.order| == |c.order| && c'.order[|c'.order| - 1] == k &&
      Remove(c'.order, k) == Remove(c.order, k)
  {
    var o := Touch(c.order, k);
    assert o == Remove(c.order, k) + [k];
    RemoveLast(Remove(c.order, k), k);
  }

  /** `put` of a new key into a map that is not full evicts nothing. */
  lemma PutNewWithRoom<K(!new), V>(c: LruCache<K, V>, k: K, v: V)
    requires c.Valid() && k !in c.values && |c.values| < c.capacity
    ensures var c' := Put(c, k, v);
      c'.values == c.values[k := v] && c'.order == c.order + [k]
  {
    SizeWithinCapacity(c);
  }

  /** `put` of a new key into a full map evicts exactly the least recently
      used key; every other stored key keeps its value. */
  lemma PutNewIntoFull<K(!new), V>(c: LruCache<K, V>, k: K, v: V)
    requires c.Valid() && k !in c.values && |c.values| == c.capacity
    ensures var c' := Put(c, k, v);
      c.order[0] in c.values && c'.values.Keys == c.values.Keys - {c.order[0]} + {k} &&
      c'.values[k] == v && |c'.values| == |c.values| &&
      forall y :: y in c.values && y != c.order[0] ==> c'.values[y] == c.values[y]
  {
    SizeWithinCapacity(c);
    PutKeepsValid(c, k, v);
    SizeWithinCapacity(Put(c, k, v));
  }

  // ---------------------------------------------------------------------
  // Recency over a whole history of operations

  /** One call on the map. */
  datatype Op<K, V> = GetOp(key: K) | PutOp(key: K, value: V)

  function Apply<K(==, !new), V>(c: LruCache<K, V>, op: Op<K, V>): LruCache<K, V> {
    match op
    case GetOp(k) => Get(c, k).0
    case PutOp(k, v) => Put(c, k, v)
  }

  /** The map after the calls `ops`, in order, starting from `c`. */
  function Replay<K(==, !new), V>(c: LruCache<K, V>, ops: seq<Op<K, V>>): LruCache<K, V>
    decreases |ops|
  {
    if ops == [] then c else Apply(Replay(c, ops[..|ops| - 1]), ops[|ops| - 1])
  }

  /** The position in `ops` of the last call that names `k`, or -1 if none does. */
  function LastUse<K(==, !new), V>(ops: seq<Op<K, V>>, k: K): (r: int)
    ensures -1 <= r < |ops|
    ensures 0 <= r ==> ops[r].key == k
    ensures forall j :: r < j < |ops| ==> ops[j].key != k
    decreases |ops|
  {
    if ops == [] then -1
    else if ops[|ops| - 1].key == k then |ops| - 1
    else LastUse(ops[..|ops| - 1], k)
  }

  /** `order` lists keys from the least recently to the most recently used in `ops`. */
  predicate ByRecency<K(==, !new), V>(order: seq<K>, ops: seq<Op<K, V>>) {
    forall i, j :: 0 <= i < j < |order| ==> LastUse(ops, order[i]) < LastUse(ops, order[j])
  }

  lemma LastUseAfter<K(!new), V>(ops: seq<Op<K, V>>, op: Op<K, V>, y: K)
    ensures LastUse(ops + [op], y) == if op.key == y then |ops| else LastUse(ops, y)
  {
    assert (ops + [op])[..|ops|] == ops;
  }

  /** The least recently used key was used before every other listed key. */
  lemma OldestFirst<K(!new), V>(s: seq<K>, ops: seq<Op<K, V>>)
    requires ByRecency(s, ops) && s != []
    ensures forall y :: y in s[1..] ==> LastUse(ops, s[0]) < LastUse(ops, y)
  {
    forall y | y in s[1..] ensures LastUse(ops, s[0]) < LastUse(ops, y) {
      var m :| 0 <= m < |s| - 1 && s[1..][m] == y;
      assert s[m + 1] == y;
    }
  }

  /** A key used before all the listed ones can lead the list. */
  lemma PrependOldest<K(!new), V>(a: K, r: seq<K>, ops: seq<Op<K, V>>)
    requires ByRecency(r, ops) && forall y :: y in r ==> LastUse(ops, a) < LastUse(ops, y)
    ensures ByRecency([a] + r, ops)
  {
    var o := [a] + r;
    forall i, j | 0 <= i < j < |o| ensures LastUse(ops, o[i]) < LastUse(ops, o[j]) {
      assert o[j] == r[j - 1];
      if i > 0 {
        assert o[i] == r[i - 1];
      } else {
        assert r[j - 1] in r;
      }
    }
  }

  lemma {:induction false} RemoveKeepsRecency<K(!new), V>(s: seq<K>, x: K, ops: seq<Op<K, V>>)
    requires ByRecency(s, ops)
    ensures ByRecency(Remove(s, x), ops)
  {
    if s != [] {
      DropOldestKeepsRecency(s, ops);
      RemoveKeepsRecency(s[1..], x, ops);
      if s[0] != x {
        OldestFirst(s, ops);
        PrependOldest(s[0], Remove(s[1..], x), ops);
      }
    }
  }

  /** Appending the key just used keeps the order by recency. */
  lemma AppendLatest<K(!new), V>(r: seq<K>, ops: seq<Op<K, V>>, op: Op<K, V>)
    requires ByRecency(r, ops) && op.key !in r
    ensures ByRecency(r + [op.key], ops + [op])
  {
    var o := r + [op.key];
    forall i, j | 0 <= i < j < |o| ensures LastUse(ops + [op], o[i]) < LastUse(ops + [op], o[j]) {
      LastUseAfter(ops, op, o[i]);
      LastUseAfter(ops, op, o[j]);
    }
  }

  /** Dropping the least recently used key keeps the order by recency. */
  lemma DropOldestKeepsRecency<K(!new), V>(s: seq<K>, ops: seq<Op<K, V>>)
    requires ByRecency(s, ops) && s != []
    ensures ByRecency(s[1..], ops)
  {
    forall i, j | 0 <= i < j < |s| - 1
      ensures LastUse(ops, s[1..][i]) < LastUse(ops, s[1..][j])
    {
      assert s[1..][i] == s[i + 1] && s[1..][j] == s[j + 1];
    }
  }

  /** A call on a key that is not stored keeps the order of the stored ones. */
  lemma OtherUseKeepsRecency<K(!new), V>(s: seq<K>, ops: seq<Op<K, V>>, op: Op<K, V>)
    requires ByRecency(s, ops) && op.key !in s
    ensures ByRecency(s, ops + [op])
  {
    forall i, j | 0 <= i < j < |s|
      ensures LastUse(ops + [op], s[i]) < LastUse(ops + [op], s[j])
    {
      LastUseAfter(ops, op, s[i]);
      LastUseAfter(ops, op, s[j]);
    }
  }

  lemma StepOrder<K(!new), V>(c: LruCache<K, V>, ops: seq<Op<K, V>>, op: Op<K, V>)
    requires c.Valid() && ByRecency(c.order, ops)
    ensures ByRecency(Apply(c, op).order, ops + [op])
  {
    var k := op.key;
    if k in c.values {
      RemoveKeepsRecency(c.order, k, ops);
      AppendLatest(Remove(c.order, k), ops, op);
    } else if op.GetOp? {
      OtherUseKeepsRecency(c.order, ops, op);
    } else if |c.order| == c.capacity {
      DropOldestKeepsRecency(c.order, ops);
      AppendLatest(c.order[1..], ops, op);
    } else {
      AppendLatest(c.order, ops, op);
    }
  }

  lemma StepKeepsRecency<K(!new), V>(c: LruCache<K, V>, ops: seq<Op<K, V>>, op: Op<K, V>)
    requires c.Valid() && ByRecency(c.order, ops)
    requires forall k :: k in c.order ==> 0 <= LastUse(ops, k)
    ensures var c' := Apply(c, op);
      c'.Valid() && c'.capacity == c.capacity && ByRecency(c'.order, ops + [op]) &&
      forall k :: k in c'.order ==> 0 <= LastUse(ops + [op], k)
  {
    var c' := Apply(c, op);
    if op.GetOp? {
      GetKeepsValid(c, op.key);
    } else {
      PutKeepsValid(c, op.key, op.value);
    }
    StepOrder(c, ops, op);
    forall y | y in c'.order ensures 0 <= LastUse(ops + [op], y) {
      LastUseAfter(ops, op, y);
    }
  }

  /** After any history of calls on a fresh map, the map is valid and its
      recency order is the order of the keys' last uses. */
  lemma {:induction false} ReplayKeepsRecency<K(!new), V>(cap: NonZero, ops: seq<Op<K, V>>)
    ensures var c := Replay(Empty(cap), ops);
      c.Valid() && c.capacity == cap && ByRecency(c.order, ops) &&
      forall k :: k in c.order ==> 0 <= LastUse(ops, k)
  {
    if ops != [] {
      var prefix, op := ops[..|ops| - 1], ops[|ops| - 1];
      assert ops == prefix + [op];
      ReplayKeepsRecency(cap, prefix);
      StepKeepsRecency(Replay(Empty(cap), prefix), prefix, op);
    }
  }

  /** Whatever the calls, the map never holds more entries than its capacity. */
  lemma ReplayWithinCapacity<K(!new), V>(cap: NonZero, ops: seq<Op<K, V>>)
    ensures |Replay(Empty(cap), ops).values| <= cap
  {
    ReplayKeepsRecency(cap, ops);
    SizeWithinCapacity(Replay(Empty(cap), ops));
  }

  /** When a new key is put into a full map, the entry evicted is the one
      whose last use lies furthest back of all the stored entries. */
  lemma EvictsLeastRecentlyUsed<K(!new), V>(cap: NonZero, ops: seq<Op<K, V>>, k: K, v: V)
    requires k !in Replay(Empty(cap), ops).values
    requires |Replay(Empty(cap), ops).values| == cap
    ensures var c := Replay(Empty(cap), ops);
      c.order != [] && var evicted := c.order[0];
      evicted in c.values && evicted !in Put(c, k, v).values &&
      Put(c, k, v).values.Keys == c.values.Keys - {evicted} + {k} &&
      forall y :: y in c.values && y != evicted ==> LastUse(ops, evicted) < LastUse(ops, y)
  {
    var c := Replay(Empty(cap), ops);
    ReplayKeepsRecency(cap, ops);
    PutNewIntoFull(c, k, v);
    forall y | y in c.values && y != c.order[0] ensures LastUse(ops, c.order[0]) < LastUse(ops, y) {
      var j :| 0 <= j < |c.order| && c.order[j] == y;
    }
  }
}
