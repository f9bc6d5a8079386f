/** The value of a sharded map: a sequence of plain maps in which every key sits in the one shard
    that its hash selects, and the single plain map that they stand for together. */
module Shards {

  function Home<K>(hash: K -> nat, n: nat, k: K): (i: nat)
    requires n > 0
    ensures i < n
  {
    hash(k) % n
  }

  ghost predicate Placed<K, V>(hash: K -> nat, s: seq<map<K, V>>) {
    && |s| > 0
    && (forall i, k | 0 <= i < |s| && k in s[i] :: Home(hash, |s|, k) == i)
  }

  /** The plain map: the union of the shards. */
  ghost function Union<K, V>(s: seq<map<K, V>>): map<K, V> {
    if s == [] then map[] else Union(s[..|s| - 1]) + s[|s| - 1]
  }

  ghost function Total<K, V>(s: seq<map<K, V>>): nat {
    if s == [] then 0 else Total(s[..|s| - 1]) + |s[|s| - 1]|
  }

  lemma {:induction false} UnionHas<K, V>(s: seq<map<K, V>>, k: K)
    ensures k in Union(s) <==> exists i :: 0 <= i < |s| && k in s[i]
  {
    if s != [] {
      var before := s[..|s| - 1];
      UnionHas(before, k);
      if i :| 0 <= i < |before| && k in before[i] {
        assert k in s[i];
      }
    }
  }

  /** A key is in the plain map exactly if it is in its home shard, with the same value. */
  lemma {:induction false} UnionAtHome<K, V>(hash: K -> nat, s: seq<map<K, V>>, n: nat, k: K)
    requires Placed(hash, s) && n <= |s|
    ensures var h := Home(hash, |s|, k); var u := Union(s[..n]);
            (k in u <==> h < n && k in s[h]) && (k in u ==> u[k] == s[h][k])
    decreases n
  {
    if n > 0 {
      UnionAtHome(hash, s, n - 1, k);
      assert s[..n][..n - 1] == s[..n - 1];
    }
  }

  lemma Lookup<K, V>(hash: K -> nat, s: seq<map<K, V>>, k: K)
    requires Placed(hash, s)
    ensures var h := Home(hash, |s|, k);
            (k in Union(s) <==> k in s[h]) && (k in Union(s) ==> Union(s)[k] == s[h][k])
  {
    UnionAtHome(hash, s, |s|, k);
    assert s[..|s|] == s;
  }

  /** The shard sizes add up to the size of the plain map. */
  lemma {:induction false} TotalIsSize<K, V>(hash: K -> nat, s: seq<map<K, V>>, n: nat)
    requires Placed(hash, s) && n <= |s|
    ensures Total(s[..n]) == |Union(s[..n])|
    decreases n
  {
    if n > 0 {
      TotalIsSize(hash, s, n - 1);
      var before, last := Union(s[..n - 1]), s[n - 1];
      assert s[..n][..n - 1] == s[..n - 1];
      forall k | k in before
        ensures k !in last
      {
        UnionAtHome(hash, s, n - 1, k);
      }
      DisjointSize(before, last);
    }
  }

  lemma DisjointSize<K, V>(a: map<K, V>, b: map<K, V>)
    requires a.Keys !! b.Keys
    ensures |a + b| == |a| + |b|
  {
    assert (a + b).Keys == a.Keys + b.Keys;
    assert |a.Keys + b.Keys| == |a.Keys| + |b.Keys|;
  }

  /** The operations that lock one shard. */
  datatype PointOp<K, V> =
    | Set(key: K, value: V)
    | SetNX(key: K, value: V)
    | Remove(key: K)
    | ClearShard(index: nat)

  function Target<K, V>(hash: K -> nat, n: nat, op: PointOp<K, V>): nat
    requires n > 0
  {
    if op.ClearShard? then op.index else Home(hash, n, op.key)
  }

  /** What the operation does to the items of the shard it locks. */
  function OnShard<K, V>(op: PointOp<K, V>, items: map<K, V>): map<K, V> {
    match op
    case Set(k, v) => items[k := v]
    case SetNX(k, v) => if k in items then items else items[k := v]
    case Remove(k) => items - {k}
    case ClearShard(_) => map[]
  }

  /** What the operation does to the plain map. */
  ghost function OnMap<K, V>(hash: K -> nat, n: nat, op: PointOp<K, V>, m: map<K, V>): map<K, V>
    requires n > 0
  {
    match op
    case Set(k, v) => m[k := v]
    case SetNX(k, v) => if k in m then m else m[k := v]
    case Remove(k) => m - {k}
    case ClearShard(i) => map k | k in m && Home(hash, n, k) != i :: m[k]
  }

  ghost function OnShards<K, V>(hash: K -> nat, op: PointOp<K, V>, s: seq<map<K, V>>): seq<map<K, V>>
    requires |s| > 0 && Target(hash, |s|, op) < |s|
  {
    var i := Target(hash, |s|, op);
    s[i := OnShard(op, s[i])]
  }

  lemma OpKeepsPlaced<K, V>(hash: K -> nat, op: PointOp<K, V>, s: seq<map<K, V>>)
    requires Placed(hash, s) && Target(hash, |s|, op) < |s|
    ensures Placed(hash, OnShards(hash, op, s))
  {
  }

  /** What the plain map's step says of a key is what the key's shard says after the critical section. */
  lemma OpAtKey<K, V>(hash: K -> nat, op: PointOp<K, V>, s: seq<map<K, V>>, k: K)
    requires Placed(hash, s) && Target(hash, |s|, op) < |s|
    ensures var m, items := OnMap(hash, |s|, op, Union(s)), OnShards(hash, op, s)[Home(hash, |s|, k)];
            (k in m <==> k in items) && (k in m ==> m[k] == items[k])
  {
    Lookup(hash, s, k);
    match op {
      case Set(_, _) =>
      case SetNX(key, _) => Lookup(hash, s, key);
      case Remove(_) =>
      case ClearShard(_) =>
    }
  }

  /** One critical section on one shard is one step of the plain map. */
  lemma OpRefinesMap<K, V>(hash: K -> nat, op: PointOp<K, V>, s: seq<map<K, V>>)
    requires Placed(hash, s) && Target(hash, |s|, op) < |s|
    ensures Union(OnShards(hash, op, s)) == OnMap(hash, |s|, op, Union(s))
  {
    var u, u' := OnMap(hash, |s|, op, Union(s)), Union(OnShards(hash, op, s));
    forall k | k in u.Keys + u'.Keys
      ensures k in u && k in u' && u[k] == u'[k]
    {
      OpOnKey(hash, op, s, k);
    }
    MapsAgree(u, u');
  }

  lemma OpOnKey<K, V>(hash: K -> nat, op: PointOp<K, V>, s: seq<map<K, V>>, k: K)
    requires Placed(hash, s) && Target(hash, |s|, op) < |s|
    ensures var u, u' := OnMap(hash, |s|, op, Union(s)), Union(OnShards(hash, op, s));
            (k in u <==> k in u') && (k in u ==> u[k] == u'[k])
  {
    OpAtKey(hash, op, s, k);
    OpKeepsPlaced(hash, op, s);
    Lookup(hash, OnShards(hash, op, s), k);
  }

  lemma MapsAgree<K, V>(m: map<K, V>, m': map<K, V>)
    requires forall k | k in m.Keys + m'.Keys :: k in m && k in m' && m[k] == m'[k]
    ensures m == m'
  {
    assert m.Keys == m'.Keys;
  }

  /** Storing one more binding of data on top of some of them. */
  lemma StoreOneMore<K, V>(m: map<K, V>, data: map<K, V>, rest: set<K>, k: K)
    requires k in rest && rest <= data.Keys
    ensures (m + (data - rest))[k := data[k]] == m + (data - (rest - {k}))
  {
  }

  /** A list without repeated keys that mentions every key is as long as the map. */
  lemma ListSize<K, V>(ret: seq<(K, V)>, m: map<K, V>)
    requires forall i, j | 0 <= i < j < |ret| :: ret[i].0 != ret[j].0
    requires forall t :: t in ret <==> t.0 in m && m[t.0] == t.1
    ensures |ret| == |m|
  {
    var keys := set i | 0 <= i < |ret| :: ret[i].0;
    forall k | k in m
      ensures k in keys
    {
      assert (k, m[k]) in ret;
      var i :| 0 <= i < |ret| && ret[i] == (k, m[k]);
      assert ret[i].0 == k;
    }
    assert keys == m.Keys;
    DistinctSize(ret, |ret|);
  }

  lemma {:induction false} DistinctSize<K, V>(ret: seq<(K, V)>, n: nat)
    requires n <= |ret| && forall i, j | 0 <= i < j < |ret| :: ret[i].0 != ret[j].0
    ensures |set i | 0 <= i < n :: ret[i].0| == n
  {
    if n > 0 {
      DistinctSize(ret, n - 1);
      var before := set i | 0 <= i < n - 1 :: ret[i].0;
      assert (set i | 0 <= i < n :: ret[i].0) == before + {ret[n - 1].0};
    }
  }
}
