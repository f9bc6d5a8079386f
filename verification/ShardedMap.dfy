/** The sharded map as the source keeps it: a fixed row of shards whose item maps are changed in
    place, one at a time. Calls here run one after another; MapWalk interleaves them. */
module ShardedMap {
  import opened Options
  import opened Shards

  class Shard<K(==), V> {
    var items: map<K, V>

    constructor ()
      ensures items == map[]
    {
      items := map[];
    }
  }

  ghost predicate IsItems<K, V>(shards: seq<Shard<K, V>>, s: seq<map<K, V>>)
    reads shards
  {
    |s| == |shards| && forall i | 0 <= i < |s| :: s[i] == shards[i].items
  }

  ghost function ItemsOf<K, V>(shards: seq<Shard<K, V>>): (s: seq<map<K, V>>)
    reads shards
    ensures IsItems(shards, s)
  {
    assert IsItems(shards, seq(|shards|, i requires 0 <= i < |shards| reads shards => shards[i].items));
    var s :| IsItems(shards, s);
    s
  }

  class ConcurrentMap<K(==), V> {
    const hash: K -> nat
    var shards: seq<Shard<K, V>>

    ghost function Items(): seq<map<K, V>>
      reads this, shards
    {
      ItemsOf(shards)
    }

    ghost predicate Valid()
      reads this, shards
    {
      && (forall i, j | 0 <= i < j < |shards| :: shards[i] != shards[j])
      && Placed(hash, Items())
    }

    /** The plain map that the shards stand for. */
    ghost function Model(): map<K, V>
      reads this, shards
    {
      Union(Items())
    }

    constructor (hash: K -> nat, shardCount: nat)
      requires shardCount > 0
      ensures Valid() && fresh(shards) && |shards| == shardCount && this.hash == hash
      ensures Model() == map[]
    {
      this.hash := hash;
      var row: seq<Shard<K, V>> := [];
      while |row| < shardCount
        invariant |row| <= shardCount && fresh(row)
        invariant forall i | 0 <= i < |row| :: row[i].items == map[]
        invariant forall i, j | 0 <= i < j < |row| :: row[i] != row[j]
      {
        var s := new Shard();
        row := row + [s];
      }
      shards := row;
      new;
      forall k: K | k in Union(Items())
        ensures false
      {
        UnionHas(Items(), k);
      }
    }

    /** The one shard in which the key can be. */
    method GetShard(k: K) returns (s: Shard<K, V>)
      requires Valid()
      ensures s in shards && s == shards[hash(k) % |shards|]
      ensures k in s.items <==> k in Model()
      ensures k in s.items ==> s.items[k] == Model()[k]
      ensures forall t | t in shards && t != s :: k !in t.items
    {
      s := shards[Home(hash, |shards|, k)];
      Lookup(hash, Items(), k);
      forall t | t in shards && t != s
        ensures k !in t.items
      {
        var i :| 0 <= i < |shards| && shards[i] == t;
        assert Items()[i] == t.items;
      }
    }

    /** The effect of one critical section, whichever operation runs in it. */
    method Locked(op: PointOp<K, V>) returns (before: map<K, V>)
      requires Valid() && Target(hash, |shards|, op) < |shards|
      modifies shards
      ensures Valid() && before == old(Items())[Target(hash, |shards|, op)]
      ensures Items() == OnShards(hash, op, old(Items()))
      ensures Model() == OnMap(hash, |shards|, op, old(Model()))
    {
      ghost var s := Items();
      var shard := shards[Target(hash, |shards|, op)];
      before := shard.items;
      shard.items := OnShard(op, shard.items);
      assert Items() == OnShards(hash, op, s);
      OpKeepsPlaced(hash, op, s);
      OpRefinesMap(hash, op, s);
    }

    method Set(k: K, v: V)
      requires Valid()
      modifies shards
      ensures Valid() && Model() == old(Model())[k := v]
    {
      var _ := Locked(PointOp.Set(k, v));
    }

    /** Stores only when the key is absent, but answers true either way. The answer tells whether
        the value was stored exactly when the key was absent. */
    method SetNX(k: K, v: V) returns (ok: bool, ghost stored: bool)
      requires Valid()
      modifies shards
      ensures Valid() && ok
      ensures Model() == if stored then old(Model())[k := v] else old(Model())
      ensures stored <==> k !in old(Model())
      ensures (ok <==> stored) <==> k !in old(Model())
    {
      ghost var before := Locked(PointOp.SetNX(k, v));
      stored := k !in before;
      Lookup(hash, old(Items()), k);
      ok := true;
    }

    method Get(k: K) returns (r: Option<V>)
      requires Valid()
      ensures r == if k in Model() then Some(Model()[k]) else None
    {
      var s := GetShard(k);
      r := if k in s.items then Some(s.items[k]) else None;
    }

    method Remove(k: K)
      requires Valid()
      modifies shards
      ensures Valid() && Model() == old(Model()) - {k}
    {
      var _ := Locked(PointOp.Remove(k));
    }

    method GetAndRemove(k: K) returns (r: Option<V>)
      requires Valid()
      modifies shards
      ensures Valid() && Model() == old(Model()) - {k}
      ensures r == if k in old(Model()) then Some(old(Model())[k]) else None
    {
      Lookup(hash, Items(), k);
      var before := Locked(PointOp.Remove(k));
      r := if k in before then Some(before[k]) else None;
    }

    /** The result does not depend on the order in which the argument is iterated. */
    method MSet(data: map<K, V>)
      requires Valid()
      modifies shards
      ensures Valid() && Model() == old(Model()) + data
    {
      ghost var m := Model();
      var rest := data.Keys;
      while rest != {}
        invariant rest <= data.Keys
        invariant Valid() && Model() == m + (data - rest)
        decreases |rest|
      {
        var k :| k in rest;
        StoreOneMore(m, data, rest, k);
        Set(k, data[k]);
        rest := rest - {k};
      }
      assert data - {} == data;
    }

    method MGet(keys: seq<K>) returns (data: map<K, V>)
      requires Valid()
      ensures data == map k | k in keys && k in Model() :: Model()[k]
    {
      data := map[];
      for i := 0 to |keys|
        invariant data == map k | k in keys[..i] && k in Model() :: Model()[k]
      {
        var r := Get(keys[i]);
        if r.Some? {
          data := data[keys[i] := r.value];
        }
      }
    }

    method GetAll() returns (data: map<K, V>)
      requires Valid()
      ensures data == Model()
    {
      data := map[];
      for i := 0 to |shards|
        invariant data == Union(Items()[..i])
      {
        assert Items()[..i + 1][..i] == Items()[..i];
        data := data + shards[i].items;
      }
      assert Items()[..|shards|] == Items();
    }

    /** The keys of one shard, in any order, behind those already collected. */
    method Collect(s: Shard<K, V>, ret: seq<(K, V)>) returns (ret': seq<(K, V)>)
      requires forall t | t in ret :: t.0 !in s.items
      requires forall i, j | 0 <= i < j < |ret| :: ret[i].0 != ret[j].0
      ensures forall i, j | 0 <= i < j < |ret'| :: ret'[i].0 != ret'[j].0
      ensures forall t :: t in ret' <==> t in ret || (t.0 in s.items && s.items[t.0] == t.1)
    {
      ret' := ret;
      var rest := s.items.Keys;
      while rest != {}
        invariant rest <= s.items.Keys
        invariant forall i, j | 0 <= i < j < |ret'| :: ret'[i].0 != ret'[j].0
        invariant forall t :: t in ret' <==> t in ret || (t.0 in s.items && t.0 !in rest && s.items[t.0] == t.1)
        decreases |rest|
      {
        var k :| k in rest;
        ret' := ret' + [(k, s.items[k])];
        rest := rest - {k};
      }
    }

    /** The undisturbed walk behind Keys and Iter: every entry once. */
    method Entries() returns (ret: seq<(K, V)>)
      requires Valid()
      ensures forall i, j | 0 <= i < j < |ret| :: ret[i].0 != ret[j].0
      ensures forall t :: t in ret <==> t.0 in Model() && Model()[t.0] == t.1
      ensures |ret| == |Model()|
    {
      ret := [];
      for i := 0 to |shards|
        invariant forall j, k | 0 <= j < k < |ret| :: ret[j].0 != ret[k].0
        invariant forall t :: t in ret <==> t.0 in Union(Items()[..i]) && Union(Items()[..i])[t.0] == t.1
      {
        ret := CollectNext(i, ret);
      }
      assert Items()[..|shards|] == Items();
      ListSize(ret, Model());
    }

    method CollectNext(i: nat, ret: seq<(K, V)>) returns (ret': seq<(K, V)>)
      requires Valid() && i < |shards|
      requires forall j, k | 0 <= j < k < |ret| :: ret[j].0 != ret[k].0
      requires forall t :: t in ret <==> t.0 in Union(Items()[..i]) && Union(Items()[..i])[t.0] == t.1
      ensures forall j, k | 0 <= j < k < |ret'| :: ret'[j].0 != ret'[k].0
      ensures forall t :: t in ret' <==> t.0 in Union(Items()[..i + 1]) && Union(Items()[..i + 1])[t.0] == t.1
    {
      ghost var s := Items();
      assert s[..i + 1][..i] == s[..i];
      forall t | t in ret
        ensures t.0 !in s[i]
      {
        UnionAtHome(hash, s, i, t.0);
      }
      ret' := Collect(shards[i], ret);
      forall t: (K, V)
        ensures t in ret' <==> t.0 in Union(s[..i + 1]) && Union(s[..i + 1])[t.0] == t.1
      {
        UnionAtHome(hash, s, i, t.0);
        UnionAtHome(hash, s, i + 1, t.0);
      }
    }

    method Count() returns (count: nat)
      requires Valid()
      ensures count == |Model()|
    {
      count := 0;
      for i := 0 to |shards|
        invariant count == Total(Items()[..i])
      {
        assert Items()[..i + 1][..i] == Items()[..i];
        count := count + |shards[i].items|;
      }
      TotalIsSize(hash, Items(), |shards|);
      assert Items()[..|shards|] == Items();
    }

    method Clear()
      requires Valid()
      modifies shards
      ensures Valid() && Model() == map[]
    {
      for i := 0 to |shards|
        invariant Valid()
        invariant forall k | k in Model() :: Home(hash, |shards|, k) >= i
      {
        var _ := Locked(ClearShard(i));
      }
    }

    /** With nobody writing, the channel's capacity is exactly the number of tuples sent. */
    method IterBuffered() returns (capacity: nat, sent: seq<(K, V)>)
      requires Valid()
      ensures |sent| == capacity == |Model()|
      ensures forall t :: t in sent <==> t.0 in Model() && Model()[t.0] == t.1
    {
      capacity := Count();
      sent := Entries();
    }
  }
}
