/** A walk over all shards while other goroutines write. The walk holds one shard's read lock at a time
    and, unless it is Count, lists that shard's entries one by one; writers may lock any other shard in
    between. */
module MapWalk {
  import opened FiniteSets
  import opened Shards

  /** listing tells Keys, GetAll and Iter from Count, which sends nothing and only adds up sizes; pc is
      the shard being walked or next to be walked; rest are the keys of the locked shard that are still
      to be sent; locked are all keys that were in a shard when the walk locked it. */
  datatype State<K, V> = State(
    listing: bool, shards: seq<map<K, V>>, pc: nat, holding: bool,
    rest: set<K>, sent: seq<(K, V)>, counted: nat, locked: set<K>)

  datatype Step<K, V> =
    | Acquire
    | Send(key: K)
    | Release
    | Write(op: PointOp<K, V>)

  ghost predicate Init<K, V>(hash: K -> nat, s: State<K, V>) {
    && Placed(hash, s.shards) && s.pc == 0 && !s.holding
    && s.rest == {} && s.sent == [] && s.counted == 0 && s.locked == {}
  }

  ghost predicate Done<K, V>(s: State<K, V>) {
    s.pc == |s.shards| && !s.holding
  }

  ghost predicate Enabled<K, V>(hash: K -> nat, s: State<K, V>, step: Step<K, V>)
    requires |s.shards| > 0
  {
    match step
    case Acquire => !s.holding && s.pc < |s.shards|
    case Send(k) => s.holding && s.pc < |s.shards| && k in s.rest && k in s.shards[s.pc]
    case Release => s.holding && s.rest == {}
    case Write(op) =>
      && Target(hash, |s.shards|, op) < |s.shards|
      && !(s.holding && s.pc == Target(hash, |s.shards|, op))
  }

  ghost function After<K, V>(hash: K -> nat, s: State<K, V>, step: Step<K, V>): State<K, V>
    requires |s.shards| > 0 && Enabled(hash, s, step)
  {
    match step
    case Acquire =>
      var items := s.shards[s.pc];
      s.(holding := true, rest := if s.listing then items.Keys else {},
         counted := s.counted + |items|, locked := s.locked + items.Keys)
    case Send(k) => s.(rest := s.rest - {k}, sent := s.sent + [(k, s.shards[s.pc][k])])
    case Release => s.(holding := false, pc := s.pc + 1)
    case Write(op) => s.(shards := OnShards(hash, op, s.shards))
  }

  ghost predicate Next<K(!new), V(!new)>(hash: K -> nat, s: State<K, V>, s': State<K, V>) {
    |s.shards| > 0 && exists step: Step<K, V> :: Enabled(hash, s, step) && s' == After(hash, s, step)
  }

  /** A run: any interleaving of the walk's steps with single-shard writes. */
  ghost predicate IsRun<K(!new), V(!new)>(hash: K -> nat, run: seq<State<K, V>>) {
    && |run| > 0
    && Init(hash, run[0])
    && forall i | 0 <= i < |run| - 1 :: Next(hash, run[i], run[i + 1])
  }

  ghost predicate Has<K, V>(hash: K -> nat, s: State<K, V>, k: K)
    requires |s.shards| > 0
  {
    k in s.shards[Home(hash, |s.shards|, k)]
  }

  /** The walk has locked the place of k. */
  ghost predicate Reached<K, V>(hash: K -> nat, s: State<K, V>, k: K)
    requires |s.shards| > 0
  {
    var h := Home(hash, |s.shards|, k);
    h < s.pc || (h == s.pc && s.holding)
  }

  ghost predicate Sent<K, V>(s: State<K, V>, k: K) {
    exists i :: 0 <= i < |s.sent| && s.sent[i].0 == k
  }

  /** Where the walk is and what it has locked. */
  ghost predicate WalkInv<K, V>(hash: K -> nat, s: State<K, V>) {
    && Placed(hash, s.shards)
    && s.pc <= |s.shards|
    && (if s.holding then s.pc < |s.shards| && s.rest <= s.shards[s.pc].Keys <= s.locked else s.rest == {})
    && (forall k | k in s.locked :: Reached(hash, s, k))
    && s.counted == |s.locked|
  }

  /** What the walk has sent: each key once, and all that were locked but those still to be sent. */
  ghost predicate SentInv<K, V>(s: State<K, V>) {
    && (forall i | 0 <= i < |s.sent| :: s.sent[i].0 in s.locked && s.sent[i].0 !in s.rest)
    && (forall i, j | 0 <= i < j < |s.sent| :: s.sent[i].0 != s.sent[j].0)
    && (if s.listing then
          s.counted == |s.sent| + |s.rest| && forall k | k in s.locked :: k in s.rest || Sent(s, k)
        else s.sent == [] && s.rest == {})
  }

  /** What holds in every state by itself. */
  ghost predicate Inv<K, V>(hash: K -> nat, s: State<K, V>) {
    WalkInv(hash, s) && SentInv(s)
  }

  lemma StepKeepsWalkInv<K, V>(hash: K -> nat, s: State<K, V>, step: Step<K, V>)
    requires WalkInv(hash, s) && Enabled(hash, s, step)
    ensures WalkInv(hash, After(hash, s, step))
  {
    match step {
      case Acquire =>
        var keys := s.shards[s.pc].Keys;
        assert s.locked !! keys;
        assert |s.locked + keys| == |s.locked| + |keys|;
      case Send(_) =>
      case Release =>
      case Write(op) =>
        OpKeepsPlaced(hash, op, s.shards);
        assert s.holding ==> After(hash, s, step).shards[s.pc] == s.shards[s.pc];
    }
  }

  lemma StepKeepsSentInv<K, V>(hash: K -> nat, s: State<K, V>, step: Step<K, V>)
    requires Inv(hash, s) && Enabled(hash, s, step)
    ensures SentInv(After(hash, s, step))
  {
    var s' := After(hash, s, step);
    if step.Send? {
      assert s'.sent[|s.sent|].0 == step.key;
    }
    if s.listing {
      forall k | k in s'.locked
        ensures k in s'.rest || Sent(s', k)
      {
        if k in s.locked && Sent(s, k) {
          var i :| 0 <= i < |s.sent| && s.sent[i].0 == k;
          assert s'.sent[i].0 == k;
        }
      }
    }
  }

  lemma StepKeepsInv<K, V>(hash: K -> nat, s: State<K, V>, step: Step<K, V>)
    requires Inv(hash, s) && Enabled(hash, s, step)
    ensures Inv(hash, After(hash, s, step))
  {
    StepKeepsWalkInv(hash, s, step);
    StepKeepsSentInv(hash, s, step);
  }

  lemma {:induction false} RunKeepsInv<K(!new), V(!new)>(hash: K -> nat, run: seq<State<K, V>>, t: nat)
    requires IsRun(hash, run) && t < |run|
    ensures Inv(hash, run[t]) && |run[t].shards| == |run[0].shards| && run[t].listing == run[0].listing
    decreases t
  {
    if t > 0 {
      RunKeepsInv(hash, run, t - 1);
      assert Next(hash, run[t - 1], run[t - 1 + 1]);
      var step :| Enabled(hash, run[t - 1], step) && run[t] == After(hash, run[t - 1], step);
      StepKeepsInv(hash, run[t - 1], step);
    }
  }

  /** The binding was in the map at some moment of the run up to t. */
  ghost predicate EverBound<K, V>(hash: K -> nat, run: seq<State<K, V>>, t: nat, k: K, v: V)
    requires forall j | 0 <= j < |run| :: |run[j].shards| > 0
  {
    exists j :: 0 <= j <= t && j < |run| && Binds(hash, run[j], k, v)
  }

  lemma RunNonempty<K(!new), V(!new)>(hash: K -> nat, run: seq<State<K, V>>)
    requires IsRun(hash, run)
    ensures forall j | 0 <= j < |run| :: |run[j].shards| == |run[0].shards| > 0
  {
    forall j | 0 <= j < |run|
      ensures |run[j].shards| == |run[0].shards| > 0
    {
      RunKeepsInv(hash, run, j);
    }
  }

  ghost predicate Binds<K, V>(hash: K -> nat, s: State<K, V>, k: K, v: V)
    requires |s.shards| > 0
  {
    Has(hash, s, k) && s.shards[Home(hash, |s.shards|, k)][k] == v
  }

  /** A step sends nothing, or one binding of the map. */
  lemma StepSends<K, V>(hash: K -> nat, s: State<K, V>, step: Step<K, V>)
    requires WalkInv(hash, s) && Enabled(hash, s, step)
    ensures After(hash, s, step).sent == s.sent || exists k, v ::
              After(hash, s, step).sent == s.sent + [(k, v)] && Binds(hash, s, k, v)
  {
    if step.Send? {
      assert Binds(hash, s, step.key, s.shards[s.pc][step.key]);
    }
  }

  /** Whatever has been sent was in the map, with that value, at some moment of the run. */
  lemma {:induction false} SentWasBound<K(!new), V(!new)>(hash: K -> nat, run: seq<State<K, V>>, t: nat, i: nat)
    requires IsRun(hash, run) && t < |run| && i < |run[t].sent|
    requires forall j | 0 <= j < |run| :: |run[j].shards| > 0
    ensures EverBound(hash, run, t, run[t].sent[i].0, run[t].sent[i].1)
    decreases t
  {
    if t > 0 {
      RunKeepsInv(hash, run, t - 1);
      assert Next(hash, run[t - 1], run[t - 1 + 1]);
      var step :| Enabled(hash, run[t - 1], step) && run[t] == After(hash, run[t - 1], step);
      StepSends(hash, run[t - 1], step);
      if i < |run[t - 1].sent| {
        SentWasBound(hash, run, t - 1, i);
      }
    }
  }

  /** A step locks just the keys of the shard it reaches. */
  lemma StepReaches<K, V>(hash: K -> nat, s: State<K, V>, step: Step<K, V>, k: K)
    requires WalkInv(hash, s) && Enabled(hash, s, step)
    ensures var s' := After(hash, s, step);
            && (Reached(hash, s', k) && Has(hash, s, k) ==> Reached(hash, s, k) || k in s'.locked)
            && (k in s'.locked ==> k in s.locked || Has(hash, s, k))
            && s.locked <= s'.locked
  {
  }

  lemma RunReaches<K(!new), V(!new)>(hash: K -> nat, run: seq<State<K, V>>, t: nat, k: K)
    requires IsRun(hash, run) && 0 < t < |run|
    requires |run[t - 1].shards| > 0 && |run[t].shards| > 0
    ensures Reached(hash, run[t], k) && Has(hash, run[t - 1], k) ==> Reached(hash, run[t - 1], k) || k in run[t].locked
    ensures k in run[t].locked ==> k in run[t - 1].locked || Has(hash, run[t - 1], k)
    ensures run[t - 1].locked <= run[t].locked
  {
    RunKeepsInv(hash, run, t - 1);
    assert Next(hash, run[t - 1], run[t - 1 + 1]);
    var s := run[t - 1];
    var step :| Enabled(hash, s, step) && run[t] == After(hash, s, step);
    StepReaches(hash, s, step, k);
  }

  /** A key that is in the map from some moment on, at which the walk has not reached its shard, is there
      when the walk locks the shard. */
  lemma {:induction false} StayerIsLocked<K(!new), V(!new)>(
      hash: K -> nat, run: seq<State<K, V>>, from: nat, t: nat, k: K)
    requires IsRun(hash, run) && from <= t < |run|
    requires forall j | 0 <= j < |run| :: |run[j].shards| > 0
    requires !Reached(hash, run[from], k) && forall j | from <= j <= t :: Has(hash, run[j], k)
    requires Reached(hash, run[t], k)
    ensures k in run[t].locked
    decreases t
  {
    if t > from {
      RunReaches(hash, run, t, k);
      if Reached(hash, run[t - 1], k) {
        StayerIsLocked(hash, run, from, t - 1, k);
      }
    }
  }

  /** And whatever the walk found in a shard it locked was in the map at some moment of the run. */
  lemma {:induction false} LockedWasThere<K(!new), V(!new)>(hash: K -> nat, run: seq<State<K, V>>, t: nat, k: K)
    requires IsRun(hash, run) && t < |run| && k in run[t].locked
    requires forall j | 0 <= j < |run| :: |run[j].shards| > 0
    ensures exists j :: 0 <= j <= t && Has(hash, run[j], k)
    decreases t
  {
    if t > 0 {
      RunReaches(hash, run, t, k);
      if k in run[t - 1].locked {
        LockedWasThere(hash, run, t - 1, k);
      }
    }
  }

  /** A key that stays in the map has been sent when its shard is behind a listing walk. */
  lemma StayerIsSent<K(!new), V(!new)>(hash: K -> nat, run: seq<State<K, V>>, from: nat, t: nat, k: K)
    requires IsRun(hash, run) && run[0].listing && from <= t < |run|
    requires forall j | 0 <= j < |run| :: |run[j].shards| > 0
    requires !Reached(hash, run[from], k) && forall j | from <= j <= t :: Has(hash, run[j], k)
    requires Reached(hash, run[t], k) && k !in run[t].rest
    ensures Sent(run[t], k)
  {
    RunKeepsInv(hash, run, t);
    StayerIsLocked(hash, run, from, t, k);
  }

  ghost predicate Always<K, V>(hash: K -> nat, run: seq<State<K, V>>, k: K)
    requires forall j | 0 <= j < |run| :: |run[j].shards| > 0
  {
    forall j | 0 <= j < |run| :: Has(hash, run[j], k)
  }

  /** The guarantee of Keys, GetAll and Iter over every interleaving: no key twice, every key that
      stays in the map throughout, every key that is there from some moment on before the walk reaches
      its shard, and only bindings that were there at some moment of the call. */
  lemma WalkGuarantee<K(!new), V(!new)>(hash: K -> nat, run: seq<State<K, V>>)
    requires IsRun(hash, run) && run[0].listing && Done(run[|run| - 1])
    ensures forall j | 0 <= j < |run| :: |run[j].shards| > 0
    ensures var sent := run[|run| - 1].sent; forall i, j | 0 <= i < j < |sent| :: sent[i].0 != sent[j].0
    ensures forall k | k in Union(run[0].shards) && Always(hash, run, k) :: Sent(run[|run| - 1], k)
    ensures forall from, k | 0 <= from < |run| && !Reached(hash, run[from], k)
                             && (forall j | from <= j < |run| :: Has(hash, run[j], k)) :: Sent(run[|run| - 1], k)
    ensures var sent := run[|run| - 1].sent;
            forall i | 0 <= i < |sent| :: EverBound(hash, run, |run| - 1, sent[i].0, sent[i].1)
  {
    RunNonempty(hash, run);
    var last := |run| - 1;
    RunKeepsInv(hash, run, last);
    forall k | k in Union(run[0].shards) && Always(hash, run, k)
      ensures Sent(run[last], k)
    {
      StayerIsSent(hash, run, 0, last, k);
    }
    forall from, k | 0 <= from < |run| && !Reached(hash, run[from], k)
                     && (forall j | from <= j < |run| :: Has(hash, run[j], k))
      ensures Sent(run[last], k)
    {
      StayerIsSent(hash, run, from, last, k);
    }
    forall i | 0 <= i < |run[last].sent|
      ensures EverBound(hash, run, last, run[last].sent[i].0, run[last].sent[i].1)
    {
      SentWasBound(hash, run, last, i);
    }
  }

  /** The keys present in every state. */
  ghost function AlwaysKeys<K, V>(hash: K -> nat, run: seq<State<K, V>>): set<K>
    requires |run| > 0 && forall j | 0 <= j < |run| :: |run[j].shards| > 0
  {
    set k | k in Union(run[0].shards) && Always(hash, run, k)
  }

  /** The keys present in some state. */
  ghost function EverKeys<K, V>(run: seq<State<K, V>>): set<K> {
    if run == [] then {} else EverKeys(run[..|run| - 1]) + Union(run[|run| - 1].shards).Keys
  }

  lemma {:induction false} EverKeysHas<K, V>(hash: K -> nat, run: seq<State<K, V>>, j: nat, k: K)
    requires j < |run| && Placed(hash, run[j].shards) && Has(hash, run[j], k)
    ensures k in EverKeys(run)
  {
    if j < |run| - 1 {
      EverKeysHas(hash, run[..|run| - 1], j, k);
    } else {
      Lookup(hash, run[j].shards, k);
    }
  }

  /** What Count returns over every interleaving: at least the number of keys that stay throughout,
      at most the number of keys that are there at some moment. */
  lemma CountBounds<K(!new), V(!new)>(hash: K -> nat, run: seq<State<K, V>>)
    requires IsRun(hash, run) && Done(run[|run| - 1])
    ensures forall j | 0 <= j < |run| :: |run[j].shards| > 0
    ensures |AlwaysKeys(hash, run)| <= run[|run| - 1].counted <= |EverKeys(run)|
  {
    RunNonempty(hash, run);
    var last := |run| - 1;
    RunKeepsInv(hash, run, last);
    forall k | k in AlwaysKeys(hash, run)
      ensures k in run[last].locked
    {
      StayerIsLocked(hash, run, 0, last, k);
    }
    forall k | k in run[last].locked
      ensures k in EverKeys(run)
    {
      LockedWasThere(hash, run, last, k);
      var j :| 0 <= j <= last && Has(hash, run[j], k);
      RunKeepsInv(hash, run, j);
      EverKeysHas(hash, run, j, k);
    }
    SubsetSize(run[last].locked, EverKeys(run));
    SubsetSize(AlwaysKeys(hash, run), run[last].locked);
  }

  /** When nobody writes, Count counts exactly the keys. */
  lemma QuietCountIsExact<K(!new), V(!new)>(hash: K -> nat, run: seq<State<K, V>>)
    requires IsRun(hash, run) && Done(run[|run| - 1]) && Quiet(run)
    ensures run[|run| - 1].counted == |Union(run[0].shards)|
  {
    RunNonempty(hash, run);
    var last := |run| - 1;
    RunKeepsInv(hash, run, last);
    forall k
      ensures k in run[last].locked <==> k in Union(run[0].shards)
    {
      Lookup(hash, run[0].shards, k);
      if k in run[last].locked {
        LockedWasThere(hash, run, last, k);
      } else if k in Union(run[0].shards) {
        StayerIsLocked(hash, run, 0, last, k);
      }
    }
    assert run[last].locked == Union(run[0].shards).Keys;
  }

  ghost predicate Quiet<K, V>(run: seq<State<K, V>>) {
    |run| > 0 && forall j | 0 <= j < |run| :: run[j].shards == run[0].shards
  }

  lemma QuietWalkSends<K(!new), V(!new)>(hash: K -> nat, run: seq<State<K, V>>, k: K)
    requires IsRun(hash, run) && run[0].listing && Done(run[|run| - 1]) && Quiet(run)
    ensures Sent(run[|run| - 1], k) <==> k in Union(run[0].shards)
    ensures forall t | t in run[|run| - 1].sent && t.0 == k ::
              k in Union(run[0].shards) && t.1 == Union(run[0].shards)[k]
  {
    WalkGuarantee(hash, run);
    Lookup(hash, run[0].shards, k);
    var sent := run[|run| - 1].sent;
    assert k in Union(run[0].shards) ==> Always(hash, run, k);
    forall t | t in sent && t.0 == k
      ensures k in Union(run[0].shards) && t.1 == Union(run[0].shards)[k]
    {
      var i :| 0 <= i < |sent| && sent[i] == t;
      assert EverBound(hash, run, |run| - 1, sent[i].0, sent[i].1);
    }
  }

  lemma QuietTuple<K(!new), V(!new)>(hash: K -> nat, run: seq<State<K, V>>, t: (K, V))
    requires IsRun(hash, run) && run[0].listing && Done(run[|run| - 1]) && Quiet(run)
    ensures var m := Union(run[0].shards); t in run[|run| - 1].sent <==> t.0 in m && m[t.0] == t.1
  {
    var sent, m := run[|run| - 1].sent, Union(run[0].shards);
    QuietWalkSends(hash, run, t.0);
    if t.0 in m {
      var i :| 0 <= i < |sent| && sent[i].0 == t.0;
      assert sent[i] == (t.0, m[t.0]);
    }
  }

  /** When nobody writes during the walk, it sends exactly the map's entries: as many tuples as
      Count promised for the channel's capacity, and each of them in the map. */
  lemma QuietWalkIsExact<K(!new), V(!new)>(hash: K -> nat, run: seq<State<K, V>>)
    requires IsRun(hash, run) && run[0].listing && Done(run[|run| - 1]) && Quiet(run)
    ensures var sent, m := run[|run| - 1].sent, Union(run[0].shards);
            && |sent| == |m| == run[|run| - 1].counted
            && forall t :: t in sent <==> t.0 in m && m[t.0] == t.1
  {
    WalkGuarantee(hash, run);
    var sent, m := run[|run| - 1].sent, Union(run[0].shards);
    forall t: (K, V)
      ensures t in sent <==> t.0 in m && m[t.0] == t.1
    {
      QuietTuple(hash, run, t);
    }
    ListSize(sent, m);
    QuietCountIsExact(hash, run);
  }

  /** The walk itself can always go on, whatever the writers have done. */
  lemma WalkerNeverStuck<K, V>(hash: K -> nat, s: State<K, V>)
    requires Inv(hash, s) && !Done(s)
    ensures exists step: Step<K, V> :: !step.Write? && Enabled(hash, s, step)
  {
    if !s.holding {
      assert Enabled(hash, s, Acquire);
    } else if s.rest == {} {
      assert Enabled(hash, s, Release);
    } else {
      var k :| k in s.rest;
      assert Enabled(hash, s, Send(k));
    }
  }

  // ---- What writers do meanwhile ----

  /** The two states differ in the shards only. */
  ghost predicate SameWalk<K, V>(s: State<K, V>, s': State<K, V>) {
    && s'.listing == s.listing && s'.pc == s.pc && s'.holding == s.holding && s'.rest == s.rest
    && s'.sent == s.sent && s'.counted == s.counted && s'.locked == s.locked
  }

  /** What a write means for the whole map. */
  ghost predicate Writes<K, V>(hash: K -> nat, n: nat, op: PointOp<K, V>, m: map<K, V>, m': map<K, V>)
    requires n > 0
  {
    match op
    case Set(k, v) => m' == m[k := v]
    case SetNX(k, v) => m' == if k in m then m else m[k := v]
    case Remove(k) => m' == m - {k}
    case ClearShard(i) =>
      && (forall k | k in m && hash(k) % n != i :: k in m' && m'[k] == m[k])
      && (forall k | k in m' :: k in m && hash(k) % n != i)
  }

  /** A write to any shard but the one that the walk holds can happen at any moment, takes full effect and
      leaves the walk where it is. */
  lemma WriterCanAct<K(!new), V(!new)>(hash: K -> nat, s: State<K, V>, op: PointOp<K, V>)
    requires Inv(hash, s)
    requires var i := if op.ClearShard? then op.index else hash(op.key) % |s.shards|;
             i < |s.shards| && !(s.holding && i == s.pc)
    ensures exists s' ::
              && Next(hash, s, s') && SameWalk(s, s')
              && Writes(hash, |s.shards|, op, Union(s.shards), Union(s'.shards))
  {
    assert Enabled(hash, s, Write(op));
    var s' := After(hash, s, Write(op));
    assert Next(hash, s, s');
    WriteTakesEffect(hash, s, op);
  }

  lemma WriteTakesEffect<K, V>(hash: K -> nat, s: State<K, V>, op: PointOp<K, V>)
    requires Inv(hash, s) && Enabled(hash, s, Write(op))
    ensures var s' := After(hash, s, Write(op));
            SameWalk(s, s') && Writes(hash, |s.shards|, op, Union(s.shards), Union(s'.shards))
  {
    OpRefinesMap(hash, op, s.shards);
  }

  ghost predicate IsWrite<K(!new), V(!new)>(hash: K -> nat, s: State<K, V>, s': State<K, V>) {
    && |s.shards| > 0 && SameWalk(s, s')
    && exists op: PointOp<K, V> :: Writes(hash, |s.shards|, op, Union(s.shards), Union(s'.shards))
  }

  lemma StepMeans<K(!new), V(!new)>(hash: K -> nat, s: State<K, V>, step: Step<K, V>)
    requires Inv(hash, s) && Enabled(hash, s, step)
    ensures var s' := After(hash, s, step);
            && (if step.Write? then IsWrite(hash, s, s') else s'.shards == s.shards)
            && (s.holding ==> s.pc < |s'.shards| == |s.shards| && s'.shards[s.pc] == s.shards[s.pc])
  {
    if step.Write? {
      WriteTakesEffect(hash, s, step.op);
    }
  }

  /** Nothing else happens: a step is the walk's own and leaves all shards alone, or it is a write that
      takes effect; and the shard that the walk holds stays as it is. */
  lemma NextMeans<K(!new), V(!new)>(hash: K -> nat, s: State<K, V>, s': State<K, V>)
    requires Inv(hash, s) && Next(hash, s, s')
    ensures s'.shards == s.shards || IsWrite(hash, s, s')
    ensures s.holding ==> s.pc < |s'.shards| == |s.shards| && s'.shards[s.pc] == s.shards[s.pc]
  {
    var step :| Enabled(hash, s, step) && s' == After(hash, s, step);
    StepMeans(hash, s, step);
  }

  ghost predicate IsPath<K(!new), V(!new)>(hash: K -> nat, path: seq<State<K, V>>) {
    |path| > 0 && forall i | 0 <= i < |path| - 1 :: Next(hash, path[i], path[i + 1])
  }

  /** The walk's own next step brings it nearer to its end. */
  lemma WalkGoesOn<K(!new), V(!new)>(hash: K -> nat, s: State<K, V>) returns (s': State<K, V>)
    requires Inv(hash, s) && !Done(s)
    ensures Next(hash, s, s') && Inv(hash, s') && s'.shards == s.shards
    ensures if s.holding && s'.holding then s'.pc == s.pc && s'.rest < s.rest
            else if s.holding then s'.pc == s.pc + 1
            else s'.pc == s.pc && s'.holding
  {
    var step: Step<K, V> := Acquire;
    if s.holding && s.rest == {} {
      step := Release;
    } else if s.holding {
      var k :| k in s.rest;
      step := Send(k);
    }
    s' := After(hash, s, step);
    StepKeepsInv(hash, s, step);
    StepMeans(hash, s, step);
  }

  /** From everywhere the walk can come to its end by itself. */
  lemma {:induction false} WalkFinishes<K(!new), V(!new)>(hash: K -> nat, s: State<K, V>)
    returns (path: seq<State<K, V>>)
    requires Inv(hash, s)
    ensures IsPath(hash, path) && path[0] == s && Done(path[|path| - 1])
    ensures forall i | 0 <= i < |path| :: path[i].shards == s.shards
    decreases |s.shards| - s.pc, if s.holding then 0 else 1, s.rest
  {
    if Done(s) {
      return [s];
    }
    var s' := WalkGoesOn(hash, s);
    var more := WalkFinishes(hash, s');
    path := [s] + more;
  }

  /** The walk locks the first shard, and meanwhile a key is stored further on. */
  lemma LateStart<K(!new), V(!new)>(hash: K -> nat, shards: seq<map<K, V>>, k: K, v: V)
    returns (s0: State<K, V>, s1: State<K, V>, s2: State<K, V>)
    requires Placed(hash, shards) && k !in Union(shards) && hash(k) % |shards| > 0
    ensures Init(hash, s0) && s0.listing && s0.shards == shards && Next(hash, s0, s1) && Next(hash, s1, s2)
    ensures Inv(hash, s2) && |s2.shards| == |s1.shards| == |shards|
    ensures !Has(hash, s0, k) && !Has(hash, s1, k) && Binds(hash, s2, k, v) && !Reached(hash, s2, k)
  {
    s0 := State(true, shards, 0, false, {}, [], 0, {});
    s1 := After(hash, s0, Acquire);
    s2 := After(hash, s1, Write(PointOp.Set(k, v)));
    StepKeepsInv(hash, s0, Acquire);
    StepKeepsInv(hash, s1, Write(PointOp.Set(k, v)));
    Lookup(hash, shards, k);
  }

  /** A key that is stored while the walk is under way, into a shard still ahead, is reported with its
      value in some run: writers really act beside the walk. */
  lemma LateKeyIsSent<K(!new), V(!new)>(hash: K -> nat, shards: seq<map<K, V>>, k: K, v: V)
    requires Placed(hash, shards) && k !in Union(shards) && hash(k) % |shards| > 0
    ensures exists run: seq<State<K, V>> ::
              && IsRun(hash, run) && run[0].listing && run[0].shards == shards
              && Done(run[|run| - 1]) && (k, v) in run[|run| - 1].sent
  {
    var s0, s1, s2 := LateStart(hash, shards, k, v);
    var path := WalkFinishes(hash, s2);
    var run := LateRun(hash, s0, s1, path);
    forall j | 0 <= j < |run|
      ensures |run[j].shards| > 0 && (j >= 2 ==> Binds(hash, run[j], k, v))
    {
      assert j >= 2 ==> run[j] == path[j - 2];
    }
    LateKeyInRun(hash, run, k, v);
  }

  lemma LateRun<K(!new), V(!new)>(hash: K -> nat, s0: State<K, V>, s1: State<K, V>, path: seq<State<K, V>>)
    returns (run: seq<State<K, V>>)
    requires IsPath(hash, path) && Init(hash, s0) && Next(hash, s0, s1) && Next(hash, s1, path[0])
    ensures IsRun(hash, run) && |run| == |path| + 2 && run[0] == s0 && run[1] == s1
    ensures forall j | 2 <= j < |run| :: run[j] == path[j - 2]
  {
    run := [s0, s1] + path;
    forall i | 0 <= i < |run| - 1
      ensures Next(hash, run[i], run[i + 1])
    {
      if i >= 2 {
        assert Next(hash, path[i - 2], path[i - 2 + 1]);
      }
    }
  }

  lemma LateKeyInRun<K(!new), V(!new)>(hash: K -> nat, run: seq<State<K, V>>, k: K, v: V)
    requires IsRun(hash, run) && run[0].listing && |run| > 2 && Done(run[|run| - 1])
    requires forall j | 0 <= j < |run| :: |run[j].shards| > 0
    requires !Has(hash, run[0], k) && !Has(hash, run[1], k) && !Reached(hash, run[2], k)
    requires forall j | 2 <= j < |run| :: Binds(hash, run[j], k, v)
    ensures (k, v) in run[|run| - 1].sent
  {
    WalkGuarantee(hash, run);
    var last := |run| - 1;
    assert forall j | 2 <= j < |run| :: Has(hash, run[j], k);
    var i :| 0 <= i < |run[last].sent| && run[last].sent[i].0 == k;
    assert EverBound(hash, run, last, run[last].sent[i].0, run[last].sent[i].1);
    assert run[last].sent[i] == (k, v);
  }
}
