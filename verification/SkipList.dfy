/** The ranked set: a dictionary beside a skip list with spans, a tail and backward links. */
module SkipList {
  import opened Order
  import opened Sequences
  import opened Levels
  import opened Listing
  import opened Links

  datatype Result<+T> = Ok(value: T) | NotFound(key: Key)

  predicate IsInt64(x: int) {
    -0x8000_0000_0000_0000 <= x < 0x8000_0000_0000_0000
  }

  /** The 64-bit two's complement value with the same low bits. */
  function WrapInt64(x: int): int {
    (x + 0x8000_0000_0000_0000) % 0x1_0000_0000_0000_0000 - 0x8000_0000_0000_0000
  }

  /** The mirrored rank is in range exactly if the rank is, whether or not it wraps. */
  lemma MirrorWraps(rank: int, length: int)
    requires IsInt64(rank) && IsInt64(length) && length >= 0
    ensures var r := WrapInt64(length - rank + 1);
            (1 <= r <= length <==> 1 <= rank <= length) && (1 <= rank <= length ==> r == length - rank + 1)
  {
  }

  function Clamp(n: int, length: int): int {
    if n < 0 then 0 else if n > length then length else n
  }

  ghost function EntryOf(n: Node): Entry {
    Entry(n.key, n.score)
  }

  /** The entries of a node sequence whose first node is the header. */
  ghost function EntriesOf(nodes: seq<Node>): (c: seq<Entry>)
    requires 0 < |nodes|
    ensures |c| == |nodes| - 1
    ensures forall k {:trigger c[k]} | 0 <= k < |c| :: c[k] == EntryOf(nodes[k + 1])
  {
    seq(|nodes| - 1, k requires 0 <= k < |nodes| - 1 => EntryOf(nodes[k + 1]))
  }

  /** Where the backward link at position p leads; the first node has none, nor has the header. */
  ghost function Behind(nodes: seq<Node>, p: nat): Node?
    requires p < |nodes|
  {
    if p <= 1 then null else nodes[p - 1]
  }

  /** The level-0 chain read backwards: tail first, and no link back to the header. */
  ghost predicate BackLinked(nodes: seq<Node>, tail: Node?)
    reads nodes`backward
  {
    && 0 < |nodes|
    && tail == (if |nodes| == 1 then null else nodes[|nodes| - 1])
    && (forall p {:trigger nodes[p].backward} | 0 <= p < |nodes| :: nodes[p].backward == Behind(nodes, p))
  }

  ghost function ModelOf(dict: map<Key, Node>): map<Key, real> {
    map k | k in dict :: dict[k].score
  }

  /** The forward links and spans of every level are right. */
  ghost predicate IsChain(nodes: seq<Node>, hs: seq<nat>, header: Node, length: int, level: nat)
    reads nodes`forward, nodes`span
  {
    && 0 < |nodes| == |hs|
    && nodes[0] == header && EntryOf(header) == ZERO_ENTRY
    && Bounded(hs, level)
    && length == |nodes| - 1
    && Exact(nodes, hs, level, Forwards(nodes), Spans(nodes))
  }

  /** The whole linked structure is right, and no level is kept that has no node. */
  ghost predicate IsList(nodes: seq<Node>, hs: seq<nat>, header: Node, tail: Node?, length: int, level: nat)
    reads nodes
  {
    && IsChain(nodes, hs, header, length, level)
    && BackLinked(nodes, tail)
    && Distinct(nodes)
    && (level > 1 ==> Next(hs, level - 1, 0) < |nodes|)
  }

  lemma DropThenStore(m: map<Key, real>, key: Key, score: real)
    ensures (m - {key})[key := score] == m[key := score]
  {
  }

  ghost predicate Distinct(nodes: seq<Node>) {
    forall p, q | 0 <= p < q < |nodes| :: nodes[p] != nodes[q]
  }

  /** The dictionary leads to the node that holds the key. */
  ghost predicate Indexed(nodes: seq<Node>, dict: map<Key, Node>)
    requires 0 < |nodes|
  {
    && (forall p | 0 < p < |nodes| :: nodes[p].key in dict && dict[nodes[p].key] == nodes[p])
    && (forall k | k in dict :: dict[k] in nodes && dict[k] != nodes[0] && dict[k].key == k)
  }

  /** How GetRank's loop compares a node with the target: smaller, or the target's own entry. */
  predicate NotAfter(n: Node, key: Key, score: real) {
    n.score < score || (n.score == score && (KeyLess(n.key, key) || n.key == key))
  }

  ghost predicate SplitAfter(nodes: seq<Node>, key: Key, score: real, pos: nat) {
    forall p | 0 < p < |nodes| :: NotAfter(nodes[p], key, score) <==> p <= pos
  }

  /** How the searches of Del and insert compare: strictly smaller. */
  predicate Precedes(n: Node, key: Key, score: real) {
    n.score < score || (n.score == score && KeyLess(n.key, key))
  }

  ghost predicate SplitBefore(nodes: seq<Node>, key: Key, score: real, cut: nat) {
    forall p | 0 < p < |nodes| :: Precedes(nodes[p], key, score) <==> p < cut
  }

  /** In a sorted list the search comparison separates the nodes at one position. */
  lemma SortedSplitsBefore(nodes: seq<Node>, key: Key, score: real)
    requires 0 < |nodes| && StrictlySorted(EntriesOf(nodes))
    ensures SplitBefore(nodes, key, score, 1 + Cut(EntriesOf(nodes), Entry(key, score)))
  {
    var c := EntriesOf(nodes);
    CutSplits(c, Entry(key, score));
    forall p | 0 < p < |nodes|
      ensures Precedes(nodes[p], key, score) <==> p < 1 + Cut(c, Entry(key, score))
    {
      assert c[p - 1] == EntryOf(nodes[p]);
    }
  }

  /** GetRank's comparison stops right behind the target's own node. */
  lemma SortedSplitsAfter(nodes: seq<Node>, pos: nat)
    requires 0 < pos < |nodes| && StrictlySorted(EntriesOf(nodes))
    ensures SplitAfter(nodes, nodes[pos].key, nodes[pos].score, pos)
  {
    var c := EntriesOf(nodes);
    var e := EntryOf(nodes[pos]);
    CutSplits(c, e);
    CutOfMember(c, pos - 1);
    forall p | 0 < p < |nodes|
      ensures NotAfter(nodes[p], e.key, e.score) <==> p <= pos
    {
      assert c[p - 1] == EntryOf(nodes[p]);
      LessTotal(c[p - 1], e);
    }
  }

  lemma SortedSplitsAt(nodes: seq<Node>, pos: nat)
    requires 0 < pos < |nodes| && StrictlySorted(EntriesOf(nodes))
    ensures SplitBefore(nodes, nodes[pos].key, nodes[pos].score, pos)
  {
    SortedSplitsBefore(nodes, nodes[pos].key, nodes[pos].score);
    CutOfMember(EntriesOf(nodes), pos - 1);
  }

  lemma SortedOrder(nodes: seq<Node>, pos: nat)
    requires 0 < pos < |nodes| && StrictlySorted(EntriesOf(nodes))
    ensures forall p | 0 < p < |nodes| :: Less(EntryOf(nodes[pos]), EntryOf(nodes[p])) <==> p > pos
  {
    var c := EntriesOf(nodes);
    forall p | 0 < p < |nodes|
      ensures Less(EntryOf(nodes[pos]), EntryOf(nodes[p])) <==> p > pos
    {
      assert c[p - 1] == EntryOf(nodes[p]) && c[pos - 1] == EntryOf(nodes[pos]);
      LessTotal(c[pos - 1], c[p - 1]);
    }
  }

  /** The nodes are the sorted listing of the dictionary. */
  ghost predicate IsSorted(nodes: seq<Node>, dict: map<Key, Node>) {
    && 0 < |nodes|
    && Indexed(nodes, dict)
    && IsListing(EntriesOf(nodes), ModelOf(dict))
  }

  lemma KeyOnce(nodes: seq<Node>, dict: map<Key, Node>, pos: nat)
    requires IsSorted(nodes, dict) && 0 < pos < |nodes|
    ensures forall p | 0 < p < |nodes| && p != pos :: nodes[p].key != nodes[pos].key
  {
    var c := EntriesOf(nodes);
    KeysAreDistinct(c, ModelOf(dict));
    forall p | 0 < p < |nodes| && p != pos
      ensures nodes[p].key != nodes[pos].key
    {
      assert c[p - 1].key == nodes[p].key && c[pos - 1].key == nodes[pos].key;
    }
  }

  /** A new node at the cut keeps the nodes the sorted listing of the dictionary. */
  lemma OrderedAfterInsert(nodes: seq<Node>, dict: map<Key, Node>, cut: nat, x: Node)
    requires IsSorted(nodes, dict) && x.key !in dict && x !in nodes
    requires cut == 1 + Cut(EntriesOf(nodes), EntryOf(x))
    ensures IsSorted(InsertAt(nodes, cut, x), dict[x.key := x])
    ensures ModelOf(dict[x.key := x]) == ModelOf(dict)[x.key := x.score]
  {
    var c, nodes' := EntriesOf(nodes), InsertAt(nodes, cut, x);
    assert ModelOf(dict[x.key := x]) == ModelOf(dict)[x.key := x.score];
    assert EntriesOf(nodes') == InsertAt(c, cut - 1, EntryOf(x));
    ListingAfterInsert(c, ModelOf(dict), EntryOf(x));
    IndexedAfterInsert(nodes, dict, cut, x);
  }

  lemma IndexedAfterInsert(nodes: seq<Node>, dict: map<Key, Node>, cut: nat, x: Node)
    requires 0 < |nodes| && Indexed(nodes, dict) && x.key !in dict && x !in nodes && 0 < cut <= |nodes|
    ensures Indexed(InsertAt(nodes, cut, x), dict[x.key := x])
  {
    var nodes' := InsertAt(nodes, cut, x);
    assert nodes'[cut] == x;
    forall k | k in dict
      ensures dict[k] in nodes'
    {
      var p :| 0 <= p < |nodes| && nodes[p] == dict[k];
      assert nodes'[if p < cut then p else p + 1] == dict[k];
    }
  }

  /** The new node's backward link and its successor's, or the tail, are all that has to change. */
  lemma BackLinkedAfterInsert(nodes: seq<Node>, cut: nat, x: Node, tail: Node?)
    requires 0 < cut <= |nodes|
    requires x.backward == if cut == 1 then null else nodes[cut - 1]
    requires forall p {:trigger nodes[p].backward} | 0 <= p < |nodes| ::
               nodes[p].backward == if p == cut then x else Behind(nodes, p)
    requires tail == if cut == |nodes| then x else nodes[|nodes| - 1]
    ensures BackLinked(InsertAt(nodes, cut, x), tail)
  {
    var nodes' := InsertAt(nodes, cut, x);
    forall p | 0 <= p < |nodes'|
      ensures nodes'[p].backward == Behind(nodes', p)
    {
      if p < cut {
        assert nodes[p].backward == Behind(nodes, p);
      } else if p > cut {
        assert nodes'[p] == nodes[p - 1];
        assert p > cut + 1 ==> nodes[p - 1].backward == Behind(nodes, p - 1);
      }
    }
  }

  lemma DistinctAfterInsert(nodes: seq<Node>, cut: nat, x: Node)
    requires Distinct(nodes) && x !in nodes && cut <= |nodes|
    ensures Distinct(InsertAt(nodes, cut, x))
    ensures forall n | n in InsertAt(nodes, cut, x) :: n == x || n in nodes
  {
  }

  /** After relinking, the new node's level-0 link leads to the node that was at its position. */
  lemma InsertedForward(nodes: seq<Node>, hs: seq<nat>, level: nat, cut: nat, h: nat, x: Node)
    requires |nodes| == |hs| && 0 < cut <= |nodes| && Bounded(hs, level) && 1 <= h <= level
    requires var nodes' := InsertAt(nodes, cut, x);
             Exact(nodes', InsertAt(hs, cut, h), level, Forwards(nodes'), Spans(nodes'))
    ensures |x.forward| == MAX_LEVEL && x.forward[0] == At(nodes, cut)
  {
    var nodes', hs' := InsertAt(nodes, cut, x), InsertAt(hs, cut, h);
    NextOnGround(hs', cut);
    assert nodes'[cut] == x && Forwards(nodes')[cut][0] == At(nodes', cut + 1);
  }

  /** The highest level has a node after an insertion. */
  lemma TopAfterInsert(hs: seq<nat>, cut: nat, h: nat, oldLevel: nat, level: nat)
    requires Bounded(hs, level) && 0 < cut <= |hs| && 1 <= h <= level
    requires if oldLevel < level then h == level else level > 1 ==> Next(hs, level - 1, 0) < |hs|
    ensures level > 1 ==> Next(InsertAt(hs, cut, h), level - 1, 0) < |hs| + 1
    ensures Bounded(InsertAt(hs, cut, h), level)
  {
    NextAfterInsert(hs, cut, h, level - 1, 0);
  }

  lemma DistinctAfterRemove(nodes: seq<Node>, d: nat)
    requires Distinct(nodes) && d < |nodes|
    ensures Distinct(RemoveAt(nodes, d))
    ensures forall n | n in RemoveAt(nodes, d) :: n in nodes
  {
  }

  /** The backward link behind the removed node, or the tail, is all that has to change. */
  lemma BackLinkedAfterRemove(nodes: seq<Node>, d: nat, tail: Node?)
    requires 0 < d < |nodes|
    requires forall p {:trigger nodes[p].backward} | 0 <= p < |nodes| ::
               nodes[p].backward == if p == d + 1 then Behind(nodes, d) else Behind(nodes, p)
    requires tail == if d == |nodes| - 1 then Behind(nodes, d) else nodes[|nodes| - 1]
    ensures BackLinked(RemoveAt(nodes, d), tail)
  {
    var nodes' := RemoveAt(nodes, d);
    forall p | 0 <= p < |nodes'|
      ensures nodes'[p].backward == Behind(nodes', p)
    {
      if p < d {
        assert nodes[p].backward == Behind(nodes, p);
      } else {
        assert nodes'[p] == nodes[p + 1];
        assert nodes[p + 1].backward == if p == d then Behind(nodes, d) else Behind(nodes, p + 1);
      }
    }
  }

  /** Dropping a node and its key keeps the nodes the sorted listing of the dictionary. */
  lemma OrderedAfterRemove(nodes: seq<Node>, dict: map<Key, Node>, d: nat)
    requires IsSorted(nodes, dict) && Distinct(nodes) && 0 < d < |nodes|
    ensures IsSorted(RemoveAt(nodes, d), dict - {nodes[d].key})
    ensures ModelOf(dict - {nodes[d].key}) == ModelOf(dict) - {nodes[d].key}
  {
    ModelWithout(dict, nodes[d].key);
    EntriesAfterRemove(nodes, d);
    ListingAfterRemove(EntriesOf(nodes), ModelOf(dict), d - 1);
    IndexedAfterRemove(nodes, dict, d);
  }

  lemma ModelWithout(dict: map<Key, Node>, key: Key)
    ensures ModelOf(dict - {key}) == ModelOf(dict) - {key}
  {
  }

  lemma EntriesAfterRemove(nodes: seq<Node>, d: nat)
    requires 0 < d < |nodes|
    ensures EntriesOf(RemoveAt(nodes, d)) == RemoveAt(EntriesOf(nodes), d - 1)
    ensures EntriesOf(nodes)[d - 1] == EntryOf(nodes[d])
  {
  }

  lemma IndexedAfterRemove(nodes: seq<Node>, dict: map<Key, Node>, d: nat)
    requires 0 < |nodes| && Indexed(nodes, dict) && Distinct(nodes) && 0 < d < |nodes|
    ensures Indexed(RemoveAt(nodes, d), dict - {nodes[d].key})
  {
    var nodes' := RemoveAt(nodes, d);
    forall k | k in dict && k != nodes[d].key
      ensures dict[k] in nodes'
    {
      var p :| 0 <= p < |nodes| && nodes[p] == dict[k];
      assert nodes'[if p < d then p else p - 1] == dict[k];
    }
  }

  ghost function NodesAt(nodes: seq<Node>, ps: seq<nat>): seq<Node>
    requires forall k | 0 <= k < |ps| :: ps[k] < |nodes|
  {
    seq(|ps|, k requires 0 <= k < |ps| => nodes[ps[k]])
  }

  /** The ranked set, with the fields of its skip list. nodes are the header and the level-0 chain,
      heights say on how many levels each of them is linked. */
  class RankedSet {
    var dict: map<Key, Node>
    var header: Node
    var tail: Node?
    var length: int
    var level: nat
    ghost var nodes: seq<Node>
    ghost var heights: seq<nat>
    /** What the set may change: its nodes, and nodes that it has given up. */
    ghost var owned: set<Node>

    ghost predicate Chained()
      reads this`nodes, this`heights, this`header, this`length, this`level, nodes`forward, nodes`span
    {
      IsChain(nodes, heights, header, length, level)
    }

    ghost predicate Linked()
      reads this`nodes, this`heights, this`header, this`tail, this`length, this`level, nodes
    {
      IsList(nodes, heights, header, tail, length, level)
    }

    ghost predicate Ordered()
      reads this`nodes, this`dict
    {
      IsSorted(nodes, dict)
    }

    /** The nodes of the set. */
    ghost function Nodes(): set<Node>
      reads this`nodes
    {
      set n | n in nodes
    }

    ghost predicate Valid()
      reads this, nodes
    {
      Linked() && Ordered() && Nodes() <= owned
    }

    /** The abstract value: which keys have which scores. */
    ghost function Model(): map<Key, real>
      reads this`dict
    {
      ModelOf(dict)
    }

    ghost function Contents(): seq<Entry>
      requires 0 < |nodes|
      reads this`nodes
    {
      EntriesOf(nodes)
    }

    constructor ()
      ensures Valid() && fresh(owned)
      ensures Model() == map[] && dict == map[] && heights == [MAX_LEVEL] && level == 1
      ensures length == 0 && tail == null && |header.forward| == 32 && |header.span| == 32
    {
      var h := new Node([], 0.0);
      header, tail, length, level, dict := h, null, 0, 1, map[];
      nodes, heights, owned := [h], [MAX_LEVEL], {h};
    }

    /** The entry of a rank counted from 1, found by span jumps from the highest level down. */
    method GetElementByRankASC(rank: int) returns (n: Entry)
      requires Chained()
      ensures n == if 1 <= rank <= length then Contents()[rank - 1] else Entry([], 0.0)
    {
      n := ZERO_ENTRY;
      var x, traversed := header, 0;
      var i := level - 1;
      while i >= 0
        invariant -1 <= i < level
        invariant 0 <= traversed < |nodes| && x == nodes[traversed]
        invariant i >= 0 ==> heights[traversed] > i
        invariant traversed > 0 ==> traversed < rank
        invariant traversed == rank ==> rank == 0 && i == level - 1
        invariant i < 0 ==> traversed == length || rank < 0
      {
        while x.forward[i] != null && traversed + x.span[i] <= rank
          invariant 0 <= traversed < |nodes| && x == nodes[traversed]
          invariant heights[traversed] > i
          invariant traversed > 0 ==> traversed <= rank
          decreases |nodes| - traversed
        {
          var next := x.forward[i];
          assert next == nodes[Next(heights, i, traversed)];
          traversed, x := traversed + x.span[i], next;
        }
        NextOnGround(heights, traversed);
        if traversed == rank {
          n := Entry(x.key, x.score);
          return;
        }
        i := i - 1;
      }
    }

    /** Whether the highest level in use leads past e right from the header. */
    ghost predicate TopSkips(e: Entry)
      reads this, header
    {
      && 0 < level <= |header.forward|
      && header.forward[level - 1] != null
      && Less(e, EntryOf(header.forward[level - 1]))
    }

    /** Where a present key stands, in the terms of the search loop. */
    lemma Locate(key: Key) returns (pos: nat)
      requires Ordered() && key in dict
      ensures 0 < pos < |nodes| && nodes[pos] == dict[key] && dict[key].key == key
      ensures forall p | 0 < p < |nodes| && p != pos :: nodes[p].key != key
      ensures SplitAfter(nodes, key, dict[key].score, pos)
      ensures SplitBefore(nodes, key, dict[key].score, pos)
      ensures RankOf(Model(), key) == pos
      ensures forall p | 0 < p < |nodes| :: Less(EntryOf(dict[key]), EntryOf(nodes[p])) <==> p > pos
    {
      pos :| 0 <= pos < |nodes| && nodes[pos] == dict[key];
      SortedSplitsAfter(nodes, pos);
      SortedSplitsAt(nodes, pos);
      SortedOrder(nodes, pos);
      RankIsPosition(Contents(), Model(), pos - 1);
      assert Contents()[pos - 1].key == key;
      KeyOnce(nodes, dict, pos);
    }

    lemma TopSkipsMeans(e: Entry, pos: nat)
      requires Chained() && 0 < pos < |nodes|
      requires level > 1 ==> Next(heights, level - 1, 0) < |nodes|
      requires forall p | 0 < p < |nodes| :: Less(e, EntryOf(nodes[p])) <==> p > pos
      ensures TopSkips(e) <==> Next(heights, level - 1, 0) > pos
    {
      NextOnGround(heights, 0);
      assert header.forward[level - 1] == nodes[Next(heights, level - 1, 0)];
    }

    /** The rank of a present key. The header also has the empty key, so the loop gives up with 0
        on the empty key exactly when the highest level leads past it. */
    method GetRank(key: Key) returns (r: Result<int>)
      requires Valid()
      ensures key !in Model() ==> r == NotFound(key)
      ensures key in Model() ==>
                r == Ok(if key == [] && TopSkips(Entry(key, Model()[key])) then 0 else RankOf(Model(), key))
    {
      if key !in dict {
        return NotFound(key);
      }
      var score := dict[key].score;
      ghost var pos := Locate(key);
      var rank := DescendTo(key, score, pos);
      TopSkipsMeans(Entry(key, score), pos);
      r := Ok(rank);
    }

    /** GetRank's loop, for the target at position pos. */
    method DescendTo(key: Key, score: real, ghost pos: nat) returns (rank: int)
      requires Chained()
      requires 0 < pos < |nodes| && nodes[pos].key == key
      requires forall p | 0 < p < |nodes| && p != pos :: nodes[p].key != key
      requires SplitAfter(nodes, key, score, pos)
      ensures rank == if key == [] && Next(heights, level - 1, 0) > pos then 0 else pos
    {
      var x: Node := header;
      rank := 0;
      var i := level - 1;
      while i >= 0
        invariant -1 <= i < level
        invariant 0 <= rank <= pos && x == nodes[rank]
        invariant i >= 0 ==> heights[rank] > i
        invariant rank == pos ==> i == level - 1
        invariant i < level - 1 ==> Next(heights, i + 1, rank) > pos
        invariant i < 0 ==> rank == pos
        invariant i < level - 1 && key == [] ==> Next(heights, level - 1, 0) <= pos && rank > 0
      {
        while x.forward[i] != null && NotAfter(x.forward[i], key, score)
          invariant 0 <= rank <= pos && x == nodes[rank]
          invariant heights[rank] > i
          invariant i < level - 1 && key == [] ==> rank > 0
          invariant i == level - 1 && rank > 0 ==> Next(heights, level - 1, 0) <= rank
          decreases |nodes| - rank
        {
          var next := x.forward[i];
          assert next == nodes[Next(heights, i, rank)];
          rank, x := rank + x.span[i], next;
        }
        NextOnGround(heights, rank);
        if x.key == key {
          return;
        }
        i := i - 1;
      }
    }

    /** update and rank name, for each level, the last node before position cut and its position. */
    ghost predicate Predecessors(update: seq<Node?>, rank: seq<int>, cut: nat, from: int, to: int)
      reads this
    {
      && |update| == MAX_LEVEL && |rank| == MAX_LEVEL
      && 0 < |nodes| == |heights| && heights[0] == MAX_LEVEL && 0 < cut <= |nodes|
      && (forall i | 0 <= i < MAX_LEVEL && from <= i < to ::
            var p := Prev(heights, i, cut); update[i] == nodes[p] && rank[i] == p)
    }

    /** The search loop shared by Del and insert. */
    method FindPredecessors(key: Key, score: real, ghost cut: nat)
      returns (update: seq<Node?>, rank: seq<int>)
      requires Chained() && 0 < cut <= |nodes|
      requires SplitBefore(nodes, key, score, cut)
      ensures Predecessors(update, rank, cut, 0, level)
    {
      update, rank := seq(MAX_LEVEL, _ => null), seq(MAX_LEVEL, _ => 0);
      var x := header;
      var i := level - 1;
      while i >= 0
        invariant -1 <= i < level
        invariant Predecessors(update, rank, cut, i + 1, level)
        invariant i == level - 1 ==> x == header
        invariant i < level - 1 ==> x == nodes[rank[i + 1]]
      {
        rank := rank[i := if i != level - 1 then rank[i + 1] else 0];
        while x.forward[i] != null && Precedes(x.forward[i], key, score)
          invariant |rank| == MAX_LEVEL
          invariant 0 <= rank[i] < cut && x == nodes[rank[i]]
          invariant heights[rank[i]] > i
          invariant Predecessors(update, rank, cut, i + 1, level)
          decreases cut - rank[i]
        {
          var next := x.forward[i];
          assert next == nodes[Next(heights, i, rank[i])];
          rank, x := rank[i := rank[i] + x.span[i]], next;
        }
        assert Next(heights, i, rank[i]) >= cut;
        PrevIs(heights, i, cut, rank[i]);
        update := update[i := x];
        i := i - 1;
      }
    }

    /** Levels above the current one start at the header; their spans are written afresh. */
    method RaiseLevel(update: seq<Node?>, rank: seq<int>, h: nat, ghost cut: nat)
      returns (update': seq<Node?>, rank': seq<int>)
      requires Chained() && Distinct(nodes) && level < h <= MAX_LEVEL
      requires Predecessors(update, rank, cut, 0, level)
      modifies this`level, header`span
      ensures Chained() && level == h
      ensures Predecessors(update', rank', cut, 0, level)
    {
      update', rank' := update, rank;
      var i := level;
      ghost var f, s := Forwards(nodes), Spans(nodes);
      while i < h
        invariant old(level) == level <= i <= h
        invariant |header.span| == MAX_LEVEL
        invariant forall p | 0 < p < |nodes| :: nodes[p].span == s[p]
        invariant forall p | 0 <= p < |nodes| :: nodes[p].forward == f[p]
        invariant forall j | 0 <= j < i :: header.span[j] == if j < level then s[0][j] else length
        invariant Predecessors(update', rank', cut, 0, i)
      {
        PrevIs(heights, i, cut, 0);
        rank', update' := rank'[i := 0], update'[i := header];
        header.span := header.span[i := length];
        i := i + 1;
      }
      assert Forwards(nodes) == f;
      assert Spans(nodes) == s[0 := header.span];
      RaiseKeepsExact(nodes, heights, level, h, f, s, Spans(nodes));
      level := h;
    }

    /** One round of insert's first relinking loop, for the predecessor u at position p. */
    method LinkLevel(x: Node, u: Node, i: nat, skipped: int, ghost p: nat)
      requires Sized(heights, Forwards(nodes), Spans(nodes)) && i < MAX_LEVEL
      requires |nodes| == |heights| && Distinct(nodes) && x !in nodes
      requires |x.forward| == MAX_LEVEL && |x.span| == MAX_LEVEL
      requires p < |nodes| && u == nodes[p]
      modifies u`forward, u`span, x`forward, x`span
      ensures x.forward == old(x.forward)[i := old(u.forward[i])]
      ensures x.span == old(x.span)[i := old(u.span[i]) - skipped]
      ensures Forwards(nodes) == WithCell(old(Forwards(nodes)), p, i, x)
      ensures Spans(nodes) == WithCell(old(Spans(nodes)), p, i, skipped + 1)
    {
      x.forward := x.forward[i := u.forward[i]];
      u.forward := u.forward[i := x];
      x.span := x.span[i := u.span[i] - skipped];
      u.span := u.span[i := skipped + 1];
    }

    /** One round of insert's second relinking loop, or of Del's when the node is not on the level. */
    method AddToSpan(u: Node, i: nat, delta: int, ghost p: nat)
      requires Sized(heights, Forwards(nodes), Spans(nodes)) && i < MAX_LEVEL
      requires |nodes| == |heights| && Distinct(nodes)
      requires p < |nodes| && u == nodes[p]
      modifies u`span
      ensures Spans(nodes) == WithCell(old(Spans(nodes)), p, i, old(u.span[i]) + delta)
      ensures Forwards(nodes) == old(Forwards(nodes))
    {
      u.span := u.span[i := u.span[i] + delta];
    }

    /** The body of insert's first relinking loop keeps the loop's invariant. */
    method LinkRound(x: Node, update: seq<Node?>, rank: seq<int>, i: nat, ghost cut: nat,
                     ghost f: seq<seq<Node?>>, ghost s: seq<seq<int>>)
      requires Bounded(heights, level) && i < level
      requires |nodes| == |heights| && Distinct(nodes) && x !in nodes
      requires Predecessors(update, rank, cut, 0, level)
      requires Spliced(heights, i, cut, i, x, f, s, Forwards(nodes), Spans(nodes))
      requires TakesOver(heights, cut, i, f, s, x.forward, x.span)
      modifies Nodes()`forward, Nodes()`span, x`forward, x`span
      ensures Spliced(heights, i + 1, cut, i + 1, x, f, s, Forwards(nodes), Spans(nodes))
      ensures TakesOver(heights, cut, i + 1, f, s, x.forward, x.span)
    {
      ghost var f', s' := Forwards(nodes), Spans(nodes);
      PrevOnGround(heights, cut);
      LinkLevel(x, update[i], i, rank[0] - rank[i], rank[i]);
      SplicedLink(heights, i, cut, x, f, s, f', s', Forwards(nodes), Spans(nodes));
    }

    /** insert's first relinking loop: the new node goes in on the levels it reaches. */
    method LinkBelow(x: Node, update: seq<Node?>, rank: seq<int>, h: nat, ghost cut: nat)
      requires Sized(heights, Forwards(nodes), Spans(nodes)) && Bounded(heights, level) && 1 <= h <= level
      requires |nodes| == |heights| && Distinct(nodes) && x !in nodes
      requires |x.forward| == MAX_LEVEL && |x.span| == MAX_LEVEL
      requires Predecessors(update, rank, cut, 0, level)
      modifies Nodes()`forward, Nodes()`span, x`forward, x`span
      ensures Spliced(heights, h, cut, h, x, old(Forwards(nodes)), old(Spans(nodes)),
                      Forwards(nodes), Spans(nodes))
      ensures TakesOver(heights, cut, h, old(Forwards(nodes)), old(Spans(nodes)), x.forward, x.span)
    {
      ghost var f, s := Forwards(nodes), Spans(nodes);
      var i := 0;
      while i < h
        invariant 0 <= i <= h
        invariant Spliced(heights, i, cut, i, x, f, s, Forwards(nodes), Spans(nodes))
        invariant TakesOver(heights, cut, i, f, s, x.forward, x.span)
      {
        LinkRound(x, update, rank, i, cut, f, s);
        i := i + 1;
      }
    }

    /** The body of insert's second relinking loop keeps the loop's invariant. */
    method BumpRound(update: seq<Node?>, i: nat, h: nat, ghost rank: seq<int>, ghost cut: nat, x: Node,
                     ghost f: seq<seq<Node?>>, ghost s: seq<seq<int>>)
      requires Bounded(heights, level) && h <= i < level
      requires |nodes| == |heights| && Distinct(nodes)
      requires Predecessors(update, rank, cut, 0, level)
      requires Spliced(heights, i, cut, h, x, f, s, Forwards(nodes), Spans(nodes))
      modifies Nodes()`span
      ensures Spliced(heights, i + 1, cut, h, x, f, s, Forwards(nodes), Spans(nodes))
    {
      ghost var f', s' := Forwards(nodes), Spans(nodes);
      AddToSpan(update[i], i, 1, rank[i]);
      SplicedBump(heights, i, cut, h, x, f, s, f', s', Spans(nodes));
    }

    /** insert's second relinking loop: the levels above the new node jump over one more. */
    method BumpAbove(update: seq<Node?>, h: nat, ghost rank: seq<int>, ghost cut: nat, x: Node,
                     ghost f: seq<seq<Node?>>, ghost s: seq<seq<int>>)
      requires Bounded(heights, level) && 1 <= h <= level
      requires |nodes| == |heights| && Distinct(nodes)
      requires Predecessors(update, rank, cut, 0, level)
      requires Spliced(heights, h, cut, h, x, f, s, Forwards(nodes), Spans(nodes))
      modifies Nodes()`span
      ensures Spliced(heights, level, cut, h, x, f, s, Forwards(nodes), Spans(nodes))
    {
      var i := h;
      while i < level
        invariant h <= i <= level
        invariant Spliced(heights, i, cut, h, x, f, s, Forwards(nodes), Spans(nodes))
      {
        BumpRound(update, i, h, rank, cut, x, f, s);
        i := i + 1;
      }
    }

    /** The new node takes its place on every level; links and spans stay exact. */
    method Splice(x: Node, update: seq<Node?>, rank: seq<int>, h: nat, ghost cut: nat)
      requires Chained() && Distinct(nodes) && x !in nodes && 1 <= h <= level
      requires |x.forward| == MAX_LEVEL && |x.span| == MAX_LEVEL
      requires Predecessors(update, rank, cut, 0, level)
      modifies Nodes()`forward, Nodes()`span, x`forward, x`span
      ensures var nodes' := InsertAt(nodes, cut, x);
              Exact(nodes', InsertAt(heights, cut, h), level, Forwards(nodes'), Spans(nodes'))
    {
      ghost var f, s := Forwards(nodes), Spans(nodes);
      LinkBelow(x, update, rank, h, cut);
      BumpAbove(update, h, rank, cut, x, f, s);
      InsertKeepsExact(nodes, heights, level, cut, h, x, f, s, Forwards(nodes), Spans(nodes), x.forward, x.span);
      SnapshotsAfterInsert(nodes, cut, x);
    }

    /** The backward links around the new node, or the tail when it is the last. */
    method LinkBack(x: Node, before: Node, after: Node?, ghost cut: nat)
      requires BackLinked(nodes, tail) && Distinct(nodes) && nodes[0] == header
      requires x !in nodes && x.backward == null
      requires 0 < cut <= |nodes| && before == nodes[cut - 1] && after == At(nodes, cut)
      modifies Nodes()`backward, x`backward, this`tail
      ensures BackLinked(InsertAt(nodes, cut, x), tail)
    {
      if before != header {
        x.backward := before;
      }
      if after != null {
        after.backward := x;
      } else {
        tail := x;
      }
      assert forall p {:trigger nodes[p].backward} | 0 <= p < |nodes| ::
          nodes[p].backward == if p == cut then x else Behind(nodes, p);
      BackLinkedAfterInsert(nodes, cut, x, tail);
    }

    /** insert's search, and the raised level if h was drawn above it. */
    method Prepare(key: Key, score: real, h: nat, ghost cut: nat) returns (update: seq<Node?>, rank: seq<int>)
      requires Chained() && Distinct(nodes) && 0 < cut <= |nodes| && SplitBefore(nodes, key, score, cut)
      requires 1 <= h <= MAX_LEVEL
      modifies header`span, this`level
      ensures Chained() && level == if h > old(level) then h else old(level)
      ensures Predecessors(update, rank, cut, 0, level)
    {
      update, rank := FindPredecessors(key, score, cut);
      if h > level {
        update, rank := RaiseLevel(update, rank, h, cut);
      }
    }

    /** insert up to its relinking loops: search, raise the level, create the node and put it in. */
    method PlaceNode(key: Key, score: real, h: nat, ghost cut: nat) returns (x: Node, before: Node)
      requires Chained() && Distinct(nodes) && 0 < cut <= |nodes| && SplitBefore(nodes, key, score, cut)
      requires 1 <= h <= MAX_LEVEL
      modifies Nodes()`forward, Nodes()`span, this`level
      ensures fresh(x) && x.key == key && x.score == score && x.backward == null
      ensures before == nodes[cut - 1]
      ensures Bounded(heights, level) && level == if h > old(level) then h else old(level)
      ensures var nodes' := InsertAt(nodes, cut, x);
              Exact(nodes', InsertAt(heights, cut, h), level, Forwards(nodes'), Spans(nodes'))
    {
      var update, rank := Prepare(key, score, h, cut);
      x := new Node(key, score);
      Splice(x, update, rank, h, cut);
      PrevOnGround(heights, cut);
      before := update[0];
    }

    /** Counts the node that came or went. */
    method Adopt(delta: int, ghost nodes': seq<Node>, ghost hs': seq<nat>)
      requires IsList(nodes', hs', header, tail, length + delta, level)
      modifies this`length, this`nodes, this`heights
      ensures Linked() && nodes == nodes' && heights == hs'
    {
      length := length + delta;
      nodes, heights := nodes', hs';
    }

    /** What insert knows when it turns to the backward links. */
    method PlaceChain(key: Key, score: real, h: nat, ghost cut: nat) returns (x: Node, before: Node)
      requires Chained() && Distinct(nodes) && 0 < cut <= |nodes| && SplitBefore(nodes, key, score, cut)
      requires 1 <= h <= MAX_LEVEL
      modifies Nodes()`forward, Nodes()`span, this`level
      ensures fresh(x) && x.key == key && x.score == score && x.backward == null
      ensures before == nodes[cut - 1] && |x.forward| == MAX_LEVEL && x.forward[0] == At(nodes, cut)
      ensures Bounded(heights, level) && level == if h > old(level) then h else old(level)
      ensures IsChain(InsertAt(nodes, cut, x), InsertAt(heights, cut, h), header, length + 1, level)
    {
      x, before := PlaceNode(key, score, h, cut);
      InsertedForward(nodes, heights, level, cut, h, x);
    }

    /** All links around the new node, forward and backward. */
    method Attach(key: Key, score: real, h: nat, ghost cut: nat) returns (x: Node)
      requires Chained() && BackLinked(nodes, tail) && Distinct(nodes) && 1 <= h <= MAX_LEVEL
      requires 0 < cut <= |nodes| && SplitBefore(nodes, key, score, cut)
      modifies Nodes()`forward, Nodes()`span, Nodes()`backward, this`tail, this`level
      ensures fresh(x) && x.key == key && x.score == score
      ensures Bounded(heights, level) && level == if h > old(level) then h else old(level)
      ensures IsChain(InsertAt(nodes, cut, x), InsertAt(heights, cut, h), header, length + 1, level)
      ensures BackLinked(InsertAt(nodes, cut, x), tail)
    {
      var before;
      x, before := PlaceChain(key, score, h, cut);
      ghost var nodes' := InsertAt(nodes, cut, x);
      ghost var f, s := Forwards(nodes'), Spans(nodes');
      LinkBack(x, before, x.forward[0], cut);
      assert Forwards(nodes') == f && Spans(nodes') == s;
    }

    /** insert on the linked structure: a new node of height h at position cut. */
    method InsertNode(key: Key, score: real, h: nat, ghost cut: nat) returns (x: Node)
      requires Linked() && 0 < cut <= |nodes| && SplitBefore(nodes, key, score, cut)
      requires 1 <= h <= MAX_LEVEL
      modifies Nodes(), this`tail, this`length, this`level, this`nodes, this`heights
      ensures Linked() && fresh(x) && nodes == InsertAt(old(nodes), cut, x)
      ensures heights == InsertAt(old(heights), cut, h) && level == if h > old(level) then h else old(level)
      ensures Nodes() <= old(Nodes()) + {x}
      ensures x.key == key && x.score == score
    {
      x := Attach(key, score, h, cut);
      TopAfterInsert(heights, cut, h, old(level), level);
      DistinctAfterInsert(nodes, cut, x);
      Adopt(1, InsertAt(nodes, cut, x), InsertAt(heights, cut, h));
    }

    /** The dictionary follows the list. */
    method Index(dict': map<Key, Node>, ghost owned': set<Node>)
      requires Linked() && IsSorted(nodes, dict') && Nodes() <= owned'
      modifies this`dict, this`owned
      ensures Valid() && dict == dict' && owned == owned'
    {
      dict, owned := dict', owned';
    }

    /** insert with its position in the listing made explicit. */
    method InsertAtCut(key: Key, score: real, h: nat, ghost cut: nat) returns (x: Node)
      requires Valid() && key !in dict && 1 <= h <= MAX_LEVEL
      requires cut == 1 + Cut(Contents(), Entry(key, score))
      modifies this, owned
      ensures Valid() && fresh(x) && nodes == InsertAt(old(nodes), cut, x)
      ensures heights == InsertAt(old(heights), cut, h) && level == if h > old(level) then h else old(level)
      ensures owned == old(owned) + {x} && dict == old(dict)[key := x]
      ensures Model() == old(Model())[key := score] && EntryOf(x) == Entry(key, score)
    {
      ghost var was := nodes;
      assert IsSorted(was, dict);
      SortedSplitsBefore(nodes, key, score);
      x := InsertNode(key, score, h, cut);
      OrderedAfterInsert(was, dict, cut, x);
      Index(dict[key := x], owned + {x});
    }

    /** Adds a key that is not present, with the drawn level h. */
    method Insert(key: Key, score: real, h: nat) returns (x: Node)
      requires Valid() && key !in dict && 1 <= h <= MAX_LEVEL
      modifies this, owned
      ensures Valid() && fresh(x) && owned == old(owned) + {x}
      ensures Model() == old(Model())[key := score]
      ensures EntryOf(x) == Entry(key, score) && key in dict && dict[key] == x
    {
      x := InsertAtCut(key, score, h, 1 + Cut(Contents(), Entry(key, score)));
    }

    /** One round of Del's relinking loop for a level on which the node x is linked behind u. */
    method UnlinkLevel(x: Node, u: Node, i: nat, ghost p: nat)
      requires Sized(heights, Forwards(nodes), Spans(nodes)) && i < MAX_LEVEL
      requires |nodes| == |heights| && Distinct(nodes)
      requires p < |nodes| && u == nodes[p] && x in nodes
      modifies u`forward, u`span
      ensures Forwards(nodes) == WithCell(old(Forwards(nodes)), p, i, old(x.forward[i]))
      ensures Spans(nodes) == WithCell(old(Spans(nodes)), p, i, old(u.span[i]) + old(x.span[i]) - 1)
    {
      u.span := u.span[i := u.span[i] + x.span[i] - 1];
      u.forward := u.forward[i := x.forward[i]];
    }

    /** The body of Del's relinking loop keeps the loop's invariant. */
    method UnlinkRound(x: Node, update: seq<Node?>, i: nat, ghost rank: seq<int>, ghost d: nat,
                       ghost f: seq<seq<Node?>>, ghost s: seq<seq<int>>)
      requires Bounded(heights, level) && i < level
      requires |nodes| == |heights| && Distinct(nodes) && 0 < d < |nodes| && nodes[d] == x
      requires Predecessors(update, rank, d, 0, level)
      requires |f| == |nodes| && TestsHeight(nodes, heights, level, d, f)
      requires Unlinked(heights, i, d, f, s, Forwards(nodes), Spans(nodes))
      modifies Nodes()`forward, Nodes()`span
      ensures Unlinked(heights, i + 1, d, f, s, Forwards(nodes), Spans(nodes))
    {
      ghost var f', s' := Forwards(nodes), Spans(nodes);
      assert update[i].forward[i] == f'[rank[i]][i] == f[rank[i]][i];
      if update[i].forward[i] == x {
        UnlinkLevel(x, update[i], i, rank[i]);
        UnlinkedOut(heights, i, d, f, s, f', s', Forwards(nodes), Spans(nodes));
      } else {
        AddToSpan(update[i], i, -1, rank[i]);
        UnlinkedOver(heights, i, d, f, s, f', s', Spans(nodes));
      }
    }

    /** Del's relinking loop. */
    method UnlinkLevels(x: Node, update: seq<Node?>, ghost rank: seq<int>, ghost d: nat)
      requires Bounded(heights, level) && Sized(heights, Forwards(nodes), Spans(nodes))
      requires |nodes| == |heights| && Distinct(nodes) && 0 < d < |nodes| && nodes[d] == x
      requires Predecessors(update, rank, d, 0, level)
      requires TestsHeight(nodes, heights, level, d, Forwards(nodes))
      modifies Nodes()`forward, Nodes()`span
      ensures Unlinked(heights, level, d, old(Forwards(nodes)), old(Spans(nodes)), Forwards(nodes), Spans(nodes))
    {
      ghost var f, s := Forwards(nodes), Spans(nodes);
      var i := 0;
      while i < level
        invariant 0 <= i <= level
        invariant Unlinked(heights, i, d, f, s, Forwards(nodes), Spans(nodes))
      {
        UnlinkRound(x, update, i, rank, d, f, s);
        i := i + 1;
      }
    }

    /** The node at position d leaves every level; links and spans stay exact. */
    method Unlink(x: Node, update: seq<Node?>, ghost rank: seq<int>, ghost d: nat)
      requires Chained() && Distinct(nodes) && 0 < d < |nodes| && nodes[d] == x
      requires Predecessors(update, rank, d, 0, level)
      modifies Nodes()`forward, Nodes()`span
      ensures var nodes' := RemoveAt(nodes, d);
              Exact(nodes', RemoveAt(heights, d), level, Forwards(nodes'), Spans(nodes'))
      ensures |x.forward| == MAX_LEVEL && x.forward[0] == At(nodes, d + 1)
    {
      ghost var f, s := Forwards(nodes), Spans(nodes);
      ExactTestsHeight(nodes, heights, level, d, f, s);
      UnlinkLevels(x, update, rank, d);
      RemoveKeepsExact(nodes, heights, level, d, f, s, Forwards(nodes), Spans(nodes));
      SnapshotsAfterRemove(nodes, d);
      NextOnGround(heights, d);
      assert Forwards(nodes)[d][0] == f[d][0];
    }

    /** The backward link behind the removed node, or the tail when it was the last. */
    method UnlinkBack(x: Node, ghost d: nat)
      requires BackLinked(nodes, tail) && Distinct(nodes) && 0 < d < |nodes| && nodes[d] == x
      requires |x.forward| == MAX_LEVEL && x.forward[0] == At(nodes, d + 1)
      modifies Nodes()`backward, this`tail
      ensures BackLinked(RemoveAt(nodes, d), tail)
    {
      assert x.backward == Behind(nodes, d);
      if x.forward[0] != null {
        x.forward[0].backward := x.backward;
      } else {
        tail := x.backward;
      }
      assert forall p {:trigger nodes[p].backward} | 0 <= p < |nodes| ::
          nodes[p].backward == if p == d + 1 then Behind(nodes, d) else Behind(nodes, p);
      BackLinkedAfterRemove(nodes, d, tail);
    }

    /** Levels that have lost their last node are given up. */
    method LowerLevel(ghost nodes': seq<Node>, ghost hs': seq<nat>)
      requires IsChain(nodes', hs', header, |nodes'| - 1, level) && BackLinked(nodes', tail) && Distinct(nodes')
      modifies this`level
      ensures IsList(nodes', hs', header, tail, |nodes'| - 1, level)
    {
      while level > 1 && header.forward[level - 1] == null
        invariant IsChain(nodes', hs', header, |nodes'| - 1, level)
      {
        assert Forwards(nodes')[0][level - 1] == At(nodes', Next(hs', level - 1, 0));
        LowerKeepsBounded(hs', level);
        level := level - 1;
      }
      assert level > 1 ==> Forwards(nodes')[0][level - 1] == At(nodes', Next(hs', level - 1, 0));
    }

    /** All forward links to the node at position d are redirected. */
    method UnlinkChain(x: Node, update: seq<Node?>, ghost rank: seq<int>, ghost d: nat)
      requires Chained() && Distinct(nodes) && 0 < d < |nodes| && nodes[d] == x
      requires Predecessors(update, rank, d, 0, level)
      modifies Nodes()`forward, Nodes()`span
      ensures IsChain(RemoveAt(nodes, d), RemoveAt(heights, d), header, length - 1, level)
      ensures |x.forward| == MAX_LEVEL && x.forward[0] == At(nodes, d + 1)
    {
      Unlink(x, update, rank, d);
    }

    /** All links to the node at position d are redirected, forward and backward. */
    method Detach(x: Node, update: seq<Node?>, ghost rank: seq<int>, ghost d: nat)
      requires Chained() && BackLinked(nodes, tail) && Distinct(nodes) && 0 < d < |nodes| && nodes[d] == x
      requires Predecessors(update, rank, d, 0, level)
      modifies Nodes()`forward, Nodes()`span, Nodes()`backward, this`tail
      ensures IsChain(RemoveAt(nodes, d), RemoveAt(heights, d), header, length - 1, level)
      ensures BackLinked(RemoveAt(nodes, d), tail)
    {
      ghost var nodes' := RemoveAt(nodes, d);
      UnlinkChain(x, update, rank, d);
      ghost var f, s := Forwards(nodes'), Spans(nodes');
      UnlinkBack(x, d);
      assert Forwards(nodes') == f && Spans(nodes') == s;
    }

    /** Del's changes to the linked structure: the node at position d goes. */
    method RemoveNode(x: Node, update: seq<Node?>, ghost rank: seq<int>, ghost d: nat)
      requires Linked() && 0 < d < |nodes| && nodes[d] == x
      requires Predecessors(update, rank, d, 0, level)
      modifies Nodes(), this`tail, this`length, this`level, this`nodes, this`heights
      ensures Linked() && nodes == RemoveAt(old(nodes), d)
      ensures Nodes() <= old(Nodes())
    {
      ghost var nodes', hs' := RemoveAt(nodes, d), RemoveAt(heights, d);
      Detach(x, update, rank, d);
      DistinctAfterRemove(nodes, d);
      LowerLevel(nodes', hs');
      Adopt(-1, nodes', hs');
    }

    /** Del's search and removal. The search ends right before the key's own node, so the removal
        branch is always taken. */
    method RemoveFound(key: Key, score: real, ghost d: nat)
      requires Linked() && 0 < d < |nodes| && nodes[d].key == key && nodes[d].score == score
      requires SplitBefore(nodes, key, score, d)
      modifies Nodes(), this`tail, this`length, this`level, this`nodes, this`heights
      ensures Linked() && nodes == RemoveAt(old(nodes), d)
      ensures Nodes() <= old(Nodes())
    {
      var update;
      ghost var rank;
      update, rank := FindPredecessors(key, score, d);
      PrevOnGround(heights, d);
      NextOnGround(heights, d - 1);
      var x := update[0].forward[0];
      assert x == nodes[d];
      if x != null && score == x.score && key == x.key {
        RemoveNode(x, update, rank, d);
      }
    }

    /** Removes a key, or reports that it is absent and changes nothing. */
    method Del(key: Key) returns (r: Result<()>)
      requires Valid()
      modifies this, owned
      ensures Valid() && owned == old(owned)
      ensures Model() == old(Model()) - {key}
      ensures key in old(Model()) ==> r == Ok(())
      ensures key !in old(Model()) ==> r == NotFound(key) && unchanged(this) && unchanged(nodes)
    {
      if key !in dict {
        assert Model() - {key} == Model();
        return NotFound(key);
      }
      ghost var was, index := nodes, dict;
      assert IsSorted(was, index) && Distinct(was);
      ghost var d := Locate(key);
      RemoveFound(key, dict[key].score, d);
      OrderedAfterRemove(was, index, d);
      Index(dict - {key}, owned);
      r := Ok(());
    }

    /** Stores a score for a key, whether or not the key had one; h is the drawn level. */
    method Set(key: Key, score: real, h: nat) returns (x: Node)
      requires Valid() && 1 <= h <= MAX_LEVEL
      modifies this, owned
      ensures Valid() && fresh(x) && owned == old(owned) + {x}
      ensures Model() == old(Model())[key := score]
      ensures EntryOf(x) == Entry(key, score) && key in dict && dict[key] == x
    {
      ghost var m := Model();
      var _ := Del(key);
      DropThenStore(m, key, score);
      x := Insert(key, score, h);
    }

    method GetScore(key: Key) returns (r: Result<real>)
      ensures r == if key in Model() then Ok(Model()[key]) else NotFound(key)
    {
      if key !in dict {
        return NotFound(key);
      }
      r := Ok(dict[key].score);
    }

    method HasKey(key: Key) returns (b: bool)
      ensures b <==> key in Model()
    {
      b := key in dict;
    }

    /** Ranks from the far end; 64-bit wrap-around does not disturb the answer. */
    method GetElementByRankDESC(rank: int) returns (n: Entry)
      requires Chained() && IsInt64(rank) && IsInt64(length)
      ensures n == if 1 <= rank <= length then Contents()[length - rank] else Entry([], 0.0)
    {
      MirrorWraps(rank, length);
      var r := WrapInt64(length - rank + 1);
      n := GetElementByRankASC(r);
    }

    method GetRankDESC(key: Key) returns (r: Result<int>)
      requires Valid()
      ensures key !in Model() ==> r == NotFound(key)
      ensures key in Model() ==>
                r == Ok(if key == [] && TopSkips(Entry(key, Model()[key])) then length + 1
                        else length + 1 - RankOf(Model(), key))
    {
      r := GetRank(key);
      if r.Ok? {
        r := Ok(length - r.value + 1);
      }
    }

    /** The n smallest entries, smallest score first, and bytewise among equal scores. */
    method GetTopN(n: int) returns (r: seq<Entry>)
      requires Valid()
      ensures r == Contents()[..Clamp(n, length)]
      ensures |r| == if n <= 0 then 0 else if n <= length then n else length
      ensures forall i | 0 <= i < |r| :: r[i].key in Model() && Model()[r[i].key] == r[i].score
      ensures forall i, j | 0 <= i < j < |r| :: r[i].score <= r[j].score
      ensures forall i, j | 0 <= i < j < |r| && r[i].score == r[j].score ::
                exists p | 0 <= p <= |r[i].key| && p < |r[j].key| ::
                  r[i].key[..p] == r[j].key[..p] && (p == |r[i].key| || r[i].key[p] < r[j].key[p])
      ensures forall i, k | 0 <= i < |r| && k in Model() && (forall t | 0 <= t < |r| :: r[t].key != k) ::
                r[i].score <= Model()[k]
    {
      r := TakeFirst(n);
      PrefixLaws(Contents(), Model(), |r|);
    }

    /** Along the links of level 0. */
    method TakeFirst(n: int) returns (r: seq<Entry>)
      requires Chained()
      ensures r == Contents()[..Clamp(n, length)]
    {
      r := [];
      var q := 0;
      NextOnGround(heights, 0);
      var x := header.forward[0];
      while x != null && q < n
        invariant 0 <= q <= length && (q <= n || q == 0)
        invariant x == At(nodes, q + 1)
        invariant r == Contents()[..q]
        decreases length - q
      {
        NextOnGround(heights, q + 1);
        assert Contents()[q] == EntryOf(x);
        r := r + [Entry(x.key, x.score)];
        x := x.forward[0];
        q := q + 1;
      }
    }

    /** The n largest entries, largest score first, and bytewise backwards among equal scores. */
    method GetTopNDESC(n: int) returns (r: seq<Entry>)
      requires Valid()
      ensures r == Reversed(Contents())[..Clamp(n, length)]
      ensures |r| == if n <= 0 then 0 else if n <= length then n else length
      ensures forall i | 0 <= i < |r| :: r[i].key in Model() && Model()[r[i].key] == r[i].score
      ensures forall i, j | 0 <= i < j < |r| :: r[i].score >= r[j].score
      ensures forall i, j | 0 <= i < j < |r| && r[i].score == r[j].score ::
                exists p | 0 <= p <= |r[j].key| && p < |r[i].key| ::
                  r[j].key[..p] == r[i].key[..p] && (p == |r[j].key| || r[j].key[p] < r[i].key[p])
      ensures forall i, k | 0 <= i < |r| && k in Model() && (forall t | 0 <= t < |r| :: r[t].key != k) ::
                r[i].score >= Model()[k]
    {
      r := TakeLast(n);
      ReversedPrefixLaws(Contents(), Model(), |r|);
    }

    /** From the tail by backward links alone. */
    method TakeLast(n: int) returns (r: seq<Entry>)
      requires BackLinked(nodes, tail) && length == |nodes| - 1
      ensures r == Reversed(Contents())[..Clamp(n, length)]
    {
      r := [];
      var q := 0;
      var x := tail;
      while x != null && q < n
        invariant 0 <= q <= length && (q <= n || q == 0) && |r| == q
        invariant x == if q == length then null else nodes[length - q]
        invariant r == Reversed(Contents())[..q]
        decreases length - q
      {
        assert Reversed(Contents())[q] == Contents()[length - 1 - q] == EntryOf(x);
        r := r + [Entry(x.key, x.score)];
        x := x.backward;
        q := q + 1;
      }
    }

    /** The header has no links on the levels above those in use. */
    lemma IdleLevels(i: nat)
      requires Chained() && level <= i < MAX_LEVEL
      ensures header.forward[i] == null
    {
      NextIs(heights, i, 0, |heights|);
      assert nodes[0].forward[i] == At(nodes, Next(heights, i, 0));
    }

    /** The nodes reached from x along the links of level i, as far as the given number of steps. */
    ghost function Follow(x: Node, i: nat, steps: nat): seq<Node>
      reads nodes`forward, this
      decreases steps
    {
      if steps == 0 || x !in nodes || i >= |x.forward| || x.forward[i] == null then []
      else [x.forward[i]] + Follow(x.forward[i], i, steps - 1)
    }

    /** The chain of each level, read off the links themselves, is finite and visits exactly the
        nodes that are tall enough, in level-0 order. */
    lemma {:induction false} FollowIsChain(p: nat, i: nat, steps: nat)
      requires Chained() && p < |nodes| && i < MAX_LEVEL && i < heights[p] && steps >= |nodes| - p
      ensures Follow(nodes[p], i, steps) == NodesAt(nodes, Chain(heights, i, p))
      decreases |nodes| - p
    {
      var q := Next(heights, i, p);
      assert nodes[p].forward[i] == At(nodes, q);
      if q < |nodes| {
        FollowIsChain(q, i, steps - 1);
      }
    }
  }

  /** A level as it may be drawn. */
  type Height = h: nat | 1 <= h <= MAX_LEVEL witness 1

  /** One call on the set, with the level that it happens to draw. */
  datatype Op = SetOp(key: Key, score: real, h: Height) | DelOp(key: Key)

  /** What the call does to a plain map. */
  ghost function Apply(m: map<Key, real>, op: Op): map<Key, real> {
    match op
    case SetOp(key, score, _) => m[key := score]
    case DelOp(key) => m - {key}
  }

  ghost function Replay(ops: seq<Op>): map<Key, real> {
    if ops == [] then map[] else Apply(Replay(ops[..|ops| - 1]), ops[|ops| - 1])
  }

  /** Which calls of a run report an absent key: the Dels whose key the plain map lacks. */
  ghost function Failures(ops: seq<Op>): seq<bool> {
    if ops == [] then []
    else
      var before, op := ops[..|ops| - 1], ops[|ops| - 1];
      Failures(before) + [op.DelOp? && op.key !in Replay(before)]
  }

  lemma ReplayStep(ops: seq<Op>, i: nat)
    requires i < |ops|
    ensures Replay(ops[..i + 1]) == Apply(Replay(ops[..i]), ops[i])
    ensures Failures(ops[..i + 1]) == Failures(ops[..i]) + [ops[i].DelOp? && ops[i].key !in Replay(ops[..i])]
  {
    assert ops[..i + 1][..i] == ops[..i];
  }

  /** One call. */
  method Step(s: RankedSet, op: Op) returns (failed: bool)
    requires s.Valid()
    modifies s, s.owned
    ensures s.Valid() && fresh(s.owned - old(s.owned))
    ensures s.Model() == Apply(old(s.Model()), op)
    ensures failed <==> op.DelOp? && op.key !in old(s.Model())
  {
    failed := false;
    match op {
      case SetOp(key, score, h) =>
        var _ := s.Set(key, score, h);
      case DelOp(key) =>
        var r := s.Del(key);
        failed := r.NotFound?;
    }
  }

  /** The last call on a key decides: the plain map has it exactly if that is a Set, with its score. */
  lemma {:induction false} LastCallDecides(ops: seq<Op>, i: nat)
    requires i < |ops| && forall j | i < j < |ops| :: ops[j].key != ops[i].key
    ensures ops[i].key in Replay(ops) <==> ops[i].SetOp?
    ensures ops[i].SetOp? ==> Replay(ops)[ops[i].key] == ops[i].score
  {
    if i < |ops| - 1 {
      LastCallDecides(ops[..|ops| - 1], i);
    }
  }

  lemma {:induction false} NeverCalled(ops: seq<Op>, key: Key)
    requires forall j | 0 <= j < |ops| :: ops[j].key != key
    ensures key !in Replay(ops)
  {
    if ops != [] {
      NeverCalled(ops[..|ops| - 1], key);
    }
  }

  /** Which calls fail, read off the plain maps before them. */
  lemma {:induction false} FailuresMean(ops: seq<Op>, i: nat)
    requires i < |ops|
    ensures |Failures(ops)| == |ops|
    ensures Failures(ops)[i] <==> ops[i].DelOp? && ops[i].key !in Replay(ops[..i])
  {
    var before := ops[..|ops| - 1];
    if i < |ops| - 1 {
      FailuresMean(before, i);
      assert before[..i] == ops[..i];
    } else if before != [] {
      FailuresMean(before, 0);
    }
  }

  lemma RunLaws(ops: seq<Op>)
    ensures |Failures(ops)| == |ops|
    ensures forall i | 0 <= i < |ops| :: Failures(ops)[i] <==> ops[i].DelOp? && ops[i].key !in Replay(ops[..i])
    ensures forall i | 0 <= i < |ops| && (forall j | i < j < |ops| :: ops[j].key != ops[i].key) ::
              && (ops[i].key in Replay(ops) <==> ops[i].SetOp?)
              && (ops[i].SetOp? ==> Replay(ops)[ops[i].key] == ops[i].score)
    ensures forall key | (forall j | 0 <= j < |ops| :: ops[j].key != key) :: key !in Replay(ops)
  {
    if ops != [] {
      FailuresMean(ops, 0);
    }
    forall i | 0 <= i < |ops|
      ensures Failures(ops)[i] <==> ops[i].DelOp? && ops[i].key !in Replay(ops[..i])
    {
      FailuresMean(ops, i);
    }
    forall i | 0 <= i < |ops| && (forall j | i < j < |ops| :: ops[j].key != ops[i].key)
      ensures ops[i].key in Replay(ops) <==> ops[i].SetOp?
      ensures ops[i].SetOp? ==> Replay(ops)[ops[i].key] == ops[i].score
    {
      LastCallDecides(ops, i);
    }
    forall key | (forall j | 0 <= j < |ops| :: ops[j].key != key)
      ensures key !in Replay(ops)
    {
      NeverCalled(ops, key);
    }
  }

  /** Every run of Set and Del from the empty set keeps the structure valid and ends in the plain
      map's value, whatever levels were drawn; each Del fails exactly when the plain map lacks the key. */
  method Run(ops: seq<Op>) returns (s: RankedSet, failed: seq<bool>)
    ensures fresh(s) && fresh(s.owned) && s.Valid()
    ensures s.Model() == Replay(ops)
    ensures failed == Failures(ops) && |failed| == |ops|
    ensures forall i | 0 <= i < |ops| :: failed[i] <==> ops[i].DelOp? && ops[i].key !in Replay(ops[..i])
    ensures forall i | 0 <= i < |ops| && (forall j | i < j < |ops| :: ops[j].key != ops[i].key) ::
              && (ops[i].key in s.Model() <==> ops[i].SetOp?)
              && (ops[i].SetOp? ==> s.Model()[ops[i].key] == ops[i].score)
    ensures forall key | (forall j | 0 <= j < |ops| :: ops[j].key != key) :: key !in s.Model()
  {
    s := new RankedSet();
    failed := [];
    for i := 0 to |ops|
      invariant fresh(s) && fresh(s.owned) && s.Valid()
      invariant s.Model() == Replay(ops[..i]) && failed == Failures(ops[..i])
    {
      ReplayStep(ops, i);
      var f := Step(s, ops[i]);
      failed := failed + [f];
    }
    assert ops[..|ops|] == ops;
    RunLaws(ops);
  }

  /** The queries' answers are those of the plain map alone: two sets that hold the same map list
      the same entries, however their levels were drawn. */
  lemma LevelsDoNotMatter(a: RankedSet, b: RankedSet)
    requires a.Valid() && b.Valid() && a.Model() == b.Model()
    ensures a.Contents() == b.Contents() && a.length == b.length == |a.Model()|
  {
    ListingUnique(a.Contents(), b.Contents(), a.Model());
    ListingLength(a.Contents(), a.Model());
  }

  lemma RankLeadsBack(s: RankedSet, key: Key)
    requires s.Ordered() && key in s.Model() && s.length == |s.nodes| - 1
    ensures var rank := RankOf(s.Model(), key);
            && 1 <= rank <= s.length
            && s.Contents()[rank - 1] == Entry(key, s.Model()[key])
  {
    EntryAtRank(s.Contents(), s.Model(), key);
  }

  method UpAndBack(s: RankedSet, key: Key) returns (rank: int, e: Entry)
    requires s.Valid() && key in s.Model()
    requires key == [] ==> !s.TopSkips(Entry(key, s.Model()[key]))
    ensures rank == RankOf(s.Model(), key) && e == Entry(key, s.Model()[key])
  {
    RankLeadsBack(s, key);
    var r := s.GetRank(key);
    rank := r.value;
    e := s.GetElementByRankASC(rank);
  }

  method DownAndBack(s: RankedSet, key: Key) returns (rank: int, e: Entry)
    requires s.Valid() && key in s.Model() && IsInt64(s.length)
    requires key == [] ==> !s.TopSkips(Entry(key, s.Model()[key]))
    ensures rank == s.length + 1 - RankOf(s.Model(), key) && e == Entry(key, s.Model()[key])
  {
    RankLeadsBack(s, key);
    var r := s.GetRankDESC(key);
    rank := r.value;
    e := s.GetElementByRankDESC(rank);
  }

  /** From key to rank to entry: ascending and descending ranks mirror each other, and both lead back
      to the key's entry. */
  method RankRoundTrip(s: RankedSet, key: Key) returns (rank: int, back: int, up: Entry, down: Entry)
    requires s.Valid() && key in s.Model() && IsInt64(s.length)
    requires key == [] ==> !s.TopSkips(Entry(key, s.Model()[key]))
    ensures rank + back == s.length + 1
    ensures up == down == Entry(key, s.Model()[key])
  {
    rank, up := UpAndBack(s, key);
    back, down := DownAndBack(s, key);
  }

  /** From rank to entry to rank: the key at a rank has that rank, but for the empty key that the
      highest level leads past. */
  method EntryRoundTrip(s: RankedSet, rank: int) returns (e: Entry, back: Result<int>)
    requires s.Valid() && 1 <= rank <= s.length
    ensures e == s.Contents()[rank - 1] && e.key in s.Model() && s.Model()[e.key] == e.score
    ensures back == Ok(if e.key == [] && s.TopSkips(e) then 0 else rank)
  {
    e := s.GetElementByRankASC(rank);
    RankIsPosition(s.Contents(), s.Model(), rank - 1);
    back := s.GetRank(e.key);
  }

  ghost predicate ByScore(m: map<Key, real>, a: Entry, b: Entry) {
    && a.key in m && m[a.key] == a.score && b.key in m && m[b.key] == b.score
    && a.score <= b.score
    && (a.score == b.score ==> exists p | 0 <= p <= |a.key| && p < |b.key| ::
          a.key[..p] == b.key[..p] && (p == |a.key| || a.key[p] < b.key[p]))
  }

  lemma ContentsByScore(s: RankedSet, i: nat, j: nat, a: Entry, b: Entry)
    requires s.Ordered() && i < j < |s.Contents()| && a == s.Contents()[i] && b == s.Contents()[j]
    ensures ByScore(s.Model(), a, b)
  {
    ListingByScore(s.Contents(), i, j);
  }

  /** Rising ranks have rising scores, and bytewise rising keys among equal scores; descending ranks the
      other way round. Each entry is the map's. */
  method RanksByScore(s: RankedSet, i: int, j: int) returns (a: Entry, b: Entry)
    requires s.Valid() && 1 <= i < j <= s.length
    ensures ByScore(s.Model(), a, b)
  {
    assert |s.Contents()| == s.length;
    a := s.GetElementByRankASC(i);
    b := s.GetElementByRankASC(j);
    ContentsByScore(s, i - 1, j - 1, a, b);
  }

  method RanksByScoreDESC(s: RankedSet, i: int, j: int) returns (a: Entry, b: Entry)
    requires s.Valid() && 1 <= i < j <= s.length && IsInt64(s.length)
    ensures ByScore(s.Model(), b, a)
  {
    assert |s.Contents()| == s.length;
    a := s.GetElementByRankDESC(i);
    b := s.GetElementByRankDESC(j);
    ContentsByScore(s, s.length - j, s.length - i, b, a);
  }

  /** Of two keys the one with the smaller score is ranked first; with equal scores, the one that comes
      first bytewise. An empty key that the highest level leads past is missed. */
  method CompareRanks(s: RankedSet, a: Key, b: Key) returns (ra: Result<int>, rb: Result<int>)
    requires s.Valid() && a in s.Model() && b in s.Model()
    requires a == [] ==> !s.TopSkips(Entry(a, s.Model()[a]))
    requires b == [] ==> !s.TopSkips(Entry(b, s.Model()[b]))
    ensures ra.Ok? && rb.Ok?
    ensures s.Model()[a] < s.Model()[b] ==> ra.value < rb.value
    ensures (&& s.Model()[a] == s.Model()[b]
             && exists p | 0 <= p <= |a| && p < |b| :: a[..p] == b[..p] && (p == |a| || a[p] < b[p]))
            ==> ra.value < rb.value
  {
    RankFollowsScore(s.Model(), a, b);
    ra := s.GetRank(a);
    rb := s.GetRank(b);
  }

  method OneEntry() returns (s: RankedSet)
    ensures fresh(s) && fresh(s.owned) && s.Valid() && s.Model() == map[[] := 1.0]
    ensures s.Contents() == [Entry([], 1.0)] && s.heights == [MAX_LEVEL, 1] && s.level == 1
  {
    s := new RankedSet();
    var _ := s.InsertAtCut([], 1.0, 1, 1);
  }

  /** A set of two entries whose highest level leads past the first one. */
  method TwoEntries() returns (s: RankedSet)
    ensures fresh(s) && s.Valid() && s.Model() == map[[] := 1.0, [97] := 2.0]
    ensures s.TopSkips(Entry([], 1.0))
  {
    s := OneEntry();
    assert Cut(s.Contents(), Entry([97], 2.0)) == 1;
    var x := s.InsertAtCut([97], 2.0, 2, 2);
    NextIs(s.heights, 1, 0, 2);
    assert s.header.forward[1] == Forwards(s.nodes)[0][1] == At(s.nodes, 2) == x;
  }

  lemma EmptyIsFirst(m: map<Key, real>)
    requires m == map[[] := 1.0, [97] := 2.0]
    ensures [] in m && m[[]] == 1.0 && RankOf(m, []) == 1
  {
    assert SmallerKeys(m, Entry([], 1.0)) == {};
  }

  /** There are sets for which GetRank fails on the empty key: it is present and has rank 1, but the
      answer is 0. */
  method EmptyKeyMissed() returns (s: RankedSet, r: Result<int>)
    ensures fresh(s) && s.Valid() && [] in s.Model() && RankOf(s.Model(), []) == 1
    ensures r == Ok(0)
  {
    s := TwoEntries();
    EmptyIsFirst(s.Model());
    r := s.GetRank([]);
  }
}
