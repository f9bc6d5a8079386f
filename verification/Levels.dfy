/** The arithmetic of skip-list levels, away from the heap.
    A list is described by the heights of its nodes in level-0 order: position 0 is the header,
    and the node at position p is linked on level i exactly when heights[p] > i. */
module Levels {
  import opened Sequences

  const MAX_LEVEL: nat := 32

  ghost predicate IsNext(hs: seq<nat>, i: nat, p: nat, q: nat) {
    && p < q <= |hs|
    && (q < |hs| ==> hs[q] > i)
    && (forall r | p < r < q :: hs[r] <= i)
  }

  ghost predicate IsPrev(hs: seq<nat>, i: nat, c: nat, q: nat) {
    && q < c <= |hs|
    && hs[q] > i
    && (forall r | q < r < c :: hs[r] <= i)
  }

  lemma {:induction false} NextExists(hs: seq<nat>, i: nat, p: nat)
    requires p < |hs|
    ensures exists q :: IsNext(hs, i, p, q)
    decreases |hs| - p
  {
    if p + 1 == |hs| || hs[p + 1] > i {
      assert IsNext(hs, i, p, p + 1);
    } else {
      NextExists(hs, i, p + 1);
      var q :| IsNext(hs, i, p + 1, q);
      assert IsNext(hs, i, p, q);
    }
  }

  lemma {:induction false} PrevExists(hs: seq<nat>, i: nat, c: nat)
    requires 0 < c <= |hs| && hs[0] > i
    ensures exists q :: IsPrev(hs, i, c, q)
  {
    if hs[c - 1] > i {
      assert IsPrev(hs, i, c, c - 1);
    } else {
      PrevExists(hs, i, c - 1);
      var q :| IsPrev(hs, i, c - 1, q);
      assert IsPrev(hs, i, c, q);
    }
  }

  /** The position of the next node on level i after p, or |hs| when there is none. */
  ghost function Next(hs: seq<nat>, i: nat, p: nat): (q: nat)
    requires p < |hs|
    ensures IsNext(hs, i, p, q)
  {
    NextExists(hs, i, p);
    var q :| IsNext(hs, i, p, q);
    q
  }

  /** The last position before c that is on level i. */
  ghost function Prev(hs: seq<nat>, i: nat, c: nat): (q: nat)
    requires 0 < c <= |hs| && hs[0] > i
    ensures IsPrev(hs, i, c, q)
  {
    PrevExists(hs, i, c);
    var q :| IsPrev(hs, i, c, q);
    q
  }

  /** What the span counter of position p on level i has to hold. */
  ghost function Span(hs: seq<nat>, i: nat, p: nat): int
    requires p < |hs|
  {
    var q := Next(hs, i, p);
    if q < |hs| then q - p else |hs| - 1 - p
  }

  lemma NextIs(hs: seq<nat>, i: nat, p: nat, q: nat)
    requires IsNext(hs, i, p, q)
    ensures Next(hs, i, p) == q
  {
  }

  lemma PrevIs(hs: seq<nat>, i: nat, c: nat, q: nat)
    requires IsPrev(hs, i, c, q) && hs[0] > i
    ensures Prev(hs, i, c) == q
  {
  }

  /** Every node is on level 0. */
  lemma NextOnGround(hs: seq<nat>, p: nat)
    requires p < |hs| && forall r | 0 < r < |hs| :: hs[r] >= 1
    ensures Next(hs, 0, p) == p + 1
  {
    NextIs(hs, 0, p, p + 1);
  }

  lemma PrevOnGround(hs: seq<nat>, c: nat)
    requires 0 < c <= |hs| && hs[0] > 0 && forall r | 0 < r < |hs| :: hs[r] >= 1
    ensures Prev(hs, 0, c) == c - 1
  {
    PrevIs(hs, 0, c, c - 1);
  }

  /** Successors after a node of height h has been put at position c. Only the predecessor of c
      on each level changes: it gets c when h reaches the level, else its old successor, shifted. */
  lemma NextAfterInsert(hs: seq<nat>, c: nat, h: nat, i: nat, p: nat)
    requires 0 < c <= |hs| && hs[0] > i
    requires p < |hs| && hs[p] > i
    ensures var hs' := InsertAt(hs, c, h); var q := Next(hs, i, p);
            && (p < c && p != Prev(hs, i, c) ==> q < c && Next(hs', i, p) == q)
            && (p == Prev(hs, i, c) ==> q >= c && Next(hs', i, p) == if h > i then c else q + 1)
            && (p >= c ==> Next(hs', i, p + 1) == q + 1)
  {
    var hs' := InsertAt(hs, c, h);
    var q := Next(hs, i, p);
    if p >= c {
      NextIs(hs', i, p + 1, q + 1);
    } else if p == Prev(hs, i, c) {
      NextIs(hs', i, p, if h > i then c else q + 1);
    } else {
      NextIs(hs', i, p, q);
    }
  }

  /** The new node's own successor on a level it reaches. */
  lemma NextOfInserted(hs: seq<nat>, c: nat, h: nat, i: nat)
    requires 0 < c <= |hs| && hs[0] > i
    ensures Next(InsertAt(hs, c, h), i, c) == Next(hs, i, Prev(hs, i, c)) + 1
  {
    NextIs(InsertAt(hs, c, h), i, c, Next(hs, i, Prev(hs, i, c)) + 1);
  }

  /** Successors after the node at position d has been taken out: nodes before d keep theirs,
      except the predecessor on each level; everything behind d moves down by one. */
  lemma NextAfterRemove(hs: seq<nat>, d: nat, i: nat, p: nat)
    requires 0 < d < |hs| && hs[0] > i
    requires p < |hs| && hs[p] > i && p != d && p != Prev(hs, i, d)
    ensures p < d ==> Next(hs, i, p) < d && Next(RemoveAt(hs, d), i, p) == Next(hs, i, p)
    ensures p > d ==> Next(RemoveAt(hs, d), i, p - 1) == Next(hs, i, p) - 1
  {
    var q := Next(hs, i, p);
    if p > d {
      NextIs(RemoveAt(hs, d), i, p - 1, q - 1);
    } else {
      NextIs(RemoveAt(hs, d), i, p, q);
    }
  }

  /** The predecessor of d links to d exactly on the levels d reaches, and inherits d's successor. */
  lemma NextAfterUnlink(hs: seq<nat>, d: nat, i: nat)
    requires 0 < d < |hs| && hs[0] > i
    ensures var p := Prev(hs, i, d); var q := Next(hs, i, p);
            && q >= d
            && (q == d <==> hs[d] > i)
            && Next(RemoveAt(hs, d), i, p) == (if q == d then Next(hs, i, d) else q) - 1
  {
    var p := Prev(hs, i, d);
    var q := Next(hs, i, p);
    var next := (if q == d then Next(hs, i, d) else q) - 1;
    var hs' := RemoveAt(hs, d);
    assert forall r | d <= r < next :: hs'[r] == hs[r + 1];
    NextIs(hs', i, p, next);
  }

  /** The positions on level i behind p, in order. */
  ghost function Chain(hs: seq<nat>, i: nat, p: nat): (ps: seq<nat>)
    requires p < |hs|
    ensures forall k | 0 <= k < |ps| :: p < ps[k] < |hs|
    decreases |hs| - p
  {
    var q := Next(hs, i, p);
    if q == |hs| then [] else [q] + Chain(hs, i, q)
  }

  /** The chain of a level is increasing and holds exactly the positions that reach the level. */
  lemma {:induction false} ChainIsLevel(hs: seq<nat>, i: nat, p: nat)
    requires p < |hs|
    ensures forall r: nat :: r in Chain(hs, i, p) <==> p < r < |hs| && hs[r] > i
    ensures forall j, k | 0 <= j < k < |Chain(hs, i, p)| :: Chain(hs, i, p)[j] < Chain(hs, i, p)[k]
    decreases |hs| - p
  {
    var q := Next(hs, i, p);
    if q < |hs| {
      ChainIsLevel(hs, i, q);
      var rest := Chain(hs, i, q);
      assert Chain(hs, i, p) == [q] + rest;
      assert forall r: nat :: r in [q] + rest <==> r == q || r in rest;
    }
  }

  ghost predicate IsSubsequence(a: seq<nat>, b: seq<nat>) {
    a == [] || (b != [] && if a[0] == b[0] then IsSubsequence(a[1..], b[1..]) else IsSubsequence(a, b[1..]))
  }

  /** Each level's chain is a subsequence of the chain of the level below. */
  lemma {:induction false} ChainsNest(hs: seq<nat>, i: nat, p: nat, p': nat)
    requires p <= p' < |hs|
    requires forall r | p < r <= p' :: hs[r] <= i + 1
    ensures IsSubsequence(Chain(hs, i + 1, p), Chain(hs, i, p'))
    decreases |hs| - p'
  {
    var q, q' := Next(hs, i + 1, p), Next(hs, i, p');
    if q < |hs| {
      assert q' <= q;
      if q' < q {
        ChainsNest(hs, i, p, q');
      } else {
        ChainsNest(hs, i, q, q);
      }
    }
  }
}
