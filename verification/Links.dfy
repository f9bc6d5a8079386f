/** Nodes of the skip list, and when their forward links and span counters are right. The lemmas
    work on snapshots of the fields, so that they do not depend on the heap. */
module Links {
  import opened Order
  import opened Sequences
  import opened Levels

  class Node {
    const key: Key
    const score: real
    var backward: Node?
    var forward: seq<Node?>
    var span: seq<int>

    constructor (key: Key, score: real)
      ensures this.key == key && this.score == score && backward == null
      ensures forward == seq(MAX_LEVEL, _ => null) && span == seq(MAX_LEVEL, _ => 0)
    {
      this.key, this.score, backward := key, score, null;
      forward, span := seq(MAX_LEVEL, _ => null), seq(MAX_LEVEL, _ => 0);
    }
  }

  ghost function At(nodes: seq<Node>, q: nat): Node? {
    if q < |nodes| then nodes[q] else null
  }

  ghost predicate IsForwards(nodes: seq<Node>, f: seq<seq<Node?>>)
    reads nodes`forward
  {
    |f| == |nodes| && forall p | 0 <= p < |f| :: f[p] == nodes[p].forward
  }

  ghost predicate IsSpans(nodes: seq<Node>, s: seq<seq<int>>)
    reads nodes`span
  {
    |s| == |nodes| && forall p | 0 <= p < |s| :: s[p] == nodes[p].span
  }

  lemma SnapshotsExist(nodes: seq<Node>)
    ensures exists f :: IsForwards(nodes, f)
    ensures exists s :: IsSpans(nodes, s)
  {
    assert IsForwards(nodes, seq(|nodes|, p requires 0 <= p < |nodes| reads nodes => nodes[p].forward));
    assert IsSpans(nodes, seq(|nodes|, p requires 0 <= p < |nodes| reads nodes => nodes[p].span));
  }

  /** The forward links of a node sequence, as a snapshot. */
  ghost function Forwards(nodes: seq<Node>): (f: seq<seq<Node?>>)
    reads nodes`forward
    ensures IsForwards(nodes, f)
  {
    SnapshotsExist(nodes);
    var f :| IsForwards(nodes, f);
    f
  }

  /** The span counters of a node sequence, as a snapshot. */
  ghost function Spans(nodes: seq<Node>): (s: seq<seq<int>>)
    reads nodes`span
    ensures IsSpans(nodes, s)
  {
    SnapshotsExist(nodes);
    var s :| IsSpans(nodes, s);
    s
  }

  lemma SnapshotsAfterInsert(nodes: seq<Node>, c: nat, x: Node)
    requires c <= |nodes|
    ensures Forwards(InsertAt(nodes, c, x)) == InsertAt(Forwards(nodes), c, x.forward)
    ensures Spans(InsertAt(nodes, c, x)) == InsertAt(Spans(nodes), c, x.span)
  {
  }

  lemma SnapshotsAfterRemove(nodes: seq<Node>, d: nat)
    requires d < |nodes|
    ensures Forwards(RemoveAt(nodes, d)) == RemoveAt(Forwards(nodes), d)
    ensures Spans(RemoveAt(nodes, d)) == RemoveAt(Spans(nodes), d)
  {
  }

  ghost predicate Sized(hs: seq<nat>, f: seq<seq<Node?>>, s: seq<seq<int>>) {
    && |hs| == |f| == |s|
    && (forall p | 0 <= p < |hs| :: |f[p]| == MAX_LEVEL && |s[p]| == MAX_LEVEL)
  }

  /** The heights of a list whose highest level in use is level - 1. */
  ghost predicate Bounded(hs: seq<nat>, level: nat) {
    && 1 <= level <= MAX_LEVEL
    && 0 < |hs| && hs[0] == MAX_LEVEL
    && (forall p | 0 < p < |hs| :: 1 <= hs[p] <= level)
  }

  /** Every link leads to the next node of its level, and every span below level counts exactly the
      level-0 steps it jumps over; with no next node it counts the steps to the end. */
  ghost predicate Exact(nodes: seq<Node>, hs: seq<nat>, level: nat, f: seq<seq<Node?>>, s: seq<seq<int>>) {
    && |nodes| == |hs| && Sized(hs, f, s)
    && (forall p, i | 0 <= p < |hs| && 0 <= i < MAX_LEVEL && i < hs[p] :: f[p][i] == At(nodes, Next(hs, i, p)))
    && (forall p, i | 0 <= p < |hs| && 0 <= i < level && i < MAX_LEVEL && i < hs[p] :: s[p][i] == Span(hs, i, p))
  }

  /** What insert's relinking loops do to the old nodes, given their fields before and after:
      the predecessor on each level below the new node's height h gets a link to x and its share of
      the old span, the predecessors on the levels above get one more step. */
  ghost predicate Spliced(hs: seq<nat>, level: nat, c: nat, h: nat, x: Node,
                          f: seq<seq<Node?>>, s: seq<seq<int>>, f': seq<seq<Node?>>, s': seq<seq<int>>)
    requires 0 < c <= |hs| && hs[0] == MAX_LEVEL
  {
    && Sized(hs, f, s) && Sized(hs, f', s')
    && (forall p, i {:trigger f'[p][i]} | 0 <= p < |hs| && 0 <= i < MAX_LEVEL ::
          f'[p][i] == if i < h && p == Prev(hs, i, c) then x else f[p][i])
    && (forall p, i {:trigger s'[p][i]} | 0 <= p < |hs| && 0 <= i < MAX_LEVEL && i < level ::
          s'[p][i] == if p != Prev(hs, i, c) then s[p][i] else if i < h then c - p else s[p][i] + 1)
    && (forall p, i {:trigger s'[p][i]} | 0 <= p < |hs| && level <= i < MAX_LEVEL :: s'[p][i] == s[p][i])
  }

  ghost function WithCell<T>(m: seq<seq<T>>, p: nat, i: nat, v: T): seq<seq<T>>
    requires p < |m| && i < |m[p]|
  {
    m[p := m[p][i := v]]
  }

  lemma SplicedLink(hs: seq<nat>, i: nat, c: nat, x: Node, f: seq<seq<Node?>>, s: seq<seq<int>>,
                    f': seq<seq<Node?>>, s': seq<seq<int>>, f2: seq<seq<Node?>>, s2: seq<seq<int>>)
    requires 0 < c <= |hs| && hs[0] == MAX_LEVEL && i < MAX_LEVEL
    requires Spliced(hs, i, c, i, x, f, s, f', s')
    requires f2 == WithCell(f', Prev(hs, i, c), i, x)
    requires s2 == WithCell(s', Prev(hs, i, c), i, c - Prev(hs, i, c))
    ensures Spliced(hs, i + 1, c, i + 1, x, f, s, f2, s2)
  {
  }

  lemma SplicedBump(hs: seq<nat>, i: nat, c: nat, h: nat, x: Node, f: seq<seq<Node?>>, s: seq<seq<int>>,
                    f': seq<seq<Node?>>, s': seq<seq<int>>, s2: seq<seq<int>>)
    requires 0 < c <= |hs| && hs[0] == MAX_LEVEL && h <= i < MAX_LEVEL
    requires Spliced(hs, i, c, h, x, f, s, f', s')
    requires s2 == WithCell(s', Prev(hs, i, c), i, s[Prev(hs, i, c)][i] + 1)
    ensures Spliced(hs, i + 1, c, h, x, f, s, f', s2)
  {
  }

  /** The new node takes over the predecessor's old link and the rest of its span. */
  ghost predicate TakesOver(hs: seq<nat>, c: nat, h: nat, f: seq<seq<Node?>>, s: seq<seq<int>>,
                            fx: seq<Node?>, sx: seq<int>)
    requires 0 < c <= |hs| && hs[0] == MAX_LEVEL && Sized(hs, f, s)
  {
    && |fx| == MAX_LEVEL && |sx| == MAX_LEVEL
    && (forall i | 0 <= i < h && i < MAX_LEVEL ::
          && fx[i] == f[Prev(hs, i, c)][i]
          && sx[i] == s[Prev(hs, i, c)][i] - (c - 1 - Prev(hs, i, c)))
  }

  lemma InsertedLink(nodes: seq<Node>, hs: seq<nat>, level: nat, c: nat, h: nat, x: Node,
                     f: seq<seq<Node?>>, s: seq<seq<int>>, f': seq<seq<Node?>>, s': seq<seq<int>>,
                     p: nat, i: nat)
    requires Exact(nodes, hs, level, f, s) && Bounded(hs, level)
    requires 0 < c <= |hs| && 1 <= h <= level
    requires Spliced(hs, level, c, h, x, f, s, f', s')
    requires p < |hs| && i < hs[p] && i < MAX_LEVEL
    ensures var p' := if p < c then p else p + 1;
            && f'[p][i] == At(InsertAt(nodes, c, x), Next(InsertAt(hs, c, h), i, p'))
            && (i < level ==> s'[p][i] == Span(InsertAt(hs, c, h), i, p'))
  {
    NextAfterInsert(hs, c, h, i, p);
  }

  /** Insertion keeps every link and every span of every level exact. */
  lemma InsertKeepsExact(nodes: seq<Node>, hs: seq<nat>, level: nat, c: nat, h: nat, x: Node,
                         f: seq<seq<Node?>>, s: seq<seq<int>>, f': seq<seq<Node?>>, s': seq<seq<int>>,
                         fx: seq<Node?>, sx: seq<int>)
    requires Exact(nodes, hs, level, f, s) && Bounded(hs, level)
    requires 0 < c <= |hs| && 1 <= h <= level
    requires Spliced(hs, level, c, h, x, f, s, f', s') && TakesOver(hs, c, h, f, s, fx, sx)
    ensures Exact(InsertAt(nodes, c, x), InsertAt(hs, c, h), level, InsertAt(f', c, fx), InsertAt(s', c, sx))
  {
    var nodes', hs' := InsertAt(nodes, c, x), InsertAt(hs, c, h);
    var f2, s2 := InsertAt(f', c, fx), InsertAt(s', c, sx);
    forall p, i | 0 <= p < |hs'| && 0 <= i < MAX_LEVEL && i < hs'[p]
      ensures f2[p][i] == At(nodes', Next(hs', i, p))
      ensures i < level ==> s2[p][i] == Span(hs', i, p)
    {
      if p == c {
        NextOfInserted(hs, c, h, i);
      } else {
        InsertedLink(nodes, hs, level, c, h, x, f, s, f', s', if p < c then p else p - 1, i);
      }
    }
  }

  /** What Del's relinking loop does to the nodes that stay. */
  ghost predicate Unlinked(hs: seq<nat>, level: nat, d: nat,
                           f: seq<seq<Node?>>, s: seq<seq<int>>, f': seq<seq<Node?>>, s': seq<seq<int>>)
    requires 0 < d < |hs| && hs[0] == MAX_LEVEL
  {
    && Sized(hs, f, s) && Sized(hs, f', s')
    && (forall p, i {:trigger f'[p][i]} | 0 <= p < |hs| && 0 <= i < MAX_LEVEL ::
          f'[p][i] == if p == Prev(hs, i, d) && i < level && i < hs[d] then f[d][i] else f[p][i])
    && (forall p, i {:trigger s'[p][i]} | 0 <= p < |hs| && 0 <= i < MAX_LEVEL && i < level ::
          s'[p][i] == if p != Prev(hs, i, d) then s[p][i]
                      else if i < hs[d] then s[p][i] + s[d][i] - 1 else s[p][i] - 1)
    && (forall p, i {:trigger s'[p][i]} | 0 <= p < |hs| && level <= i < MAX_LEVEL :: s'[p][i] == s[p][i])
  }

  /** Del's test on each level: the predecessor's link leads to the node exactly where it is tall enough. */
  ghost predicate TestsHeight(nodes: seq<Node>, hs: seq<nat>, level: nat, d: nat, f: seq<seq<Node?>>)
    requires 0 < d < |hs| == |nodes| == |f| && hs[0] == MAX_LEVEL
  {
    forall i | 0 <= i < level && i < MAX_LEVEL ::
      var p := Prev(hs, i, d); |f[p]| == MAX_LEVEL && (f[p][i] == nodes[d] <==> i < hs[d])
  }

  lemma ExactTestsHeight(nodes: seq<Node>, hs: seq<nat>, level: nat, d: nat, f: seq<seq<Node?>>, s: seq<seq<int>>)
    requires Exact(nodes, hs, level, f, s) && Bounded(hs, level) && 0 < d < |hs|
    requires forall p, q | 0 <= p < q < |nodes| :: nodes[p] != nodes[q]
    ensures TestsHeight(nodes, hs, level, d, f)
  {
    forall i | 0 <= i < level
      ensures f[Prev(hs, i, d)][i] == nodes[d] <==> i < hs[d]
    {
      NextAfterUnlink(hs, d, i);
      assert f[Prev(hs, i, d)][i] == At(nodes, Next(hs, i, Prev(hs, i, d)));
    }
  }

  lemma UnlinkedOut(hs: seq<nat>, i: nat, d: nat, f: seq<seq<Node?>>, s: seq<seq<int>>,
                    f': seq<seq<Node?>>, s': seq<seq<int>>, f2: seq<seq<Node?>>, s2: seq<seq<int>>)
    requires 0 < d < |hs| && hs[0] == MAX_LEVEL && i < MAX_LEVEL && i < hs[d]
    requires Unlinked(hs, i, d, f, s, f', s')
    requires f2 == WithCell(f', Prev(hs, i, d), i, f[d][i])
    requires s2 == WithCell(s', Prev(hs, i, d), i, s[Prev(hs, i, d)][i] + s[d][i] - 1)
    ensures Unlinked(hs, i + 1, d, f, s, f2, s2)
  {
  }

  lemma UnlinkedOver(hs: seq<nat>, i: nat, d: nat, f: seq<seq<Node?>>, s: seq<seq<int>>,
                     f': seq<seq<Node?>>, s': seq<seq<int>>, s2: seq<seq<int>>)
    requires 0 < d < |hs| && hs[0] == MAX_LEVEL && i < MAX_LEVEL && i >= hs[d]
    requires Unlinked(hs, i, d, f, s, f', s')
    requires s2 == WithCell(s', Prev(hs, i, d), i, s[Prev(hs, i, d)][i] - 1)
    ensures Unlinked(hs, i + 1, d, f, s, f', s2)
  {
  }

  lemma RemovedPredecessorLink(nodes: seq<Node>, hs: seq<nat>, d: nat, i: nat)
    requires |nodes| == |hs| && 0 < d < |hs| && hs[0] > i
    ensures var p := Prev(hs, i, d); var hs' := RemoveAt(hs, d);
            && At(RemoveAt(nodes, d), Next(hs', i, p))
               == (if i < hs[d] then At(nodes, Next(hs, i, d)) else At(nodes, Next(hs, i, p)))
            && Span(hs', i, p) == Span(hs, i, p) - 1 + (if i < hs[d] then Span(hs, i, d) else 0)
  {
    NextAfterUnlink(hs, d, i);
  }

  lemma RemovedLink(nodes: seq<Node>, hs: seq<nat>, d: nat, p: nat, i: nat)
    requires |nodes| == |hs| && 0 < d < |hs| && hs[0] > i
    requires p < |hs| && hs[p] > i && p != d && p != Prev(hs, i, d)
    ensures var p', hs' := if p < d then p else p - 1, RemoveAt(hs, d);
            && At(RemoveAt(nodes, d), Next(hs', i, p')) == At(nodes, Next(hs, i, p))
            && Span(hs', i, p') == Span(hs, i, p)
  {
    NextAfterRemove(hs, d, i, p);
  }

  lemma RemovedCell(nodes: seq<Node>, hs: seq<nat>, level: nat, d: nat,
                    f: seq<seq<Node?>>, s: seq<seq<int>>, f': seq<seq<Node?>>, s': seq<seq<int>>,
                    p: nat, i: nat)
    requires Exact(nodes, hs, level, f, s) && Bounded(hs, level)
    requires 0 < d < |hs|
    requires Unlinked(hs, level, d, f, s, f', s')
    requires p < |hs| && p != d && i < hs[p] && i < MAX_LEVEL
    ensures var p' := if p < d then p else p - 1;
            && f'[p][i] == At(RemoveAt(nodes, d), Next(RemoveAt(hs, d), i, p'))
            && (i < level ==> s'[p][i] == Span(RemoveAt(hs, d), i, p'))
  {
    if p == Prev(hs, i, d) {
      RemovedPredecessorLink(nodes, hs, d, i);
    } else {
      RemovedLink(nodes, hs, d, p, i);
    }
  }

  /** Deletion keeps every link and every span of every level exact. */
  lemma RemoveKeepsExact(nodes: seq<Node>, hs: seq<nat>, level: nat, d: nat,
                         f: seq<seq<Node?>>, s: seq<seq<int>>, f': seq<seq<Node?>>, s': seq<seq<int>>)
    requires Exact(nodes, hs, level, f, s) && Bounded(hs, level)
    requires 0 < d < |hs|
    requires Unlinked(hs, level, d, f, s, f', s')
    ensures Exact(RemoveAt(nodes, d), RemoveAt(hs, d), level, RemoveAt(f', d), RemoveAt(s', d))
  {
    var nodes', hs' := RemoveAt(nodes, d), RemoveAt(hs, d);
    var f2, s2 := RemoveAt(f', d), RemoveAt(s', d);
    forall p, i | 0 <= p < |hs'| && 0 <= i < MAX_LEVEL && i < hs'[p]
      ensures f2[p][i] == At(nodes', Next(hs', i, p))
      ensures i < level ==> s2[p][i] == Span(hs', i, p)
    {
      RemovedCell(nodes, hs, level, d, f, s, f', s', if p < d then p else p + 1, i);
    }
  }

  /** Taking more levels into use keeps the list exact once the header's stale spans are renewed. */
  lemma RaiseKeepsExact(nodes: seq<Node>, hs: seq<nat>, level: nat, level': nat,
                        f: seq<seq<Node?>>, s: seq<seq<int>>, s': seq<seq<int>>)
    requires Exact(nodes, hs, level, f, s) && Bounded(hs, level) && level <= level' <= MAX_LEVEL
    requires |s'| == |s| && |s'[0]| == MAX_LEVEL && s' == s[0 := s'[0]]
    requires forall i | 0 <= i < level' :: s'[0][i] == if i < level then s[0][i] else |hs| - 1
    ensures Exact(nodes, hs, level', f, s') && Bounded(hs, level')
  {
    forall i: nat | level <= i < level'
      ensures Next(hs, i, 0) == |hs|
    {
      NextIs(hs, i, 0, |hs|);
    }
  }

  /** A level without nodes can be given up. */
  lemma LowerKeepsBounded(hs: seq<nat>, level: nat)
    requires Bounded(hs, level) && level > 1 && Next(hs, level - 1, 0) == |hs|
    ensures Bounded(hs, level - 1)
  {
  }
}
