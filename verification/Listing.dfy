/** The reference model of the ranked set: a plain map from keys to scores, and its listing, the
    strictly increasing sequence of its entries. */
module Listing {
  import opened FiniteSets
  import opened Order
  import opened Sequences

  ghost predicate StrictlySorted(c: seq<Entry>) {
    forall i, j | 0 <= i < j < |c| :: Less(c[i], c[j])
  }

  ghost predicate Matches(c: seq<Entry>, m: map<Key, real>) {
    && (forall i | 0 <= i < |c| :: c[i].key in m && m[c[i].key] == c[i].score)
    && (forall k | k in m :: Entry(k, m[k]) in c)
  }

  ghost predicate IsListing(c: seq<Entry>, m: map<Key, real>) {
    StrictlySorted(c) && Matches(c, m)
  }

  ghost predicate DistinctKeys(c: seq<Entry>) {
    forall i, j | 0 <= i < j < |c| :: c[i].key != c[j].key
  }

  /** How many leading entries are smaller than e. */
  ghost function Cut(c: seq<Entry>, e: Entry): (n: nat)
    ensures n <= |c|
    ensures forall i | 0 <= i < n :: Less(c[i], e)
    ensures n < |c| ==> !Less(c[n], e)
  {
    if c == [] || !Less(c[0], e) then 0 else 1 + Cut(c[1..], e)
  }

  /** The keys whose entries come before e. */
  ghost function SmallerKeys(m: map<Key, real>, e: Entry): set<Key> {
    set k | k in m && Less(Entry(k, m[k]), e)
  }

  /** The rank that the source documents: one plus the number of smaller entries. */
  ghost function RankOf(m: map<Key, real>, key: Key): nat
    requires key in m
  {
    1 + |SmallerKeys(m, Entry(key, m[key]))|
  }

  /** In a sorted sequence the entries below e are exactly those before Cut. */
  lemma CutSplits(c: seq<Entry>, e: Entry)
    requires StrictlySorted(c)
    ensures forall i | 0 <= i < |c| :: Less(c[i], e) <==> i < Cut(c, e)
    ensures forall i | Cut(c, e) <= i < |c| && c[i] != e :: Less(e, c[i])
  {
    forall i | Cut(c, e) <= i < |c|
      ensures !Less(c[i], e) && (c[i] != e ==> Less(e, c[i]))
    {
      var n := Cut(c, e);
      LessTotal(c[n], e);
      LessTotal(c[i], e);
      if n < i && Less(c[i], e) {
        LessTransitive(c[n], c[i], e);
      }
    }
  }

  /** An entry of the listing stands right at its own cut. */
  lemma CutOfMember(c: seq<Entry>, i: nat)
    requires StrictlySorted(c) && i < |c|
    ensures Cut(c, c[i]) == i
  {
    CutSplits(c, c[i]);
    LessTotal(c[i], c[i]);
  }

  lemma {:induction false} SamePrefix(c: seq<Entry>, d: seq<Entry>, m: map<Key, real>, i: nat)
    requires IsListing(c, m) && IsListing(d, m) && i < |c| && i < |d|
    ensures c[i] == d[i]
    decreases i
  {
    forall j | 0 <= j < i
      ensures c[j] == d[j]
    {
      SamePrefix(c, d, m, j);
    }
    assert c[i] in d && d[i] in c by {
      assert Entry(c[i].key, m[c[i].key]) == c[i] && Entry(d[i].key, m[d[i].key]) == d[i];
    }
    var j :| 0 <= j < |d| && d[j] == c[i];
    var k :| 0 <= k < |c| && c[k] == d[i];
    LessTotal(c[i], d[i]);
    LessTotal(c[i], c[i]);
    LessTotal(d[i], d[i]);
  }

  /** Sorting is unambiguous: a map has at most one listing. */
  lemma ListingUnique(c: seq<Entry>, d: seq<Entry>, m: map<Key, real>)
    requires IsListing(c, m) && IsListing(d, m)
    ensures c == d
  {
    forall i | 0 <= i < |c| && i < |d|
      ensures c[i] == d[i]
    {
      SamePrefix(c, d, m, i);
    }
    ListingLength(c, m);
    ListingLength(d, m);
  }

  lemma InsertKeepsSorted(c: seq<Entry>, e: Entry)
    requires StrictlySorted(c) && e !in c
    ensures StrictlySorted(InsertAt(c, Cut(c, e), e))
  {
    var n := Cut(c, e);
    var r := InsertAt(c, n, e);
    CutSplits(c, e);
    forall i, j | 0 <= i < j < |r|
      ensures Less(r[i], r[j])
    {
      if i != n && j != n {
        assert Less(c[if i < n then i else i - 1], c[if j < n then j else j - 1]);
      }
    }
  }

  lemma InsertKeepsMatching(c: seq<Entry>, m: map<Key, real>, n: nat, e: Entry)
    requires Matches(c, m) && e.key !in m && n <= |c|
    ensures Matches(InsertAt(c, n, e), m[e.key := e.score])
  {
    var r := InsertAt(c, n, e);
    assert r[n] == e;
    forall k | k in m
      ensures Entry(k, m[k]) in r
    {
      var i :| 0 <= i < |c| && c[i] == Entry(k, m[k]);
      assert r[if i < n then i else i + 1] == c[i];
    }
  }

  /** Adding an absent key puts its entry at the cut. */
  lemma ListingAfterInsert(c: seq<Entry>, m: map<Key, real>, e: Entry)
    requires IsListing(c, m) && e.key !in m
    ensures IsListing(InsertAt(c, Cut(c, e), e), m[e.key := e.score])
  {
    InsertKeepsMatching(c, m, Cut(c, e), e);
    InsertKeepsSorted(c, e);
  }

  /** Dropping a key takes exactly its entry out of the listing. */
  lemma ListingAfterRemove(c: seq<Entry>, m: map<Key, real>, d: nat)
    requires IsListing(c, m) && d < |c|
    ensures IsListing(RemoveAt(c, d), m - {c[d].key})
  {
    KeysAreDistinct(c, m);
    RemoveKeepsMatching(c, m, d);
  }

  lemma RemoveKeepsMatching(c: seq<Entry>, m: map<Key, real>, d: nat)
    requires Matches(c, m) && DistinctKeys(c) && d < |c|
    ensures Matches(RemoveAt(c, d), m - {c[d].key})
  {
    var r := RemoveAt(c, d);
    forall k | k in m - {c[d].key}
      ensures Entry(k, m[k]) in r
    {
      var i :| 0 <= i < |c| && c[i] == Entry(k, m[k]);
      assert r[if i < d then i else i - 1] == c[i];
    }
  }

  lemma KeysAreDistinct(c: seq<Entry>, m: map<Key, real>)
    requires IsListing(c, m)
    ensures DistinctKeys(c)
  {
    forall i, j | 0 <= i < j < |c|
      ensures c[i].key != c[j].key
    {
      assert Less(c[i], c[j]);
      LessTotal(c[i], c[i]);
    }
  }

  /** Rank and position are inverse to each other: the entry at position i of the listing has rank
      i + 1, so ranks run through 1..|m| and each is taken by exactly one key. */
  lemma RankIsPosition(c: seq<Entry>, m: map<Key, real>, i: nat)
    requires IsListing(c, m) && i < |c|
    ensures RankOf(m, c[i].key) == i + 1
  {
    CutOfMember(c, i);
    CutSplits(c, c[i]);
    KeysAreDistinct(c, m);
    PrefixKeys(c, i);
    var before := set j | 0 <= j < i :: c[j].key;
    assert Entry(c[i].key, m[c[i].key]) == c[i];
    forall k | k in SmallerKeys(m, c[i])
      ensures k in before
    {
      var j :| 0 <= j < |c| && c[j] == Entry(k, m[k]);
      assert j < i;
    }
    forall k | k in before
      ensures k in SmallerKeys(m, c[i])
    {
      var j :| 0 <= j < i && k == c[j].key;
      assert Less(c[j], c[i]) && c[j] == Entry(k, m[k]);
    }
    assert SmallerKeys(m, c[i]) == before;
  }

  lemma {:induction false} PrefixKeys(c: seq<Entry>, i: nat)
    requires DistinctKeys(c) && i <= |c|
    ensures |set j | 0 <= j < i :: c[j].key| == i
    decreases i
  {
    if i > 0 {
      PrefixKeys(c, i - 1);
      var before := set j | 0 <= j < i - 1 :: c[j].key;
      assert (set j | 0 <= j < i :: c[j].key) == before + {c[i - 1].key};
    }
  }

  /** The listing has one entry for each key. */
  lemma ListingLength(c: seq<Entry>, m: map<Key, real>)
    requires IsListing(c, m)
    ensures |c| == |m|
  {
    KeysAreDistinct(c, m);
    PrefixKeys(c, |c|);
    var keys := set j | 0 <= j < |c| :: c[j].key;
    forall k | k in m
      ensures k in keys
    {
      var i :| 0 <= i < |c| && c[i] == Entry(k, m[k]);
      assert c[i].key == k;
    }
    assert keys == m.Keys;
  }

  /** Each present key's rank leads back to its entry, counted from either end. */
  lemma EntryAtRank(c: seq<Entry>, m: map<Key, real>, key: Key)
    requires IsListing(c, m) && key in m
    ensures 1 <= RankOf(m, key) <= |m| == |c|
    ensures c[RankOf(m, key) - 1] == Entry(key, m[key])
    ensures var descending := |c| + 1 - RankOf(m, key); Reversed(c)[descending - 1] == Entry(key, m[key])
  {
    var i :| 0 <= i < |c| && c[i] == Entry(key, m[key]);
    RankIsPosition(c, m, i);
    ListingLength(c, m);
  }

  // ---- What the ranks mean in terms of scores and bytes ----

  lemma ListingByScore(c: seq<Entry>, i: nat, j: nat)
    requires StrictlySorted(c) && i < j < |c|
    ensures c[i].score <= c[j].score
    ensures c[i].score == c[j].score ==>
              exists p | 0 <= p <= |c[i].key| && p < |c[j].key| ::
                c[i].key[..p] == c[j].key[..p] && (p == |c[i].key| || c[i].key[p] < c[j].key[p])
  {
    assert Less(c[i], c[j]);
    LessMeans(c[i], c[j]);
  }

  /** A rank counts the keys with a smaller score, and among equal scores those that come before it
      bytewise. */
  lemma RankCounts(m: map<Key, real>, key: Key)
    requires key in m
    ensures RankOf(m, key) ==
            1 + |set k | k in m && (m[k] < m[key] || (m[k] == m[key] && exists p | 0 <= p <= |k| && p < |key| ::
                                                        k[..p] == key[..p] && (p == |k| || k[p] < key[p])))|
  {
    var before := set k | k in m && (m[k] < m[key] || (m[k] == m[key] && exists p | 0 <= p <= |k| && p < |key| ::
                                                         k[..p] == key[..p] && (p == |k| || k[p] < key[p])));
    forall k | k in m
      ensures k in before <==> k in SmallerKeys(m, Entry(key, m[key]))
    {
      LessMeans(Entry(k, m[k]), Entry(key, m[key]));
    }
    assert before == SmallerKeys(m, Entry(key, m[key]));
  }

  lemma RankGrows(m: map<Key, real>, a: Key, b: Key)
    requires a in m && b in m && Less(Entry(a, m[a]), Entry(b, m[b]))
    ensures RankOf(m, a) < RankOf(m, b)
  {
    var e, f := Entry(a, m[a]), Entry(b, m[b]);
    LessTotal(e, e);
    forall k | k in SmallerKeys(m, e)
      ensures k in SmallerKeys(m, f)
    {
      LessTransitive(Entry(k, m[k]), e, f);
    }
    SubsetSize(SmallerKeys(m, e) + {a}, SmallerKeys(m, f));
  }

  /** Of two keys the one with the smaller score has the smaller rank; with equal scores, the one that
      comes first bytewise. */
  lemma RankFollowsScore(m: map<Key, real>, a: Key, b: Key)
    requires a in m && b in m
    ensures m[a] < m[b] ==> RankOf(m, a) < RankOf(m, b)
    ensures m[a] == m[b] && (exists p | 0 <= p <= |a| && p < |b| :: a[..p] == b[..p] && (p == |a| || a[p] < b[p]))
            ==> RankOf(m, a) < RankOf(m, b)
  {
    LessMeans(Entry(a, m[a]), Entry(b, m[b]));
    if Less(Entry(a, m[a]), Entry(b, m[b])) {
      RankGrows(m, a, b);
    }
  }

  /** The entry is the map's, with fewer than rank keys of smaller score, and not fewer of at most its
      score. */
  ghost predicate RankedFromBelow(m: map<Key, real>, e: Entry, rank: int) {
    && e.key in m && m[e.key] == e.score
    && |set k | k in m && m[k] < e.score| < rank <= |set k | k in m && m[k] <= e.score|
  }

  ghost predicate RankedFromAbove(m: map<Key, real>, e: Entry, rank: int) {
    && e.key in m && m[e.key] == e.score
    && |set k | k in m && m[k] > e.score| < rank <= |set k | k in m && m[k] >= e.score|
  }

  lemma LowerStandBefore(c: seq<Entry>, m: map<Key, real>, i: nat)
    requires IsListing(c, m) && i < |c|
    ensures |set k | k in m && m[k] < c[i].score| <= i
  {
    var lower, before := set k | k in m && m[k] < c[i].score, set j | 0 <= j < i :: c[j].key;
    KeysAreDistinct(c, m);
    PrefixKeys(c, i);
    forall k | k in lower
      ensures k in before
    {
      var j :| 0 <= j < |c| && c[j] == Entry(k, m[k]);
      assert j < i;
    }
    SubsetSize(lower, before);
  }

  lemma UpToIsNotHigher(c: seq<Entry>, m: map<Key, real>, i: nat)
    requires IsListing(c, m) && i < |c|
    ensures i < |set k | k in m && m[k] <= c[i].score|
  {
    var upper, upTo := set k | k in m && m[k] <= c[i].score, set j | 0 <= j < i + 1 :: c[j].key;
    KeysAreDistinct(c, m);
    PrefixKeys(c, i + 1);
    forall k | k in upTo
      ensures k in upper
    {
      var j :| 0 <= j <= i && c[j].key == k;
      if j < i {
        ListingByScore(c, j, i);
      }
    }
    SubsetSize(upTo, upper);
  }

  /** The entry at a position has the keys of smaller score before it and only keys of at most its
      score up to it. */
  lemma PositionByScore(c: seq<Entry>, m: map<Key, real>, i: nat)
    requires IsListing(c, m) && i < |c|
    ensures RankedFromBelow(m, c[i], i + 1)
  {
    LowerStandBefore(c, m, i);
    UpToIsNotHigher(c, m, i);
  }

  lemma SplitCount(m: map<Key, real>, score: real)
    ensures |set k | k in m && m[k] < score| + |set k | k in m && m[k] >= score| == |m|
    ensures |set k | k in m && m[k] <= score| + |set k | k in m && m[k] > score| == |m|
  {
    var a, b := set k | k in m && m[k] < score, set k | k in m && m[k] >= score;
    var c, d := set k | k in m && m[k] <= score, set k | k in m && m[k] > score;
    assert a + b == m.Keys && c + d == m.Keys;
    assert |a + b| == |a| + |b| && |c + d| == |c| + |d|;
  }

  /** The same from the far end. */
  lemma PositionFromEnd(c: seq<Entry>, m: map<Key, real>, i: nat)
    requires IsListing(c, m) && i < |c|
    ensures RankedFromAbove(m, c[i], |c| - i)
  {
    PositionByScore(c, m, i);
    SplitCount(m, c[i].score);
    ListingLength(c, m);
  }

  /** A key that a prefix of the listing leaves out has no smaller score than any key in it. */
  lemma LeftOutIsLarger(c: seq<Entry>, m: map<Key, real>, n: nat, i: nat, k: Key)
    requires IsListing(c, m) && i < n <= |c| && k in m
    requires forall t | 0 <= t < n :: c[t].key != k
    ensures c[i].score <= m[k]
  {
    var j :| 0 <= j < |c| && c[j] == Entry(k, m[k]);
    ListingByScore(c, i, j);
  }

  lemma LeftOutIsSmaller(c: seq<Entry>, m: map<Key, real>, n: nat, i: nat, k: Key)
    requires IsListing(c, m) && i < n <= |c| && k in m
    requires forall t | 0 <= t < n :: Reversed(c)[t].key != k
    ensures m[k] <= Reversed(c)[i].score
  {
    var j :| 0 <= j < |c| && c[j] == Entry(k, m[k]);
    assert Reversed(c)[|c| - 1 - j] == c[j];
    ListingByScore(c, j, |c| - 1 - i);
  }

  /** What a prefix of the listing is, in terms of scores, bytes and the map. */
  lemma PrefixLaws(c: seq<Entry>, m: map<Key, real>, n: nat)
    requires IsListing(c, m) && n <= |c|
    ensures var r := c[..n];
            && (forall i | 0 <= i < |r| :: r[i].key in m && m[r[i].key] == r[i].score)
            && (forall i, j | 0 <= i < j < |r| :: r[i].score <= r[j].score)
            && (forall i, j | 0 <= i < j < |r| && r[i].score == r[j].score ::
                  exists p | 0 <= p <= |r[i].key| && p < |r[j].key| ::
                    r[i].key[..p] == r[j].key[..p] && (p == |r[i].key| || r[i].key[p] < r[j].key[p]))
            && (forall i, k | 0 <= i < |r| && k in m && (forall t | 0 <= t < |r| :: r[t].key != k) ::
                  r[i].score <= m[k])
  {
    var r := c[..n];
    forall i, j | 0 <= i < j < |r|
      ensures r[i].score <= r[j].score
      ensures r[i].score == r[j].score ==>
                exists p | 0 <= p <= |r[i].key| && p < |r[j].key| ::
                  r[i].key[..p] == r[j].key[..p] && (p == |r[i].key| || r[i].key[p] < r[j].key[p])
    {
      ListingByScore(c, i, j);
    }
    forall i, k | 0 <= i < |r| && k in m && (forall t | 0 <= t < |r| :: r[t].key != k)
      ensures r[i].score <= m[k]
    {
      assert forall t | 0 <= t < n :: c[t] == r[t];
      LeftOutIsLarger(c, m, n, i, k);
    }
  }

  /** The same for the reversed listing. */
  lemma ReversedPrefixLaws(c: seq<Entry>, m: map<Key, real>, n: nat)
    requires IsListing(c, m) && n <= |c|
    ensures var r := Reversed(c)[..n];
            && (forall i | 0 <= i < |r| :: r[i].key in m && m[r[i].key] == r[i].score)
            && (forall i, j | 0 <= i < j < |r| :: r[i].score >= r[j].score)
            && (forall i, j | 0 <= i < j < |r| && r[i].score == r[j].score ::
                  exists p | 0 <= p <= |r[j].key| && p < |r[i].key| ::
                    r[j].key[..p] == r[i].key[..p] && (p == |r[j].key| || r[j].key[p] < r[i].key[p]))
            && (forall i, k | 0 <= i < |r| && k in m && (forall t | 0 <= t < |r| :: r[t].key != k) ::
                  r[i].score >= m[k])
  {
    var r := Reversed(c)[..n];
    forall i, j | 0 <= i < j < |r|
      ensures r[i].score >= r[j].score
      ensures r[i].score == r[j].score ==>
                exists p | 0 <= p <= |r[j].key| && p < |r[i].key| ::
                  r[j].key[..p] == r[i].key[..p] && (p == |r[j].key| || r[j].key[p] < r[i].key[p])
    {
      ListingByScore(c, |c| - 1 - j, |c| - 1 - i);
    }
    forall i, k | 0 <= i < |r| && k in m && (forall t | 0 <= t < |r| :: r[t].key != k)
      ensures r[i].score >= m[k]
    {
      assert forall t | 0 <= t < n :: Reversed(c)[t] == r[t];
      LeftOutIsSmaller(c, m, n, i, k);
    }
  }
}
