/** The array with its in-place algorithms. The Go slice is kept as it is: a backing buffer, an
    offset and a length; removing at an end moves the bounds, removing inside shifts the elements. */
module CArray {
  import opened FiniteSets
  import opened Options
  import opened Sequences

  function Swapped<T>(s: seq<T>, i: nat, j: nat): (r: seq<T>)
    requires i < |s| && j < |s|
    ensures |r| == |s|
    ensures forall k {:trigger r[k]} | 0 <= k < |r| :: r[k] == if k == i then s[j] else if k == j then s[i] else s[k]
  {
    seq(|s|, k requires 0 <= k < |s| => if k == i then s[j] else if k == j then s[i] else s[k])
  }

  lemma SwapKeepsMultiset<T>(s: seq<T>, i: nat, j: nat, t: seq<T>)
    requires i < |s| && j < |s| && t == Swapped(s, i, j)
    ensures multiset(t) == multiset(s)
  {
    assert t == s[i := s[j]][j := s[i]];
  }

  /** Moving an element from one sequence to the other loses and makes up nothing. */
  lemma MoveKeepsMultiset<T>(s: seq<T>, i: nat, popped: seq<T>)
    requires i < |s|
    ensures multiset(RemoveAt(s, i)) + multiset(popped + [s[i]]) == multiset(s) + multiset(popped)
  {
    assert s == s[..i] + [s[i]] + s[i + 1..];
    assert RemoveAt(s, i) == s[..i] + s[i + 1..];
  }

  /** The outer i elements on either side have changed places. */
  ghost predicate HalfReversed<T>(c: seq<T>, was: seq<T>, i: nat) {
    && |c| == |was|
    && forall k {:trigger c[k]} | 0 <= k < |c| :: c[k] == if i <= k < |c| - i then was[k] else was[|c| - 1 - k]
  }

  lemma SwapReversesMore<T>(c: seq<T>, was: seq<T>, i: nat)
    requires HalfReversed(c, was, i) && 2 * i + 1 < |c|
    ensures HalfReversed(Swapped(c, i, |c| - 1 - i), was, i + 1)
  {
  }

  // ---- Unique ----

  /** s without the occurrences of x. */
  function Without<T(==)>(s: seq<T>, x: T): seq<T> {
    if s == [] then []
    else if s[0] == x then Without(s[1..], x)
    else [s[0]] + Without(s[1..], x)
  }

  lemma {:induction false} WithoutShrinks<T>(s: seq<T>, x: T)
    ensures |Without(s, x)| <= |s|
    ensures forall y :: y in Without(s, x) <==> y in s && y != x
  {
    if s != [] {
      WithoutShrinks(s[1..], x);
    }
  }

  /** The first occurrence of every value, in order. */
  function FirstOccurrences<T(==)>(s: seq<T>): seq<T>
    decreases |s|
  {
    if s == [] then []
    else
      WithoutShrinks(s[1..], s[0]);
      [s[0]] + FirstOccurrences(Without(s[1..], s[0]))
  }

  function FirstIndex<T(==)>(s: seq<T>, x: T): (i: nat)
    requires x in s
    ensures i < |s| && s[i] == x && x !in s[..i]
  {
    if s[0] == x then 0 else 1 + FirstIndex(s[1..], x)
  }

  /** Leaving a third value out does not change which of two values comes first. */
  lemma {:induction false} WithoutKeepsOrder<T>(s: seq<T>, x: T, a: T, b: T)
    requires a in Without(s, x) && b in Without(s, x)
    requires FirstIndex(Without(s, x), a) < FirstIndex(Without(s, x), b)
    ensures a in s && b in s && FirstIndex(s, a) < FirstIndex(s, b)
  {
    WithoutShrinks(s, x);
    if s[0] == x || (s[0] != a && s[0] != b) {
      WithoutKeepsOrder(s[1..], x, a, b);
    }
  }

  /** Unique loses no value and adds none. */
  lemma {:induction false} FirstOccurrencesKeep<T>(s: seq<T>, x: T)
    ensures x in FirstOccurrences(s) <==> x in s
    decreases |s|
  {
    if s != [] {
      var rest := Without(s[1..], s[0]);
      WithoutShrinks(s[1..], s[0]);
      FirstOccurrencesKeep(rest, x);
      assert FirstOccurrences(s) == [s[0]] + FirstOccurrences(rest);
      assert s == [s[0]] + s[1..];
    }
  }

  /** What Unique leaves has every value once, in the order in which the values first occurred. */
  lemma {:induction false} FirstOccurrencesInOrder<T>(s: seq<T>, i: nat, j: nat)
    requires i < j < |FirstOccurrences(s)|
    ensures var r := FirstOccurrences(s);
            r[i] in s && r[j] in s && FirstIndex(s, r[i]) < FirstIndex(s, r[j])
    decreases |s|
  {
    var rest := Without(s[1..], s[0]);
    WithoutShrinks(s[1..], s[0]);
    var r, later := FirstOccurrences(s), FirstOccurrences(rest);
    assert r == [s[0]] + later;
    FirstOccurrencesKeep(rest, later[j - 1]);
    if i > 0 {
      FirstOccurrencesKeep(rest, later[i - 1]);
      FirstOccurrencesInOrder(rest, i - 1, j - 1);
      WithoutKeepsOrder(s[1..], s[0], r[i], r[j]);
    }
  }

  /** Unique's inner loop has got to j: up to there the repeats of the element at i are gone. */
  ghost predicate DroppedUpTo<T>(c: seq<T>, was: seq<T>, i: nat, j: nat) {
    && i < j <= |c| <= |was|
    && c[..i + 1] == was[..i + 1]
    && c[i + 1..j] + Without(c[j..], was[i]) == Without(was[i + 1..], was[i])
  }

  lemma DropRepeat<T>(c: seq<T>, was: seq<T>, i: nat, j: nat)
    requires DroppedUpTo(c, was, i, j) && j < |c| && c[j] == was[i]
    ensures DroppedUpTo(RemoveAt(c, j), was, i, j)
  {
    var c' := RemoveAt(c, j);
    assert c'[..i + 1] == c[..i + 1];
    assert c'[i + 1..j] == c[i + 1..j];
    assert c'[j..] == c[j..][1..];
  }

  lemma PassOver<T>(c: seq<T>, was: seq<T>, i: nat, j: nat)
    requires DroppedUpTo(c, was, i, j) && j < |c| && c[j] != was[i]
    ensures DroppedUpTo(c, was, i, j + 1)
  {
    assert c[j + 1..] == c[j..][1..];
    assert c[i + 1..j + 1] == c[i + 1..j] + [c[j]];
  }

  lemma AllDropped<T>(c: seq<T>, was: seq<T>, i: nat)
    requires DroppedUpTo(c, was, i, |c|)
    ensures c == was[..i + 1] + Without(was[i + 1..], was[i])
  {
    assert c == c[..i + 1] + c[i + 1..];
  }

  /** Unique's outer loop has got to i: the first i elements are final. */
  ghost predicate UniqueUpTo<T>(c: seq<T>, was: seq<T>, i: nat) {
    i <= |c| && c[..i] + FirstOccurrences(c[i..]) == FirstOccurrences(was)
  }

  lemma UniqueStep<T>(c: seq<T>, was: seq<T>, i: nat, c': seq<T>)
    requires UniqueUpTo(c, was, i) && i < |c|
    requires c' == c[..i + 1] + Without(c[i + 1..], c[i])
    ensures UniqueUpTo(c', was, i + 1)
  {
    assert c[i..][1..] == c[i + 1..];
    assert c'[..i + 1] == c[..i] + [c[i]];
    assert c'[i + 1..] == Without(c[i + 1..], c[i]);
  }

  lemma UniqueDone<T>(c: seq<T>, was: seq<T>, i: nat)
    requires UniqueUpTo(c, was, i) && |c| <= i + 1
    ensures c == FirstOccurrences(was)
  {
    assert c == c[..i] + c[i..];
    var last := c[i..];
    assert FirstOccurrences(last) == last by {
      if last != [] {
        assert last[1..] == [] && last == [last[0]];
        assert Without<T>([], last[0]) == [] && FirstOccurrences<T>([]) == [];
      }
    }
  }

  // ---- PopRands ----

  /** a is the elements of b at the positions p, which are in order. */
  ghost predicate Selects<T>(a: seq<T>, b: seq<T>, p: seq<nat>) {
    && |p| == |a|
    && (forall i | 0 <= i < |a| :: p[i] < |b| && a[i] == b[p[i]])
    && (forall i, j | 0 <= i < j < |p| :: p[i] < p[j])
  }

  /** What is left and what has been popped make up the original. */
  ghost predicate Accounted<T>(c: seq<T>, popped: seq<T>, was: seq<T>, p: seq<nat>) {
    Selects(c, was, p) && multiset(c) + multiset(popped) == multiset(was)
  }

  lemma PopKeepsAccount<T>(c: seq<T>, popped: seq<T>, was: seq<T>, p: seq<nat>, k: nat)
    requires Accounted(c, popped, was, p) && k < |c|
    ensures Accounted(RemoveAt(c, k), popped + [c[k]], was, RemoveAt(p, k))
  {
    MoveKeepsMultiset(c, k, popped);
  }

  // ---- Shuffle ----

  ghost predicate IsPermutation(perm: seq<nat>) {
    && (forall i | 0 <= i < |perm| :: perm[i] < |perm|)
    && (forall i, j | 0 <= i < j < |perm| :: perm[i] != perm[j])
  }

  /** The first n swaps of a shuffle that has drawn perm. */
  ghost function SwapAll<T>(s: seq<T>, perm: seq<nat>, n: nat): (r: seq<T>)
    requires n <= |perm| == |s| && forall i | 0 <= i < |perm| :: perm[i] < |s|
    ensures |r| == |s|
  {
    if n == 0 then s else Swapped(SwapAll(s, perm, n - 1), n - 1, perm[n - 1])
  }

  lemma OneSwapKeepsMultiset<T>(s: seq<T>, perm: seq<nat>, n: nat)
    requires 0 < n <= |perm| == |s| && forall i | 0 <= i < |perm| :: perm[i] < |s|
    ensures multiset(SwapAll(s, perm, n)) == multiset(SwapAll(s, perm, n - 1))
  {
    SwapKeepsMultiset(SwapAll(s, perm, n - 1), n - 1, perm[n - 1], SwapAll(s, perm, n));
  }

  /** Shuffling only rearranges, whatever has been drawn. */
  lemma {:induction false} SwapAllKeepsMultiset<T>(s: seq<T>, perm: seq<nat>, n: nat)
    requires n <= |perm| == |s| && forall i | 0 <= i < |perm| :: perm[i] < |s|
    ensures multiset(SwapAll(s, perm, n)) == multiset(s)
  {
    if n > 0 {
      SwapAllKeepsMultiset(s, perm, n - 1);
      OneSwapKeepsMultiset(s, perm, n);
    }
  }

  ghost predicate IsInvolution(perm: seq<nat>) {
    IsPermutation(perm) && forall i {:trigger perm[i]} | 0 <= i < |perm| :: perm[perm[i]] == i
  }

  /** A pair that perm exchanges is apart only between its first and its second swap. */
  lemma {:induction false} PairsSwapTwice<T>(s: seq<T>, perm: seq<nat>, n: nat, k: nat)
    requires n <= |perm| == |s| && IsInvolution(perm) && k < |s|
    ensures SwapAll(s, perm, n)[k]
            == if (k < n <= perm[k]) || (perm[k] < n <= k) then s[perm[k]] else s[k]
  {
    if n > 0 {
      PairsSwapTwice(s, perm, n - 1, k);
      PairsSwapTwice(s, perm, n - 1, perm[k]);
    }
  }

  /** A draw that only exchanges pairs leaves the array as it was. */
  lemma InvolutionsShuffleNothing<T>(s: seq<T>, perm: seq<nat>)
    requires |perm| == |s| && IsInvolution(perm)
    ensures SwapAll(s, perm, |s|) == s
  {
    forall k | 0 <= k < |s|
      ensures SwapAll(s, perm, |s|)[k] == s[k]
    {
      PairsSwapTwice(s, perm, |s|, k);
    }
  }

  ghost function Identity(n: nat): (p: seq<nat>)
    ensures |p| == n && IsInvolution(p)
    ensures n >= 2 ==> IsInvolution(p[0 := 1][1 := 0])
  {
    var p: seq<nat> := seq(n, i => i);
    assert forall i | 0 <= i < n :: p[i] == i;
    p
  }

  /** Shuffle is not fair: exactly from two elements on, different draws give the same arrangement,
      whatever the elements are. */
  lemma ShuffleIsNotFair<T>(s: seq<T>)
    ensures |s| >= 2
            <==> exists p, q ::
                   && |p| == |q| == |s| && p != q && IsPermutation(p) && IsPermutation(q)
                   && SwapAll(s, p, |s|) == SwapAll(s, q, |s|)
  {
    if |s| >= 2 {
      var p, q := Identity(|s|), Identity(|s|)[0 := 1][1 := 0];
      InvolutionsShuffleNothing(s, p);
      InvolutionsShuffleNothing(s, q);
      assert p[0] != q[0];
    } else {
      forall p, q | |p| == |q| == |s| && IsPermutation(p) && IsPermutation(q)
        ensures p == q
      {
        assert |s| == 1 ==> p[0] < 1 && q[0] < 1;
      }
    }
  }

  /** s with the element at q[i] brought to i. */
  ghost function Arranged<T>(s: seq<T>, q: seq<nat>): (r: seq<T>)
    requires |q| == |s| && IsPermutation(q)
  {
    seq(|q|, i requires 0 <= i < |q| => s[q[i]])
  }

  lemma SwapKeepsPermutation(q: seq<nat>, i: nat, j: nat)
    requires IsPermutation(q) && i < |q| && j < |q|
    ensures IsPermutation(Swapped(q, i, j))
  {
  }

  lemma SwapArranged<T>(s: seq<T>, q: seq<nat>, i: nat, j: nat)
    requires |q| == |s| && IsPermutation(q) && i < |s| && j < |s|
    requires IsPermutation(Swapped(q, i, j))
    ensures Swapped(Arranged(s, q), i, j) == Arranged(s, Swapped(q, i, j))
  {
  }

  /** What a draw does to the positions it does to the elements. */
  lemma {:induction false} SwapAllArranges<T>(s: seq<T>, perm: seq<nat>, n: nat)
    requires n <= |perm| == |s| && IsPermutation(perm)
    ensures IsPermutation(SwapAll(Identity(|s|), perm, n))
    ensures SwapAll(s, perm, n) == Arranged(s, SwapAll(Identity(|s|), perm, n))
  {
    if n > 0 {
      SwapAllArranges(s, perm, n - 1);
      SwapKeepsPermutation(SwapAll(Identity(|s|), perm, n - 1), n - 1, perm[n - 1]);
      SwapArranged(s, SwapAll(Identity(|s|), perm, n - 1), n - 1, perm[n - 1]);
    } else {
      assert forall k | 0 <= k < |s| :: Arranged(s, Identity(|s|))[k] == s[k];
    }
  }

  lemma ArrangedDiffer<T>(s: seq<T>, q: seq<nat>, r: seq<nat>)
    requires |q| == |r| == |s| && IsPermutation(q) && IsPermutation(r)
    requires forall i, j | 0 <= i < j < |s| :: s[i] != s[j]
    requires Arranged(s, q) == Arranged(s, r)
    ensures q == r
  {
    forall k | 0 <= k < |q|
      ensures q[k] == r[k]
    {
      assert Arranged(s, q)[k] == s[q[k]] && Arranged(s, r)[k] == s[r[k]];
    }
  }

  /** All words of length n over the numbers below m. */
  ghost function Words(n: nat, m: nat): set<seq<nat>> {
    if n == 0 then {[]} else set p, x: nat | p in Words(n - 1, m) && x < m :: p + [x]
  }

  lemma {:induction false} WordsHas(p: seq<nat>, m: nat)
    requires forall i | 0 <= i < |p| :: p[i] < m
    ensures p in Words(|p|, m)
  {
    if p != [] {
      var q := p[..|p| - 1];
      WordsHas(q, m);
      assert p == q + [p[|p| - 1]];
    }
  }

  /** The arrangement of the positions for each draw. */
  ghost function Outcomes(n: nat): (m: map<seq<nat>, seq<nat>>)
    ensures forall p | |p| == n && IsPermutation(p) :: p in m
    ensures forall p | p in m :: |p| == n && IsPermutation(p) && m[p] == SwapAll(Identity(n), p, n)
  {
    assert forall p: seq<nat> | |p| == n && IsPermutation(p) :: p in Words(n, n) by {
      forall p: seq<nat> | |p| == n && IsPermutation(p)
        ensures p in Words(n, n)
      {
        WordsHas(p, n);
      }
    }
    map p | p in Words(n, n) && |p| == n && IsPermutation(p) :: SwapAll(Identity(n), p, n)
  }

  lemma NotAnOutcome<T>(s: seq<T>, q: seq<nat>, p: seq<nat>)
    requires forall i, j | 0 <= i < j < |s| :: s[i] != s[j]
    requires |q| == |p| == |s| && IsPermutation(q) && IsPermutation(p) && q !in Outcomes(|s|).Values
    ensures SwapAll(s, p, |s|) != Arranged(s, q)
  {
    SwapAllArranges(s, p, |s|);
    assert p in Outcomes(|s|);
    if SwapAll(s, p, |s|) == Arranged(s, q) {
      ArrangedDiffer(s, SwapAll(Identity(|s|), p, |s|), q);
    }
  }

  lemma SomeNoOutcome(n: nat)
    requires n >= 2
    ensures exists q :: |q| == n && IsPermutation(q) && q !in Outcomes(n).Values
  {
    ShuffleIsNotFair(Identity(n));
    var a, b :| && |a| == |b| == n && a != b && IsPermutation(a) && IsPermutation(b)
                && SwapAll(Identity(n), a, n) == SwapAll(Identity(n), b, n);
    CollisionMisses(Outcomes(n), a, b);
  }

  ghost predicate NeverComesUp<T>(s: seq<T>, q: seq<nat>)
    requires |q| == |s| && IsPermutation(q)
  {
    forall p | |p| == |s| && IsPermutation(p) :: SwapAll(s, p, |s|) != Arranged(s, q)
  }

  /** Exactly from two elements on, some arrangement of distinct elements comes up for no draw. */
  lemma SomeNeverComesUp<T>(s: seq<T>)
    requires forall i, j | 0 <= i < j < |s| :: s[i] != s[j]
    ensures |s| >= 2 <==> exists q :: |q| == |s| && IsPermutation(q) && NeverComesUp(s, q)
  {
    if |s| >= 2 {
      SomeNoOutcome(|s|);
      var q :| |q| == |s| && IsPermutation(q) && q !in Outcomes(|s|).Values;
      forall p | |p| == |s| && IsPermutation(p)
        ensures SwapAll(s, p, |s|) != Arranged(s, q)
      {
        NotAnOutcome(s, q, p);
      }
      assert NeverComesUp(s, q);
    } else {
      forall q | |q| == |s| && IsPermutation(q)
        ensures !NeverComesUp(s, q)
      {
        assert |s| == 1 ==> q[0] < 1;
        assert SwapAll(s, q, |s|) == Arranged(s, q);
      }
    }
  }

  /** Draws that pass three positions round do change the array: of the three elements the last two
      change places. */
  lemma {:induction false} RoundOfThree<T>(s: seq<T>, perm: seq<nat>, n: nat)
    requires 3 <= n <= |perm| == |s| && IsPermutation(perm)
    requires perm[..3] == [1, 2, 0] && forall k | 3 <= k < |perm| :: perm[k] == k
    ensures SwapAll(s, perm, n) == s[1 := s[2]][2 := s[1]]
  {
    assert perm[0] == perm[..3][0] == 1 && perm[1] == perm[..3][1] == 2 && perm[2] == perm[..3][2] == 0;
    if n > 3 {
      RoundOfThree(s, perm, n - 1);
    } else {
      var a := Swapped(s, 0, 1);
      assert SwapAll(s, perm, 0) == s && SwapAll(s, perm, 1) == a;
      assert SwapAll(s, perm, 2) == Swapped(a, 1, 2);
    }
  }

  lemma RoundIsDrawn(n: nat) returns (p: seq<nat>)
    requires n >= 3
    ensures |p| == n && IsPermutation(p) && p[..3] == [1, 2, 0] && forall k | 3 <= k < |p| :: p[k] == k
  {
    p := [1, 2, 0] + seq(n - 3, i => i + 3);
    assert forall i | 3 <= i < n :: p[i] == i;
  }

  lemma FewNeverChange<T>(s: seq<T>, perm: seq<nat>)
    requires |perm| == |s| < 3 && IsPermutation(perm)
    ensures SwapAll(s, perm, |s|) == s
  {
    if |s| == 2 {
      TwoAreNeverShuffled(s, perm);
    } else if |s| == 1 {
      assert perm[0] < 1;
      assert SwapAll(s, perm, 0) == s;
    }
  }

  /** Exactly from three elements on, some draw changes an array of distinct elements. */
  lemma ShuffleCanChange<T>(s: seq<T>)
    requires forall i, j | 0 <= i < j < |s| :: s[i] != s[j]
    ensures |s| >= 3 <==> exists p :: |p| == |s| && IsPermutation(p) && SwapAll(s, p, |s|) != s
  {
    if |s| >= 3 {
      var p := RoundIsDrawn(|s|);
      RoundOfThree(s, p, |s|);
      assert SwapAll(s, p, |s|)[1] == s[2];
    } else {
      forall p | |p| == |s| && IsPermutation(p)
        ensures SwapAll(s, p, |s|) == s
      {
        FewNeverChange(s, p);
      }
    }
  }

  /** In particular an array of two elements is never shuffled. */
  lemma TwoAreNeverShuffled<T>(s: seq<T>, perm: seq<nat>)
    requires |perm| == |s| == 2 && IsPermutation(perm)
    ensures SwapAll(s, perm, 2) == s
  {
    assert perm[0] < 2 && perm[1] < 2 && perm[0] != perm[1];
    assert perm == [0, 1] || perm == [1, 0];
    InvolutionsShuffleNothing(s, perm);
  }

  class Array<T(==)> {
    var buffer: array<T>
    var offset: nat
    var length: nat

    ghost predicate Valid()
      reads this
    {
      offset + length <= buffer.Length
    }

    ghost function Contents(): (s: seq<T>)
      requires Valid()
      reads this, buffer
      ensures |s| == length
    {
      buffer[offset..offset + length]
    }

    constructor (a: array<T>)
      ensures Valid() && Contents() == a[..] && buffer == a
    {
      buffer, offset, length := a, 0, a.Length;
    }

    /** Appending what follows the index to what precedes it moves the tail down by one. */
    method CutOut(index: nat)
      requires Valid() && index < length
      modifies buffer, this`length
      ensures Valid() && length == old(length) - 1
      ensures Contents() == RemoveAt(old(Contents()), index)
    {
      forall k | offset + index <= k < offset + length - 1 {
        buffer[k] := buffer[k + 1];
      }
      length := length - 1;
      ghost var was := old(Contents());
      forall k | 0 <= k < length
        ensures Contents()[k] == RemoveAt(was, index)[k]
      {
        assert Contents()[k] == buffer[offset + k];
      }
    }

    /** Removes one element by index; the others keep their order. */
    method DoRemove(index: int) returns (r: Option<T>)
      requires Valid()
      modifies this`offset, this`length, buffer
      ensures Valid()
      ensures r.Some? <==> 0 <= index < old(length)
      ensures r.Some? ==> r.value == old(Contents())[index] && Contents() == RemoveAt(old(Contents()), index)
      ensures r.None? ==> Contents() == old(Contents())
    {
      if index < 0 || index >= length {
        return None;
      }
      r := Some(buffer[offset + index]);
      if index == 0 {
        offset, length := offset + 1, length - 1;
      } else if index == length - 1 {
        length := length - 1;
      } else {
        CutOut(index);
      }
    }

    method RandIntn(n: nat) returns (i: nat)
      requires n > 0
      ensures i < n
    {
      i :| i < n;
    }

    /** The body of PopRands' loop keeps the account. */
    method PopRound(popped: seq<T>, ghost was: seq<T>, ghost p: seq<nat>) returns (popped': seq<T>, ghost p': seq<nat>)
      requires Valid() && length > 0 && Accounted(Contents(), popped, was, p)
      modifies this`offset, this`length, buffer
      ensures Valid() && length == old(length) - 1 && |popped'| == |popped| + 1
      ensures Accounted(Contents(), popped', was, p')
    {
      var k := RandIntn(length);
      PopKeepsAccount(Contents(), popped, was, p, k);
      var r := DoRemove(k);
      p' := RemoveAt(p, k);
      popped' := popped + [r.value];
    }

    /** Takes random elements out: as many as asked for and there are, none lost, none made up, and
        those that stay keep their order. */
    method PopRands(size: int) returns (popped: seq<T>)
      requires Valid()
      modifies this`offset, this`length, buffer
      ensures Valid()
      ensures |popped| == if size <= 0 then 0 else if size >= old(length) then old(length) else size
      ensures multiset(Contents()) + multiset(popped) == multiset(old(Contents()))
      ensures exists p :: Selects(Contents(), old(Contents()), p)
    {
      ghost var was := Contents();
      ghost var p: seq<nat> := seq(|was|, i => i);
      popped := [];
      assert Accounted(was, popped, was, p);
      if size <= 0 || length == 0 {
        return;
      }
      var n := if size >= length then length else size;
      for i := 0 to n
        invariant Valid() && |popped| == i && length == |was| - i
        invariant Accounted(Contents(), popped, was, p)
      {
        popped, p := PopRound(popped, was, p);
      }
    }

    /** Keeps the first occurrence of every value and deletes the others in place. */
    method Unique()
      requires Valid()
      modifies buffer, this`length
      ensures Valid() && Contents() == FirstOccurrences(old(Contents()))
    {
      ghost var was := Contents();
      var i: nat := 0;
      while i < length - 1
        invariant Valid() && UniqueUpTo(Contents(), was, i)
        decreases length - i
      {
        ghost var c := Contents();
        DropRepeats(i);
        UniqueStep(c, was, i, Contents());
        i := i + 1;
      }
      UniqueDone(Contents(), was, i);
    }

    /** Deleting the repeat at j keeps the inner loop's invariant. */
    method CutRepeat(ghost i: nat, j: nat, ghost was: seq<T>)
      requires Valid() && DroppedUpTo(Contents(), was, i, j) && j < length && Contents()[j] == was[i]
      modifies buffer, this`length
      ensures Valid() && length == old(length) - 1 && DroppedUpTo(Contents(), was, i, j)
    {
      DropRepeat(Contents(), was, i, j);
      CutOut(j);
    }

    /** Unique's inner loop: the element at i disappears from everything behind it. */
    method DropRepeats(i: nat)
      requires Valid() && i < length
      modifies buffer, this`length
      ensures Valid() && i < length <= old(length)
      ensures Contents() == old(Contents())[..i + 1] + Without(old(Contents())[i + 1..], old(Contents())[i])
    {
      ghost var was := Contents();
      var j: nat := i + 1;
      while j < length
        invariant Valid() && DroppedUpTo(Contents(), was, i, j)
        decreases length - j
      {
        ghost var c := Contents();
        assert c[i] == c[..i + 1][i] == was[i];
        assert c[i] == buffer[offset + i] && c[j] == buffer[offset + j];
        if buffer[offset + i] == buffer[offset + j] {
          CutRepeat(i, j, was);
        } else {
          PassOver(c, was, i, j);
          j := j + 1;
        }
      }
      AllDropped(Contents(), was, i);
    }

    method Swap(i: nat, j: nat)
      requires Valid() && i < length && j < length
      modifies buffer
      ensures Contents() == Swapped(old(Contents()), i, j)
    {
      buffer[offset + i], buffer[offset + j] := buffer[offset + j], buffer[offset + i];
    }

    method RandPerm(n: nat) returns (perm: seq<nat>)
      ensures |perm| == n && IsPermutation(perm)
    {
      var identity: seq<nat> := seq(n, i => i);
      assert |identity| == n && IsPermutation(identity);
      perm :| && |perm| == n
              && (forall i | 0 <= i < n :: perm[i] < n)
              && (forall i, j | 0 <= i < j < n :: perm[i] != perm[j]);
    }

    /** Swaps its way through a random permutation. */
    method Shuffle() returns (ghost perm: seq<nat>)
      requires Valid()
      modifies buffer
      ensures |perm| == length && IsPermutation(perm)
      ensures Contents() == SwapAll(old(Contents()), perm, length)
      ensures multiset(Contents()) == multiset(old(Contents()))
    {
      var drawn := RandPerm(length);
      perm := drawn;
      for i := 0 to length
        invariant Contents() == SwapAll(old(Contents()), drawn, i)
      {
        Swap(i, drawn[i]);
      }
      SwapAllKeepsMultiset(old(Contents()), perm, length);
    }

    /** Reverses in place. */
    method Reverse()
      requires Valid()
      modifies buffer
      ensures Contents() == Reversed(old(Contents()))
    {
      ghost var was := Contents();
      var i, j := 0, length - 1;
      while i < j
        invariant 0 <= i <= length && j == length - 1 - i
        invariant HalfReversed(Contents(), was, i)
        decreases j - i
      {
        SwapReversesMore(Contents(), was, i);
        Swap(i, j);
        i, j := i + 1, j - 1;
      }
    }
  }
}
