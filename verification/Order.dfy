/** Go strings as byte sequences with their bytewise order, and the order of the ranked set:
    by score first, by key among equal scores. */
module Order {

  newtype Byte = b: int | 0 <= b < 256

  type Key = seq<Byte>

  /** The exported pair of key and score. */
  datatype Entry = Entry(key: Key, score: real)

  /** The value that Go gives an unset Node variable. */
  const ZERO_ENTRY := Entry([], 0.0)

  predicate KeyLess(a: Key, b: Key) {
    b != [] && (a == [] || a[0] < b[0] || (a[0] == b[0] && KeyLess(a[1..], b[1..])))
  }

  predicate Less(a: Entry, b: Entry) {
    a.score < b.score || (a.score == b.score && KeyLess(a.key, b.key))
  }

  /** The key order is Go's order of strings: the first byte that differs decides, or the shorter key
      is a proper prefix. */
  lemma {:induction false} KeyLessIsBytewise(a: Key, b: Key)
    ensures KeyLess(a, b) <==>
            exists p | 0 <= p <= |a| && p < |b| :: a[..p] == b[..p] && (p == |a| || a[p] < b[p])
  {
    if b == [] {
    } else if a == [] || a[0] != b[0] {
      assert a[..0] == b[..0];
      forall p | 0 < p <= |a| && p < |b|
        ensures a[..p] != b[..p]
      {
        assert a[..p][0] == a[0] && b[..p][0] == b[0];
      }
    } else {
      KeyLessIsBytewise(a[1..], b[1..]);
      forall p | 0 < p <= |a| && p < |b|
        ensures a[..p] == b[..p] <==> a[1..][..p - 1] == b[1..][..p - 1]
      {
        assert a[..p] == [a[0]] + a[1..][..p - 1] && b[..p] == [b[0]] + b[1..][..p - 1];
      }
      if KeyLess(a, b) {
        var p :| && 0 <= p <= |a[1..]| && p < |b[1..]| && a[1..][..p] == b[1..][..p]
                 && (p == |a[1..]| || a[1..][p] < b[1..][p]);
        assert a[..p + 1] == b[..p + 1];
      }
    }
  }

  /** The score decides; among equal scores the keys do, bytewise. */
  lemma LessMeans(a: Entry, b: Entry)
    ensures Less(a, b) <==>
            || a.score < b.score
            || (a.score == b.score && exists p | 0 <= p <= |a.key| && p < |b.key| ::
                  a.key[..p] == b.key[..p] && (p == |a.key| || a.key[p] < b.key[p]))
  {
    KeyLessIsBytewise(a.key, b.key);
  }

  lemma {:induction false} KeyLessTotal(a: Key, b: Key)
    ensures a == b || KeyLess(a, b) || KeyLess(b, a)
    ensures !(KeyLess(a, b) && KeyLess(b, a))
  {
    if a != [] && b != [] && a[0] == b[0] {
      KeyLessTotal(a[1..], b[1..]);
      assert a == [a[0]] + a[1..] && b == [b[0]] + b[1..];
    }
  }

  lemma {:induction false} KeyLessTransitive(a: Key, b: Key, c: Key)
    requires KeyLess(a, b) && KeyLess(b, c)
    ensures KeyLess(a, c)
  {
    if a != [] && a[0] == b[0] == c[0] {
      KeyLessTransitive(a[1..], b[1..], c[1..]);
    }
  }

  /** The comparison written out in the source is a strict total order on entries. */
  lemma LessTotal(a: Entry, b: Entry)
    ensures a == b || Less(a, b) || Less(b, a)
    ensures !(Less(a, b) && Less(b, a))
    ensures !Less(a, a)
  {
    KeyLessTotal(a.key, b.key);
    KeyLessTotal(a.key, a.key);
  }

  lemma LessTransitive(a: Entry, b: Entry, c: Entry)
    requires Less(a, b) && Less(b, c)
    ensures Less(a, c)
  {
    if a.score == b.score == c.score {
      KeyLessTransitive(a.key, b.key, c.key);
    }
  }
}
