/** Sizes of finite sets and of the images of finite maps. */
module FiniteSets {

  lemma {:induction false} SubsetSize<T>(a: set<T>, b: set<T>)
    requires a <= b
    ensures |a| <= |b|
  {
    if a != {} {
      var x :| x in a;
      SubsetSize(a - {x}, b - {x});
    }
  }

  lemma {:induction false} ImageSize<X, Y>(m: map<X, Y>)
    ensures |m.Values| <= |m|
  {
    if m != map[] {
      var x :| x in m;
      var rest := m - {x};
      ImageSize(rest);
      assert m.Values == rest.Values + {m[x]} by {
        forall y | y in m.Values
          ensures y in rest.Values + {m[x]}
        {
          var k :| k in m && m[k] == y;
          assert k != x ==> k in rest && rest[k] == y;
        }
      }
      assert |m| == |rest| + 1 by {
        assert m.Keys == rest.Keys + {x};
      }
    }
  }

  /** A map that takes two keys to the same value misses one of its keys as a value. */
  lemma CollisionMisses<X>(m: map<X, X>, a: X, b: X)
    requires a in m && b in m && a != b && m[a] == m[b]
    ensures exists z :: z in m && z !in m.Values
  {
    var rest := m - {a};
    ImageSize(rest);
    assert m.Values == rest.Values by {
      forall y | y in m.Values
        ensures y in rest.Values
      {
        var k :| k in m && m[k] == y;
        assert (if k == a then b else k) in rest && rest[if k == a then b else k] == y;
      }
    }
    assert m.Keys == rest.Keys + {a};
    assert |m.Values| < |m.Keys|;
    if forall z :: z in m ==> z in m.Values {
      SubsetSize(m.Keys, m.Values);
    }
  }
}
