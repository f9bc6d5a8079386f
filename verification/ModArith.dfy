/** Powers and remainders over the unbounded integers. */
module ModArith {

  function Pow(a: nat, e: nat): nat {
    if e == 0 then 1 else a * Pow(a, e - 1)
  }

  predicate SameRemainder(x: int, y: int, n: int)
    requires n > 0
  {
    x % n == y % n
  }

  lemma ModShift(x: int, k: int, n: int)
    requires n > 0
    ensures (x + k * n) % n == x % n
  {
    var q, r := x / n, x % n;
    assert x + k * n == (q + k) * n + r;
    DivisionIsUnique(x + k * n, q + k, r, n);
  }

  lemma MulAtLeast(d: int, n: int)
    requires d >= 1 && n > 0
    ensures d * n >= n
  {
  }

  lemma DivisionIsUnique(x: int, q: int, r: int, n: int)
    requires n > 0 && 0 <= r < n && x == q * n + r
    ensures x % n == r
  {
    var d := x / n - q;
    assert d * n == r - x % n by {
      assert (x / n) * n - q * n == d * n;
    }
    assert (-d) * n == -(d * n);
    if d != 0 {
      MulAtLeast(if d > 0 then d else -d, n);
    }
  }

  /** Remainders may be taken before multiplying. */
  lemma ModMul(x: int, y: int, n: int)
    requires n > 0
    ensures ((x % n) * (y % n)) % n == (x * y) % n
  {
    var q, r, q', r' := x / n, x % n, y / n, y % n;
    assert x * y == r * r' + (q * y + q' * r) * n by {
      assert x == q * n + r && y == q' * n + r';
      assert x * y == q * n * y + r * y;
      assert r * y == r * (q' * n) + r * r';
      assert q * n * y == (q * y) * n && r * (q' * n) == (q' * r) * n;
    }
    ModShift(r * r', q * y + q' * r, n);
  }

  lemma {:induction false} PowMod(a: nat, e: nat, n: nat)
    requires n > 0
    ensures Pow(a % n, e) % n == Pow(a, e) % n
  {
    if e > 0 {
      PowMod(a, e - 1, n);
      ModMul(a % n, Pow(a % n, e - 1), n);
      ModMul(a, Pow(a, e - 1), n);
      ModMod(a, n);
    }
  }

  lemma ModMod(a: int, n: int)
    requires n > 0
    ensures (a % n) % n == a % n
  {
  }

  lemma {:induction false} PowAdd(a: nat, d: nat, e: nat)
    ensures Pow(a, d + e) == Pow(a, d) * Pow(a, e)
  {
    if d > 0 {
      PowAdd(a, d - 1, e);
      assert Pow(a, d + e) == a * (Pow(a, d - 1) * Pow(a, e));
      MulAssociates(a, Pow(a, d - 1), Pow(a, e));
    }
  }

  lemma MulAssociates(x: int, y: int, z: int)
    ensures x * (y * z) == (x * y) * z
  {
  }

  lemma {:induction false} PowPow(a: nat, d: nat, e: nat)
    ensures Pow(Pow(a, d), e) == Pow(a, d * e)
  {
    if e > 0 {
      PowPow(a, d, e - 1);
      PowAdd(a, d, d * (e - 1));
      assert d + d * (e - 1) == d * e;
    } else {
      assert d * e == 0;
    }
  }

  lemma {:induction false} PowMulBase(a: nat, b: nat, e: nat)
    ensures Pow(a * b, e) == Pow(a, e) * Pow(b, e)
  {
    if e > 0 {
      PowMulBase(a, b, e - 1);
      var x, y := Pow(a, e - 1), Pow(b, e - 1);
      assert (a * b) * (x * y) == (a * x) * (b * y) by {
        MulAssociates(a * b, x, y);
        MulAssociates(a, b, x);
        MulAssociates(a, x, b);
        assert b * x == x * b;
        MulAssociates(a * x, b, y);
      }
    }
  }

  /** Some of the factors taken in pairs. */
  lemma PowSplit(a: nat, d: nat, e: nat)
    requires 2 * d <= e
    ensures Pow(a * a, d) * Pow(a, e - 2 * d) == Pow(a, e)
  {
    PowMulBase(a, a, d);
    PowAdd(a, d, d);
    PowAdd(a, d + d, e - 2 * d);
  }

  lemma {:induction false} PowOfOne(e: nat)
    ensures Pow(1, e) == 1
  {
    if e > 0 {
      PowOfOne(e - 1);
    }
  }

  lemma OneMod(n: int)
    requires n > 1
    ensures 1 % n == 1
  {
  }

  lemma PowOfOneMod(u: nat, e: nat, n: nat)
    requires n > 1 && u % n == 1
    ensures Pow(u, e) % n == 1
  {
    PowMod(u, e, n);
    PowOfOne(e);
    OneMod(n);
  }

  lemma UnitIsNotZero(x: int, y: int, n: int)
    requires n > 1 && (x * y) % n == 1
    ensures x % n != 0
  {
    ModMul(x, y, n);
  }

  /** A base with an inverse modulo n has no power divisible by n. */
  lemma PowOfUnit(a: nat, inverse: nat, e: nat, n: nat)
    requires n > 1 && (a * inverse) % n == 1
    ensures Pow(a, e) % n != 0
  {
    PowMulBase(a, inverse, e);
    PowOfOneMod(a * inverse, e, n);
    UnitIsNotZero(Pow(a, e), Pow(inverse, e), n);
  }

  lemma SameModDiffer(x: int, y: int, n: int)
    requires n > 0 && SameRemainder(x + y, x, n)
    ensures y % n == 0
  {
    var q := (x + y) / n - x / n;
    assert y == q * n + 0;
    DivisionIsUnique(y, q, 0, n);
  }

  lemma SameModSub(x: int, y: int, z: int, n: int)
    requires n > 0 && SameRemainder(x + y, z, n)
    ensures x % n == (z - y) % n
  {
    var q := (x + y) / n - z / n;
    assert x == (z - y) + q * n;
    ModShift(z - y, q, n);
  }
}
