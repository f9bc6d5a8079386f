/** Diffie-Hellman over 64-bit words: the shared secret of section 2.1.1 of RFC 2631 with a fixed
    modulus just below the word size, computed in wrapping arithmetic. */
module DH64 {
  import opened ModArith

  const WORD: int := 0x1_0000_0000_0000_0000
  const P: int := 0xffff_ffff_ffff_ffc5
  const G: int := 5

  type Word = x: int | 0 <= x < 0x1_0000_0000_0000_0000

  function WrapAdd(a: Word, b: Word): Word {
    (a + b) % WORD
  }

  function WrapSub(a: Word, b: Word): Word {
    (a - b) % WORD
  }

  function WrapDouble(a: Word): Word {
    (a * 2) % WORD
  }

  datatype Outcome = Value(value: Word) | ZeroPublicKey | ZeroPrivateKey

  /** What one round misses: the doubling of a base above P, whose unsigned distance to P wraps, falls
      short by as much as the word is larger than P, and that counts b / 2 times. */
  function Lost(a: Word, b: Word): (l: int)
    ensures a <= P ==> l == 0
  {
    if a > P then (WORD - P) * (b / 2) else 0
  }

  /** The wrapping operations of the loop are exact for a base up to P, even when doubling wraps. */
  lemma WrappingIsExact(a: Word, m: Word)
    requires a <= P
    ensures WrapSub(P, a) == P - a
    ensures if m >= P - a then WrapSub(m, WrapSub(P, a)) == m + a - P else WrapAdd(m, a) == m + a
    ensures if a >= P - a then WrapSub(WrapDouble(a), P) == 2 * a - P else WrapDouble(a) == 2 * a
  {
  }

  /** For a larger base the doubling goes wrong, and it is below P from then on. */
  lemma WrappingAbove(a: Word)
    requires a > P
    ensures 0 < WrapSub(P, a) && WrapAdd(0, a) == a
    ensures var a' := if a >= WrapSub(P, a) then WrapSub(WrapDouble(a), P) else WrapDouble(a);
            && a' < P
            && a' == if a >= WrapSub(P, a) then 2 * a - 2 * P - (WORD - P) else 2 * a - P - (WORD - P)
  {
  }

  /** Adding the base for an odd b. */
  method AddOdd(a: Word, b: Word, m: Word) returns (m': Word, ghost l: int)
    requires a > P ==> m == 0
    ensures m' == m + (b % 2) * a - l * P
    ensures a <= P && m < P ==> m' < P
    ensures a > P && b % 2 > 0 ==> m' == a
  {
    m', l := m, 0;
    if b % 2 > 0 {
      if a <= P {
        WrappingIsExact(a, m);
      } else {
        WrappingAbove(a);
      }
      var t := WrapSub(P, a);
      if m >= t {
        m', l := WrapSub(m, t), 1;
      } else {
        m' := WrapAdd(m, a);
      }
    }
  }

  method Double(a: Word) returns (a': Word, ghost k: int)
    ensures a' <= P && a' == 2 * a - k * P - if a > P then WORD - P else 0
  {
    if a <= P {
      WrappingIsExact(a, 0);
    } else {
      WrappingAbove(a);
    }
    ghost var wraps := if a > P then 1 else 0;
    if a >= WrapSub(P, a) {
      a', k := WrapSub(WrapDouble(a), P), 1 + wraps;
    } else {
      a', k := WrapDouble(a), wraps;
    }
  }

  /** One round moves m + a * b by a multiple of P, up to what it misses. */
  lemma RoundKeepsSum(a: Word, b: Word, m: int, a': int, m': int, k: int, l: int)
    requires m' == m + (b % 2) * a - l * P
    requires a' == 2 * a - k * P - if a > P then WORD - P else 0
    ensures SameRemainder(m' + a' * (b / 2) + Lost(a, b), m + a * b, P)
  {
    var h, loss := b / 2, if a > P then WORD - P else 0;
    assert b == 2 * h + b % 2;
    assert a * b == a * (2 * h) + a * (b % 2);
    assert (a' + loss) * h == 2 * a * h - (k * P) * h;
    assert (a' + loss) * h == a' * h + loss * h;
    assert (k * P) * h == (k * h) * P;
    assert m' + a' * h + loss * h == m + a * b + (-(l + k * h)) * P;
    ModShift(m + a * b, -(l + k * h), P);
  }

  /** If what was missed does not show in the remainder, nothing was. */
  lemma LossShows(a: Word, b: Word)
    requires a > P && Lost(a, b) % P == 0
    ensures b / 2 == 0
  {
  }

  lemma ExactWhen(a: Word, b: Word, m: Word, product: int)
    requires SameRemainder(m + Lost(a, b), product, P)
    requires if a <= P then m < P else if b == 0 then m == product == 0 else b == 1 ==> m == a
    ensures m == product % P <==> a <= P || b == 0
  {
    if a > P && m == product % P {
      SameModDiffer(m, Lost(a, b), P);
      LossShows(a, b);
    }
  }

  /** Double-and-add in wrapping words. It gives the exact product modulo P for every base up to P, and
      for a larger one never, unless the other factor is 0; what it then misses is known. */
  method MulModP(a0: Word, b0: Word) returns (m: Word)
    ensures m == (a0 * b0) % P <==> a0 <= P || b0 == 0
    ensures SameRemainder(m + Lost(a0, b0), a0 * b0, P)
  {
    var a: Word, b: Word := a0, b0;
    ghost var lost := 0;
    m := 0;
    while b > 0
      invariant if a > P then a == a0 && b == b0 && m == 0 && lost == 0 else lost == Lost(a0, b0)
      invariant if a0 <= P then m < P else a <= P ==> b < b0 && (b0 == 1 ==> m == a0)
      invariant SameRemainder(m + a * b + lost, a0 * b0, P)
    {
      ghost var m1, a1, l, k := m, a, 0, 0;
      m, l := AddOdd(a, b, m);
      a, k := Double(a);
      RoundKeepsSum(a1, b, m1 + lost, a, m + lost, k, l);
      lost := lost + Lost(a1, b);
      b := b / 2;
    }
    ExactWhen(a0, b0, m, a0 * b0);
  }

  /** The largest power of two up to b / 2. */
  function Top(b: nat): (t: nat)
    requires b >= 2
    ensures t >= 1 && 2 * t <= b
  {
    if b < 4 then 1 else 2 * Top(b / 2)
  }

  /** The square of a base as the code computes it, up to multiples of P. */
  function SquareOf(a: Word): (q: nat)
    ensures a <= P ==> q == a * a
  {
    SquareExceedsLoss(a);
    a * a - Lost(a, a)
  }

  lemma SquareExceedsLoss(a: Word)
    ensures a * a >= Lost(a, a)
  {
    if a > P {
      assert a * a >= P * a;
    }
  }

  /** What square-and-multiply computes for exponents from 2. The first square may be wrong, nothing
      after it is. */
  function PowerOf(a: Word, b: Word): int
    requires b >= 2
  {
    (Pow(SquareOf(a), Top(b)) * Pow(a, b - 2 * Top(b))) % P
  }

  lemma PowOne(a: nat)
    ensures Pow(a, 0) == 1 && Pow(a, 1) == a
  {
    assert Pow(a, 1) == a * Pow(a, 0);
  }

  /** Up to P that is the power. */
  lemma PowerOfIsPower(a: Word, b: Word)
    requires a <= P && b >= 2
    ensures PowerOf(a, b) == Pow(a, b) % P
  {
    PowSplit(a, Top(b), b);
  }

  lemma SquareExpands(k: nat)
    requires k <= 58
    ensures (P + k) * (P + k) == P * P + 2 * P * k + k * k && k * k <= 58 * 58
  {
  }

  /** With p and k odd or even as they are, twice the remainder is never small. */
  lemma RemainderIsLarge(k: nat, square: nat, q: int, r: nat)
    requires 1 <= k <= 58 && square <= 58 * 58
    requires P * P + 2 * P * k + square - 59 * ((P + k) / 2) == q * P + r
    ensures r > 58
  {
  }

  /** The square of a base above P never comes out unreduced. */
  lemma SquareAbove(a: Word)
    requires a > P
    ensures SquareOf(a) % P > WORD - 1 - P
  {
    SquareExpands(a - P);
    RemainderIsLarge(a - P, (a - P) * (a - P), SquareOf(a) / P, SquareOf(a) % P);
  }

  /** The first square, for any base. */
  lemma FirstSquare(a: Word, m: Word)
    requires SameRemainder(m + Lost(a, a), a * a, P)
    requires m == (a * a) % P <==> a <= P || a == 0
    ensures m == SquareOf(a) % P
  {
    if a > P {
      SameModSub(m, Lost(a, a), a * a, P);
      SquareAbove(a);
    }
  }

  /** One level of the recursion on top of the first square. */
  lemma SquareStep(q: nat, a: nat, t: nat, e: nat, root: nat, odd: nat, r: nat)
    requires root == (Pow(q, t) * Pow(a, e)) % P && odd <= 1
    requires r == if odd == 1 then (((root * root) % P) * a) % P else (root * root) % P
    ensures r == (Pow(q, 2 * t) * Pow(a, 2 * e + odd)) % P
  {
    var x, y := Pow(q, t), Pow(a, e);
    ModMul(x * y, x * y, P);
    PowAdd(q, t, t);
    PowAdd(a, e, e);
    SquareOfProduct(x, y);
    assert (root * root) % P == (Pow(q, 2 * t) * Pow(a, 2 * e)) % P;
    if odd == 1 {
      TimesOnce(Pow(q, 2 * t) * Pow(a, 2 * e), a);
      PowAdd(a, 2 * e, 1);
      PowOne(a);
      MulAssociates(Pow(q, 2 * t), Pow(a, 2 * e), a);
    }
  }

  lemma SquareOfProduct(x: int, y: int)
    ensures (x * y) * (x * y) == (x * x) * (y * y)
  {
    MulAssociates(x * y, x, y);
    MulAssociates(x, y, x);
    MulAssociates(x, x, y);
    assert (x * y) * x == (x * x) * y;
    MulAssociates(x * x, y, y);
  }

  lemma TimesOnce(x: int, a: int)
    ensures ((x % P) * a) % P == (x * a) % P
  {
    ModMul(x % P, a, P);
    ModMul(x, a, P);
    ModMod(x, P);
  }

  /** What one call of the recursion makes of its root, for any base. */
  lemma PowStep(a: Word, b: Word, root: Word, square: Word, r: Word)
    requires b >= 2 && root == if b < 4 then a else PowerOf(a, b / 2)
    requires if b < 4 then square == SquareOf(a) % P else square == (root * root) % P
    requires r == if b % 2 > 0 then (square * a) % P else square
    ensures r == PowerOf(a, b)
  {
    if b < 4 {
      PowOne(SquareOf(a));
      PowOne(a);
      TimesOnce(SquareOf(a), a);
    } else {
      var t := Top(b / 2);
      SquareStep(SquareOf(a), a, t, b / 2 - 2 * t, root, b % 2, r);
      assert 2 * (b / 2 - 2 * t) + b % 2 == b - 2 * Top(b);
    }
  }

  /** Square-and-multiply, for every base. With exponent 1 the base comes back as it is, reduced or
      not; from 2 the result is the power for every base up to P. */
  method PowModP(a: Word, b: Word) returns (r: Word)
    requires b >= 1
    ensures r == if b == 1 then a else PowerOf(a, b)
    ensures a <= P && b >= 2 ==> r == Pow(a, b) % P
    decreases b
  {
    if b == 1 {
      return a;
    }
    var t := PowModP(a, b / 2);
    ghost var root := t;
    t := MulModP(t, t);
    ghost var square := t;
    if b < 4 {
      FirstSquare(a, t);
    }
    if b % 2 > 0 {
      t := MulModP(t, a);
    }
    PowStep(a, b, root, square, t);
    if a <= P {
      PowerOfIsPower(a, b);
    }
    r := t;
  }

  /** What the exported operations compute. The base P itself is not reduced, so it is the one base
      whose first power is not a remainder. */
  function PowOutcome(a: Word, b: Word): Outcome {
    if a == 0 then ZeroPublicKey
    else if b == 0 then ZeroPrivateKey
    else if a == P && b == 1 then Value(P)
    else Value(Pow(a, b) % P)
  }

  method PowModPChecked(a0: Word, b: Word) returns (r: Outcome)
    ensures r == PowOutcome(a0, b)
    ensures r == ZeroPublicKey <==> a0 == 0
    ensures r == ZeroPrivateKey <==> a0 != 0 && b == 0
  {
    var a := a0;
    if a == 0 {
      return ZeroPublicKey;
    }
    if b == 0 {
      return ZeroPrivateKey;
    }
    if a > P {
      a := a % P;
    }
    var v := PowModP(a, b);
    PowMod(a0, b, P);
    assert Pow(a, 1) == a * Pow(a, 0) == a && Pow(a0, 1) == a0 * Pow(a0, 0) == a0;
    r := Value(v);
  }

  /** When the exported operations panic, and on which key. */
  lemma PanicsExactly(a: Word, b: Word)
    ensures PowOutcome(a, b) == ZeroPublicKey <==> a == 0
    ensures PowOutcome(a, b) == ZeroPrivateKey <==> a != 0 && b == 0
  {
  }

  /** The power is correct for every nonzero pair of words except base P with exponent 1. */
  lemma PowIsCorrectExactly(a: Word, b: Word)
    requires a != 0 && b != 0
    ensures PowOutcome(a, b) == Value(Pow(a, b) % P) <==> !(a == P && b == 1)
  {
    if a == P && b == 1 {
      assert Pow(P, 1) == P * Pow(P, 0) == P;
    }
  }

  method PublicKey(x: Word) returns (r: Outcome)
    ensures r == PowOutcome(G, x)
    ensures r == ZeroPrivateKey <==> x == 0
    ensures x != 0 ==> r == Value(Pow(5, x) % 0xffff_ffff_ffff_ffc5)
  {
    r := PowModPChecked(G, x);
  }

  method Secret(x: Word, y: Word) returns (r: Outcome)
    ensures r == PowOutcome(y, x)
    ensures r == ZeroPublicKey <==> y == 0
    ensures r == ZeroPrivateKey <==> y != 0 && x == 0
    ensures y != 0 && x != 0 && !(y == 0xffff_ffff_ffff_ffc5 && x == 1) ==>
              r == Value(Pow(y, x) % 0xffff_ffff_ffff_ffc5)
  {
    r := PowModPChecked(y, x);
  }

  /** A nonzero private key has a public key, and that key is a nonzero remainder. */
  lemma PublicKeyInRange(x: Word)
    requires x != 0
    ensures PowOutcome(G, x).Value? && 1 <= PowOutcome(G, x).value < P
  {
    PowOfUnit(G, (2 * P + 1) / 5, x, P);
  }

  /** Both sides arrive at the same secret, the generator's power to the product of the private keys. */
  lemma KeyAgreement(x: Word, y: Word)
    requires x != 0 && y != 0
    ensures PowOutcome(G, x).Value? && PowOutcome(G, y).Value?
    ensures PowOutcome(PowOutcome(G, y).value, x) == PowOutcome(PowOutcome(G, x).value, y)
            == Value(Pow(G, x * y) % P)
    ensures 1 <= Pow(G, x * y) % P < P
  {
    PowOfUnit(G, (2 * P + 1) / 5, x * y, P);
    PublicKeyInRange(x);
    PublicKeyInRange(y);
    PowMod(Pow(G, y), x, P);
    PowMod(Pow(G, x), y, P);
    PowPow(G, y, x);
    PowPow(G, x, y);
    assert x * y == y * x;
  }

  /** An exchange between two parties with nonzero private keys: no panic, one common secret. */
  method Exchange(x: Word, y: Word) returns (secret: Word)
    requires x != 0 && y != 0
    ensures secret == Pow(5, x * y) % 0xffff_ffff_ffff_ffc5 && secret != 0
  {
    var X := PublicKey(x);
    var Y := PublicKey(y);
    KeyAgreement(x, y);
    var s := Secret(x, Y.value);
    var s' := Secret(y, X.value);
    assert s == s';
    secret := s.value;
  }

  type Half = x: int | 0 <= x < 0x1_0000_0000

  /** The bitwise or of two numbers. */
  function Or(x: nat, y: nat): nat {
    if x == 0 then y
    else 2 * Or(x / 2, y / 2) + if x % 2 == 1 || y % 2 == 1 then 1 else 0
  }

  /** A bit of it is set exactly if it is set in one of the two. */
  lemma {:induction false} OrBit(x: nat, y: nat, n: nat)
    ensures Bit(Or(x, y), n) <==> Bit(x, n) || Bit(y, n)
    decreases x + n
  {
    if x != 0 && n > 0 {
      OrBit(x / 2, y / 2, n - 1);
    } else if x == 0 {
      ZeroBits(n);
    }
  }

  predicate Bit(x: nat, n: nat) {
    if n == 0 then x % 2 == 1 else Bit(x / 2, n - 1)
  }

  lemma {:induction false} ZeroBits(n: nat)
    ensures !Bit(0, n)
  {
    if n > 0 {
      ZeroBits(n - 1);
    }
  }

  lemma {:induction false} OrZero(x: nat)
    ensures Or(x, 0) == x
  {
    if x != 0 {
      OrZero(x / 2);
    }
  }

  lemma OrDouble(x: nat, y: nat)
    ensures Or(2 * x, y) == 2 * Or(x, y / 2) + y % 2
  {
    assert 2 * x / 2 == x;
  }

  /** A shift to the left, with nothing lost. */
  function Shifted(x: nat, n: nat): nat {
    if n == 0 then x else 2 * Shifted(x, n - 1)
  }

  lemma {:induction false} ShiftedTwice(x: nat, m: nat, n: nat)
    ensures Shifted(Shifted(x, m), n) == Shifted(x, m + n)
  {
    if n > 0 {
      ShiftedTwice(x, m, n - 1);
    }
  }

  lemma ShiftedBy8(x: nat)
    ensures Shifted(x, 8) == 256 * x
  {
    assert Shifted(x, 1) == 2 * x;
    assert Shifted(x, 2) == 4 * x;
    assert Shifted(x, 4) == 4 * Shifted(x, 2);
    assert Shifted(x, 6) == 4 * Shifted(x, 4);
    assert Shifted(x, 8) == 4 * Shifted(x, 6);
  }

  lemma ShiftedBy32(x: nat)
    ensures Shifted(x, 32) == 0x1_0000_0000 * x
  {
    ShiftedBy8(x);
    ShiftedBy8(256 * x);
    ShiftedBy8(256 * 256 * x);
    ShiftedBy8(256 * 256 * 256 * x);
    ShiftedTwice(x, 8, 8);
    ShiftedTwice(x, 16, 8);
    ShiftedTwice(x, 24, 8);
  }

  /** Shifted apart, the two numbers just stand side by side; where they meet in one bit, it is set. */
  lemma {:induction false} OrShifted(a: nat, y: nat, n: nat)
    requires y <= Shifted(1, n)
    ensures Or(Shifted(a, n), y) == if y < Shifted(1, n) then Shifted(a, n) + y else Shifted(Or(a, 1), n)
  {
    if n > 0 {
      OrShifted(a, y / 2, n - 1);
      OrDouble(Shifted(a, n - 1), y);
    } else if y == 0 {
      OrZero(a);
    }
  }

  /** How a private key is put together from two 32-bit draws; the second is shifted up by one, so
      it can carry into the first one's half, where the two are joined bit by bit. */
  function ComposeKey(a: Half, b: Half): nat {
    Or(Shifted(a, 32), b + 1)
  }

  /** The drawn key as a number; where the second draw carries, the carry is lost if the first is odd. */
  lemma KeyNumber(a: Half, b: Half)
    ensures ComposeKey(a, b)
            == if b < 0xffff_ffff then a * 0x1_0000_0000 + b + 1
               else if a % 2 == 0 then (a + 1) * 0x1_0000_0000
               else a * 0x1_0000_0000
    ensures 0 < ComposeKey(a, b) < WORD
  {
    ShiftedBy32(1);
    ShiftedBy32(a);
    ShiftedBy32(Or(a, 1));
    OrShifted(a, b + 1, 32);
    OrZero(a / 2);
    assert Or(a, 1) == if a % 2 == 0 then a + 1 else a;
  }

  /** The drawn private keys are exactly the words with a nonzero low half or an odd high half. */
  lemma ComposedKeys(k: Word)
    ensures (exists a: Half, b: Half :: ComposeKey(a, b) == k)
            <==> (k % 0x1_0000_0000 != 0 || k / 0x1_0000_0000 % 2 == 1)
  {
    var high, low := k / 0x1_0000_0000, k % 0x1_0000_0000;
    if low != 0 {
      KeyNumber(high, low - 1);
    } else if high % 2 == 1 {
      KeyNumber(high, 0xffff_ffff);
    } else {
      forall a: Half, b: Half
        ensures ComposeKey(a, b) != k
      {
        KeyNumber(a, b);
      }
    }
  }

  /** Key generation never fails: whatever is drawn, the private key is nonzero and the public key
      is its power of the generator, a nonzero remainder. */
  method KeyPair() returns (privateKey: Word, publicKey: Word)
    ensures exists a: Half, b: Half :: privateKey == ComposeKey(a, b)
    ensures privateKey != 0
    ensures privateKey % 0x1_0000_0000 != 0 || privateKey / 0x1_0000_0000 % 2 == 1
    ensures publicKey == Pow(5, privateKey) % 0xffff_ffff_ffff_ffc5 && publicKey != 0
  {
    var a: Half, b: Half := *, *;
    KeyNumber(a, b);
    privateKey := ComposeKey(a, b);
    ComposedKeys(privateKey);
    PublicKeyInRange(privateKey);
    var r := PublicKey(privateKey);
    publicKey := r.value;
  }
}
