/**
  The `Rational` value type: an exact fraction over `Int` that every
  initialiser puts in canonical form (positive denominator, lowest terms),
  and the operators that build their results through that initialiser.

  A `fatalError` or failed `precondition` in an initialiser is modelled as an
  `Outcome` that is `Trapped`, so "it traps iff ..." can be stated and proved.
  Integers are unbounded: Swift's overflow traps are not modelled.
 */
module Rationals {
  import opened SwiftInt
  import opened SwiftText

  /** Why an initialiser stops the process. */
  datatype Fault =
    | ZeroDenominator   // fatalError("Rationals may not have a zero denominator")
    | InvalidString     // precondition(f.count == 2, "invalid string")
    | NotAnInteger      // precondition(n != nil && d != nil)

  /** The result of a computation that may trap. */
  datatype Outcome<+T> = Returned(value: T) | Trapped(fault: Fault)

  /** The stored fields: numerator, denominator and the signed divisor that reduced them. */
  datatype Rational = Rational(num: int, den: int, g: int) {

    /** Canonical form: the sign lives in `num`, `den > 0`, and the pair is in lowest terms. */
    predicate Valid() {
      den > 0 && Abs(Gcd(num, den)) == 1
    }
  }

  /** The rational number a pair denotes. */
  ghost function Value(r: Rational): real
    requires r.den != 0
  {
    r.num as real / r.den as real
  }

  /** `x` is the greatest common divisor of `a` and `b`: every common divisor divides it. */
  ghost predicate IsGcd(x: int, a: int, b: int) {
    Divides(x, a) && Divides(x, b) &&
    forall k :: Divides(k, a) && Divides(k, b) ==> Divides(k, x)
  }

  /** The source's `gcd`: Euclid's algorithm with Swift's truncating `%`. */
  function Gcd(x: int, y: int): (g: int)
    ensures g == 0 <==> x == 0 && y == 0
    decreases Abs(y)
  {
    if y == 0 then x else Gcd(y, Rem(x, y))
  }

  /** Up to sign, `Gcd` computes the greatest common divisor. */
  lemma {:induction false} GcdIsGreatest(x: int, y: int)
    requires x != 0 || y != 0
    ensures IsGcd(Abs(Gcd(x, y)), x, y)
    decreases Abs(y)
  {
    if y == 0 {
      var d := Abs(x);
      DividesSelf(d);
      DividesAbs(d, x);
      DividesZero(d);
      forall k | Divides(k, x) && Divides(k, y)
        ensures Divides(k, d)
      {
        DividesAbs(k, x);
      }
    } else {
      var r := Rem(x, y);
      GcdIsGreatest(y, r);
      var d := Abs(Gcd(y, r));
      assert Gcd(x, y) == Gcd(y, r);
      DividesRemStep(d, x, y);
      forall k | Divides(k, x) && Divides(k, y)
        ensures Divides(k, d)
      {
        DividesRemStep(k, x, y);
      }
    }
  }

  /** One step of Euclid keeps the common divisors. */
  lemma DividesRemStep(k: int, x: int, y: int)
    requires y != 0 && Divides(k, y)
    ensures Divides(k, x) <==> Divides(k, Rem(x, y))
  {
    var q, r := Quot(x, y), Rem(x, y);
    QuotRem(x, y);
    DividesShift(k, x, y, q, r);
  }

  /** With `x == r + y*q` and `k` dividing `y`, `k` divides `x` iff it divides `r`. */
  lemma DividesShift(k: int, x: int, y: int, q: int, r: int)
    requires Divides(k, y) && x == y * q + r
    ensures Divides(k, x) <==> Divides(k, r)
  {
    if Divides(k, r) {
      DividesLinear(k, r, y, q);
    }
    if Divides(k, x) {
      DividesLinear(k, x, y, -q);
      assert x + y * -q == r;
    }
  }

  /** Scaling both arguments by a positive factor scales the result. */
  lemma {:induction false} GcdScale(x: int, y: int, c: int)
    requires c > 0
    ensures Gcd(x * c, y * c) == Gcd(x, y) * c
    decreases Abs(y)
  {
    if y != 0 {
      MulPositive(c, y);
      MulPositive(c, -y);
      assert y * c != 0;
      RemScale(x, y, c);
      GcdScale(y, Rem(x, y), c);
    }
  }

  /** Negating one argument does not change the greatest common divisor. */
  lemma GcdNegate(x: int, y: int)
    requires y != 0
    ensures Abs(Gcd(-x, y)) == Abs(Gcd(x, y))
  {
    GcdIsGreatest(x, y);
    GcdIsGreatest(-x, y);
    var d1, d2 := Abs(Gcd(x, y)), Abs(Gcd(-x, y));
    DividesNeg(d1, x);
    DividesNeg(d2, -x);
    DividesAntisym(d1, d2);
  }

  /** Euclid's lemma: a divisor of `x * c` that is coprime with `x` divides `c`. */
  lemma CoprimeDividesFactor(m: int, x: int, c: int)
    requires m > 0 && c > 0
    requires Abs(Gcd(x, m)) == 1
    requires Divides(m, x * c)
    ensures Divides(m, c)
  {
    assert Abs(Gcd(x * c, m * c)) == c by {
      GcdScale(x, m, c);
      AbsScale(Gcd(x, m), c);
    }
    assert Divides(m, m * c) && m * c != 0 by {
      DividesMul(m, c);
      MulPositive(m, c);
    }
    GreatestDivides(m, x * c, m * c);
  }

  /** A common divisor divides the gcd. */
  lemma GreatestDivides(k: int, x: int, y: int)
    requires y != 0 && Divides(k, x) && Divides(k, y)
    ensures Divides(k, Abs(Gcd(x, y)))
  {
    GcdIsGreatest(x, y);
  }

  /**
    Canonical form is unique: two canonical pairs that denote the same rational
    are the same pair. This is why comparing `(num, den)` is value equality.
   */
  lemma CanonicalUnique(a: Rational, b: Rational)
    requires a.Valid() && b.Valid()
    requires Value(a) == Value(b)
    ensures a.num == b.num && a.den == b.den
  {
    CrossFromValue(a, b);
    CoprimeCrossUnique(a.num, a.den, b.num, b.den);
  }

  lemma CrossFromValue(a: Rational, b: Rational)
    requires a.den > 0 && b.den > 0
    ensures Value(a) == Value(b) <==> a.num * b.den == b.num * a.den
  {
  }

  lemma CoprimeCrossUnique(an: int, ad: int, bn: int, bd: int)
    requires ad > 0 && bd > 0
    requires Abs(Gcd(an, ad)) == 1 && Abs(Gcd(bn, bd)) == 1
    requires an * bd == bn * ad
    ensures an == bn && ad == bd
  {
    CoprimeDenominatorDivides(an, ad, bn, bd);
    CoprimeDenominatorDivides(bn, bd, an, ad);
    DividesAntisym(ad, bd);
    MulCancel(an, bn, ad);
  }

  /** If `an/ad == bn/bd` with `an/ad` in lowest terms, then `ad` divides `bd`. */
  lemma CoprimeDenominatorDivides(an: int, ad: int, bn: int, bd: int)
    requires ad > 0 && bd > 0
    requires Abs(Gcd(an, ad)) == 1
    requires an * bd == bn * ad
    ensures Divides(ad, bd)
  {
    DividesMul(ad, bn);
    assert ad * bn == an * bd;
    CoprimeDividesFactor(ad, an, bd);
  }

  /** What `init(numerator:denominator:)` stores once the guard has passed. */
  lemma InitCanonical(n: int, d: int)
    requires d != 0
    ensures var pg, s := Abs(Gcd(n, d)), Signum(d);
            pg > 0 &&
            var r := Rational(Quot(n * s, pg), Quot(Abs(d), pg), s * pg);
            r.Valid() && n == r.num * r.g && d == r.den * r.g
  {
    var pg, s := Abs(Gcd(n, d)), Signum(d);
    DivideByGcd(n, d);
    var num, den := Quot(n * s, pg), Quot(Abs(d), pg);
    SignedDivisor(num, den, pg, s, n, d);
    ReducedIsCoprime(num, den, pg, n, d);
  }

  /** Both parts, sign-normalised, are exact multiples of the gcd. */
  lemma DivideByGcd(n: int, d: int)
    requires d != 0
    ensures var pg, s := Abs(Gcd(n, d)), Signum(d);
            pg > 0 && Quot(n * s, pg) * pg == n * s &&
            Quot(Abs(d), pg) * pg == Abs(d) && Quot(Abs(d), pg) > 0
  {
    var pg, s := Abs(Gcd(n, d)), Signum(d);
    GcdIsGreatest(n, d);
    DividesZero(pg);
    DividesLinear(pg, 0, n, s);
    DividesAbs(pg, d);
    QuotExact(n * s, pg);
    QuotExact(Abs(d), pg);
    MulPositive(pg, Quot(Abs(d), pg));
  }

  lemma SignedDivisor(num: int, den: int, pg: int, s: int, n: int, d: int)
    requires s * s == 1 && s * d == Abs(d)
    requires num * pg == n * s && den * pg == Abs(d)
    ensures n == num * (s * pg) && d == den * (s * pg)
  {
    assert num * (s * pg) == (num * pg) * s == n * (s * s);
    assert den * (s * pg) == (den * pg) * s == (s * d) * s == d * (s * s);
  }

  /** Dividing both parts by their greatest common divisor leaves them coprime. */
  lemma ReducedIsCoprime(num: int, den: int, pg: int, n: int, d: int)
    requires d != 0 && pg == Abs(Gcd(n, d)) && pg > 0 && den > 0
    requires num * pg == n * Signum(d) && den * pg == Abs(d)
    ensures Abs(Gcd(num, den)) == 1
  {
    GcdDividesBoth(num, den);
    var h := Abs(Gcd(num, den));
    CommonDivisorScales(h, num, den, pg, n, d);
    GcdBounds(h * pg, n, d);
    UnitFactor(h, pg);
  }

  lemma GcdDividesBoth(x: int, y: int)
    requires y != 0
    ensures Divides(Abs(Gcd(x, y)), x) && Divides(Abs(Gcd(x, y)), y)
  {
    GcdIsGreatest(x, y);
  }

  /** Every common divisor is at most the gcd. */
  lemma GcdBounds(k: int, x: int, y: int)
    requires y != 0 && Divides(k, x) && Divides(k, y)
    ensures k <= Abs(Gcd(x, y))
  {
    GcdIsGreatest(x, y);
    DividesLe(k, Abs(Gcd(x, y)));
  }

  /** A common divisor `h` of the reduced parts gives the common divisor `h * pg` of the inputs. */
  lemma CommonDivisorScales(h: int, num: int, den: int, pg: int, n: int, d: int)
    requires Divides(h, num) && Divides(h, den) && pg > 0 && d != 0
    requires num * pg == n * Signum(d) && den * pg == Abs(d)
    ensures Divides(h * pg, n) && Divides(h * pg, d)
  {
    var s := Signum(d);
    DividesScale(h, num, pg);
    DividesScale(h, den, pg);
    DividesZero(h * pg);
    DividesLinear(h * pg, 0, num * pg, s);
    assert num * pg * s == n * (s * s) == n;
    DividesAbs(h * pg, d);
  }

  /** `init()`: the canonical zero `(0, 1)` with divisor 1. */
  function Zero(): (r: Rational)
    ensures r.Valid() && Value(r) == 0.0
  {
    Rational(0, 1, 1)
  }

  /**
    `init(numerator:denominator:)`, the one place where reduction happens.
    It traps exactly on a zero denominator; otherwise it stores the reduced,
    sign-normalised pair and the signed divisor `g` with `numerator == num * g`
    and `denominator == den * g`.
   */
  function Init(numerator: int, denominator: int): (r: Outcome<Rational>)
    ensures r.Trapped? <==> denominator == 0
    ensures r.Trapped? ==> r.fault == ZeroDenominator
    ensures r.Returned? ==> r.value.Valid()
    ensures r.Returned? ==> numerator == r.value.num * r.value.g && denominator == r.value.den * r.value.g
    ensures r.Returned? ==> Value(r.value) == numerator as real / denominator as real
    ensures r.Returned? && numerator == 0 ==> r.value.num == 0 && r.value.den == 1
  {
    if denominator == 0 then
      Trapped(ZeroDenominator)
    else
      var pg := Abs(Gcd(numerator, denominator));
      var denSign := Signum(denominator);
      InitCanonical(numerator, denominator);
      var r := Rational(Quot(numerator * denSign, pg), Quot(Abs(denominator), pg), denSign * pg);
      ScaledValue(r, numerator, denominator);
      if numerator == 0 then CanonicalZero(r); Returned(r) else Returned(r)
  }

  /** A pair scaled by `g` denotes the same rational. */
  lemma ScaledValue(r: Rational, n: int, d: int)
    requires r.den > 0 && d != 0 && n == r.num * r.g && d == r.den * r.g
    ensures Value(r) == n as real / d as real
  {
  }

  /** The only canonical pair for zero is `(0, 1)`. */
  lemma CanonicalZero(r: Rational)
    requires r.Valid() && r.num == 0
    ensures r.den == 1
  {
    assert Gcd(0, r.den) == Gcd(r.den, 0) == r.den;
  }

  /** A pair already in canonical form is stored unchanged, with divisor 1. */
  lemma InitOfCanonical(n: int, d: int)
    requires d > 0 && Abs(Gcd(n, d)) == 1
    ensures Init(n, d) == Returned(Rational(n, d, 1))
  {
    assert Quot(n * 1, 1) == n;
    assert Quot(Abs(d), 1) == d;
  }

  /** `init(_ val: Int)`, `init(integerLiteral:)` and `init?(exactly:)`: `n` over 1. */
  function FromInt(n: int): (r: Rational)
    ensures r.Valid() && r.num == n && r.den == 1
    ensures Value(r) == n as real
  {
    Init(n, 1).value
  }

  /** `==`: the stored numerators and denominators agree (the divisor `g` is ignored). */
  function Eq(lhs: Rational, rhs: Rational): bool {
    lhs.num == rhs.num && lhs.den == rhs.den
  }

  /**
    What the compiler-synthesised `hash(into:)` feeds to the hasher: every
    stored property, the divisor `g` included.
   */
  function HashedFields(r: Rational): (int, int, int) {
    (r.num, r.den, r.g)
  }

  /** The hash input consistent with `==`: only the fields `==` compares. */
  function HashKey(r: Rational): (int, int) {
    (r.num, r.den)
  }

  /** `<`: cross-multiplication, sound because canonical denominators are positive. */
  function Less(lhs: Rational, rhs: Rational): bool {
    lhs.num * rhs.den < lhs.den * rhs.num
  }

  /** Binary `+`: the canonical form of the exact sum. */
  function Add(lhs: Rational, rhs: Rational): (r: Rational)
    requires lhs.Valid() && rhs.Valid()
    ensures r.Valid() && Value(r) == Value(lhs) + Value(rhs)
  {
    MulPositive(lhs.den, rhs.den);
    SumValue(lhs, rhs);
    Init(lhs.num * rhs.den + rhs.num * lhs.den, lhs.den * rhs.den).value
  }

  lemma SumValue(a: Rational, b: Rational)
    requires a.den > 0 && b.den > 0
    ensures (a.num * b.den + b.num * a.den) as real / (a.den * b.den) as real == Value(a) + Value(b)
  {
  }

  lemma ProductValue(a: Rational, b: Rational)
    requires a.den > 0 && b.den > 0
    ensures (a.num * b.num) as real / (a.den * b.den) as real == Value(a) * Value(b)
  {
  }

  lemma QuotientValue(a: Rational, b: Rational)
    requires a.den > 0 && b.den > 0 && b.num != 0
    ensures (a.num * b.den) as real / (a.den * b.num) as real == Value(a) / Value(b)
  {
  }

  /** Prefix `-`: flips the numerator's sign and keeps the denominator. */
  function Neg(r: Rational): (n: Rational)
    requires r.Valid()
    ensures n.Valid() && n.num == -r.num && n.den == r.den
    ensures Value(n) == -Value(r)
  {
    NegatedCanonical(r);
    NegatedValue(r);
    Init(-r.num, r.den).value
  }

  lemma NegatedValue(r: Rational)
    requires r.den > 0
    ensures Value(Rational(-r.num, r.den, 1)) == -Value(r)
  {
  }

  /** Negating the numerator of a canonical pair leaves it canonical. */
  lemma NegatedCanonical(r: Rational)
    requires r.Valid()
    ensures Init(-r.num, r.den) == Returned(Rational(-r.num, r.den, 1))
  {
    GcdNegate(r.num, r.den);
    InitOfCanonical(-r.num, r.den);
  }

  /** Binary `-`, defined in the source as `lhs + -rhs`. */
  function Sub(lhs: Rational, rhs: Rational): (r: Rational)
    requires lhs.Valid() && rhs.Valid()
    ensures r.Valid() && Value(r) == Value(lhs) - Value(rhs)
  {
    Add(lhs, Neg(rhs))
  }

  /** Binary `*`: the canonical form of the exact product. */
  function Mul(lhs: Rational, rhs: Rational): (r: Rational)
    requires lhs.Valid() && rhs.Valid()
    ensures r.Valid() && Value(r) == Value(lhs) * Value(rhs)
  {
    MulPositive(lhs.den, rhs.den);
    ProductValue(lhs, rhs);
    Init(lhs.num * rhs.num, lhs.den * rhs.den).value
  }

  /**
    Binary `/`: traps exactly when the divisor is zero (its numerator, a
    factor of the new denominator, is 0); otherwise the exact quotient, with a
    positive denominator even when the divisor is negative.
   */
  function Div(lhs: Rational, rhs: Rational): (r: Outcome<Rational>)
    requires lhs.Valid() && rhs.Valid()
    ensures r.Trapped? <==> rhs.num == 0
    ensures r.Trapped? ==> r.fault == ZeroDenominator
    ensures r.Returned? ==> r.value.Valid() && Value(r.value) == Value(lhs) / Value(rhs)
  {
    ZeroProduct(lhs.den, rhs.num);
    if rhs.num != 0 then QuotientValue(lhs, rhs); Init(lhs.num * rhs.den, lhs.den * rhs.num)
    else Init(lhs.num * rhs.den, lhs.den * rhs.num)
  }

  /**
    `inverse()`: the reciprocal through the initialiser. Its Swift type is
    `Rational?`, but it never yields nil: on zero it traps instead.
   */
  function Inverse(r: Rational): (i: Outcome<Rational>)
    requires r.Valid()
    ensures i.Trapped? <==> r.num == 0
    ensures i.Trapped? ==> i.fault == ZeroDenominator
    ensures i.Returned? ==> i.value.Valid() && Value(i.value) == 1.0 / Value(r)
  {
    if r.num != 0 then ReciprocalValue(r); Init(r.den, r.num) else Init(r.den, r.num)
  }

  lemma ReciprocalValue(r: Rational)
    requires r.den > 0 && r.num != 0
    ensures r.den as real / r.num as real == 1.0 / Value(r)
  {
  }

  /** `magnitude`: the absolute value, same denominator. */
  function Magnitude(r: Rational): (m: Rational)
    requires r.Valid()
    ensures m.Valid() && m.num == Abs(r.num) && m.den == r.den
    ensures Value(m) == if Value(r) < 0.0 then -Value(r) else Value(r)
  {
    GcdNegate(r.num, r.den);
    InitOfCanonical(Abs(r.num), r.den);
    AbsoluteValue(r);
    Init(Abs(r.num), r.den).value
  }

  lemma AbsoluteValue(r: Rational)
    requires r.den > 0
    ensures Value(Rational(Abs(r.num), r.den, 1)) == if Value(r) < 0.0 then -Value(r) else Value(r)
  {
    assert Value(r) < 0.0 <==> r.num < 0;
  }

  /** `advanced(by:)` of `Strideable`: `self + n`. */
  function AdvancedBy(self: Rational, n: Rational): (r: Rational)
    requires self.Valid() && n.Valid()
    ensures r.Valid() && Value(r) == Value(self) + Value(n)
  {
    Add(self, n)
  }

  /** `distance(to:)` of `Strideable`: `other - self`. */
  function DistanceTo(self: Rational, other: Rational): (r: Rational)
    requires self.Valid() && other.Valid()
    ensures r.Valid() && Value(r) == Value(other) - Value(self)
  {
    Sub(other, self)
  }

  /** `description`: numerator and denominator joined by a double slash. */
  function Description(r: Rational): string {
    Show(r.num) + "//" + Show(r.den)
  }

  /**
    `init(_ s: String)`: split on "/" (at most two splits, empty pieces
    dropped), demand exactly two pieces, parse each with `Int(_:)`, then run
    the canonicalising initialiser, which traps on a zero denominator.
   */
  function Parse(s: string): (r: Outcome<Rational>)
    ensures r.Trapped? && r.fault == InvalidString <==> |Split(s)| != 2
    ensures r.Returned? ==> r.value.Valid()
    ensures r.Returned? ==> exists n, d :: ParseInt(Split(s)[0]) == Some(n) && ParseInt(Split(s)[1]) == Some(d) && d != 0 && Value(r.value) == n as real / d as real
  {
    var f := Split(s);
    if |f| != 2 then Trapped(InvalidString)
    else
      var n, d := ParseInt(f[0]), ParseInt(f[1]);
      if n.None? || d.None? then Trapped(NotAnInteger)
      else Init(n.value, d.value)
  }

  /** `*=`: the source repeats the body of `*` inline; the new value equals `lhs * rhs`. */
  method MulAssign(lhs: Rational, rhs: Rational) returns (updated: Rational)
    requires lhs.Valid() && rhs.Valid()
    ensures updated == Mul(lhs, rhs)
    ensures updated.Valid() && Value(updated) == Value(lhs) * Value(rhs)
  {
    MulPositive(lhs.den, rhs.den);
    ProductValue(lhs, rhs);
    updated := Init(lhs.num * rhs.num, lhs.den * rhs.den).value;
  }

  /** `+=`: the source repeats the body of `+` inline; the new value equals `lhs + rhs`. */
  method AddAssign(lhs: Rational, rhs: Rational) returns (updated: Rational)
    requires lhs.Valid() && rhs.Valid()
    ensures updated == Add(lhs, rhs)
    ensures updated.Valid() && Value(updated) == Value(lhs) + Value(rhs)
  {
    MulPositive(lhs.den, rhs.den);
    SumValue(lhs, rhs);
    updated := Init(lhs.num * rhs.den + rhs.num * lhs.den, lhs.den * rhs.den).value;
  }

  /** `-=`: `lhs += -rhs`; the new value equals `lhs - rhs`. */
  method SubAssign(lhs: Rational, rhs: Rational) returns (updated: Rational)
    requires lhs.Valid() && rhs.Valid()
    ensures updated == Sub(lhs, rhs)
    ensures updated.Valid() && Value(updated) == Value(lhs) - Value(rhs)
  {
    updated := AddAssign(lhs, Neg(rhs));
  }

  /** `negate()`: `self = -self`. */
  method Negate(self: Rational) returns (updated: Rational)
    requires self.Valid()
    ensures updated == Neg(self)
    ensures updated.Valid() && updated.den == self.den && Value(updated) == -Value(self)
  {
    updated := Neg(self);
  }
}
