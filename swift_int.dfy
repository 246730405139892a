/**
  Swift's `Int` operations that the rational type relies on, over unbounded
  integers: `abs`, `signum()`, truncating `/` and `%`, plus divisibility.
  Dafny's own `/` and `%` are Euclidean, so Swift's truncating pair is written
  out explicitly here.
 */
module SwiftInt {

  function Abs(x: int): nat {
    if x < 0 then -x else x
  }

  /** `x.signum()`: -1, 0 or 1. */
  function Signum(x: int): (s: int)
    ensures s * x == Abs(x)
    ensures x != 0 ==> s * s == 1
  {
    if x > 0 then 1 else if x < 0 then -1 else 0
  }

  /** Swift's `x / y` on `Int`: the quotient truncated toward zero. */
  function Quot(x: int, y: int): int
    requires y != 0
  {
    var q := Abs(x) / Abs(y);
    if (x < 0) == (y < 0) then q else -q
  }

  /** `Quot` truncates toward zero: its magnitude is the floor of `|x| / |y|`, its sign that of `x / y`. */
  lemma QuotTruncates(x: int, y: int)
    requires y != 0
    ensures Abs(Quot(x, y)) * Abs(y) <= Abs(x) < (Abs(Quot(x, y)) + 1) * Abs(y)
    ensures Quot(x, y) != 0 ==> (Quot(x, y) < 0 <==> (x < 0) != (y < 0))
  {
    var a, b := Abs(x), Abs(y);
    var q := a / b;
    assert Abs(Quot(x, y)) == q;
    assert q * b <= a < (q + 1) * b by {
      assert a == b * q + a % b;
    }
  }

  /** Swift's `x % y` on `Int`: the remainder of truncating division, with the sign of `x`. */
  function Rem(x: int, y: int): (r: int)
    requires y != 0
    ensures Abs(r) < Abs(y)
    ensures r != 0 ==> (r < 0 <==> x < 0)
  {
    if x < 0 then -(Abs(x) % Abs(y)) else Abs(x) % Abs(y)
  }

  /** Swift's `/` and `%` agree: `x == y * (x / y) + x % y`. */
  lemma QuotRem(x: int, y: int)
    requires y != 0
    ensures x == y * Quot(x, y) + Rem(x, y)
  {
    var q, m := Abs(x) / Abs(y), Abs(x) % Abs(y);
    assert Abs(x) == Abs(y) * q + m;
    SignedDivision(x, y, q, m);
  }

  /** Putting the signs back on Euclidean division of the magnitudes. */
  lemma SignedDivision(x: int, y: int, q: int, m: int)
    requires y != 0 && Abs(x) == Abs(y) * q + m
    ensures x == y * (if (x < 0) == (y < 0) then q else -q) + (if x < 0 then -m else m)
  {
    assert (-y) * q == -(y * q) && y * (-q) == -(y * q);
  }

  /** `k` is a positive divisor of `n`. */
  predicate Divides(k: int, n: int) {
    k > 0 && n % k == 0
  }

  /** Euclidean division is unique: the only quotient/remainder pair with `0 <= r < k`. */
  lemma DivModUnique(a: int, k: int, q: int, r: int)
    requires k > 0 && a == k * q + r && 0 <= r < k
    ensures a / k == q && a % k == r
  {
    var q0, r0 := a / k, a % k;
    assert k * (q - q0) == r0 - r;
    if q > q0 {
      MulAtLeast(k, q - q0);
    } else if q < q0 {
      MulAtLeast(k, q0 - q);
    }
  }

  lemma MulAtLeast(k: int, t: int)
    requires k > 0 && t >= 1
    ensures k * t >= k
  {
    assert k * t == k * (t - 1) + k;
  }

  lemma DividesMul(k: int, q: int)
    requires k > 0
    ensures Divides(k, k * q)
  {
    DivModUnique(k * q, k, q, 0);
  }

  /** A divisor of `n` leaves an exact quotient. */
  lemma DividesQuot(k: int, n: int)
    requires Divides(k, n)
    ensures n == k * (n / k)
  {
  }

  lemma DividesLinear(k: int, a: int, b: int, t: int)
    requires Divides(k, a) && Divides(k, b)
    ensures Divides(k, a + b * t)
  {
    var qa, qb := a / k, b / k;
    assert a + b * t == k * (qa + qb * t) by {
      assert b * t == k * qb * t;
    }
    DividesMul(k, qa + qb * t);
  }

  lemma DividesNeg(k: int, n: int)
    requires Divides(k, n)
    ensures Divides(k, -n)
  {
    DividesLinear(k, 0, n, -1);
    DividesMul(k, 0);
  }

  lemma DividesAbs(k: int, n: int)
    requires k > 0
    ensures Divides(k, n) <==> Divides(k, Abs(n))
  {
    if n < 0 {
      if Divides(k, n) { DividesNeg(k, n); }
      if Divides(k, -n) { DividesNeg(k, -n); }
    }
  }

  lemma DividesZero(k: int)
    requires k > 0
    ensures Divides(k, 0)
  {
    DividesMul(k, 0);
  }

  lemma DividesSelf(k: int)
    requires k > 0
    ensures Divides(k, k)
  {
    DividesMul(k, 1);
  }

  /** A positive divisor of a positive number is no larger than it. */
  lemma DividesLe(k: int, n: int)
    requires Divides(k, n) && n > 0
    ensures k <= n
  {
    var q := n / k;
    assert n == k * q;
    MulPositive(k, q);
    MulAtLeast(k, q);
  }

  lemma MulPositive(k: int, q: int)
    requires k > 0
    ensures k * q > 0 <==> q > 0
  {
    if q > 0 {
      MulAtLeast(k, q);
    } else {
      assert k * (-q) >= 0;
    }
  }

  /** The only positive factor that does not enlarge a positive number is 1. */
  lemma UnitFactor(h: int, p: int)
    requires h > 0 && p > 0 && h * p <= p
    ensures h == 1
  {
    MulPositive(p, h - 1);
  }

  lemma ZeroProduct(k: int, q: int)
    requires k > 0
    ensures k * q == 0 <==> q == 0
  {
    MulPositive(k, q);
    MulPositive(k, -q);
  }

  lemma MulCancel(x: int, y: int, c: int)
    requires c > 0 && x * c == y * c
    ensures x == y
  {
    MulPositive(c, x - y);
    MulPositive(c, y - x);
  }

  lemma DividesTrans(a: int, b: int, c: int)
    requires Divides(a, b) && Divides(b, c)
    ensures Divides(a, c)
  {
    var q1, q2 := b / a, c / b;
    assert c == a * (q1 * q2) by {
      assert c == b * q2;
      assert b == a * q1;
    }
    DividesMul(a, q1 * q2);
  }

  /** Two positive numbers that divide each other are equal. */
  lemma DividesAntisym(a: int, b: int)
    requires Divides(a, b) && Divides(b, a)
    ensures a == b
  {
    DividesLe(a, b);
    DividesLe(b, a);
  }

  lemma DividesScale(k: int, n: int, c: int)
    requires Divides(k, n) && c > 0
    ensures Divides(k * c, n * c)
  {
    var q := n / k;
    assert n * c == (k * c) * q by {
      assert n == k * q;
    }
    DividesMul(k * c, q);
  }

  lemma DividesCancel(k: int, n: int, c: int)
    requires k > 0 && c > 0 && Divides(k * c, n * c)
    ensures Divides(k, n)
  {
    var q := (n * c) / (k * c);
    assert n * c == (k * c) * q;
    assert (n - k * q) * c == 0;
    assert n == k * q;
    DividesMul(k, q);
  }

  /** Swift's `/` is exact on a multiple of the divisor. */
  lemma QuotExact(n: int, k: int)
    requires Divides(k, n)
    ensures Quot(n, k) * k == n
  {
    DividesAbs(k, n);
    DividesQuot(k, Abs(n));
  }

  /** Scaling both operands by a positive factor scales Swift's remainder by it. */
  lemma RemScale(x: int, y: int, c: int)
    requires y != 0 && c > 0
    ensures Rem(x * c, y * c) == Rem(x, y) * c
  {
    AbsScale(x, c);
    AbsScale(y, c);
    ModScale(Abs(x), Abs(y), c);
    MulPositive(c, x);
    MulPositive(c, -x);
    assert (x * c < 0) == (x < 0);
  }

  lemma AbsScale(x: int, c: int)
    requires c > 0
    ensures Abs(x * c) == Abs(x) * c
  {
    MulPositive(c, x);
    MulPositive(c, -x);
  }

  lemma ModScale(a: nat, b: int, c: int)
    requires b > 0 && c > 0
    ensures (a * c) % (b * c) == (a % b) * c
  {
    var q, m := a / b, a % b;
    assert a * c == (b * c) * q + m * c by {
      assert a == b * q + m;
    }
    assert 0 <= m * c < b * c by {
      MulPositive(c, b - m);
      MulPositive(c, m + 1);
    }
    DivModUnique(a * c, b * c, q, m * c);
  }
}
