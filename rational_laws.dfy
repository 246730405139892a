/**
  What the canonical form buys: `==` on the stored pair is value equality,
  `<` is a strict total order, the arithmetic laws hold as `==`, and the
  text form written by `description` parses back to an equal value.
 */
module RationalLaws {
  import opened SwiftInt
  import opened SwiftText
  import opened Rationals

  /** On canonical values, comparing `(num, den)` is comparing the rationals they denote. */
  lemma EqIsValueEquality(a: Rational, b: Rational)
    requires a.Valid() && b.Valid()
    ensures Eq(a, b) <==> Value(a) == Value(b)
  {
    if Value(a) == Value(b) {
      CanonicalUnique(a, b);
    }
  }

  /** `a == b` iff the cross products agree. */
  lemma EqIffCrossProducts(a: Rational, b: Rational)
    requires a.Valid() && b.Valid()
    ensures Eq(a, b) <==> a.num * b.den == b.num * a.den
  {
    EqIsValueEquality(a, b);
    CrossFromValue(a, b);
  }

  /** Any canonical zero is the pair `(0, 1)` that `init()` builds. */
  lemma ZeroIsUnique(a: Rational)
    requires a.Valid() && Value(a) == 0.0
    ensures a.num == 0 && a.den == 1 && Eq(a, Zero())
  {
    EqIsValueEquality(a, Zero());
  }

  /** The initialiser depends only on the rational its arguments denote. */
  lemma InitDependsOnValueOnly(n1: int, d1: int, n2: int, d2: int)
    requires d1 != 0 && d2 != 0 && n1 * d2 == n2 * d1
    ensures Eq(Init(n1, d1).value, Init(n2, d2).value)
  {
    EqualFractions(n1, d1, n2, d2);
    EqIsValueEquality(Init(n1, d1).value, Init(n2, d2).value);
  }

  /** Fractions with equal cross products are equal reals. */
  lemma EqualFractions(n1: int, d1: int, n2: int, d2: int)
    requires d1 != 0 && d2 != 0 && n1 * d2 == n2 * d1
    ensures n1 as real / d1 as real == n2 as real / d2 as real
  {
    var x := n1 as real / d1 as real;
    assert x * d1 as real == n1 as real;
    assert x * d1 as real * d2 as real == n2 as real * d1 as real;
    assert x * d2 as real == n2 as real;
  }

  /** Cross-multiplying `<` is the order of the rationals. */
  lemma LessIsValueOrder(a: Rational, b: Rational)
    requires a.den > 0 && b.den > 0
    ensures Less(a, b) <==> Value(a) < Value(b)
  {
    assert Value(a) < Value(b) <==> (a.num * b.den) as real < (b.num * a.den) as real by {
      assert Value(a) == (a.num * b.den) as real / (a.den * b.den) as real;
      assert Value(b) == (b.num * a.den) as real / (a.den * b.den) as real;
      MulPositive(a.den, b.den);
    }
  }

  lemma LessIrreflexive(a: Rational)
    ensures !Less(a, a)
  {
  }

  lemma LessTransitive(a: Rational, b: Rational, c: Rational)
    requires a.Valid() && b.Valid() && c.Valid()
    requires Less(a, b) && Less(b, c)
    ensures Less(a, c)
  {
    LessIsValueOrder(a, b);
    LessIsValueOrder(b, c);
    LessIsValueOrder(a, c);
  }

  /** Exactly one of `a < b`, `a == b`, `b < a` holds. */
  lemma LessTrichotomy(a: Rational, b: Rational)
    requires a.Valid() && b.Valid()
    ensures Less(a, b) || Eq(a, b) || Less(b, a)
    ensures !(Less(a, b) && Eq(a, b)) && !(Less(b, a) && Eq(a, b)) && !(Less(a, b) && Less(b, a))
  {
    LessIsValueOrder(a, b);
    LessIsValueOrder(b, a);
    EqIsValueEquality(a, b);
  }

  /** `+` is commutative, even including the stored divisor. */
  lemma AddCommutes(a: Rational, b: Rational)
    requires a.Valid() && b.Valid()
    ensures Add(a, b) == Add(b, a)
  {
    assert a.num * b.den + b.num * a.den == b.num * a.den + a.num * b.den;
    assert a.den * b.den == b.den * a.den;
  }

  /** `*` is commutative, even including the stored divisor. */
  lemma MulCommutes(a: Rational, b: Rational)
    requires a.Valid() && b.Valid()
    ensures Mul(a, b) == Mul(b, a)
  {
    assert a.num * b.num == b.num * a.num;
    assert a.den * b.den == b.den * a.den;
  }

  lemma AddAssociates(a: Rational, b: Rational, c: Rational)
    requires a.Valid() && b.Valid() && c.Valid()
    ensures Eq(Add(Add(a, b), c), Add(a, Add(b, c)))
  {
    EqIsValueEquality(Add(Add(a, b), c), Add(a, Add(b, c)));
  }

  lemma MulAssociates(a: Rational, b: Rational, c: Rational)
    requires a.Valid() && b.Valid() && c.Valid()
    ensures Eq(Mul(Mul(a, b), c), Mul(a, Mul(b, c)))
  {
    var ab, bc := Mul(a, b), Mul(b, c);
    MulValue(ab, c);
    MulValue(a, b);
    MulValue(a, bc);
    MulValue(b, c);
    Reassociates(Mul(ab, c), Mul(a, bc), a, b, c, ab, bc);
    EqIsValueEquality(Mul(ab, c), Mul(a, bc));
  }

  lemma Reassociates(l: Rational, r: Rational, a: Rational, b: Rational, c: Rational, ab: Rational, bc: Rational)
    requires l.den > 0 && r.den > 0 && a.den > 0 && b.den > 0 && c.den > 0 && ab.den > 0 && bc.den > 0
    requires Value(l) == Value(ab) * Value(c) && Value(ab) == Value(a) * Value(b)
    requires Value(r) == Value(a) * Value(bc) && Value(bc) == Value(b) * Value(c)
    ensures Value(l) == Value(r)
  {
    Associates(Value(a), Value(b), Value(c));
  }

  lemma Associates(x: real, y: real, z: real)
    ensures (x * y) * z == x * (y * z)
  {
  }

  lemma MulDistributesOverAdd(a: Rational, b: Rational, c: Rational)
    requires a.Valid() && b.Valid() && c.Valid()
    ensures Eq(Mul(a, Add(b, c)), Add(Mul(a, b), Mul(a, c)))
  {
    DistributesValue(a, b, c);
    EqIsValueEquality(Mul(a, Add(b, c)), Add(Mul(a, b), Mul(a, c)));
  }

  lemma DistributesValue(a: Rational, b: Rational, c: Rational)
    requires a.Valid() && b.Valid() && c.Valid()
    ensures Value(Mul(a, Add(b, c))) == Value(Add(Mul(a, b), Mul(a, c)))
  {
    ScaledSumValue(a, b, c);
    SumOfProductsValue(a, b, c);
    Distributes(Value(a), Value(b), Value(c));
  }

  lemma ScaledSumValue(a: Rational, b: Rational, c: Rational)
    requires a.Valid() && b.Valid() && c.Valid()
    ensures Value(Mul(a, Add(b, c))) == Value(a) * (Value(b) + Value(c))
  {
    var bc := Add(b, c);
    MulValue(a, bc);
    AddValue(b, c);
    ScaleBySum(Mul(a, bc), a, bc, b, c);
  }

  lemma ScaleBySum(l: Rational, a: Rational, m: Rational, b: Rational, c: Rational)
    requires l.den > 0 && a.den > 0 && m.den > 0 && b.den > 0 && c.den > 0
    requires Value(l) == Value(a) * Value(m) && Value(m) == Value(b) + Value(c)
    ensures Value(l) == Value(a) * (Value(b) + Value(c))
  {
  }

  lemma SumOfProductsValue(a: Rational, b: Rational, c: Rational)
    requires a.Valid() && b.Valid() && c.Valid()
    ensures Value(Add(Mul(a, b), Mul(a, c))) == Value(a) * Value(b) + Value(a) * Value(c)
  {
    AddValue(Mul(a, b), Mul(a, c));
    MulValue(a, b);
    MulValue(a, c);
  }

  lemma Distributes(x: real, y: real, z: real)
    ensures x * (y + z) == x * y + x * z
  {
  }

  lemma MulValue(a: Rational, b: Rational)
    requires a.Valid() && b.Valid()
    ensures Value(Mul(a, b)) == Value(a) * Value(b)
  {
  }

  lemma AddValue(a: Rational, b: Rational)
    requires a.Valid() && b.Valid()
    ensures Value(Add(a, b)) == Value(a) + Value(b)
  {
  }

  /** `a + Rational(0) == a`. */
  lemma AddZeroIdentity(a: Rational)
    requires a.Valid()
    ensures Eq(Add(a, FromInt(0)), a)
  {
    EqIsValueEquality(Add(a, FromInt(0)), a);
  }

  /** `a * Rational(1) == a`. */
  lemma MulOneIdentity(a: Rational)
    requires a.Valid()
    ensures Eq(Mul(a, FromInt(1)), a)
  {
    EqIsValueEquality(Mul(a, FromInt(1)), a);
  }

  /** `a - a == Rational()`. */
  lemma SubSelfIsZero(a: Rational)
    requires a.Valid()
    ensures Eq(Sub(a, a), Zero())
  {
    EqIsValueEquality(Sub(a, a), Zero());
  }

  /** `-(-a) == a`. */
  lemma NegInvolutive(a: Rational)
    requires a.Valid()
    ensures Eq(Neg(Neg(a)), a)
  {
  }

  /** Dividing by `Rational()` or `Rational(0)` traps on the zero denominator `lhs.den * 0`. */
  lemma DivByZeroTraps(a: Rational)
    requires a.Valid()
    ensures Div(a, Zero()) == Trapped(ZeroDenominator)
    ensures Div(a, FromInt(0)) == Trapped(ZeroDenominator)
  {
  }

  /** For a non-zero divisor, `a / b == a * b.inverse()!`. */
  lemma DivIsMulInverse(a: Rational, b: Rational)
    requires a.Valid() && b.Valid() && b.num != 0
    ensures Div(a, b).Returned? && Inverse(b).Returned?
    ensures Eq(Div(a, b).value, Mul(a, Inverse(b).value))
  {
    var q, i := Div(a, b).value, Inverse(b).value;
    MulValue(a, i);
    QuotientIsProduct(q, Mul(a, i), a, i, b);
    EqIsValueEquality(q, Mul(a, i));
  }

  lemma QuotientIsProduct(q: Rational, p: Rational, a: Rational, i: Rational, b: Rational)
    requires q.den > 0 && p.den > 0 && a.den > 0 && i.den > 0 && b.den > 0 && b.num != 0
    requires Value(q) == Value(a) / Value(b) && Value(p) == Value(a) * Value(i)
    requires Value(i) == 1.0 / Value(b)
    ensures Value(q) == Value(p)
  {
    var v := Value(b);
    assert v != 0.0;
    assert Value(q) * v == Value(a);
    assert Value(i) * v == 1.0;
  }

  /** For non-zero `b`, `b.inverse()!.inverse()! == b`. */
  lemma InverseInvolutive(b: Rational)
    requires b.Valid() && b.num != 0
    ensures Inverse(b).Returned? && Inverse(Inverse(b).value).Returned?
    ensures Eq(Inverse(Inverse(b).value).value, b)
  {
    var i := Inverse(b).value;
    ReciprocalNonZero(i, b);
    var j := Inverse(i).value;
    ReciprocalTwice(j, i, b);
    EqIsValueEquality(j, b);
  }

  lemma ReciprocalNonZero(i: Rational, b: Rational)
    requires i.den > 0 && b.den > 0 && b.num != 0
    requires Value(i) == 1.0 / Value(b)
    ensures i.num != 0
  {
  }

  lemma ReciprocalTwice(j: Rational, i: Rational, b: Rational)
    requires j.den > 0 && i.den > 0 && i.num != 0 && b.den > 0 && b.num != 0
    requires Value(i) == 1.0 / Value(b) && Value(j) == 1.0 / Value(i)
    ensures Value(j) == Value(b)
  {
    var v := Value(b);
    assert v != 0.0;
    assert Value(i) * v == 1.0;
  }

  /** Stepping from `a` by its distance to `b` lands on `b`. */
  lemma AdvanceByDistance(a: Rational, b: Rational)
    requires a.Valid() && b.Valid()
    ensures Eq(AdvancedBy(a, DistanceTo(a, b)), b)
  {
    EqIsValueEquality(AdvancedBy(a, DistanceTo(a, b)), b);
  }

  /** Subtraction undoes addition: `b + (a - b) == a`. */
  lemma SubUndoesAdd(a: Rational, b: Rational)
    requires a.Valid() && b.Valid()
    ensures Eq(Add(b, Sub(a, b)), a)
  {
    EqIsValueEquality(Add(b, Sub(a, b)), a);
  }

  /**
    Parsing the `description` of a value gives back the same pair (with
    divisor 1), although `description` writes "//" and the parser splits on "/".
   */
  lemma ParseDescription(a: Rational)
    requires a.Valid()
    ensures Parse(Description(a)) == Returned(Rational(a.num, a.den, 1))
    ensures Eq(Parse(Description(a)).value, a)
  {
    var p, q := Show(a.num), Show(a.den);
    assert Description(a) == Slashes(0) + p + Slashes(2) + q + Slashes(0);
    SplitTokensThenSeparators(0, p, 2, q, 0);
    ParseShow(a.num);
    ParseShow(a.den);
    InitOfCanonical(a.num, a.den);
  }

  /** The single-slash input form `"n/d"` parses to `Rational(n, d)`. */
  lemma ParseSingleSlash(n: int, d: int)
    ensures Parse(Show(n) + "/" + Show(d)) == Init(n, d)
  {
    var p, q := Show(n), Show(d);
    assert p + "/" + q == Slashes(0) + p + Slashes(1) + q + Slashes(0);
    SplitTokensThenSeparators(0, p, 1, q, 0);
    ParseShow(n);
    ParseShow(d);
  }

  /**
    Every string the parser accepts is two integer tokens with separators in
    front, at least one between and at most one after; the value is that of
    the initialiser on the two integers.
   */
  lemma ParseAcceptsOnlyTwoTokens(s: string) returns (a: nat, p: string, b: nat, q: string, c: nat)
    requires Parse(s).Returned?
    ensures b >= 1 && c <= 1
    ensures s == Slashes(a) + p + Slashes(b) + q + Slashes(c)
    ensures ParseInt(p).Some? && ParseInt(q).Some? && ParseInt(q).value != 0
    ensures Parse(s) == Init(ParseInt(p).value, ParseInt(q).value)
  {
    a, b, c := SplitTwoHasShape(s);
    p, q := Split(s)[0], Split(s)[1];
  }

  /** A string of two integer tokens in that shape is accepted, unless it has two or more trailing separators. */
  lemma ParseOfTwoTokens(a: nat, p: string, b: nat, q: string, c: nat)
    requires b >= 1 && ParseInt(p).Some? && ParseInt(q).Some?
    ensures p != [] && q != [] && '/' !in p && '/' !in q
    ensures var s := Slashes(a) + p + Slashes(b) + q + Slashes(c);
            Parse(s) == if c >= 2 then Trapped(InvalidString) else Init(ParseInt(p).value, ParseInt(q).value)
  {
    IntTokenHasNoSeparator(p);
    IntTokenHasNoSeparator(q);
    SplitTokensThenSeparators(a, p, b, q, c);
  }

  /** A token `Int(_:)` accepts is non-empty and holds no '/'. */
  lemma IntTokenHasNoSeparator(t: string)
    requires ParseInt(t).Some?
    ensures t != [] && '/' !in t
  {
  }

  lemma ShowSmall()
    ensures Show(0) == "0" && Show(8) == "8" && Show(9) == "9"
  {
  }

  lemma NineEighthsCanonical()
    ensures Rational(9, 8, 1).Valid() && Init(9, 8) == Returned(Rational(9, 8, 1))
  {
    assert Gcd(9, 8) == Gcd(8, 1) == Gcd(1, 0) == 1;
    InitOfCanonical(9, 8);
  }

  /** `Rational("9/8")`: one separator between two integers. */
  lemma ParseSingleSlashExample()
    ensures Parse("9/8") == Returned(Rational(9, 8, 1))
  {
    assert Parse("9/8") == Init(9, 8) by {
      ShowSmall();
      ParseSingleSlash(9, 8);
      assert "9/8" == Show(9) + "/" + Show(8);
    }
    NineEighthsCanonical();
  }

  /** `Rational("9//8")`, from the demonstration comments: the empty piece is dropped. */
  lemma ParseDoubleSlashExample()
    ensures Parse("9//8") == Returned(Rational(9, 8, 1))
  {
    ShowSmall();
    NineEighthsCanonical();
    ParseDescription(Rational(9, 8, 1));
    assert Description(Rational(9, 8, 1)) == "9//8";
  }

  /** A lone integer is one piece, not two: "invalid string". */
  lemma ParseOnePieceTraps()
    ensures Parse("3") == Trapped(InvalidString)
  {
    assert Split("3") == ["3"];
  }

  /** Three pieces are refused too. */
  lemma ParseThreePiecesTraps()
    ensures Parse("1/2/3") == Trapped(InvalidString)
  {
    SplitThreeTokens("1", "2", "3");
    assert "1" + "/" + "2" + "/" + "3" == "1/2/3";
  }

  /** A zero denominator in the text reaches the initialiser's trap. */
  lemma ParseZeroDenominatorTraps()
    ensures Parse("9/0") == Trapped(ZeroDenominator)
  {
    ShowSmall();
    ParseSingleSlash(9, 0);
    assert "9/0" == Show(9) + "/" + Show(0);
  }

  /** A piece that is not an integer fails the second precondition. */
  lemma ParseNotAnIntegerTraps()
    ensures Parse("9/x") == Trapped(NotAnInteger)
  {
    TwoPieces("9", "x");
    assert "9" + "/" + "x" == "9/x";
    assert ParseInt("x") == None;
  }

  /** A token, a separator and a token are two pieces. */
  lemma TwoPieces(p: string, q: string)
    requires p != [] && q != [] && '/' !in p && '/' !in q
    ensures Split(p + "/" + q) == [p, q]
  {
    FirstOfSeveral(p, q);
    OnlyPiece(q, 1);
  }

  lemma SmallTokens()
    ensures ParseInt("1") == Some(1) && ParseInt("2") == Some(2)
    ensures Init(1, 2) == Returned(Rational(1, 2, 1))
  {
    assert Gcd(1, 2) == Gcd(2, 1) == Gcd(1, 0) == 1;
    InitOfCanonical(1, 2);
  }

  /** The separator limit: one trailing '/' is ignored. */
  lemma ParseOneTrailingSeparator()
    ensures Parse("1/2/") == Returned(Rational(1, 2, 1))
  {
    SmallTokens();
    ParseOfTwoTokens(0, "1", 1, "2", 1);
    assert "1/2/" == Slashes(0) + "1" + Slashes(1) + "2" + Slashes(1);
  }

  /** The separator limit: two trailing '/' leave a third piece. */
  lemma ParseTwoTrailingSeparatorsTraps()
    ensures Parse("1/2//") == Trapped(InvalidString)
  {
    SmallTokens();
    ParseOfTwoTokens(0, "1", 1, "2", 2);
    assert "1/2//" == Slashes(0) + "1" + Slashes(1) + "2" + Slashes(2);
  }

  /** The stored triple, once the divisor is known. */
  lemma InitByGcd(n: int, d: int, pg: int)
    requires d != 0 && pg > 0 && Abs(Gcd(n, d)) == pg
    ensures Init(n, d) == Returned(Rational(Quot(n * Signum(d), pg), Quot(Abs(d), pg), Signum(d) * pg))
  {
  }

  /** `Rational(-10, -20)` from the demonstration comments: signs cancel, `g` keeps them. */
  lemma DemoNegativePair()
    ensures Init(-10, -20) == Returned(Rational(1, 2, -10))
  {
    assert Gcd(-10, -20) == Gcd(-20, -10) == Gcd(-10, 0) == -10;
    InitByGcd(-10, -20, 10);
  }

  /** `Rational(numerator: 4, denominator: 5)` from the demonstration comments. */
  lemma DemoCoprimePair()
    ensures Init(4, 5) == Returned(Rational(4, 5, 1))
  {
    assert Gcd(4, 5) == Gcd(5, 4) == Gcd(4, 1) == Gcd(1, 0) == 1;
    InitOfCanonical(4, 5);
  }

  /** `b * c` from the demonstration comments: `4/10` reduced by 2. */
  lemma DemoProduct()
    ensures Mul(Init(-10, -20).value, Init(4, 5).value) == Rational(2, 5, 2)
  {
    DemoNegativePair();
    DemoCoprimePair();
    assert Gcd(4, 10) == Gcd(10, 4) == Gcd(4, 2) == Gcd(2, 0) == 2;
    InitByGcd(4, 10, 2);
  }

  /**
    As written, the synthesised `hash(into:)` feeds every stored field,
    including `g`, to the hasher, so two values that are `==` can hash
    differently: `Rational(1, 2)` and `Rational(2, 4)`.
   */
  lemma SynthesizedHashSplitsEqualValues()
    ensures Init(1, 2).Returned? && Init(2, 4).Returned?
    ensures Eq(Init(1, 2).value, Init(2, 4).value)
    ensures HashedFields(Init(1, 2).value) != HashedFields(Init(2, 4).value)
  {
    assert Gcd(1, 2) == Gcd(2, 1) == Gcd(1, 0) == 1;
    assert Gcd(2, 4) == Gcd(4, 2) == Gcd(2, 0) == 2;
  }

  /** Hashing only `(num, den)`, the fields `==` compares, is consistent with `==`. */
  lemma HashKeyRespectsEq(a: Rational, b: Rational)
    requires Eq(a, b)
    ensures HashKey(a) == HashKey(b)
  {
  }
}
