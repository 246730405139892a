# Rationals in Dafny

A model of the Swift value type `Rational` (`Rationals/rationals.swift`): an
exact fraction over `Int` whose every initialiser reduces it to canonical form
(positive denominator, numerator and denominator coprime) and records the signed
divisor `g` it divided by. All operators build their results through that
initialiser.

Layout:

- `swift_int.dfy` (`SwiftInt`): the parts of Swift's `Int` the type uses.
  - `abs` and `signum()`.
  - Truncating `/` and `%` (`Quot`, `Rem`). Dafny's own operators are Euclidean, so these are written out.
  - Divisibility lemmas.
- `swift_text.dfy` (`SwiftText`): the parts of Swift's strings the type uses.
  - `Int(_: String)` (`ParseInt`).
  - The decimal rendering of an `Int` in string interpolation (`Show`).
  - `split(separator: "/", maxSplits: 2, omittingEmptySubsequences: true)` (`Split`).
- `rationals.dfy` (`Rationals`): the type and its operations.
  - The `Rational` datatype and its canonical-form predicate `Valid`.
  - `gcd`, the initialisers, `==`, `<`, the operators, `description` and the string initialiser.
  - The compound assignments, as methods that return the rebound value.
- `rational_laws.dfy` (`RationalLaws`): the laws that follow from canonical form.
  - Equality is value equality, and `<` is a strict total order.
  - Algebraic identities.
  - Division and inverse traps.
  - Stepping.
  - Parsing round trips and worked examples.

Conventions:

- **Traps.** A `fatalError` or a failed `precondition` is the outcome `Trapped(fault)`. The reason is one of:
  - `ZeroDenominator`: the initialiser's guard.
  - `InvalidString`: the piece count in the string initialiser.
  - `NotAnInteger`: a piece that is not an integer.

  This lets "traps iff …" be stated and proved. Operators that cannot trap on canonical inputs (`+`, `*`, prefix `-`, `magnitude`) return the value directly.
- **Equality.** Swift's `==` is `Eq`, which compares `num` and `den` only. Dafny's `==` on the datatype also compares `g`. Laws that hold only up to Swift's `==` are stated with `Eq`.
- **Reference semantics.** The ghost function `Value` gives the real number `num / den`. Every operation is proved to compute the exact real result.
- **Uniqueness.** Canonical form is proved unique per value (`CanonicalUnique`). Hence `Eq` is value equality, and the algebraic laws hold as Swift `==`.

## Model

| member | source | states |
|---|---|---|
| Rationals.Gcd | Rationals/rationals.swift:4-6 | Euclid's recursion `gcd(y, x % y)` with Swift's truncating `%`; the result is 0 exactly when both arguments are 0 |
| Rationals.GcdIsGreatest | Rationals/rationals.swift:4-6 | unless both arguments are 0, `abs(gcd(x, y))` divides both and every common divisor divides it |
| Rationals.GcdScale | Rationals/rationals.swift:4-6 | `gcd(x*c, y*c) == gcd(x, y)*c` for `c > 0`, sign included |
| Rationals.Zero | Rationals/rationals.swift:8-10 | `init()` is canonical and denotes 0 |
| Rationals.Init | Rationals/rationals.swift:12-22 | traps exactly when the denominator is 0; otherwise the result is canonical, `numerator == num*g`, `denominator == den*g`, it denotes `numerator/denominator`, and a zero numerator gives `(0, 1)` |
| Rationals.CanonicalUnique | Rationals/rationals.swift:12-22 | two canonical pairs that denote the same rational are the same pair |
| Rationals.InitOfCanonical | Rationals/rationals.swift:24-26 | `Rational(n, d)` on a pair already canonical stores it unchanged with `g == 1` |
| Rationals.CanonicalZero | Rationals/rationals.swift:12-22 | the only canonical pair with numerator 0 has denominator 1 |
| Rationals.FromInt | Rationals/rationals.swift:58-62 | `Rational(integerLiteral: n)` (also `init(_ val: Int)` and `init?(exactly:)`) is canonical, equals `n/1` and denotes `n` |
| Rationals.Add | Rationals/rationals.swift:85-87 | `+` gives a canonical pair that denotes the exact sum |
| Rationals.Sub | Rationals/rationals.swift:81-83 | `-` (defined as `lhs + -rhs`) gives a canonical pair that denotes the exact difference |
| Rationals.Mul | Rationals/rationals.swift:89-91 | `*` gives a canonical pair that denotes the exact product |
| Rationals.Div | Rationals/rationals.swift:93-95 | `/` traps exactly when the divisor is zero; otherwise the result is canonical (positive denominator even for a negative divisor) and denotes the exact quotient |
| Rationals.Inverse | Rationals/rationals.swift:53-55 | `inverse()` traps exactly on zero, never yields nil, and otherwise denotes `1/x` in canonical form |
| Rationals.Neg | Rationals/rationals.swift:113-115 | prefix `-` negates the numerator, keeps the denominator, stays canonical and denotes `-x` |
| Rationals.Magnitude | Rationals/rationals.swift:97-99 | `magnitude` has numerator `abs(num) >= 0`, the same denominator, and denotes `abs(x)` |
| Rationals.AdvancedBy | Rationals/rationals.swift:127-129 | `advanced(by: n)` is canonical and denotes `self + n` |
| Rationals.DistanceTo | Rationals/rationals.swift:131-133 | `distance(to: other)` is canonical and denotes `other - self` |
| Rationals.Parse | Rationals/rationals.swift:42-51 | the string initialiser traps with "invalid string" exactly when the split does not give two pieces; on success the result is canonical and denotes `n/d` for the integers the two pieces spell, with `d != 0` |
| Rationals.MulAssign | Rationals/rationals.swift:105-107 | after `x *= b`, `x` is `old * b` (same `g` too), canonical, denoting the product |
| Rationals.AddAssign | Rationals/rationals.swift:109-111 | after `x += b`, `x` is `old + b`, canonical, denoting the sum |
| Rationals.SubAssign | Rationals/rationals.swift:121-123 | after `x -= b`, `x` is `old - b`, canonical, denoting the difference |
| Rationals.Negate | Rationals/rationals.swift:117-119 | after `x.negate()`, `x` is `-old` with the same denominator |
| Rationals.Eq | Rationals/rationals.swift:71-73 | `==` compares `num` and `den` only, not `g`; its meaning is stated by the two rows below |
| RationalLaws.EqIsValueEquality | Rationals/rationals.swift:71-73 | on canonical values, `==` holds exactly when both denote the same rational |
| RationalLaws.EqIffCrossProducts | Rationals/rationals.swift:71-73 | on canonical values, `a == b` iff `a.num*b.den == b.num*a.den` |
| RationalLaws.ZeroIsUnique | Rationals/rationals.swift:8-10 | every canonical zero is the pair `(0, 1)` of `init()` |
| RationalLaws.InitDependsOnValueOnly | Rationals/rationals.swift:12-22 | arguments with equal cross products give `==` results |
| Rationals.Less | Rationals/rationals.swift:75-77 | `<` compares the cross products `lhs.num*rhs.den` and `lhs.den*rhs.num`; its meaning is stated by the rows below |
| RationalLaws.LessIsValueOrder | Rationals/rationals.swift:75-77 | with positive denominators, `<` is the order of the denoted rationals |
| RationalLaws.LessTransitive | Rationals/rationals.swift:75-77 | `<` is transitive on canonical values |
| RationalLaws.LessTrichotomy | Rationals/rationals.swift:70-77 | exactly one of `a < b`, `a == b`, `b < a` holds |
| RationalLaws.AddCommutes | Rationals/rationals.swift:85-87 | `a + b` and `b + a` are the same stored triple |
| RationalLaws.MulCommutes | Rationals/rationals.swift:89-91 | `a * b` and `b * a` are the same stored triple |
| RationalLaws.AddAssociates | Rationals/rationals.swift:85-87 | `(a + b) + c == a + (b + c)` |
| RationalLaws.MulAssociates | Rationals/rationals.swift:89-91 | `(a * b) * c == a * (b * c)` |
| RationalLaws.MulDistributesOverAdd | Rationals/rationals.swift:85-91 | `a * (b + c) == a*b + a*c` |
| RationalLaws.AddZeroIdentity | Rationals/rationals.swift:85-87 | `a + Rational(0) == a` |
| RationalLaws.MulOneIdentity | Rationals/rationals.swift:89-91 | `a * Rational(1) == a` |
| RationalLaws.SubSelfIsZero | Rationals/rationals.swift:81-83 | `a - a == Rational()` |
| RationalLaws.SubUndoesAdd | Rationals/rationals.swift:81-87 | `b + (a - b) == a` |
| RationalLaws.NegInvolutive | Rationals/rationals.swift:113-115 | `-(-a) == a` |
| RationalLaws.DivByZeroTraps | Rationals/rationals.swift:93-95 | `a / Rational()` and `a / Rational(0)` trap with the zero-denominator error |
| RationalLaws.DivIsMulInverse | Rationals/rationals.swift:93-95 | for non-zero `b`, neither `a / b` nor `b.inverse()` traps and `a / b == a * b.inverse()!` |
| RationalLaws.InverseInvolutive | Rationals/rationals.swift:53-55 | for non-zero `b`, `b.inverse()!.inverse()! == b` without trapping |
| RationalLaws.AdvanceByDistance | Rationals/rationals.swift:126-134 | `a.advanced(by: a.distance(to: b)) == b` |
| Rationals.Description | Rationals/rationals.swift:137-139 | the text `"\(num)//\(den)"`; `ParseDescription` below states that it parses back |
| RationalLaws.ParseDescription | Rationals/rationals.swift:137-139 | parsing the `description` text `"num//den"` of a canonical value gives back the same pair with `g == 1` |
| RationalLaws.ParseSingleSlash | Rationals/rationals.swift:42-51 | parsing `"n/d"` is `Rational(n, d)`, trap included |
| RationalLaws.ParseAcceptsOnlyTwoTokens | Rationals/rationals.swift:42-51 | every accepted string is leading separators, an integer token, at least one separator, an integer token, and at most one trailing separator, and its result is `Rational(n, d)` of the two tokens |
| RationalLaws.ParseOfTwoTokens | Rationals/rationals.swift:43-45 | that shape parses to `Rational(n, d)`, except that two or more trailing separators make a third piece and trap |
| RationalLaws.ParseSingleSlashExample | Rationals/rationals.swift:42-51 | `Rational("9/8")` is `9/8` with `g == 1` |
| RationalLaws.ParseDoubleSlashExample | Rationals/rationals.swift:159 | `Rational("9//8")` is `9/8` with `g == 1` |
| RationalLaws.ParseOnePieceTraps | Rationals/rationals.swift:43-45 | `Rational("3")` traps with "invalid string" |
| RationalLaws.ParseThreePiecesTraps | Rationals/rationals.swift:43-45 | `Rational("1/2/3")` traps with "invalid string" |
| RationalLaws.ParseZeroDenominatorTraps | Rationals/rationals.swift:50 | `Rational("9/0")` reaches the zero-denominator trap |
| RationalLaws.ParseNotAnIntegerTraps | Rationals/rationals.swift:46-49 | `Rational("9/x")` fails the integer precondition |
| RationalLaws.ParseOneTrailingSeparator | Rationals/rationals.swift:43 | `"1/2/"` parses to `1/2`: one trailing separator is dropped |
| RationalLaws.ParseTwoTrailingSeparatorsTraps | Rationals/rationals.swift:43-45 | `"1/2//"` traps with "invalid string": after two splits the rest `"/"` is a third piece |
| RationalLaws.DemoNegativePair | Rationals/rationals.swift:148 | `Rational(-10, -20)` stores `(1, 2, -10)` |
| RationalLaws.DemoCoprimePair | Rationals/rationals.swift:150 | `Rational(numerator: 4, denominator: 5)` stores `(4, 5, 1)` |
| RationalLaws.DemoProduct | Rationals/rationals.swift:153 | `b * c` of those two stores `(2, 5, 2)`, the reduction of `4/10` |
| RationalLaws.SynthesizedHashSplitsEqualValues | Rationals/rationals.swift:2-3 | `Rational(1, 2) == Rational(2, 4)`, yet the stored fields the synthesised hash reads differ |
| RationalLaws.HashKeyRespectsEq | Rationals/rationals.swift:71-73 | hashing only `(num, den)` gives equal keys to `==` values |
| SwiftInt.Abs | Rationals/rationals.swift:17-20 | `abs(x)`, the magnitude of an `Int` as a natural number (overflow on `Int.min` is left out) |
| SwiftInt.Signum | Rationals/rationals.swift:18 | `signum()`: multiplying by it gives `abs(x)`, and it is a unit (`s*s == 1`) for non-zero `x` |
| SwiftInt.Quot | Rationals/rationals.swift:19-20 | Swift's `/` on `Int`, truncating toward zero; `QuotTruncates` and `QuotRem` below state what that means |
| SwiftInt.QuotTruncates | Rationals/rationals.swift:19-20 | `abs(x / y)*abs(y) <= abs(x) < (abs(x / y)+1)*abs(y)`, and a non-zero quotient is negative exactly when the signs of `x` and `y` differ |
| SwiftInt.Rem | Rationals/rationals.swift:5 | Swift's `%`: `abs(r) < abs(y)`, and a non-zero `r` has the sign of `x` |
| SwiftInt.QuotRem | Rationals/rationals.swift:5 | Swift's truncating `/` and `%` satisfy `x == y*(x/y) + x%y` |
| SwiftText.ParseInt | Rationals/rationals.swift:46-47 | `Int(_:)` in radix 10: an optional sign and one or more ASCII digits, anything else nil; `ParseShow` below is its partner |
| SwiftText.Show | Rationals/rationals.swift:138 | an `Int` interpolated as decimal text with a leading `-` for negatives: never empty and never containing `/` |
| SwiftText.ParseShow | Rationals/rationals.swift:138 | `Int(String)` reads back the interpolated decimal text of every `Int` |
| SwiftText.Split | Rationals/rationals.swift:43 | `split(separator: "/", maxSplits: 2)` with empty pieces omitted: at most three pieces, none empty, and only the last may contain `/` |
| SwiftText.SplitTokensThenSeparators | Rationals/rationals.swift:43 | the split of separators, token, separators, token, separators is the two tokens, plus a third piece when two or more separators trail |
| SwiftText.SplitThreeTokens | Rationals/rationals.swift:43 | three tokens joined by single separators split into three pieces |
| SwiftText.SplitTwoHasShape | Rationals/rationals.swift:43 | a split that yields exactly two pieces comes from a string of that shape with at most one trailing separator |

## Left out

- Floating point: `init(_ v: Double)` (its scale-by-ten loop), `init(floatLiteral:)` and `Double(_ r: Rational)`.
- Fixed-width overflow: integers are unbounded. The traps Swift raises on `Int` overflow in `*`, `+`, `abs(Int.min)`, and on out-of-range tokens in `Int(String)`, are not modelled.
- Hashing is not part of the arithmetic model. It appears only in the finding below, as the tuple of fields it reads.
- Protocol machinery: the literal, `Comparable`, `SignedNumeric` and `Strideable` conformances are modelled as the named functions they supply. Derived operators (`>`, `<=`, ranges) are not modelled.
- `init?(exactly:)` is modelled as `FromInt` for an `int`. The conversion from a generic `BinaryInteger` is not modelled.
- The commented demonstration code is used only as example values (`DemoNegativePair`, `DemoCoprimePair`, `DemoProduct`, `ParseDoubleSlashExample`, `DivByZeroTraps`).
- `Split` and `ParseInt` model Swift's `split(separator:maxSplits:omittingEmptySubsequences:)` and `Int(_: String)` from their documented behaviour, over strings as sequences of Unicode scalars. The standard library itself is not part of this model.
- Strings are sequences of Unicode scalars here, not Swift `Character`s (grapheme clusters). A `/` followed by a combining mark is one `Character` in Swift and is not a separator there, while `Split` treats it as one. On such input the model can report the other failed precondition of the string initialiser: `"1/\u{301}2"` traps as `NotAnInteger` instead of `InvalidString`, and `"1/2/\u{301}3"` as `InvalidString` instead of `NotAnInteger`. Every accepted string is ASCII, so acceptance and the resulting value never differ.
- The string initialiser passes `maxSplits: 2`, which allows up to three pieces, and the model follows it. With `maxSplits: 1` the `description` form `"9//8"` would split into `"9"` and `"/8"` and be refused; here it parses to `9/8`.
- The `inout` rebinding of `*=`, `+=`, `-=` and `negate()` is modelled as a method that returns the new value. No aliasing is involved, since `Rational` is a value type.

## Findings

| source | as written | input that shows it | evidently intended | confidence | as-written member | corrected member |
|---|---|---|---|---|---|---|
| Rationals/rationals.swift:2-3 | `Rational` declares `Hashable` and a custom `==` over `(num, den)`, but no `hash(into:)`. The synthesised hash therefore feeds all stored fields, `g` included. | `Rational(1, 2)` stores `(1, 2, 1)` and `Rational(2, 4)` stores `(1, 2, 2)`: they are `==` but their hashed fields differ, breaking `Hashable`'s rule that equal values hash equally (and with it hashed collections such as the dictionary literal at line 182) | hash only `num` and `den`, the fields `==` compares | high; not executed | RationalLaws.SynthesizedHashSplitsEqualValues | RationalLaws.HashKeyRespectsEq |
