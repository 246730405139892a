/**
  The pieces of Swift's standard library that the rational type's text
  conversions use: `Int(_: String)`, the decimal rendering of an `Int` in
  string interpolation, and `split(separator: "/", maxSplits: 2,
  omittingEmptySubsequences: true)`.
 */
module SwiftText {

  datatype Option<+T> = None | Some(value: T)

  predicate IsDigit(c: char) {
    '0' <= c <= '9'
  }

  predicate AllDigits(s: string) {
    forall i | 0 <= i < |s| :: IsDigit(s[i])
  }

  function DigitValue(c: char): nat
    requires IsDigit(c)
  {
    c as int - '0' as int
  }

  function DigitChar(d: nat): (c: char)
    requires d < 10
    ensures IsDigit(c) && DigitValue(c) == d
  {
    ('0' as int + d) as char
  }

  /** The number a string of decimal digits denotes, most significant digit first. */
  function DigitsValue(s: string): nat
    requires AllDigits(s)
  {
    if s == [] then 0 else DigitsValue(s[..|s| - 1]) * 10 + DigitValue(s[|s| - 1])
  }

  /**
    `Int(_ text: String)` in radix 10: an optional `+` or `-` followed by one or
    more ASCII digits; anything else (empty text, a lone sign, whitespace, any
    other character) gives nil.
   */
  function ParseInt(s: string): Option<int> {
    if |s| > 0 && (s[0] == '+' || s[0] == '-') then
      var digits := s[1..];
      if |digits| > 0 && AllDigits(digits) then
        var v: int := DigitsValue(digits);
        Some(if s[0] == '-' then -v else v)
      else None
    else if |s| > 0 && AllDigits(s) then Some(DigitsValue(s))
    else None
  }

  /** Decimal digits of a natural number, without leading zeros. */
  function ShowNat(n: nat): (s: string)
    ensures |s| > 0 && AllDigits(s)
    ensures |s| > 1 ==> s[0] != '0'
  {
    if n < 10 then [DigitChar(n)] else ShowNat(n / 10) + [DigitChar(n % 10)]
  }

  /** How string interpolation renders an `Int`: a minus sign for negatives, then the digits. */
  function Show(n: int): (s: string)
    ensures |s| > 0 && '/' !in s
  {
    if n < 0 then "-" + ShowNat(-n) else ShowNat(n)
  }

  lemma {:induction false} DigitsOfShowNat(n: nat)
    ensures DigitsValue(ShowNat(n)) == n
    decreases n
  {
    if n >= 10 {
      DigitsOfShowNat(n / 10);
      var s := ShowNat(n);
      assert s[..|s| - 1] == ShowNat(n / 10);
    }
  }

  /** `Int(String)` reads back what interpolation wrote. */
  lemma ParseShow(n: int)
    ensures ParseInt(Show(n)) == Some(n)
  {
    if n < 0 {
      ParseNegative(-n);
      assert Show(n) == "-" + ShowNat(-n);
    } else {
      ParseNatural(n);
    }
  }

  lemma ParseNatural(n: nat)
    ensures ParseInt(ShowNat(n)) == Some(n)
  {
    var s := ShowNat(n);
    assert IsDigit(s[0]);
    DigitsOfShowNat(n);
  }

  lemma ParseNegative(n: nat)
    ensures ParseInt("-" + ShowNat(n)) == Some(-(n as int))
  {
    var s := "-" + ShowNat(n);
    assert s[1..] == ShowNat(n);
    DigitsOfShowNat(n);
  }

  /** The separator count given to `split`. */
  const MaxSplits: nat := 2

  /** The number of separators at the front of `s`. */
  function LeadingSlashes(s: string): (k: nat)
    ensures k <= |s| && (k < |s| ==> s[k] != '/')
    ensures forall i | 0 <= i < k :: s[i] == '/'
  {
    if s != [] && s[0] == '/' then 1 + LeadingSlashes(s[1..]) else 0
  }

  /** The length of the separator-free run at the front of `s`. */
  function RunLength(s: string): (k: nat)
    ensures k <= |s| && (k < |s| ==> s[k] == '/')
    ensures '/' !in s[..k]
  {
    if s != [] && s[0] != '/' then
      var k := 1 + RunLength(s[1..]);
      assert s[..k] == [s[0]] + s[1..][..k - 1];
      k
    else 0
  }

  /**
    `split(separator: "/", maxSplits: 2, omittingEmptySubsequences: true)`.
    Empty pieces are dropped without counting as splits. Once a separator has
    ended the second piece, the scan stops and whatever follows that separator,
    if anything, becomes the last piece, separators included.
   */
  function Split(s: string): (r: seq<string>)
    ensures |r| <= MaxSplits + 1
    ensures forall p | p in r :: p != []
    ensures forall i | 0 <= i < |r| - 1 :: '/' !in r[i]
  {
    SplitPieces(s, 0);
    SplitFrom(s, 0)
  }

  function SplitFrom(s: string, splits: nat): seq<string>
    decreases |s|
  {
    var t := s[LeadingSlashes(s)..];
    if t == [] then []
    else
      var k := RunLength(t);
      if k == |t| then [t]
      else if splits + 1 == MaxSplits then [t[..k]] + (if t[k + 1..] == [] then [] else [t[k + 1..]])
      else [t[..k]] + SplitFrom(t[k + 1..], splits + 1)
  }

  /**
    Before the last split, each piece is a non-empty run without separators;
    only the piece left after the last split may hold separators.
   */
  lemma {:induction false} SplitPieces(s: string, splits: nat)
    requires splits < MaxSplits
    ensures |SplitFrom(s, splits)| <= MaxSplits + 1 - splits
    ensures forall p | p in SplitFrom(s, splits) :: p != []
    ensures forall i | 0 <= i < |SplitFrom(s, splits)| - 1 :: '/' !in SplitFrom(s, splits)[i]
    decreases |s|
  {
    var t := s[LeadingSlashes(s)..];
    if t != [] {
      var k := RunLength(t);
      if k < |t| {
        var rest := if splits + 1 == MaxSplits then (if t[k + 1..] == [] then [] else [t[k + 1..]])
                    else SplitFrom(t[k + 1..], splits + 1);
        assert SplitFrom(s, splits) == [t[..k]] + rest;
        if splits + 1 < MaxSplits {
          SplitPieces(t[k + 1..], splits + 1);
        }
        PrependPiece(t[..k], rest);
      }
    }
  }

  /** A non-empty piece without separators can be put in front of well-formed pieces. */
  lemma PrependPiece(p: string, rest: seq<string>)
    requires p != [] && '/' !in p
    requires forall q | q in rest :: q != []
    requires forall i | 0 <= i < |rest| - 1 :: '/' !in rest[i]
    ensures forall q | q in [p] + rest :: q != []
    ensures forall i | 0 <= i < |[p] + rest| - 1 :: '/' !in ([p] + rest)[i]
  {
    var r := [p] + rest;
    forall i | 0 <= i < |r| - 1
      ensures '/' !in r[i]
    {
      if i > 0 { assert r[i] == rest[i - 1]; }
    }
  }

  /** `n` separators in a row. */
  function Slashes(n: nat): string {
    seq(n, i => '/')
  }

  lemma {:induction false} LeadingSlashesOf(a: nat, t: string)
    requires t == [] || t[0] != '/'
    ensures LeadingSlashes(Slashes(a) + t) == a
  {
    if a > 0 {
      var s := Slashes(a) + t;
      assert s[1..] == Slashes(a - 1) + t;
      LeadingSlashesOf(a - 1, t);
    } else {
      assert Slashes(a) + t == t;
    }
  }

  lemma {:induction false} RunLengthOf(p: string, rest: string)
    requires '/' !in p && (rest == [] || rest[0] == '/')
    ensures RunLength(p + rest) == |p|
  {
    if p != [] {
      assert (p + rest)[1..] == p[1..] + rest;
      RunLengthOf(p[1..], rest);
    } else {
      assert p + rest == rest;
    }
  }

  /** Separators in front of a piece are skipped without counting. */
  lemma SkipSeparators(a: nat, t: string, splits: nat)
    requires t == [] || t[0] != '/'
    ensures SplitFrom(Slashes(a) + t, splits) == SplitFrom(t, splits)
  {
    LeadingSlashesOf(a, t);
    assert (Slashes(a) + t)[a..] == t;
    assert LeadingSlashes(t) == 0 && t[0..] == t;
  }

  /** Splitting `p`, separators, `q`, then `c` trailing separators. */
  lemma SplitTokensThenSeparators(a: nat, p: string, b: nat, q: string, c: nat)
    requires p != [] && q != [] && '/' !in p && '/' !in q
    requires b >= 1
    ensures Split(Slashes(a) + p + Slashes(b) + q + Slashes(c)) ==
            [p, q] + (if c >= 2 then [Slashes(c - 1)] else [])
  {
    var u := Slashes(b - 1) + (q + Slashes(c));
    calc {
      Split(Slashes(a) + p + Slashes(b) + q + Slashes(c));
      { SeparatorsAroundFirst(a, p, b, q, c); }
      Split(Slashes(a) + (p + "/" + u));
      { SkipSeparators(a, p + "/" + u, 0); }
      SplitFrom(p + "/" + u, 0);
      { FirstOfSeveral(p, u); }
      [p] + SplitFrom(u, 1);
      { SkipSeparators(b - 1, q + Slashes(c), 1); }
      [p] + SplitFrom(q + Slashes(c), 1);
      { TrailingSeparators(q, c); }
      [p] + ([q] + (if c >= 2 then [Slashes(c - 1)] else []));
    }
  }

  lemma SeparatorsAroundFirst(a: nat, p: string, b: nat, q: string, c: nat)
    requires b >= 1
    ensures Slashes(a) + p + Slashes(b) + q + Slashes(c) ==
            Slashes(a) + (p + "/" + (Slashes(b - 1) + (q + Slashes(c))))
  {
    assert Slashes(b) == "/" + Slashes(b - 1);
  }

  /** The last token and the separators after it. */
  lemma TrailingSeparators(q: string, c: nat)
    requires q != [] && '/' !in q
    ensures SplitFrom(q + Slashes(c), 1) == [q] + (if c >= 2 then [Slashes(c - 1)] else [])
  {
    if c == 0 {
      OnlyPiece(q, 1);
      assert q + Slashes(c) == q;
    } else {
      assert q + Slashes(c) == q + "/" + Slashes(c - 1) by {
        assert Slashes(c) == "/" + Slashes(c - 1);
      }
      LastTwo(q, Slashes(c - 1));
    }
  }

  /** A token alone is one piece. */
  lemma OnlyPiece(q: string, splits: nat)
    requires q != [] && '/' !in q
    ensures SplitFrom(q, splits) == [q]
  {
    assert LeadingSlashes(q) == 0 && q[0..] == q;
    RunLengthOf(q, []);
    assert q + [] == q;
  }

  /** Three tokens with single separators stay three pieces. */
  lemma SplitThreeTokens(p: string, q: string, r: string)
    requires p != [] && q != [] && r != [] && '/' !in p && '/' !in q && '/' !in r
    ensures Split(p + "/" + q + "/" + r) == [p, q, r]
  {
    var u := q + "/" + r;
    assert p + "/" + q + "/" + r == p + "/" + u;
    FirstOfSeveral(p, u);
    LastTwo(q, r);
  }

  /** A token and a separator: the token is the first piece, the rest is split on. */
  lemma FirstOfSeveral(p: string, u: string)
    requires p != [] && '/' !in p
    ensures Split(p + "/" + u) == [p] + SplitFrom(u, 1)
  {
    var s := p + "/" + u;
    Cut(p, u);
    SplitAtPiece(s, 0, |p|);
  }

  /** After the first piece, a token and a separator end the split: the rest, if any, is the last piece. */
  lemma LastTwo(q: string, r: string)
    requires q != [] && '/' !in q
    ensures SplitFrom(q + "/" + r, 1) == [q] + (if r == [] then [] else [r])
  {
    var s := q + "/" + r;
    Cut(q, r);
    SplitAtPiece(s, 1, |q|);
  }

  /** Where a token followed by a separator ends. */
  lemma Cut(p: string, u: string)
    requires p != [] && '/' !in p
    ensures var s := p + "/" + u;
            s[0] != '/' && RunLength(s) == |p| < |s| && s[..|p|] == p && s[|p| + 1..] == u
  {
    var s := p + "/" + u;
    assert s == p + ("/" + u);
    RunLengthOf(p, "/" + u);
    assert s[..|p|] == p;
    assert s[|p| + 1..] == u;
  }

  /** One step of the split on a string that starts with a token. */
  lemma SplitAtPiece(s: string, splits: nat, k: nat)
    requires s != [] && s[0] != '/' && k == RunLength(s) && k < |s|
    ensures SplitFrom(s, splits) ==
            [s[..k]] + if splits + 1 == MaxSplits then (if s[k + 1..] == [] then [] else [s[k + 1..]])
                       else SplitFrom(s[k + 1..], splits + 1)
  {
    assert LeadingSlashes(s) == 0 && s[0..] == s;
  }

  /**
    Conversely, whenever the split yields exactly two pieces, the string is
    separators, the first piece, at least one separator, the second piece and
    at most one trailing separator.
   */
  lemma SplitTwoHasShape(s: string) returns (a: nat, b: nat, c: nat)
    requires |Split(s)| == 2
    ensures b >= 1 && c <= 1
    ensures Split(s)[0] != [] && '/' !in Split(s)[0]
    ensures Split(s)[1] != [] && '/' !in Split(s)[1]
    ensures s == Slashes(a) + Split(s)[0] + Slashes(b) + Split(s)[1] + Slashes(c)
  {
    var p, u, b', q;
    a, p, u := FirstPieceShape(s);
    b', q, c := LastPieceShape(u);
    b := b' + 1;
    assert Split(s) == [p, q];
    Join(s, a, p, u, b', q, c);
  }

  lemma Join(s: string, a: nat, p: string, u: string, b: nat, q: string, c: nat)
    requires s == Slashes(a) + p + "/" + u && u == Slashes(b) + q + Slashes(c)
    ensures s == Slashes(a) + p + Slashes(b + 1) + q + Slashes(c)
  {
    assert "/" + Slashes(b) == Slashes(b + 1);
  }

  /** The first piece of a split that yields more than one. */
  lemma FirstPieceShape(s: string) returns (a: nat, p: string, u: string)
    requires |SplitFrom(s, 0)| >= 2
    ensures p != [] && '/' !in p
    ensures s == Slashes(a) + p + "/" + u
    ensures SplitFrom(s, 0) == [p] + SplitFrom(u, 1)
  {
    a, p, u := SplitAfterFirstPiece(s);
    Regroup(s, a, p, u);
  }

  lemma Regroup(s: string, a: nat, p: string, u: string)
    requires a == LeadingSlashes(s) && s[a..] == p + "/" + u
    ensures s == Slashes(a) + p + "/" + u
  {
    SeparatorPrefix(s);
  }

  lemma SplitAfterFirstPiece(s: string) returns (a: nat, p: string, u: string)
    requires |SplitFrom(s, 0)| >= 2
    ensures a == LeadingSlashes(s) && s[a..] == p + "/" + u
    ensures p != [] && '/' !in p
    ensures SplitFrom(s, 0) == [p] + SplitFrom(u, 1)
  {
    a := LeadingSlashes(s);
    var t := s[a..];
    var k := FirstSeparator(s);
    p, u := t[..k], t[k + 1..];
    CutAt(t, k);
  }

  /** Where the first piece of a split with more than one ends. */
  lemma FirstSeparator(s: string) returns (k: nat)
    requires |SplitFrom(s, 0)| >= 2
    ensures var t := s[LeadingSlashes(s)..];
            k == RunLength(t) && 0 < k < |t| &&
            SplitFrom(s, 0) == [t[..k]] + SplitFrom(t[k + 1..], 1)
  {
    var t := s[LeadingSlashes(s)..];
    assert t != [];
    assert t[0] == s[LeadingSlashes(s)];
    k := RunLength(t);
  }

  /** Cutting a string at a separator. */
  lemma CutAt(t: string, k: nat)
    requires k < |t| && t[k] == '/'
    ensures t == t[..k] + "/" + t[k + 1..]
  {
  }

  /** A string is its leading separators followed by the rest. */
  lemma SeparatorPrefix(s: string)
    ensures s == Slashes(LeadingSlashes(s)) + s[LeadingSlashes(s)..]
  {
    var a := LeadingSlashes(s);
    assert s[..a] == Slashes(a);
    assert s == s[..a] + s[a..];
  }

  /** The last piece of a split that has already produced one. */
  lemma LastPieceShape(u: string) returns (b: nat, q: string, c: nat)
    requires |SplitFrom(u, 1)| == 1
    ensures q != [] && '/' !in q && c <= 1
    ensures u == Slashes(b) + q + Slashes(c)
    ensures SplitFrom(u, 1) == [q]
  {
    b, q, c := SplitLastPiece(u);
    SeparatorPrefix(u);
  }

  lemma SplitLastPiece(u: string) returns (b: nat, q: string, c: nat)
    requires |SplitFrom(u, 1)| == 1
    ensures b == LeadingSlashes(u) && u[b..] == q + Slashes(c)
    ensures q != [] && '/' !in q && c <= 1
    ensures SplitFrom(u, 1) == [q]
  {
    b := LeadingSlashes(u);
    var t := u[b..];
    var k := RunLength(t);
    assert t[0] == u[b] != '/';
    q, c := t[..k], |t| - k;
    if k < |t| {
      var rest := t[k + 1..];
      assert SplitFrom(u, 1) == [q] + (if rest == [] then [] else [rest]);
      assert rest == [];
      assert t == q + Slashes(1);
    } else {
      assert q == t && t == q + Slashes(0);
    }
  }
}
