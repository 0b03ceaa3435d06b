/**
  What number a cell denotes, said without the normalizer's own pattern, and what
  the normalizer does in these terms.
 */
module NumberMeaning {
  import opened CodeUnits
  import opened NumberForm
  import opened Wrappers

  /** Commas, underscores and white space only group digits. */
  const GROUPING: set<int> := {
    ',' as int, '_' as int, 0x09, 0x0A, 0x0B, 0x0C, 0x0D, 0x20, 0xA0, 0x1680,
    0x2000, 0x2001, 0x2002, 0x2003, 0x2004, 0x2005, 0x2006, 0x2007, 0x2008, 0x2009, 0x200A,
    0x2028, 0x2029, 0x202F, 0x205F, 0x3000, 0xFEFF}

  function Kept(s: Text): Text {
    if s == [] then [] else Kept(s[..|s| - 1]) + if s[|s| - 1] in GROUPING then [] else [s[|s| - 1]]
  }

  predicate DecimalDigits(d: Text) {
    forall i :: 0 <= i < |d| ==> '0' as int <= d[i] <= '9' as int
  }

  function Body(n: Parts): Text {
    n.whole + if n.fraction == [] then [] else Units(".") + n.fraction
  }

  /** t spells n: digits, possibly a point and more digits, and possibly a sign. */
  predicate Spells(t: Text, n: Parts) {
    && n.whole != [] && DecimalDigits(n.whole) && DecimalDigits(n.fraction)
    && (if n.negative then t == Units("-") + Body(n) else t == Body(n) || t == Units("+") + Body(n))
  }

  function Pow10(k: nat): (p: nat)
    ensures p > 0
  {
    if k == 0 then 1 else 10 * Pow10(k - 1)
  }

  /** Place value. */
  function Decimal(d: Text): int {
    if d == [] then 0 else (d[0] - '0' as int) * Pow10(|d| - 1) + Decimal(d[1..])
  }

  function Meaning(n: Parts): real {
    var size := Decimal(n.whole + n.fraction) as real / Pow10(|n.fraction|) as real;
    if n.negative then -size else size
  }

  /** The cell spells a number, once the grouping is left out, whose value is q. */
  ghost predicate CellDenotes(s: Text, q: real) {
    exists n :: Spells(Kept(s), n) && Meaning(n) == q
  }

  // ------------------------------------------------------------------
  // The pattern accepts what is spelled
  // ------------------------------------------------------------------

  lemma SeparatorIsGrouping(c: CodeUnit)
    ensures IsSeparator(c) <==> c in GROUPING
  {
  }

  lemma StrippedNothing()
    ensures Stripped([]) == []
  {
  }

  lemma StrippedCons(s: Text)
    requires s != []
    ensures Stripped(s) == (if IsSeparator(s[0]) then [] else [s[0]]) + Stripped(s[1..])
  {
    hide IsSeparator;
  }

  lemma {:induction false} StrippedSnoc(s: Text, c: CodeUnit)
    ensures Stripped(s + [c]) == Stripped(s) + if IsSeparator(c) then [] else [c]
  {
    hide Stripped, IsSeparator;
    if s == [] {
      assert s + [c] == [c] && [c][1..] == [];
      StrippedNothing();
      StrippedCons([c]);
    } else {
      assert (s + [c])[1..] == s[1..] + [c];
      StrippedCons(s);
      StrippedCons(s + [c]);
      StrippedSnoc(s[1..], c);
    }
  }

  lemma {:induction false} KeptIsStripped(s: Text)
    ensures Kept(s) == Stripped(s)
  {
    hide IsSeparator;
    if s != [] {
      var front, c := s[..|s| - 1], s[|s| - 1];
      assert s == front + [c];
      KeptIsStripped(front);
      StrippedSnoc(front, c);
      SeparatorIsGrouping(c);
    }
  }

  lemma BodyIsUnsigned(n: Parts)
    ensures Body(n) == Unsigned(n)
  {
    assert Units(".") == [POINT];
    if n.fraction == [] {
      assert n.whole + [] == n.whole;
    }
  }

  lemma BodyMatches(n: Parts)
    requires n.whole != [] && DecimalDigits(n.whole) && DecimalDigits(n.fraction)
    ensures Body(n) != [] && IsDigit(Body(n)[0]) && MatchDigits(n.negative, Body(n)) == Some(n)
  {
    assert Matched(n);
    BodyIsUnsigned(n);
    UnsignedMatches(n);
    DigitsReadBack(n, n.negative);
  }

  lemma PlusReadsBack(u: Text)
    ensures Match([PLUS] + u) == MatchDigits(false, u)
  {
    hide MatchDigits;
    assert ([PLUS] + u)[0] == PLUS && ([PLUS] + u)[1..] == u;
  }

  lemma SpelledMatches(t: Text, n: Parts)
    requires Spells(t, n)
    ensures Match(t) == Some(n)
  {
    hide Match, MatchDigits, Body;
    BodyMatches(n);
    SignReadsBack(Body(n));
    PlusReadsBack(Body(n));
    assert Units("-") == [MINUS] && Units("+") == [PLUS];
  }

  lemma MatchedIsSpelled(t: Text)
    requires Match(t).Some?
    ensures Spells(t, Match(t).value)
  {
    var n := Match(t).value;
    MatchIsMatched(t);
    var signed := t != [] && (t[0] == PLUS || t[0] == MINUS);
    var u := if signed then t[1..] else t;
    assert signed ==> t == [t[0]] + u;
    DigitsAreBody(n.negative, u);
    assert Units("-") == [MINUS] && Units("+") == [PLUS];
  }

  lemma DigitsAreBody(negative: bool, u: Text)
    requires MatchDigits(negative, u).Some?
    ensures Body(MatchDigits(negative, u).value) == u && MatchDigits(negative, u).value.negative == negative
  {
    var n := DigitRun(u);
    assert Units(".") == [POINT];
    if n == |u| {
      assert u + [] == u;
    } else {
      assert u == u[..n] + ([u[n]] + u[n + 1..]);
    }
  }

  // ------------------------------------------------------------------
  // Place value
  // ------------------------------------------------------------------

  lemma {:induction false} DecimalAppend(a: Text, b: Text)
    ensures Decimal(a + b) == Decimal(a) * Pow10(|b|) + Decimal(b)
  {
    if a == [] {
      assert a + b == b;
    } else {
      assert (a + b)[1..] == a[1..] + b;
      DecimalAppend(a[1..], b);
      PowAdds(|a| - 1, |b|);
      Regroup(a[0] - '0' as int, Pow10(|a| - 1), Pow10(|b|), Decimal(a[1..]));
    }
  }

  lemma Regroup(d: int, x: int, y: int, z: int)
    ensures d * (x * y) + z * y == (d * x + z) * y
  {
    assert d * (x * y) == (d * x) * y;
  }

  lemma PowZero()
    ensures Pow10(0) == 1
  {
  }

  lemma PowNext(k: nat)
    ensures Pow10(k + 1) == 10 * Pow10(k)
  {
  }

  lemma {:induction false} PowAdds(i: nat, j: nat)
    ensures Pow10(i + j) == Pow10(i) * Pow10(j)
  {
    hide Pow10;
    if i == 0 {
      PowZero();
    } else {
      PowAdds(i - 1, j);
      PowNext(i - 1);
      PowNext(i - 1 + j);
      assert i - 1 + j + 1 == i + j;
      TenTimes(Pow10(i - 1), Pow10(j));
    }
  }

  lemma TenTimes(x: int, y: int)
    ensures 10 * (x * y) == (10 * x) * y
  {
  }

  lemma {:induction false} WholeIsDecimal(d: Text)
    ensures WholeValue(d) == Decimal(d)
    decreases |d|
  {
    if d != [] {
      var front, last := d[..|d| - 1], d[|d| - 1];
      assert d == front + [last];
      WholeIsDecimal(front);
      DecimalAppend(front, [last]);
      assert Pow10(1) == 10 && Decimal([last]) == last - '0' as int;
    }
  }

  lemma {:induction false} FractionIsDecimal(f: Text)
    ensures FractionValue(f) * Pow10(|f|) as real == Decimal(f) as real
  {
    hide Pow10;
    if f == [] {
      PowZero();
    } else {
      PowNext(|f| - 1);
      FractionIsDecimal(f[1..]);
      var p := Pow10(|f| - 1);
      var v, d := FractionValue(f[1..]), f[0] - '0' as int;
      ShiftDigit(v, d, p, Decimal(f[1..]));
    }
  }

  lemma ShiftDigit(v: real, d: int, p: nat, r: int)
    requires v * p as real == r as real
    ensures (d as real + v) / 10.0 * (10 * p) as real == (d * p + r) as real
  {
    var x := p as real;
    assert (10 * p) as real == 10.0 * x;
    assert (d as real + v) / 10.0 * (10.0 * x) == (d as real + v) * x;
    assert (d as real + v) * x == d as real * x + v * x;
    assert (d * p) as real == d as real * x;
  }

  lemma PartsMean(n: Parts)
    ensures PartsValue(n) == Meaning(n)
  {
    hide Decimal, WholeValue, FractionValue, Pow10;
    var w, f, p := WholeValue(n.whole), FractionValue(n.fraction), Pow10(|n.fraction|);
    WholeIsDecimal(n.whole);
    FractionIsDecimal(n.fraction);
    DecimalAppend(n.whole, n.fraction);
    Quotient(w, f, p, Decimal(n.fraction));
  }

  lemma Quotient(w: int, f: real, p: nat, d: int)
    requires p > 0 && f * p as real == d as real
    ensures w as real + f == (w * p + d) as real / p as real
  {
    var x := p as real;
    assert (w * p) as real == w as real * x;
    assert (w as real + f) * x == w as real * x + f * x == (w * p + d) as real;
    Divided(w as real + f, x);
  }

  lemma Divided(a: real, x: real)
    requires x > 0.0
    ensures a * x / x == a
  {
  }

  // ------------------------------------------------------------------
  // What the normalizer does
  // ------------------------------------------------------------------

  lemma {:induction false} DenotesIsCellDenotes(s: Text, q: real)
    ensures CellDenotes(s, q) <==> Denotes(s) == Some(q)
  {
    hide Match, Stripped, Kept, PartsValue, Meaning, Spells;
    KeptIsStripped(s);
    if n :| Spells(Kept(s), n) && Meaning(n) == q {
      SpelledMatches(Kept(s), n);
      PartsMean(n);
    }
    if Match(Stripped(s)).Some? {
      MatchedIsSpelled(Stripped(s));
      PartsMean(Match(Stripped(s)).value);
    }
  }

  /** A cell is accepted exactly when it spells a number, and its canonical text spells the same one. */
  lemma {:induction false} NormalizeMeans(s: Text)
    ensures NormalizeNumber(s).Some? <==> exists q :: CellDenotes(s, q)
    ensures NormalizeNumber(s).Some? ==> forall q :: CellDenotes(s, q) <==> CellDenotes(NormalizeNumber(s).value, q)
  {
    hide NormalizeNumber, Denotes, CellDenotes;
    NormalizeKeepsValue(s);
    forall q
      ensures CellDenotes(s, q) <==> Denotes(s) == Some(q)
      ensures NormalizeNumber(s).Some? ==>
                (CellDenotes(NormalizeNumber(s).value, q) <==> Denotes(NormalizeNumber(s).value) == Some(q))
    {
      DenotesIsCellDenotes(s, q);
      if NormalizeNumber(s).Some? {
        DenotesIsCellDenotes(NormalizeNumber(s).value, q);
      }
    }
    if Denotes(s).Some? {
      assert CellDenotes(s, Denotes(s).value);
    }
  }

  /** Cells of the same number, and no others, get the same text. */
  lemma {:induction false} SameTextSameNumber(a: Text, b: Text, p: real, q: real)
    requires CellDenotes(a, p) && CellDenotes(b, q)
    ensures NormalizeNumber(a).Some? && NormalizeNumber(b).Some?
    ensures NormalizeNumber(a) == NormalizeNumber(b) <==> p == q
  {
    hide NormalizeNumber, Denotes, CellDenotes;
    DenotesIsCellDenotes(a, p);
    DenotesIsCellDenotes(b, q);
    NormalizeKeepsValue(a);
    NormalizeKeepsValue(b);
    CanonicalNumber(a, b);
  }

  /** The canonical text has no plus sign, no grouping, no zero in front of another whole digit, no
      zero at the end of a fraction, and no minus before zero. */
  lemma {:induction false} CanonicalShape(s: Text) returns (n: Parts)
    requires NormalizeNumber(s).Some?
    ensures n.whole != [] && DecimalDigits(n.whole) && DecimalDigits(n.fraction)
    ensures NormalizeNumber(s).value == (if n.negative then Units("-") else []) + Body(n)
    ensures |n.whole| > 1 ==> n.whole[0] != '0' as int
    ensures n.fraction != [] ==> n.fraction[|n.fraction| - 1] != '0' as int
    ensures n.negative ==> Body(n) != Units("0")
  {
    var p := Match(Stripped(s)).value;
    MatchIsMatched(Stripped(s));
    ReducedKeeps(p);
    n := Reduced(p);
    BodyIsUnsigned(n);
    assert Units("-") == [MINUS] && Units("0") == [ZERO];
    if Unsigned(n) == [ZERO] {
      n := n.(negative := false);
      assert [] + Unsigned(n) == Unsigned(n);
    }
  }
}
