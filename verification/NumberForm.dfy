/**
  The canonical form of a number cell: grouping separators stripped, no leading
  zeros, no trailing fraction zeros, never a negative zero.
 */
module NumberForm {
  import opened CodeUnits
  import opened Wrappers

  const PLUS: CodeUnit := 43
  const MINUS: CodeUnit := 45
  const POINT: CodeUnit := 46
  const ZERO: CodeUnit := 48
  const NINE: CodeUnit := 57
  const UNDERSCORE: CodeUnit := 95

  predicate IsDigit(c: CodeUnit) {
    ZERO <= c <= NINE
  }

  /** White space as the regular-expression class \s has it. */
  predicate IsSpace(c: CodeUnit) {
    9 <= c <= 13 || c in {0x20, 0xA0, 0x1680, 0x2028, 0x2029, 0x202F, 0x205F, 0x3000, 0xFEFF} || 0x2000 <= c <= 0x200A
  }

  predicate IsSeparator(c: CodeUnit) {
    c == COMMA || c == UNDERSCORE || IsSpace(c)
  }

  function Stripped(s: Text): Text {
    if s == [] then [] else (if IsSeparator(s[0]) then [] else [s[0]]) + Stripped(s[1..])
  }

  predicate AllDigits(s: Text) {
    forall i :: 0 <= i < |s| ==> IsDigit(s[i])
  }

  /** A matched number: sign, whole digits and fraction digits, empty when absent. */
  datatype Parts = Parts(negative: bool, whole: Text, fraction: Text)

  /** How many digits s starts with. */
  function DigitRun(s: Text): (n: nat)
    ensures n <= |s| && AllDigits(s[..n])
    ensures n < |s| ==> !IsDigit(s[n])
  {
    if s == [] || !IsDigit(s[0]) then 0
    else
      var n := DigitRun(s[1..]);
      assert s[..n + 1] == [s[0]] + s[1..][..n];
      n + 1
  }

  /** The anchored match: optional sign, digits, optionally a point and digits. */
  function Match(t: Text): Option<Parts> {
    var signed := t != [] && (t[0] == PLUS || t[0] == MINUS);
    var negative := t != [] && t[0] == MINUS;
    MatchDigits(negative, if signed then t[1..] else t)
  }

  function MatchDigits(negative: bool, u: Text): Option<Parts> {
    var n := DigitRun(u);
    if n == 0 then None
    else if n == |u| then Some(Parts(negative, u, []))
    else if u[n] != POINT || n + 1 == |u| || DigitRun(u[n + 1..]) < |u| - n - 1 then None
    else Some(Parts(negative, u[..n], u[n + 1..]))
  }

  /** Drops zeros in front as long as a digit remains. */
  function NoLeadingZeros(d: Text): Text {
    if |d| > 1 && d[0] == ZERO then NoLeadingZeros(d[1..]) else d
  }

  function NoTrailingZeros(f: Text): Text {
    if f != [] && f[|f| - 1] == ZERO then NoTrailingZeros(f[..|f| - 1]) else f
  }

  function Unsigned(p: Parts): Text {
    if p.fraction != [] then p.whole + [POINT] + p.fraction else p.whole
  }

  function Render(p: Parts): Text {
    var out := Unsigned(p);
    if out == [ZERO] then [ZERO] else (if p.negative then [MINUS] else []) + out
  }

  function Reduced(p: Parts): Parts {
    p.(whole := NoLeadingZeros(p.whole), fraction := NoTrailingZeros(p.fraction))
  }

  function NormalizeNumber(s: Text): Option<Text> {
    match Match(Stripped(s))
    case None => None
    case Some(p) => Some(Render(Reduced(p)))
  }

  // ------------------------------------------------------------------
  // What a number denotes
  // ------------------------------------------------------------------

  function DigitValue(c: CodeUnit): int {
    c - ZERO
  }

  function WholeValue(d: Text): int {
    if d == [] then 0 else 10 * WholeValue(d[..|d| - 1]) + DigitValue(d[|d| - 1])
  }

  function FractionValue(f: Text): real {
    if f == [] then 0.0 else (DigitValue(f[0]) as real + FractionValue(f[1..])) / 10.0
  }

  function PartsValue(p: Parts): real {
    var size := WholeValue(p.whole) as real + FractionValue(p.fraction);
    if p.negative then -size else size
  }

  /** The rational number a cell denotes, if it is a number at all. */
  function Denotes(s: Text): Option<real> {
    match Match(Stripped(s))
    case None => None
    case Some(p) => Some(PartsValue(p))
  }

  predicate Matched(p: Parts) {
    p.whole != [] && AllDigits(p.whole) && AllDigits(p.fraction)
  }

  lemma MatchIsMatched(t: Text)
    ensures Match(t).Some? ==> Matched(Match(t).value)
  {
    var u := if t != [] && (t[0] == PLUS || t[0] == MINUS) then t[1..] else t;
    var n := DigitRun(u);
    assert u[..|u|] == u;
    if n < |u| && DigitRun(u[n + 1..]) == |u| - n - 1 {
      assert u[n + 1..][..|u| - n - 1] == u[n + 1..];
    }
  }

  // ------------------------------------------------------------------
  // Dropping zeros keeps the value
  // ------------------------------------------------------------------

  lemma {:induction false} WholeValueOfZero(d: Text)
    ensures WholeValue([ZERO] + d) == WholeValue(d)
    decreases |d|
  {
    var z := [ZERO] + d;
    if d == [] {
      assert z == [ZERO] && z[..0] == [];
    } else {
      assert z[..|z| - 1] == [ZERO] + d[..|d| - 1];
      WholeValueOfZero(d[..|d| - 1]);
    }
  }

  lemma {:induction false} NoLeadingZerosKeeps(d: Text)
    requires d != [] && AllDigits(d)
    ensures var r := NoLeadingZeros(d);
            r != [] && AllDigits(r) && WholeValue(r) == WholeValue(d) && (|r| == 1 || r[0] != ZERO)
    decreases |d|
  {
    if |d| > 1 && d[0] == ZERO {
      NoLeadingZerosKeeps(d[1..]);
      WholeValueOfZero(d[1..]);
      assert d == [ZERO] + d[1..];
    }
  }

  lemma {:induction false} FractionValueOfZero(f: Text)
    ensures FractionValue(f + [ZERO]) == FractionValue(f)
    decreases |f|
  {
    var z := f + [ZERO];
    if f == [] {
      assert z == [ZERO] && z[1..] == [];
    } else {
      assert z[1..] == f[1..] + [ZERO];
      FractionValueOfZero(f[1..]);
    }
  }

  lemma {:induction false} NoTrailingZerosKeeps(f: Text)
    requires AllDigits(f)
    ensures var r := NoTrailingZeros(f);
            AllDigits(r) && FractionValue(r) == FractionValue(f) && (r != [] ==> r[|r| - 1] != ZERO)
    decreases |f|
  {
    if f != [] && f[|f| - 1] == ZERO {
      NoTrailingZerosKeeps(f[..|f| - 1]);
      FractionValueOfZero(f[..|f| - 1]);
      assert f == f[..|f| - 1] + [ZERO];
    }
  }

  // ------------------------------------------------------------------
  // Reduced digits are determined by their value
  // ------------------------------------------------------------------

  predicate ReducedWhole(d: Text) {
    d != [] && AllDigits(d) && (|d| == 1 || d[0] != ZERO)
  }

  predicate ReducedFraction(f: Text) {
    AllDigits(f) && (f != [] ==> f[|f| - 1] != ZERO)
  }

  lemma {:induction false} WholeValueSize(d: Text)
    requires d != [] && AllDigits(d)
    ensures 0 <= DigitValue(d[0]) <= WholeValue(d)
    ensures |d| > 1 && d[0] != ZERO ==> WholeValue(d) >= 10
    decreases |d|
  {
    if |d| > 1 {
      WholeValueSize(d[..|d| - 1]);
    } else {
      assert WholeValue(d[..0]) == 0;
    }
  }

  lemma {:induction false} WholeUnique(a: Text, b: Text)
    requires ReducedWhole(a) && ReducedWhole(b) && WholeValue(a) == WholeValue(b)
    ensures a == b
    decreases |a|
  {
    WholeValueSize(a);
    WholeValueSize(b);
    var fa, fb := a[..|a| - 1], b[..|b| - 1];
    var da, db := DigitValue(a[|a| - 1]), DigitValue(b[|b| - 1]);
    assert WholeValue(a) == 10 * WholeValue(fa) + da && WholeValue(b) == 10 * WholeValue(fb) + db;
    assert |a| == 1 ==> WholeValue(fa) == 0;
    assert |b| == 1 ==> WholeValue(fb) == 0;
    assert 0 <= da < 10 && 0 <= db < 10;
    assert da == db && WholeValue(fa) == WholeValue(fb);
    if |a| > 1 && |b| > 1 {
      WholeUnique(fa, fb);
    }
    assert a == fa + [a[|a| - 1]] && b == fb + [b[|b| - 1]];
  }

  lemma {:induction false} FractionBounds(f: Text)
    requires AllDigits(f)
    ensures 0.0 <= FractionValue(f) < 1.0
    ensures f != [] && f[|f| - 1] != ZERO ==> FractionValue(f) > 0.0
    decreases |f|
  {
    if f != [] {
      FractionBounds(f[1..]);
    }
  }

  lemma {:induction false} FractionUnique(a: Text, b: Text)
    requires ReducedFraction(a) && ReducedFraction(b) && FractionValue(a) == FractionValue(b)
    ensures a == b
    decreases |a|
  {
    FractionBounds(a);
    FractionBounds(b);
    if a != [] && b != [] {
      FractionBounds(a[1..]);
      FractionBounds(b[1..]);
      var x, y := FractionValue(a[1..]), FractionValue(b[1..]);
      var m, n := DigitValue(a[0]), DigitValue(b[0]);
      assert m as real + x == 10.0 * FractionValue(a) == n as real + y;
      SameWholePart(m, n, x, y);
      FractionUnique(a[1..], b[1..]);
      assert a == [a[0]] + a[1..] && b == [b[0]] + b[1..];
    }
  }

  lemma SameWholePart(m: int, n: int, x: real, y: real)
    requires 0.0 <= x < 1.0 && 0.0 <= y < 1.0 && m as real + x == n as real + y
    ensures m == n && x == y
  {
    assert (m - n) as real == y - x;
  }

  // ------------------------------------------------------------------
  // The canonical form
  // ------------------------------------------------------------------

  predicate ReducedParts(p: Parts) {
    ReducedWhole(p.whole) && ReducedFraction(p.fraction)
  }

  lemma ReducedKeeps(p: Parts)
    requires Matched(p)
    ensures ReducedParts(Reduced(p)) && PartsValue(Reduced(p)) == PartsValue(p) && Reduced(p).negative == p.negative
  {
    NoLeadingZerosKeeps(p.whole);
    NoTrailingZerosKeeps(p.fraction);
  }

  predicate IsZero(p: Parts) {
    p.whole == [ZERO] && p.fraction == []
  }

  lemma ZeroParts(p: Parts)
    requires ReducedParts(p)
    ensures IsZero(p) <==> PartsValue(p) == 0.0
    ensures p.negative ==> PartsValue(p) <= 0.0
    ensures !p.negative ==> PartsValue(p) >= 0.0
  {
    WholeValueSize(p.whole);
    FractionBounds(p.fraction);
    assert IsZero(p) ==> p.whole[..0] == [] && WholeValue(p.whole) == 0;
    if PartsValue(p) == 0.0 {
      assert WholeValue(p.whole) == 0 && FractionValue(p.fraction) == 0.0;
      assert [ZERO][..0] == [] && WholeValue([ZERO]) == 0;
      WholeUnique(p.whole, [ZERO]);
    }
  }

  /** Reduced parts with the same value render the same. */
  lemma SameValueSameText(p: Parts, q: Parts)
    requires ReducedParts(p) && ReducedParts(q) && PartsValue(p) == PartsValue(q)
    ensures Render(p) == Render(q)
  {
    ZeroParts(p);
    ZeroParts(q);
    if !IsZero(p) {
      FractionBounds(p.fraction);
      FractionBounds(q.fraction);
      assert p.negative == q.negative;
      SameWholePart(WholeValue(p.whole), WholeValue(q.whole), FractionValue(p.fraction), FractionValue(q.fraction));
      WholeUnique(p.whole, q.whole);
      FractionUnique(p.fraction, q.fraction);
    }
  }

  lemma {:induction false} NothingToStrip(s: Text)
    requires forall i :: 0 <= i < |s| ==> !IsSeparator(s[i])
    ensures Stripped(s) == s
  {
    if s != [] {
      NothingToStrip(s[1..]);
      assert s == [s[0]] + s[1..];
    }
  }

  lemma {:induction false} RunOfDigits(d: Text, rest: Text)
    requires AllDigits(d) && (rest == [] || !IsDigit(rest[0]))
    ensures DigitRun(d + rest) == |d|
  {
    if d == [] {
      assert d + rest == rest;
    } else {
      assert (d + rest)[1..] == d[1..] + rest;
      RunOfDigits(d[1..], rest);
    }
  }

  lemma UnsignedIsZero(p: Parts)
    requires Matched(p)
    ensures Unsigned(p) == [ZERO] <==> IsZero(p)
  {
    assert p.fraction != [] ==> |Unsigned(p)| > 1;
  }

  /** The digits and the point are read back as the same digits. */
  lemma UnsignedMatches(p: Parts)
    requires Matched(p)
    ensures var u := Unsigned(p); var n := DigitRun(u);
            && 0 < n == |p.whole| && u[..n] == p.whole && IsDigit(u[0])
            && (p.fraction == [] ==> n == |u|)
            && (p.fraction != [] ==> n + 1 < |u| && u[n] == POINT && u[n + 1..] == p.fraction
                                     && DigitRun(u[n + 1..]) == |u| - n - 1)
  {
    var tail := if p.fraction == [] then [] else [POINT] + p.fraction;
    assert Unsigned(p) == p.whole + tail;
    RunOfDigits(p.whole, tail);
    RunOfDigits(p.fraction, []);
    assert p.fraction + [] == p.fraction;
  }

  lemma RenderHasNoSeparator(p: Parts)
    requires Matched(p)
    ensures Stripped(Render(p)) == Render(p)
  {
    var t := Render(p);
    assert forall c :: c in t ==> IsDigit(c) || c == POINT || c == MINUS;
    NothingToStrip(t);
  }

  lemma DigitsReadBack(p: Parts, negative: bool)
    requires Matched(p)
    ensures MatchDigits(negative, Unsigned(p)) == Some(p.(negative := negative))
  {
    UnsignedMatches(p);
    hide DigitRun, Unsigned;
  }

  lemma SignReadsBack(u: Text)
    requires u != [] && IsDigit(u[0])
    ensures Match(u) == MatchDigits(false, u) && Match([MINUS] + u) == MatchDigits(true, u)
  {
    hide MatchDigits;
    assert ([MINUS] + u)[0] == MINUS && ([MINUS] + u)[1..] == u;
  }

  /** The canonical text is a number with the same digits; zero loses its sign. */
  lemma RenderReadsBack(p: Parts)
    requires ReducedParts(p)
    ensures Match(Stripped(Render(p))) == Some(if IsZero(p) then p.(negative := false) else p)
  {
    RenderHasNoSeparator(p);
    UnsignedIsZero(p);
    UnsignedMatches(p);
    var u := Unsigned(p);
    SignReadsBack(u);
    DigitsReadBack(p, p.negative);
    DigitsReadBack(p, false);
    hide DigitRun, Unsigned, Stripped, Match, MatchDigits;
    assert [] + u == u;
  }

  lemma RenderIsNotNegativeZero(p: Parts)
    requires ReducedParts(p)
    ensures Render(p) != [MINUS, ZERO]
  {
    UnsignedIsZero(p);
    var u := Unsigned(p);
    assert ([MINUS] + u)[1..] == u && [MINUS, ZERO][1..] == [ZERO] && [] + u == u;
    assert IsDigit(u[0]) && [MINUS, ZERO][0] == MINUS;
  }

  lemma {:induction false} AlreadyReduced(p: Parts)
    requires ReducedParts(p)
    ensures Reduced(p) == p
  {
  }

  /** What normalizing a cell gives is a number that denotes the same as the cell. */
  lemma NormalizeKeepsValue(s: Text)
    ensures NormalizeNumber(s).Some? <==> Denotes(s).Some?
    ensures NormalizeNumber(s).Some? ==> Denotes(NormalizeNumber(s).value) == Denotes(s)
  {
    MatchIsMatched(Stripped(s));
    if Match(Stripped(s)).Some? {
      var p := Match(Stripped(s)).value;
      ReducedKeeps(p);
      RenderReadsBack(Reduced(p));
      ZeroParts(Reduced(p));
    }
  }

  /** Two accepted cells get the same text exactly when they denote the same rational. */
  lemma CanonicalNumber(a: Text, b: Text)
    requires NormalizeNumber(a).Some? && NormalizeNumber(b).Some?
    ensures NormalizeNumber(a) == NormalizeNumber(b) <==> Denotes(a) == Denotes(b)
  {
    NormalizeKeepsValue(a);
    NormalizeKeepsValue(b);
    if Denotes(a) == Denotes(b) {
      var p, q := Match(Stripped(a)).value, Match(Stripped(b)).value;
      MatchIsMatched(Stripped(a));
      MatchIsMatched(Stripped(b));
      ReducedKeeps(p);
      ReducedKeeps(q);
      SameValueSameText(Reduced(p), Reduced(q));
    }
  }

  /** Normalizing twice is normalizing once, and the result is never a negative zero. */
  lemma NormalizeIdempotent(s: Text)
    requires NormalizeNumber(s).Some?
    ensures NormalizeNumber(NormalizeNumber(s).value) == NormalizeNumber(s)
    ensures NormalizeNumber(s).value != [MINUS, ZERO]
  {
    var p := Match(Stripped(s)).value;
    MatchIsMatched(Stripped(s));
    ReducedKeeps(p);
    var q := Reduced(p);
    RenderReadsBack(q);
    UnsignedIsZero(q);
    AlreadyReduced(q);
    AlreadyReduced(q.(negative := false));
    RenderIsNotNegativeZero(q);
  }
}