/** The agent's similarity measures, the set-level twin of the server's. */
module AgentDetect {
  import opened Fingerprint

  datatype Similarity = Similarity(containment: real, coverage: real)

  function IntersectionSize(a: set<int>, b: set<int>): (n: nat)
    ensures n == |a * b|
  {
    var small, large := if |a| <= |b| then a else b, if |a| <= |b| then b else a;
    var common := set h | h in small && h in large;
    assert common == a * b;
    |common|
  }

  function Containment(fpA: seq<Fp>, fpB: seq<Fp>): (c: real)
    ensures c == Fraction(HashSet(fpA), HashSet(fpB))
  {
    var a := HashSet(fpA);
    if |a| == 0 then 0.0 else IntersectionSize(a, HashSet(fpB)) as real / |a| as real
  }

  function SimilarityOf(fpA: seq<Fp>, fpB: seq<Fp>): (s: Similarity)
    ensures s == Similarity(Fraction(HashSet(fpA), HashSet(fpB)), Fraction(HashSet(fpB), HashSet(fpA)))
  {
    var a, b := HashSet(fpA), HashSet(fpB);
    var inter := IntersectionSize(a, b);
    assert a * b == b * a;
    Similarity(if |a| == 0 then 0.0 else inter as real / |a| as real,
               if |b| == 0 then 0.0 else inter as real / |b| as real)
  }

  /** Containment is a fraction; it is 1 exactly when every hash of a nonempty A is in B, and 0
      exactly when none is: an empty protected document never matches. */
  lemma ContainmentMeans(fpA: seq<Fp>, fpB: seq<Fp>)
    ensures var c, a, b := Containment(fpA, fpB), HashSet(fpA), HashSet(fpB);
            && 0.0 <= c <= 1.0
            && (c == 1.0 <==> a != {} && a <= b)
            && (c == 0.0 <==> a * b == {})
  {
    var a, b := HashSet(fpA), HashSet(fpB);
    CardinalityMonotone(a * b, a);
    assert |a * b| == 0 <==> a * b == {};
    if a != {} {
      QuotientRange(|a * b|, |a|);
      if |a * b| == |a| {
        EqualSize(a * b, a);
      }
    }
    assert a <= b <==> a * b == a;
  }

  lemma QuotientRange(p: nat, q: nat)
    requires 0 < q && p <= q
    ensures 0.0 <= p as real / q as real <= 1.0
    ensures p as real / q as real == 1.0 <==> p == q
    ensures p as real / q as real == 0.0 <==> p == 0
  {
    var x := p as real / q as real;
    assert x * q as real == p as real;
  }

  lemma EqualSize(s: set<int>, t: set<int>)
    requires s <= t && |s| == |t|
    ensures s == t
  {
    assert t == s + (t - s) && |t| == |s| + |t - s|;
  }
}
