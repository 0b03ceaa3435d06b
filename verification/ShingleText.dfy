/**
  What the text of a shingle says about its tokens, and what a hash recorded for
  two documents says about both.
 */
module ShingleText {
  import opened Fingerprint

  lemma JoinOne(x: string)
    ensures Join([x]) == x
  {
  }

  lemma {:induction false} JoinSplits(s: seq<string>, t: seq<string>)
    requires s != [] && t != []
    ensures Join(s + t) == Join(s) + " " + Join(t)
  {
    assert (s + t)[1..] == s[1..] + t;
    if |s| > 1 {
      JoinSplits(s[1..], t);
    } else {
      assert s[1..] + t == t;
    }
  }

  /** A token: not empty and without spaces. */
  predicate IsToken(x: string) {
    x != "" && ' ' !in x
  }

  predicate AreTokens(tokens: seq<string>) {
    forall i :: 0 <= i < |tokens| ==> IsToken(tokens[i])
  }

  /** The first space ends the first token. */
  lemma FirstTokenEnds(x: string, y: string, p: string, q: string)
    requires IsToken(x) && IsToken(y) && x + p == y + q
    requires (p == "" || p[0] == ' ') && (q == "" || q[0] == ' ')
    ensures x == y && p == q
  {
    var t := x + p;
    assert forall i :: 0 <= i < |x| ==> t[i] == x[i] && t[i] in x;
    assert forall i :: 0 <= i < |y| ==> t[i] == y[i] && t[i] in y;
    assert |x| < |t| ==> t[|x|] == p[0];
    assert |y| < |t| ==> t[|y|] == q[0];
    assert |x| == |y|;
    assert x == t[..|x|] && y == t[..|y|] && p == t[|x|..] && q == t[|y|..];
  }

  /** What follows the first token of a list. */
  function AfterFirst(tokens: seq<string>): string
    requires tokens != []
  {
    if |tokens| == 1 then "" else " " + Join(tokens[1..])
  }

  /** Different lists of tokens have different texts. */
  lemma {:induction false} JoinInjective(s: seq<string>, t: seq<string>)
    requires AreTokens(s) && AreTokens(t) && Join(s) == Join(t)
    ensures s == t
    decreases |s|
  {
    assert s != [] ==> IsToken(s[0]) && Join(s) == s[0] + AfterFirst(s);
    assert t != [] ==> IsToken(t[0]) && Join(t) == t[0] + AfterFirst(t);
    if s != [] && t != [] {
      FirstTokenEnds(s[0], t[0], AfterFirst(s), AfterFirst(t));
      assert |s| > 1 ==> AfterFirst(s)[1..] == Join(s[1..]);
      assert |t| > 1 ==> AfterFirst(t)[1..] == Join(t[1..]);
      if |s| > 1 {
        JoinInjective(s[1..], t[1..]);
      }
      assert s == [s[0]] + s[1..] && t == [t[0]] + t[1..];
    }
  }

  // ------------------------------------------------------------------
  // A common hash means a common shingle
  // ------------------------------------------------------------------

  /** The tokens of shingle i: k of them, or the whole of a shorter document. */
  function TokensOf(tokens: seq<string>, k: nat, i: nat): seq<string>
    requires i == 0 || i + k <= |tokens|
  {
    if |tokens| < k then tokens else tokens[i..i + k]
  }

  ghost predicate IsShingle(tokens: seq<string>, k: nat, i: nat) {
    tokens != [] && (i == 0 || i + k <= |tokens|)
  }

  lemma HashOfShingle(tokens: seq<string>, k: nat, w: nat, hash: string -> int, fp: seq<Fp>, z: nat)
    requires k >= 1 && w >= 1 && IsFingerprint(tokens, k, w, hash, fp) && z < |fp|
    ensures IsShingle(tokens, k, fp[z].pos)
    ensures fp[z].hash == hash(Join(TokensOf(tokens, k, fp[z].pos)))
  {
    hide Join;
    var hashes := ShingleHashes(tokens, k, hash);
    assert Shingles(tokens, k)[fp[z].pos] == Join(TokensOf(tokens, k, fp[z].pos));
  }

  /** Conversely to detection: a hash recorded for both documents belongs to a shingle that both
      contain, token for token, or to two different texts that the hash function confuses. */
  lemma CommonHashIsCommonShingle(a: seq<string>, b: seq<string>, k: nat, w: nat, hash: string -> int,
                                  fa: seq<Fp>, fb: seq<Fp>, h: int)
    returns (i: nat, j: nat)
    requires k >= 1 && w >= 1 && AreTokens(a) && AreTokens(b)
    requires IsFingerprint(a, k, w, hash, fa) && IsFingerprint(b, k, w, hash, fb)
    requires h in HashSet(fa) && h in HashSet(fb)
    ensures IsShingle(a, k, i) && IsShingle(b, k, j)
    ensures var p, q := TokensOf(a, k, i), TokensOf(b, k, j);
            p == q || (Join(p) != Join(q) && hash(Join(p)) == hash(Join(q)) == h)
  {
    hide Join, IsFingerprint;
    var x :| 0 <= x < |fa| && fa[x].hash == h;
    var y :| 0 <= y < |fb| && fb[y].hash == h;
    i, j := fa[x].pos, fb[y].pos;
    HashOfShingle(a, k, w, hash, fa, x);
    HashOfShingle(b, k, w, hash, fb, y);
    var p, q := TokensOf(a, k, i), TokensOf(b, k, j);
    assert AreTokens(p) && AreTokens(q);
    if Join(p) == Join(q) {
      JoinInjective(p, q);
    }
  }

  // ------------------------------------------------------------------
  // Unsigned comparison
  // ------------------------------------------------------------------

  /** Every full window records its smallest hash, read as an unsigned 64-bit number; among equal
      ones the rightmost. */
  lemma {:induction false} WindowRecordsUnsignedMinimum(hashes: seq<int>, w: nat, out: seq<Fp>, s: nat) returns (x: nat)
    requires w >= 1 && s + w <= |hashes| && IsWinnowing(hashes, w, out)
    ensures x < |out| && s <= out[x].pos < s + w && out[x].hash == hashes[out[x].pos]
    ensures forall i :: s <= i < s + w ==>
              out[x].hash % 0x1_0000_0000_0000_0000 <= hashes[i] % 0x1_0000_0000_0000_0000
    ensures forall i :: out[x].pos < i < s + w ==>
              out[x].hash % 0x1_0000_0000_0000_0000 < hashes[i] % 0x1_0000_0000_0000_0000
  {
    x := RecordedInWindow(hashes, w, out, s);
    var u := Unsigned(hashes);
    forall i | s <= i < s + w
      ensures u[i] == hashes[i] % 0x1_0000_0000_0000_0000
    {
    }
  }
}
