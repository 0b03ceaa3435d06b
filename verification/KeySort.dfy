/** Sorting by integer keys compared place by place, as a comparator chain does. */
module KeySort {

  type Key = seq<int>

  predicate Less(a: Key, b: Key) {
    b != [] && (a == [] || a[0] < b[0] || (a[0] == b[0] && Less(a[1..], b[1..])))
  }

  /** The order is that of a dictionary: a proper beginning comes first, otherwise the first place
      that differs decides. */
  lemma {:induction false} LessMeans(a: Key, b: Key)
    ensures Less(a, b) <==> a < b || exists i :: 0 <= i < |a| && i < |b| && a[..i] == b[..i] && a[i] < b[i]
  {
    if a != [] && b != [] && a[0] == b[0] {
      var p, q := a[1..], b[1..];
      LessMeans(p, q);
      assert a == [a[0]] + p && b == [b[0]] + q;
      forall i | 0 <= i < |p| && i < |q|
        ensures p[..i] == q[..i] <==> a[..i + 1] == b[..i + 1]
      {
        assert a[..i + 1] == [a[0]] + p[..i] && b[..i + 1] == [b[0]] + q[..i];
        assert p[..i] == a[..i + 1][1..] && q[..i] == b[..i + 1][1..];
      }
      if i :| 0 <= i < |p| && i < |q| && p[..i] == q[..i] && p[i] < q[i] {
        assert a[..i + 1] == b[..i + 1] && a[i + 1] < b[i + 1];
      }
      if i :| 0 <= i < |a| && i < |b| && a[..i] == b[..i] && a[i] < b[i] {
        assert p[..i - 1] == q[..i - 1] && p[i - 1] < q[i - 1];
      }
    } else if a != [] && b != [] {
      assert a[..0] == b[..0];
      if i :| 0 <= i < |a| && i < |b| && a[..i] == b[..i] && a[i] < b[i] {
        assert i > 0 ==> a[..i][0] == b[..i][0];
      }
    }
  }

  lemma {:induction false} LessTotal(a: Key, b: Key)
    ensures a == b || Less(a, b) || Less(b, a)
  {
    if a != [] && b != [] && a[0] == b[0] {
      LessTotal(a[1..], b[1..]);
      assert a == [a[0]] + a[1..] && b == [b[0]] + b[1..];
    }
  }

  lemma {:induction false} LessTransitive(a: Key, b: Key, c: Key)
    requires Less(a, b) && Less(b, c)
    ensures Less(a, c)
  {
    if a != [] && a[0] == b[0] == c[0] {
      LessTransitive(a[1..], b[1..], c[1..]);
    }
  }

  lemma {:induction false} LessIrreflexive(a: Key)
    ensures !Less(a, a)
  {
    if a != [] {
      LessIrreflexive(a[1..]);
    }
  }

  lemma NotLessTransitive(a: Key, b: Key, c: Key)
    requires !Less(b, a) && !Less(c, b)
    ensures !Less(c, a)
  {
    LessTotal(a, b);
    LessTotal(b, c);
    if Less(c, a) {
      if Less(a, b) {
        LessTransitive(c, a, b);
      }
    }
  }

  lemma LessAsymmetric(a: Key, b: Key)
    requires Less(a, b)
    ensures !Less(b, a)
  {
    if Less(b, a) {
      LessTransitive(a, b, a);
      LessIrreflexive(a);
    }
  }

  ghost predicate Ascending(ks: seq<Key>) {
    ks != [] ==> (forall k :: k in ks[1..] ==> !Less(k, ks[0])) && Ascending(ks[1..])
  }

  lemma {:induction false} AscendingPairs(ks: seq<Key>, i: nat, j: nat)
    requires Ascending(ks) && i < j < |ks|
    ensures !Less(ks[j], ks[i])
  {
    if i == 0 {
      assert ks[1..][j - 1] == ks[j];
    } else {
      AscendingPairs(ks[1..], i - 1, j - 1);
    }
  }

  function Insert<T>(x: T, xs: seq<T>, key: T -> Key): (r: seq<T>)
    ensures |r| == |xs| + 1
  {
    if xs == [] || !Less(key(xs[0]), key(x)) then [x] + xs else [xs[0]] + Insert(x, xs[1..], key)
  }

  /** Stable: elements with equal keys keep their order. */
  function SortBy<T>(xs: seq<T>, key: T -> Key): (r: seq<T>)
    ensures |r| == |xs|
  {
    if xs == [] then [] else Insert(xs[0], SortBy(xs[1..], key), key)
  }

  function Keys<T>(xs: seq<T>, key: T -> Key): (r: seq<Key>)
    ensures |r| == |xs|
  {
    if xs == [] then [] else [key(xs[0])] + Keys(xs[1..], key)
  }

  lemma {:induction false} KeysAt<T>(xs: seq<T>, key: T -> Key, i: nat)
    requires i < |xs|
    ensures Keys(xs, key)[i] == key(xs[i])
  {
    if i > 0 {
      KeysAt(xs[1..], key, i - 1);
    }
  }

  lemma HeadTail<T>(s: seq<T>)
    requires s != []
    ensures s == [s[0]] + s[1..] && multiset(s) == multiset{s[0]} + multiset(s[1..])
  {
    assert s == [s[0]] + s[1..];
  }

  lemma ConsTail<T>(x: T, s: seq<T>)
    ensures ([x] + s)[1..] == s && multiset([x] + s) == multiset{x} + multiset(s)
  {
    HeadTail([x] + s);
  }

  function InsertKey(k: Key, ks: seq<Key>): seq<Key> {
    if ks == [] || !Less(ks[0], k) then [k] + ks else [ks[0]] + InsertKey(k, ks[1..])
  }

  lemma {:induction false} InsertKeys<T>(x: T, xs: seq<T>, key: T -> Key)
    ensures Keys(Insert(x, xs, key), key) == InsertKey(key(x), Keys(xs, key))
  {
    hide Less;
    if xs == [] || !Less(key(xs[0]), key(x)) {
      ConsTail(x, xs);
    } else {
      InsertKeys(x, xs[1..], key);
      ConsTail(xs[0], Insert(x, xs[1..], key));
      ConsTail(key(xs[0]), Keys(xs[1..], key));
    }
  }

  lemma {:induction false} InsertMultiset<T>(x: T, xs: seq<T>, key: T -> Key)
    ensures multiset(Insert(x, xs, key)) == multiset{x} + multiset(xs)
  {
    hide Less;
    if xs == [] || !Less(key(xs[0]), key(x)) {
      ConsTail(x, xs);
    } else {
      InsertMultiset(x, xs[1..], key);
      ConsTail(xs[0], Insert(x, xs[1..], key));
      HeadTail(xs);
    }
  }

  lemma {:induction false} InsertKeyMembers(k: Key, ks: seq<Key>)
    ensures multiset(InsertKey(k, ks)) == multiset{k} + multiset(ks)
    ensures forall q :: q in InsertKey(k, ks) ==> q == k || q in ks
    decreases |ks|
  {
    hide Less;
    if ks == [] || !Less(ks[0], k) {
      ConsTail(k, ks);
    } else {
      InsertKeyMembers(k, ks[1..]);
      ConsTail(ks[0], InsertKey(k, ks[1..]));
      HeadTail(ks);
    }
  }

  lemma {:induction false} InsertKeyAscends(k: Key, ks: seq<Key>)
    requires Ascending(ks)
    ensures Ascending(InsertKey(k, ks))
    decreases |ks|
  {
    hide Less;
    if ks == [] || !Less(ks[0], k) {
      ConsTail(k, ks);
      forall q | q in ks
        ensures !Less(q, k)
      {
        HeadTail(ks);
        if q != ks[0] {
          NotLessTransitive(k, ks[0], q);
        }
      }
    } else {
      var tail := InsertKey(k, ks[1..]);
      InsertKeyAscends(k, ks[1..]);
      InsertKeyMembers(k, ks[1..]);
      ConsTail(ks[0], tail);
      LessAsymmetric(ks[0], k);
    }
  }

  lemma {:induction false} SortByAscends<T>(xs: seq<T>, key: T -> Key)
    ensures Ascending(Keys(SortBy(xs, key), key))
    ensures multiset(SortBy(xs, key)) == multiset(xs)
    ensures multiset(Keys(SortBy(xs, key), key)) == multiset(Keys(xs, key))
  {
    if xs != [] {
      var rest := SortBy(xs[1..], key);
      SortByAscends(xs[1..], key);
      InsertKeys(xs[0], rest, key);
      InsertMultiset(xs[0], rest, key);
      InsertKeyAscends(key(xs[0]), Keys(rest, key));
      InsertKeyMembers(key(xs[0]), Keys(rest, key));
      HeadTail(xs);
      ConsTail(key(xs[0]), Keys(xs[1..], key));
    }
  }

  /** Ascending lists of keys with the same elements are the same list. */
  lemma {:induction false} AscendingUnique(a: seq<Key>, b: seq<Key>)
    requires Ascending(a) && Ascending(b) && multiset(a) == multiset(b)
    ensures a == b
    decreases |a|
  {
    hide Less;
    assert |a| == |multiset(a)| == |multiset(b)| == |b|;
    if a != [] {
      HeadTail(a);
      HeadTail(b);
      FirstNotAbove(a, b);
      FirstNotAbove(b, a);
      LessTotal(a[0], b[0]);
      assert multiset(a[1..]) == multiset(a) - multiset{a[0]};
      assert multiset(b[1..]) == multiset(b) - multiset{b[0]};
      AscendingUnique(a[1..], b[1..]);
    }
  }

  lemma FirstNotAbove(a: seq<Key>, b: seq<Key>)
    requires Ascending(a) && a != [] && b != [] && multiset(a) == multiset(b)
    ensures !Less(b[0], a[0])
  {
    assert b[0] in multiset(a);
    HeadTail(a);
    LessIrreflexive(a[0]);
  }

  /** The sorted keys depend on nothing but the multiset of keys. */
  lemma {:induction false} SortedKeysCanonical<T>(xs: seq<T>, ys: seq<T>, key: T -> Key)
    requires multiset(Keys(xs, key)) == multiset(Keys(ys, key))
    ensures Keys(SortBy(xs, key), key) == Keys(SortBy(ys, key), key)
  {
    SortByAscends(xs, key);
    SortByAscends(ys, key);
    AscendingUnique(Keys(SortBy(xs, key), key), Keys(SortBy(ys, key), key));
  }
}
