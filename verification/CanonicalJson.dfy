/**
  The canonical JSON encoder that feeds the audit hash chain: object keys are
  sorted at every level. Strings are sequences of UTF-16 code units; numbers are
  kept as the text the runtime prints for them.
 */
module CanonicalJson {
  import KeySort
  import opened CodeUnits

  const COLON: CodeUnit := 58
  const OPEN_ARRAY: CodeUnit := 91
  const BACKSLASH: CodeUnit := 92
  const CLOSE_ARRAY: CodeUnit := 93
  const LOWER_U: CodeUnit := 117
  const OPEN_OBJECT: CodeUnit := 123
  const CLOSE_OBJECT: CodeUnit := 125

  const NULL: Text := [110, 117, 108, 108]
  const TRUE: Text := [116, 114, 117, 101]
  const FALSE: Text := [102, 97, 108, 115, 101]
  const UNDEFINED: Text := [117, 110, 100, 101, 102, 105, 110, 101, 100]

  datatype Json =
    | Null
    | Bool(b: bool)
    | Number(text: Text)
    | NonFinite
    | Str(s: Text)
    | Date(iso: Text)
    | Arr(items: seq<Json>)
    | Obj(members: seq<Member>)
    | Undefined

  datatype Member = Member(key: Text, value: Json)

  // ------------------------------------------------------------------
  // Strings
  // ------------------------------------------------------------------

  predicate IsHigh(c: CodeUnit) {
    0xD800 <= c < 0xDC00
  }

  predicate IsLow(c: CodeUnit) {
    0xDC00 <= c < 0xE000
  }

  function HexDigit(d: nat): CodeUnit
    requires d < 16
  {
    if d < 10 then 48 + d else 87 + d
  }

  function Hex4(c: CodeUnit): Text {
    [HexDigit(c / 4096), HexDigit(c / 256 % 16), HexDigit(c / 16 % 16), HexDigit(c % 16)]
  }

  /** The escape of one code unit that is not half of a surrogate pair. */
  function EscapeUnit(c: CodeUnit): Text {
    if c == 34 || c == 92 then [BACKSLASH, c]
    else if c == 8 then [BACKSLASH, 98]
    else if c == 9 then [BACKSLASH, 116]
    else if c == 10 then [BACKSLASH, 110]
    else if c == 12 then [BACKSLASH, 102]
    else if c == 13 then [BACKSLASH, 114]
    else if c < 32 || IsHigh(c) || IsLow(c) then [BACKSLASH, LOWER_U] + Hex4(c)
    else [c]
  }

  predicate StartsWithPair(s: Text) {
    |s| >= 2 && IsHigh(s[0]) && IsLow(s[1])
  }

  /** How many code units the first printed token of s stands for. */
  function HeadLength(s: Text): nat
    requires s != []
  {
    if StartsWithPair(s) then 2 else 1
  }

  function Token(s: Text): Text
    requires s != []
  {
    if StartsWithPair(s) then s[..2] else EscapeUnit(s[0])
  }

  function Escaped(s: Text): Text {
    if s == [] then [] else Token(s) + Escaped(s[HeadLength(s)..])
  }

  function Quoted(s: Text): Text {
    [QUOTE] + Escaped(s) + [QUOTE]
  }

  function DigitValue(u: int): int {
    if u < 58 then u - 48 else u - 87
  }

  /** Reads four hex digits back. */
  function HexValue(t: Text): int
    requires |t| == 4
  {
    4096 * DigitValue(t[0]) + 256 * DigitValue(t[1]) + 16 * DigitValue(t[2]) + DigitValue(t[3])
  }

  lemma HexDigits(c: CodeUnit)
    ensures c == 4096 * (c / 4096) + 256 * (c / 256 % 16) + 16 * (c / 16 % 16) + c % 16
  {
    assert c / 256 / 16 == c / 4096;
    assert c / 16 / 16 == c / 256;
    assert c / 256 == 16 * (c / 256 / 16) + c / 256 % 16;
    assert c / 16 == 16 * (c / 16 / 16) + c / 16 % 16;
  }

  lemma {:induction false} Hex4Injective(c: CodeUnit, d: CodeUnit)
    requires Hex4(c) == Hex4(d)
    ensures c == d
  {
    HexDigits(c);
    HexDigits(d);
    assert HexValue(Hex4(c)) == c;
    assert HexValue(Hex4(d)) == d;
  }

  lemma EscapeUnitPrefixFree(c: CodeUnit, d: CodeUnit, x: Text, y: Text)
    requires EscapeUnit(c) + x == EscapeUnit(d) + y
    ensures c == d && x == y
  {
    var p, q := EscapeUnit(c), EscapeUnit(d);
    assert (p + x)[0] == (q + y)[0];
    if p[0] == BACKSLASH {
      assert (p + x)[1] == (q + y)[1];
      if p[1] == LOWER_U {
        assert p[2..] == (p + x)[2..6] == (q + y)[2..6] == q[2..];
        Hex4Injective(c, d);
      }
    }
    assert c == d;
    assert x == (p + x)[|p|..] == (q + y)[|p|..] == y;
  }

  lemma TokenPrefixFree(a: Text, b: Text, x: Text, y: Text)
    requires a != [] && b != [] && Token(a) + x == Token(b) + y
    ensures HeadLength(a) == HeadLength(b) && a[..HeadLength(a)] == b[..HeadLength(b)] && x == y
  {
    assert (Token(a) + x)[0] == (Token(b) + y)[0];
    if StartsWithPair(a) {
      assert StartsWithPair(b);
      assert a[..2] == (Token(a) + x)[..2] == (Token(b) + y)[..2] == b[..2];
      assert x == (Token(a) + x)[2..] == (Token(b) + y)[2..] == y;
    } else {
      assert !StartsWithPair(b);
      EscapeUnitPrefixFree(a[0], b[0], x, y);
    }
  }

  /** The closing quote is the first quote that is not escaped. */
  lemma EscapedStart(s: Text, x: Text)
    ensures (Escaped(s) + [QUOTE] + x)[0] == QUOTE <==> s == []
  {
    if s != [] {
      assert Token(s) != [] && Token(s)[0] != QUOTE;
      assert (Escaped(s) + [QUOTE] + x)[0] == Token(s)[0];
    }
  }

  lemma EscapedNothing()
    ensures Escaped([]) == []
  {
  }

  lemma EscapedStep(s: Text)
    requires s != []
    ensures 0 < HeadLength(s) <= |s| && Escaped(s) == Token(s) + Escaped(s[HeadLength(s)..])
  {
  }

  lemma {:induction false} EscapedPrefixFree(a: Text, b: Text, x: Text, y: Text)
    requires Escaped(a) + [QUOTE] + x == Escaped(b) + [QUOTE] + y
    ensures a == b && x == y
    decreases |a|
  {
    hide Token, Escaped, HeadLength, StartsWithPair;
    var p, q := Escaped(a) + [QUOTE] + x, Escaped(b) + [QUOTE] + y;
    if a != [] && b != [] {
      EscapedStep(a);
      EscapedStep(b);
      var ra, rb := a[HeadLength(a)..], b[HeadLength(b)..];
      assert p == Token(a) + (Escaped(ra) + [QUOTE] + x);
      assert q == Token(b) + (Escaped(rb) + [QUOTE] + y);
      TokenPrefixFree(a, b, Escaped(ra) + [QUOTE] + x, Escaped(rb) + [QUOTE] + y);
      EscapedPrefixFree(ra, rb, x, y);
      assert a == a[..HeadLength(a)] + ra && b == b[..HeadLength(b)] + rb;
    } else {
      EscapedStart(a, x);
      EscapedStart(b, y);
      EscapedNothing();
      assert x == p[1..] == q[1..] == y;
    }
  }

  lemma QuotedPrefixFree(a: Text, b: Text, x: Text, y: Text)
    requires Quoted(a) + x == Quoted(b) + y
    ensures a == b && x == y
  {
    hide Escaped;
    var p, q := Quoted(a) + x, Quoted(b) + y;
    assert p[1..] == Escaped(a) + [QUOTE] + x && q[1..] == Escaped(b) + [QUOTE] + y;
    EscapedPrefixFree(a, b, x, y);
  }

  // ------------------------------------------------------------------
  // Sorting by key
  // ------------------------------------------------------------------

  /** A key with the text of its value. */
  datatype Pair = Pair(key: Text, text: Text)

  /** Keys are compared code unit by code unit. */
  function PairKey(p: Pair): KeySort.Key {
    p.key
  }

  function SortPairs(ps: seq<Pair>): (r: seq<Pair>)
    ensures |r| == |ps|
  {
    KeySort.SortBy(ps, PairKey)
  }

  ghost predicate DistinctKeys(ps: seq<Pair>) {
    forall i, j :: 0 <= i < j < |ps| ==> ps[i].key != ps[j].key
  }

  ghost predicate StrictlySorted(ps: seq<Pair>) {
    forall i, j :: 0 <= i < j < |ps| ==> KeySort.Less(ps[i].key, ps[j].key)
  }

  lemma InsertPairMembers(p: Pair, ps: seq<Pair>)
    ensures forall q :: q in KeySort.Insert(p, ps, PairKey) <==> q == p || q in ps
  {
    hide KeySort.Insert;
    KeySort.InsertMultiset(p, ps, PairKey);
    forall q
      ensures q in KeySort.Insert(p, ps, PairKey) <==> q == p || q in ps
    {
      assert q in KeySort.Insert(p, ps, PairKey) <==> q in multiset(KeySort.Insert(p, ps, PairKey));
    }
  }

  lemma {:induction false} InsertPairSorts(p: Pair, ps: seq<Pair>)
    requires StrictlySorted(ps) && forall q :: q in ps ==> q.key != p.key
    ensures StrictlySorted(KeySort.Insert(p, ps, PairKey))
    ensures forall q :: q in KeySort.Insert(p, ps, PairKey) <==> q == p || q in ps
  {
    hide KeySort.Less;
    InsertPairMembers(p, ps);
    if ps != [] {
      var r := KeySort.Insert(p, ps, PairKey);
      if KeySort.Less(ps[0].key, p.key) {
        var rest := ps[1..];
        assert forall q :: q in rest ==> q in ps;
        InsertPairSorts(p, rest);
        var tail := KeySort.Insert(p, rest, PairKey);
        forall i, j | 0 <= i < j < |r|
          ensures KeySort.Less(r[i].key, r[j].key)
        {
          assert r[j] == tail[j - 1] && tail[j - 1] in tail;
          if i > 0 {
            assert r[i] == tail[i - 1];
          }
        }
      } else {
        KeySort.LessTotal(ps[0].key, p.key);
        forall j | 0 < j < |ps|
          ensures KeySort.Less(p.key, ps[j].key)
        {
          KeySort.LessTransitive(p.key, ps[0].key, ps[j].key);
        }
      }
    }
  }

  lemma {:induction false} SortPairsSorts(ps: seq<Pair>)
    requires DistinctKeys(ps)
    ensures StrictlySorted(SortPairs(ps))
    ensures forall q :: q in SortPairs(ps) <==> q in ps
  {
    if ps != [] {
      assert ps == [ps[0]] + ps[1..];
      SortPairsSorts(ps[1..]);
      InsertPairSorts(ps[0], SortPairs(ps[1..]));
    }
  }

  /** A strictly sorted list is determined by its elements. */
  lemma {:induction false} SortedUnique(a: seq<Pair>, b: seq<Pair>)
    requires StrictlySorted(a) && StrictlySorted(b)
    requires forall q :: q in a <==> q in b
    ensures a == b
  {
    assert a != [] ==> a[0] in b;
    assert b != [] ==> b[0] in a;
    if a != [] && b != [] {
      var i :| 0 <= i < |b| && b[i] == a[0];
      var j :| 0 <= j < |a| && a[j] == b[0];
      if i > 0 && j > 0 {
        KeySort.LessTransitive(a[0].key, a[j].key, b[i].key);
        KeySort.LessIrreflexive(a[0].key);
      }
      forall q
        ensures q in a[1..] <==> q in b[1..]
      {
        KeySort.LessIrreflexive(q.key);
        assert q in a <==> q == a[0] || q in a[1..];
        assert q in b <==> q == b[0] || q in b[1..];
      }
      SortedUnique(a[1..], b[1..]);
      assert a == [a[0]] + a[1..] && b == [b[0]] + b[1..];
    }
  }

  // ------------------------------------------------------------------
  // The encoder
  // ------------------------------------------------------------------

  /** The parts with a comma between neighbours. */
  function Join(parts: seq<Text>): Text {
    if parts == [] then []
    else if |parts| == 1 then parts[0]
    else parts[0] + [COMMA] + Join(parts[1..])
  }

  function PairTexts(ps: seq<Pair>): (r: seq<Text>)
    ensures |r| == |ps|
  {
    seq(|ps|, i requires 0 <= i < |ps| => Quoted(ps[i].key) + [COLON] + ps[i].text)
  }

  /**
    What the encoder prints. An undefined array item prints as nothing, because
    joining skips it; an undefined member prints as the word.
   */
  function Canonical(v: Json): Text
    decreases v, 0
  {
    match v
    case Null => NULL
    case Bool(b) => if b then TRUE else FALSE
    case Number(text) => text
    case NonFinite => NULL
    case Str(s) => Quoted(s)
    case Date(iso) => Quoted(iso)
    case Arr(items) => [OPEN_ARRAY] + Join(ItemTexts(items)) + [CLOSE_ARRAY]
    case Obj(members) => [OPEN_OBJECT] + Join(PairTexts(SortPairs(MemberPairs(members)))) + [CLOSE_OBJECT]
    case Undefined => UNDEFINED
  }

  function ItemText(v: Json): Text
    decreases v, 1
  {
    if v.Undefined? then [] else Canonical(v)
  }

  function ItemTexts(items: seq<Json>): (r: seq<Text>)
    ensures |r| == |items|
    decreases items, 0
  {
    if items == [] then [] else [ItemText(items[0])] + ItemTexts(items[1..])
  }

  function MemberPairs(members: seq<Member>): (r: seq<Pair>)
    ensures |r| == |members|
    decreases members, 0
  {
    if members == [] then []
    else [Pair(members[0].key, Canonical(members[0].value))] + MemberPairs(members[1..])
  }

  /** The text of a finite number as the runtime prints it. */
  predicate NumberText(t: Text) {
    t != [] && (t[0] == 45 || 48 <= t[0] < 58)
    && forall i :: 0 <= i < |t| ==> t[i] in {43, 45, 46, 101} || 48 <= t[i] < 58
  }

  ghost predicate DistinctMembers(members: seq<Member>) {
    forall i, j :: 0 <= i < j < |members| ==> members[i].key != members[j].key
  }

  /** Objects never repeat a key and finite numbers have a printed form. */
  ghost predicate WellFormed(v: Json) {
    match v
    case Number(text) => NumberText(text)
    case Arr(items) => forall i :: 0 <= i < |items| ==> WellFormed(items[i])
    case Obj(members) => DistinctMembers(members) && forall i :: 0 <= i < |members| ==> WellFormed(members[i].value)
    case _ => true
  }

  /** Nothing that JSON lacks, at any depth: no undefined, no NaN and no infinity. */
  ghost predicate Defined(v: Json) {
    match v
    case Arr(items) => forall i :: 0 <= i < |items| ==> Defined(items[i])
    case Obj(members) => forall i :: 0 <= i < |members| ==> Defined(members[i].value)
    case Undefined => false
    case NonFinite => false
    case _ => true
  }

  ghost predicate IsJson(v: Json) {
    WellFormed(v) && Defined(v)
  }

  /** Well-formed, and nothing that prints as something else does: no NaN or infinity and no array
      of a single undefined, at any depth. */
  ghost predicate Tidy(v: Json) {
    match v
    case Number(text) => NumberText(text)
    case NonFinite => false
    case Arr(items) => items != [Undefined] && forall i :: 0 <= i < |items| ==> Tidy(items[i])
    case Obj(members) => DistinctMembers(members) && forall i :: 0 <= i < |members| ==> Tidy(members[i].value)
    case _ => true
  }

  /** Equal up to the order of object keys at every depth; a date is the string it prints as. */
  ghost predicate Equiv(a: Json, b: Json)
    decreases a
  {
    match a
    case Null => b.Null?
    case Bool(x) => b.Bool? && b.b == x
    case Number(text) => b.Number? && b.text == text
    case NonFinite => b.NonFinite?
    case Str(s) => (b.Str? && b.s == s) || (b.Date? && b.iso == s)
    case Date(iso) => (b.Str? && b.s == iso) || (b.Date? && b.iso == iso)
    case Arr(items) => b.Arr? && |b.items| == |items| && forall i :: 0 <= i < |items| ==> Equiv(items[i], b.items[i])
    case Obj(members) =>
      && b.Obj?
      && (forall m :: m in members ==> MatchedIn(m, b.members))
      && (forall n :: n in b.members ==> MatchedBy(members, n))
    case Undefined => b.Undefined?
  }

  /** Some member of ns has the key of m and a value equal up to key order. */
  ghost predicate MatchedIn(m: Member, ns: seq<Member>)
    decreases m
  {
    exists n :: n in ns && n.key == m.key && Equiv(m.value, n.value)
  }

  ghost predicate MatchedBy(ms: seq<Member>, n: Member)
    decreases ms
  {
    exists m :: m in ms && m.key == n.key && Equiv(m.value, n.value)
  }

  /** Some member of ns has the key of m and a value that prints the same. */
  ghost predicate PrintedIn(m: Member, ns: seq<Member>) {
    exists n :: n in ns && n.key == m.key && Canonical(n.value) == Canonical(m.value)
  }

  lemma {:induction false} ItemTextsAt(items: seq<Json>, i: nat)
    requires i < |items|
    ensures ItemTexts(items)[i] == ItemText(items[i])
  {
    if i > 0 {
      ItemTextsAt(items[1..], i - 1);
    }
  }

  lemma {:induction false} MemberPairsAt(members: seq<Member>, i: nat)
    requires i < |members|
    ensures MemberPairs(members)[i] == Pair(members[i].key, Canonical(members[i].value))
  {
    if i > 0 {
      MemberPairsAt(members[1..], i - 1);
    }
  }

  /** The pairs printed for an object: sorted, and one per member. */
  lemma ObjectPairs(members: seq<Member>)
    requires DistinctMembers(members)
    ensures StrictlySorted(SortPairs(MemberPairs(members)))
    ensures forall m :: m in members ==> Pair(m.key, Canonical(m.value)) in SortPairs(MemberPairs(members))
    ensures forall p :: p in SortPairs(MemberPairs(members)) ==>
              exists m :: m in members && p == Pair(m.key, Canonical(m.value))
  {
    hide Canonical, SortPairs, MemberPairs;
    var ps := MemberPairs(members);
    forall i | 0 <= i < |members|
      ensures ps[i] == Pair(members[i].key, Canonical(members[i].value))
    {
      MemberPairsAt(members, i);
    }
    assert DistinctKeys(ps);
    SortPairsSorts(ps);
  }

  // ------------------------------------------------------------------
  // No printed value is the beginning of another
  // ------------------------------------------------------------------

  /** What can follow a value: nothing, a comma or a closing bracket. */
  predicate Ends(x: Text) {
    x == [] || x[0] in {COMMA, CLOSE_ARRAY, CLOSE_OBJECT}
  }

  predicate Atom(t: Text) {
    t != [] && t[0] !in {QUOTE, OPEN_ARRAY, OPEN_OBJECT}
    && forall i :: 0 <= i < |t| ==> t[i] !in {COMMA, CLOSE_ARRAY, CLOSE_OBJECT}
  }

  /** The first code unit tells the kind of a value. */
  lemma FirstUnit(v: Json)
    requires Tidy(v)
    ensures var t := Canonical(v);
      && t != []
      && !Ends(t)
      && (v.Arr? <==> t[0] == OPEN_ARRAY)
      && (v.Obj? <==> t[0] == OPEN_OBJECT)
      && (v.Str? || v.Date? <==> t[0] == QUOTE)
      && (v.Null? || v.Bool? || v.Number? || v.Undefined? ==> Atom(t))
  {
  }

  lemma AtomPrefixFree(t: Text, u: Text, x: Text, y: Text)
    requires Atom(t) && Atom(u) && Ends(x) && Ends(y) && t + x == u + y
    ensures t == u && x == y
  {
    var s := t + x;
    assert forall i :: 0 <= i < |t| ==> s[i] == t[i];
    assert forall i :: 0 <= i < |u| ==> s[i] == u[i];
    assert |t| < |s| ==> s[|t|] == x[0];
    assert |u| < |s| ==> s[|u|] == y[0];
    assert |t| == |u|;
    assert t == (t + x)[..|t|] && u == (u + y)[..|u|];
    assert x == (t + x)[|t|..] && y == (u + y)[|u|..];
  }

  /** What follows the first part of a joined list. */
  function Rest(parts: seq<Text>): Text
    requires parts != []
  {
    if |parts| == 1 then [] else [COMMA] + Join(parts[1..])
  }

  lemma JoinRest(parts: seq<Text>, x: Text)
    requires parts != []
    ensures Join(parts) + x == parts[0] + (Rest(parts) + x)
  {
  }

  /** Only an empty list starts with the closing bracket. */
  lemma EmptyList(parts: seq<Text>, close: CodeUnit, x: Text)
    requires close in {CLOSE_ARRAY, CLOSE_OBJECT}
    requires parts != [[]] && (parts != [] ==> parts[0] == [] || !Ends(parts[0]))
    ensures (Join(parts) + [close] + x)[0] == close <==> parts == []
  {
    if parts != [] {
      assert (Join(parts) + [close] + x)[0] == if parts[0] == [] then COMMA else parts[0][0];
    }
  }

  /** If the remainders after two first parts agree, both lists end here or both go on after a comma. */
  lemma RestStep(ps: seq<Text>, qs: seq<Text>, close: CodeUnit, x: Text, y: Text)
    requires close in {CLOSE_ARRAY, CLOSE_OBJECT} && ps != [] && qs != []
    requires Rest(ps) + ([close] + x) == Rest(qs) + ([close] + y)
    ensures |ps| == 1 <==> |qs| == 1
    ensures |ps| == 1 ==> x == y
    ensures |ps| > 1 ==> Join(ps[1..]) + [close] + x == Join(qs[1..]) + [close] + y
  {
    hide Join, Rest;
    RestTail(ps, close, x);
    RestTail(qs, close, y);
  }

  /** The remainder after a first part, without its first code unit. */
  lemma RestTail(ps: seq<Text>, close: CodeUnit, x: Text)
    requires close in {CLOSE_ARRAY, CLOSE_OBJECT} && ps != []
    ensures var p := Rest(ps) + ([close] + x);
            && p != [] && (p[0] == COMMA <==> |ps| > 1)
            && p[1..] == if |ps| == 1 then x else Join(ps[1..]) + [close] + x
  {
    hide Join;
    var p := Rest(ps) + ([close] + x);
    if |ps| == 1 {
      assert p == [close] + x;
    } else {
      assert p == [COMMA] + (Join(ps[1..]) + [close] + x);
    }
  }

  lemma ArrayText(items: seq<Json>, x: Text)
    ensures var t := Canonical(Arr(items)) + x; t != [] && t[1..] == Join(ItemTexts(items)) + [CLOSE_ARRAY] + x
  {
    hide Join, Quoted, PairTexts, ItemTexts, KeySort.SortBy;
  }

  lemma ObjectText(members: seq<Member>, x: Text)
    ensures var t := Canonical(Obj(members)) + x;
            t != [] && t[1..] == Join(PairTexts(SortPairs(MemberPairs(members)))) + [CLOSE_OBJECT] + x
  {
    hide Join, Quoted, PairTexts, ItemTexts, KeySort.SortBy;
  }

  /** Two texts of lists with the same bracket are equal when the lists are. */
  lemma SameObjectBody(ms: seq<Member>, ns: seq<Member>)
    requires SortPairs(MemberPairs(ms)) == SortPairs(MemberPairs(ns))
    ensures Canonical(Obj(ms)) == Canonical(Obj(ns))
  {
  }

  /** A printed value can be told from what follows it. */
  lemma {:induction false} CanonicalPrefixFree(a: Json, b: Json, x: Text, y: Text)
    requires Tidy(a) && Tidy(b) && Ends(x) && Ends(y)
    requires Canonical(a) + x == Canonical(b) + y
    ensures Canonical(a) == Canonical(b) && x == y
    decreases a, 0
  {
    hide Join, Quoted, SortPairs, MemberPairs, ItemTexts, PairTexts, Atom;
    SameKind(a, b, x, y);
    match a {
      case Arr(items) =>
        ArrayText(items, x);
        ArrayText(b.items, y);
        SameEmptiness(items, b.items, x, y);
        ItemsPrefixFree(items, b.items, x, y);
      case Obj(members) =>
        ObjectText(members, x);
        ObjectText(b.members, y);
        ObjectPairs(members);
        ObjectPairs(b.members);
        PairsPrefixFree(members, b.members, SortPairs(MemberPairs(members)), SortPairs(MemberPairs(b.members)), x, y);
      case Str(s) =>
        QuotedPrefixFree(s, if b.Str? then b.s else b.iso, x, y);
      case Date(iso) =>
        QuotedPrefixFree(iso, if b.Str? then b.s else b.iso, x, y);
      case _ =>
        AtomPrefixFree(Canonical(a), Canonical(b), x, y);
    }
  }

  lemma SameKind(a: Json, b: Json, x: Text, y: Text)
    requires Tidy(a) && Tidy(b) && Canonical(a) + x == Canonical(b) + y
    ensures (a.Arr? <==> b.Arr?) && (a.Obj? <==> b.Obj?) && (a.Str? || a.Date? <==> b.Str? || b.Date?)
    ensures a.Null? || a.Bool? || a.Number? || a.Undefined? ==> Atom(Canonical(a)) && Atom(Canonical(b))
  {
    hide Canonical, Tidy, Atom, Ends;
    FirstUnit(a);
    FirstUnit(b);
    assert (Canonical(a) + x)[0] == Canonical(a)[0] && (Canonical(b) + y)[0] == Canonical(b)[0];
    KindOf(a);
    KindOf(b);
  }

  lemma KindOf(v: Json)
    requires Tidy(v)
    ensures !v.NonFinite?
  {
  }

  /** Equal array bodies are both empty or both not. */
  lemma SameEmptiness(a: seq<Json>, b: seq<Json>, x: Text, y: Text)
    requires Tidy(Arr(a)) && Tidy(Arr(b))
    requires Join(ItemTexts(a)) + [CLOSE_ARRAY] + x == Join(ItemTexts(b)) + [CLOSE_ARRAY] + y
    ensures a == [] <==> b == []
  {
    hide Canonical, Join;
    FirstItem(a);
    FirstItem(b);
    EmptyList(ItemTexts(a), CLOSE_ARRAY, x);
    EmptyList(ItemTexts(b), CLOSE_ARRAY, y);
  }

  lemma {:induction false} ItemsPrefixFree(a: seq<Json>, b: seq<Json>, x: Text, y: Text)
    requires (forall i :: 0 <= i < |a| ==> Tidy(a[i])) && (forall i :: 0 <= i < |b| ==> Tidy(b[i]))
    requires a == [] <==> b == []
    requires Join(ItemTexts(a)) + [CLOSE_ARRAY] + x == Join(ItemTexts(b)) + [CLOSE_ARRAY] + y
    ensures ItemTexts(a) == ItemTexts(b) && x == y
    decreases a, 0
  {
    hide Canonical, Join, Rest, Tidy;
    var ps, qs := ItemTexts(a), ItemTexts(b);
    var p, q := Join(ps) + [CLOSE_ARRAY] + x, Join(qs) + [CLOSE_ARRAY] + y;
    if a == [] {
      EmptyJoin(CLOSE_ARRAY, x);
      EmptyJoin(CLOSE_ARRAY, y);
      assert x == p[1..] == q[1..] == y;
    } else {
      var u, v := [CLOSE_ARRAY] + x, [CLOSE_ARRAY] + y;
      JoinRest(ps, u);
      JoinRest(qs, v);
      assert Join(ps) + u == p && Join(qs) + v == q;
      RestEnds(ps, u);
      RestEnds(qs, v);
      ItemPrefixFree(a[0], b[0], Rest(ps) + u, Rest(qs) + v);
      RestStep(ps, qs, CLOSE_ARRAY, x, y);
      assert ps[1..] == ItemTexts(a[1..]) && qs[1..] == ItemTexts(b[1..]);
      if |a| > 1 {
        ItemsPrefixFree(a[1..], b[1..], x, y);
      }
    }
  }

  /** An item that prints as nothing can be told from one that prints as something. */
  lemma {:induction false} ItemPrefixFree(a: Json, b: Json, x: Text, y: Text)
    requires Tidy(a) && Tidy(b) && Ends(x) && Ends(y) && ItemText(a) + x == ItemText(b) + y
    ensures ItemText(a) == ItemText(b) && x == y
    decreases a, 1
  {
    hide Canonical, Tidy;
    FirstUnit(a);
    FirstUnit(b);
    assert Ends(ItemText(a) + x) <==> a.Undefined?;
    assert Ends(ItemText(b) + y) <==> b.Undefined?;
    if a.Undefined? {
      assert x == ItemText(a) + x && y == ItemText(b) + y;
    } else {
      CanonicalPrefixFree(a, b, x, y);
    }
  }

  lemma FirstItem(a: seq<Json>)
    requires Tidy(Arr(a))
    ensures ItemTexts(a) != [[]]
    ensures a != [] ==> ItemTexts(a)[0] == [] || !Ends(ItemTexts(a)[0])
  {
    if a != [] {
      FirstUnit(a[0]);
      assert |a| == 1 ==> a == [a[0]];
      assert |a| == 1 ==> ItemTexts(a)[0] != [];
    }
  }

  lemma EmptyJoin(close: CodeUnit, x: Text)
    ensures Join([]) + [close] + x == [close] + x
  {
  }

  lemma RestEnds(parts: seq<Text>, u: Text)
    requires parts != [] && u != [] && Ends(u)
    ensures Ends(Rest(parts) + u)
  {
  }

  lemma {:induction false} PairsPrefixFree(ms: seq<Member>, ns: seq<Member>, ps: seq<Pair>, qs: seq<Pair>,
                                                  x: Text, y: Text)
    requires forall i :: 0 <= i < |ms| ==> Tidy(ms[i].value)
    requires forall i :: 0 <= i < |ns| ==> Tidy(ns[i].value)
    requires forall p :: p in ps ==> exists m :: m in ms && p == Pair(m.key, Canonical(m.value))
    requires forall q :: q in qs ==> exists n :: n in ns && q == Pair(n.key, Canonical(n.value))
    requires Join(PairTexts(ps)) + [CLOSE_OBJECT] + x == Join(PairTexts(qs)) + [CLOSE_OBJECT] + y
    ensures ps == qs && x == y
    decreases ms, |ps|
  {
    hide Canonical, Join, Rest, Tidy, Quoted;
    var ts, us := PairTexts(ps), PairTexts(qs);
    var p, q := Join(ts) + [CLOSE_OBJECT] + x, Join(us) + [CLOSE_OBJECT] + y;
    if ps != [] {
      FirstPair(ps);
    }
    if qs != [] {
      FirstPair(qs);
    }
    EmptyList(ts, CLOSE_OBJECT, x);
    EmptyList(us, CLOSE_OBJECT, y);
    assert p[0] == q[0];
    if ps == [] {
      EmptyJoin(CLOSE_OBJECT, x);
      EmptyJoin(CLOSE_OBJECT, y);
      assert x == p[1..] == q[1..] == y;
    } else {
      var u, v := [CLOSE_OBJECT] + x, [CLOSE_OBJECT] + y;
      JoinRest(ts, u);
      JoinRest(us, v);
      assert Join(ts) + u == p && Join(us) + v == q;
      RestEnds(ts, u);
      RestEnds(us, v);
      assert ps[0] in ps && qs[0] in qs;
      var m :| m in ms && ps[0] == Pair(m.key, Canonical(m.value));
      var n :| n in ns && qs[0] == Pair(n.key, Canonical(n.value));
      PairTextSplit(ps[0], qs[0], Rest(ts) + u, Rest(us) + v);
      CanonicalPrefixFree(m.value, n.value, Rest(ts) + u, Rest(us) + v);
      RestStep(ts, us, CLOSE_OBJECT, x, y);
      assert ps == [ps[0]] + ps[1..] && qs == [qs[0]] + qs[1..];
      if |ps| > 1 {
        assert forall r :: r in ps[1..] ==> r in ps;
        assert forall r :: r in qs[1..] ==> r in qs;
        PairsPrefixFree(ms, ns, ps[1..], qs[1..], x, y);
      }
    }
  }

  lemma FirstPair(ps: seq<Pair>)
    requires ps != []
    ensures PairTexts(ps)[0] == Quoted(ps[0].key) + [COLON] + ps[0].text
    ensures PairTexts(ps)[0] != [] && !Ends(PairTexts(ps)[0])
    ensures PairTexts(ps)[1..] == PairTexts(ps[1..])
  {
  }

  lemma PairTextSplit(p: Pair, q: Pair, x: Text, y: Text)
    requires Quoted(p.key) + [COLON] + p.text + x == Quoted(q.key) + [COLON] + q.text + y
    ensures p.key == q.key && p.text + x == q.text + y
  {
    hide Quoted;
    var r, s := [COLON] + p.text + x, [COLON] + q.text + y;
    assert Quoted(p.key) + [COLON] + p.text + x == Quoted(p.key) + r;
    assert Quoted(q.key) + [COLON] + q.text + y == Quoted(q.key) + s;
    QuotedPrefixFree(p.key, q.key, r, s);
    assert p.text + x == r[1..] && q.text + y == s[1..];
  }

  // ------------------------------------------------------------------
  // The canonical form
  // ------------------------------------------------------------------

  /** Different values, up to key order, print differently. */
  lemma {:induction false} SameTextIsEquiv(a: Json, b: Json)
    requires Tidy(a) && Tidy(b) && Canonical(a) == Canonical(b)
    ensures Equiv(a, b)
    decreases a
  {
    hide Join, Quoted, SortPairs, MemberPairs, PairTexts, Atom;
    SameKind(a, b, [], []);
    match a {
      case Arr(items) =>
        ArrayText(items, []);
        ArrayText(b.items, []);
        SameEmptiness(items, b.items, [], []);
        ItemsPrefixFree(items, b.items, [], []);
        assert |items| == |b.items|;
        forall i | 0 <= i < |items|
          ensures Equiv(items[i], b.items[i])
        {
          ItemTextsAt(items, i);
          ItemTextsAt(b.items, i);
          SameItem(items[i], b.items[i]);
          SameTextIsEquiv(items[i], b.items[i]);
        }
      case Obj(members) =>
        SameObjectText(members, b.members);
        forall m | m in members
          ensures MatchedIn(m, b.members)
        {
          var n :| n in b.members && n.key == m.key && Canonical(n.value) == Canonical(m.value);
          SameTextIsEquiv(m.value, n.value);
        }
        forall n | n in b.members
          ensures MatchedBy(members, n)
        {
          var m :| m in members && m.key == n.key && Canonical(m.value) == Canonical(n.value);
          SameTextIsEquiv(m.value, n.value);
        }
      case Str(s) =>
        QuotedPrefixFree(s, if b.Str? then b.s else b.iso, [], []);
      case Date(iso) =>
        QuotedPrefixFree(iso, if b.Str? then b.s else b.iso, [], []);
      case _ =>
    }
  }

  lemma SameItem(a: Json, b: Json)
    requires Tidy(a) && Tidy(b) && ItemText(a) == ItemText(b)
    ensures Canonical(a) == Canonical(b)
  {
    FirstUnit(a);
    FirstUnit(b);
    hide Tidy, Join, Quoted, SortPairs, MemberPairs, ItemTexts, PairTexts;
  }

  lemma ObjectParts(ms: seq<Member>)
    requires Tidy(Obj(ms))
    ensures DistinctMembers(ms) && forall i :: 0 <= i < |ms| ==> Tidy(ms[i].value)
  {
  }

  /** Objects with the same text hold the same keys with values of the same text. */
  lemma SameObjectText(ms: seq<Member>, ns: seq<Member>)
    requires Tidy(Obj(ms)) && Tidy(Obj(ns)) && Canonical(Obj(ms)) == Canonical(Obj(ns))
    ensures forall m :: m in ms ==> PrintedIn(m, ns)
    ensures forall n :: n in ns ==> PrintedIn(n, ms)
  {
    ObjectParts(ms);
    ObjectParts(ns);
    hide Canonical, Join, Quoted, SortPairs, MemberPairs, ItemTexts, PairTexts, Tidy;
    var ps, qs := SortPairs(MemberPairs(ms)), SortPairs(MemberPairs(ns));
    ObjectPairs(ms);
    ObjectPairs(ns);
    ObjectText(ms, []);
    ObjectText(ns, []);
    PairsPrefixFree(ms, ns, ps, qs, [], []);
    forall m | m in ms
      ensures PrintedIn(m, ns)
    {
      assert Pair(m.key, Canonical(m.value)) in qs;
    }
    forall n | n in ns
      ensures PrintedIn(n, ms)
    {
      assert Pair(n.key, Canonical(n.value)) in ps;
    }
  }

  /** The order of keys never shows in the text. */
  lemma {:induction false} EquivIsSameText(a: Json, b: Json)
    requires WellFormed(a) && WellFormed(b) && Equiv(a, b)
    ensures Canonical(a) == Canonical(b)
    decreases a
  {
    if a.Arr? {
      hide Canonical;
      forall i | 0 <= i < |a.items|
        ensures ItemText(a.items[i]) == ItemText(b.items[i])
      {
        EquivIsSameText(a.items[i], b.items[i]);
      }
      SameArrayText(a.items, b.items);
    } else if a.Obj? {
      hide Canonical;
      EquivMembersSameText(a.members, b.members);
    } else {
      hide WellFormed, Join, SortPairs, MemberPairs, ItemTexts, PairTexts, Quoted;
    }
  }

  lemma {:induction false} EquivMembersSameText(ms: seq<Member>, ns: seq<Member>)
    requires DistinctMembers(ms) && forall i :: 0 <= i < |ms| ==> WellFormed(ms[i].value)
    requires DistinctMembers(ns) && forall i :: 0 <= i < |ns| ==> WellFormed(ns[i].value)
    requires (forall m :: m in ms ==> MatchedIn(m, ns)) && forall n :: n in ns ==> MatchedBy(ms, n)
    ensures Canonical(Obj(ms)) == Canonical(Obj(ns))
    decreases ms, 1
  {
    hide Canonical, Equiv, WellFormed, MatchedIn, MatchedBy, PrintedIn;
    forall m | m in ms
      ensures PrintedIn(m, ns)
    {
      MatchedInPrints(m, ns);
    }
    forall n | n in ns
      ensures PrintedIn(n, ms)
    {
      MatchedByPrints(ms, n);
    }
    SameObjectPairs(ms, ns);
  }

  lemma {:induction false} MatchedInPrints(m: Member, ns: seq<Member>)
    requires WellFormed(m.value) && (forall i :: 0 <= i < |ns| ==> WellFormed(ns[i].value)) && MatchedIn(m, ns)
    ensures PrintedIn(m, ns)
    decreases m
  {
    hide Canonical, Equiv, WellFormed;
    var n :| n in ns && n.key == m.key && Equiv(m.value, n.value);
    EquivIsSameText(m.value, n.value);
  }

  lemma {:induction false} MatchedByPrints(ms: seq<Member>, n: Member)
    requires (forall i :: 0 <= i < |ms| ==> WellFormed(ms[i].value)) && WellFormed(n.value) && MatchedBy(ms, n)
    ensures PrintedIn(n, ms)
    decreases ms, 0
  {
    hide Canonical, Equiv, WellFormed;
    var m :| m in ms && m.key == n.key && Equiv(m.value, n.value);
    EquivIsSameText(m.value, n.value);
  }

  lemma SameArrayText(a: seq<Json>, b: seq<Json>)
    requires |a| == |b|
    requires forall i :: 0 <= i < |a| ==> ItemText(a[i]) == ItemText(b[i])
    ensures Canonical(Arr(a)) == Canonical(Arr(b))
  {
    forall i | 0 <= i < |a|
      ensures ItemTexts(a)[i] == ItemTexts(b)[i]
    {
      ItemTextsAt(a, i);
      ItemTextsAt(b, i);
    }
    assert ItemTexts(a) == ItemTexts(b);
  }

  lemma SameObjectPairs(ms: seq<Member>, ns: seq<Member>)
    requires DistinctMembers(ms) && DistinctMembers(ns)
    requires forall m :: m in ms ==> PrintedIn(m, ns)
    requires forall n :: n in ns ==> PrintedIn(n, ms)
    ensures Canonical(Obj(ms)) == Canonical(Obj(ns))
  {
    hide Canonical, SortPairs, MemberPairs;
    ObjectPairs(ms);
    ObjectPairs(ns);
    SortedUnique(SortPairs(MemberPairs(ms)), SortPairs(MemberPairs(ns)));
    SameObjectBody(ms, ns);
  }

  // ------------------------------------------------------------------
  // Every value
  // ------------------------------------------------------------------

  /** NaN and infinity as null and the array of a single undefined as the empty array, at every depth. */
  function Tidied(v: Json): Json
    decreases v
  {
    match v
    case NonFinite => Null
    case Arr(items) =>
      if items == [Undefined] then Arr([])
      else Arr(seq(|items|, i requires 0 <= i < |items| => Tidied(items[i])))
    case Obj(members) =>
      Obj(seq(|members|, i requires 0 <= i < |members| => Member(members[i].key, Tidied(members[i].value))))
    case _ => v
  }

  lemma {:induction false} TidiedIsTidy(v: Json)
    requires WellFormed(v)
    ensures Tidy(Tidied(v)) && (Tidied(v).Undefined? <==> v.Undefined?)
    decreases v
  {
    match v
    case Arr(items) =>
      forall i | 0 <= i < |items|
        ensures Tidy(Tidied(items[i])) && (Tidied(items[i]).Undefined? <==> items[i].Undefined?)
      {
        TidiedIsTidy(items[i]);
      }
    case Obj(members) =>
      forall i | 0 <= i < |members|
        ensures Tidy(Tidied(members[i].value))
      {
        TidiedIsTidy(members[i].value);
      }
    case _ =>
  }

  lemma {:induction false} TidiedPrints(v: Json)
    ensures Canonical(Tidied(v)) == Canonical(v) && ItemText(Tidied(v)) == ItemText(v)
    decreases v
  {
    match v
    case Arr(items) =>
      if items == [Undefined] {
        assert ItemTexts(items) == [[]];
      } else {
        forall i | 0 <= i < |items|
          ensures ItemText(Tidied(items[i])) == ItemText(items[i])
        {
          TidiedPrints(items[i]);
        }
        SameArrayText(Tidied(v).items, items);
      }
    case Obj(members) =>
      var tidied := Tidied(v).members;
      forall i | 0 <= i < |members|
        ensures MemberPairs(tidied)[i] == MemberPairs(members)[i]
      {
        TidiedPrints(members[i].value);
        MemberPairsAt(tidied, i);
        MemberPairsAt(members, i);
      }
      assert MemberPairs(tidied) == MemberPairs(members);
    case _ =>
  }

  /** Two values print the same exactly when they are equal up to key order once every NaN is
      read as null and every array of a single undefined as the empty array. */
  lemma SameTextExactly(a: Json, b: Json)
    requires WellFormed(a) && WellFormed(b)
    ensures Canonical(a) == Canonical(b) <==> Equiv(Tidied(a), Tidied(b))
  {
    TidiedIsTidy(a);
    TidiedIsTidy(b);
    TidiedPrints(a);
    TidiedPrints(b);
    TidyCanonicalForm(Tidied(a), Tidied(b));
  }

  lemma {:induction false} TidyIsWellFormed(v: Json)
    requires Tidy(v)
    ensures WellFormed(v)
    decreases v
  {
    match v
    case Arr(items) =>
      forall i | 0 <= i < |items|
        ensures WellFormed(items[i])
      {
        TidyIsWellFormed(items[i]);
      }
    case Obj(members) =>
      forall i | 0 <= i < |members|
        ensures WellFormed(members[i].value)
      {
        TidyIsWellFormed(members[i].value);
      }
    case _ =>
  }

  lemma {:induction false} JsonIsTidy(v: Json)
    requires IsJson(v)
    ensures Tidy(v)
    decreases v
  {
    match v
    case Arr(items) =>
      assert items != [] ==> Defined(items[0]);
      forall i | 0 <= i < |items|
        ensures Tidy(items[i])
      {
        JsonIsTidy(items[i]);
      }
    case Obj(members) =>
      forall i | 0 <= i < |members|
        ensures Tidy(members[i].value)
      {
        JsonIsTidy(members[i].value);
      }
    case _ =>
  }

  lemma TidyCanonicalForm(a: Json, b: Json)
    requires Tidy(a) && Tidy(b)
    ensures Canonical(a) == Canonical(b) <==> Equiv(a, b)
  {
    TidyIsWellFormed(a);
    TidyIsWellFormed(b);
    if Canonical(a) == Canonical(b) {
      SameTextIsEquiv(a, b);
    }
    if Equiv(a, b) {
      EquivIsSameText(a, b);
    }
  }

  /** The encoder is a canonical form of JSON: same text exactly when equal up to key order at every depth. */
  lemma CanonicalForm(a: Json, b: Json)
    requires IsJson(a) && IsJson(b)
    ensures Canonical(a) == Canonical(b) <==> Equiv(a, b)
  {
    JsonIsTidy(a);
    JsonIsTidy(b);
    TidyCanonicalForm(a, b);
  }

  /** Outside JSON the encoder is not injective: an array of one undefined prints as the empty
      array, and NaN as null. */
  lemma UndefinedItemIsLost()
    ensures Canonical(Arr([Undefined])) == Canonical(Arr([])) && !Equiv(Arr([Undefined]), Arr([]))
    ensures Canonical(NonFinite) == Canonical(Null) && !Equiv(NonFinite, Null)
  {
    assert ItemTexts([Undefined]) == [[]];
  }

  // ------------------------------------------------------------------
  // Normalizing the detail
  // ------------------------------------------------------------------

  /** Printing as JSON and parsing again. */
  function RoundTripped(v: Json): Json
    decreases v
  {
    match v
    case Date(iso) => Str(iso)
    case NonFinite => Null
    case Arr(items) => Arr(seq(|items|, i requires 0 <= i < |items| =>
      if items[i].Undefined? then Null else RoundTripped(items[i])))
    case Obj(members) => Obj(KeptMembers(members))
    case _ => v
  }

  function KeptMembers(members: seq<Member>): seq<Member>
    decreases members
  {
    if members == [] then []
    else (if members[0].value.Undefined? then [] else [Member(members[0].key, RoundTripped(members[0].value))])
         + KeptMembers(members[1..])
  }

  /** What is stored and hashed for a detail argument. */
  function NormalizeDetail(detail: Json): Json {
    RoundTripped(if detail.Null? || detail.Undefined? then Obj([]) else detail)
  }

  /** What a jsonb column can hold: JSON without dates. */
  ghost predicate Plain(v: Json) {
    match v
    case Arr(items) => forall i :: 0 <= i < |items| ==> Plain(items[i])
    case Obj(members) => forall i :: 0 <= i < |members| ==> Plain(members[i].value)
    case Undefined => false
    case NonFinite => false
    case Date(_) => false
    case _ => true
  }

  lemma {:induction false} RoundTrippedIsPlain(v: Json)
    requires WellFormed(v) && !v.Undefined?
    ensures Plain(RoundTripped(v)) && WellFormed(RoundTripped(v))
    decreases v
  {
    match v
    case Arr(items) =>
      forall i | 0 <= i < |items| && !items[i].Undefined?
        ensures Plain(RoundTripped(items[i])) && WellFormed(RoundTripped(items[i]))
      {
        RoundTrippedIsPlain(items[i]);
      }
    case Obj(members) => KeptMembersArePlain(members);
    case _ =>
  }

  lemma {:induction false} KeptMembersArePlain(members: seq<Member>)
    requires DistinctMembers(members) && forall i :: 0 <= i < |members| ==> WellFormed(members[i].value)
    ensures DistinctMembers(KeptMembers(members))
    ensures forall k :: k in KeptMembers(members) ==> Plain(k.value) && WellFormed(k.value)
    ensures forall k :: k in KeptMembers(members) ==> exists m :: m in members && m.key == k.key
    decreases members
  {
    if members != [] {
      var rest := members[1..];
      KeptMembersArePlain(rest);
      assert forall m :: m in rest ==> m in members;
      if !members[0].value.Undefined? {
        RoundTrippedIsPlain(members[0].value);
        assert members[0] in members;
      }
    }
  }

  /** A value jsonb can hold survives printing and parsing unchanged. */
  lemma {:induction false} PlainIsStable(v: Json)
    requires Plain(v)
    ensures RoundTripped(v) == v && IsUndefinedFree(v)
    decreases v
  {
    match v
    case Arr(items) =>
      forall i | 0 <= i < |items|
        ensures RoundTripped(items[i]) == items[i] && IsUndefinedFree(items[i])
      {
        PlainIsStable(items[i]);
      }
    case Obj(members) => PlainMembersAreStable(members);
    case _ =>
  }

  predicate IsUndefinedFree(v: Json) {
    !v.Undefined?
  }

  lemma {:induction false} PlainMembersAreStable(members: seq<Member>)
    requires forall i :: 0 <= i < |members| ==> Plain(members[i].value)
    ensures KeptMembers(members) == members
    decreases members
  {
    if members != [] {
      PlainIsStable(members[0].value);
      PlainMembersAreStable(members[1..]);
      assert members == [members[0]] + members[1..];
    }
  }

  lemma {:induction false} PlainIsDefined(v: Json)
    requires Plain(v)
    ensures Defined(v)
    decreases v
  {
    match v
    case Arr(items) =>
      forall i | 0 <= i < |items| ensures Defined(items[i]) {
        PlainIsDefined(items[i]);
      }
    case Obj(members) =>
      forall i | 0 <= i < |members| ensures Defined(members[i].value) {
        PlainIsDefined(members[i].value);
      }
    case _ =>
  }

  /**
    Whatever detail a caller passes, what is hashed and stored is JSON that the
    column can hold. Normalizing it again changes nothing, unless the detail itself
    is NaN or infinite: that becomes null, and null would become the empty object.
   */
  lemma NormalizedIsStored(detail: Json)
    requires WellFormed(detail)
    ensures IsJson(NormalizeDetail(detail)) && Plain(NormalizeDetail(detail))
    ensures NormalizeDetail(NormalizeDetail(detail)) == NormalizeDetail(detail) <==> !detail.NonFinite?
  {
    var v := if detail.Null? || detail.Undefined? then Obj([]) else detail;
    RoundTrippedIsPlain(v);
    PlainIsDefined(RoundTripped(v));
    PlainIsStable(RoundTripped(v));
  }

  /** Normalizing a value that is JSON, dates aside, does not change its text. */
  lemma {:induction false} RoundTrippedIsEquiv(v: Json)
    requires Defined(v)
    ensures Equiv(v, RoundTripped(v))
    decreases v
  {
    match v
    case Arr(items) =>
      forall i | 0 <= i < |items|
        ensures Equiv(items[i], RoundTripped(items[i]))
      {
        RoundTrippedIsEquiv(items[i]);
      }
    case Obj(members) => KeptMembersMatch(members);
    case _ =>
  }

  lemma {:induction false} KeptMembersMatch(members: seq<Member>)
    requires forall i :: 0 <= i < |members| ==> Defined(members[i].value)
    ensures forall m :: m in members ==> MatchedIn(m, KeptMembers(members))
    ensures forall n :: n in KeptMembers(members) ==> MatchedBy(members, n)
    decreases members
  {
    if members != [] {
      var head, rest := members[0], members[1..];
      var kept := Member(head.key, RoundTripped(head.value));
      KeptMembersMatch(rest);
      RoundTrippedIsEquiv(head.value);
      assert KeptMembers(members) == [kept] + KeptMembers(rest);
      assert members == [head] + rest;
      MatchesGrow(head, rest, kept, KeptMembers(rest));
    }
  }

  lemma MatchesGrow(m: Member, ms: seq<Member>, n: Member, ns: seq<Member>)
    requires (forall i :: i in ms ==> MatchedIn(i, ns)) && (forall i :: i in ns ==> MatchedBy(ms, i))
    requires m.key == n.key && Equiv(m.value, n.value)
    ensures forall i :: i in [m] + ms ==> MatchedIn(i, [n] + ns)
    ensures forall i :: i in [n] + ns ==> MatchedBy([m] + ms, i)
  {
    hide Equiv;
    forall i | i in [m] + ms
      ensures MatchedIn(i, [n] + ns)
    {
      assert n in [n] + ns;
      if i != m {
        var j :| j in ns && j.key == i.key && Equiv(i.value, j.value);
        assert j in [n] + ns;
      }
    }
    forall i | i in [n] + ns
      ensures MatchedBy([m] + ms, i)
    {
      assert m in [m] + ms;
      if i != n {
        var j :| j in ms && j.key == i.key && Equiv(j.value, i.value);
        assert j in [m] + ms;
      }
    }
  }
}
