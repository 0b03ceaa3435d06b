/**
  A reader of compact JSON text, written apart from the encoders, and what it reads
  back from them.
 */
module JsonReader {
  import opened CanonicalJson
  import opened CodeUnits
  import opened Wrappers

  /** What was read and what follows it. */
  datatype Read<T> = Read(value: T, rest: Text)

  // ------------------------------------------------------------------
  // Strings
  // ------------------------------------------------------------------

  /** The character that a backslash and a letter stand for. */
  function Unescaped(letter: int): Option<CodeUnit> {
    if letter == '"' as int || letter == '\\' as int || letter == '/' as int then Some(letter)
    else if letter == 'b' as int then Some(8)
    else if letter == 't' as int then Some(9)
    else if letter == 'n' as int then Some(10)
    else if letter == 'f' as int then Some(12)
    else if letter == 'r' as int then Some(13)
    else None
  }

  function HexDigitValue(u: int): Option<int> {
    if '0' as int <= u <= '9' as int then Some(u - '0' as int)
    else if 'a' as int <= u <= 'f' as int then Some(u - 'a' as int + 10)
    else if 'A' as int <= u <= 'F' as int then Some(u - 'A' as int + 10)
    else None
  }

  function ReadHex(t: Text): (n: Option<int>)
    ensures n.Some? ==> 0 <= n.value
  {
    if t == [] then Some(0)
    else
      var d := HexDigitValue(t[|t| - 1]);
      var n := ReadHex(t[..|t| - 1]);
      if n.None? || d.None? then None else Some(16 * n.value + d.value)
  }

  function Before(c: CodeUnit, r: Option<Read<Text>>): Option<Read<Text>> {
    match r
    case None => None
    case Some(Read(s, rest)) => Some(Read([c] + s, rest))
  }

  /** The string that ends with the next quote that is not escaped. */
  function ReadUnits(t: Text): (r: Option<Read<Text>>)
    ensures r.Some? ==> |r.value.rest| < |t|
    decreases |t|
  {
    if t == [] then None
    else if t[0] == '"' as int then Some(Read([], t[1..]))
    else if t[0] == '\\' as int then
      if |t| >= 2 && Unescaped(t[1]).Some? then Before(Unescaped(t[1]).value, ReadUnits(t[2..]))
      else if |t| >= 6 && t[1] == 'u' as int && ReadHex(t[2..6]).Some? && ReadHex(t[2..6]).value < 0x1_0000
      then Before(ReadHex(t[2..6]).value, ReadUnits(t[6..]))
      else None
    else if t[0] < 32 then None
    else Before(t[0], ReadUnits(t[1..]))
  }

  // ------------------------------------------------------------------
  // Values
  // ------------------------------------------------------------------

  predicate NumberUnit(u: int) {
    '0' as int <= u <= '9' as int || u in {'-' as int, '+' as int, '.' as int, 'e' as int}
  }

  /** How many units of a number t starts with. */
  function NumberRun(t: Text): (n: nat)
    ensures n <= |t|
  {
    if t == [] || !NumberUnit(t[0]) then 0 else 1 + NumberRun(t[1..])
  }

  function ReadValue(t: Text): (r: Option<Read<Json>>)
    ensures r.Some? ==> |r.value.rest| < |t|
    decreases |t|, 1
  {
    if t == [] then None
    else if t[0] == '"' as int then
      match ReadUnits(t[1..])
      case None => None
      case Some(Read(s, rest)) => Some(Read(Str(s), rest))
    else if t[0] == '[' as int then
      if |t| > 1 && t[1] == ']' as int then Some(Read(Arr([]), t[2..]))
      else
        match ReadItems(t[1..])
        case None => None
        case Some(Read(items, rest)) => Some(Read(Arr(items), rest))
    else if t[0] == '{' as int then
      if |t| > 1 && t[1] == '}' as int then Some(Read(Obj([]), t[2..]))
      else
        match ReadMembers(t[1..])
        case None => None
        case Some(Read(members, rest)) => Some(Read(Obj(members), rest))
    else if Units("null") <= t then Some(Read(Null, t[4..]))
    else if Units("true") <= t then Some(Read(Bool(true), t[4..]))
    else if Units("false") <= t then Some(Read(Bool(false), t[5..]))
    else if NumberRun(t) > 0 then Some(Read(Number(t[..NumberRun(t)]), t[NumberRun(t)..]))
    else None
  }

  /** The values up to the closing bracket, with commas between them; at least one. */
  function ReadItems(t: Text): (r: Option<Read<seq<Json>>>)
    ensures r.Some? ==> |r.value.rest| < |t|
    decreases |t|, 2
  {
    match ReadValue(t)
    case None => None
    case Some(Read(v, rest)) =>
      if rest == [] then None
      else if rest[0] == ']' as int then Some(Read([v], rest[1..]))
      else if rest[0] == ',' as int then
        match ReadItems(rest[1..])
        case None => None
        case Some(Read(more, end)) => Some(Read([v] + more, end))
      else None
  }

  /** One key, a colon and its value. */
  function ReadMember(t: Text): (r: Option<Read<Member>>)
    ensures r.Some? ==> |r.value.rest| < |t|
    decreases |t|, 2
  {
    if t == [] || t[0] != '"' as int then None
    else
      match ReadUnits(t[1..])
      case None => None
      case Some(Read(key, rest)) =>
        if rest == [] || rest[0] != ':' as int then None
        else
          match ReadValue(rest[1..])
          case None => None
          case Some(Read(v, end)) => Some(Read(Member(key, v), end))
  }

  function ReadMembers(t: Text): (r: Option<Read<seq<Member>>>)
    ensures r.Some? ==> |r.value.rest| < |t|
    decreases |t|, 3
  {
    match ReadMember(t)
    case None => None
    case Some(Read(m, rest)) =>
      if rest == [] then None
      else if rest[0] == '}' as int then Some(Read([m], rest[1..]))
      else if rest[0] == ',' as int then
        match ReadMembers(rest[1..])
        case None => None
        case Some(Read(more, end)) => Some(Read([m] + more, end))
      else None
  }

  // ------------------------------------------------------------------
  // How strings are escaped
  // ------------------------------------------------------------------

  const LOWER_HEX := Units("0123456789abcdef")

  /** The escapes as the runtime writes them: the short ones where there are any, otherwise four
      lower-case hex digits for control characters and for half a surrogate pair. */
  lemma EscapeTable(c: CodeUnit)
    ensures EscapeUnit('"' as int) == Units("\\\"") && EscapeUnit('\\' as int) == Units("\\\\")
    ensures EscapeUnit(8) == Units("\\b") && EscapeUnit(9) == Units("\\t") && EscapeUnit(10) == Units("\\n")
    ensures EscapeUnit(12) == Units("\\f") && EscapeUnit(13) == Units("\\r")
    ensures (c < 32 && c !in {8, 9, 10, 12, 13}) || 0xD800 <= c < 0xE000 ==>
              EscapeUnit(c) == Units("\\u") + [LOWER_HEX[c / 4096], LOWER_HEX[c / 256 % 16],
                                                LOWER_HEX[c / 16 % 16], LOWER_HEX[c % 16]]
    ensures c >= 32 && !(0xD800 <= c < 0xE000) && c !in {'"' as int, '\\' as int} ==> EscapeUnit(c) == [c]
  {
    LowerHex(c / 4096);
    LowerHex(c / 256 % 16);
    LowerHex(c / 16 % 16);
    LowerHex(c % 16);
  }

  lemma LowerHex(d: nat)
    requires d < 16
    ensures HexDigit(d) == LOWER_HEX[d]
  {
    assert LOWER_HEX[d] == "0123456789abcdef"[d] as int;
  }

  // ------------------------------------------------------------------
  // Strings are read back
  // ------------------------------------------------------------------

  lemma ReadHexFour(a: CodeUnit, b: CodeUnit, c: CodeUnit, d: CodeUnit)
    requires HexDigitValue(a).Some? && HexDigitValue(b).Some? && HexDigitValue(c).Some? && HexDigitValue(d).Some?
    ensures ReadHex([a, b, c, d]) == Some(4096 * HexDigitValue(a).value + 256 * HexDigitValue(b).value
                                          + 16 * HexDigitValue(c).value + HexDigitValue(d).value)
  {
    hide HexDigitValue;
    assert [a, b, c, d][..3] == [a, b, c] && [a, b, c][..2] == [a, b] && [a, b][..1] == [a] && [a][..0] == [];
    assert ReadHex([a]) == Some(HexDigitValue(a).value);
    assert ReadHex([a, b]) == Some(16 * HexDigitValue(a).value + HexDigitValue(b).value);
    assert ReadHex([a, b, c]).Some?;
  }

  lemma HexDigitReads(d: nat)
    requires d < 16
    ensures HexDigitValue(HexDigit(d)) == Some(d)
  {
  }

  lemma Hex4Reads(c: CodeUnit)
    ensures ReadHex(Hex4(c)) == Some(c as int)
  {
    HexDigits(c);
    HexDigitReads(c / 4096);
    HexDigitReads(c / 256 % 16);
    HexDigitReads(c / 16 % 16);
    HexDigitReads(c % 16);
    ReadHexFour(HexDigit(c / 4096), HexDigit(c / 256 % 16), HexDigit(c / 16 % 16), HexDigit(c % 16));
  }

  lemma EscapeUnitReads(c: CodeUnit, rest: Text)
    ensures ReadUnits(EscapeUnit(c) + rest) == Before(c, ReadUnits(rest))
  {
    var t := EscapeUnit(c) + rest;
    assert t[|EscapeUnit(c)|..] == rest;
    if |EscapeUnit(c)| == 6 {
      Hex4Reads(c);
      assert t[2..6] == Hex4(c);
      assert Unescaped(t[1]).None?;
    }
  }

  lemma PairReads(s: Text, rest: Text)
    requires StartsWithPair(s)
    ensures ReadUnits(s[..2] + rest) == Before(s[0], Before(s[1], ReadUnits(rest)))
  {
    var t := s[..2] + rest;
    assert t[1..][1..] == rest;
    assert ReadUnits(t[1..]) == Before(s[1], ReadUnits(rest));
  }

  lemma {:induction false} EscapedReads(s: Text, x: Text)
    ensures ReadUnits(Escaped(s) + [QUOTE] + x) == Some(Read(s, x))
    decreases |s|
  {
    hide Token, EscapeUnit, StartsWithPair;
    if s == [] {
      assert Escaped(s) + [QUOTE] + x == [QUOTE] + x;
    } else {
      EscapedStep(s);
      var n := HeadLength(s);
      EscapedReads(s[n..], x);
      var rest := Escaped(s[n..]) + [QUOTE] + x;
      assert Escaped(s) + [QUOTE] + x == Token(s) + rest;
      TokenReads(s, rest);
      if n == 1 {
        assert [s[0]] + s[1..] == s;
      } else {
        assert [s[0]] + ([s[1]] + s[2..]) == s;
      }
    }
  }

  lemma TokenReads(s: Text, rest: Text)
    requires s != []
    ensures HeadLength(s) == 2 ==> |s| >= 2 && ReadUnits(Token(s) + rest) == Before(s[0], Before(s[1], ReadUnits(rest)))
    ensures HeadLength(s) != 2 ==> HeadLength(s) == 1 && ReadUnits(Token(s) + rest) == Before(s[0], ReadUnits(rest))
  {
    hide EscapeUnit, ReadUnits;
    if StartsWithPair(s) {
      PairReads(s, rest);
    } else {
      EscapeUnitReads(s[0], rest);
    }
  }

  // ------------------------------------------------------------------
  // Values are read back
  // ------------------------------------------------------------------

  /** Whatever ends a value may follow: the text reads as v. */
  ghost predicate Reads(text: Text, v: Json) {
    forall x :: Ends(x) ==> ReadValue(text + x) == Some(Read(v, x))
  }

  lemma QuotedReads(s: Text)
    ensures Reads(Quoted(s), Str(s))
  {
    hide ReadUnits, Escaped;
    forall x | Ends(x)
      ensures ReadValue(Quoted(s) + x) == Some(Read(Str(s), x))
    {
      EscapedReads(s, x);
      assert (Quoted(s) + x)[1..] == Escaped(s) + [QUOTE] + x;
    }
  }

  lemma {:induction false} NumberRunIs(t: Text, x: Text)
    requires (forall i :: 0 <= i < |t| ==> NumberUnit(t[i])) && Ends(x)
    ensures NumberRun(t + x) == |t|
  {
    if t == [] {
      assert t + x == x;
    } else {
      NumberRunIs(t[1..], x);
      assert (t + x)[1..] == t[1..] + x;
    }
  }

  lemma NumberReads(t: Text)
    requires NumberText(t)
    ensures Reads(t, Number(t))
  {
    forall x | Ends(x)
      ensures ReadValue(t + x) == Some(Read(Number(t), x))
    {
      NumberRunIs(t, x);
      assert (t + x)[..|t|] == t && (t + x)[|t|..] == x;
      assert (t + x)[0] == t[0];
    }
  }

  lemma WordReads(word: Text, v: Json)
    requires (word == Units("null") && v == Null) || (word == Units("true") && v == Bool(true))
             || (word == Units("false") && v == Bool(false))
    ensures Reads(word, v)
  {
    forall x | Ends(x)
      ensures ReadValue(word + x) == Some(Read(v, x))
    {
      var t := word + x;
      assert word <= t && t[|word|..] == x && t[0] == word[0];
      assert Units("null") <= t ==> t[0] == Units("null")[0];
      assert Units("true") <= t ==> t[0] == Units("true")[0];
    }
  }

  lemma {:induction false} ItemsRead(texts: seq<Text>, vs: seq<Json>, x: Text)
    requires |texts| == |vs| > 0 && forall i :: 0 <= i < |vs| ==> Reads(texts[i], vs[i])
    ensures ReadItems(Join(texts) + [CLOSE_ARRAY] + x) == Some(Read(vs, x))
    decreases |texts|
  {
    hide ReadValue, Reads;
    var u := [CLOSE_ARRAY] + x;
    JoinRest(texts, u);
    RestEnds(texts, u);
    assert Join(texts) + [CLOSE_ARRAY] + x == texts[0] + (Rest(texts) + u);
    ReadsThen(texts[0], vs[0], Rest(texts) + u);
    RestTail(texts, CLOSE_ARRAY, x);
    if |texts| > 1 {
      ItemsRead(texts[1..], vs[1..], x);
      assert [vs[0]] + vs[1..] == vs;
    } else {
      assert vs == [vs[0]];
    }
  }

  lemma ReadsThen(text: Text, v: Json, x: Text)
    requires Reads(text, v) && Ends(x)
    ensures ReadValue(text + x) == Some(Read(v, x))
  {
  }

  lemma ReadsArray(t: Text)
    requires t != [] && t[0] == OPEN_ARRAY
    ensures ReadValue(t) == if |t| > 1 && t[1] == CLOSE_ARRAY then Some(Read(Arr([]), t[2..]))
                            else if ReadItems(t[1..]).None? then None
                            else Some(Read(Arr(ReadItems(t[1..]).value.value), ReadItems(t[1..]).value.rest))
  {
    hide ReadItems, ReadMembers, ReadUnits, NumberRun;
  }

  lemma ReadsObject(t: Text)
    requires t != [] && t[0] == OPEN_OBJECT
    ensures ReadValue(t) == if |t| > 1 && t[1] == CLOSE_OBJECT then Some(Read(Obj([]), t[2..]))
                            else if ReadMembers(t[1..]).None? then None
                            else Some(Read(Obj(ReadMembers(t[1..]).value.value), ReadMembers(t[1..]).value.rest))
  {
    hide ReadItems, ReadMembers, ReadUnits, NumberRun;
  }

  lemma JoinStart(texts: seq<Text>, u: Text)
    requires texts != [] && texts[0] != []
    ensures (Join(texts) + u)[0] == texts[0][0]
  {
    hide Join;
    JoinRest(texts, u);
  }

  lemma ArrayReads(texts: seq<Text>, vs: seq<Json>)
    requires |texts| == |vs| && forall i :: 0 <= i < |vs| ==> Reads(texts[i], vs[i])
    requires texts != [] ==> texts[0] != [] && texts[0][0] != CLOSE_ARRAY
    ensures Reads([OPEN_ARRAY] + Join(texts) + [CLOSE_ARRAY], Arr(vs))
  {
    hide ReadItems, ReadValue, Join;
    forall x | Ends(x)
      ensures ReadValue([OPEN_ARRAY] + Join(texts) + [CLOSE_ARRAY] + x) == Some(Read(Arr(vs), x))
    {
      var t := [OPEN_ARRAY] + Join(texts) + [CLOSE_ARRAY] + x;
      assert t[1..] == Join(texts) + [CLOSE_ARRAY] + x;
      ReadsArray(t);
      if texts == [] {
        EmptyJoin(CLOSE_ARRAY, x);
        assert t[1] == CLOSE_ARRAY && t[2..] == x;
      } else {
        ItemsRead(texts, vs, x);
        JoinStart(texts, [CLOSE_ARRAY] + x);
        assert t[1..] == Join(texts) + ([CLOSE_ARRAY] + x);
        assert t[1] == t[1..][0];
      }
    }
  }

  lemma MemberReads(p: Pair, v: Json, x: Text)
    requires Reads(p.text, v) && Ends(x)
    ensures ReadMember(Quoted(p.key) + [COLON] + p.text + x) == Some(Read(Member(p.key, v), x))
  {
    hide ReadUnits, Escaped, ReadValue;
    var t := Quoted(p.key) + [COLON] + p.text + x;
    var rest := [COLON] + p.text + x;
    EscapedReads(p.key, rest);
    assert t[1..] == Escaped(p.key) + [QUOTE] + rest;
    assert rest[1..] == p.text + x;
    ReadsThen(p.text, v, x);
  }

  lemma {:induction false} MembersRead(ps: seq<Pair>, ms: seq<Member>, x: Text)
    requires |ps| == |ms| > 0
    requires forall i :: 0 <= i < |ms| ==> ms[i].key == ps[i].key && Reads(ps[i].text, ms[i].value)
    ensures ReadMembers(Join(PairTexts(ps)) + [CLOSE_OBJECT] + x) == Some(Read(ms, x))
    decreases |ps|
  {
    hide ReadMember, Reads, Quoted;
    var texts, u := PairTexts(ps), [CLOSE_OBJECT] + x;
    FirstPair(ps);
    JoinRest(texts, u);
    RestEnds(texts, u);
    assert Join(texts) + [CLOSE_OBJECT] + x == texts[0] + (Rest(texts) + u);
    MemberReads(ps[0], ms[0].value, Rest(texts) + u);
    assert texts[0] + (Rest(texts) + u) == Quoted(ps[0].key) + [COLON] + ps[0].text + (Rest(texts) + u);
    RestTail(texts, CLOSE_OBJECT, x);
    assert ms[0] == Member(ps[0].key, ms[0].value);
    if |ps| > 1 {
      MembersRead(ps[1..], ms[1..], x);
      assert [ms[0]] + ms[1..] == ms;
    } else {
      assert ms == [ms[0]];
    }
  }

  lemma ObjectReads(ps: seq<Pair>, ms: seq<Member>)
    requires |ps| == |ms|
    requires forall i :: 0 <= i < |ms| ==> ms[i].key == ps[i].key && Reads(ps[i].text, ms[i].value)
    ensures Reads([OPEN_OBJECT] + Join(PairTexts(ps)) + [CLOSE_OBJECT], Obj(ms))
  {
    hide ReadMembers, ReadValue, Join;
    forall x | Ends(x)
      ensures ReadValue([OPEN_OBJECT] + Join(PairTexts(ps)) + [CLOSE_OBJECT] + x) == Some(Read(Obj(ms), x))
    {
      var texts := PairTexts(ps);
      var t := [OPEN_OBJECT] + Join(texts) + [CLOSE_OBJECT] + x;
      assert t[1..] == Join(texts) + [CLOSE_OBJECT] + x;
      ReadsObject(t);
      if ps == [] {
        EmptyJoin(CLOSE_OBJECT, x);
        assert t[1] == CLOSE_OBJECT && t[2..] == x;
      } else {
        MembersRead(ps, ms, x);
        FirstPair(ps);
        JoinStart(texts, [CLOSE_OBJECT] + x);
        assert t[1..] == Join(texts) + ([CLOSE_OBJECT] + x);
        assert t[1] == t[1..][0];
      }
    }
  }

  // ------------------------------------------------------------------
  // The canonical text means the value
  // ------------------------------------------------------------------

  /** Reading what the canonical encoder prints gives the value back, up to the order of keys. */
  lemma {:induction false} CanonicalReads(v: Json) returns (r: Json)
    requires IsJson(v)
    ensures Reads(Canonical(v), r) && Equiv(v, r)
    decreases v
  {
    hide Reads, Join, PairTexts, SortPairs;
    r := v;
    match v {
      case Null => WordReads(NULL, Null);
      case Bool(b) => WordReads(if b then TRUE else FALSE, v);
      case Number(text) => NumberReads(text);
      case Str(s) => QuotedReads(s);
      case Date(iso) =>
        QuotedReads(iso);
        r := Str(iso);
      case Arr(items) =>
        var vs := ItemsReads(items);
        r := Arr(vs);
        ItemsStart(items);
        ArrayReads(ItemTexts(items), vs);
      case Obj(members) =>
        var ps := SortPairs(MemberPairs(members));
        ObjectPairs(members);
        var ms := PairsRead(members, ps);
        r := Obj(ms);
        ObjectReads(ps, ms);
        ReadMembersMatch(members, ps, ms);
      case _ =>
    }
  }

  lemma ItemsStart(items: seq<Json>)
    requires forall i :: 0 <= i < |items| ==> IsJson(items[i])
    ensures items != [] ==> ItemTexts(items)[0] != [] && ItemTexts(items)[0][0] != CLOSE_ARRAY
  {
    if items != [] {
      JsonIsTidy(items[0]);
      FirstUnit(items[0]);
    }
  }

  lemma {:induction false} ItemsReads(items: seq<Json>) returns (vs: seq<Json>)
    requires forall i :: 0 <= i < |items| ==> IsJson(items[i])
    ensures |vs| == |items|
    ensures forall i :: 0 <= i < |vs| ==> Reads(ItemTexts(items)[i], vs[i]) && Equiv(items[i], vs[i])
    decreases items
  {
    hide Reads, Canonical, Equiv;
    vs := [];
    if items != [] {
      var first := CanonicalReads(items[0]);
      var more := ItemsReads(items[1..]);
      vs := [first] + more;
      assert ItemTexts(items) == [ItemText(items[0])] + ItemTexts(items[1..]);
      assert ItemText(items[0]) == Canonical(items[0]);
    }
  }

  /** p is the pair of some member, and v is a reading of its value. */
  ghost predicate ReadingOf(members: seq<Member>, p: Pair, v: Json) {
    exists m :: m in members && p == Pair(m.key, Canonical(m.value)) && Equiv(m.value, v)
  }

  ghost predicate PairOf(members: seq<Member>, p: Pair) {
    exists m :: m in members && p == Pair(m.key, Canonical(m.value))
  }

  lemma {:induction false} PairRead(members: seq<Member>, p: Pair) returns (v: Json)
    requires (forall i :: 0 <= i < |members| ==> IsJson(members[i].value)) && PairOf(members, p)
    ensures Reads(p.text, v) && ReadingOf(members, p, v)
    decreases members, 0
  {
    hide Reads, Canonical, Equiv;
    var m :| m in members && p == Pair(m.key, Canonical(m.value));
    v := CanonicalReads(m.value);
  }

  lemma {:induction false} PairsRead(members: seq<Member>, ps: seq<Pair>) returns (ms: seq<Member>)
    requires forall i :: 0 <= i < |members| ==> IsJson(members[i].value)
    requires forall p :: p in ps ==> PairOf(members, p)
    ensures |ms| == |ps|
    ensures forall i :: 0 <= i < |ms| ==>
              ms[i].key == ps[i].key && Reads(ps[i].text, ms[i].value) && ReadingOf(members, ps[i], ms[i].value)
    decreases members, 1 + |ps|
  {
    hide Reads, PairOf, ReadingOf, IsJson;
    ms := [];
    if ps != [] {
      assert ps[0] in ps;
      var v := PairRead(members, ps[0]);
      assert forall p :: p in ps[1..] ==> p in ps;
      var more := PairsRead(members, ps[1..]);
      ms := [Member(ps[0].key, v)] + more;
    }
  }

  lemma MemberIsMatched(members: seq<Member>, ps: seq<Pair>, ms: seq<Member>, m: Member)
    requires DistinctMembers(members) && |ms| == |ps| && m in members && Pair(m.key, Canonical(m.value)) in ps
    requires forall i :: 0 <= i < |ms| ==> ms[i].key == ps[i].key && ReadingOf(members, ps[i], ms[i].value)
    ensures MatchedIn(m, ms)
  {
    hide Canonical, Equiv, ReadingOf;
    var i :| 0 <= i < |ps| && ps[i] == Pair(m.key, Canonical(m.value));
    ReadingIsOfMember(members, m, ps[i], ms[i].value);
    assert ms[i] in ms;
  }

  lemma ReadingIsOfMember(members: seq<Member>, m: Member, p: Pair, v: Json)
    requires DistinctMembers(members) && m in members && p.key == m.key && ReadingOf(members, p, v)
    ensures Equiv(m.value, v)
  {
    hide Canonical, Equiv;
    var n :| n in members && p == Pair(n.key, Canonical(n.value)) && Equiv(n.value, v);
    assert n == m;
  }

  lemma ReadingIsMatched(members: seq<Member>, p: Pair, n: Member)
    requires p.key == n.key && ReadingOf(members, p, n.value)
    ensures MatchedBy(members, n)
  {
    hide Canonical, Equiv;
    var m :| m in members && p == Pair(m.key, Canonical(m.value)) && Equiv(m.value, n.value);
  }

  lemma ReadMembersMatch(members: seq<Member>, ps: seq<Pair>, ms: seq<Member>)
    requires DistinctMembers(members) && |ms| == |ps|
    requires forall m :: m in members ==> Pair(m.key, Canonical(m.value)) in ps
    requires forall i :: 0 <= i < |ms| ==> ms[i].key == ps[i].key && ReadingOf(members, ps[i], ms[i].value)
    ensures Equiv(Obj(members), Obj(ms))
  {
    hide Canonical, MatchedIn, MatchedBy, ReadingOf;
    forall m | m in members
      ensures MatchedIn(m, ms)
    {
      MemberIsMatched(members, ps, ms, m);
    }
    forall n | n in ms
      ensures MatchedBy(members, n)
    {
      var i :| 0 <= i < |ms| && ms[i] == n;
      ReadingIsMatched(members, ps[i], n);
    }
  }

  /** The canonical text of a JSON value is JSON text that a reader takes for that value. */
  lemma {:induction false} CanonicalMeansItsValue(v: Json)
    requires IsJson(v)
    ensures var r := ReadValue(Canonical(v));
            r.Some? && r.value.rest == [] && Equiv(v, r.value.value)
  {
    hide Reads, ReadValue, Canonical;
    var r := CanonicalReads(v);
    ReadsThen(Canonical(v), r, []);
    assert Canonical(v) + [] == Canonical(v);
  }

  /** What the encoder prints for a value that is not JSON. */
  lemma OutsideJson(key: Text)
    ensures Canonical(NonFinite) == Units("null") && Canonical(Undefined) == Units("undefined")
    ensures Canonical(Arr([Undefined, Null])) == Units("[,null]")
  {
    assert ItemTexts([Undefined, Null]) == [[], NULL];
  }

  // ------------------------------------------------------------------
  // The runtime's own serialization
  // ------------------------------------------------------------------

  /** What the runtime prints for a value: members in their own order and without the undefined ones,
      an undefined item as null, like NaN and infinity. */
  function Stringify(v: Json): Text
    requires !v.Undefined?
    decreases v, 0
  {
    match v
    case Null => Units("null")
    case Bool(b) => if b then Units("true") else Units("false")
    case Number(text) => text
    case NonFinite => Units("null")
    case Str(s) => Quoted(s)
    case Date(iso) => Quoted(iso)
    case Arr(items) => Units("[") + Join(StringifyItems(items)) + Units("]")
    case Obj(members) => Units("{") + Join(PairTexts(StringifyMembers(members))) + Units("}")
  }

  function StringifyItems(items: seq<Json>): (r: seq<Text>)
    ensures |r| == |items|
    decreases items, 0
  {
    if items == [] then []
    else [if items[0].Undefined? then Units("null") else Stringify(items[0])] + StringifyItems(items[1..])
  }

  function StringifyMembers(members: seq<Member>): seq<Pair>
    decreases members, 0
  {
    if members == [] then []
    else if members[0].value.Undefined? then StringifyMembers(members[1..])
    else [Pair(members[0].key, Stringify(members[0].value))] + StringifyMembers(members[1..])
  }

  /** Reading that text gives exactly the normalized value. */
  lemma {:induction false} StringifyReads(v: Json)
    requires WellFormed(v) && !v.Undefined?
    ensures Reads(Stringify(v), RoundTripped(v))
    ensures Stringify(v) != [] && Stringify(v)[0] != CLOSE_ARRAY
    decreases v
  {
    hide Reads, Join, PairTexts;
    match v {
      case Null => WordReads(Units("null"), Null);
      case NonFinite => WordReads(Units("null"), Null);
      case Bool(b) => WordReads(if b then Units("true") else Units("false"), v);
      case Number(text) => NumberReads(text);
      case Str(s) => QuotedReads(s);
      case Date(iso) => QuotedReads(iso);
      case Arr(items) =>
        var vs := RoundTripped(v).items;
        StringifyItemsRead(items, vs);
        ArrayReads(StringifyItems(items), vs);
        assert Units("[") == [OPEN_ARRAY] && Units("]") == [CLOSE_ARRAY];
        assert Stringify(v) == [OPEN_ARRAY] + Join(StringifyItems(items)) + [CLOSE_ARRAY];
        assert RoundTripped(v) == Arr(vs);
      case Obj(members) =>
        StringifyMembersRead(members);
        assert Units("{") == [OPEN_OBJECT] && Units("}") == [CLOSE_OBJECT];
        ObjectReads(StringifyMembers(members), KeptMembers(members));
    }
  }

  lemma {:induction false} StringifyItemsRead(items: seq<Json>, vs: seq<Json>)
    requires (forall i :: 0 <= i < |items| ==> WellFormed(items[i])) && |vs| == |items|
    requires forall i :: 0 <= i < |items| ==> vs[i] == if items[i].Undefined? then Null else RoundTripped(items[i])
    ensures forall i :: 0 <= i < |vs| ==> Reads(StringifyItems(items)[i], vs[i])
    ensures items != [] ==> StringifyItems(items)[0] != [] && StringifyItems(items)[0][0] != CLOSE_ARRAY
    decreases items
  {
    hide Reads, Stringify, RoundTripped;
    if items != [] {
      if items[0].Undefined? {
        WordReads(Units("null"), Null);
      } else {
        StringifyReads(items[0]);
      }
      StringifyItemsRead(items[1..], vs[1..]);
      assert forall i :: 0 < i < |vs| ==> StringifyItems(items)[i] == StringifyItems(items[1..])[i - 1];
    }
  }

  lemma {:induction false} StringifyMembersRead(members: seq<Member>)
    requires forall i :: 0 <= i < |members| ==> WellFormed(members[i].value)
    ensures var ps, ms := StringifyMembers(members), KeptMembers(members);
            && |ps| == |ms|
            && forall i :: 0 <= i < |ms| ==> ms[i].key == ps[i].key && Reads(ps[i].text, ms[i].value)
    decreases members
  {
    hide Reads, Stringify, RoundTripped;
    if members != [] {
      StringifyMembersRead(members[1..]);
      if !members[0].value.Undefined? {
        StringifyReads(members[0].value);
      }
    }
  }

  /** Normalizing a detail is printing it and parsing the text again; no detail is an empty object. */
  lemma {:induction false} NormalizeIsRoundTrip(detail: Json)
    requires WellFormed(detail)
    ensures var v := if detail.Null? || detail.Undefined? then Obj([]) else detail;
            ReadValue(Stringify(v)) == Some(Read(NormalizeDetail(detail), []))
    ensures detail.Null? || detail.Undefined? ==> NormalizeDetail(detail) == Obj([])
  {
    hide Reads, ReadValue, Stringify;
    var v := if detail.Null? || detail.Undefined? then Obj([]) else detail;
    StringifyReads(v);
    ReadsThen(Stringify(v), RoundTripped(v), []);
    assert Stringify(v) + [] == Stringify(v);
  }
}
