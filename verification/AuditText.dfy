/** The exact text that is hashed for an audit entry. */
module AuditText {
  import opened AuditChain
  import opened CanonicalJson
  import opened CodeUnits
  import opened Wrappers
  import KeySort

  /** A unit that needs no escape. */
  predicate IsPlain(c: CodeUnit) {
    32 <= c < 0xD800 && c != '"' as int && c != '\\' as int
  }

  lemma {:induction false} PlainIsUnescaped(s: Text)
    requires forall i :: 0 <= i < |s| ==> IsPlain(s[i])
    ensures Escaped(s) == s
  {
    if s != [] {
      PlainIsUnescaped(s[1..]);
      EscapedStep(s);
      assert Token(s) == [s[0]];
    }
  }

  lemma QuotedKey(name: string)
    requires name in {"action", "actor", "detail", "target", "ts"}
    ensures Quoted(Units(name)) == Units("\"") + Units(name) + Units("\"")
  {
    PlainIsUnescaped(Units(name));
  }

  lemma KeysAreTheirNames()
    ensures KEY_ACTION == Units("action") && KEY_ACTOR == Units("actor") && KEY_DETAIL == Units("detail")
    ensures KEY_TARGET == Units("target") && KEY_TS == Units("ts") && GENESIS == Units("genesis")
  {
  }

  function SortedPairs(c: Content): seq<Pair> {
    [Pair(Units("action"), Quoted(c.action)), Pair(Units("actor"), Quoted(c.actor)),
     Pair(Units("detail"), Canonical(c.detail)), Pair(Units("target"), Canonical(TargetJson(c.target))),
     Pair(Units("ts"), Quoted(c.ts))]
  }

  lemma LessAt(a: KeySort.Key, b: KeySort.Key, i: nat)
    requires i < |a| && i < |b| && a[..i] == b[..i] && a[i] < b[i]
    ensures KeySort.Less(a, b)
  {
    KeySort.LessMeans(a, b);
  }

  lemma NamesAscend()
    ensures KeySort.Less(Units("action"), Units("actor")) && KeySort.Less(Units("actor"), Units("detail"))
    ensures KeySort.Less(Units("detail"), Units("target")) && KeySort.Less(Units("target"), Units("ts"))
  {
    LessAt(Units("action"), Units("actor"), 3);
    LessAt(Units("actor"), Units("detail"), 0);
    LessAt(Units("detail"), Units("target"), 0);
    LessAt(Units("target"), Units("ts"), 1);
  }

  lemma SortedPairsAscend(c: Content)
    ensures StrictlySorted(SortedPairs(c))
  {
    hide Canonical, Quoted, KeySort.Less, Units;
    NamesAscend();
    var a, b, d, t, s := Units("action"), Units("actor"), Units("detail"), Units("target"), Units("ts");
    KeySort.LessTransitive(a, b, d);
    KeySort.LessTransitive(b, d, t);
    KeySort.LessTransitive(d, t, s);
    KeySort.LessTransitive(a, d, t);
    KeySort.LessTransitive(b, t, s);
    KeySort.LessTransitive(a, t, s);
  }

  lemma EntryPairs(c: Content)
    ensures SortPairs(MemberPairs(EntryObject(c).members)) == SortedPairs(c)
  {
    hide Canonical, Quoted, SortPairs;
    var ms := EntryObject(c).members;
    var ps := MemberPairs(ms);
    KeysAreTheirNames();
    KeysAreDistinct(c);
    ObjectPairs(ms);
    SortedPairsAscend(c);
    EntryMemberPairs(c);
    SortPairsSorts(ps);
    SortedUnique(SortPairs(ps), SortedPairs(c));
  }

  lemma EntryMemberPairs(c: Content)
    ensures var ps := MemberPairs(EntryObject(c).members);
            && DistinctKeys(ps)
            && forall p :: p in ps <==> p in SortedPairs(c)
  {
    hide Canonical, Quoted;
    KeysAreTheirNames();
    KeysAreDistinct(c);
    var ms := EntryObject(c).members;
    forall i: nat | i < 5
      ensures MemberPairs(ms)[i] == Pair(ms[i].key, Canonical(ms[i].value))
    {
      MemberPairsAt(ms, i);
    }
    StringTexts(c);
    var ps := MemberPairs(ms);
    assert ps == [ps[0], ps[1], ps[2], ps[3], ps[4]];
  }

  lemma StringTexts(c: Content)
    ensures Canonical(Str(c.ts)) == Quoted(c.ts) && Canonical(Str(c.actor)) == Quoted(c.actor)
    ensures Canonical(Str(c.action)) == Quoted(c.action)
    ensures Canonical(TargetJson(c.target)) == if c.target.None? then Units("null") else Quoted(c.target.value)
  {
    hide Quoted;
  }

  lemma JoinFive(a: Text, b: Text, c: Text, d: Text, e: Text)
    ensures Join([a, b, c, d, e])
            == a + Units(",") + b + Units(",") + c + Units(",") + d + Units(",") + e
  {
    assert [a, b, c, d, e][1..] == [b, c, d, e] && [b, c, d, e][1..] == [c, d, e] && [c, d, e][1..] == [d, e];
    assert Units(",") == [COMMA];
    assert Join([d, e]) == d + Units(",") + e;
    assert Join([c, d, e]) == c + Units(",") + Join([d, e]);
    assert Join([b, c, d, e]) == b + Units(",") + Join([c, d, e]);
  }

  /** The text of an entry: its five fields in this order, strings quoted, a missing target as null. */
  lemma EntryText(c: Content)
    ensures EntryString(c)
            == Units("{\"action\":") + Quoted(c.action) + Units(",\"actor\":") + Quoted(c.actor)
               + Units(",\"detail\":") + Canonical(c.detail)
               + Units(",\"target\":") + (if c.target.None? then Units("null") else Quoted(c.target.value))
               + Units(",\"ts\":") + Quoted(c.ts) + Units("}")
  {
    hide Quoted, SortPairs, MemberPairs, Join, ItemTexts, Units;
    EntryPairs(c);
    StringTexts(c);
    var texts := PairTexts(SortedPairs(c));
    assert EntryString(c) == [OPEN_OBJECT] + Join(texts) + [CLOSE_OBJECT];
    QuotedKey("action");
    QuotedKey("actor");
    QuotedKey("detail");
    QuotedKey("target");
    QuotedKey("ts");
    assert texts == [texts[0], texts[1], texts[2], texts[3], texts[4]];
    JoinFive(texts[0], texts[1], texts[2], texts[3], texts[4]);
    TextPieces();
    Inside([OPEN_OBJECT], Units(","), texts[0], texts[1], texts[2], texts[3], texts[4]);
    var t1 := [OPEN_OBJECT] + texts[0];
    First([OPEN_OBJECT], Quoted(Units("action")), Quoted(c.action));
    assert t1 == Units("{\"action\":") + Quoted(c.action);
    Next(t1, Quoted(Units("actor")), Quoted(c.actor));
    var t2 := t1 + Units(",\"actor\":") + Quoted(c.actor);
    Next(t2, Quoted(Units("detail")), Canonical(c.detail));
    var t3 := t2 + Units(",\"detail\":") + Canonical(c.detail);
    Next(t3, Quoted(Units("target")), Canonical(TargetJson(c.target)));
    var t4 := t3 + Units(",\"target\":") + Canonical(TargetJson(c.target));
    Next(t4, Quoted(Units("ts")), Quoted(c.ts));
  }

  lemma First(o: Text, key: Text, value: Text)
    ensures o + (key + [COLON] + value) == o + key + [COLON] + value
  {
  }

  /** One more member behind what is there. */
  lemma Next(before: Text, key: Text, value: Text)
    ensures before + Units(",") + (key + [COLON] + value) == before + (Units(",") + key + [COLON]) + value
  {
  }

  lemma Inside(o: Text, x: Text, a: Text, b: Text, c: Text, d: Text, e: Text)
    ensures o + (a + x + b + x + c + x + d + x + e) == o + a + x + b + x + c + x + d + x + e
  {
    Regroup(o, a, x);
    Regroup(o, a + x, b);
    Regroup(o, a + x + b, x);
    Regroup(o, a + x + b + x, c);
    Regroup(o, a + x + b + x + c, x);
    Regroup(o, a + x + b + x + c + x, d);
    Regroup(o, a + x + b + x + c + x + d, x);
    Regroup(o, a + x + b + x + c + x + d + x, e);
  }

  lemma Regroup(o: Text, p: Text, q: Text)
    ensures o + (p + q) == o + p + q
  {
  }

  lemma TextPieces()
    ensures [OPEN_OBJECT] + (Units("\"") + Units("action") + Units("\"")) + [COLON] == Units("{\"action\":")
    ensures Units(",") + (Units("\"") + Units("actor") + Units("\"")) + [COLON] == Units(",\"actor\":")
    ensures Units(",") + (Units("\"") + Units("detail") + Units("\"")) + [COLON] == Units(",\"detail\":")
    ensures Units(",") + (Units("\"") + Units("target") + Units("\"")) + [COLON] == Units(",\"target\":")
    ensures Units(",") + (Units("\"") + Units("ts") + Units("\"")) + [COLON] == Units(",\"ts\":")
    ensures [CLOSE_OBJECT] == Units("}")
  {
  }
}
