/**
  Where each text of an archive stands in what is extracted from it.
 */
module ZipOrder {
  import opened CodeUnits
  import opened Wrappers
  import opened ZipExtract

  /** Piece i of the list stands in the text at the given place, and a line feed follows it unless
      it is the last. */
  ghost predicate StandsAt(pieces: seq<Text>, i: nat, text: Text, at: nat)
    requires i < |pieces|
  {
    var end := at + |pieces[i]|;
    && end <= |text| && text[at..end] == pieces[i]
    && (if i == |pieces| - 1 then end == |text| else end < |text| && text[end] == '\n' as int)
  }

  lemma StandsLater(pieces: seq<Text>, i: nat, text: Text, at: nat, head: Text)
    requires 0 < i < |pieces| && StandsAt(pieces[1..], i - 1, text, at)
    ensures StandsAt(pieces, i, head + text, |head| + at)
  {
    var end := at + |pieces[i]|;
    assert (head + text)[|head| + at..|head| + end] == text[at..end];
  }

  lemma {:induction false} JoinPlaces(pieces: seq<Text>, i: nat)
    requires i < |pieces|
    ensures StandsAt(pieces, i, Join(pieces), Total(pieces[..i]) + i)
  {
    if i > 0 {
      hide StandsAt;
      JoinPlaces(pieces[1..], i - 1);
      assert pieces[..i][0] == pieces[0] && pieces[..i][1..] == pieces[1..][..i - 1];
      StandsLater(pieces, i, Join(pieces[1..]), Total(pieces[1..][..i - 1]) + i - 1, pieces[0] + [LINE_FEED]);
    }
  }

  // ------------------------------------------------------------------
  // The texts inside an archive
  // ------------------------------------------------------------------

  /** The nonempty texts in an archive and in the archives inside it, in visiting order. */
  function Texts(members: seq<Option<Content>>, depth: nat): seq<Text>
    requires 1 <= depth <= ZIP_MAX_DEPTH
    decreases ZIP_MAX_DEPTH - depth, |members|
  {
    if members == [] then []
    else
      (match members[0]
       case None => []
       case Some(Leaf(Ok(text))) => if text == [] then [] else [text]
       case Some(Leaf(Err(_))) => []
       case Some(Nested(zip)) =>
         if depth < ZIP_MAX_DEPTH && ReadMembers(zip).Ok? then Texts(ReadMembers(zip).value, depth + 1) else [])
      + Texts(members[1..], depth)
  }

  lemma {:induction false} JoinTwice(xs: seq<Text>, ys: seq<Text>)
    requires xs != [] && ys != []
    ensures Join(xs + ys) == Join(xs) + [LINE_FEED] + Join(ys)
  {
    assert (xs + ys)[1..] == xs[1..] + ys;
    if |xs| > 1 {
      JoinTwice(xs[1..], ys);
    } else {
      assert xs[1..] + ys == ys;
    }
  }

  lemma JoinJoined(xs: seq<Text>, ys: seq<Text>, zs: seq<Text>)
    requires xs != [] && Join(ys) == Join(zs) && (ys == [] <==> zs == [])
    ensures Join([Join(xs)] + ys) == Join(xs + zs)
  {
    if ys == [] {
      assert [Join(xs)] + ys == [Join(xs)] && xs + zs == xs;
    } else {
      JoinTwice([Join(xs)], ys);
      JoinTwice(xs, zs);
    }
  }

  lemma NoText(pieces: seq<Text>)
    requires forall i :: 0 <= i < |pieces| ==> pieces[i] != []
    ensures Join(pieces) == [] <==> pieces == []
  {
    if pieces != [] {
      assert Join(pieces) != [];
    }
  }

  ghost predicate SameText(xs: seq<Text>, ys: seq<Text>) {
    && Join(xs) == Join(ys) && (xs == [] <==> ys == [])
    && (forall i :: 0 <= i < |xs| ==> xs[i] != []) && (forall i :: 0 <= i < |ys| ==> ys[i] != [])
  }

  /** A walk never fails with what it passes over. */
  lemma {:induction false} WalkFailure(members: seq<Option<Content>>, depth: nat)
    requires 1 <= depth <= ZIP_MAX_DEPTH && FullWalk(members, depth).Err?
    ensures !Skippable(FullWalk(members, depth).error)
    decreases |members|
  {
    if members != [] && FullWalk(members[1..], depth).Err? {
      WalkFailure(members[1..], depth);
    }
  }

  lemma InnerWalk(members: seq<Option<Content>>, depth: nat)
    requires 1 <= depth < ZIP_MAX_DEPTH && FullWalk(members, depth).Ok?
    requires members != [] && members[0].Some? && members[0].value.Nested? && ReadMembers(members[0].value.zip).Ok?
    ensures var inner := FullWalk(ReadMembers(members[0].value.zip).value, depth + 1);
            inner.Ok? && FullContent(members[0].value, depth + 1) == Ok(Join(inner.value))
  {
    hide ReadMembers, Join;
    var c := members[0].value;
    var inner := FullWalk(ReadMembers(c.zip).value, depth + 1);
    assert inner.Err? ==> FullContent(c, depth + 1) == Err(inner.error);
    if inner.Err? {
      WalkFailure(ReadMembers(c.zip).value, depth + 1);
    }
  }

  /** Nesting does not show: what an archive yields is the list of all texts in it, however deep. */
  lemma {:induction false} FullWalkIsTexts(members: seq<Option<Content>>, depth: nat)
    requires 1 <= depth <= ZIP_MAX_DEPTH && FullWalk(members, depth).Ok?
    ensures SameText(FullWalk(members, depth).value, Texts(members, depth))
    decreases ZIP_MAX_DEPTH - depth, |members|
  {
    hide Join, ReadMembers;
    if members != [] {
      FullWalkIsTexts(members[1..], depth);
      var ys, zs := FullWalk(members[1..], depth).value, Texts(members[1..], depth);
      if members[0].Some? {
        var c := members[0].value;
        if c.Nested? && depth < ZIP_MAX_DEPTH && ReadMembers(c.zip).Ok? {
          var inner := ReadMembers(c.zip).value;
          InnerWalk(members, depth);
          FullWalkIsTexts(inner, depth + 1);
          var xs := Texts(inner, depth + 1);
          NoText(xs);
          if xs != [] {
            JoinJoined(xs, ys, zs);
          } else {
            assert xs + zs == zs;
          }
        } else if c.Leaf? && c.outcome.Ok? && c.outcome.value != [] {
          JoinSingle(c.outcome.value);
          JoinJoined([c.outcome.value], ys, zs);
        } else {
          assert c.Nested? && depth < ZIP_MAX_DEPTH ==> FullZip(c.zip, depth + 1).Err?;
          assert [] + zs == zs;
        }
      } else {
        assert [] + zs == zs;
      }
    } else {
      assert FullWalk(members, depth).value == Texts(members, depth) == [];
    }
  }

  lemma JoinSingle(text: Text)
    ensures Join([text]) == text
  {
  }

  /** If an archive is readable, nothing in it refuses and its charge fits into the budget, every text
      in it stands in the output, in visiting order, with line feeds between them and nothing else. */
  lemma TextsInOrder(z: Zip, depth: nat, remaining: nat)
    requires 1 <= depth <= ZIP_MAX_DEPTH && ReadMembers(z).Ok? && FullZip(z, depth).Ok?
    requires ChargeOfZip(z, depth) <= remaining
    ensures var texts, x := Texts(ReadMembers(z).value, depth), ZipText(z, depth, remaining).text;
            && x.Ok? && (texts == [] ==> x.value == [])
            && forall i :: 0 <= i < |texts| ==> StandsAt(texts, i, x.value, Total(texts[..i]) + i)
  {
    hide StandsAt, Texts;
    LosslessWithinCharge(z, depth, remaining);
    FullWalkIsTexts(ReadMembers(z).value, depth);
    var texts := Texts(ReadMembers(z).value, depth);
    forall i | 0 <= i < |texts|
      ensures StandsAt(texts, i, Join(texts), Total(texts[..i]) + i)
    {
      JoinPlaces(texts, i);
    }
  }

  // ------------------------------------------------------------------
  // An archive of plain texts
  // ------------------------------------------------------------------

  function PlainEntries(texts: seq<Text>): seq<Entry> {
    seq(|texts|, i requires 0 <= i < |texts| => Member(Leaf(Ok(texts[i]))))
  }

  lemma {:induction false} PlainMembers(texts: seq<Text>)
    ensures FirstFault(PlainEntries(texts)).None?
    ensures Members(PlainEntries(texts)) == seq(|texts|, i requires 0 <= i < |texts| => Some(Leaf(Ok(texts[i]))))
  {
    var es := PlainEntries(texts);
    if texts != [] {
      PlainMembers(texts[1..]);
      assert es[1..] == PlainEntries(texts[1..]);
      NextEntry(es);
      OneMember(Leaf(Ok(texts[0])));
    }
  }

  lemma {:induction false} PlainWalk(texts: seq<Text>, depth: nat)
    requires 1 <= depth <= ZIP_MAX_DEPTH && forall i :: 0 <= i < |texts| ==> texts[i] != []
    ensures var members := seq(|texts|, i requires 0 <= i < |texts| => Some(Leaf(Ok(texts[i]))));
            && FullWalk(members, depth).Ok? && Charge(members, depth) == Total(texts) && Texts(members, depth) == texts
  {
    var members := seq(|texts|, i requires 0 <= i < |texts| => Some(Leaf(Ok(texts[i]))));
    if texts != [] {
      PlainWalk(texts[1..], depth);
      assert members[1..] == seq(|texts[1..]|, i requires 0 <= i < |texts[1..]| => Some(Leaf(Ok(texts[1..][i]))));
      assert [texts[0]] + texts[1..] == texts;
    }
  }

  /** Nonempty texts that fit into the budget come out in archive order, one line each. */
  lemma PlainArchive(texts: seq<Text>, depth: nat, remaining: nat)
    requires 1 <= depth <= ZIP_MAX_DEPTH && Total(texts) <= remaining
    requires forall i :: 0 <= i < |texts| ==> texts[i] != []
    ensures var x := ZipText(Zip(PlainEntries(texts)), depth, remaining).text;
            && x.Ok? && (texts == [] ==> x.value == [])
            && forall i :: 0 <= i < |texts| ==> StandsAt(texts, i, x.value, Total(texts[..i]) + i)
  {
    hide StandsAt, PlainEntries, Members, FullWalk, Charge, Texts;
    PlainMembers(texts);
    PlainWalk(texts, depth);
    TextsInOrder(Zip(PlainEntries(texts)), depth, remaining);
  }

  // ------------------------------------------------------------------
  // Limits
  // ------------------------------------------------------------------

  /** A member is kept up to 20 MiB, claimed and actual. */
  lemma MemberLimit(e: Entry)
    requires EntryFault(e).None? && !e.directory
    ensures MemberOf(e) == if e.claimedSize > 20971520 || Sum(e.stream.chunks) > 20971520 then [None]
                           else [Some(e.content)]
  {
  }

  function Wrapped(c: Content): Content {
    Nested(Zip([Member(c)]))
  }

  /** A text inside three archives is found, inside four it is not. */
  lemma {:induction false} DepthLimit(text: Text)
    requires text != []
    ensures FullContent(Wrapped(Wrapped(Wrapped(Leaf(Ok(text))))), 1) == Ok(text)
    ensures FullContent(Wrapped(Wrapped(Wrapped(Wrapped(Leaf(Ok(text)))))), 1) == Ok([])
  {
    var c1 := Wrapped(Leaf(Ok(text)));
    var c2 := Wrapped(c1);
    var c3 := Wrapped(c2);
    WrappedText(Leaf(Ok(text)), 3, text);
    WrappedText(c1, 2, text);
    WrappedText(c2, 1, text);
    TooDeep(c1);
    WrappedNothing(c2, 2);
    WrappedNothing(c3, 1);
  }

  lemma WrappedText(c: Content, depth: nat, text: Text)
    requires 1 <= depth <= 3 && text != [] && (c.Nested? ==> depth < 3)
    requires FullContent(c, if c.Nested? then depth + 1 else depth) == Ok(text)
    ensures FullContent(Wrapped(c), depth) == Ok(text)
  {
    OneMember(c);
    var members := [Some(c)];
    assert members[1..] == [];
    assert FullWalk(members, depth) == Ok([text] + []);
    JoinSingle(text);
    assert [text] + [] == [text];
  }

  lemma TooDeep(c: Content)
    requires c.Nested?
    ensures FullContent(Wrapped(c), 3) == Ok([])
  {
    OneMember(c);
    assert [Some(c)][1..] == [];
    assert FullWalk([Some(c)], 3) == Ok([]);
  }

  lemma WrappedNothing(c: Content, depth: nat)
    requires 1 <= depth < 3 && c.Nested? && FullContent(c, depth + 1) == Ok([])
    ensures FullContent(Wrapped(c), depth) == Ok([])
  {
    OneMember(c);
    assert [Some(c)][1..] == [];
    assert FullWalk([Some(c)], depth) == Ok([]);
  }
}
