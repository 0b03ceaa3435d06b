/**
  When extraction from nested archives refuses: exactly which faults count, which
  of them the budget, the depth cap, the size cap or a corrupt archive hides.
 */
module ZipEncryption {
  import opened Wrappers
  import opened ZipExtract

  // ------------------------------------------------------------------
  // The faults that refuse, in visiting order
  // ------------------------------------------------------------------

  /** What makes the whole extraction fail: an entry of some archive, or a document. */
  datatype Refusal = EncryptedEntry | EncryptedDocument | ForeignEntry | ForeignDocument

  function FaultOf(r: Refusal): Fault {
    match r
    case EncryptedEntry => ENCRYPTED
    case EncryptedDocument => ENCRYPTED
    case ForeignEntry => Foreign
    case ForeignDocument => Foreign
  }

  predicate IsEncryption(r: Refusal) {
    r.EncryptedEntry? || r.EncryptedDocument?
  }

  /** The refusing faults of an archive and everything read out of it, in visiting order. An archive
      is read up to its first fault; a corrupt one contributes nothing. */
  function Refusals(z: Zip, depth: nat): seq<Refusal>
    requires 1 <= depth <= ZIP_MAX_DEPTH
    decreases ZIP_MAX_DEPTH - depth, 1, 0
  {
    if z.NotAZip? then []
    else
      match FirstFault(z.entries)
      case Some(f) => if f == ENCRYPTED then [EncryptedEntry] else if f == Foreign then [ForeignEntry] else []
      case None => MemberRefusals(Members(z.entries), depth)
  }

  /** Members over the size cap and archives below the depth cap are not looked at. */
  function MemberRefusals(members: seq<Option<Content>>, depth: nat): seq<Refusal>
    requires 1 <= depth <= ZIP_MAX_DEPTH
    decreases ZIP_MAX_DEPTH - depth, 0, |members|
  {
    if members == [] then []
    else
      (match members[0]
       case None => []
       case Some(Leaf(outcome)) =>
         if outcome == Err(ENCRYPTED) then [EncryptedDocument]
         else if outcome == Err(Foreign) then [ForeignDocument] else []
       case Some(Nested(zip)) => if depth < ZIP_MAX_DEPTH then Refusals(zip, depth + 1) else [])
      + MemberRefusals(members[1..], depth)
  }

  /** Extraction without a budget fails with the first refusing fault, and with nothing else but
      a top archive that is itself corrupt. */
  lemma {:induction false} FullZipRefuses(z: Zip, depth: nat)
    requires 1 <= depth <= ZIP_MAX_DEPTH
    ensures var full, rs := FullZip(z, depth), Refusals(z, depth);
            if ReadMembers(z) == Err(CORRUPT) then full == Err(CORRUPT) && rs == []
            else if rs == [] then full.Ok? else full == Err(FaultOf(rs[0]))
    decreases ZIP_MAX_DEPTH - depth, 1, 0
  {
    if z.Zip? {
      ReadFaults(z.entries);
    }
    if ReadMembers(z).Ok? {
      FullWalkRefuses(ReadMembers(z).value, depth);
    }
  }

  lemma {:induction false} FullWalkRefuses(members: seq<Option<Content>>, depth: nat)
    requires 1 <= depth <= ZIP_MAX_DEPTH
    ensures var full, rs := FullWalk(members, depth), MemberRefusals(members, depth);
            if rs == [] then full.Ok? else full == Err(FaultOf(rs[0]))
    decreases ZIP_MAX_DEPTH - depth, 0, |members|
  {
    hide FullZip, Refusals;
    if members != [] {
      FullWalkRefuses(members[1..], depth);
      if members[0].Some? && members[0].value.Nested? && depth < ZIP_MAX_DEPTH {
        FullZipRefuses(members[0].value.zip, depth + 1);
      }
    }
  }

  // ------------------------------------------------------------------
  // What the budget hides
  // ------------------------------------------------------------------

  /** What is charged before the first refusing fault is reached. */
  function ChargeBefore(members: seq<Option<Content>>, depth: nat): nat
    requires 1 <= depth <= ZIP_MAX_DEPTH
    decreases ZIP_MAX_DEPTH - depth, 0, |members|
  {
    if members == [] then 0
    else if members[0].None? || (members[0].value.Nested? && depth >= ZIP_MAX_DEPTH) then
      ChargeBefore(members[1..], depth)
    else
      var c := members[0].value;
      var text := FullContent(c, DepthOf(c, depth));
      if text.Err? && !Skippable(text.error) then
        if c.Nested? && ReadMembers(c.zip).Ok? then ChargeBefore(ReadMembers(c.zip).value, depth + 1) else 0
      else
        ChargeWithin(c, DepthOf(c, depth)) + (if text.Ok? then |text.value| else 0) + ChargeBefore(members[1..], depth)
  }

  /** A walk that would refuse does so exactly when the budget outlasts what comes before. */
  ghost predicate RefusesExactly(members: seq<Option<Content>>, depth: nat, remaining: nat)
    requires 1 <= depth <= ZIP_MAX_DEPTH && FullWalk(members, depth).Err?
  {
    var w := Walk(members, depth, remaining);
    if ChargeBefore(members, depth) < remaining then w.pieces == Err(FullWalk(members, depth).error)
    else w.pieces.Ok? && w.remaining == 0
  }

  lemma {:induction false} WalkRefuses(members: seq<Option<Content>>, depth: nat, remaining: nat)
    requires 1 <= depth <= ZIP_MAX_DEPTH && FullWalk(members, depth).Err?
    ensures RefusesExactly(members, depth, remaining)
    decreases ZIP_MAX_DEPTH - depth, 0, |members|
  {
    if remaining == 0 {
      NothingLeft(members, depth);
    } else {
      var rest := members[1..];
      NothingLeft(rest, depth);
      if members[0].None? || (members[0].value.Nested? && depth >= ZIP_MAX_DEPTH) {
        WalkRefuses(rest, depth, remaining);
      } else {
        var c := members[0].value;
        var d := DepthOf(c, depth);
        var full := FullContent(c, d);
        if full.Err? && !Skippable(full.error) {
          assert c.Nested? ==>
              full == FullZip(c.zip, d) && ContentText(c, d, remaining) == ZipText(c.zip, d, remaining);
          if c.Nested? && ReadMembers(c.zip).Ok? {
            WalkRefuses(ReadMembers(c.zip).value, d, remaining);
          }
        } else {
          ChargedIsContent(c, d);
          assert FullWalk(rest, depth).Err?;
          var x := ContentText(c, d, remaining);
          if full.Ok? {
            ContentIsExact(c, d, remaining);
            WalkRefuses(rest, depth, x.remaining - |Clip(x.text.value, x.remaining)|);
            StepRefuses(members, depth, remaining);
          } else {
            WalkRefuses(rest, depth, remaining);
            assert x == Extracted(full, remaining);
          }
        }
      }
    }
  }

  /** A member that yields text puts its charge in front of what comes before the fault. */
  lemma StepRefuses(members: seq<Option<Content>>, depth: nat, remaining: nat)
    requires 1 <= depth <= ZIP_MAX_DEPTH && FullWalk(members, depth).Err?
    requires remaining > 0 && members != [] && members[0].Some?
    requires !(members[0].value.Nested? && depth >= ZIP_MAX_DEPTH)
    requires var c := members[0].value; FullContent(c, DepthOf(c, depth)).Ok?
    requires var c := members[0].value; ExtractsExactly(c, DepthOf(c, depth), remaining)
    requires FullWalk(members[1..], depth).Err?
    requires var c := members[0].value;
             var x := ContentText(c, DepthOf(c, depth), remaining);
             RefusesExactly(members[1..], depth, x.remaining - |Clip(x.text.value, x.remaining)|)
    requires Walk(members[1..], depth, 0) == Walked(Ok([]), 0)
    ensures RefusesExactly(members, depth, remaining)
  {
    var c, rest := members[0].value, members[1..];
    var d := DepthOf(c, depth);
    var x, text := ContentText(c, d, remaining), FullContent(c, d).value;
    var left := x.remaining - |Clip(x.text.value, x.remaining)|;
    var before := ChargeWithin(c, d) + |text|;
    assert ChargeBefore(members, depth) == before + ChargeBefore(rest, depth);
    assert FullWalk(members, depth).error == FullWalk(rest, depth).error;
    assert before <= remaining ==> left == remaining - before;
    assert before > remaining ==> left == 0;
  }

  /** An archive that extraction without a budget refuses is refused under a budget exactly when it
      cannot be read itself, or the budget outlasts everything before the refusing fault. */
  lemma BudgetRefusal(z: Zip, depth: nat, remaining: nat)
    requires 1 <= depth <= ZIP_MAX_DEPTH && FullZip(z, depth).Err?
    ensures ZipText(z, depth, remaining).text == Err(FullZip(z, depth).error)
            <==> ReadMembers(z).Err? || ChargeBefore(ReadMembers(z).value, depth) < remaining
    ensures ZipText(z, depth, remaining).text != Err(FullZip(z, depth).error) ==>
              ZipText(z, depth, remaining).text.Ok? && ZipText(z, depth, remaining).remaining == 0
  {
    if ReadMembers(z).Ok? {
      WalkRefuses(ReadMembers(z).value, depth, remaining);
    }
  }

  /** The exact condition under which an archive is refused for encryption: the first refusing fault
      in visiting order is an encrypted entry or an encrypted document, and either it is an entry of
      the archive itself or the budget outlasts what comes before it. */
  lemma RefusedForEncryption(z: Zip, depth: nat, remaining: nat)
    requires 1 <= depth <= ZIP_MAX_DEPTH
    ensures ZipText(z, depth, remaining).text == Err(ENCRYPTED)
            <==> && Refusals(z, depth) != []
                 && IsEncryption(Refusals(z, depth)[0])
                 && (ReadMembers(z).Err? || ChargeBefore(ReadMembers(z).value, depth) < remaining)
  {
    FullZipRefuses(z, depth);
    if FullZip(z, depth).Err? {
      BudgetRefusal(z, depth, remaining);
    } else {
      LosslessWithinCharge(z, depth, remaining);
    }
  }

  /** Extraction returns text exactly when the archive can be read and no refusing fault is reached. */
  lemma ReturnsText(z: Zip, depth: nat, remaining: nat)
    requires 1 <= depth <= ZIP_MAX_DEPTH
    ensures ZipText(z, depth, remaining).text.Ok?
            <==> ReadMembers(z).Ok?
                 && (Refusals(z, depth) == [] || ChargeBefore(ReadMembers(z).value, depth) >= remaining)
  {
    FullZipRefuses(z, depth);
    if FullZip(z, depth).Err? {
      BudgetRefusal(z, depth, remaining);
    } else {
      LosslessWithinCharge(z, depth, remaining);
    }
  }

  // ------------------------------------------------------------------
  // Four ways past the refusal
  // ------------------------------------------------------------------

  /** Below the depth cap nothing is opened, encrypted or not. */
  lemma DepthCapHidesEncryption(inner: Zip, remaining: nat)
    ensures var z := Zip([Member(Nested(inner))]);
            ZipText(z, ZIP_MAX_DEPTH, remaining) == Extracted(Ok([]), remaining) && Refusals(z, ZIP_MAX_DEPTH) == []
  {
    OneMember(Nested(inner));
    NoText(Some(Nested(inner)), ZIP_MAX_DEPTH, remaining);
  }

  /** A member over the size cap is not looked at, whether it is a document or an archive. */
  lemma SizeCapHidesEncryption(e: Entry, depth: nat, remaining: nat)
    requires 1 <= depth <= ZIP_MAX_DEPTH && e.Entry? && !e.encrypted && !e.directory
    requires e.claimedSize > ZIP_MEMBER_CAP_BYTES
             || (e.stream.Stream? && Sum(e.stream.chunks) > ZIP_MEMBER_CAP_BYTES)
    ensures ZipText(Zip([e]), depth, remaining) == Extracted(Ok([]), remaining) && Refusals(Zip([e]), depth) == []
  {
    var es := [e];
    assert es[1..] == [];
    assert EntryFault(e).None?;
    assert FirstFault(es) == FirstFault([]);
    var nothing: Option<Content> := None;
    assert Members(es) == [nothing] + [];
    NoText(None, depth, remaining);
  }

  lemma NoText(member: Option<Content>, depth: nat, remaining: nat)
    requires 1 <= depth <= ZIP_MAX_DEPTH && (member.None? || (member.value.Nested? && depth == ZIP_MAX_DEPTH))
    ensures Walk([member], depth, remaining) == Walked(Ok([]), remaining) && MemberRefusals([member], depth) == []
  {
    assert [member][1..] == [];
    assert Walk([member], depth, remaining) == Walk([], depth, remaining);
  }
}
