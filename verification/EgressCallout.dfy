/**
  The network connect callout: the consumer of the taint table that vetoes the
  outbound connections of tainted processes.
 */
module EgressCallout {
  import opened Wrappers
  import opened KernelLong
  import opened Widths
  import opened TaintTable

  const RIGHT_ACTION_WRITE: bv32 := 1
  const SYSTEM_PID: nat := 4

  datatype Action = Continue | Block | Other(code: nat)
  datatype Policy = BlockAll | BlockNonlocal

  /** The remote address as the layer delivers it. */
  datatype Remote = V4(addr: bv32) | V6(bytes: Option<seq<bv8>>) | UnknownLayer

  predicate InBlock(addr: bv32, first: bv32, last: bv32) {
    first <= addr <= last
  }

  /** The private, loopback and link-local IPv4 blocks by their first and last address. */
  predicate IsLocalV4(addr: bv32) {
    || InBlock(addr, 0x7F00_0000, 0x7FFF_FFFF)
    || InBlock(addr, 0x0A00_0000, 0x0AFF_FFFF)
    || InBlock(addr, 0xAC10_0000, 0xAC1F_FFFF)
    || InBlock(addr, 0xC0A8_0000, 0xC0A8_FFFF)
    || InBlock(addr, 0xA9FE_0000, 0xA9FE_FFFF)
  }

  /** ::1, fe80::/10 (second byte 80 to bf) and fc00::/7 (first byte fc or fd). */
  predicate IsLocalV6(b: seq<bv8>)
    requires |b| == 16
  {
    || (b[15] == 1 && forall i :: 0 <= i < 15 ==> b[i] == 0)
    || (b[0] == 0xFE && 0x80 <= b[1] <= 0xBF)
    || 0xFC <= b[0] <= 0xFD
  }

  ghost predicate IsLocal(r: Remote)
    requires r.V6? && r.bytes.Some? ==> |r.bytes.value| == 16
  {
    match r
    case V4(addr) => IsLocalV4(addr)
    case V6(bytes) => bytes.Some? && IsLocalV6(bytes.value)
    case UnknownLayer => false
  }

  method RemoteIsLocal(r: Remote) returns (local: bool)
    requires r.V6? && r.bytes.Some? ==> |r.bytes.value| == 16
    ensures local <==> IsLocal(r)
  {
    match r {
      case V4(addr) =>
        if addr & 0xFF00_0000 == 0x7F00_0000 { return true; }
        if addr & 0xFF00_0000 == 0x0A00_0000 { return true; }
        if addr & 0xFFF0_0000 == 0xAC10_0000 { return true; }
        if addr & 0xFFFF_0000 == 0xC0A8_0000 { return true; }
        if addr & 0xFFFF_0000 == 0xA9FE_0000 { return true; }
        return false;
      case V6(bytes) =>
        if bytes.None? {
          return false;
        }
        var b := bytes.value;
        if b[15] == 0x01 {
          var zero := true;
          var i := 0;
          while i < 15
            invariant 0 <= i <= 15
            invariant zero && forall j :: 0 <= j < i ==> b[j] == 0
          {
            if b[i] != 0x00 {
              zero := false;
              break;
            }
            i := i + 1;
          }
          if zero { return true; }
        }
        if b[0] == 0xFE && b[1] & 0xC0 == 0x80 { return true; }
        if b[0] & 0xFE == 0xFC { return true; }
        return false;
      case UnknownLayer =>
        return false;
    }
  }

  /** The verdict record the callout writes in place. */
  class ClassifyOut {
    var action: Action
    var rights: bv32

    constructor (action: Action, rights: bv32)
      ensures this.action == action && this.rights == rights
    {
      this.action := action;
      this.rights := rights;
    }
  }

  /** A connect is vetoed exactly when it is attributed to a tainted process
      other than the agent and the system, and the policy does not let its
      destination through. */
  ghost predicate Vetoed(pid: Option<nat>, servicePid: nat, policy: Policy, r: Remote, t: Table, epoch: int)
    requires r.V6? && r.bytes.Some? ==> |r.bytes.value| == 16
  {
    && pid.Some? && pid.value != 4
    && !(servicePid != 0 && pid.value == servicePid)
    && IsTainted(t, pid.value, epoch)
    && !(policy.BlockNonlocal? && IsLocal(r))
  }

  /** The attribution and policy half of the callout. */
  method ShouldVeto(pid: Option<nat>, servicePid: nat, policy: Policy, r: Remote, taint: TaintedProcesses, epoch: int)
    returns (veto: bool)
    requires r.V6? && r.bytes.Some? ==> |r.bytes.value| == 16
    requires taint.Valid()
    ensures veto <==> Vetoed(pid, servicePid, policy, r, taint.Value(), epoch)
  {
    if pid.None? {
      return false;
    }
    if (servicePid != 0 && pid.value == servicePid) || pid.value == SYSTEM_PID {
      return false;
    }
    var tainted := taint.Lookup(pid.value, epoch);
    if tainted {
      if policy == BlockNonlocal {
        var local := RemoteIsLocal(r);
        if local {
          return false;
        }
      }
      return true;
    }
    return false;
  }

  method Classify(pid: Option<nat>, servicePid: nat, policy: Policy, r: Remote,
                  taint: TaintedProcesses, epoch: int, out: ClassifyOut)
    requires r.V6? && r.bytes.Some? ==> |r.bytes.value| == 16
    requires taint.Valid()
    modifies out
    ensures old(out.rights) & RIGHT_ACTION_WRITE == 0 ==> unchanged(out)
    ensures old(out.rights) & RIGHT_ACTION_WRITE != 0 ==>
              if old(Vetoed(pid, servicePid, policy, r, taint.Value(), epoch))
              then out.action == Block && out.rights == old(out.rights) & !RIGHT_ACTION_WRITE
              else out.action == Continue && out.rights == old(out.rights)
  {
    if out.rights & RIGHT_ACTION_WRITE == 0 {
      return;
    }
    var veto := ShouldVeto(pid, servicePid, policy, r, taint, epoch);
    out.action := Continue;
    if veto {
      out.action := Block;
      out.rights := out.rights & !RIGHT_ACTION_WRITE;
    }
  }

  /** Over every run of the table a connect is vetoed only for a process that was added after its last
      exit and, before the epoch wraps, after the reset that began the epoch the callout read: after
      every reset when that epoch is still the current one. */
  lemma {:induction false} VetoNeedsFreshTaint(events: seq<Event>, pid: Option<nat>, servicePid: nat, policy: Policy,
                                               r: Remote, at: nat)
    returns (i: nat)
    requires r.V6? && r.bytes.Some? ==> |r.bytes.value| == 16
    requires Causal(events) && 1 <= at <= Resets(events)
    requires Vetoed(pid, servicePid, policy, r, TableAfter(events), LongOf(at))
    ensures pid.Some? && i < |events| && events[i].Add? && AddedSinceExit(events, i, pid.value, events[i].at)
    ensures Resets(events) <= TWO_32 ==> events[i].at == at <= Resets(events[..i])
    ensures Resets(events) <= TWO_32 && at == Resets(events) ==> forall j :: i < j < |events| ==> !events[j].Reset?
  {
    i := TaintedOnlySinceReset(events, pid.value, at);
  }
}
