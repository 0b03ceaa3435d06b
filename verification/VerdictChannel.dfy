/**
  The kernel-to-agent verdict channel: connection handling, the circuit breaker
  and the validation of replies.
 */
module VerdictChannel {
  import opened Wrappers

  const BREAKER_THRESHOLD: int := 8
  const REPLY_SIZE: nat := 16
  const VERDICT_ALLOW: nat := 0
  const VERDICT_BLOCK: nat := 1
  const EXFIL_VERSION: nat := 0x5870_6C44

  datatype FailMode = FailAllow | FailBlock

  datatype Status =
    | Success | Timeout | PortDisconnected | InvalidParameter
    | InsufficientResources | InvalidDeviceState | SendFailed

  /** The success severity of status codes, which a timeout has as well. */
  predicate NtSuccess(s: Status) {
    s.Success? || s.Timeout?
  }

  /** What the message send came back with. */
  datatype Send = TimedOut | Failed | Replied(length: nat, fileId: nat, verdict: nat)

  /** A reply that may be trusted: exact length, echoed file id, known verdict. */
  predicate Genuine(send: Send, fileId: nat) {
    send.Replied? && send.length == REPLY_SIZE && send.fileId == fileId
    && (send.verdict == VERDICT_ALLOW || send.verdict == VERDICT_BLOCK)
  }

  datatype Answer = Answer(status: Status, block: bool)

  /** What a caller is told after the message was sent. */
  function Judge(mode: FailMode, fileId: nat, send: Send): (a: Answer)
    ensures a.status == Success <==> Genuine(send, fileId)
    ensures a.status != Success ==> a.block == mode.FailBlock?
    ensures a.status == Success ==> a.block == (send.verdict == VERDICT_BLOCK)
    ensures a.status == Timeout <==> send.TimedOut?
    ensures NtSuccess(a.status) && a.block && mode.FailAllow? ==> Genuine(send, fileId)
  {
    match send
    case TimedOut => Answer(Timeout, mode.FailBlock?)
    case Failed => Answer(SendFailed, mode.FailBlock?)
    case Replied(length, id, verdict) =>
      if length != REPLY_SIZE || id != fileId || (verdict != VERDICT_ALLOW && verdict != VERDICT_BLOCK)
      then Answer(InvalidParameter, mode.FailBlock?)
      else Answer(Success, verdict == VERDICT_BLOCK)
  }

  datatype Cookie = ScanConnection | PushConnection

  class Channel {
    const failMode: FailMode
    var connected: bool
    var servicePid: nat
    var epoch: int
    var timeouts: int

    constructor (failMode: FailMode)
      ensures this.failMode == failMode && !connected && servicePid == 0 && epoch == 1 && timeouts == 0
    {
      this.failMode := failMode;
      connected := false;
      servicePid := 0;
      epoch := 1;
      timeouts := 0;
    }

    /** Only a scanner connection takes the port; it starts a new policy epoch
        and closes the breaker. */
    method PortConnect(context: Option<nat>, pid: nat) returns (cookie: Cookie)
      modifies this
      ensures cookie == if context == Some(EXFIL_VERSION) then PushConnection else ScanConnection
      ensures cookie == PushConnection ==> unchanged(this)
      ensures cookie == ScanConnection ==>
                connected && servicePid == pid && epoch == old(epoch) + 1 && timeouts == 0
    {
      var connCtx := if context.Some? then context.value else 0;
      if connCtx == EXFIL_VERSION {
        return PushConnection;
      }
      connected := true;
      servicePid := pid;
      epoch := epoch + 1;
      timeouts := 0;
      return ScanConnection;
    }

    method PortDisconnect(cookie: Cookie)
      modifies this
      ensures cookie == PushConnection ==> unchanged(this)
      ensures cookie == ScanConnection ==> !connected && servicePid == 0
      ensures epoch == old(epoch) && timeouts == old(timeouts)
    {
      if cookie == PushConnection {
        return;
      }
      connected := false;
      servicePid := 0;
    }

    /** Whether a verdict request gets as far as sending its message. */
    predicate Sends(passive: bool, haveMemory: bool, notUnloading: bool)
      reads this
    {
      passive && connected && timeouts < BREAKER_THRESHOLD && haveMemory && notUnloading
    }

    method QueryVerdict(fileId: nat, passive: bool, haveMemory: bool, notUnloading: bool, send: Send)
      returns (status: Status, block: bool)
      modifies this`timeouts
      ensures status == Success <==> old(Sends(passive, haveMemory, notUnloading)) && Genuine(send, fileId)
      ensures status == Success ==> block == (send.verdict == 1)
      ensures status != Success ==> block == failMode.FailBlock?
      ensures passive && old(connected) && old(timeouts) < 8 && haveMemory && notUnloading
              && send.Replied? && send.length == 16 && send.fileId == fileId && send.verdict <= 1
              <==> status == Success
      ensures old(Sends(passive, haveMemory, notUnloading)) ==> Answer(status, block) == Judge(failMode, fileId, send)
      ensures timeouts == if !old(Sends(passive, haveMemory, notUnloading)) || send.Failed? then old(timeouts)
                          else if send.TimedOut? then old(timeouts) + 1
                          else 0
    {
      block := failMode == FailBlock;
      if !passive {
        return InvalidDeviceState, block;
      }
      if !connected {
        return PortDisconnected, block;
      }
      if timeouts >= BREAKER_THRESHOLD {
        return PortDisconnected, block;
      }
      if !haveMemory {
        return InsufficientResources, block;
      }
      if !notUnloading {
        return PortDisconnected, block;
      }
      if send == TimedOut {
        timeouts := timeouts + 1;
        return Timeout, block;
      }
      if send == Failed {
        return SendFailed, block;
      }
      timeouts := 0;
      if send.length != REPLY_SIZE {
        return InvalidParameter, block;
      }
      if send.fileId != fileId {
        return InvalidParameter, block;
      }
      if send.verdict != VERDICT_ALLOW && send.verdict != VERDICT_BLOCK {
        return InvalidParameter, block;
      }
      block := send.verdict == VERDICT_BLOCK;
      return Success, block;
    }
  }
}
