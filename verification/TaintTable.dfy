/**
  The tainted-process table of the minifilter and its consumer, the network
  connect callout. Each table operation runs under the table's spinlock and is
  one atomic step; Add receives the taint epoch its caller read before the lock.
 */
module TaintTable {
  import opened KernelLong
  import opened Widths

  const TAINT_MAX: nat := 1024

  datatype Entry = Entry(pid: nat, epoch: int, createTime: nat, valid: bool)

  const EMPTY: Entry := Entry(0, 0, 0, false)

  /** The value of the whole table. */
  datatype Table = Table(slots: seq<Entry>, count: nat, next: nat)

  // ------------------------------------------------------------------
  // The operations as functions on table values
  // ------------------------------------------------------------------

  predicate Matches(e: Entry, pid: nat, epoch: int) {
    e.valid && e.epoch == epoch && e.pid == pid
  }

  ghost predicate Holds(slots: seq<Entry>, pid: nat, epoch: int) {
    exists i :: 0 <= i < |slots| && Matches(slots[i], pid, epoch)
  }

  ghost predicate IsTainted(t: Table, pid: nat, epoch: int) {
    pid != 0 && Holds(t.slots, pid, epoch)
  }

  /** The first invalid slot, or the table size when all are valid. */
  function FirstFree(slots: seq<Entry>): (f: nat)
    ensures f <= |slots|
    ensures forall i :: 0 <= i < f ==> slots[i].valid
    ensures f < |slots| ==> !slots[f].valid
  {
    if slots == [] || !slots[0].valid then 0 else 1 + FirstFree(slots[1..])
  }

  function NumValid(slots: seq<Entry>): nat {
    if slots == [] then 0 else NumValid(slots[1..]) + if slots[0].valid then 1 else 0
  }

  ghost function Added(t: Table, pid: nat, epoch: int, createTime: nat): Table {
    if pid == 0 || Holds(t.slots, pid, epoch) then t
    else
      var f := FirstFree(t.slots);
      var e := Entry(pid, epoch, createTime, true);
      if f < |t.slots| then
        Table(t.slots[f := e], if t.count < TAINT_MAX then t.count + 1 else t.count, t.next)
      else
        var victim := if t.next < |t.slots| then t.next else 0;
        if victim < |t.slots| then Table(t.slots[victim := e], t.count, (victim + 1) % TAINT_MAX) else t
  }

  function Cleared(e: Entry, pid: nat): Entry {
    if e.valid && e.pid == pid then Entry(0, e.epoch, 0, false) else e
  }

  function ClearedAll(slots: seq<Entry>, pid: nat): seq<Entry> {
    seq(|slots|, i requires 0 <= i < |slots| => Cleared(slots[i], pid))
  }

  function Removed(t: Table, pid: nat): Table {
    if pid == 0 then t
    else
      var slots := ClearedAll(t.slots, pid);
      var gone := NumValid(t.slots) - NumValid(slots);
      Table(slots, if 0 <= gone <= t.count then t.count - gone else 0, t.next)
  }

  // ------------------------------------------------------------------
  // Invariant and effect of each operation
  // ------------------------------------------------------------------

  /** No process has two valid slots under one epoch. */
  ghost predicate OneSlotPerPid(slots: seq<Entry>) {
    forall i, j :: 0 <= i < j < |slots| && slots[i].valid && slots[j].valid ==>
                     slots[i].pid != slots[j].pid || slots[i].epoch != slots[j].epoch
  }

  ghost predicate Consistent(t: Table) {
    && |t.slots| == TAINT_MAX
    && t.count == NumValid(t.slots)
    && t.next < TAINT_MAX
    && (forall i :: 0 <= i < TAINT_MAX && t.slots[i].valid ==> t.slots[i].pid != 0)
    && OneSlotPerPid(t.slots)
  }

  ghost predicate Full(t: Table) {
    forall i :: 0 <= i < |t.slots| ==> t.slots[i].valid
  }

  lemma {:induction false} NumValidUpdate(slots: seq<Entry>, i: nat, e: Entry)
    requires i < |slots|
    ensures NumValid(slots[i := e])
            == NumValid(slots) - (if slots[i].valid then 1 else 0) + if e.valid then 1 else 0
  {
    if i == 0 {
      assert slots[i := e][1..] == slots[1..];
    } else {
      NumValidUpdate(slots[1..], i - 1, e);
      assert slots[i := e][1..] == slots[1..][i - 1 := e];
    }
  }

  lemma {:induction false} NumValidBound(slots: seq<Entry>)
    ensures NumValid(slots) <= |slots|
    ensures NumValid(slots) == |slots| ==> FirstFree(slots) == |slots|
  {
    if slots != [] {
      NumValidBound(slots[1..]);
    }
  }

  lemma {:induction false} NumValidCleared(slots: seq<Entry>, pid: nat)
    ensures NumValid(ClearedAll(slots, pid)) <= NumValid(slots)
  {
    if slots != [] {
      NumValidCleared(slots[1..], pid);
      assert ClearedAll(slots, pid)[1..] == ClearedAll(slots[1..], pid);
    }
  }

  /** The slot an Add overwrites, when the process is not in the table yet. */
  function TargetSlot(t: Table): (i: nat)
    requires |t.slots| == TAINT_MAX && t.next < TAINT_MAX
    ensures i < TAINT_MAX
  {
    if FirstFree(t.slots) < TAINT_MAX then FirstFree(t.slots) else t.next
  }

  lemma AddedKeepsConsistent(t: Table, pid: nat, epoch: int, createTime: nat)
    requires Consistent(t)
    ensures Consistent(Added(t, pid, epoch, createTime))
  {
    if pid != 0 && !Holds(t.slots, pid, epoch) {
      var i := TargetSlot(t);
      NumValidUpdate(t.slots, i, Entry(pid, epoch, createTime, true));
      NumValidBound(t.slots);
      forall j | 0 <= j < TAINT_MAX
        ensures !Matches(t.slots[j], pid, epoch)
      {
      }
    }
  }

  lemma RemovedKeepsConsistent(t: Table, pid: nat)
    requires Consistent(t)
    ensures Consistent(Removed(t, pid))
  {
    NumValidCleared(t.slots, pid);
  }

  /** Add taints its process and drops another one only when every slot is
      valid; then only the process in the slot under the cursor. */
  lemma AddEffect(t: Table, pid: nat, epoch: int, createTime: nat, other: nat, e: int)
    requires Consistent(t) && pid != 0
    ensures IsTainted(Added(t, pid, epoch, createTime), pid, epoch)
    ensures (other, e) != (pid, epoch) ==>
              (IsTainted(Added(t, pid, epoch, createTime), other, e) <==>
               IsTainted(t, other, e)
               && !(Full(t) && !Holds(t.slots, pid, epoch) && Matches(t.slots[t.next], other, e)))
  {
    var t' := Added(t, pid, epoch, createTime);
    if !Holds(t.slots, pid, epoch) {
      var i := TargetSlot(t);
      assert Matches(t'.slots[i], pid, epoch);
      if Holds(t.slots, other, e) {
        var j :| 0 <= j < |t.slots| && Matches(t.slots[j], other, e);
        assert j != i ==> Matches(t'.slots[j], other, e);
      }
      if (other, e) != (pid, epoch) && Holds(t'.slots, other, e) {
        var j :| 0 <= j < |t'.slots| && Matches(t'.slots[j], other, e);
        assert j != i && Matches(t.slots[j], other, e);
      }
    }
  }

  /** Remove clears its process under every epoch and nobody else. */
  lemma RemoveEffect(t: Table, pid: nat, other: nat, e: int)
    requires pid != 0
    ensures IsTainted(Removed(t, pid), other, e) <==> IsTainted(t, other, e) && other != pid
  {
    var t' := Removed(t, pid);
    if Holds(t'.slots, other, e) && other != 0 {
      var j :| 0 <= j < |t'.slots| && Matches(t'.slots[j], other, e);
      assert Matches(t.slots[j], other, e);
    }
    if Holds(t.slots, other, e) && other != pid {
      var j :| 0 <= j < |t.slots| && Matches(t.slots[j], other, e);
      assert Matches(t'.slots[j], other, e);
    }
  }

  // ------------------------------------------------------------------
  // Whole runs
  // ------------------------------------------------------------------

  /** An Add by a caller that read the taint epoch at `at` resets, a process
      exit, or an administrative reset of all taint. */
  datatype Event = Add(pid: nat, at: nat, createTime: nat) | Exit(pid: nat) | Reset

  /** The taint epoch starts at 1 and each reset increments it. */
  function Resets(events: seq<Event>): nat {
    if events == [] then 1
    else Resets(events[..|events| - 1]) + if events[|events| - 1].Reset? then 1 else 0
  }

  ghost function TableAfter(events: seq<Event>): Table {
    if events == [] then Table(seq(TAINT_MAX, _ => EMPTY), 0, 0)
    else
      var before := TableAfter(events[..|events| - 1]);
      match events[|events| - 1]
      case Add(pid, at, createTime) => Added(before, pid, LongOf(at), createTime)
      case Exit(pid) => Removed(before, pid)
      case Reset => before
  }

  ghost predicate Causal(events: seq<Event>) {
    forall i :: 0 <= i < |events| && events[i].Add? ==> 1 <= events[i].at <= Resets(events[..i])
  }

  ghost predicate TaintedNow(events: seq<Event>, pid: nat) {
    IsTainted(TableAfter(events), pid, LongOf(Resets(events)))
  }

  lemma {:induction false} EmptyTable(n: nat)
    ensures NumValid(seq(n, _ => EMPTY)) == 0
  {
    if n > 0 {
      EmptyTable(n - 1);
      assert seq(n, _ => EMPTY)[1..] == seq(n - 1, _ => EMPTY);
    }
  }

  /** At every point of every run the counter is the number of valid slots and
      no process has two slots under one epoch. */
  lemma {:induction false} RunIsConsistent(events: seq<Event>)
    ensures Consistent(TableAfter(events))
  {
    if events == [] {
      EmptyTable(TAINT_MAX);
    } else {
      var prefix := events[..|events| - 1];
      RunIsConsistent(prefix);
      match events[|events| - 1]
      case Add(pid, at, createTime) => AddedKeepsConsistent(TableAfter(prefix), pid, LongOf(at), createTime);
      case Exit(pid) => RemovedKeepsConsistent(TableAfter(prefix), pid);
      case Reset =>
    }
  }

  lemma {:induction false} ResetsMonotone(events: seq<Event>, i: nat, j: nat)
    requires i <= j <= |events|
    ensures Resets(events[..i]) <= Resets(events[..j])
    decreases j
  {
    if i < j {
      ResetsMonotone(events, i, j - 1);
      assert events[..j][..j - 1] == events[..j - 1];
    }
  }

  /** The Add of a pid with the given snapshot that no later exit of it undid. */
  ghost predicate AddedSinceExit(events: seq<Event>, i: int, pid: nat, at: nat) {
    && 0 <= i < |events| && events[i].Add? && events[i].pid == pid && events[i].at == at
    && forall j :: i < j < |events| ==> events[j] != Exit(pid)
  }

  lemma {:induction false} TaintHasOrigin(events: seq<Event>, pid: nat, epoch: int) returns (i: nat)
    requires IsTainted(TableAfter(events), pid, epoch)
    ensures i < |events| && events[i].Add? && LongOf(events[i].at) == epoch
    ensures AddedSinceExit(events, i, pid, events[i].at)
  {
    i := 0;
    if events != [] {
      var prefix := events[..|events| - 1];
      var last := events[|events| - 1];
      var before := TableAfter(prefix);
      RunIsConsistent(prefix);
      if last.Add? && last.pid == pid && LongOf(last.at) == epoch {
        i := |events| - 1;
      } else {
        if last.Add? && last.pid != 0 {
          AddEffect(before, last.pid, LongOf(last.at), last.createTime, pid, epoch);
        } else if last.Exit? && last.pid != 0 {
          RemoveEffect(before, last.pid, pid, epoch);
        }
        i := TaintHasOrigin(prefix, pid, epoch);
        assert events[i] == prefix[i];
      }
    }
  }

  /** A lookup reads the epoch before it takes the lock. Whoever it finds tainted was added after its
      last exit, under a reading that collides with the lookup's; before the 32-bit epoch wraps that
      is the same reading, so the Add came after the reset that began the lookup's epoch, and when
      that is still the current epoch, after every reset. */
  lemma TaintedOnlySinceReset(events: seq<Event>, pid: nat, at: nat) returns (i: nat)
    requires Causal(events) && 1 <= at <= Resets(events) && IsTainted(TableAfter(events), pid, LongOf(at))
    ensures i < |events| && events[i].Add? && AddedSinceExit(events, i, pid, events[i].at)
    ensures (at - events[i].at) % TWO_32 == 0
    ensures Resets(events) <= TWO_32 ==> events[i].at == at <= Resets(events[..i])
    ensures Resets(events) <= TWO_32 && at == Resets(events) ==> forall j :: i < j < |events| ==> !events[j].Reset?
  {
    i := TaintHasOrigin(events, pid, LongOf(at));
    assert events[..|events|] == events;
    ResetsMonotone(events, i, |events|);
    LongOfCollides(events[i].at, at);
    if Resets(events) <= TWO_32 && at == Resets(events) {
      forall j | i < j < |events|
        ensures !events[j].Reset?
      {
        if events[j].Reset? {
          assert events[..j + 1][..j] == events[..j];
          ResetsMonotone(events, i, j);
          ResetsMonotone(events, j + 1, |events|);
        }
      }
    }
  }

  /** The Add at j found every slot valid and its own process absent, and the slot at the cursor is
      that of the given taint. */
  ghost predicate Evicts(events: seq<Event>, j: int, pid: nat, epoch: int)
    requires 0 <= j < |events|
  {
    var t := TableAfter(events[..j]);
    && events[j].Add? && events[j].pid != 0
    && Full(t) && !Holds(t.slots, events[j].pid, LongOf(events[j].at))
    && t.next < |t.slots| && Matches(t.slots[t.next], pid, epoch)
  }

  /** Conversely an Add under the current epoch lasts until its process exits or taint is reset, as
      long as no later Add evicts it from the slot at the cursor of a full table. */
  lemma {:induction false} TaintLasts(events: seq<Event>, pid: nat, i: nat)
    requires pid != 0 && i < |events| && events[i].Add? && events[i].pid == pid
    requires events[i].at == Resets(events[..i])
    requires forall j :: i < j < |events| ==> events[j] != Exit(pid) && !events[j].Reset?
    requires forall j :: i < j < |events| ==> !Evicts(events, j, pid, LongOf(events[i].at))
    ensures Resets(events) == events[i].at && TaintedNow(events, pid)
    decreases |events|
  {
    var prefix := events[..|events| - 1];
    var last := events[|events| - 1];
    var epoch := LongOf(events[i].at);
    RunIsConsistent(prefix);
    if i == |events| - 1 {
      AddEffect(TableAfter(prefix), pid, epoch, last.createTime, pid, epoch);
    } else {
      assert prefix[..i] == events[..i];
      forall j | i < j < |prefix|
        ensures !Evicts(prefix, j, pid, epoch)
      {
        assert prefix[..j] == events[..j];
        assert !Evicts(events, j, pid, epoch);
      }
      TaintLasts(prefix, pid, i);
      assert !Evicts(events, |events| - 1, pid, epoch);
      if last.Add? && last.pid != 0 {
        AddEffect(TableAfter(prefix), last.pid, LongOf(last.at), last.createTime, pid, epoch);
      } else if last.Exit? && last.pid != 0 {
        RemoveEffect(TableAfter(prefix), last.pid, pid, epoch);
      }
    }
  }

  /** And an eviction does end it: after such an Add the taint is gone. */
  lemma EvictionEndsTaint(events: seq<Event>, pid: nat)
    requires events != [] && Evicts(events, |events| - 1, pid, LongOf(Resets(events)))
    ensures !TaintedNow(events, pid)
  {
    var prefix, last := events[..|events| - 1], events[|events| - 1];
    RunIsConsistent(prefix);
    AddEffect(TableAfter(prefix), last.pid, LongOf(last.at), last.createTime, pid, LongOf(Resets(events)));
  }

  // ------------------------------------------------------------------
  // The table in place
  // ------------------------------------------------------------------

  class TaintedProcesses {
    const slots: array<Entry>
    var count: int
    var next: int

    ghost predicate Valid()
      reads this, slots
    {
      slots.Length == TAINT_MAX && 0 <= count && 0 <= next && Consistent(Value())
    }

    ghost function Value(): Table
      reads this, slots
      requires 0 <= count && 0 <= next
    {
      Table(slots[..], count, next)
    }

    constructor ()
      ensures Valid() && fresh(slots) && slots.Length == 1024 && Value() == TableAfter([])
    {
      slots := new Entry[TAINT_MAX](_ => EMPTY);
      count := 0;
      next := 0;
      new;
      EmptyTable(TAINT_MAX);
      assert slots[..] == seq(TAINT_MAX, _ => EMPTY);
    }

    method Lookup(pid: nat, epoch: int) returns (found: bool)
      requires Valid()
      ensures found <==> IsTainted(Value(), pid, epoch)
    {
      if pid == 0 {
        return false;
      }
      found := false;
      var i := 0;
      while i < TAINT_MAX
        invariant 0 <= i <= TAINT_MAX
        invariant forall j :: 0 <= j < i ==> !Matches(slots[j], pid, epoch)
      {
        if slots[i].valid && slots[i].epoch == epoch && slots[i].pid == pid {
          assert Matches(slots[..][i], pid, epoch);
          return true;
        }
        i := i + 1;
      }
    }

    method FindFree() returns (slot: int)
      requires Valid()
      ensures slot == if FirstFree(slots[..]) < TAINT_MAX then FirstFree(slots[..]) else -1
    {
      slot := -1;
      var i := 0;
      while i < TAINT_MAX
        invariant 0 <= i <= TAINT_MAX
        invariant forall j :: 0 <= j < i ==> slots[j].valid
      {
        if !slots[i].valid {
          return i;
        }
        i := i + 1;
      }
    }

    method Add(pid: nat, epoch: int, createTime: nat)
      requires Valid()
      modifies this, slots
      ensures Valid()
      ensures Value() == Added(old(Value()), pid, epoch, createTime)
    {
      AddedKeepsConsistent(Value(), pid, epoch, createTime);
      if pid == 0 {
        return;
      }
      var found := Lookup(pid, epoch);
      if found {
        return;
      }
      var slot := FindFree();
      if slot < 0 {
        slot := next;
        if slot < 0 || slot >= TAINT_MAX {
          slot := 0;
        }
        next := (slot + 1) % TAINT_MAX;
      } else if count < TAINT_MAX {
        count := count + 1;
      }
      slots[slot] := Entry(pid, epoch, createTime, true);
    }

    method Remove(pid: nat)
      requires Valid()
      modifies this, slots
      ensures Valid()
      ensures Value() == Removed(old(Value()), pid)
    {
      ghost var before := Value();
      RemovedKeepsConsistent(before, pid);
      if pid == 0 {
        return;
      }
      var i := 0;
      while i < TAINT_MAX
        invariant 0 <= i <= TAINT_MAX
        invariant forall j :: 0 <= j < i ==> slots[j] == Cleared(before.slots[j], pid)
        invariant forall j :: i <= j < TAINT_MAX ==> slots[j] == before.slots[j]
        invariant next == old(next) && count == NumValid(slots[..])
      {
        if slots[i].valid && slots[i].pid == pid {
          ghost var current := slots[..];
          NumValidUpdate(current, i, Cleared(current[i], pid));
          slots[i] := Entry(0, slots[i].epoch, 0, false);
          assert slots[..] == current[i := Cleared(current[i], pid)];
          if count > 0 {
            count := count - 1;
          }
        }
        i := i + 1;
      }
      assert slots[..] == Removed(before, pid).slots;
      NumValidCleared(before.slots, pid);
    }
  }
}
