/**
  The bounded, epoch-stamped caches of the minifilter: the known-bad hash ring,
  the known-sensitive and the known-clean file rings. All three are the same
  ring over different keys, of 256, 512 and 4096 slots; the results hold for
  every size. Callers read the epoch before they take the ring's
  lock, so every operation receives the snapshot it read.
 */
module EpochRing {
  import opened KernelLong
  import opened Widths

  // ------------------------------------------------------------------
  // The log of non-duplicate inserts, newest last
  // ------------------------------------------------------------------

  /** One insert: a key under an epoch. */
  datatype Stamp<K> = Stamp(key: K, epoch: int)

  /** The stamp is among the last n of the log. */
  ghost predicate Visible<K>(log: seq<Stamp<K>>, n: nat, s: Stamp<K>) {
    exists i :: |log| - n <= i < |log| && 0 <= i && log[i] == s
  }

  ghost function Inserted<K>(log: seq<Stamp<K>>, n: nat, s: Stamp<K>): seq<Stamp<K>> {
    if Visible(log, n, s) then log else log + [s]
  }

  ghost function InsertAll<K>(log: seq<Stamp<K>>, n: nat, stamps: seq<Stamp<K>>): seq<Stamp<K>>
    decreases stamps
  {
    if stamps == [] then log else InsertAll(Inserted(log, n, stamps[0]), n, stamps[1..])
  }

  /** The last n stamps are pairwise different. */
  ghost predicate Deduplicated<K>(log: seq<Stamp<K>>, n: nat) {
    forall i, j :: |log| - n <= i < j < |log| && 0 <= i ==> log[i] != log[j]
  }

  lemma InsertedKeepsDeduplicated<K>(log: seq<Stamp<K>>, n: nat, s: Stamp<K>)
    requires Deduplicated(log, n)
    ensures Deduplicated(Inserted(log, n, s), n)
    ensures n > 0 ==> Visible(Inserted(log, n, s), n, s)
  {
    var after := Inserted(log, n, s);
    if !Visible(log, n, s) {
      forall i, j | |after| - n <= i < j < |after| && 0 <= i
        ensures after[i] != after[j]
      {
        assert after[i] == log[i];
      }
      assert after[|after| - 1] == s;
    }
  }

  lemma {:induction false} InsertAllExtends<K>(log: seq<Stamp<K>>, n: nat, stamps: seq<Stamp<K>>)
    decreases stamps
    ensures log <= InsertAll(log, n, stamps)
    ensures forall i :: |log| <= i < |InsertAll(log, n, stamps)| ==> InsertAll(log, n, stamps)[i] in stamps
  {
    if stamps != [] {
      var next := Inserted(log, n, stamps[0]);
      InsertAllExtends(next, n, stamps[1..]);
      forall i | |log| <= i < |InsertAll(log, n, stamps)|
        ensures InsertAll(log, n, stamps)[i] in stamps
      {
        if i < |next| {
          assert InsertAll(log, n, stamps)[i] == next[i] == stamps[0];
        }
      }
    }
  }

  /** While a stamp is among the last n, inserting it again is a duplicate: nothing behind it is the
      same stamp until n others have come in. */
  lemma {:induction false} NotRenewed<K>(log: seq<Stamp<K>>, n: nat, s: Stamp<K>, p: nat, later: seq<Stamp<K>>)
    requires p < |log| && log[p] == s && forall i :: p < i < |log| ==> log[i] != s
    requires |InsertAll(log, n, later)| - p <= n + 1
    ensures forall i :: p < i < |InsertAll(log, n, later)| ==> InsertAll(log, n, later)[i] != s
    decreases later
  {
    if later != [] {
      var next := Inserted(log, n, later[0]);
      InsertAllExtends(next, n, later[1..]);
      assert next[p] == s;
      NotRenewed(next, n, s, p, later[1..]);
    }
  }

  /** A freshly inserted key is visible as long as fewer than n later inserts, of whatever keys and
      itself included, were no duplicates, and has dropped out after exactly n of them: using a key
      again does not keep it longer. */
  lemma VisibleForExactlyN<K>(log: seq<Stamp<K>>, n: nat, s: Stamp<K>, later: seq<Stamp<K>>)
    requires n > 0 && !Visible(log, n, s)
    ensures var before := Inserted(log, n, s);
            var after := InsertAll(before, n, later);
            && |after| >= |before|
            && (|after| - |before| < n ==> Visible(after, n, s))
            && (|after| - |before| == n ==> !Visible(after, n, s))
  {
    var before := Inserted(log, n, s);
    var after := InsertAll(before, n, later);
    InsertAllExtends(before, n, later);
    assert after[|log|] == before[|log|] == s;
    if |after| - |before| <= n {
      NotRenewed(before, n, s, |log|, later);
    }
  }

  /** A key that is never inserted again is visible exactly until n others were. */
  lemma UnusedKeyLeaves<K>(log: seq<Stamp<K>>, n: nat, s: Stamp<K>, later: seq<Stamp<K>>)
    requires n > 0 && !Visible(log, n, s) && s !in later
    ensures var before := Inserted(log, n, s);
            var after := InsertAll(before, n, later);
            Visible(after, n, s) <==> |after| - |before| < n
  {
    var before := Inserted(log, n, s);
    var after := InsertAll(before, n, later);
    VisibleForExactlyN(log, n, s, later);
    InsertAllExtends(before, n, later);
    if Visible(after, n, s) {
      var i :| |after| - n <= i < |after| && 0 <= i && after[i] == s;
      assert i < |before|;
      assert before == log + [s] && after[i] == before[i];
    }
  }

  // ------------------------------------------------------------------
  // Runs of inserts and epoch bumps
  // ------------------------------------------------------------------

  /** A bump of the global epoch, or an insert by a caller that had read the
      epoch when it stood at `at` bumps. */
  datatype Event<K> = Bump | Insert(key: K, at: nat)

  ghost function Bumps<K>(events: seq<Event<K>>): nat {
    if events == [] then 0
    else Bumps(events[..|events| - 1]) + if events[|events| - 1].Bump? then 1 else 0
  }

  ghost function LogOf<K>(events: seq<Event<K>>, n: nat): seq<Stamp<K>> {
    if events == [] then []
    else
      var before := LogOf(events[..|events| - 1], n);
      match events[|events| - 1]
      case Bump => before
      case Insert(key, at) => Inserted(before, n, Stamp(key, LongOf(at)))
  }

  /** Snapshots are never newer than the epoch. */
  ghost predicate Causal<K>(events: seq<Event<K>>) {
    forall i :: 0 <= i < |events| && events[i].Insert? ==> events[i].at <= Bumps(events[..i])
  }

  lemma {:induction false} RunIsDeduplicated<K>(events: seq<Event<K>>, n: nat)
    ensures Deduplicated(LogOf(events, n), n)
  {
    if events != [] {
      RunIsDeduplicated(events[..|events| - 1], n);
      var last := events[|events| - 1];
      if last.Insert? {
        InsertedKeepsDeduplicated(LogOf(events[..|events| - 1], n), n, Stamp(last.key, LongOf(last.at)));
      }
    }
  }

  lemma {:induction false} LogComesFromEvents<K>(events: seq<Event<K>>, n: nat, i: nat) returns (e: nat)
    requires i < |LogOf(events, n)|
    ensures e < |events| && events[e].Insert?
    ensures LogOf(events, n)[i] == Stamp(events[e].key, LongOf(events[e].at))
  {
    var prefix := events[..|events| - 1];
    if i < |LogOf(prefix, n)| {
      e := LogComesFromEvents(prefix, n, i);
    } else {
      e := |events| - 1;
    }
  }

  lemma {:induction false} BumpsMonotone<K>(events: seq<Event<K>>, i: nat, j: nat)
    requires i <= j <= |events|
    ensures Bumps(events[..i]) <= Bumps(events[..j])
    decreases j
  {
    if i < j {
      BumpsMonotone(events, i, j - 1);
      assert events[..j][..j - 1] == events[..j - 1];
    }
  }

  /** A lookup reads the epoch before it takes the lock, so it asks for the epoch of some moment up to
      now. What it finds was inserted under a reading that collides with its own: a multiple of 2^32
      bumps apart. */
  lemma VisibleMeansInserted<K>(events: seq<Event<K>>, n: nat, key: K, at: nat) returns (e: nat)
    requires Causal(events) && Visible(LogOf(events, n), n, Stamp(key, LongOf(at)))
    ensures e < |events| && events[e].Insert? && events[e].key == key
    ensures events[e].at <= Bumps(events) && (at - events[e].at) % TWO_32 == 0
  {
    var log := LogOf(events, n);
    var s := Stamp(key, LongOf(at));
    var i :| |log| - n <= i < |log| && 0 <= i && log[i] == s;
    e := LogComesFromEvents(events, n, i);
    BumpsMonotone(events, e, |events|);
    assert events[..|events|] == events;
    LongOfCollides(events[e].at, at);
  }

  /** Stale keys never return before the 32-bit epoch wraps: what a lookup finds was inserted under the
      very epoch it read, so after every bump that came before the reading. */
  lemma StaleNeverReturns<K>(events: seq<Event<K>>, n: nat, key: K, at: nat, bump: nat) returns (e: nat)
    requires Causal(events) && at <= Bumps(events) < TWO_32
    requires bump < |events| && events[bump].Bump? && Bumps(events[..bump + 1]) <= at
    requires Visible(LogOf(events, n), n, Stamp(key, LongOf(at)))
    ensures bump < e < |events| && events[e] == Insert(key, at)
  {
    e := VisibleMeansInserted(events, n, key, at);
    assert events[..|events|] == events;
    assert events[..bump + 1][..bump] == events[..bump];
    if e < bump {
      BumpsMonotone(events, e, bump);
    }
  }

  /** A key that the ring still holds under the epoch of one insert, and under no other, is found
      exactly by the lookups whose reading is a multiple of 2^32 bumps apart from the insert's. */
  lemma HeldKeyIsVisible<K>(events: seq<Event<K>>, n: nat, e: nat, at: nat)
    requires e < |events| && events[e].Insert?
    requires Visible(LogOf(events, n), n, Stamp(events[e].key, LongOf(events[e].at)))
    requires forall epoch :: Visible(LogOf(events, n), n, Stamp(events[e].key, epoch)) ==> epoch == LongOf(events[e].at)
    ensures Visible(LogOf(events, n), n, Stamp(events[e].key, LongOf(at))) <==> (at - events[e].at) % TWO_32 == 0
  {
    LongOfCollides(events[e].at, at);
  }

  lemma {:induction false} ManyBumps<K>(first: Event<K>, n: nat, count: nat)
    requires first.Insert? && first.at == 0
    ensures var events := [first] + seq(count, _ => Bump);
            Bumps(events) == count && LogOf(events, n) == LogOf([first], n)
  {
    var events := [first] + seq(count, _ => Bump);
    if count == 0 {
      assert events == [first];
    } else {
      ManyBumps(first, n, count - 1);
      assert events[..|events| - 1] == [first] + seq(count - 1, _ => Bump);
    }
  }

  /** The bound is exact: after 2^32 bumps a key that was never inserted again
      is visible once more. */
  lemma StaleReturnsAfterWrap<K>(key: K, n: nat)
    requires n > 0
    ensures var events := [Insert(key, 0)] + seq(TWO_32, _ => Bump);
            Causal(events) && Visible(LogOf(events, n), n, Stamp(key, LongOf(Bumps(events))))
  {
    var first := Insert(key, 0);
    var events := [first] + seq(TWO_32, _ => Bump);
    ManyBumps(first, n, TWO_32);
    assert [first][..0] == [];
    assert LogOf([first], n) == [Stamp(key, LongOf(0))];
    assert LogOf([first], n)[0] == Stamp(key, LongOf(Bumps(events)));
  }

  // ------------------------------------------------------------------
  // The ring
  // ------------------------------------------------------------------

  datatype Slot<K> = Slot(stamp: Stamp<K>, valid: bool)

  /** The ring read from its cursor once it is full, from slot 0 before that. */
  ghost function Unrolled<T>(content: seq<T>, next: nat, full: bool): seq<T>
    requires next < |content|
  {
    if full then content[next..] + content[..next] else content[..next]
  }

  lemma UnrolledInsert<T>(content: seq<T>, slot: nat, full: bool, x: T)
    requires slot < |content|
    ensures var next := if slot + 1 == |content| then 0 else slot + 1;
            var after := content[slot := x];
            && (full ==> Unrolled(after, next, true) == Unrolled(content, slot, true)[1..] + [x])
            && (!full ==> Unrolled(after, next, next == 0) == Unrolled(content, slot, false) + [x])
  {
    var next := if slot + 1 == |content| then 0 else slot + 1;
    var after := content[slot := x];
    assert after[slot + 1..] == content[slot + 1..];
    assert after[..slot] == content[..slot];
    assert after[..slot + 1] == content[..slot] + [x];
    if next == 0 {
      assert after[0..] == after[..slot + 1];
    }
  }

  /** held are the newest stamps of the log. */
  ghost predicate Holds<K>(held: seq<Slot<K>>, log: seq<Stamp<K>>) {
    && |held| <= |log|
    && forall d :: 0 <= d < |held| ==> held[d] == Slot(log[|log| - |held| + d], true)
  }

  lemma HoldsNext<K>(held: seq<Slot<K>>, log: seq<Stamp<K>>, s: Stamp<K>)
    requires Holds(held, log)
    ensures Holds(held + [Slot(s, true)], log + [s])
    ensures held != [] ==> Holds(held[1..] + [Slot(s, true)], log + [s])
  {
  }

  class Ring<K(==)> {
    const slots: array<Slot<K>>
    var next: int
    ghost var log: seq<Stamp<K>>

    /** The used slots from oldest to newest. */
    ghost function Held(): (held: seq<Slot<K>>)
      reads this, slots
      requires 0 <= next < slots.Length
    {
      Unrolled(slots[..], next, |log| >= slots.Length)
    }

    /** The ring holds the last N stamps of the log, and nothing else. */
    ghost predicate Valid()
      reads this, slots
    {
      && 0 <= next < slots.Length
      && (|log| < slots.Length ==> next == |log| && forall j :: next <= j < slots.Length ==> !slots[j].valid)
      && Holds(Held(), log)
    }

    constructor (n: nat, unused: K)
      requires n > 0
      ensures Valid() && fresh(slots) && slots.Length == n && log == []
    {
      slots := new Slot<K>[n](_ => Slot(Stamp(unused, 0), false));
      next := 0;
      log := [];
    }

    lemma SlotVisible(j: nat)
      requires Valid() && j < slots.Length && slots[j].valid
      ensures Visible(log, slots.Length, slots[j].stamp)
    {
      var d := if |log| < slots.Length then j
               else if next <= j then j - next
               else slots.Length - next + j;
      assert Held()[d] == slots[j];
      assert log[|log| - |Held()| + d] == slots[j].stamp;
    }

    lemma VisibleSlot(s: Stamp<K>) returns (j: nat)
      requires Valid() && Visible(log, slots.Length, s)
      ensures j < slots.Length && slots[j].valid && slots[j].stamp == s
    {
      var i :| |log| - slots.Length <= i < |log| && 0 <= i && log[i] == s;
      var full, held := |log| >= slots.Length, Held();
      var d := i - (|log| - |held|);
      assert held[d] == Slot(s, true);
      if full && next + d >= slots.Length {
        j := next + d - slots.Length;
        assert held[d] == slots[..next][j];
      } else {
        j := if full then next + d else d;
        assert full ==> held[d] == slots[next..][d];
      }
    }

    method Lookup(key: K, epoch: int) returns (found: bool)
      requires Valid()
      ensures found <==> Visible(log, slots.Length, Stamp(key, epoch))
    {
      found := false;
      var i := 0;
      while i < slots.Length
        invariant 0 <= i <= slots.Length
        invariant forall j :: 0 <= j < i ==> !(slots[j].valid && slots[j].stamp == Stamp(key, epoch))
      {
        if slots[i].valid && slots[i].stamp.epoch == epoch && slots[i].stamp.key == key {
          SlotVisible(i);
          return true;
        }
        i := i + 1;
      }
      if Visible(log, slots.Length, Stamp(key, epoch)) {
        ghost var j := VisibleSlot(Stamp(key, epoch));
      }
    }

    method Insert(key: K, epoch: int)
      requires Valid()
      modifies this, slots
      ensures Valid()
      ensures log == Inserted(old(log), slots.Length, Stamp(key, epoch))
    {
      var found := Lookup(key, epoch);
      if found {
        return;
      }
      ghost var held, content := Held(), slots[..];
      var slot := next;
      if slot < 0 || slot >= slots.Length {
        slot := 0;
      }
      slots[slot] := Slot(Stamp(key, epoch), true);
      next := (slot + 1) % slots.Length;
      log := log + [Stamp(key, epoch)];
      assert next == if slot + 1 == slots.Length then 0 else slot + 1;
      assert slots[..] == content[slot := Slot(Stamp(key, epoch), true)];
      UnrolledInsert(content, slot, |old(log)| >= slots.Length, Slot(Stamp(key, epoch), true));
      HoldsNext(held, old(log), Stamp(key, epoch));
    }
  }

  // ------------------------------------------------------------------
  // The file rings: a zero file id is never cached
  // ------------------------------------------------------------------

  datatype FileKey = FileKey(fileId: nat, volumeId: nat)

  method FileLookup(ring: Ring<FileKey>, fileId: nat, volumeId: nat, epoch: int) returns (found: bool)
    requires ring.Valid()
    ensures found <==> fileId != 0
                       && Visible(ring.log, ring.slots.Length, Stamp(FileKey(fileId, volumeId), epoch))
  {
    if fileId == 0 {
      return false;
    }
    found := ring.Lookup(FileKey(fileId, volumeId), epoch);
  }

  method FileInsert(ring: Ring<FileKey>, fileId: nat, volumeId: nat, epoch: int)
    requires ring.Valid()
    modifies ring, ring.slots
    ensures ring.Valid()
    ensures ring.log == if fileId == 0 then old(ring.log)
                        else Inserted(old(ring.log), ring.slots.Length, Stamp(FileKey(fileId, volumeId), epoch))
  {
    if fileId == 0 {
      return;
    }
    ring.Insert(FileKey(fileId, volumeId), epoch);
  }
}
