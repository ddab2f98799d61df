/**
 * Channel slots seen as values, and what the logger's loops do to them:
 * the level-gated fan-out of Logger.log (Logger.java:136-143), the slot
 * write of LinkedStream.write (Logger.java:221-229) and one pass of the
 * flusher over the dirty slots (Logger.java:265-271, 275-281).
 *
 * A BufferedOutputStream is seen through two strings: the bytes it has
 * accepted and not yet flushed, and the bytes a flush has handed to the
 * stream it wraps. An IOException comes from an oracle: which byte of a
 * record a channel's stream refuses, or whether a flush fails.
 */
module Routing {
  import opened Options
  import opened Levels

  /** An IOException raised by a channel's stream; its content is opaque. */
  datatype IoError = IoError(message: string)

  /** The stream throws `error` when it is asked to accept byte `atByte` of a record. */
  datatype Fault = Fault(atByte: nat, error: IoError)

  /** A BufferedOutputStream: bytes accepted and not yet flushed, bytes handed on by flushes. */
  datatype Buf = Buf(pending: string, sent: string)

  /** A LinkedStream: its wrapped stream (if bound), its threshold and its dirty flag. */
  datatype Slot = Slot(stream: Option<Buf>, maxLevel: Level, dirty: bool)

  /** A slot as the LinkedStream constructor leaves it (Logger.java:217-219). */
  const Unbound: Slot := Slot(None, INFO, false)

  // ---------------------------------------------------------------------
  // Routing
  // ---------------------------------------------------------------------

  /** The threshold test of Logger.java:137: the slot is skipped when its threshold ranks above the level. */
  predicate Admits(s: Slot, level: Level)
    ensures s.maxLevel == level ==> Admits(s, level)
    ensures level == FATAL ==> Admits(s, level)
  {
    Rank(s.maxLevel) <= Rank(level)
  }

  /** A slot receives a record iff it is bound and its threshold is met. */
  predicate Receives(s: Slot, level: Level)
    ensures Receives(s, level) ==> s.stream.Some?
    ensures s.stream.Some? && s.maxLevel == level ==> Receives(s, level)
  {
    s.stream.Some? && Admits(s, level)
  }

  /** The part of the record a stream accepts before it throws, if it throws. */
  function Accepted(rec: string, f: Option<Fault>): (r: string)
    ensures r <= rec
    ensures f.None? ==> r == rec
  {
    if f.Some? && f.value.atByte < |rec| then rec[..f.value.atByte] else rec
  }

  /** The exception the write of `rec` raises, if any. */
  function Thrown(rec: string, f: Option<Fault>): (r: Option<IoError>)
    ensures r.None? <==> Accepted(rec, f) == rec
  {
    if f.Some? && f.value.atByte < |rec| then Some(f.value.error) else None
  }

  /** The exception LinkedStream.write raises on this slot: none on an unbound slot. */
  function SlotThrown(s: Slot, rec: string, f: Option<Fault>): Option<IoError>
  {
    if s.stream.None? then None else Thrown(rec, f)
  }

  /**
   * LinkedStream.write(byte[]): an unbound slot is left alone; a bound one
   * appends the bytes it accepts to its buffer and, when no byte was
   * refused, raises its dirty flag (the flag is set after the loop, so a
   * write that throws leaves it as it was).
   */
  function Written(s: Slot, rec: string, f: Option<Fault>): (r: Slot)
    ensures r.maxLevel == s.maxLevel && r.stream.Some? == s.stream.Some?
    ensures s.stream.Some? ==> r.stream.value.sent == s.stream.value.sent
  {
    match s.stream
    case None => s
    case Some(b) =>
      Slot(Some(b.(pending := b.pending + Accepted(rec, f))), s.maxLevel,
           if Thrown(rec, f).Some? then s.dirty else true)
  }

  /** One iteration of the fan-out loop of Logger.log. */
  function Deliver(s: Slot, level: Level, rec: string, f: Option<Fault>): (r: Slot)
    ensures r.maxLevel == s.maxLevel && r.stream.Some? == s.stream.Some?
    ensures s.dirty ==> r.dirty
  {
    if Admits(s, level) then Written(s, rec, f) else s
  }

  /** The slots after the fan-out loop: every slot is visited, whatever happened to the others. */
  function Fanout(slots: seq<Slot>, level: Level, rec: string, fault: nat -> Option<Fault>): (r: seq<Slot>)
    ensures |r| == |slots|
    ensures forall j :: 0 <= j < |r| ==> r[j] == Deliver(slots[j], level, rec, fault(j))
  {
    seq(|slots|, j requires 0 <= j < |slots| => Deliver(slots[j], level, rec, fault(j)))
  }

  /** The slots after the fan-out loop has visited slots 0 .. k-1. */
  function FanoutUpTo(slots: seq<Slot>, level: Level, rec: string, fault: nat -> Option<Fault>, k: nat): (r: seq<Slot>)
    requires k <= |slots|
    ensures |r| == |slots|
    ensures forall j :: 0 <= j < k ==> r[j] == Deliver(slots[j], level, rec, fault(j))
    ensures forall j :: k <= j < |slots| ==> r[j] == slots[j]
  {
    if k == 0 then slots
    else FanoutUpTo(slots, level, rec, fault, k - 1)[k - 1 := Deliver(slots[k - 1], level, rec, fault(k - 1))]
  }

  /** Once the loop has visited every slot, the result is the fan-out. */
  lemma FanoutComplete(slots: seq<Slot>, level: Level, rec: string, fault: nat -> Option<Fault>)
    ensures FanoutUpTo(slots, level, rec, fault, |slots|) == Fanout(slots, level, rec, fault)
  {
  }

  /** The write to slot j during the fan-out raises an exception. */
  predicate Fails(slots: seq<Slot>, level: Level, rec: string, fault: nat -> Option<Fault>, j: nat)
    requires j < |slots|
  {
    Admits(slots[j], level) && SlotThrown(slots[j], rec, fault(j)).Some?
  }

  /** The last-error slot after one iteration of the fan-out loop: a failing write overwrites it. */
  function ErrorStep(s: Slot, level: Level, rec: string, f: Option<Fault>, prev: Option<IoError>): (r: Option<IoError>)
    ensures r == prev || (Receives(s, level) && f.Some? && r == Some(f.value.error))
    ensures prev.Some? ==> r.Some?
  {
    if Admits(s, level) && SlotThrown(s, rec, f).Some? then SlotThrown(s, rec, f) else prev
  }

  /** The last-error slot after the fan-out loop has visited slots 0 .. k-1. */
  function ErrorAfter(slots: seq<Slot>, level: Level, rec: string, fault: nat -> Option<Fault>,
                      prev: Option<IoError>, k: nat): (r: Option<IoError>)
    requires k <= |slots|
    ensures prev.Some? ==> r.Some?
  {
    if k == 0 then prev
    else ErrorStep(slots[k - 1], level, rec, fault(k - 1), ErrorAfter(slots, level, rec, fault, prev, k - 1))
  }

  /**
   * Delivery follows the routing rule: a slot that receives the record (and
   * does not throw) has the whole record appended and becomes dirty; any
   * other slot is left exactly as it was.
   */
  lemma RoutingRule(s: Slot, level: Level, rec: string, f: Option<Fault>)
    ensures !Receives(s, level) ==> Deliver(s, level, rec, f) == s
    ensures Receives(s, level) && f.None? ==>
      Deliver(s, level, rec, f) ==
        s.(stream := Some(s.stream.value.(pending := s.stream.value.pending + rec)), dirty := true)
  {
  }

  /** A slot that receives a message at one level receives every message at a level ranked at least as high. */
  lemma RoutingMonotone(s: Slot, low: Level, high: Level)
    requires Rank(low) <= Rank(high)
    ensures Receives(s, low) ==> Receives(s, high)
  {
  }

  /**
   * What happens on one slot depends on that slot's own outcome only: a
   * failure elsewhere neither skips nor changes the delivery to slot m.
   */
  lemma FanoutIsolatesFailures(slots: seq<Slot>, level: Level, rec: string,
                               f1: nat -> Option<Fault>, f2: nat -> Option<Fault>, m: nat)
    requires m < |slots|
    requires f1(m) == f2(m)
    ensures Fanout(slots, level, rec, f1)[m] == Fanout(slots, level, rec, f2)[m]
  {
  }

  /** When no write of the fan-out fails, the last-error slot keeps its previous content. */
  lemma {:induction false} ErrorAfterWithoutFailure(slots: seq<Slot>, level: Level, rec: string,
                                                    fault: nat -> Option<Fault>, prev: Option<IoError>, k: nat)
    requires k <= |slots|
    requires forall j :: 0 <= j < k ==> !Fails(slots, level, rec, fault, j)
    ensures ErrorAfter(slots, level, rec, fault, prev, k) == prev
  {
    if k > 0 {
      assert !Fails(slots, level, rec, fault, k - 1);
      ErrorAfterWithoutFailure(slots, level, rec, fault, prev, k - 1);
    }
  }

  /**
   * The last-error slot holds the exception of the last slot whose write
   * failed: a failure overwrites any earlier one.
   */
  lemma {:induction false} ErrorAfterLastFailure(slots: seq<Slot>, level: Level, rec: string,
                                                 fault: nat -> Option<Fault>, prev: Option<IoError>, j: nat, k: nat)
    requires j < k <= |slots|
    requires Fails(slots, level, rec, fault, j)
    requires forall m :: j < m < k ==> !Fails(slots, level, rec, fault, m)
    ensures ErrorAfter(slots, level, rec, fault, prev, k) == SlotThrown(slots[j], rec, fault(j))
  {
    if k > j + 1 {
      assert !Fails(slots, level, rec, fault, k - 1);
      ErrorAfterLastFailure(slots, level, rec, fault, prev, j, k - 1);
    }
  }

  /**
   * A write that throws part-way keeps the bytes accepted so far but leaves
   * the dirty flag as it was: on a clean slot they wait, unflagged, for the
   * next successful write.
   */
  lemma PartialWriteLeavesSlotClean(s: Slot, level: Level, rec: string, f: Option<Fault>)
    requires Receives(s, level) && f.Some? && f.value.atByte < |rec|
    ensures Deliver(s, level, rec, f) ==
      s.(stream := Some(s.stream.value.(pending := s.stream.value.pending + rec[..f.value.atByte])))
  {
  }

  // ---------------------------------------------------------------------
  // Flushing
  // ---------------------------------------------------------------------

  /** A dirty slot without a stream: the flusher clears its flag and then dereferences null. */
  predicate NullDirty(s: Slot)
  {
    s.dirty && s.stream.None?
  }

  /**
   * One slot's step of the flush pass: a clean slot is untouched; a dirty
   * one has its flag cleared and, unless the flush throws (the exception is
   * swallowed), its buffered bytes handed on to the wrapped stream.
   */
  function FlushSlot(s: Slot, fails: bool): (r: Slot)
    ensures !r.dirty && r.maxLevel == s.maxLevel
  {
    if !s.dirty then s
    else match s.stream
      case None => s.(dirty := false)
      case Some(b) => s.(dirty := false, stream := if fails then s.stream else Some(Buf([], b.sent + b.pending)))
  }

  /** The index at which the pass stops on a NullPointerException, or |slots| when it completes. */
  function FlushStop(slots: seq<Slot>): (k: nat)
    ensures k <= |slots|
    ensures forall j :: 0 <= j < k ==> !NullDirty(slots[j])
    ensures k < |slots| ==> NullDirty(slots[k])
  {
    if slots == [] then 0
    else if NullDirty(slots[0]) then 0
    else 1 + FlushStop(slots[1..])
  }

  /** The slots after one pass: every slot up to and including the stopping one has been visited. */
  function Flushed(slots: seq<Slot>, fails: nat -> bool): (r: seq<Slot>)
    ensures |r| == |slots|
    ensures forall j :: FlushStop(slots) < j < |slots| ==> r[j] == slots[j]
  {
    seq(|slots|, j requires 0 <= j < |slots| =>
      if j <= FlushStop(slots) then FlushSlot(slots[j], fails(j)) else slots[j])
  }

  /**
   * Flushing a slot clears its flag, touches a clean slot not at all, and
   * neither loses nor duplicates bytes: what was sent plus what is pending
   * is the same before and after; a successful flush leaves nothing pending.
   */
  lemma FlushSlotSpec(s: Slot, fails: bool)
    ensures !FlushSlot(s, fails).dirty
    ensures !s.dirty ==> FlushSlot(s, fails) == s
    ensures FlushSlot(s, fails).maxLevel == s.maxLevel
    ensures FlushSlot(s, fails).stream.Some? == s.stream.Some?
    ensures s.stream.Some? ==>
      var b, b' := s.stream.value, FlushSlot(s, fails).stream.value;
      b'.sent + b'.pending == b.sent + b.pending &&
      (s.dirty && !fails ==> b'.pending == [])
  {
  }

  /**
   * A pass that completes leaves every slot clean, and hands on the bytes of
   * exactly the slots that were dirty and whose flush did not fail.
   */
  lemma {:induction false} CompletedPassCleansAll(slots: seq<Slot>, fails: nat -> bool)
    requires FlushStop(slots) == |slots|
    ensures forall j :: 0 <= j < |slots| ==> !Flushed(slots, fails)[j].dirty
    ensures forall j :: 0 <= j < |slots| && !slots[j].dirty ==> Flushed(slots, fails)[j] == slots[j]
    ensures forall j :: 0 <= j < |slots| && slots[j].dirty && !fails(j) ==>
      Flushed(slots, fails)[j].stream ==
        Some(Buf([], slots[j].stream.value.sent + slots[j].stream.value.pending))
  {
    forall j | 0 <= j < |slots|
      ensures !Flushed(slots, fails)[j].dirty
      ensures !slots[j].dirty ==> Flushed(slots, fails)[j] == slots[j]
    {
      FlushSlotSpec(slots[j], fails(j));
    }
  }
}
