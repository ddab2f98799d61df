/**
 * The Logger object and the objects it owns (Logger.java): a fixed array of
 * channel slots, each holding an optional BufferedOutputStream around a
 * caller's sink, a threshold and a dirty flag; the single last-error slot;
 * the line-accumulating LogStream that feeds lines back into log.
 *
 * Sinks are only ever compared by identity, so a sink is any object. The
 * ghost field Slots is the value view of the slot array (see Routing), and
 * Repr is the set of objects the logger owns.
 */
module Logging {
  import opened Options
  import opened Levels
  import opened Format
  import opened Routing
  import opened Lines

  /** How a call that may throw NullPointerException ends. */
  datatype Outcome = Ok | NullPointer(message: string)

  /**
   * What the environment supplies to one log call: the formatted wall-clock
   * time, the calling thread's name, and for each slot index whether (and at
   * which byte) that channel's stream throws an IOException.
   */
  datatype Env = Env(timestamp: string, thread: string, fault: nat -> Option<Fault>)

  /** The BufferedOutputStream that linkStream wraps around a sink. */
  class Buffered {
    /** The caller's stream this one writes through to. */
    const target: object
    /** Bytes accepted and not yet flushed. */
    var pending: string
    /** Bytes handed to the target by flushes. */
    var sent: string

    constructor (target: object)
      ensures this.target == target && pending == [] && sent == []
    {
      this.target := target;
      pending := [];
      sent := [];
    }

    /** write(int): accept one byte, or throw `refusal` without accepting it. */
    method Put(c: char, refusal: Option<IoError>) returns (thrown: Option<IoError>)
      modifies this
      ensures thrown == refusal
      ensures sent == old(sent)
      ensures pending == if refusal.None? then old(pending) + [c] else old(pending)
    {
      thrown := refusal;
      if refusal.None? {
        pending := pending + [c];
      }
    }

    /** flush(): hand the buffered bytes to the target; when it fails they stay buffered. */
    method Flush(fails: bool)
      modifies this
      ensures fails ==> pending == old(pending) && sent == old(sent)
      ensures !fails ==> pending == [] && sent == old(sent) + old(pending)
    {
      if !fails {
        sent := sent + pending;
        pending := [];
      }
    }
  }

  /** Logger.LinkedStream: one channel slot. */
  class LinkedStream {
    var stream: Buffered?
    var maxLevel: Level
    var flush: bool

    /** A new slot is unbound, has threshold INFO and is clean (Logger.java:217-219). */
    constructor ()
      ensures stream == null && maxLevel == INFO && !flush
      ensures View() == Unbound
    {
      stream := null;
      maxLevel := INFO;
      flush := false;
    }

    /** The slot as a value. */
    ghost function View(): Slot
      reads this, stream
    {
      Slot(if stream == null then None else Some(Buf(stream.pending, stream.sent)), maxLevel, flush)
    }

    /**
     * write(byte[]): nothing on an unbound slot; otherwise the bytes go to
     * the stream one at a time, and the dirty flag is raised once all of
     * them are accepted. An exception ends the write with the flag as it was.
     */
    method Write(b: string, fault: Option<Fault>) returns (thrown: Option<IoError>)
      modifies this, stream
      ensures stream == old(stream)
      ensures View() == Written(old(View()), b, fault)
      ensures thrown == SlotThrown(old(View()), b, fault)
    {
      if stream == null {
        return None;
      }
      var i := 0;
      while i < |b|
        invariant 0 <= i <= |b|
        invariant stream == old(stream) && maxLevel == old(maxLevel) && flush == old(flush)
        invariant stream.pending == old(stream.pending) + b[..i] && stream.sent == old(stream.sent)
        invariant fault.Some? ==> i <= fault.value.atByte
      {
        var refusal := if fault.Some? && fault.value.atByte == i then Some(fault.value.error) else None;
        thrown := stream.Put(b[i], refusal);
        if thrown.Some? {
          return;
        }
        assert b[..i + 1] == b[..i] + [b[i]];
        i := i + 1;
      }
      assert b[..i] == b;
      flush := true;
      thrown := None;
    }
  }

  /**
   * The loop of the Logger constructor: n fresh unbound slots. `index`
   * gives each its position, so they are pairwise distinct, and `repr`
   * holds them all.
   */
  method NewChannels(n: nat) returns (made: seq<LinkedStream>, ghost index: map<object, nat>, ghost repr: set<object>)
    ensures |made| == n && fresh(repr)
    ensures forall k :: 0 <= k < n ==>
      made[k] in repr && made[k].stream == null && made[k].View() == Unbound &&
      made[k] in index && index[made[k]] == k
  {
    made, index, repr := [], map[], {};
    var i := 0;
    while i < n
      invariant 0 <= i <= n && |made| == i && fresh(repr)
      invariant forall k :: 0 <= k < i ==>
        made[k] in repr && made[k].stream == null && made[k].View() == Unbound &&
        made[k] in index && index[made[k]] == k
    {
      var c := new LinkedStream();
      made, index, repr := made + [c], index[c := i], repr + {c};
      i := i + 1;
    }
  }

  /**
   * Where linkStream's scan over the stored streams `ws` stops, from slot
   * `from` on: at the first slot holding exactly `out`, or the first
   * unbound one; |ws| when there is neither.
   */
  function LinkSpot(ws: seq<Buffered?>, out: object, from: nat): (k: nat)
    requires from <= |ws|
    ensures from <= k <= |ws|
    ensures forall j :: from <= j < k ==> ws[j] != null && ws[j] != out
    ensures k < |ws| ==> ws[k] == null || ws[k] == out
    decreases |ws| - from
  {
    if from == |ws| then from
    else if ws[from] == out || ws[from] == null then from
    else LinkSpot(ws, out, from + 1)
  }

  class Logger {
    /** The slot array; neither it nor its length is ever replaced. */
    const channels: array<LinkedStream>
    /** The single deferred-error slot. */
    var lastError: Option<IoError>

    /** The slots as values. */
    ghost var Slots: seq<Slot>
    /** The stream each slot holds, by identity. */
    ghost var Wrappers: seq<Buffered?>
    ghost var Repr: set<object>
    /** The slot index of each slot object and of each bound wrapper; it makes them pairwise distinct. */
    ghost var Index: map<object, nat>

    ghost predicate Valid()
      reads this, Repr
    {
      this in Repr && channels in Repr &&
      |Slots| == channels.Length && |Wrappers| == channels.Length &&
      (forall i :: 0 <= i < channels.Length ==>
        channels[i] in Repr && channels[i] in Index && Index[channels[i]] == i &&
        channels[i].stream == Wrappers[i]) &&
      (forall i :: 0 <= i < |Wrappers| && Wrappers[i] != null ==>
        Wrappers[i] in Repr && Wrappers[i] in Index && Index[Wrappers[i] as object] == i) &&
      (forall i :: 0 <= i < channels.Length ==> Slots[i] == channels[i].View())
    }

    /** Logger(int): n slots, each unbound with threshold INFO and clean; no error recorded. */
    constructor (n: nat)
      ensures Valid() && fresh(Repr)
      ensures channels.Length == n && lastError == None
      ensures Slots == seq(n, _ => Unbound) && Wrappers == seq(n, _ => null)
    {
      var made, index, repr := NewChannels(n);
      channels := new LinkedStream[n](k requires 0 <= k < n => made[k]);
      lastError := None;
      Slots := seq(n, _ => Unbound);
      Wrappers := seq(n, _ => null);
      Repr := {this, channels} + repr;
      Index := index;
    }

    /**
     * linkStream(out, maxLogLevel): a null argument throws before anything
     * changes. Otherwise the slots are scanned in order; the scan stops at
     * the first slot whose stored stream is `out` itself (nothing changes)
     * or at the first unbound slot, which receives a fresh wrapper around
     * `out` and the threshold. With no such slot nothing changes. The
     * stored stream is the wrapper, never `out`, so a sink linked here is
     * never recognised as already linked.
     */
    method LinkStream(out: object?, maxLogLevel: Option<Level>) returns (r: Outcome)
      requires Valid()
      modifies Repr
      ensures Valid() && fresh(Repr - old(Repr)) && lastError == old(lastError)
      ensures out == null ==> r == NullPointer("Cannot link null stream")
      ensures out != null && maxLogLevel.None? ==> r == NullPointer("Cannot use null log level")
      ensures out != null && maxLogLevel.Some? ==> r == Ok
      ensures r.NullPointer? ==> Slots == old(Slots) && Wrappers == old(Wrappers)
      ensures out != null && maxLogLevel.Some? ==>
        (var k := LinkSpot(old(Wrappers), out, 0);
         if k < channels.Length && old(Wrappers)[k] == null then
           Wrappers[k] != null && fresh(Wrappers[k]) && Wrappers[k].target == out &&
           Wrappers == old(Wrappers)[k := Wrappers[k]] &&
           Slots == old(Slots)[k := old(Slots)[k].(stream := Some(Buf([], [])), maxLevel := maxLogLevel.value)]
         else
           Slots == old(Slots) && Wrappers == old(Wrappers))
    {
      if out == null {
        return NullPointer("Cannot link null stream");
      }
      if maxLogLevel.None? {
        return NullPointer("Cannot use null log level");
      }
      var i := 0;
      while i < channels.Length
        invariant 0 <= i <= channels.Length
        invariant Valid() && Repr == old(Repr) && lastError == old(lastError)
        invariant Slots == old(Slots) && Wrappers == old(Wrappers)
        invariant LinkSpot(Wrappers, out, 0) == LinkSpot(Wrappers, out, i)
      {
        var channel := channels[i];
        if channel.stream == out {
          return Ok;
        }
        if channel.stream != null {
          i := i + 1;
          continue;
        }
        Bind(i, out, maxLogLevel.value);
        return Ok;
      }
      return Ok;
    }

    /** The install step of linkStream: unbound slot i gets a fresh wrapper around `out` and the threshold. */
    method Bind(i: nat, out: object, level: Level)
      requires Valid() && i < channels.Length && Wrappers[i] == null
      modifies this, channels[i]
      ensures Valid() && fresh(Repr - old(Repr)) && lastError == old(lastError)
      ensures Wrappers[i] != null && fresh(Wrappers[i]) && Wrappers[i].target == out
      ensures Wrappers == old(Wrappers)[i := Wrappers[i]]
      ensures Slots == old(Slots)[i := old(Slots)[i].(stream := Some(Buf([], [])), maxLevel := level)]
    {
      var channel := channels[i];
      var w := new Buffered(out);
      channel.stream := w;
      channel.maxLevel := level;
      Repr := Repr + {w};
      Index := Index[w := i];
      Wrappers := Wrappers[i := w];
      Slots := Slots[i := channel.View()];
      forall j | 0 <= j < channels.Length && j != i
        ensures channels[j].View() == old(channels[j].View())
      {
        assert channels[j] != channel;
      }
    }

    /**
     * unlinkStream(out): a null argument throws; otherwise every slot whose
     * stored stream is `out` itself becomes unbound. Thresholds, flags and
     * the buffered bytes of the detached wrapper are left as they are.
     */
    method UnlinkStream(out: object?) returns (r: Outcome)
      requires Valid()
      modifies Repr
      ensures Valid() && Repr == old(Repr) && lastError == old(lastError)
      ensures r == if out == null then NullPointer("Cannot index null stream") else Ok
      ensures |Wrappers| == |old(Wrappers)| && |Slots| == |old(Slots)|
      ensures forall j :: 0 <= j < |Wrappers| ==>
        Wrappers[j] == if out != null && old(Wrappers)[j] == out then null else old(Wrappers)[j]
      ensures forall j :: 0 <= j < |Slots| ==>
        Slots[j] == if out != null && old(Wrappers)[j] == out then old(Slots)[j].(stream := None) else old(Slots)[j]
    {
      if out == null {
        return NullPointer("Cannot index null stream");
      }
      ghost var w0, s0 := Wrappers, Slots;
      var i := 0;
      while i < channels.Length
        invariant 0 <= i <= channels.Length
        invariant Valid() && Repr == old(Repr) && lastError == old(lastError)
        invariant forall j :: 0 <= j < |Wrappers| ==>
          Wrappers[j] == if j < i && w0[j] == out then null else w0[j]
        invariant forall j :: 0 <= j < |Slots| ==>
          Slots[j] == if j < i && w0[j] == out then s0[j].(stream := None) else s0[j]
      {
        if channels[i].stream == out {
          Unbind(i);
        }
        i := i + 1;
      }
      return Ok;
    }

    /** The unbinding step of unlinkStream: slot i loses its stream and keeps everything else. */
    method Unbind(i: nat)
      requires Valid() && i < channels.Length
      modifies this, channels[i]
      ensures Valid() && Repr == old(Repr) && lastError == old(lastError)
      ensures Wrappers == old(Wrappers)[i := null]
      ensures Slots == old(Slots)[i := old(Slots)[i].(stream := None)]
    {
      var channel := channels[i];
      channel.stream := null;
      Wrappers := Wrappers[i := null];
      Slots := Slots[i := channel.View()];
      forall j | 0 <= j < channels.Length && j != i
        ensures channels[j].View() == old(channels[j].View())
      {
        assert channels[j] != channel;
      }
    }

    /** pullError(): the recorded error, which is cleared. */
    method PullError() returns (t: Option<IoError>)
      requires Valid()
      modifies this
      ensures Valid() && Repr == old(Repr) && Slots == old(Slots) && Wrappers == old(Wrappers)
      ensures t == old(lastError) && lastError == None
    {
      t := lastError;
      lastError := None;
    }

    /**
     * log(level, msg, params): the record is built from the template, then
     * every slot is visited in order; a slot whose threshold ranks above the
     * level is skipped, every other one is written to, and an IOException
     * from a write is stored in the last-error slot without stopping the loop.
     */
    method Log(level: Level, msg: string, params: seq<string>, env: Env)
      requires Valid()
      modifies Repr
      ensures Valid() && Repr == old(Repr) && Wrappers == old(Wrappers)
      ensures var rec := Record(env.timestamp, env.thread, level, msg, params);
        Slots == Fanout(old(Slots), level, rec, env.fault) &&
        lastError == ErrorAfter(old(Slots), level, rec, env.fault, old(lastError), channels.Length)
    {
      var body := SubstituteParams(msg, params);
      var rec := Line(env.timestamp, env.thread, level, body);
      Broadcast(level, rec, env.fault);
    }

    /** The fan-out loop of log over a finished record. */
    method Broadcast(level: Level, rec: string, fault: nat -> Option<Fault>)
      requires Valid()
      modifies Repr
      ensures Valid() && Repr == old(Repr) && Wrappers == old(Wrappers)
      ensures Slots == Fanout(old(Slots), level, rec, fault)
      ensures lastError == ErrorAfter(old(Slots), level, rec, fault, old(lastError), channels.Length)
    {
      ghost var s0, e0 := Slots, lastError;
      var i := 0;
      while i < channels.Length
        invariant 0 <= i <= channels.Length
        invariant Valid() && Repr == old(Repr) && Wrappers == old(Wrappers)
        invariant Slots == FanoutUpTo(s0, level, rec, fault, i)
        invariant lastError == ErrorAfter(s0, level, rec, fault, e0, i)
      {
        WriteChannel(i, level, rec, fault(i));
        i := i + 1;
      }
      FanoutComplete(s0, level, rec, fault);
    }

    /** One iteration of log's loop: slot i is written to when its threshold admits the level. */
    method WriteChannel(i: nat, level: Level, rec: string, f: Option<Fault>)
      requires Valid() && i < channels.Length
      modifies this, channels[i], channels[i].stream
      ensures Valid() && Repr == old(Repr) && Wrappers == old(Wrappers)
      ensures Slots == old(Slots)[i := Deliver(old(Slots)[i], level, rec, f)]
      ensures lastError == ErrorStep(old(Slots)[i], level, rec, f, old(lastError))
    {
      var channel := channels[i];
      if Rank(channel.maxLevel) > Rank(level) {
        return;
      }
      var thrown := channel.Write(rec, f);
      if thrown.Some? {
        lastError := thrown;
      }
      Slots := Slots[i := channel.View()];
      forall j | 0 <= j < channels.Length && j != i
        ensures channels[j].View() == old(channels[j].View())
      {
        assert channels[j] != channel;
      }
    }

    /**
     * One pass of the flusher (LogFlusher.run's loop body, and forceFlush):
     * each dirty slot has its flag cleared and its stream flushed, a failing
     * flush being ignored. A dirty slot without a stream raises
     * NullPointerException right after its flag is cleared, which ends the
     * pass; `stoppedAt` is that slot.
     */
    method FlushPass(fails: nat -> bool) returns (stoppedAt: Option<nat>)
      requires Valid()
      modifies Repr
      ensures Valid() && Repr == old(Repr) && lastError == old(lastError) && Wrappers == old(Wrappers)
      ensures Slots == Flushed(old(Slots), fails)
      ensures stoppedAt == if FlushStop(old(Slots)) < channels.Length then Some(FlushStop(old(Slots))) else None
    {
      ghost var s0 := Slots;
      var i := 0;
      while i < channels.Length
        invariant 0 <= i <= channels.Length
        invariant Valid() && Repr == old(Repr) && lastError == old(lastError) && Wrappers == old(Wrappers)
        invariant forall j :: 0 <= j < i ==> !NullDirty(s0[j])
        invariant forall j :: 0 <= j < |Slots| ==> Slots[j] == if j < i then FlushSlot(s0[j], fails(j)) else s0[j]
      {
        var npe := FlushChannel(i, fails(i));
        if npe {
          assert FlushStop(s0) == i;
          assert Slots == Flushed(s0, fails);
          return Some(i);
        }
        i := i + 1;
      }
      assert FlushStop(s0) == channels.Length;
      assert Slots == Flushed(s0, fails);
      return None;
    }

    /**
     * One iteration of the flusher's loop on slot i: a dirty slot has its
     * flag cleared, then its stream flushed; `npe` says the stream was null.
     */
    method FlushChannel(i: nat, fails: bool) returns (npe: bool)
      requires Valid() && i < channels.Length
      modifies this, channels[i], channels[i].stream
      ensures Valid() && Repr == old(Repr) && lastError == old(lastError) && Wrappers == old(Wrappers)
      ensures npe == NullDirty(old(Slots)[i])
      ensures Slots == old(Slots)[i := FlushSlot(old(Slots)[i], fails)]
    {
      var s := channels[i];
      npe := false;
      if s.flush {
        s.flush := false;
        if s.stream == null {
          npe := true;
        } else {
          s.stream.Flush(fails);
        }
        Slots := Slots[i := s.View()];
        forall j | 0 <= j < channels.Length && j != i
          ensures channels[j].View() == old(channels[j].View())
        {
          assert channels[j] != s;
        }
      }
    }
  }

  /** Logger.LogStream: turns the bytes written to it into log calls at a fixed level. */
  class LogStream {
    const logger: Logger
    const logLevel: Level
    /** The line accumulated so far; absent when nothing is pending. */
    var line: Option<string>

    ghost predicate Valid()
      reads this, logger
    {
      PendingOk(line) && this !in logger.Repr
    }

    constructor (logger: Logger, level: Level)
      ensures this.logger == logger && logLevel == level && line == None
      ensures Valid()
    {
      this.logger := logger;
      logLevel := level;
      line := None;
    }

    /**
     * write(int): the pending line evolves as Feed says, and a line it emits
     * is logged at this stream's level exactly as log(level, line) would.
     */
    method Write(b: JByte, env: Env) returns (emitted: Option<string>)
      requires Valid() && logger.Valid()
      modifies this, logger.Repr
      ensures Valid() && logger.Valid() && logger.Repr == old(logger.Repr)
      ensures logger.Wrappers == old(logger.Wrappers)
      ensures Step(emitted, line) == Feed(old(line), b)
      ensures emitted.None? ==> logger.Slots == old(logger.Slots) && logger.lastError == old(logger.lastError)
      ensures emitted.Some? ==>
        var rec := Record(env.timestamp, env.thread, logLevel, emitted.value, []);
        logger.Slots == Fanout(old(logger.Slots), logLevel, rec, env.fault) &&
        logger.lastError == ErrorAfter(old(logger.Slots), logLevel, rec, env.fault, old(logger.lastError),
                                       |old(logger.Slots)|)
    {
      if b == 10 {
        emitted := FlushLine(env);
        return;
      }
      var c := ToChar(b);
      if line.None? {
        line := Some([c]);
      } else {
        line := Some(line.value + [c]);
      }
      if |line.value| == MaxLine {
        emitted := FlushLine(env);
      } else {
        emitted := None;
      }
    }

    /** flushLine(): log the pending line, if any, and reset it. */
    method FlushLine(env: Env) returns (emitted: Option<string>)
      requires logger.Valid() && this !in logger.Repr
      modifies this, logger.Repr
      ensures logger.Valid() && logger.Repr == old(logger.Repr)
      ensures logger.Wrappers == old(logger.Wrappers)
      ensures emitted == old(line) && line == None
      ensures emitted.None? ==> logger.Slots == old(logger.Slots) && logger.lastError == old(logger.lastError)
      ensures emitted.Some? ==>
        var rec := Record(env.timestamp, env.thread, logLevel, emitted.value, []);
        logger.Slots == Fanout(old(logger.Slots), logLevel, rec, env.fault) &&
        logger.lastError == ErrorAfter(old(logger.Slots), logLevel, rec, env.fault, old(logger.lastError),
                                       |old(logger.Slots)|)
    {
      if line.None? {
        return None;
      }
      emitted := line;
      logger.Log(logLevel, line.value, [], env);
      line := None;
    }
  }

  /** Linking one sink twice binds two slots, each through a wrapper of its own. */
  method LinkTwiceTakesTwoSlots(out: object) returns (logger: Logger)
    ensures logger.Valid() && logger.channels.Length == 2
    ensures logger.channels[0].stream != null && logger.channels[1].stream != null
    ensures logger.channels[0].stream.target == out && logger.channels[1].stream.target == out
    ensures logger.channels[0].stream != logger.channels[1].stream
  {
    logger := new Logger(2);
    var r := logger.LinkStream(out, Some(INFO));
    r := logger.LinkStream(out, Some(INFO));
  }

  /** Unlinking a sink that was linked through LinkStream leaves its slot bound. */
  method UnlinkMissesWrappedSink(out: object) returns (logger: Logger)
    ensures logger.Valid() && logger.channels.Length == 1
    ensures logger.channels[0].stream != null && logger.channels[0].stream.target == out
  {
    logger := new Logger(1);
    var r := logger.LinkStream(out, Some(INFO));
    r := logger.UnlinkStream(out);
  }

  /** pullError returns the recorded error once; an immediate second call returns nothing. */
  method PullErrorTwice(logger: Logger) returns (first: Option<IoError>, second: Option<IoError>)
    requires logger.Valid()
    modifies logger
    ensures logger.Valid()
    ensures first == old(logger.lastError) && second == None
  {
    first := logger.PullError();
    second := logger.PullError();
  }
}
