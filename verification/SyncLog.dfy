/** The op log: local emission seeded past the log, remote insertion, and the push queue. */
module SyncLog {
  import opened Wrappers
  import opened Text
  import opened Instants
  import opened Hlc
  import opened HybridClocks
  import opened Library
  import Calendar

  /** A `sync_ops` row. */
  datatype LogRow = LogRow(op: Op, pushed: bool)

  type Log = seq<LogRow>

  // ---------------------------------------------------------------------------
  // The next clock
  // ---------------------------------------------------------------------------

  /** `SELECT MAX(hlc)`. */
  function MaxHlc(log: Log): Option<string>
  {
    if log == [] then None
    else match MaxHlc(log[..|log| - 1])
      case None => Some(log[|log| - 1].op.hlc)
      case Some(m) => Some(if Less(m, log[|log| - 1].op.hlc) then log[|log| - 1].op.hlc else m)
  }

  /** A fresh clock, moved past the greatest clock of the log if that can be parsed. */
  function NextClock(log: Log, prefix: string, wall: nat): ClockState
  {
    match MaxHlc(log)
    case Some(m) =>
      (match FromStr(m)
       case Some(remote) => MergeAt(Fresh(prefix), remote, wall)
       case None => TickAt(Fresh(prefix), wall))
    case None => TickAt(Fresh(prefix), wall)
  }

  function NextHlc(log: Log, prefix: string, wall: nat): HlcTimestamp
  {
    Stamp(NextClock(log, prefix, wall))
  }

  /** The next stamp is never before the wall clock or 1970. In an empty log, or one whose greatest clock cannot
      be read, it shows the wall clock with counter 0, or else 1970 with counter 1. */
  lemma NextFollowsWall(log: Log, prefix: string, wall: nat)
    ensures NextHlc(log, prefix, wall).physical >= wall / NANOS_PER_MILLI * NANOS_PER_MILLI
    ensures NextHlc(log, prefix, wall).physical >= UNIX_EPOCH
    ensures log == [] || FromStr(MaxHlc(log).value).None? ==>
      NextHlc(log, prefix, wall) ==
        if wall / NANOS_PER_MILLI * NANOS_PER_MILLI > UNIX_EPOCH
        then HlcTimestamp(wall / NANOS_PER_MILLI * NANOS_PER_MILLI, 0, prefix)
        else HlcTimestamp(UNIX_EPOCH, 1, prefix)
  {
    hide FromStr;
  }

  /** Above a readable greatest stamp with room in its 16-bit counter, the next one shows the latest of wall clock,
      1970 and that stamp, and counts on exactly if that is the stamp's own time. */
  lemma NextFollowsLog(log: Log, prefix: string, wall: nat)
    requires log != [] && FromStr(MaxHlc(log).value).Some? && FromStr(MaxHlc(log).value).value.counter < 65535
    ensures var n, last := NextHlc(log, prefix, wall), FromStr(MaxHlc(log).value).value;
      && n.physical == Max(Max(wall / NANOS_PER_MILLI * NANOS_PER_MILLI, UNIX_EPOCH), last.physical)
      && n.counter ==
        (if n.physical == last.physical then last.counter + 1
         else if wall / NANOS_PER_MILLI * NANOS_PER_MILLI > UNIX_EPOCH then 0 else 1)
  {
    hide FromStr;
  }

  /** The text of a stamp that can be read back. */
  predicate IsStampText(hlc: string)
  {
    FromStr(hlc).Some? && ToCanonical(FromStr(hlc).value) == hlc
  }

  predicate StampedLog(log: Log)
  {
    forall i :: 0 <= i < |log| ==> IsStampText(log[i].op.hlc)
  }

  /** A text is above every clock of the log. */
  predicate Dominates(hlc: string, log: Log)
  {
    forall i :: 0 <= i < |log| ==> Less(log[i].op.hlc, hlc)
  }

  lemma {:induction false} MaxHlcIsMax(log: Log)
    requires log != []
    ensures MaxHlc(log).Some?
    ensures exists i :: 0 <= i < |log| && log[i].op.hlc == MaxHlc(log).value
    ensures forall i :: 0 <= i < |log| ==> !Less(MaxHlc(log).value, log[i].op.hlc)
  {
    var init, last := log[..|log| - 1], log[|log| - 1].op.hlc;
    LessTrichotomy(last, last);
    if init == [] {
      assert log[0].op.hlc == last;
    } else {
      MaxHlcIsMax(init);
      var m := MaxHlc(init).value;
      forall i | 0 <= i < |log| ensures !Less(MaxHlc(log).value, log[i].op.hlc) {
        if i < |init| {
          assert init[i] == log[i];
          if Less(m, last) && Less(last, log[i].op.hlc) {
            LessTransitive(m, last, log[i].op.hlc);
          }
        }
      }
      if Less(m, last) {
        assert log[|log| - 1].op.hlc == MaxHlc(log).value;
      } else {
        var i :| 0 <= i < |init| && init[i].op.hlc == m;
        assert log[i].op.hlc == MaxHlc(log).value;
      }
    }
  }

  /** A text dominates a nonempty log exactly when it is above the maximum. */
  lemma DominatesMax(hlc: string, log: Log)
    requires log != []
    ensures MaxHlc(log).Some? && (Dominates(hlc, log) <==> Less(MaxHlc(log).value, hlc))
  {
    MaxHlcIsMax(log);
    var m := MaxHlc(log).value;
    if Less(m, hlc) {
      forall i | 0 <= i < |log| ensures Less(log[i].op.hlc, hlc) {
        LessTrichotomy(m, log[i].op.hlc);
        if log[i].op.hlc != m {
          LessTransitive(log[i].op.hlc, m, hlc);
        }
      }
    }
  }

  /** The greatest stamp of a nonempty log. */
  function LastStamp(log: Log): Option<HlcTimestamp>
  {
    if MaxHlc(log).Some? then FromStr(MaxHlc(log).value) else None
  }

  /** The wall clock, read in milliseconds and never before 1970, has passed the log's greatest stamp,
      or that stamp's counter is not the last one of four digits. */
  predicate RoomAbove(log: Log, wall: nat)
  {
    log == [] || LastStamp(log).None? ||
    Max(TruncateToMillis(wall), UNIX_EPOCH) > LastStamp(log).value.physical ||
    LastStamp(log).value.counter != 9999
  }

  /** A wall clock and a log that stay within four-digit years, with no exhausted 16-bit counter. */
  predicate InRange(log: Log, wall: nat)
  {
    && FourDigitMillis(wall / NANOS_PER_MILLI)
    && (log == [] || LastStamp(log).None? || LastStamp(log).value.counter < 65535)
  }

  lemma EpochYear()
    ensures UNIX_EPOCH / NANOS_PER_MILLI == 719_528 * Calendar.MILLIS_PER_DAY && UNIX_EPOCH % NANOS_PER_MILLI == 0
    ensures FourDigitMillis(UNIX_EPOCH / NANOS_PER_MILLI)
  {
    Calendar.YearBound(719_528 * Calendar.MILLIS_PER_DAY);
  }

  lemma MillisOfTruncated(wall: nat)
    ensures TruncateToMillis(wall) / NANOS_PER_MILLI == wall / NANOS_PER_MILLI
  {
  }

  /** What the seeded clock produces above a stamp with room in its 16-bit counter. */
  lemma SeededClock(remote: HlcTimestamp, prefix: string, wall: nat)
    requires remote.counter < 65535
    ensures var n, floor := Stamp(MergeAt(Fresh(prefix), remote, wall)), Max(TruncateToMillis(wall), UNIX_EPOCH);
      if floor > remote.physical then n.physical == floor && n.counter <= 1
      else n.physical == remote.physical && n.counter == remote.counter + 1
    ensures Stamp(MergeAt(Fresh(prefix), remote, wall)).devicePrefix == prefix
  {
  }

  /** The seeded emission rule. In a log of readable stamps, the next local stamp is above every
      clock of the log exactly when there is room: the wall clock has moved on, or the greatest
      counter is not 9999, after which the unpadded text of 10000 sorts below it. */
  lemma EmissionDominates(log: Log, prefix: string, wall: nat)
    requires StampedLog(log) && InRange(log, wall)
    ensures FourDigitYear(NextHlc(log, prefix, wall))
    ensures NextHlc(log, prefix, wall).devicePrefix == prefix
    ensures NextHlc(log, prefix, wall).physical % NANOS_PER_MILLI == 0
    ensures Dominates(ToCanonical(NextHlc(log, prefix, wall)), log) <==> RoomAbove(log, wall)
  {
    hide ToCanonical, FromStr, Less, FourDigitMillis, MergeAt;
    EpochYear();
    MillisOfTruncated(wall);
    if log != [] {
      MaxHlcIsMax(log);
      var i :| 0 <= i < |log| && log[i].op.hlc == MaxHlc(log).value;
      assert IsStampText(log[i].op.hlc);
      var m, n := LastStamp(log).value, NextHlc(log, prefix, wall);
      CanonicalRoundTrip(m);
      SeededClock(m, prefix, wall);
      DominatesMax(ToCanonical(n), log);
      var floor := Max(TruncateToMillis(wall), UNIX_EPOCH);
      if floor > m.physical {
        assert Millis(m) < Millis(n);
        StampOrder(m, n);
      } else {
        SuccessorOrder(m, n);
      }
    }
  }

  /** A stamp with a proper device prefix is readable. */
  lemma NextIsStampText(log: Log, prefix: string, wall: nat)
    requires StampedLog(log) && InRange(log, wall) && ByteLength(prefix) == 12 && HyphenFree(prefix)
    ensures IsStampText(ToCanonical(NextHlc(log, prefix, wall)))
  {
    hide ToCanonical, FromStr, NextHlc;
    EmissionDominates(log, prefix, wall);
    CanonicalRoundTrip(NextHlc(log, prefix, wall));
  }

  // ---------------------------------------------------------------------------
  // Runs of the log
  // ---------------------------------------------------------------------------

  /** The first twelve hexadecimal digits of a UUID. */
  function DevicePrefix(device: Id): (prefix: string)
    ensures HyphenFree(prefix) && |prefix| <= 12
  {
    var hex := WithoutHyphens(device);
    if |hex| < 12 then hex else hex[..12]
  }

  function WithoutHyphens(s: string): (r: string)
    ensures HyphenFree(r)
  {
    if s == [] then [] else (if s[0] == '-' then [] else [s[0]]) + WithoutHyphens(s[1..])
  }

  /** Everything of a local op but its clock and device. */
  datatype Draft = Draft(opId: Id, entity: EntityType, entityId: Id, opType: OpType, fields: Option<Object>,
                         createdAt: string)

  function LocalOp(log: Log, device: Id, d: Draft, wall: nat): Op
  {
    Op(d.opId, device, ToCanonical(NextHlc(log, DevicePrefix(device), wall)), d.entity, d.entityId, d.opType, d.fields,
       d.createdAt)
  }

  /** A local op carries the draft as it is, the device, and the next stamp of the log. It is appended, and waits to
      be pushed. */
  lemma EmittedOpCarriesDraft(log: Log, device: Id, d: Draft, wall: nat)
    ensures var r := Emit(log, device, d, wall);
      && |r| == |log| + 1 && r[..|log|] == log && !r[|log|].pushed
      && r[|log|].op == Op(d.opId, device, r[|log|].op.hlc, d.entity, d.entityId, d.opType, d.fields, d.createdAt)
      && r[|log|].op.hlc == ToCanonical(NextHlc(log, DevicePrefix(device), wall))
  {
    hide ToCanonical, NextHlc, DevicePrefix;
  }

  /** A received op is appended as it is unless its id is known, and needs no push. */
  lemma ReceivedOpIsKept(log: Log, op: Op)
    ensures Receive(log, op) ==
      if exists i :: 0 <= i < |log| && log[i].op.opId == op.opId then log else log + [LogRow(op, true)]
  {
  }

  predicate HasOp(log: Log, opId: Id)
  {
    exists i :: 0 <= i < |log| && log[i].op.opId == opId
  }

  function Emit(log: Log, device: Id, d: Draft, wall: nat): Log
  {
    log + [LogRow(LocalOp(log, device, d, wall), false)]
  }

  /** Duplicates are ignored; received ops need no push. */
  function Receive(log: Log, op: Op): Log
  {
    if HasOp(log, op.opId) then log else log + [LogRow(op, true)]
  }

  function MarkPushed(log: Log, ids: set<Id>): Log
  {
    seq(|log|, i requires 0 <= i < |log| => if log[i].op.opId in ids then log[i].(pushed := true) else log[i])
  }

  datatype LogEvent = Emitted(draft: Draft, wall: nat) | Received(op: Op) | Pushed(ids: set<Id>)

  function StepLog(log: Log, device: Id, e: LogEvent): Log
  {
    match e
    case Emitted(d, wall) => Emit(log, device, d, wall)
    case Received(op) => Receive(log, op)
    case Pushed(ids) => MarkPushed(log, ids)
  }

  function RunLog(log: Log, device: Id, es: seq<LogEvent>): Log
    decreases |es|
  {
    if es == [] then log else RunLog(StepLog(log, device, es[0]), device, es[1..])
  }

  /** Received ops carry readable stamps, and each emission is in range and has room. */
  predicate Orderly(log: Log, device: Id, es: seq<LogEvent>)
    decreases |es|
  {
    es != [] ==>
      && (es[0].Emitted? ==> InRange(log, es[0].wall) && RoomAbove(log, es[0].wall))
      && (es[0].Received? ==> IsStampText(es[0].op.hlc))
      && Orderly(StepLog(log, device, es[0]), device, es[1..])
  }

  /** Every row still to be pushed is above all rows before it. */
  predicate LocalsAscend(log: Log)
  {
    forall i, j :: 0 <= i < j < |log| && !log[j].pushed ==> Less(log[i].op.hlc, log[j].op.hlc)
  }

  lemma StepKeepsOrder(log: Log, device: Id, e: LogEvent)
    requires StampedLog(log) && LocalsAscend(log) && ByteLength(DevicePrefix(device)) == 12
    requires e.Emitted? ==> InRange(log, e.wall) && RoomAbove(log, e.wall)
    requires e.Received? ==> IsStampText(e.op.hlc)
    ensures StampedLog(StepLog(log, device, e)) && LocalsAscend(StepLog(log, device, e))
    ensures e.Emitted? ==> Dominates(LocalOp(log, device, e.draft, e.wall).hlc, log)
  {
    hide NextHlc, ToCanonical, IsStampText, InRange, RoomAbove, DevicePrefix, HasOp;
    if e.Emitted? {
      EmissionDominates(log, DevicePrefix(device), e.wall);
      NextIsStampText(log, DevicePrefix(device), e.wall);
    }
  }

  /** Over any orderly run of emissions, receptions and pushes, with any wall-clock readings, the log
      keeps readable stamps and every unpushed op above all ops before it. */
  lemma {:induction false} RunKeepsOrder(log: Log, device: Id, es: seq<LogEvent>)
    requires StampedLog(log) && LocalsAscend(log) && ByteLength(DevicePrefix(device)) == 12 && Orderly(log, device, es)
    ensures StampedLog(RunLog(log, device, es)) && LocalsAscend(RunLog(log, device, es))
    decreases |es|
  {
    hide StepLog, StampedLog, LocalsAscend, InRange, RoomAbove, DevicePrefix, IsStampText;
    if es != [] {
      StepKeepsOrder(log, device, es[0]);
      RunKeepsOrder(StepLog(log, device, es[0]), device, es[1..]);
    }
  }

  // ---------------------------------------------------------------------------
  // The push queue
  // ---------------------------------------------------------------------------

  function Unpushed(log: Log): seq<Op>
  {
    if log == [] then []
    else Unpushed(log[..|log| - 1]) + (if log[|log| - 1].pushed then [] else [log[|log| - 1].op])
  }

  /** `ORDER BY hlc ASC`. */
  function InsertByHlc(op: Op, sorted: seq<Op>): seq<Op>
  {
    if sorted == [] || !Less(op.hlc, sorted[|sorted| - 1].hlc) then sorted + [op]
    else InsertByHlc(op, sorted[..|sorted| - 1]) + [sorted[|sorted| - 1]]
  }

  function SortByHlc(ops: seq<Op>): seq<Op>
  {
    if ops == [] then [] else InsertByHlc(ops[|ops| - 1], SortByHlc(ops[..|ops| - 1]))
  }

  predicate Ascending(ops: seq<Op>)
  {
    forall i, j :: 0 <= i < j < |ops| ==> Less(ops[i].hlc, ops[j].hlc)
  }

  lemma {:induction false} AscendingIsSorted(ops: seq<Op>)
    requires Ascending(ops)
    ensures SortByHlc(ops) == ops
  {
    if ops != [] {
      var init := ops[..|ops| - 1];
      AscendingIsSorted(init);
      if init != [] {
        LessTrichotomy(ops[|ops| - 2].hlc, ops[|ops| - 1].hlc);
      }
    }
  }

  lemma {:induction false} UnpushedAscend(log: Log)
    requires LocalsAscend(log)
    ensures Ascending(Unpushed(log))
    ensures forall k :: 0 <= k < |Unpushed(log)| ==>
      exists i :: 0 <= i < |log| && !log[i].pushed && log[i].op == Unpushed(log)[k]
  {
    if log != [] {
      var init := log[..|log| - 1];
      UnpushedAscend(init);
      forall k | 0 <= k < |Unpushed(log)|
        ensures exists i :: 0 <= i < |log| && !log[i].pushed && log[i].op == Unpushed(log)[k]
      {
        if k < |Unpushed(init)| {
          var i :| 0 <= i < |init| && !init[i].pushed && init[i].op == Unpushed(init)[k];
          assert log[i] == init[i];
        } else {
          assert log[|log| - 1].op == Unpushed(log)[k];
        }
      }
      forall i, j | 0 <= i < j < |Unpushed(log)| ensures Less(Unpushed(log)[i].hlc, Unpushed(log)[j].hlc) {
        if j == |Unpushed(init)| {
          var k :| 0 <= k < |init| && !init[k].pushed && init[k].op == Unpushed(init)[i];
          assert log[k] == init[k];
        }
      }
    }
  }

  /** The push queue of an orderly run lists the local ops in the order they were emitted. */
  lemma QueueIsEmissionOrder(device: Id, es: seq<LogEvent>)
    requires ByteLength(DevicePrefix(device)) == 12 && Orderly([], device, es)
    ensures SortByHlc(Unpushed(RunLog([], device, es))) == Unpushed(RunLog([], device, es))
  {
    RunKeepsOrder([], device, es);
    UnpushedAscend(RunLog([], device, es));
    AscendingIsSorted(Unpushed(RunLog([], device, es)));
  }

  function Without(ops: seq<Op>, ids: set<Id>): seq<Op>
  {
    if ops == [] then []
      else Without(ops[..|ops| - 1], ids) + (if ops[|ops| - 1].opId in ids then [] else [ops[|ops| - 1]])
  }

  lemma {:induction false} WithoutAppend(ops: seq<Op>, op: Op, ids: set<Id>)
    ensures Without(ops + [op], ids) == Without(ops, ids) + (if op.opId in ids then [] else [op])
  {
    assert (ops + [op])[..|ops|] == ops;
  }

  /** Marking ops as pushed takes exactly them out of the queue. */
  lemma {:induction false} MarkedLeaveQueue(log: Log, ids: set<Id>)
    ensures Unpushed(MarkPushed(log, ids)) == Without(Unpushed(log), ids)
  {
    if log != [] {
      var init, last := log[..|log| - 1], log[|log| - 1];
      MarkedLeaveQueue(init, ids);
      assert MarkPushed(log, ids)[..|log| - 1] == MarkPushed(init, ids);
      assert Unpushed(init) + [] == Unpushed(init);
      WithoutAppend(Unpushed(init), last.op, ids);
    }
  }
}
