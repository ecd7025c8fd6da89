/** RepeatedEventLogEntryFilter: forwards event-log messages, but reports a message that
    repeats only as counts: at once on its first occurrence, after a minute with the number
    of repeats, then hourly, and a final count once it has been quiet for a minute. The
    clock reading is a parameter, the forwarded entries are a sequence of records, and the
    one-shot timer is a flag. */
module RepeatedEventLogEntryFilter {
  import opened Wrappers
  import opened Integers
  import opened Constants
  import opened DateTimeUtils

  /** EventLogEntryType. */
  datatype Severity = Error | Warning | Information | SuccessAudit | FailureAudit

  /** RepeatedEntry: the state kept for a message seen recently. */
  datatype Entry = Entry(
    category: Int16,
    severity: Severity,
    countSinceReported: Int32,
    lastReport: DateTimeTicks,
    lastOccurrence: DateTimeTicks,
    overOneMinute: bool)

  /** What a forwarded entry says: the message itself, the count of repeats within the
      first minute, the final count with the time of the last repeat, or an hourly
      reminder. The text around the numbers is not modelled. */
  datatype LogKind = First | RepeatSummary | FinalCount(lastOccurrence: DateTimeTicks) | Reminder

  datatype LogRecord = LogRecord(kind: LogKind, message: string, count: Int32, severity: Severity, category: Int16)

  /** _repeatedEntryUpdateSeconds: 60 s, in ticks. */
  const UpdatePeriod: nat := 60 * TicksPerSecond
  /** _repeatedEntryReminderPeriod: one hour, in ticks. */
  const ReminderPeriod: nat := TicksPerHour

  /** What one management pass does to one entry: its new state (None when it is removed)
      and what it forwards to the log. */
  datatype Outcome = Outcome(next: Option<Entry>, report: Option<LogRecord>)

  /** The body of the loop in ManageRepeatedEntries for one message. */
  function Manage(message: string, e: Entry, now: DateTimeTicks): Outcome
  {
    if !e.overOneMinute then
      if now - e.lastReport > UpdatePeriod then
        if e.countSinceReported == 0 then Outcome(None, None)
        else
          Outcome(Some(e.(countSinceReported := 0, lastReport := now, overOneMinute := true)),
                  Some(LogRecord(RepeatSummary, message, e.countSinceReported, e.severity, e.category)))
      else Outcome(Some(e), None)
    else if now - e.lastOccurrence > UpdatePeriod then
      if e.countSinceReported != 0 then
        Outcome(None, Some(LogRecord(FinalCount(e.lastOccurrence), message, e.countSinceReported, e.severity, 0)))
      else Outcome(None, None)
    else if now - e.lastReport > ReminderPeriod then
      Outcome(Some(e.(countSinceReported := 0, lastReport := now)),
              Some(LogRecord(Reminder, message, e.countSinceReported, e.severity, 0)))
    else Outcome(Some(e), None)
  }

  /** The entries after a management pass: every entry replaced by its new state, and the
      removed ones dropped. */
  function ManagedEntries(entries: map<string, Entry>, now: DateTimeTicks): map<string, Entry>
  {
    map m | m in entries && Manage(m, entries[m], now).next.Some? :: Manage(m, entries[m], now).next.value
  }

  /** The records a management pass forwards, visiting the messages in the given order. */
  function Reports(entries: map<string, Entry>, keys: seq<string>, now: DateTimeTicks): seq<LogRecord>
    requires forall k :: k in keys ==> k in entries
  {
    if keys == [] then []
    else
      var last := keys[|keys| - 1];
      var report := Manage(last, entries[last], now).report;
      Reports(entries, keys[..|keys| - 1], now) + (if report.Some? then [report.value] else [])
  }

  /** How many occurrences of the message the records account for: one for the first
      report, and the count carried by each later one. */
  function Reported(log: seq<LogRecord>, message: string): nat
  {
    if log == [] then 0
    else
      var r := log[|log| - 1];
      Reported(log[..|log| - 1], message) +
        (if r.message != message then 0 else if r.kind == First then 1 else Unsigned32(r.count))
  }

  /** A reported count as the non-negative number it is when it has not wrapped. */
  function Unsigned32(x: Int32): nat
  {
    if x < 0 then 0 else x
  }

  lemma ReportedAppend(log: seq<LogRecord>, extra: seq<LogRecord>, message: string)
    ensures Reported(log + extra, message) == Reported(log, message) + Reported(extra, message)
    decreases |extra|
  {
    if extra == [] {
      assert log + extra == log;
    } else {
      var n := |extra| - 1;
      assert (log + extra)[..|log + extra| - 1] == log + extra[..n];
      ReportedAppend(log, extra[..n], message);
    }
  }

  class RepeatedEventLogEntryFilter {
    /** _repeatedEntries. */
    var entries: map<string, Entry>
    /** The entries forwarded to the event log, oldest first. */
    var log: seq<LogRecord>
    /** Whether the one-shot timer that runs ManageRepeatedEntries is started. */
    var timerArmed: bool
    /** How many times each message has been written to the filter. */
    ghost var written: map<string, nat>

    constructor ()
      ensures entries == map[] && log == [] && !timerArmed && written == map[]
      ensures Accounted()
    {
      entries := map[];
      log := [];
      timerArmed := false;
      written := map[];
    }

    /** No occurrence is lost or counted twice: every message written so far is accounted
        for by the records forwarded and the count still pending in its entry, and a
        message still tracked has been written. */
    ghost predicate Accounted()
      reads this
    {
      AccountedFor(entries, log, written)
    }

    /** WriteEntry: a new message is forwarded at once and tracked with count 0; a tracked
        one only has its count raised (unchecked) and its last occurrence set. The timer is
        started either way. */
    method WriteEntry(message: string, severity: Severity, category: Int16, now: DateTimeTicks)
      modifies this
      ensures message in old(entries) ==>
        var e := old(entries)[message];
        entries == old(entries)[message := e.(countSinceReported := Wrap32(e.countSinceReported + 1), lastOccurrence := now)] &&
        log == old(log)
      ensures message !in old(entries) ==>
        entries == old(entries)[message := Entry(category, severity, 0, now, now, false)] &&
        log == old(log) + [LogRecord(First, message, 0, severity, category)]
      ensures timerArmed
      ensures written == old(written)[message := (if message in old(written) then old(written)[message] else 0) + 1]
      ensures old(Accounted()) && (message in old(entries) ==> old(entries)[message].countSinceReported < 0x7FFF_FFFF) ==>
        Accounted()
    {
      ghost var before, logBefore, writtenBefore := entries, log, written;
      if message in entries {
        var e := entries[message];
        entries := entries[message := e.(countSinceReported := Wrap32(e.countSinceReported + 1), lastOccurrence := now)];
      } else {
        log := log + [LogRecord(First, message, 0, severity, category)];
        entries := entries[message := Entry(category, severity, 0, now, now, false)];
      }
      written := written[message := (if message in written then written[message] else 0) + 1];
      timerArmed := true;
      WriteAccounted(before, logBefore, writtenBefore, entries, log, written, message, severity, category, now);
    }

    /** ManageRepeatedEntries, the timer's handler: each tracked message, in the order given
        by keys (the dictionary's enumeration order), is updated, reported or removed as
        Manage says; the timer is started again exactly when entries remain. */
    method ManageRepeatedEntries(now: DateTimeTicks, keys: seq<string>)
      requires forall i, j :: 0 <= i < j < |keys| ==> keys[i] != keys[j]
      requires forall m :: m in entries <==> m in keys
      modifies this
      ensures entries == ManagedEntries(old(entries), now)
      ensures log == old(log) + Reports(old(entries), keys, now)
      ensures timerArmed <==> |entries| > 0
      ensures written == old(written)
      ensures old(Accounted()) ==> Accounted()
    {
      ghost var start := entries;
      ghost var wasAccounted := Accounted();
      for i := 0 to |keys|
        invariant written == old(written)
        invariant entries == Partial(start, keys[..i], now)
        invariant log == old(log) + Reports(start, keys[..i], now)
        invariant wasAccounted ==> Accounted()
      {
        ManageAt(start, keys, i, now, old(log), wasAccounted);
      }
      assert keys[..|keys|] == keys;
      PartialComplete(start, keys, now);
      timerArmed := |entries| > 0;
    }

    /** The i-th turn of the loop in ManageRepeatedEntries: managing keys[i] extends the
        managed prefix of keys by one. */
    method ManageAt(ghost start: map<string, Entry>, keys: seq<string>, i: nat, now: DateTimeTicks,
                    ghost logStart: seq<LogRecord>, ghost wasAccounted: bool)
      requires i < |keys| && forall k :: k in keys ==> k in start
      requires forall j, k :: 0 <= j < k < |keys| ==> keys[j] != keys[k]
      requires entries == Partial(start, keys[..i], now)
      requires log == logStart + Reports(start, keys[..i], now)
      requires wasAccounted ==> Accounted()
      modifies this
      ensures entries == Partial(start, keys[..i + 1], now)
      ensures log == logStart + Reports(start, keys[..i + 1], now)
      ensures wasAccounted ==> Accounted()
      ensures written == old(written)
    {
      var message := keys[i];
      assert message !in keys[..i];
      PartialUntouched(start, keys[..i], message, now);
      ghost var before, logBefore := entries, log;
      ManageOne(message, now);
      PartialStep(start, keys, i, now);
      ReportsStep(start, keys, i, now, logStart, logBefore, log);
      if wasAccounted {
        ManageAccounted(before, logBefore, entries, log, written, message, now);
      }
    }

    /** One turn of the loop in ManageRepeatedEntries: the message's entry is replaced,
        kept or removed, and its record forwarded, as Manage says. */
    method ManageOne(message: string, now: DateTimeTicks)
      requires message in entries
      modifies this
      ensures var outcome := Manage(message, old(entries)[message], now);
        entries == (if outcome.next.Some? then old(entries)[message := outcome.next.value] else old(entries) - {message}) &&
        log == old(log) + (if outcome.report.Some? then [outcome.report.value] else [])
      ensures written == old(written) && timerArmed == old(timerArmed)
    {
      var outcome := Manage(message, entries[message], now);
      if outcome.report.Some? {
        log := log + [outcome.report.value];
      }
      if outcome.next.Some? {
        entries := entries[message := outcome.next.value];
      } else {
        entries := entries - {message};
      }
    }
  }

  /** The entries after the messages in done have been managed and the rest not yet. */
  function Partial(entries: map<string, Entry>, done: seq<string>, now: DateTimeTicks): map<string, Entry>
  {
    map m | m in entries && (m in done ==> Manage(m, entries[m], now).next.Some?) ::
      if m in done then Manage(m, entries[m], now).next.value else entries[m]
  }

  lemma PartialUntouched(entries: map<string, Entry>, done: seq<string>, m: string, now: DateTimeTicks)
    requires m in entries && m !in done
    ensures m in Partial(entries, done, now) && Partial(entries, done, now)[m] == entries[m]
  {
  }

  lemma PartialStep(entries: map<string, Entry>, keys: seq<string>, i: nat, now: DateTimeTicks)
    requires i < |keys| && keys[i] in entries && keys[i] !in keys[..i]
    ensures var m := keys[i];
      var outcome := Manage(m, entries[m], now);
      Partial(entries, keys[..i + 1], now) ==
        if outcome.next.Some? then Partial(entries, keys[..i], now)[m := outcome.next.value]
        else Partial(entries, keys[..i], now) - {m}
  {
    assert keys[..i + 1] == keys[..i] + [keys[i]];
  }

  lemma ReportsStep(entries: map<string, Entry>, keys: seq<string>, i: nat, now: DateTimeTicks,
                    log0: seq<LogRecord>, logBefore: seq<LogRecord>, logAfter: seq<LogRecord>)
    requires i < |keys| && forall k :: k in keys ==> k in entries
    requires logBefore == log0 + Reports(entries, keys[..i], now)
    requires var report := Manage(keys[i], entries[keys[i]], now).report;
      logAfter == logBefore + (if report.Some? then [report.value] else [])
    ensures logAfter == log0 + Reports(entries, keys[..i + 1], now)
  {
    assert keys[..i + 1][..i] == keys[..i];
  }

  lemma PartialComplete(entries: map<string, Entry>, keys: seq<string>, now: DateTimeTicks)
    requires forall m :: m in entries <==> m in keys
    ensures Partial(entries, keys, now) == ManagedEntries(entries, now)
  {
  }

  /** The occurrences of each written message equal those reported plus those pending. */
  ghost predicate AccountedFor(entries: map<string, Entry>, log: seq<LogRecord>, written: map<string, nat>)
  {
    (forall m :: m in entries ==> m in written) &&
    (forall m :: m in written ==> written[m] == Reported(log, m) + Pending(entries, m)) &&
    (forall m :: m in entries ==> 0 <= entries[m].countSinceReported) &&
    (forall m :: m !in written ==> Reported(log, m) == 0)
  }

  /** The repeats of a message not yet reported. */
  function Pending(entries: map<string, Entry>, message: string): nat
  {
    if message in entries then Unsigned32(entries[message].countSinceReported) else 0
  }

  /** One management step keeps every occurrence accounted for. */
  lemma ManageAccounted(before: map<string, Entry>, logBefore: seq<LogRecord>, after: map<string, Entry>,
                        logAfter: seq<LogRecord>, written: map<string, nat>, message: string, now: DateTimeTicks)
    requires message in before
    requires AccountedFor(before, logBefore, written)
    requires var outcome := Manage(message, before[message], now);
      after == (if outcome.next.Some? then before[message := outcome.next.value] else before - {message}) &&
      logAfter == logBefore + (if outcome.report.Some? then [outcome.report.value] else [])
    ensures AccountedFor(after, logAfter, written)
  {
    var outcome := Manage(message, before[message], now);
    var extra := if outcome.report.Some? then [outcome.report.value] else [];
    ManageConserves(message, before[message], now);
    forall m
      ensures Reported(logAfter, m) == Reported(logBefore, m) + Reported(extra, m)
    {
      ReportedAppend(logBefore, extra, m);
    }
    forall m | m != message
      ensures Reported(extra, m) == 0
    {
      if outcome.report.Some? {
        assert extra[..0] == [];
      }
    }
    AccountedTransfer(before, logBefore, after, logAfter, written, message, Reported(extra, message));
  }

  /** Occurrences stay accounted for when one message's pending count moves into the log
      and nothing about the other messages changes. */
  lemma AccountedTransfer(before: map<string, Entry>, logBefore: seq<LogRecord>, after: map<string, Entry>,
                          logAfter: seq<LogRecord>, written: map<string, nat>, message: string, moved: nat)
    requires message in before
    requires AccountedFor(before, logBefore, written)
    requires forall m :: m != message ==> Reported(logAfter, m) == Reported(logBefore, m)
    requires Reported(logAfter, message) == Reported(logBefore, message) + moved
    requires forall m :: m != message ==> (m in after <==> m in before) && (m in after ==> after[m] == before[m])
    requires Pending(after, message) + moved == Pending(before, message)
    requires message in after ==> 0 <= after[message].countSinceReported
    ensures AccountedFor(after, logAfter, written)
  {
    forall m | m in written
      ensures written[m] == Reported(logAfter, m) + Pending(after, m)
    {
      if m != message {
        assert Pending(after, m) == Pending(before, m);
      }
    }
  }

  /** WriteEntry keeps every occurrence accounted for, as long as the pending count of a
      tracked message does not wrap. */
  lemma WriteAccounted(before: map<string, Entry>, logBefore: seq<LogRecord>, writtenBefore: map<string, nat>,
                       after: map<string, Entry>, logAfter: seq<LogRecord>, writtenAfter: map<string, nat>,
                       message: string, severity: Severity, category: Int16, now: DateTimeTicks)
    requires message in before ==>
      var e := before[message];
      after == before[message := e.(countSinceReported := Wrap32(e.countSinceReported + 1), lastOccurrence := now)] &&
      logAfter == logBefore
    requires message !in before ==>
      after == before[message := Entry(category, severity, 0, now, now, false)] &&
      logAfter == logBefore + [LogRecord(First, message, 0, severity, category)]
    requires writtenAfter == writtenBefore[message := (if message in writtenBefore then writtenBefore[message] else 0) + 1]
    ensures (AccountedFor(before, logBefore, writtenBefore) &&
             (message in before ==> before[message].countSinceReported < 0x7FFF_FFFF)) ==>
      AccountedFor(after, logAfter, writtenAfter)
  {
    if AccountedFor(before, logBefore, writtenBefore) {
      if message in before {
        if before[message].countSinceReported < 0x7FFF_FFFF {
          RepeatAccounted(before, logBefore, writtenBefore, message, now);
        }
      } else {
        FirstAccounted(before, logBefore, writtenBefore, message, severity, category, now);
      }
    }
  }

  /** A repeat of a tracked message is accounted for by its raised pending count. */
  lemma RepeatAccounted(entries: map<string, Entry>, log: seq<LogRecord>, written: map<string, nat>,
                        message: string, now: DateTimeTicks)
    requires AccountedFor(entries, log, written)
    requires message in entries && entries[message].countSinceReported < 0x7FFF_FFFF
    ensures var e := entries[message];
      AccountedFor(entries[message := e.(countSinceReported := Wrap32(e.countSinceReported + 1), lastOccurrence := now)],
                   log, written[message := written[message] + 1])
  {
    var e := entries[message];
    assert Wrap32(e.countSinceReported + 1) == e.countSinceReported + 1;
    var after := entries[message := e.(countSinceReported := e.countSinceReported + 1, lastOccurrence := now)];
    assert Pending(after, message) == Pending(entries, message) + 1;
    forall m | m != message
      ensures Pending(after, m) == Pending(entries, m)
    {
    }
  }

  /** The first occurrence of a message is accounted for by the record forwarded at once. */
  lemma FirstAccounted(entries: map<string, Entry>, log: seq<LogRecord>, written: map<string, nat>,
                       message: string, severity: Severity, category: Int16, now: DateTimeTicks)
    requires AccountedFor(entries, log, written)
    requires message !in entries
    ensures AccountedFor(entries[message := Entry(category, severity, 0, now, now, false)],
                         log + [LogRecord(First, message, 0, severity, category)],
                         written[message := (if message in written then written[message] else 0) + 1])
  {
    var record := LogRecord(First, message, 0, severity, category);
    forall m
      ensures Reported(log + [record], m) == Reported(log, m) + (if m == message then 1 else 0)
    {
      ReportedAppend(log, [record], m);
      assert [record][..0] == [];
    }
  }

  /** A management step moves the pending count into the record it forwards: the count
      reported plus the count left pending equals the count pending before. */
  lemma ManageConserves(message: string, e: Entry, now: DateTimeTicks)
    requires 0 <= e.countSinceReported
    ensures var outcome := Manage(message, e, now);
      var extra := if outcome.report.Some? then [outcome.report.value] else [];
      Reported(extra, message) + (if outcome.next.Some? then Unsigned32(outcome.next.value.countSinceReported) else 0)
        == Unsigned32(e.countSinceReported) &&
      (outcome.next.Some? ==> 0 <= outcome.next.value.countSinceReported)
  {
    var outcome := Manage(message, e, now);
    if outcome.report.Some? {
      var extra := [outcome.report.value];
      assert extra[..0] == [];
    }
  }

  /** A record is forwarded when repeats are pending a minute after the last report in the
      first phase; afterwards when they are pending after a minute of quiet (the final
      count), or, while the message keeps occurring, an hour after the last report (the
      reminder, sent whatever the count). The record carries the pending count, and an
      entry that stays has nothing pending after a report. */
  lemma ManageReportsPending(message: string, e: Entry, now: DateTimeTicks)
    ensures Manage(message, e, now).report.Some? <==>
      if !e.overOneMinute then e.countSinceReported != 0 && now - e.lastReport > UpdatePeriod
      else if now - e.lastOccurrence > UpdatePeriod then e.countSinceReported != 0
      else now - e.lastReport > ReminderPeriod
    ensures Manage(message, e, now).report.Some? ==>
      Manage(message, e, now).report.value.message == message &&
      Manage(message, e, now).report.value.count == e.countSinceReported &&
      Manage(message, e, now).report.value.severity == e.severity
    ensures Manage(message, e, now).report.Some? && Manage(message, e, now).next.Some? ==>
      Manage(message, e, now).next.value.countSinceReported == 0 &&
      Manage(message, e, now).next.value.lastReport == now
    ensures Manage(message, e, now).report.None? && Manage(message, e, now).next.Some? ==>
      Manage(message, e, now).next.value == e
  {
  }

  /** An entry is dropped only once its message has been quiet for a minute: in the first
      phase a minute since its report with no repeat, afterwards a minute since its last
      occurrence. */
  lemma ManageRemovesQuiet(message: string, e: Entry, now: DateTimeTicks)
    ensures Manage(message, e, now).next.None? <==>
      (!e.overOneMinute && now - e.lastReport > UpdatePeriod && e.countSinceReported == 0) ||
      (e.overOneMinute && now - e.lastOccurrence > UpdatePeriod)
  {
  }

  /** A message that has not occurred for a minute is gone after at most two management
      passes, the first of them more than a minute after its last report. */
  lemma {:induction false} QuietMessageRetires(message: string, e: Entry, now1: DateTimeTicks, now2: DateTimeTicks)
    requires now1 <= now2 && now2 - e.lastOccurrence > UpdatePeriod
    requires now1 - e.lastReport > UpdatePeriod
    ensures var first := Manage(message, e, now1);
      first.next.None? || Manage(message, first.next.value, now2).next.None?
  {
    var first := Manage(message, e, now1);
    if first.next.Some? {
      assert first.next.value.overOneMinute;
      assert first.next.value.lastOccurrence == e.lastOccurrence;
    }
  }

  /** A message written twice within a second: forwarded at once, summarised with one
      repeat after a minute, then dropped after another quiet minute, which leaves the
      timer stopped. */
  method RepeatScenario() returns (log: seq<LogRecord>, tracked: bool, armed: bool)
    ensures log == [LogRecord(First, "disk full", 0, Warning, 7), LogRecord(RepeatSummary, "disk full", 1, Warning, 7)]
    ensures !tracked && !armed
  {
    var t0 := ScenarioStart;
    var filter := ScenarioWrites();
    var first := LogRecord(First, "disk full", 0, Warning, 7);
    ScenarioFirstPass();
    filter.ManageRepeatedEntries(t0 + UpdatePeriod + 2 * TicksPerSecond, ["disk full"]);
    assert filter.log == [first, LogRecord(RepeatSummary, "disk full", 1, Warning, 7)];
    ScenarioSecondPass();
    filter.ManageRepeatedEntries(t0 + 2 * UpdatePeriod + 2 * TicksPerSecond, ["disk full"]);
    log, tracked, armed := filter.log, "disk full" in filter.entries, filter.timerArmed;
  }

  /** The scenario's two writes, a second apart, on a new filter. */
  method ScenarioWrites() returns (filter: RepeatedEventLogEntryFilter)
    ensures fresh(filter)
    ensures filter.entries == map["disk full" := ScenarioEntry(0)]
    ensures filter.log == [LogRecord(First, "disk full", 0, Warning, 7)]
  {
    filter := new RepeatedEventLogEntryFilter();
    filter.WriteEntry("disk full", Warning, 7, ScenarioStart);
    filter.WriteEntry("disk full", Warning, 7, ScenarioStart + TicksPerSecond);
    assert filter.entries == map["disk full" := ScenarioEntry(0)] by {
      assert Wrap32(0 + 1) == 1;
    }
  }

  /** 2011-01-01 00:00, in ticks. */
  const ScenarioStart: DateTimeTicks := 634294368000000000

  /** The scenario's entry with one repeat before the first pass (phase 0) and after it
      (phase 1). */
  function ScenarioEntry(phase: nat): Entry
  {
    if phase == 0 then Entry(7, Warning, 1, ScenarioStart, ScenarioStart + TicksPerSecond, false)
    else Entry(7, Warning, 0, ScenarioStart + UpdatePeriod + 2 * TicksPerSecond, ScenarioStart + TicksPerSecond, true)
  }

  lemma ScenarioFirstPass()
    ensures var now := ScenarioStart + UpdatePeriod + 2 * TicksPerSecond;
      ManagedEntries(map["disk full" := ScenarioEntry(0)], now) == map["disk full" := ScenarioEntry(1)] &&
      Reports(map["disk full" := ScenarioEntry(0)], ["disk full"], now) == [LogRecord(RepeatSummary, "disk full", 1, Warning, 7)]
  {
    var now := ScenarioStart + UpdatePeriod + 2 * TicksPerSecond;
    SingleEntryPass("disk full", ScenarioEntry(0), now);
    assert Manage("disk full", ScenarioEntry(0), now) ==
      Outcome(Some(ScenarioEntry(1)), Some(LogRecord(RepeatSummary, "disk full", 1, Warning, 7)));
  }

  lemma ScenarioSecondPass()
    ensures var now := ScenarioStart + 2 * UpdatePeriod + 2 * TicksPerSecond;
      ManagedEntries(map["disk full" := ScenarioEntry(1)], now) == map[] &&
      Reports(map["disk full" := ScenarioEntry(1)], ["disk full"], now) == []
  {
    var now := ScenarioStart + 2 * UpdatePeriod + 2 * TicksPerSecond;
    SingleEntryPass("disk full", ScenarioEntry(1), now);
    assert Manage("disk full", ScenarioEntry(1), now) == Outcome(None, None);
  }

  /** A pass over a single tracked message. */
  lemma SingleEntryPass(message: string, e: Entry, now: DateTimeTicks)
    ensures var outcome := Manage(message, e, now);
      ManagedEntries(map[message := e], now) == (if outcome.next.Some? then map[message := outcome.next.value] else map[]) &&
      Reports(map[message := e], [message], now) == (if outcome.report.Some? then [outcome.report.value] else [])
  {
    assert [message][..0] == [];
  }
}
