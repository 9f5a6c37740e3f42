/** The recorder as steps: producers that never wait, a bounded queue, one goroutine that
    writes in batches, and a shutdown that writes what is left. */
module Recording {
  import opened Wrappers

  /** Only the identity of an exchange matters here. */
  type Exchange = int

  const DROP_REPORT := 10_000_000_000

  datatype Options = Options(buffer: nat, batch: nat) {
    ghost predicate Valid() { buffer >= 1 && batch >= 1 }
  }

  /** Why a write was started, and so what comes after it. */
  datatype Cause = Full | Ticked | Final

  /** Where the goroutine is: choosing, writing, reporting, draining, or gone. A write is
      `late` if the recorder's context was already cancelled when it began. */
  datatype Phase = Choosing | Writing(cause: Cause, late: bool) | Reporting(force: bool) | Draining | Stopped

  /** One finished write. */
  datatype Flush = Flush(rows: seq<Exchange>, ok: bool, cause: Cause, late: bool)

  /** The recorder's fields, and after them its history: calls of Record, what was accepted,
      what was written, which drop counts were reported, and what came in after the drain
      and after the last report. */
  datatype State = State(
    phase: Phase, cancelled: bool,
    queue: seq<Exchange>, rows: seq<Exchange>,
    dropped: nat, failed: nat, reported: nat, lastWarn: Option<int>,
    calls: nat, accepted: seq<Exchange>, flushes: seq<Flush>, reports: seq<nat>,
    afterDrain: nat, afterReport: nat)

  const NEW := State(Choosing, false, [], [], 0, 0, 0, None, 0, [], [], [], 0, 0)

  datatype Step =
    | Record(exchange: Exchange)
    | Cancel
    | Receive
    | Tick
    | Done
    | Drain
    | DrainEnd
    | WriteEnd(ok: bool)
    | Report(now: int)

  ghost predicate Enabled(st: State, step: Step) {
    match step
    case Record(_) => true
    case Cancel => true
    case Receive => st.phase == Choosing && st.queue != []
    case Tick => st.phase == Choosing
    case Done => st.phase == Choosing && st.cancelled
    case Drain => st.phase == Draining && st.queue != []
    case DrainEnd => st.phase == Draining && st.queue == []
    case WriteEnd(_) => st.phase.Writing?
    case Report(_) => st.phase.Reporting?
  }

  predicate PastDrain(phase: Phase) {
    (phase.Writing? && phase.cause == Final) || phase == Reporting(true) || phase == Stopped
  }

  function Recorded(opts: Options, st: State, ex: Exchange): State {
    if |st.queue| < opts.buffer then
      st.(calls := st.calls + 1, queue := st.queue + [ex], accepted := st.accepted + [ex],
          afterDrain := if PastDrain(st.phase) then st.afterDrain + 1 else st.afterDrain)
    else
      st.(calls := st.calls + 1, dropped := st.dropped + 1,
          afterReport := if st.phase == Stopped then st.afterReport + 1 else st.afterReport)
  }

  function Received(st: State): State
    requires st.queue != []
  {
    st.(queue := st.queue[1..], rows := st.rows + [st.queue[0]])
  }

  /** flush returns at once when there is nothing to write. */
  function Flushing(st: State, cause: Cause): State {
    if st.rows == [] then st.(phase := AfterWrite(cause)) else st.(phase := Writing(cause, st.cancelled))
  }

  function AfterWrite(cause: Cause): Phase {
    match cause
    case Full => Choosing
    case Ticked => Reporting(false)
    case Final => Reporting(true)
  }

  function Written(st: State, cause: Cause, late: bool, ok: bool): State {
    st.(phase := AfterWrite(cause), rows := [],
        failed := if ok then st.failed else st.failed + |st.rows|,
        flushes := st.flushes + [Flush(st.rows, ok, cause, late)])
  }

  function ReportedDrops(st: State, force: bool, now: int): State {
    var total := st.dropped + st.failed;
    if total == st.reported then st
    else if !force && st.lastWarn.Some? && now - st.lastWarn.value < DROP_REPORT then st
    else st.(reported := total, lastWarn := Some(now), reports := st.reports + [if total > st.reported then total - st.reported else 0])
  }

  function Apply(opts: Options, st: State, step: Step): State
    requires Enabled(st, step)
  {
    match step
    case Record(ex) => Recorded(opts, st, ex)
    case Cancel => st.(cancelled := true)
    case Receive =>
      var got := Received(st);
      if |got.rows| >= opts.batch then Flushing(got, Full) else got
    case Tick => Flushing(st, Ticked)
    case Done => st.(phase := Draining)
    case Drain => Received(st)
    case DrainEnd => Flushing(st, Final)
    case WriteEnd(ok) => Written(st, st.phase.cause, st.phase.late, ok)
    case Report(now) => ReportedDrops(st, st.phase.force, now).(phase := if st.phase.force then Stopped else Choosing)
  }

  // The invariant ---------------------------------------------------------------------------

  function Rows(flushes: seq<Flush>): seq<Exchange> {
    if flushes == [] then [] else Rows(flushes[..|flushes| - 1]) + flushes[|flushes| - 1].rows
  }

  function RowsWhere(flushes: seq<Flush>, ok: bool): nat {
    if flushes == [] then 0
    else
      var last := flushes[|flushes| - 1];
      RowsWhere(flushes[..|flushes| - 1], ok) + if last.ok == ok then |last.rows| else 0
  }

  function Sum(s: seq<nat>): nat {
    if s == [] then 0 else Sum(s[..|s| - 1]) + s[|s| - 1]
  }

  /** Nothing is lost track of: every call was accepted or dropped, and what was accepted
      is, in order, what was flushed, then the batch, then the queue. */
  ghost predicate Accounted(opts: Options, st: State) {
    && st.calls == |st.accepted| + st.dropped
    && st.accepted == Rows(st.flushes) + st.rows + st.queue
    && st.failed == RowsWhere(st.flushes, false)
    && |st.queue| <= opts.buffer
  }

  ghost predicate SoundFlush(opts: Options, f: Flush) {
    match f.cause
    case Full => |f.rows| == opts.batch
    case Ticked => 1 <= |f.rows| < opts.batch
    case Final => 1 <= |f.rows|
  }

  /** The batch is what the phase allows it to be, and writes have been whole batches. */
  ghost predicate Batched(opts: Options, st: State) {
    && (forall f :: f in st.flushes ==> SoundFlush(opts, f))
    && (forall i :: 0 <= i < |st.flushes| && st.flushes[i].cause == Final ==>
          i == |st.flushes| - 1 && (st.phase == Reporting(true) || st.phase == Stopped))
    && match st.phase
       case Choosing => |st.rows| < opts.batch
       case Writing(Full, _) => |st.rows| == opts.batch
       case Writing(Ticked, _) => 1 <= |st.rows| < opts.batch
       case Writing(Final, _) => st.rows != []
       case Reporting(_) => st.rows == []
       case Draining => true
       case Stopped => st.rows == []
  }

  ghost predicate Reports(st: State) {
    && st.reported == Sum(st.reports) <= st.dropped + st.failed
    && (forall i :: 0 <= i < |st.reports| ==> st.reports[i] > 0)
    && (if st.phase == Stopped then st.reported + st.afterReport == st.dropped + st.failed else st.afterReport == 0)
  }

  ghost predicate Drained(st: State) {
    if PastDrain(st.phase) then st.cancelled && |st.queue| == st.afterDrain
    else st.afterDrain == 0 && (st.phase == Draining ==> st.cancelled)
  }

  ghost predicate Inv(opts: Options, st: State) {
    Accounted(opts, st) && Batched(opts, st) && Reports(st) && Drained(st)
  }

  lemma FlushSnoc(flushes: seq<Flush>, f: Flush)
    ensures Rows(flushes + [f]) == Rows(flushes) + f.rows
    ensures RowsWhere(flushes + [f], true) == RowsWhere(flushes, true) + if f.ok then |f.rows| else 0
    ensures RowsWhere(flushes + [f], false) == RowsWhere(flushes, false) + if f.ok then 0 else |f.rows|
  {
    assert (flushes + [f])[..|flushes|] == flushes;
  }

  lemma SumSnoc(s: seq<nat>, n: nat)
    ensures Sum(s + [n]) == Sum(s) + n
  {
    assert (s + [n])[..|s|] == s;
  }

  lemma ReceivedAccounted(opts: Options, st: State)
    requires Accounted(opts, st) && st.queue != []
    ensures Accounted(opts, Received(st))
  {
    hide Rows, RowsWhere;
    assert (st.rows + [st.queue[0]]) + st.queue[1..] == st.rows + st.queue;
    assert Rows(st.flushes) + (st.rows + [st.queue[0]]) + st.queue[1..] == Rows(st.flushes) + st.rows + st.queue;
  }

  lemma WrittenAccounted(opts: Options, st: State, cause: Cause, late: bool, ok: bool)
    requires Accounted(opts, st)
    ensures Accounted(opts, Written(st, cause, late, ok))
  {
    hide Rows, RowsWhere;
    FlushSnoc(st.flushes, Flush(st.rows, ok, cause, late));
  }

  lemma RecordedAccounted(opts: Options, st: State, ex: Exchange)
    requires Accounted(opts, st)
    ensures Accounted(opts, Recorded(opts, st, ex))
  {
    hide Rows, RowsWhere;
    assert Rows(st.flushes) + st.rows + (st.queue + [ex]) == Rows(st.flushes) + st.rows + st.queue + [ex];
  }

  lemma KeepsAccounted(opts: Options, st: State, step: Step)
    requires Accounted(opts, st) && Enabled(st, step)
    ensures Accounted(opts, Apply(opts, st, step))
  {
    hide Rows, RowsWhere, Received, Written, Recorded;
    match step
    case WriteEnd(ok) => WrittenAccounted(opts, st, st.phase.cause, st.phase.late, ok);
    case Receive => ReceivedAccounted(opts, st);
    case Drain => ReceivedAccounted(opts, st);
    case Record(ex) => RecordedAccounted(opts, st, ex);
    case _ =>
  }

  lemma KeepsBatched(opts: Options, st: State, step: Step)
    requires opts.Valid() && Batched(opts, st) && Enabled(st, step)
    ensures Batched(opts, Apply(opts, st, step))
  {
  }

  lemma ReportedSound(st: State, force: bool, now: int)
    requires Reports(st) && st.phase != Stopped
    ensures var after := ReportedDrops(st, force, now).(phase := if force then Stopped else Choosing); Reports(after)
  {
    hide Sum;
    if st.dropped + st.failed > st.reported {
      SumSnoc(st.reports, st.dropped + st.failed - st.reported);
    }
  }

  lemma KeepsReports(opts: Options, st: State, step: Step)
    requires Reports(st) && Enabled(st, step)
    ensures Reports(Apply(opts, st, step))
  {
    hide Sum, ReportedDrops;
    match step
    case Report(now) => ReportedSound(st, st.phase.force, now);
    case _ =>
  }

  lemma KeepsDrained(opts: Options, st: State, step: Step)
    requires Drained(st) && Enabled(st, step)
    ensures Drained(Apply(opts, st, step))
  {
  }

  lemma ApplyKeepsInv(opts: Options, st: State, step: Step)
    requires opts.Valid() && Inv(opts, st) && Enabled(st, step)
    ensures Inv(opts, Apply(opts, st, step))
  {
    hide Apply, Enabled, Accounted, Batched, Reports, Drained;
    KeepsAccounted(opts, st, step);
    KeepsBatched(opts, st, step);
    KeepsReports(opts, st, step);
    KeepsDrained(opts, st, step);
  }

  // Whole runs -------------------------------------------------------------------------------

  /** Any interleaving of producers, ticks, writes and shutdown. */
  ghost predicate Run(opts: Options, start: State, steps: seq<Step>)
    decreases |steps|, 0
  {
    steps != [] ==>
      var before := steps[..|steps| - 1];
      Run(opts, start, before) && Enabled(After(opts, start, before), steps[|steps| - 1])
  }

  ghost function After(opts: Options, start: State, steps: seq<Step>): State
    requires Run(opts, start, steps)
    decreases |steps|, 1
  {
    if steps == [] then start else Apply(opts, After(opts, start, steps[..|steps| - 1]), steps[|steps| - 1])
  }

  lemma RunSnoc(opts: Options, start: State, steps: seq<Step>, step: Step)
    requires Run(opts, start, steps) && Enabled(After(opts, start, steps), step)
    ensures Run(opts, start, steps + [step])
    ensures After(opts, start, steps + [step]) == Apply(opts, After(opts, start, steps), step)
  {
    hide Enabled, Apply;
    assert (steps + [step])[..|steps|] == steps;
  }

  lemma {:induction false} RunKeepsInv(opts: Options, start: State, steps: seq<Step>)
    requires opts.Valid() && Inv(opts, start) && Run(opts, start, steps)
    ensures Inv(opts, After(opts, start, steps))
  {
    hide Inv, Enabled, Apply;
    if steps != [] {
      var before := steps[..|steps| - 1];
      RunKeepsInv(opts, start, before);
      ApplyKeepsInv(opts, After(opts, start, before), steps[|steps| - 1]);
    }
  }

  lemma {:induction false} RowsSplit(flushes: seq<Flush>)
    ensures |Rows(flushes)| == RowsWhere(flushes, true) + RowsWhere(flushes, false)
  {
    if flushes != [] {
      RowsSplit(flushes[..|flushes| - 1]);
    }
  }

  /** At every point of every run the calls of Record are what is queued, batched, written,
      failed and dropped; what was accepted is, in that order, the flushes, the batch and
      the queue; and flushes are whole batches except for the last one. */
  lemma NothingUnaccounted(opts: Options, steps: seq<Step>)
    requires opts.Valid() && Run(opts, NEW, steps)
    ensures var st := After(opts, NEW, steps);
            && st.calls == |st.queue| + |st.rows| + RowsWhere(st.flushes, true) + st.failed + st.dropped
            && st.accepted == Rows(st.flushes) + st.rows + st.queue
            && |st.queue| <= opts.buffer
            && (forall i :: 0 <= i < |st.flushes| && (|st.flushes[i].rows| > opts.batch || st.flushes[i].cause == Final) ==>
                  i == |st.flushes| - 1)
            && (forall i :: 0 <= i < |st.flushes| && st.flushes[i].cause == Full ==> |st.flushes[i].rows| == opts.batch)
  {
    hide After, Rows, RowsWhere;
    NewIsSound(opts);
    RunKeepsInv(opts, NEW, steps);
    var st := After(opts, NEW, steps);
    RowsSplit(st.flushes);
    assert forall i :: 0 <= i < |st.flushes| ==> st.flushes[i] in st.flushes;
  }

  lemma NewIsSound(opts: Options)
    requires opts.Valid()
    ensures Inv(opts, NEW)
  {
  }

  /** When Run has returned, everything accepted has been written or counted as failed but
      for what came in after the drain, which is left in the queue; and the drops reported
      add up to all there were but for those after the last report. */
  lemma ShutdownLosesOnlyLatecomers(opts: Options, steps: seq<Step>)
    requires opts.Valid() && Run(opts, NEW, steps) && After(opts, NEW, steps).phase == Stopped
    ensures var st := After(opts, NEW, steps);
            && st.accepted == Rows(st.flushes) + st.queue && |st.queue| == st.afterDrain
            && |st.accepted| == RowsWhere(st.flushes, true) + st.failed + st.afterDrain
            && Sum(st.reports) + st.afterReport == st.dropped + st.failed
  {
    hide After, Rows, RowsWhere, Sum;
    NewIsSound(opts);
    RunKeepsInv(opts, NEW, steps);
    RowsSplit(After(opts, NEW, steps).flushes);
  }

  // What each step does ------------------------------------------------------------------------

  /** An exchange is dropped exactly when the queue is full, and otherwise queued last. */
  lemma RecordDropsExactlyWhenFull(opts: Options, st: State, ex: Exchange)
    requires Inv(opts, st)
    ensures var after := Apply(opts, st, Step.Record(ex));
            && after.calls == st.calls + 1
            && after.dropped == st.dropped + (if |st.queue| == opts.buffer then 1 else 0)
            && after.queue == st.queue + (if |st.queue| == opts.buffer then [] else [ex])
            && after.accepted == st.accepted + (if |st.queue| == opts.buffer then [] else [ex])
            && after.rows == st.rows && after.failed == st.failed && after.flushes == st.flushes && after.phase == st.phase
  {
    hide Rows, RowsWhere, Batched, Reports, Drained;
  }

  lemma OthersDropNothing(opts: Options, st: State, step: Step)
    requires Enabled(st, step) && !step.Record?
    ensures Apply(opts, st, step).dropped == st.dropped
  {
  }

  /** How many calls of Record met a full queue. */
  ghost function FullCalls(opts: Options, start: State, steps: seq<Step>): nat
    requires Run(opts, start, steps)
    decreases |steps|
  {
    if steps == [] then 0
    else
      var before, step := steps[..|steps| - 1], steps[|steps| - 1];
      FullCalls(opts, start, before) + if step.Record? && |After(opts, start, before).queue| == opts.buffer then 1 else 0
  }

  /** In every run as many exchanges are dropped as calls met a full queue; so a run in
      which none did drops nothing. */
  lemma {:induction false} DropsAreFullCalls(opts: Options, steps: seq<Step>)
    requires opts.Valid() && Run(opts, NEW, steps)
    ensures After(opts, NEW, steps).dropped == FullCalls(opts, NEW, steps)
  {
    hide Inv, Apply, Enabled;
    if steps != [] {
      var before, step := steps[..|steps| - 1], steps[|steps| - 1];
      DropsAreFullCalls(opts, before);
      NewIsSound(opts);
      RunKeepsInv(opts, NEW, before);
      match step
      case Record(ex) => RecordDropsExactlyWhenFull(opts, After(opts, NEW, before), ex);
      case _ => OthersDropNothing(opts, After(opts, NEW, before), step);
    }
  }

  /** A write begins exactly when an exchange completes a batch, a tick meets one that is not
      empty, or the drain has ended with one; the exchange taken is the oldest queued. */
  lemma WritesBeginExactlyWhen(opts: Options, st: State, step: Step)
    requires opts.Valid() && Inv(opts, st) && Enabled(st, step) && !st.phase.Writing?
    ensures var after := Apply(opts, st, step);
            && (after.phase.Writing? <==>
                  || (step.Receive? && |st.rows| + 1 == opts.batch)
                  || ((step.Tick? || step.DrainEnd?) && st.rows != []))
            && (after.phase.Writing? ==> after.phase.late == st.cancelled)
            && (step.Receive? || step.Drain? ==> after.rows == st.rows + [st.queue[0]] && after.queue == st.queue[1..])
            && (step.Tick? || step.DrainEnd? ==> after.rows == st.rows && after.queue == st.queue)
  {
    hide Accounted, Reports, Drained;
    InvIsBatched(opts, st);
  }

  /** The end of a write empties the batch, and counts it as failed exactly if the write did. */
  lemma WriteEndCounts(opts: Options, st: State, ok: bool)
    requires st.phase.Writing?
    ensures var after := Apply(opts, st, WriteEnd(ok));
            && after.rows == [] && after.queue == st.queue && after.failed == st.failed + if ok then 0 else |st.rows|
  {
  }

  /** Drops are reported exactly when there are new ones and either the recorder is stopping,
      none has been reported yet, or ten seconds have passed since the last report; what is
      reported is how many there are since. */
  lemma ReportsExactlyWhen(opts: Options, st: State, now: int)
    requires opts.Valid() && Inv(opts, st) && st.phase.Reporting?
    ensures var after, lost := Apply(opts, st, Report(now)), st.dropped + st.failed;
            var due := st.phase.force || st.lastWarn.None? || now - st.lastWarn.value >= 10_000_000_000;
            if lost > st.reported && due then
              after.reports == st.reports + [lost - st.reported] && after.reported == lost && after.lastWarn == Some(now)
            else
              after.reports == st.reports && after.reported == st.reported && after.lastWarn == st.lastWarn
  {
    hide Accounted, Batched, Drained, Sum;
  }

  // What shutdown loses with a writer that works ------------------------------------------------

  /** The context of a write: the recorder's, and only for the final flush one that
      shutdown does not cancel. */
  predicate OnDeadContext(cause: Cause, late: bool) {
    late && cause != Final
  }

  /** A writer with nothing wrong with it: a write succeeds exactly when its context was
      live as it began. */
  ghost predicate HealthyWriter(opts: Options, start: State, steps: seq<Step>)
    requires Run(opts, start, steps)
    decreases |steps|
  {
    steps != [] ==>
      var st, step := After(opts, start, steps[..|steps| - 1]), steps[|steps| - 1];
      && HealthyWriter(opts, start, steps[..|steps| - 1])
      && (step.WriteEnd? ==> (step.ok <==> !OnDeadContext(st.phase.cause, st.phase.late)))
  }

  /** The rows of the writes that began on a dead context. */
  function DeadRows(flushes: seq<Flush>): nat {
    if flushes == [] then 0
    else
      var last := flushes[|flushes| - 1];
      DeadRows(flushes[..|flushes| - 1]) + if OnDeadContext(last.cause, last.late) then |last.rows| else 0
  }

  lemma DeadRowsSnoc(flushes: seq<Flush>, f: Flush)
    ensures DeadRows(flushes + [f]) == DeadRows(flushes) + if OnDeadContext(f.cause, f.late) then |f.rows| else 0
  {
    assert (flushes + [f])[..|flushes|] == flushes;
  }

  lemma {:induction false} OnlyDeadWritesFail(opts: Options, steps: seq<Step>)
    requires Run(opts, NEW, steps) && HealthyWriter(opts, NEW, steps)
    ensures After(opts, NEW, steps).failed == DeadRows(After(opts, NEW, steps).flushes)
  {
    hide DeadRows, Recorded, ReportedDrops, OnDeadContext;
    if steps == [] {
      NoDeadRows();
    } else {
      var before, step := steps[..|steps| - 1], steps[|steps| - 1];
      OnlyDeadWritesFail(opts, before);
      var st := After(opts, NEW, before);
      if !step.WriteEnd? {
        KeepsHistory(opts, st, step);
      } else {
        DeadRowsSnoc(st.flushes, Flush(st.rows, step.ok, st.phase.cause, st.phase.late));
      }
    }
  }

  lemma NoDeadRows()
    ensures DeadRows([]) == 0
  {
  }

  /** Only the end of a write touches the flushes and the failures. */
  lemma KeepsHistory(opts: Options, st: State, step: Step)
    requires Enabled(st, step) && !step.WriteEnd?
    ensures Apply(opts, st, step).flushes == st.flushes && Apply(opts, st, step).failed == st.failed
  {
  }

  /** A step that begins a write of the batch on a context that is already cancelled: an
      exchange that fills the batch, or a tick that meets one, after Cancel. */
  predicate BeginsDeadWrite(opts: Options, st: State, step: Step) {
    st.cancelled && ((step.Receive? && |st.rows| + 1 >= opts.batch) || (step.Tick? && st.rows != []))
  }

  ghost predicate SomeDeadWrite(opts: Options, start: State, steps: seq<Step>)
    requires Run(opts, start, steps)
    decreases |steps|
  {
    steps != [] &&
    (var before := steps[..|steps| - 1];
     SomeDeadWrite(opts, start, before) || BeginsDeadWrite(opts, After(opts, start, before), steps[|steps| - 1]))
  }

  /** A write on a dead context has been finished, or is under way. */
  ghost predicate DeadWriteSeen(st: State) {
    DeadRows(st.flushes) > 0 || (st.phase.Writing? && OnDeadContext(st.phase.cause, st.phase.late))
  }

  lemma StepSeesDeadWrite(opts: Options, st: State, step: Step)
    requires opts.Valid() && Batched(opts, st) && Enabled(st, step)
    ensures DeadWriteSeen(Apply(opts, st, step)) <==> DeadWriteSeen(st) || BeginsDeadWrite(opts, st, step)
  {
    hide DeadRows, Recorded, ReportedDrops;
    if step.WriteEnd? {
      DeadRowsSnoc(st.flushes, Flush(st.rows, step.ok, st.phase.cause, st.phase.late));
    } else {
      KeepsHistory(opts, st, step);
      if step.Record? || step.Cancel? {
        KeepsPhase(opts, st, step);
      }
    }
  }

  lemma KeepsPhase(opts: Options, st: State, step: Step)
    requires step.Record? || step.Cancel?
    ensures Apply(opts, st, step).phase == st.phase
  {
  }

  lemma {:induction false} DeadWritesAreSeen(opts: Options, steps: seq<Step>)
    requires opts.Valid() && Run(opts, NEW, steps)
    ensures DeadWriteSeen(After(opts, NEW, steps)) <==> SomeDeadWrite(opts, NEW, steps)
  {
    hide DeadWriteSeen, BeginsDeadWrite, Apply, Enabled, Inv;
    if steps == [] {
      NothingSeen();
    } else {
      var before := steps[..|steps| - 1];
      DeadWritesAreSeen(opts, before);
      NewIsSound(opts);
      RunKeepsInv(opts, NEW, before);
      InvIsBatched(opts, After(opts, NEW, before));
      StepSeesDeadWrite(opts, After(opts, NEW, before), steps[|steps| - 1]);
    }
  }

  lemma NothingSeen()
    ensures !DeadWriteSeen(NEW)
  {
  }

  lemma InvIsBatched(opts: Options, st: State)
    requires Inv(opts, st)
    ensures Batched(opts, st)
  {
  }

  /** With a healthy writer, when Run has returned, what failed is exactly the rows whose
      write began after Cancel and before the final flush; everything else accepted before
      the drain ended has been written. So nothing of it is lost if and only if, between
      Cancel and Done, no exchange filled a batch and no tick met one. */
  lemma ShutdownLosesNothingExactlyWhen(opts: Options, steps: seq<Step>)
    requires opts.Valid() && Run(opts, NEW, steps) && HealthyWriter(opts, NEW, steps)
    requires After(opts, NEW, steps).phase == Stopped
    ensures var st := After(opts, NEW, steps);
            && st.failed == DeadRows(st.flushes)
            && |st.accepted| == RowsWhere(st.flushes, true) + DeadRows(st.flushes) + st.afterDrain
            && (RowsWhere(st.flushes, true) == |st.accepted| - st.afterDrain <==> !SomeDeadWrite(opts, NEW, steps))
  {
    hide After, Run, HealthyWriter, DeadRows, RowsWhere, SomeDeadWrite;
    ShutdownLosesOnlyLatecomers(opts, steps);
    OnlyDeadWritesFail(opts, steps);
    DeadWritesAreSeen(opts, steps);
  }

  lemma HealthySnoc(opts: Options, start: State, steps: seq<Step>, step: Step)
    requires Run(opts, start, steps) && Enabled(After(opts, start, steps), step) && HealthyWriter(opts, start, steps)
    requires var st := After(opts, start, steps);
             step.WriteEnd? ==> (step.ok <==> !OnDeadContext(st.phase.cause, st.phase.late))
    ensures Run(opts, start, steps + [step]) && HealthyWriter(opts, start, steps + [step])
    ensures After(opts, start, steps + [step]) == Apply(opts, After(opts, start, steps), step)
  {
    hide Enabled, Apply, OnDeadContext;
    RunSnoc(opts, start, steps, step);
    assert (steps + [step])[..|steps|] == steps;
  }

  lemma EmptyRun(opts: Options)
    ensures Run(opts, NEW, []) && After(opts, NEW, []) == NEW && HealthyWriter(opts, NEW, [])
  {
  }

  const LOST := Flush([1], false, Full, true)

  /** An exchange is accepted, the context is cancelled, and the select still chooses the queue. */
  lemma LateBatch(opts: Options) returns (steps: seq<Step>)
    requires opts == Options(1, 1)
    ensures Run(opts, NEW, steps) && HealthyWriter(opts, NEW, steps)
    ensures After(opts, NEW, steps) == NEW.(phase := Writing(Full, true), cancelled := true, rows := [1], calls := 1, accepted := [1])
  {
    hide Run, After, HealthyWriter;
    EmptyRun(opts);
    HealthySnoc(opts, NEW, [], Record(1));
    steps := [] + [Record(1)];
    assert After(opts, NEW, steps) == NEW.(queue := [1], calls := 1, accepted := [1]);
    HealthySnoc(opts, NEW, steps, Cancel);
    steps := steps + [Cancel];
    HealthySnoc(opts, NEW, steps, Receive);
    steps := steps + [Receive];
  }

  lemma LateBatchFails(opts: Options) returns (steps: seq<Step>)
    requires opts == Options(1, 1)
    ensures Run(opts, NEW, steps) && HealthyWriter(opts, NEW, steps)
    ensures After(opts, NEW, steps)
         == NEW.(phase := Draining, cancelled := true, failed := 1, calls := 1, accepted := [1], flushes := [LOST])
  {
    hide Run, After, HealthyWriter;
    steps := LateBatch(opts);
    HealthySnoc(opts, NEW, steps, WriteEnd(false));
    steps := steps + [WriteEnd(false)];
    assert After(opts, NEW, steps).flushes == [LOST];
    HealthySnoc(opts, NEW, steps, Done);
    steps := steps + [Done];
  }

  /** And it does happen, with a batch of one: the one exchange accepted before shutdown is
      not written, although the writer has nothing wrong with it. */
  lemma FilledBatchIsLost(opts: Options)
    requires opts == Options(1, 1)
    ensures exists steps ::
              && Run(opts, NEW, steps) && HealthyWriter(opts, NEW, steps)
              && var st := After(opts, NEW, steps);
                 && st.phase == Stopped && st.calls == 1 && |st.accepted| == 1 && st.afterDrain == 0
                 && st.failed == 1 && RowsWhere(st.flushes, true) == 0
  {
    hide Run, After, HealthyWriter, RowsWhere;
    var steps := LateBatchFails(opts);
    HealthySnoc(opts, NEW, steps, DrainEnd);
    steps := steps + [DrainEnd];
    HealthySnoc(opts, NEW, steps, Report(0));
    steps := steps + [Report(0)];
    NoRows();
    FlushSnoc([], LOST);
    assert [] + [LOST] == After(opts, NEW, steps).flushes;
  }

  lemma NoRows()
    ensures RowsWhere([], true) == 0
  {
  }

  // The recorder itself --------------------------------------------------------------------------

  class Recorder {
    const opts: Options
    var queue: seq<Exchange>
    var batch: seq<Exchange>
    var dropped: nat
    var failed: nat
    var reported: nat
    var lastWarn: Option<int>
    /** Where this recorder is among the steps above, with its history. */
    ghost var st: State

    ghost predicate Valid()
      reads this
    {
      && opts.Valid() && Inv(opts, st)
      && queue == st.queue && batch == st.rows
      && dropped == st.dropped && failed == st.failed && reported == st.reported && lastWarn == st.lastWarn
    }

    constructor (buffer: int, batch: int)
      ensures Valid() && st == NEW
      ensures opts == Options(if buffer <= 0 then 1000 else buffer, if batch <= 0 then 200 else batch)
    {
      opts := Options(if buffer <= 0 then 1000 else buffer, if batch <= 0 then 200 else batch);
      queue, this.batch, dropped, failed, reported, lastWarn := [], [], 0, 0, 0, None;
      st := NEW;
    }

    /** Queues an exchange or counts a drop; never waits. */
    method Record(ex: Exchange)
      requires Valid()
      modifies this
      ensures Valid() && st == Apply(opts, old(st), Step.Record(ex))
    {
      hide Inv;
      ApplyKeepsInv(opts, st, Step.Record(ex));
      if |queue| < opts.buffer {
        queue := queue + [ex];
      } else {
        dropped := dropped + 1;
      }
      st := Apply(opts, st, Step.Record(ex));
    }

    /** Writes the batch, if there is one; `ok` is the writer's answer. */
    method Flush(ok: bool)
      requires Valid() && (batch != [] ==> st.phase.Writing?)
      modifies this
      ensures Valid()
      ensures st == if old(batch) == [] then old(st) else Apply(opts, old(st), WriteEnd(ok))
    {
      hide Inv;
      if |batch| == 0 {
        return;
      }
      ApplyKeepsInv(opts, st, WriteEnd(ok));
      if !ok {
        failed := failed + |batch|;
      }
      batch := [];
      st := Apply(opts, st, WriteEnd(ok));
    }

    /** Warns about new drops, at most once an interval unless forced. */
    method ReportDrops(force: bool, now: int)
      requires Valid() && st.phase == Reporting(force)
      modifies this
      ensures Valid() && st == Apply(opts, old(st), Report(now))
    {
      hide Inv;
      ApplyKeepsInv(opts, st, Report(now));
      st := Apply(opts, st, Report(now));
      var total := dropped + failed;
      if total == reported {
        return;
      }
      if !force && lastWarn.Some? && now - lastWarn.value < DROP_REPORT {
        return;
      }
      reported := total;
      lastWarn := Some(now);
    }

    /** The arm of the select that takes an exchange off the queue. */
    method OnReceive(ok: bool, ghost start: State, ghost steps: seq<Step>) returns (ghost taken: seq<Step>)
      requires Valid() && st.phase == Choosing && queue != []
      requires Run(opts, start, steps) && After(opts, start, steps) == st
      modifies this
      ensures Valid() && Run(opts, start, taken) && After(opts, start, taken) == st
      ensures taken == steps + [Receive] + if |old(batch)| + 1 >= opts.batch then [WriteEnd(ok)] else []
    {
      hide Inv, Run, After, Written, Accounted, Batched, Reports, Drained;
      RunSnoc(opts, start, steps, Receive);
      ApplyKeepsInv(opts, st, Receive);
      taken := steps + [Receive];
      batch := batch + [queue[0]];
      queue := queue[1..];
      st := Apply(opts, st, Receive);
      if |batch| >= opts.batch {
        RunSnoc(opts, start, taken, WriteEnd(ok));
        Flush(ok);
        taken := taken + [WriteEnd(ok)];
      }
    }

    method OnTick(ok: bool, now: int, ghost start: State, ghost steps: seq<Step>) returns (ghost taken: seq<Step>)
      requires Valid() && st.phase == Choosing
      requires Run(opts, start, steps) && After(opts, start, steps) == st
      modifies this
      ensures Valid() && Run(opts, start, taken) && After(opts, start, taken) == st
      ensures taken == steps + [Tick] + (if old(batch) == [] then [] else [WriteEnd(ok)]) + [Report(now)]
    {
      hide Inv, Run, After;
      RunSnoc(opts, start, steps, Tick);
      ApplyKeepsInv(opts, st, Tick);
      taken := steps + [Tick];
      st := Apply(opts, st, Tick);
      if batch != [] {
        RunSnoc(opts, start, taken, WriteEnd(ok));
        taken := taken + [WriteEnd(ok)];
      }
      Flush(ok);
      RunSnoc(opts, start, taken, Report(now));
      ReportDrops(false, now);
      taken := taken + [Report(now)];
    }

    /** Empties the queue without waiting. */
    method DrainAll(ghost start: State, ghost steps: seq<Step>) returns (ghost taken: seq<Step>)
      requires Valid() && st.phase == Draining
      requires Run(opts, start, steps) && After(opts, start, steps) == st
      modifies this
      ensures Valid() && st.phase == Draining && queue == [] && batch == old(batch) + old(queue)
      ensures dropped == old(dropped) && failed == old(failed) && reported == old(reported)
      ensures Run(opts, start, taken) && After(opts, start, taken) == st
    {
      hide Inv, Run, After;
      taken := steps;
      while queue != []
        invariant Valid() && st.phase == Draining && batch + queue == old(batch) + old(queue)
        invariant dropped == old(dropped) && failed == old(failed) && reported == old(reported)
        invariant Run(opts, start, taken) && After(opts, start, taken) == st
        decreases |queue|
      {
        RunSnoc(opts, start, taken, Drain);
        ApplyKeepsInv(opts, st, Drain);
        taken := taken + [Drain];
        batch := batch + [queue[0]];
        queue := queue[1..];
        st := Apply(opts, st, Drain);
      }
    }

    /** Shutdown: everything queued is flushed, then the drops are reported unconditionally. */
    method OnDone(ok: bool, now: int, ghost start: State, ghost steps: seq<Step>) returns (ghost taken: seq<Step>)
      requires Valid() && st.phase == Choosing && st.cancelled
      requires Run(opts, start, steps) && After(opts, start, steps) == st
      modifies this
      ensures Valid() && Run(opts, start, taken) && After(opts, start, taken) == st
      ensures st.phase == Stopped && queue == [] && batch == []
      ensures failed == old(failed) + if ok then 0 else |old(batch) + old(queue)|
      ensures reported == dropped + failed && dropped == old(dropped)
    {
      hide Inv, Run, After;
      RunSnoc(opts, start, steps, Done);
      ApplyKeepsInv(opts, st, Done);
      taken := steps + [Done];
      st := Apply(opts, st, Done);
      taken := DrainAll(start, taken);
      taken := WriteTheRest(ok, now, start, taken);
    }

    method WriteTheRest(ok: bool, now: int, ghost start: State, ghost steps: seq<Step>) returns (ghost taken: seq<Step>)
      requires Valid() && st.phase == Draining && queue == []
      requires Run(opts, start, steps) && After(opts, start, steps) == st
      modifies this
      ensures Valid() && Run(opts, start, taken) && After(opts, start, taken) == st
      ensures st.phase == Stopped && queue == [] && batch == []
      ensures failed == old(failed) + if ok then 0 else |old(batch)|
      ensures reported == dropped + failed && dropped == old(dropped)
    {
      hide Inv, Run, After;
      RunSnoc(opts, start, steps, DrainEnd);
      ApplyKeepsInv(opts, st, DrainEnd);
      taken := steps + [DrainEnd];
      st := Apply(opts, st, DrainEnd);
      if batch != [] {
        RunSnoc(opts, start, taken, WriteEnd(ok));
        taken := taken + [WriteEnd(ok)];
      }
      Flush(ok);
      RunSnoc(opts, start, taken, Report(now));
      ReportDrops(true, now);
      taken := taken + [Report(now)];
    }
  }
}
