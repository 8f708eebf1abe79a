/** What the progress bar shows for a batch, and when it reaches "Finished". */
module CopyProgress {
  import opened CopyEngine
  import opened Wrappers

  predicate BeforeFirstEvent(worker: Worker) {
    worker.NotStarted? || worker.ResetProgress? || worker.FireFirst?
  }

  predicate HoldsFile(worker: Worker) {
    worker.TestCancelled? || worker.CallSend? || worker.Sending?
  }

  predicate Announcing(worker: Worker) {
    worker.WriteOld? || worker.WriteNew? || worker.FireCopied?
  }

  /** The shared arrays, as the worker leaves them at each program point. */
  predicate Boxes(worker: Worker, e: Events) {
    if worker.NoWorker? || BeforeFirstEvent(worker) then e.pending == 0 && e.filesCopied == 0
    else if worker.WriteNew? then e.newBox == e.filesCopied && e.oldBox == e.filesCopied
    else if worker.FireCopied? then e.newBox == e.filesCopied + 1 && e.oldBox == e.filesCopied
    else (worker.Finished? && e.pending == 0) || (e.newBox == e.filesCopied && e.oldBox == e.filesCopied - 1)
  }

  /**
   How many events the worker has fired, and how a batch of `n` files is divided between `taken` files,
   the one in hand and the `queued` ones.
   */
  predicate Stage(worker: Worker, e: Events, taken: int, queued: nat, n: nat, drained: bool) {
    && e.stale == 0
    && (drained ==> (worker.Returning? || worker.Finished?) && e.delivered + e.pending == n + 1)
    && (if BeforeFirstEvent(worker) then
          e.delivered == 0 && e.pending == 0 && e.filesCopied == 0 && taken == 0 && queued == n
        else if worker.Take? then
          e.delivered + e.pending == e.filesCopied + 1 && taken == e.filesCopied && taken + queued == n
        else if HoldsFile(worker) then
          e.delivered + e.pending == e.filesCopied + 1 && taken == e.filesCopied && taken + 1 + queued == n
        else if Announcing(worker) then
          e.delivered + e.pending == e.filesCopied + 1 && taken == e.filesCopied + 1 && taken + queued == n
        else
          e.delivered + e.pending <= n + 1)
  }

  /** The bar has made one step per delivery that found the arrays different. */
  predicate BarShows(e: Events, bar: Bar, n: nat, transferredOk: nat) {
    && e.missed <= e.delivered
    && var steps := e.delivered - e.missed;
      && bar.max == n && steps <= n + 1
      && bar.value == (if steps <= n then steps else 0)
      && bar.finished == (if steps == n + 1 then Some(n - transferredOk) else None)
  }

  predicate CleanBatch(s: State) {
    && !s.worker.NoWorker?
    && Stage(s.worker, s.events, |s.past.log| - s.past.batchStart, |s.queue|, s.past.batchSize, s.past.drained)
    && BarShows(s.events, s.bar, s.past.batchSize, s.transferredOk)
  }

  predicate Inv(s: State) {
    Boxes(s.worker, s.events) && (s.past.clean ==> CleanBatch(s))
  }

  /** A step that fires at most one event and delivers none leaves the bar alone. */
  lemma BarUnchanged(e: Events, e': Events, bar: Bar, n: nat, ok: nat, ok': nat)
    requires BarShows(e, bar, n, ok) && e'.delivered == e.delivered && e'.missed == e.missed
    requires ok' == ok || e.delivered <= n
    ensures BarShows(e', bar, n, ok')
  {
  }

  lemma StartKeeps(s: State, rc: SendResult)
    requires Inv(s) && BeforeFirstEvent(s.worker)
    ensures Inv(WorkerNext(s, rc))
  {
    var s' := WorkerNext(s, rc);
    if s.past.clean {
      BarUnchanged(s.events, s'.events, s.bar, s.past.batchSize, s.transferredOk, s'.transferredOk);
    }
    hide BarShows;
  }

  lemma TakeKeeps(s: State, rc: SendResult)
    requires Inv(s) && s.worker.Take?
    ensures Inv(WorkerNext(s, rc))
  {
    hide BarShows;
  }

  lemma HoldingKeeps(s: State, rc: SendResult)
    requires Inv(s) && HoldsFile(s.worker)
    ensures Inv(WorkerNext(s, rc))
  {
    var s' := WorkerNext(s, rc);
    if s.past.clean {
      BarUnchanged(s.events, s'.events, s.bar, s.past.batchSize, s.transferredOk, s'.transferredOk);
    }
    hide BarShows;
  }

  lemma AnnouncingKeeps(s: State, rc: SendResult)
    requires Inv(s) && Announcing(s.worker)
    ensures Inv(WorkerNext(s, rc))
  {
    var s' := WorkerNext(s, rc);
    if s.past.clean {
      BarUnchanged(s.events, s'.events, s.bar, s.past.batchSize, s.transferredOk, s'.transferredOk);
    }
    hide BarShows;
  }

  lemma LeavingKeeps(s: State, rc: SendResult)
    requires Inv(s) && WorkerCanStep(s) && (s.worker.SetDone? || s.worker.Notify? || s.worker.Returning?)
    ensures Inv(WorkerNext(s, rc))
  {
    hide BarShows;
  }

  lemma WorkerKeeps(s: State, rc: SendResult)
    requires Inv(s) && WorkerCanStep(s)
    ensures Inv(WorkerNext(s, rc))
  {
    hide Inv, WorkerNext;
    if BeforeFirstEvent(s.worker) {
      StartKeeps(s, rc);
    } else if s.worker.Take? {
      TakeKeeps(s, rc);
    } else if HoldsFile(s.worker) {
      HoldingKeeps(s, rc);
    } else if Announcing(s.worker) {
      AnnouncingKeeps(s, rc);
    } else {
      LeavingKeeps(s, rc);
    }
  }

  lemma StepShows(e: Events, e': Events, bar: Bar, n: nat, ok: nat)
    requires BarShows(e, bar, n, ok) && e.delivered <= n && e'.delivered == e.delivered + 1
    ensures e'.missed == e.missed ==> BarShows(e', StepBar(bar, ok), n, ok)
    ensures e'.missed == e.missed + 1 ==> BarShows(e', bar, n, ok)
  {
  }

  lemma DeliverKeeps(s: State)
    requires Inv(s) && CanDeliver(s)
    ensures Inv(DeliverNext(s))
  {
    if s.past.clean {
      StepShows(s.events, DeliverNext(s).events, s.bar, s.past.batchSize, s.transferredOk);
    }
    hide BarShows, StepBar;
  }

  lemma TerminateKeeps(s: State)
    requires Inv(s) && TerminateCanStep(s)
    ensures Inv(TerminateNext(s))
  {
    hide Boxes, Stage, BarShows;
  }

  lemma StepKeeps(s: State, step: Step)
    requires Inv(s) && Enabled(s, step)
    ensures Inv(Next(s, step))
  {
    hide WorkerNext, TerminateNext, DeliverNext;
    match step
    case WorkerStep(rc) => WorkerKeeps(s, rc);
    case TerminateStep => TerminateKeeps(s);
    case Deliver => DeliverKeeps(s);
    case CopyFiles(_) =>
    case SpuriousWake =>
    case Connect(_) =>
    case Disconnect =>
  }

  lemma ExecuteKeeps(s: State, schedule: seq<Step>)
    requires Inv(s) && Feasible(s, schedule)
    ensures Inv(Execute(s, schedule))
  {
    hide Inv, Next, Enabled;
    forall t, step | Inv(t) && Enabled(t, step)
      ensures Inv(Next(t, step))
    {
      StepKeeps(t, step);
    }
    RunKeeps(t => Inv(t), s, schedule);
  }

  /**
   In every interleaving, a delivery misses the bar exactly when it falls between the worker's two
   writes to the shared arrays.
   */
  lemma MissedExactlyBetweenWrites(schedule: seq<Step>)
    requires Feasible(Init(), schedule)
    requires CanDeliver(Execute(Init(), schedule)) && Execute(Init(), schedule).events.stale == 0
    ensures var s := Execute(Init(), schedule);
            DeliverNext(s).events.missed == s.events.missed + (if s.worker.WriteNew? then 1 else 0)
  {
    ExecuteKeeps(Init(), schedule);
  }

  /** The worker has met the end of the queue, and every event it fired has been delivered. */
  predicate BatchOver(s: State) {
    s.past.drained && s.worker.Finished? && s.events.pending == 0
  }

  /**
   For a batch of any size that began with an empty bar, queue and event queue, in every interleaving:
   the bar reaches "Finished" only with the last of the batch's n + 1 events, and then reports the files
   that were not sent; before that the bar shows the events delivered and not missed, 1 to n in turn; and
   when the batch is over it has returned to zero and finished exactly if no delivery was missed, and
   otherwise stands still at n + 1 minus the missed ones.
   */
  lemma BatchProgress(schedule: seq<Step>)
    requires Feasible(Init(), schedule) && Execute(Init(), schedule).past.clean
    ensures var s := Execute(Init(), schedule);
            var n, e := s.past.batchSize, s.events;
            && (s.bar.finished.Some? ==> e.delivered == n + 1 && e.pending == 0 && e.missed == 0)
            && (s.bar.finished.Some? ==> s.bar.finished == Some(n - s.transferredOk))
            && 0 <= e.delivered - e.missed <= n + 1
            && s.bar.value == (if e.delivered - e.missed <= n then e.delivered - e.missed else 0)
            && (s.bar.finished.Some? <==> e.delivered - e.missed == n + 1)
            && (BatchOver(s) ==>
                  && e.delivered == n + 1 && (s.bar.finished.Some? <==> e.missed == 0)
                  && s.bar.value == (if e.missed == 0 then 0 else n + 1 - e.missed))
  {
    ExecuteKeeps(Init(), schedule);
  }

  // ----- the bar in any run -----

  /** What the bar should count to, and the deliveries since then that found the two arrays different. */
  datatype Count = Count(max: nat, steps: nat)

  function Counted(s: State, count: Count, schedule: seq<Step>): Count
    requires Feasible(s, schedule)
    decreases |schedule|
  {
    if schedule == [] then count
    else Counted(Next(s, schedule[0]), CountAfter(s, count, schedule[0]), schedule[1..])
  }

  /** A new batch counts its own files and what the bar shows of earlier ones. */
  function CountAfter(s: State, count: Count, step: Step): Count {
    match step
    case CopyFiles(files) => Count(|files| + Wrapped(count.steps, count.max), 0)
    case Deliver =>
      if s.events.stale > 0 || s.events.newBox != s.events.oldBox then count.(steps := count.steps + 1) else count
    case _ => count
  }

  /** `steps` modulo `max + 1`. */
  function Wrapped(steps: nat, max: nat): nat {
    if steps <= max then steps else Wrapped(steps - max - 1, max)
  }

  /** After its maximum the bar starts again from zero, and says "Finished". */
  predicate BarAt(bar: Bar, count: Count) {
    && bar.max == count.max && bar.value == Wrapped(count.steps, count.max)
    && (bar.finished.Some? <==> count.steps > count.max)
  }

  lemma {:induction false} WrappedNext(steps: nat, max: nat)
    ensures Wrapped(steps, max) <= max
    ensures Wrapped(steps + 1, max) == if Wrapped(steps, max) == max then 0 else Wrapped(steps, max) + 1
  {
    if steps > max {
      WrappedNext(steps - max - 1, max);
    }
  }

  lemma BarMoves(bar: Bar, count: Count, transferredOk: nat)
    requires BarAt(bar, count)
    ensures BarAt(StepBar(bar, transferredOk), count.(steps := count.steps + 1))
  {
    WrappedNext(count.steps, bar.max);
  }

  lemma BarStepKeeps(s: State, count: Count, step: Step)
    requires BarAt(s.bar, count) && Enabled(s, step)
    ensures BarAt(Next(s, step).bar, CountAfter(s, count, step))
  {
    hide BarAt, StepBar, WorkerNext, TerminateNext;
    match step
    case Deliver => BarMoves(s.bar, count, s.transferredOk);
    case CopyFiles(files) => FreshBar(s.bar, count, Next(s, step).bar, |files|);
    case WorkerStep(rc) => WorkerLeavesBar(s, rc);
    case TerminateStep => TerminateLeavesBar(s);
    case SpuriousWake =>
    case Connect(_) =>
    case Disconnect =>
  }

  lemma FreshBar(before: Bar, count: Count, after: Bar, size: nat)
    requires BarAt(before, count) && after == Bar(0, size + before.value, None)
    ensures BarAt(after, Count(size + Wrapped(count.steps, count.max), 0))
  {
  }

  lemma WorkerLeavesBar(s: State, rc: SendResult)
    requires WorkerCanStep(s)
    ensures WorkerNext(s, rc).bar == s.bar
  {
  }

  lemma TerminateLeavesBar(s: State)
    requires TerminateCanStep(s)
    ensures TerminateNext(s).bar == s.bar
  {
  }

  lemma {:induction false} BarFollowsCount(s: State, count: Count, schedule: seq<Step>)
    requires BarAt(s.bar, count) && Feasible(s, schedule)
    ensures BarAt(Execute(s, schedule).bar, Counted(s, count, schedule))
    decreases |schedule|
  {
    hide BarAt, Next, Enabled, CountAfter;
    if schedule != [] {
      BarStepKeeps(s, count, schedule[0]);
      BarFollowsCount(Next(s, schedule[0]), CountAfter(s, count, schedule[0]), schedule[1..]);
    }
  }

  /**
   In every interleaving, whatever earlier batches have left behind: the bar counts the deliveries that found the
   arrays different, modulo its maximum plus one, and "Finished" has appeared exactly if it has passed its maximum.
   */
  lemma BarCountsDeliveries(schedule: seq<Step>)
    requires Feasible(Init(), schedule)
    ensures BarAt(Execute(Init(), schedule).bar, Counted(Init(), Count(100, 0), schedule))
  {
    BarFollowsCount(Init(), Count(100, 0), schedule);
  }

  /** The events fired in a run. */
  function Fired(s: State, schedule: seq<Step>): nat
    requires Feasible(s, schedule)
    decreases |schedule|
  {
    if schedule == [] then 0 else FiredNow(s, schedule[0]) + Fired(Next(s, schedule[0]), schedule[1..])
  }

  function FiredNow(s: State, step: Step): nat {
    if step.WorkerStep? && (s.worker.FireFirst? || s.worker.FireCopied?) then 1 else 0
  }

  function Deliveries(schedule: seq<Step>): nat {
    if schedule == [] then 0 else (if schedule[0].Deliver? then 1 else 0) + Deliveries(schedule[1..])
  }

  lemma WorkerFires(s: State, rc: SendResult)
    requires WorkerCanStep(s)
    ensures var e, e' := s.events, WorkerNext(s, rc).events;
            e'.stale == e.stale && e'.pending == e.pending + FiredNow(s, WorkerStep(rc))
  {
  }

  lemma EventsStep(s: State, step: Step)
    requires Enabled(s, step)
    ensures var e, e' := s.events, Next(s, step).events;
            e'.stale + e'.pending + Deliveries([step]) == e.stale + e.pending + FiredNow(s, step)
  {
    hide WorkerNext, StepBar;
    if step.WorkerStep? {
      WorkerFires(s, step.rc);
    }
  }

  /** In every interleaving an event fired has been delivered once or is still to be, also after its batch is over. */
  lemma {:induction false} EventsConserved(s: State, schedule: seq<Step>)
    requires Feasible(s, schedule)
    ensures var e, e' := s.events, Execute(s, schedule).events;
            e'.stale + e'.pending + Deliveries(schedule) == e.stale + e.pending + Fired(s, schedule)
    decreases |schedule|
  {
    hide Next, Enabled, FiredNow;
    if schedule != [] {
      EventsStep(s, schedule[0]);
      assert [schedule[0]][1..] == [] && Deliveries([schedule[0]]) == if schedule[0].Deliver? then 1 else 0;
      EventsConserved(Next(s, schedule[0]), schedule[1..]);
    }
  }

  /** The arrays of a batch that is over differ for good, so that its late events always move the bar. */
  lemma StaleArraysDiffer(schedule: seq<Step>)
    requires Feasible(Init(), schedule) && CanCopy(Execute(Init(), schedule))
    ensures var e := Execute(Init(), schedule).events; e.pending > 0 ==> e.newBox != e.oldBox
  {
    ExecuteKeeps(Init(), schedule);
  }

  // ----- a batch whose bar never finishes -----

  lemma {:induction false} Append(s: State, first: seq<Step>, second: seq<Step>)
    requires Feasible(s, first) && Feasible(Execute(s, first), second)
    ensures Feasible(s, first + second)
    ensures Execute(s, first + second) == Execute(Execute(s, first), second)
    decreases |first|
  {
    hide Next, Enabled;
    if first == [] {
      assert first + second == second;
    } else {
      assert (first + second)[1..] == first[1..] + second;
      Append(Next(s, first[0]), first[1..], second);
    }
  }

  function Request(f: File): seq<Step> {
    [Connect([true]), CopyFiles([f]), WorkerStep(Zero), WorkerStep(Zero)]
  }

  function Send(): seq<Step> {
    [WorkerStep(Zero), WorkerStep(Zero), WorkerStep(Zero), WorkerStep(Zero)]
  }

  function DeliverBetweenWrites(): seq<Step> {
    [WorkerStep(Zero), WorkerStep(Zero), Deliver]
  }

  function Leave(): seq<Step> {
    [WorkerStep(Zero), WorkerStep(Zero), WorkerStep(Zero), WorkerStep(Zero)]
  }

  function Finish(): seq<Step> {
    [Deliver]
  }

  /** One file is copied, and the event fired before it is delivered between the two writes after it. */
  function UnluckyRun(f: File): seq<Step> {
    Request(f) + Send() + DeliverBetweenWrites() + Leave() + Finish()
  }

  function Requested(f: File): State {
    State([f], FireFirst, Ready, false, 0, true, true, 0,
          Events(0, -1, 0, 0, 0, 0, 0), Bar(0, 1, None), Past([f], [], 0, 0, 1, true, false))
  }

  function InSend(f: File): State {
    State([], Sending(f), Ready, false, 0, true, true, 0,
          Events(0, -1, 0, 0, 1, 0, 0), Bar(0, 1, None), Past([f], [], 1, 0, 1, true, false))
  }

  function Missed(f: File): State {
    State([], WriteNew, Ready, false, 0, true, true, 1,
          Events(0, 0, 0, 0, 0, 1, 1), Bar(0, 1, None), Past([f], [Sent(f, true)], 1, 0, 1, true, false))
  }

  function Drained(f: File): State {
    State([], Finished, Ready, false, 0, true, true, 1,
          Events(1, 0, 1, 0, 1, 1, 1), Bar(0, 1, None), Past([f], [Sent(f, true)], 1, 0, 1, true, true))
  }

  lemma Plays(s: State, step: Step, rest: seq<Step>)
    requires Enabled(s, step) && Feasible(Next(s, step), rest)
    ensures Feasible(s, [step] + rest) && Execute(s, [step] + rest) == Execute(Next(s, step), rest)
  {
    hide Next, Enabled;
    assert ([step] + rest)[1..] == rest;
  }

  lemma PlaysTwo(s: State, a: Step, b: Step)
    requires Enabled(s, a) && Enabled(Next(s, a), b)
    ensures Feasible(s, [a, b]) && Execute(s, [a, b]) == Next(Next(s, a), b)
  {
    hide Next, Enabled;
    Plays(Next(s, a), b, []);
    assert [b] + [] == [b];
    Plays(s, a, [b]);
    assert [a] + [b] == [a, b];
  }

  lemma PlaysFour(s: State, a: Step, b: Step, c: Step, d: Step)
    requires Enabled(s, a) && Enabled(Next(s, a), b)
    requires Enabled(Next(Next(s, a), b), c) && Enabled(Next(Next(Next(s, a), b), c), d)
    ensures Feasible(s, [a, b, c, d]) && Execute(s, [a, b, c, d]) == Next(Next(Next(Next(s, a), b), c), d)
  {
    hide Next, Enabled;
    PlaysTwo(s, a, b);
    PlaysTwo(Next(Next(s, a), b), c, d);
    Append(s, [a, b], [c, d]);
    assert [a, b] + [c, d] == [a, b, c, d];
  }

  lemma RequestRuns(f: File)
    ensures Feasible(Init(), Request(f)) && Execute(Init(), Request(f)) == Requested(f)
  {
    PlaysFour(Init(), Connect([true]), CopyFiles([f]), WorkerStep(Zero), WorkerStep(Zero));
    hide Execute, Feasible;
    assert [] + [f] == [f];
  }

  lemma SendRuns(f: File)
    ensures Feasible(Requested(f), Send()) && Execute(Requested(f), Send()) == InSend(f)
  {
    PlaysFour(Requested(f), WorkerStep(Zero), WorkerStep(Zero), WorkerStep(Zero), WorkerStep(Zero));
    hide Execute, Feasible;
  }

  lemma DeliveryMisses(f: File)
    ensures Feasible(InSend(f), DeliverBetweenWrites()) && Execute(InSend(f), DeliverBetweenWrites()) == Missed(f)
  {
    PlaysTwo(InSend(f), WorkerStep(Zero), WorkerStep(Zero));
    var s := Next(Next(InSend(f), WorkerStep(Zero)), WorkerStep(Zero));
    Plays(s, Deliver, []);
    Append(InSend(f), [WorkerStep(Zero), WorkerStep(Zero)], [Deliver] + []);
    assert Execute(Next(s, Deliver), []) == Next(s, Deliver);
    hide Execute, Feasible;
    assert [WorkerStep(Zero), WorkerStep(Zero)] + ([Deliver] + []) == DeliverBetweenWrites();
    assert [] + [Sent(f, true)] == [Sent(f, true)];
  }

  lemma LeaveRuns(f: File)
    ensures Feasible(Missed(f), Leave()) && Execute(Missed(f), Leave()) == Drained(f)
  {
    PlaysFour(Missed(f), WorkerStep(Zero), WorkerStep(Zero), WorkerStep(Zero), WorkerStep(Zero));
    hide Execute, Feasible;
  }

  lemma FinishRuns(f: File)
    ensures Feasible(Drained(f), Finish())
    ensures var s := Execute(Drained(f), Finish());
            s.past.clean && BatchOver(s) && s.bar == Bar(1, 1, None) && s.transferredOk == 1
  {
    Plays(Drained(f), Deliver, []);
    assert [Deliver] + [] == Finish();
    assert Execute(Next(Drained(f), Deliver), []) == Next(Drained(f), Deliver);
    hide Execute, Feasible;
  }

  /** The only file of a batch was sent, every event was delivered, and the bar stands at 1 of 1 for good. */
  lemma BarCanStick(f: File)
    ensures Feasible(Init(), UnluckyRun(f))
    ensures var s := Execute(Init(), UnluckyRun(f));
            s.past.clean && BatchOver(s) && s.bar == Bar(1, 1, None) && s.transferredOk == 1
  {
    RequestRuns(f);
    SendRuns(f);
    DeliveryMisses(f);
    LeaveRuns(f);
    FinishRuns(f);
    hide Feasible, Execute, Init, Requested, InSend, Missed, Drained, BatchOver;
    hide Request, Send, DeliverBetweenWrites, Leave, Finish;
    Append(Init(), Request(f), Send());
    Append(Init(), Request(f) + Send(), DeliverBetweenWrites());
    Append(Init(), Request(f) + Send() + DeliverBetweenWrites(), Leave());
    Append(Init(), Request(f) + Send() + DeliverBetweenWrites() + Leave(), Finish());
  }
}
