/** How a batch ends, and that an undisturbed one copies every file. */
module CopyBatch {
  import opened CopyEngine
  import Conservation = CopyConservation
  import CopyTermination

  /** What the worker has made of the current batch so far. */
  function BatchLog(s: State): seq<Fate> {
    if s.past.batchStart <= |s.past.log| then s.past.log[s.past.batchStart..] else []
  }

  predicate AllSent(log: seq<Fate>) {
    forall i :: 0 <= i < |log| ==> log[i].Sent?
  }

  predicate EndsDropped(log: seq<Fate>) {
    log != [] && log[|log| - 1].Dropped? && AllSent(log[..|log| - 1])
  }

  // ----- every way in which a worker ends -----

  predicate Starting(worker: Worker) {
    worker.NotStarted? || worker.ResetProgress? || worker.FireFirst?
  }

  predicate Inv(s: State) {
    && s.past.batchStart <= |s.past.log|
    && (s.worker.NoWorker? ==> s.queue == [])
    && (Starting(s.worker) ==> BatchLog(s) == [])
    && (if Conservation.Leaving(s.worker) then EndedWell(s) || EndsDropped(BatchLog(s)) || NeverBegan(s)
        else AllSent(BatchLog(s)))
  }

  predicate EndedWell(s: State) {
    s.queue == [] && AllSent(BatchLog(s))
  }

  /** The future was cancelled before the worker had a chance to start. */
  predicate NeverBegan(s: State) {
    s.cancelled && s.worker.Finished? && BatchLog(s) == []
  }

  lemma SameBatch(s: State, s': State)
    requires Inv(s) && s'.past == s.past && s'.queue == s.queue && s'.worker == s.worker
    requires s.cancelled ==> s'.cancelled
    ensures Inv(s')
  {
  }

  lemma LogGrows(s: State, s': State, fate: Fate)
    requires Inv(s) && !Conservation.Leaving(s.worker)
    requires s'.past.log == s.past.log + [fate] && s'.past.batchStart == s.past.batchStart
    ensures BatchLog(s') == BatchLog(s) + [fate]
    ensures fate.Sent? ==> AllSent(BatchLog(s'))
    ensures fate.Dropped? ==> EndsDropped(BatchLog(s'))
  {
    var log := BatchLog(s);
    assert (log + [fate])[..|log|] == log;
  }

  /** A step that leaves the log alone and does not let the worker off its loop. */
  lemma StillWorking(s: State, s': State)
    requires Inv(s) && !Conservation.Leaving(s.worker) && !Conservation.Leaving(s'.worker) && !s'.worker.NoWorker?
    requires s'.past.log == s.past.log && s'.past.batchStart == s.past.batchStart
    requires Starting(s'.worker) ==> Starting(s.worker)
    ensures Inv(s')
  {
    hide AllSent;
  }

  lemma StillLeaving(s: State, s': State)
    requires Inv(s) && !s.worker.Finished? && Conservation.Leaving(s.worker) && Conservation.Leaving(s'.worker)
    requires s'.past == s.past && s'.queue == s.queue
    ensures Inv(s')
  {
    hide AllSent, EndsDropped;
  }

  lemma LeavesNow(s: State, s': State)
    requires Inv(s) && !Conservation.Leaving(s.worker) && Conservation.Leaving(s'.worker)
    requires s'.past.batchStart == s.past.batchStart && |s.past.log| <= |s'.past.log|
    requires EndsDropped(BatchLog(s')) || NeverBegan(s') || (s'.past.log == s.past.log && s'.queue == [])
    ensures Inv(s')
  {
    hide AllSent, EndsDropped;
  }

  /** With a file in hand. */
  lemma HoldingKeeps(s: State, rc: SendResult)
    requires Inv(s) && Conservation.InFlight(s.worker) != []
    ensures Inv(WorkerNext(s, rc))
  {
    hide Inv, BatchLog;
    var s', f := WorkerNext(s, rc), Conservation.InFlight(s.worker)[0];
    FateKeeps(s, s', if s.worker.Sending? && !rc.Threw? then Sent(f, rc.Zero?) else Dropped(f));
  }

  lemma WorkerKeeps(s: State, rc: SendResult)
    requires Inv(s) && WorkerCanStep(s)
    ensures Inv(WorkerNext(s, rc))
  {
    hide Inv, BatchLog, EndsDropped, EndedWell, NeverBegan;
    if Conservation.InFlight(s.worker) != [] {
      HoldingKeeps(s, rc);
    } else if Conservation.Leaving(s.worker) {
      StillLeaving(s, WorkerNext(s, rc));
    } else if s.worker.NotStarted? && s.cancelled {
      CancelledFirst(s, WorkerNext(s, rc));
    } else if s.worker.Take? && s.queue == [] {
      LeavesNow(s, WorkerNext(s, rc));
    } else {
      StillWorking(s, WorkerNext(s, rc));
    }
  }

  lemma CancelledFirst(s: State, s': State)
    requires Inv(s) && s.worker.NotStarted? && s.cancelled && s' == s.(worker := Finished)
    ensures Inv(s')
  {
  }

  /** A step with a file in hand either leaves the log alone and goes on, or decides the file's fate. */
  lemma FateKeeps(s: State, s': State, fate: Fate)
    requires Inv(s) && !Conservation.Leaving(s.worker) && s'.past.batchStart == s.past.batchStart
    requires !s'.worker.NoWorker? && !Starting(s'.worker)
    requires s'.past.log == if Conservation.Leaving(s'.worker) || fate.Sent? then s.past.log + [fate] else s.past.log
    requires Conservation.Leaving(s'.worker) <==> fate.Dropped? && s'.past.log != s.past.log
    ensures Inv(s')
  {
    if s'.past.log == s.past.log {
      StillWorking(s, s');
    } else {
      LogGrows(s, s', fate);
    }
  }

  lemma StepKeeps(s: State, step: Step)
    requires Inv(s) && Enabled(s, step)
    ensures Inv(Next(s, step))
  {
    hide Inv, WorkerNext, StepBar;
    match step
    case WorkerStep(rc) => WorkerKeeps(s, rc);
    case CopyFiles(files) => CopyKeeps(s, files);
    case TerminateStep => SameBatch(s, TerminateNext(s));
    case SpuriousWake => SameBatch(s, Next(s, step));
    case Deliver => SameBatch(s, DeliverNext(s));
    case Connect(_) => SameBatch(s, Next(s, step));
    case Disconnect => SameBatch(s, Next(s, step));
  }

  lemma CopyKeeps(s: State, files: seq<File>)
    requires CanCopy(s)
    ensures Inv(CopyNext(s, files))
  {
  }

  lemma ExecuteKeeps(s: State, schedule: seq<Step>)
    requires Inv(s) && Feasible(s, schedule)
    ensures Inv(Execute(s, schedule))
  {
    hide Inv, Next, Enabled;
    forall t, step | Inv(t) && Enabled(t, step)
      ensures Inv(Next(t, step))
    {
      StepKeeps(t, step);
    }
    RunKeeps(t => Inv(t), s, schedule);
  }

  /**
   In every interleaving a worker that has finished has emptied the queue, or has dropped the last file it took,
   or was cancelled before it began.  So files stay queued behind it only in the last two cases.
   */
  lemma WorkerEnds(schedule: seq<Step>)
    requires Feasible(Init(), schedule) && Execute(Init(), schedule).worker.Finished?
    ensures var s := Execute(Init(), schedule);
            && (EndedWell(s) || EndsDropped(BatchLog(s)) || NeverBegan(s))
            && (s.queue != [] ==> s.cancelled || exists i ::
                  s.past.batchStart <= i < |s.past.log| && s.past.log[i].Dropped?)
  {
    ExecuteKeeps(Init(), schedule);
    var s := Execute(Init(), schedule);
    if EndsDropped(BatchLog(s)) {
      assert s.past.log[|s.past.log| - 1].Dropped?;
    }
  }

  // ----- an undisturbed batch -----

  /** No exit, no disconnecting and no throwing send: the worker runs and its events are delivered. */
  predicate Undisturbed(step: Step) {
    step.Deliver? || (step.WorkerStep? && !step.rc.Threw?)
  }

  predicate AllUndisturbed(schedule: seq<Step>) {
    forall i :: 0 <= i < |schedule| ==> Undisturbed(schedule[i])
  }

  function WorkerSteps(schedule: seq<Step>): nat {
    if schedule == [] then 0 else (if schedule[0].WorkerStep? then 1 else 0) + WorkerSteps(schedule[1..])
  }

  predicate AllZero(schedule: seq<Step>) {
    forall i :: 0 <= i < |schedule| && schedule[i].WorkerStep? ==> schedule[i].rc.Zero?
  }

  /** `todo` are the files of the batch: sent ones, the one in hand, and those still queued. */
  predicate OnTheWay(s: State, todo: seq<File>) {
    && s.edt.Ready? && s.device && !s.cancelled && !s.worker.NoWorker?
    && !s.worker.SetDone? && !s.worker.Notify?
    && s.past.batchStart <= |s.past.log| && AllSent(BatchLog(s))
    && Parts(BatchLog(s), Conservation.InFlight(s.worker), s.queue, todo)
    && (s.worker.Returning? || s.worker.Finished? ==> s.queue == [])
  }

  predicate Parts(log: seq<Fate>, hand: seq<File>, queue: seq<File>, todo: seq<File>) {
    Conservation.Files(log) + hand + queue == todo
  }

  lemma TakeParts(log: seq<Fate>, queue: seq<File>, todo: seq<File>)
    requires Parts(log, [], queue, todo) && queue != []
    ensures Parts(log, [queue[0]], queue[1..], todo)
  {
  }

  lemma SentParts(log: seq<Fate>, f: File, ok: bool, queue: seq<File>, todo: seq<File>)
    requires Parts(log, [f], queue, todo)
    ensures Parts(log + [Sent(f, ok)], [], queue, todo)
  {
    assert Conservation.Files(log + [Sent(f, ok)]) == Conservation.Files(log) + [f];
  }

  /** An upper bound on the worker's steps while nothing disturbs it. */
  function StepsLeft(s: State): nat {
    10 * |s.queue| + CopyTermination.WorkerRank(s.worker)
  }

  predicate NoneFailed(log: seq<Fate>) {
    forall i :: 0 <= i < |log| ==> log[i].Sent? && log[i].ok
  }

  /** A step after which the batch is divided as before. */
  lemma SameParts(s: State, s': State, todo: seq<File>)
    requires OnTheWay(s, todo) && s'.past.log == s.past.log && s'.past.batchStart == s.past.batchStart
    requires s'.edt == s.edt && s'.device == s.device && s'.cancelled == s.cancelled && s'.queue == s.queue
    requires Conservation.InFlight(s'.worker) == Conservation.InFlight(s.worker)
    requires !s'.worker.NoWorker? && !s'.worker.SetDone? && !s'.worker.Notify?
    requires s'.worker.Returning? || s'.worker.Finished? ==> s.queue == []
    ensures OnTheWay(s', todo) && BatchLog(s') == BatchLog(s)
  {
    hide Parts, AllSent;
  }

  lemma Taken(s: State, s': State, todo: seq<File>)
    requires OnTheWay(s, todo) && s.worker.Take? && s.queue != []
    requires s' == s.(worker := TestCancelled(s.queue[0]), queue := s.queue[1..])
    ensures OnTheWay(s', todo) && BatchLog(s') == BatchLog(s)
  {
    hide Parts, AllSent;
    TakeParts(BatchLog(s), s.queue, todo);
  }

  lemma SentOne(s: State, s': State, f: File, ok: bool, todo: seq<File>)
    requires OnTheWay(s, todo) && s.worker == Sending(f) && s'.worker == WriteOld
    requires s'.past.log == s.past.log + [Sent(f, ok)] && s'.past.batchStart == s.past.batchStart
    requires s'.edt == s.edt && s'.device == s.device && s'.cancelled == s.cancelled && s'.queue == s.queue
    ensures OnTheWay(s', todo) && BatchLog(s') == BatchLog(s) + [Sent(f, ok)]
  {
    assert BatchLog(s') == BatchLog(s) + [Sent(f, ok)];
    SentParts(BatchLog(s), f, ok, s.queue, todo);
    hide Parts;
  }

  lemma Facts(s: State, todo: seq<File>)
    requires OnTheWay(s, todo)
    ensures s.edt.Ready? && s.device && !s.cancelled
    ensures !s.worker.NoWorker? && !s.worker.SetDone? && !s.worker.Notify?
    ensures s.worker.Returning? || s.worker.Finished? ==> s.queue == []
  {
  }

  lemma WorkerGoesOn(s: State, rc: SendResult, todo: seq<File>)
    requires OnTheWay(s, todo) && WorkerCanStep(s) && !rc.Threw?
    ensures var s' := WorkerNext(s, rc);
            && OnTheWay(s', todo) && s'.past.batchStart == s.past.batchStart
            && (rc.Zero? && NoneFailed(BatchLog(s)) ==> NoneFailed(BatchLog(s')))
  {
    hide OnTheWay, BatchLog;
    Facts(s, todo);
    var s' := WorkerNext(s, rc);
    if s.worker.Sending? {
      SentOne(s, s', s.worker.f, rc.Zero?, todo);
    } else if s.worker.Take? && s.queue != [] {
      Taken(s, s', todo);
    } else {
      SameParts(s, s', todo);
    }
  }

  lemma WorkerRankDrops(s: State, rc: SendResult, todo: seq<File>)
    requires OnTheWay(s, todo) && WorkerCanStep(s) && !rc.Threw?
    ensures StepsLeft(WorkerNext(s, rc)) < StepsLeft(s)
  {
    Facts(s, todo);
    hide OnTheWay;
  }

  lemma DeliveryGoesOn(s: State, todo: seq<File>)
    requires OnTheWay(s, todo) && CanDeliver(s)
    ensures var s' := DeliverNext(s);
            && OnTheWay(s', todo) && StepsLeft(s') == StepsLeft(s) && BatchLog(s') == BatchLog(s)
            && s'.past.batchStart == s.past.batchStart
  {
    hide Parts, AllSent, StepBar;
  }

  lemma {:induction false} BatchGoesOn(s: State, todo: seq<File>, future: seq<Step>)
    requires OnTheWay(s, todo) && Feasible(s, future) && AllUndisturbed(future)
    ensures var s' := Execute(s, future);
            && OnTheWay(s', todo) && WorkerSteps(future) + StepsLeft(s') <= StepsLeft(s)
            && s'.past.batchStart == s.past.batchStart
            && (AllZero(future) && NoneFailed(BatchLog(s)) ==> NoneFailed(BatchLog(s')))
    decreases |future|
  {
    hide OnTheWay, WorkerNext, DeliverNext, StepsLeft, NoneFailed, BatchLog;
    if future != [] {
      assert Undisturbed(future[0]);
      if future[0].WorkerStep? {
        WorkerGoesOn(s, future[0].rc, todo);
        WorkerRankDrops(s, future[0].rc, todo);
      } else {
        DeliveryGoesOn(s, todo);
      }
      BatchGoesOn(Next(s, future[0]), todo, future[1..]);
    }
  }

  /**
   A batch on a connected device that nothing disturbs: the worker takes a bounded number of steps, and once it
   stands still it has finished, the queue is empty, and the files of the queue and of the list have been sent
   in this order, with success if every send returned zero.
   */
  lemma BatchIsCopied(past: seq<Step>, files: seq<File>, future: seq<Step>)
    requires Feasible(Init(), past) && CanCopy(Execute(Init(), past)) && Execute(Init(), past).device
    requires Feasible(CopyNext(Execute(Init(), past), files), future) && AllUndisturbed(future)
    ensures var s, s' := Execute(Init(), past), Execute(CopyNext(Execute(Init(), past), files), future);
            && WorkerSteps(future) <= 10 * (|s.queue| + |files|) + 9
            && (!WorkerCanStep(s') ==>
                  && s'.worker.Finished? && s'.queue == []
                  && s'.past.batchStart == |s.past.log| <= |s'.past.log|
                  && AllSent(s'.past.log[|s.past.log|..])
                  && Conservation.Files(s'.past.log[|s.past.log|..]) == s.queue + files
                  && (AllZero(future) ==> s'.transferredOk == |s.queue + files|))
  {
    var s := Execute(Init(), past);
    var s1 := CopyNext(s, files);
    var s' := Execute(s1, future);
    BatchBegins(s, files);
    BatchGoesOn(s1, s.queue + files, future);
    hide Execute, Feasible, CopyNext, OnTheWay;
    if !WorkerCanStep(s') {
      BatchEnded(s', s.queue + files);
      Conservation.ExecuteKeeps(Init(), past);
      Conservation.CopyKeeps(s, files);
      Conservation.ExecuteKeeps(s1, future);
      if NoneFailed(BatchLog(s')) {
        AllCounted(BatchLog(s'));
      }
    }
  }

  lemma BatchBegins(s: State, files: seq<File>)
    requires CanCopy(s) && s.device
    ensures var s1 := CopyNext(s, files);
            && OnTheWay(s1, s.queue + files) && s1.past.batchStart == |s.past.log|
            && StepsLeft(s1) == 10 * |s.queue + files| + 9 && NoneFailed(BatchLog(s1))
  {
    assert Conservation.Files([]) + [] + (s.queue + files) == s.queue + files;
  }

  lemma BatchEnded(s: State, todo: seq<File>)
    requires OnTheWay(s, todo) && !WorkerCanStep(s)
    ensures s.worker.Finished? && s.queue == [] && s.past.batchStart <= |s.past.log|
    ensures AllSent(BatchLog(s)) && Conservation.Files(BatchLog(s)) == todo
  {
    assert Conservation.Files(BatchLog(s)) + [] + [] == Conservation.Files(BatchLog(s));
  }

  lemma {:induction false} AllCounted(log: seq<Fate>)
    requires NoneFailed(log)
    ensures Conservation.CountOk(log) == |log|
    decreases |log|
  {
    if log != [] {
      AllCounted(log[..|log| - 1]);
    }
  }
}
