/** No file is lost, duplicated or reordered on its way through the transfer queue. */
module CopyConservation {
  import opened CopyEngine
  import opened Wrappers

  function Files(log: seq<Fate>): seq<File> {
    seq(|log|, i requires 0 <= i < |log| => log[i].file)
  }

  /** The file taken from the queue whose fate is still open. */
  function InFlight(worker: Worker): seq<File> {
    match worker
    case TestCancelled(f) => [f]
    case CallSend(f) => [f]
    case Sending(f) => [f]
    case _ => []
  }

  function CountOk(log: seq<Fate>): nat {
    if log == [] then 0
    else CountOk(log[..|log| - 1]) + (if log[|log| - 1].Sent? && log[|log| - 1].ok then 1 else 0)
  }

  /** The worker takes nothing more. */
  predicate Leaving(worker: Worker) {
    worker.SetDone? || worker.Notify? || worker.Returning? || worker.Finished?
  }

  /** Taken files in order, then the one in flight, then the queue: exactly what was ever enqueued. */
  predicate Conserved(s: State) {
    Files(s.past.log) + InFlight(s.worker) + s.queue == s.past.enqueued
  }

  /** A batch drops at most one file, the last it takes. */
  predicate OneDropped(s: State) {
    && s.past.batchStart <= |s.past.log|
    && (forall i :: s.past.batchStart <= i < |s.past.log| && s.past.log[i].Dropped? ==>
          i == |s.past.log| - 1 && Leaving(s.worker))
  }

  predicate Counted(s: State) {
    s.past.batchStart <= |s.past.log| && s.transferredOk == CountOk(s.past.log[s.past.batchStart..])
  }

  predicate Inv(s: State) {
    Conserved(s) && OneDropped(s) && Counted(s)
  }

  lemma LogOne(log: seq<Fate>, start: nat, fate: Fate)
    requires start <= |log|
    ensures Files(log + [fate]) == Files(log) + [fate.file]
    ensures CountOk((log + [fate])[start..]) == CountOk(log[start..]) + (if fate.Sent? && fate.ok then 1 else 0)
  {
    var batch := log[start..] + [fate];
    assert (log + [fate])[start..] == batch;
    assert batch[..|batch| - 1] == log[start..];
  }

  /** A step that touches neither the log nor the queue. */
  lemma NothingTaken(s: State, s': State)
    requires Inv(s)
    requires s'.past.log == s.past.log && s'.queue == s.queue && s'.past.enqueued == s.past.enqueued
    requires s'.past.batchStart == s.past.batchStart && s'.transferredOk == s.transferredOk
    requires InFlight(s'.worker) == InFlight(s.worker)
    requires Leaving(s.worker) ==> Leaving(s'.worker)
    ensures Inv(s')
  {
  }

  /** The fate of the file in flight is decided. */
  lemma FateDecided(s: State, s': State, fate: Fate)
    requires Inv(s) && InFlight(s.worker) == [fate.file] && InFlight(s'.worker) == []
    requires s'.past.log == s.past.log + [fate] && s'.queue == s.queue && s'.past.enqueued == s.past.enqueued
    requires s'.past.batchStart == s.past.batchStart
    requires s'.transferredOk == s.transferredOk + (if fate.Sent? && fate.ok then 1 else 0)
    requires fate.Dropped? ==> Leaving(s'.worker)
    ensures Inv(s')
  {
    LogOne(s.past.log, s.past.batchStart, fate);
    hide CountOk, Files;
    assert Files(s.past.log) + [fate.file] + s.queue == Files(s.past.log) + [fate.file] + [] + s.queue;
  }

  lemma TakeKeeps(s: State, rc: SendResult)
    requires Inv(s) && s.worker.Take?
    ensures Inv(WorkerNext(s, rc))
  {
    hide CountOk, Files;
    if s.queue != [] {
      assert s.queue == [s.queue[0]] + s.queue[1..];
      assert Files(s.past.log) + [] + s.queue == Files(s.past.log) + [s.queue[0]] + s.queue[1..];
    }
  }

  lemma OtherWorkerKeeps(s: State, rc: SendResult)
    requires Inv(s) && WorkerCanStep(s) && !s.worker.Take? && InFlight(s.worker) == []
    ensures Inv(WorkerNext(s, rc))
  {
    hide Inv;
    NothingTaken(s, WorkerNext(s, rc));
  }

  lemma WorkerKeeps(s: State, rc: SendResult)
    requires Inv(s) && WorkerCanStep(s)
    ensures Inv(WorkerNext(s, rc))
  {
    var s' := WorkerNext(s, rc);
    hide Inv;
    match s.worker
    case Take => TakeKeeps(s, rc);
    case TestCancelled(f) => if s.cancelled { FateDecided(s, s', Dropped(f)); } else { NothingTaken(s, s'); }
    case CallSend(f) => if s.device { NothingTaken(s, s'); } else { FateDecided(s, s', Dropped(f)); }
    case Sending(f) => FateDecided(s, s', if rc.Threw? then Dropped(f) else Sent(f, rc.Zero?));
    case _ => OtherWorkerKeeps(s, rc);
  }

  lemma CopyKeeps(s: State, files: seq<File>)
    requires Inv(s) && CanCopy(s)
    ensures Inv(CopyNext(s, files))
  {
    hide Files;
    var s' := CopyNext(s, files);
    assert s'.past.log[s'.past.batchStart..] == [];
    assert Files(s.past.log) + [] + (s.queue + files) == Files(s.past.log) + [] + s.queue + files;
  }

  lemma TerminateKeeps(s: State)
    requires Inv(s) && TerminateCanStep(s)
    ensures Inv(TerminateNext(s))
  {
    hide Inv;
    NothingTaken(s, TerminateNext(s));
  }

  lemma StepKeeps(s: State, step: Step)
    requires Inv(s) && Enabled(s, step)
    ensures Inv(Next(s, step))
  {
    hide Inv, WorkerNext, TerminateNext, CopyNext, StepBar;
    match step
    case WorkerStep(rc) => WorkerKeeps(s, rc);
    case CopyFiles(files) => CopyKeeps(s, files);
    case TerminateStep => TerminateKeeps(s);
    case SpuriousWake => NothingTaken(s, Next(s, step));
    case Deliver => NothingTaken(s, DeliverNext(s));
    case Connect(_) => NothingTaken(s, Next(s, step));
    case Disconnect => NothingTaken(s, Next(s, step));
  }

  lemma ExecuteKeeps(s: State, schedule: seq<Step>)
    requires Inv(s) && Feasible(s, schedule)
    ensures Inv(Execute(s, schedule))
  {
    hide Inv, Next, Enabled;
    forall t, step | Inv(t) && Enabled(t, step)
      ensures Inv(Next(t, step))
    {
      StepKeeps(t, step);
    }
    RunKeeps(t => Inv(t), s, schedule);
  }

  /**
   In every interleaving: files are taken in the order they were enqueued and none disappears, each
   batch drops at most the last file it takes, and `transferredOk` counts the batch's sends that
   returned zero.
   */
  lemma FifoConservation(schedule: seq<Step>)
    requires Feasible(Init(), schedule)
    ensures Inv(Execute(Init(), schedule))
  {
    ExecuteKeeps(Init(), schedule);
  }

  // ----- what the records of a run mean -----

  /** The files of all the batches asked for. */
  function Requested(schedule: seq<Step>): seq<File> {
    if schedule == [] then []
    else (if schedule[0].CopyFiles? then schedule[0].files else []) + Requested(schedule[1..])
  }

  /** What the sends that ran and returned have returned, in order. */
  function Returned(s: State, schedule: seq<Step>): seq<Fate>
    requires Feasible(s, schedule)
    decreases |schedule|
  {
    if schedule == [] then [] else ReturnedNow(s, schedule[0]) + Returned(Next(s, schedule[0]), schedule[1..])
  }

  function ReturnedNow(s: State, step: Step): seq<Fate> {
    if s.worker.Sending? && step.WorkerStep? && !step.rc.Threw? then [Sent(s.worker.f, step.rc.Zero?)] else []
  }

  function SentOnly(log: seq<Fate>): seq<Fate> {
    if log == [] then []
    else SentOnly(log[..|log| - 1]) + if log[|log| - 1].Sent? then [log[|log| - 1]] else []
  }

  lemma SentOnlyOne(log: seq<Fate>, fate: Fate)
    ensures SentOnly(log + [fate]) == SentOnly(log) + if fate.Sent? then [fate] else []
  {
    assert (log + [fate])[..|log|] == log;
  }

  lemma RecordsStep(s: State, step: Step)
    requires Enabled(s, step)
    ensures Next(s, step).past.enqueued == s.past.enqueued + if step.CopyFiles? then step.files else []
    ensures SentOnly(Next(s, step).past.log) == SentOnly(s.past.log) + ReturnedNow(s, step)
  {
    hide SentOnly, StepBar;
    assert s.past.enqueued + [] == s.past.enqueued && SentOnly(s.past.log) + [] == SentOnly(s.past.log);
    if step.WorkerStep? {
      RecordsWorker(s, step.rc);
    } else {
      assert Next(s, step).past.log == s.past.log;
    }
  }

  lemma RecordsWorker(s: State, rc: SendResult)
    requires WorkerCanStep(s)
    ensures WorkerNext(s, rc).past.enqueued == s.past.enqueued
    ensures SentOnly(WorkerNext(s, rc).past.log) == SentOnly(s.past.log) + ReturnedNow(s, WorkerStep(rc))
  {
    hide SentOnly, WorkerNext, ReturnedNow;
    var decided := WorkerDecides(s, rc);
    assert s.past.log + [] == s.past.log && SentOnly(s.past.log) + [] == SentOnly(s.past.log);
    if decided.Some? {
      SentOnlyOne(s.past.log, decided.value);
    }
  }

  /** A step of the worker decides at most one fate: a sent file's at the end of a send that returned. */
  lemma WorkerDecides(s: State, rc: SendResult) returns (decided: Option<Fate>)
    requires WorkerCanStep(s)
    ensures WorkerNext(s, rc).past.enqueued == s.past.enqueued
    ensures WorkerNext(s, rc).past.log == s.past.log + if decided.Some? then [decided.value] else []
    ensures ReturnedNow(s, WorkerStep(rc)) == if decided.Some? && decided.value.Sent? then [decided.value] else []
  {
    decided :=
      match s.worker
      case TestCancelled(f) => if s.cancelled then Some(Dropped(f)) else None
      case CallSend(f) => if s.device then None else Some(Dropped(f))
      case Sending(f) => Some(if rc.Threw? then Dropped(f) else Sent(f, rc.Zero?))
      case _ => None;
    assert decided.None? ==> s.past.log + [] == WorkerNext(s, rc).past.log;
  }

  /** In every interleaving the files queued are those asked for, and the sends logged are those that returned. */
  lemma {:induction false} RecordsAreTrue(s: State, schedule: seq<Step>)
    requires Feasible(s, schedule)
    ensures var s' := Execute(s, schedule);
            && s'.past.enqueued == s.past.enqueued + Requested(schedule)
            && SentOnly(s'.past.log) == SentOnly(s.past.log) + Returned(s, schedule)
    decreases |schedule|
  {
    hide Next, Enabled, SentOnly, ReturnedNow;
    if schedule != [] {
      RecordsStep(s, schedule[0]);
      RecordsAreTrue(Next(s, schedule[0]), schedule[1..]);
    }
  }
}
