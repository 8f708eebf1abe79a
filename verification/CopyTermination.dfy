/** What `terminate` guarantees, and when it returns. */
module CopyTermination {
  import opened CopyEngine
  import CopyProgress

  /** Where the worker can be once it has set its progress to 100. */
  predicate AfterDone(worker: Worker) {
    worker.Notify? || worker.Returning? || worker.Finished?
  }

  /** `terminate` has passed its cancellation and not yet its wait loop. */
  predicate InWaitLoop(s: State) {
    s.edt.TestProgress? || s.edt.Waiting? || s.edt.Woken?
  }

  predicate Inv(s: State) {
    && (s.device ==> s.connected)
    // past its first step terminate has taken the device away, or there was none
    && (s.edt.TestDone? || s.edt.Cancelling? || InWaitLoop(s) ==> !s.device)
    && (s.cancelled ==> InWaitLoop(s) || s.edt.Exited?)
    && (InWaitLoop(s) ==> s.cancelled || s.worker.Finished?)
    && (s.edt.Cancelling? || InWaitLoop(s) ==> !s.worker.NoWorker?)
    && (s.progress == 100 ==> AfterDone(s.worker))
    && (s.worker.SetDone? || s.worker.Notify? ==> s.cancelled)
    && (s.worker.Notify? ==> s.progress == 100)
    // the wake-up cannot be missed: whoever waits with progress at 100 is about to be notified
    && (s.edt.Waiting? && s.progress == 100 ==> s.worker.Notify?)
    // past the loop the worker has nothing left to send
    && (s.edt.Exited? ==> s.worker.NoWorker? || AfterDone(s.worker))
  }

  lemma StepKeeps(s: State, step: Step)
    requires Inv(s) && Enabled(s, step)
    ensures Inv(Next(s, step))
    ensures s.edt.Exited? ==> Next(s, step).edt.Exited? && Next(s, step).past.sendCalls == s.past.sendCalls
  {
    match step
    case WorkerStep(rc) => WorkerKeeps(s, rc);
    case TerminateStep =>
    case Deliver => assert Next(s, step).worker == s.worker;
    case CopyFiles(_) =>
    case _ =>
  }

  lemma WorkerKeeps(s: State, rc: SendResult)
    requires Inv(s) && WorkerCanStep(s)
    ensures Inv(WorkerNext(s, rc))
    ensures s.edt.Exited? ==> WorkerNext(s, rc).past.sendCalls == s.past.sendCalls
  {
  }

  lemma ExecuteKeeps(s: State, schedule: seq<Step>)
    requires Inv(s) && Feasible(s, schedule)
    ensures Inv(Execute(s, schedule))
    ensures s.edt.Exited? ==>
              Execute(s, schedule).edt.Exited? && Execute(s, schedule).past.sendCalls == s.past.sendCalls
  {
    hide Inv, Next, Enabled;
    var kept := (t: State) =>
      Inv(t) && (s.edt.Exited? ==> t.edt.Exited? && t.past.sendCalls == s.past.sendCalls);
    forall t, step | kept(t) && Enabled(t, step)
      ensures kept(Next(t, step))
    {
      StepKeeps(t, step);
    }
    RunKeeps(kept, s, schedule);
  }

  /**
   In every interleaving, once `terminate` is past its wait loop the worker never calls `sendFile`
   again; and while `terminate` waits with the progress at 100, the worker still owes its notification.
   */
  lemma TerminateIsSafe(past: seq<Step>, future: seq<Step>)
    requires Feasible(Init(), past) && Feasible(Execute(Init(), past), future)
    ensures var s := Execute(Init(), past);
            && (s.edt.Exited? ==> Execute(s, future).past.sendCalls == s.past.sendCalls)
            && (s.edt.Exited? ==> s.worker.NoWorker? || AfterDone(s.worker))
            && (s.edt.Waiting? && s.progress == 100 ==> s.worker.Notify?)
  {
    ExecuteKeeps(Init(), past);
    ExecuteKeeps(Execute(Init(), past), future);
  }

  // ----- when does terminate wait at all? -----

  /**
   In every interleaving `terminate` goes past its test for a running worker, and so exits without waiting, exactly
   if there is no worker or it is done.  A wait loop without a worker is never entered.
   */
  lemma SkipsLoopExactlyWhenDone(past: seq<Step>)
    requires Feasible(Init(), past)
    ensures var s := Execute(Init(), past);
            && (s.edt.TestDone? ==>
                  (TerminateNext(s).edt.Exited? <==> s.worker.NoWorker? || s.worker.Finished? || s.cancelled)
                  && (TerminateNext(s).edt.Exited? || TerminateNext(s).edt.Cancelling?))
            && (s.edt.Cancelling? ==>
                  InWaitLoop(TerminateNext(s)) && (TerminateNext(s).cancelled <==> !s.worker.Finished?))
            && (InWaitLoop(s) ==> !s.worker.NoWorker? && (s.cancelled || s.worker.Finished?))
  {
    ExecuteKeeps(Init(), past);
  }

  /** With no worker at work and no null device, asking to exit leads straight out of the program. */
  lemma IdleExit(past: seq<Step>)
    requires Feasible(Init(), past)
    requires var s := Execute(Init(), past);
             s.edt.Ready? && (s.worker.NoWorker? || s.worker.Finished?) && (s.connected ==> s.device)
    ensures var s, exit := Execute(Init(), past), [TerminateStep, TerminateStep, TerminateStep];
            Feasible(s, exit) && Execute(s, exit) == s.(edt := Exited, connected := false, device := false)
  {
    var s := Execute(Init(), past);
    ExecuteKeeps(Init(), past);
    CopyProgress.PlaysTwo(Next(s, TerminateStep), TerminateStep, TerminateStep);
    hide Feasible, Execute;
    CopyProgress.Plays(s, TerminateStep, [TerminateStep, TerminateStep]);
    assert [TerminateStep] + [TerminateStep, TerminateStep] == [TerminateStep, TerminateStep, TerminateStep];
  }

  // ----- when does terminate return? -----

  /**
   Where the worker must be when `terminate` reaches its wait loop.  The worker tests for cancellation
   only with a file in hand, so it must hold an untested file or find another in the queue.  One that is
   about to call `sendFile` never gets there, because `terminate` has taken the device away.
   */
  predicate WillMeetCancel(s: State) {
    match s.worker
    case ResetProgress => s.queue != []
    case FireFirst => s.queue != []
    case Take => s.queue != []
    case TestCancelled(_) => true
    case CallSend(_) => false
    case Sending(_) => s.queue != []
    case WriteOld => s.queue != []
    case WriteNew => s.queue != []
    case FireCopied => s.queue != []
    case SetDone => true
    case Notify => true
    case _ => s.progress == 100
  }

  function WorkerRank(worker: Worker): nat {
    match worker
    case NotStarted => 9 case ResetProgress => 8 case FireFirst => 7 case Take => 6
    case TestCancelled(_) => 15 case CallSend(_) => 14 case Sending(_) => 13
    case WriteOld => 12 case WriteNew => 11 case FireCopied => 10
    case SetDone => 5 case Notify => 4 case Returning => 3 case Finished => 0 case NoWorker => 0
  }

  function EdtRank(edt: Edt): nat {
    match edt
    case Ready => 6 case Disconnecting => 5 case TestDone => 4 case Cancelling => 3
    case Woken => 2 case TestProgress => 1 case Waiting => 0 case Exited => 0
  }

  /** An upper bound on the steps left, but for spurious wake-ups. */
  function StepsLeft(s: State): nat {
    4 * (10 * |s.queue| + WorkerRank(s.worker)) + EdtRank(s.edt)
  }

  function SpuriousWakes(schedule: seq<Step>): nat {
    if schedule == [] then 0 else (if schedule[0].SpuriousWake? then 1 else 0) + SpuriousWakes(schedule[1..])
  }

  /** The `sendFile` that is running, if any, ends in an exception at this step. */
  predicate Throws(s: State, step: Step) {
    s.worker.Sending? && step.WorkerStep? && step.rc.Threw?
  }

  predicate NoneThrows(schedule: seq<Step>) {
    forall i :: 0 <= i < |schedule| ==> !(schedule[i].WorkerStep? && schedule[i].rc.Threw?)
  }

  lemma WaitingWorkerStep(s: State, rc: SendResult)
    requires Inv(s) && InWaitLoop(s) && WorkerCanStep(s)
    ensures var s' := WorkerNext(s, rc);
            && InWaitLoop(s') && StepsLeft(s') < StepsLeft(s)
            && (s'.worker.Sending? ==> s.worker.Sending?)
            && (WillMeetCancel(s') ==> WillMeetCancel(s))
            && (WillMeetCancel(s) ==> WillMeetCancel(s') || Throws(s, WorkerStep(rc)))
  {
  }

  lemma WaitingTerminateStep(s: State)
    requires Inv(s) && InWaitLoop(s) && TerminateCanStep(s)
    ensures var s' := TerminateNext(s);
            && StepsLeft(s') < StepsLeft(s) && s'.worker == s.worker
            && (WillMeetCancel(s') <==> WillMeetCancel(s))
            && (InWaitLoop(s') || (s'.edt.Exited? && WillMeetCancel(s)))
  {
  }

  /** One step of whatever can happen while `terminate` is in its wait loop. */
  lemma WaitingStep(s: State, step: Step)
    requires Inv(s) && InWaitLoop(s) && Enabled(s, step)
    ensures var s' := Next(s, step);
            && Inv(s') && (InWaitLoop(s') || (s'.edt.Exited? && WillMeetCancel(s)))
            && 1 + StepsLeft(s') <= StepsLeft(s) + (if step.SpuriousWake? then 3 else 0)
            && (s'.worker.Sending? ==> s.worker.Sending?)
            && (WillMeetCancel(s') ==> WillMeetCancel(s))
            && (WillMeetCancel(s) ==> WillMeetCancel(s') || Throws(s, step))
  {
    StepKeeps(s, step);
    if step.WorkerStep? {
      WaitingWorkerStep(s, step.rc);
      hide WorkerNext, WillMeetCancel, StepsLeft, Inv;
    } else if step.TerminateStep? {
      WaitingTerminateStep(s);
      hide TerminateNext, WillMeetCancel, StepsLeft, Inv;
    } else {
      assert step.SpuriousWake?;
    }
  }

  lemma ExitedStep(s: State, step: Step)
    requires Inv(s) && s.edt.Exited? && Enabled(s, step)
    ensures var s' := Next(s, step);
            Inv(s') && s'.edt.Exited? && !step.SpuriousWake? && 1 + StepsLeft(s') <= StepsLeft(s)
  {
    StepKeeps(s, step);
    assert step.WorkerStep?;
    hide Inv;
  }

  lemma {:induction false} ExitedExecute(s: State, schedule: seq<Step>)
    requires Inv(s) && s.edt.Exited? && Feasible(s, schedule)
    ensures var s' := Execute(s, schedule);
            Inv(s') && s'.edt.Exited? && |schedule| + StepsLeft(s') <= StepsLeft(s)
    decreases |schedule|
  {
    hide Inv, Next, Enabled, StepsLeft;
    if schedule != [] {
      ExitedStep(s, schedule[0]);
      ExitedExecute(Next(s, schedule[0]), schedule[1..]);
    }
  }

  lemma {:induction false} WaitingExecute(s: State, schedule: seq<Step>)
    requires Inv(s) && InWaitLoop(s) && Feasible(s, schedule)
    ensures var s' := Execute(s, schedule);
            && Inv(s') && (InWaitLoop(s') || s'.edt.Exited?)
            && |schedule| + StepsLeft(s') <= StepsLeft(s) + 3 * SpuriousWakes(schedule)
            && (s'.edt.Exited? ==> WillMeetCancel(s))
            && (InWaitLoop(s') && WillMeetCancel(s') ==> WillMeetCancel(s))
            && (InWaitLoop(s') && WillMeetCancel(s) && (s.worker.Sending? ==> NoneThrows(schedule)) ==>
                  WillMeetCancel(s'))
    decreases |schedule|
  {
    hide Inv, Next, Enabled, StepsLeft, WillMeetCancel;
    if schedule != [] {
      var s1 := Next(s, schedule[0]);
      WaitingStep(s, schedule[0]);
      assert NoneThrows(schedule) ==> !Throws(s, schedule[0]) && NoneThrows(schedule[1..]) by {
        LaterNoneThrows(schedule);
      }
      if InWaitLoop(s1) {
        WaitingExecute(s1, schedule[1..]);
      } else {
        ExitedExecute(s1, schedule[1..]);
      }
    }
  }

  lemma LaterNoneThrows(schedule: seq<Step>)
    requires schedule != []
    ensures NoneThrows(schedule) ==>
              !(schedule[0].WorkerStep? && schedule[0].rc.Threw?) && NoneThrows(schedule[1..])
  {
  }

  /** Neither thread can move of itself. */
  predicate Stuck(s: State) {
    !TerminateCanStep(s) && !WorkerCanStep(s)
  }

  /**
   From every reachable state in which `terminate` has come to its wait loop, for every future:

   - the two threads take at most `StepsLeft` steps, and three more for each spurious wake-up;
   - unless `WillMeetCancel` held, `terminate` never returns, and once the threads stand still it is
     left waiting;
   - if it held, and no exception ends the send that may be running, `terminate` has returned once they
     stand still.
   */
  lemma TerminateReturnsExactlyWhen(past: seq<Step>, future: seq<Step>)
    requires Feasible(Init(), past)
    requires var s := Execute(Init(), past); InWaitLoop(s) && Feasible(s, future)
    ensures var s, s' := Execute(Init(), past), Execute(Execute(Init(), past), future);
            && |future| <= StepsLeft(s) + 3 * SpuriousWakes(future)
            && (!WillMeetCancel(s) ==> InWaitLoop(s') && (Stuck(s') ==> s'.edt.Waiting?))
            && (WillMeetCancel(s) && Stuck(s') && (s.worker.Sending? ==> NoneThrows(future)) ==> s'.edt.Exited?)
  {
    var s := Execute(Init(), past);
    ExecuteKeeps(Init(), past);
    WaitingExecute(s, future);
  }

  // ----- a terminate that throws -----

  /** Connecting with the given list of devices, and then asking to exit. */
  function ConnectAndExit(devices: seq<bool>): seq<Step> {
    [Connect(devices)] + [TerminateStep, TerminateStep]
  }

  /**
   The search succeeds with any entry that is not null, but keeps the last.  So an exception ends `terminate`,
   and the window is left as it was, exactly if some entry is a device and the last is not, as in a list of a
   device and a null entry; otherwise `terminate` gets past disconnecting.
   */
  lemma NullDeviceEndsTerminate(devices: seq<bool>)
    ensures Feasible(Init(), ConnectAndExit(devices))
    ensures var s := Execute(Init(), ConnectAndExit(devices));
            s.edt == if true in devices && !devices[|devices| - 1] then Ready else TestDone
  {
    var s := Next(Init(), Connect(devices));
    CopyProgress.PlaysTwo(s, TerminateStep, TerminateStep);
    hide Feasible, Execute;
    CopyProgress.Plays(Init(), Connect(devices), [TerminateStep, TerminateStep]);
  }

  /** No list of devices ends in a null entry behind a device. */
  predicate NoNullBehindDevice(schedule: seq<Step>) {
    forall i :: 0 <= i < |schedule| && schedule[i].Connect? && true in schedule[i].devices ==>
      schedule[i].devices[|schedule[i].devices| - 1]
  }

  lemma {:induction false} DeviceMatches(s: State, schedule: seq<Step>)
    requires Feasible(s, schedule) && NoNullBehindDevice(schedule) && s.connected == s.device
    ensures Execute(s, schedule).connected == Execute(s, schedule).device
    decreases |schedule|
  {
    hide WorkerNext, DeliverNext;
    if schedule != [] {
      if schedule[0].WorkerStep? || schedule[0].Deliver? {
        WorkerLeavesDevice(s, schedule[0]);
      }
      assert schedule[0].Connect? && true in schedule[0].devices ==>
        schedule[0].devices[|schedule[0].devices| - 1];
      assert NoNullBehindDevice(schedule[1..]) by {
        LaterLists(schedule);
      }
      hide Next, Enabled;
      DeviceMatches(Next(s, schedule[0]), schedule[1..]);
    }
  }

  lemma LaterLists(schedule: seq<Step>)
    requires schedule != [] && NoNullBehindDevice(schedule)
    ensures NoNullBehindDevice(schedule[1..])
  {
    forall i | 0 <= i < |schedule[1..]| && schedule[1..][i].Connect? && true in schedule[1..][i].devices
      ensures schedule[1..][i].devices[|schedule[1..][i].devices| - 1]
    {
      assert schedule[i + 1] == schedule[1..][i];
    }
  }

  lemma WorkerLeavesDevice(s: State, step: Step)
    requires Enabled(s, step) && (step.WorkerStep? || step.Deliver?)
    ensures Next(s, step).connected == s.connected && Next(s, step).device == s.device
  {
  }

  /**
   In every interleaving in which no list ends in a null entry behind a device, being connected means having one,
   and no exception ends `terminate` before its test for a running worker.
   */
  lemma ConnectedMeansDevice(schedule: seq<Step>)
    requires Feasible(Init(), schedule) && NoNullBehindDevice(schedule)
    ensures var s := Execute(Init(), schedule);
            s.connected == s.device && (s.edt.Disconnecting? ==> TerminateNext(s).edt.TestDone?)
  {
    DeviceMatches(Init(), schedule);
  }

  // ----- a terminate that hangs -----

  /** Cancelling during the last send leaves `terminate` in its wait loop, whatever happens afterwards. */
  lemma HangsOnLastFile(past: seq<Step>, future: seq<Step>)
    requires Feasible(Init(), past)
    requires var s := Execute(Init(), past);
             InWaitLoop(s) && s.worker.Sending? && s.queue == [] && Feasible(s, future)
    ensures InWaitLoop(Execute(Execute(Init(), past), future))
  {
    var s := Execute(Init(), past);
    ExecuteKeeps(Init(), past);
    WaitingExecute(s, future);
  }

  function AskToExit(): seq<Step> {
    [TerminateStep, TerminateStep, TerminateStep, TerminateStep]
  }

  /** One file is being sent, the last of its batch, and the user asks to exit. */
  function ExitDuringLastSend(f: File): seq<Step> {
    CopyProgress.Request(f) + CopyProgress.Send() + AskToExit()
  }

  /** Such a state is reached: this run ends in it, with the wait loop entered. */
  lemma LastFileRunReachesHang(f: File)
    ensures Feasible(Init(), ExitDuringLastSend(f))
    ensures var s := Execute(Init(), ExitDuringLastSend(f));
            InWaitLoop(s) && s.worker == Sending(f) && s.queue == [] && !WillMeetCancel(s)
  {
    CopyProgress.RequestRuns(f);
    CopyProgress.SendRuns(f);
    var s := CopyProgress.InSend(f);
    CopyProgress.PlaysFour(s, TerminateStep, TerminateStep, TerminateStep, TerminateStep);
    hide Feasible, Execute;
    CopyProgress.Append(Init(), CopyProgress.Request(f), CopyProgress.Send());
    CopyProgress.Append(Init(), CopyProgress.Request(f) + CopyProgress.Send(), AskToExit());
  }
}
