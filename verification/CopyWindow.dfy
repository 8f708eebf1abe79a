/** The window object whose fields the copy engine changes in place. */
module CopyWindow {
  import opened CopyEngine
  import opened Wrappers
  import CopyConservation
  import CopyProgress
  import CopyTermination

  /** What every step keeps. */
  ghost predicate Inv(s: State) {
    CopyConservation.Inv(s) && CopyProgress.Inv(s) && CopyTermination.Inv(s)
  }

  lemma StepKeeps(s: State, step: Step)
    requires Inv(s) && Enabled(s, step)
    ensures Inv(Next(s, step))
  {
    hide CopyConservation.Inv, CopyProgress.Inv, CopyTermination.Inv, Next, Enabled;
    CopyConservation.StepKeeps(s, step);
    CopyProgress.StepKeeps(s, step);
    CopyTermination.StepKeeps(s, step);
  }

  lemma DeliverKeeps(s: State)
    requires Inv(s) && CanDeliver(s)
    ensures Inv(DeliverNext(s))
  {
    StepKeeps(s, Deliver);
  }

  lemma CopyKeeps(s: State, files: seq<File>)
    requires Inv(s) && CanCopy(s)
    ensures Inv(CopyNext(s, files))
  {
    StepKeeps(s, CopyFiles(files));
  }

  lemma BarStepped(before: Bar, after: Bar, transferredOk: nat)
    requires before.value < before.max ==> after == before.(value := before.value + 1)
    requires before.value >= before.max ==>
               after == before.(value := 0, finished := Some(before.max - transferredOk))
    ensures after == StepBar(before, transferredOk)
  {
  }

  class MtpRetag {
    var transferQueue: seq<File>
    var worker: Worker
    var edt: Edt
    var cancelled: bool
    var progress: nat
    var device: bool
    var connected: bool
    var transferredOk: nat
    var events: Events
    var bar: Bar
    ghost var past: Past

    ghost function Abs(): State
      reads this
    {
      State(transferQueue, worker, edt, cancelled, progress, device, connected, transferredOk, events, bar, past)
    }

    ghost predicate Valid()
      reads this
    {
      Inv(Abs())
    }

    constructor ()
      ensures Abs() == Init() && Valid()
    {
      transferQueue, worker, edt, cancelled, progress := [], NoWorker, Ready, false, 0;
      device, connected, transferredOk := false, false, 0;
      events, bar := Events(0, -1, 0, 0, 0, 0, 0), Bar(0, 100, None);
      past := Past([], [], 0, 0, 0, false, false);
    }

    /** The worker's steps up to the file it takes from the queue. */
    method TakeFile(rc: SendResult)
      requires worker.NotStarted? || worker.ResetProgress? || worker.FireFirst? || worker.Take?
      modifies this
      ensures Abs() == WorkerNext(old(Abs()), rc)
    {
      match worker {
        case NotStarted => worker := if cancelled then Finished else ResetProgress;
        case ResetProgress =>
          progress := 0;
          worker := FireFirst;
        case FireFirst =>
          events := events.(oldBox := -1, newBox := 0, pending := events.pending + 1);
          worker := Take;
        case Take =>
          if transferQueue == [] {
            past := past.(drained := true);
            worker := Returning;
          } else {
            worker := TestCancelled(transferQueue[0]);
            transferQueue := transferQueue[1..];
          }
      }
    }

    /** The worker's steps with a file in hand; `rc` is what `sendFile` does if it is running. */
    method SendFile(rc: SendResult)
      requires worker.TestCancelled? || worker.CallSend? || worker.Sending?
      modifies this
      ensures Abs() == WorkerNext(old(Abs()), rc)
    {
      match worker {
        case TestCancelled(f) =>
          if cancelled {
            past := past.(log := past.log + [Dropped(f)]);
            worker := SetDone;
          } else {
            worker := CallSend(f);
          }
        case CallSend(f) =>
          if device {
            past := past.(sendCalls := past.sendCalls + 1);
            worker := Sending(f);
          } else {
            past := past.(log := past.log + [Dropped(f)]);
            worker := Returning;
          }
        case Sending(f) =>
          past := past.(log := past.log + [if rc.Threw? then Dropped(f) else Sent(f, rc.Zero?)]);
          if rc.Zero? {
            transferredOk := transferredOk + 1;
          }
          worker := if rc.Threw? then Returning else WriteOld;
      }
    }

    /** The worker's steps after a file, and those by which it leaves. */
    method AnnounceFile(rc: SendResult)
      requires worker.WriteOld? || worker.WriteNew? || worker.FireCopied?
               || worker.SetDone? || worker.Notify? || worker.Returning?
      requires worker.Notify? ==> LockFree(Abs())
      modifies this
      ensures Abs() == WorkerNext(old(Abs()), rc)
    {
      match worker {
        case WriteOld =>
          events := events.(oldBox := events.filesCopied);
          worker := WriteNew;
        case WriteNew =>
          events := events.(newBox := events.filesCopied + 1);
          worker := FireCopied;
        case FireCopied =>
          events := events.(pending := events.pending + 1, filesCopied := events.filesCopied + 1);
          worker := Take;
        case SetDone =>
          progress := 100;
          worker := Notify;
        case Notify =>
          if edt == Waiting {
            edt := Woken;
          }
          worker := Returning;
        case Returning => worker := Finished;
      }
    }

    /** One atomic step of the worker thread. */
    method DoInBackground(rc: SendResult)
      requires Valid() && WorkerCanStep(Abs())
      modifies this
      ensures Abs() == WorkerNext(old(Abs()), rc) && Valid()
    {
      StepKeeps(Abs(), WorkerStep(rc));
      hide Inv, WorkerNext;
      if worker.NotStarted? || worker.ResetProgress? || worker.FireFirst? || worker.Take? {
        TakeFile(rc);
      } else if worker.TestCancelled? || worker.CallSend? || worker.Sending? {
        SendFile(rc);
      } else {
        AnnounceFile(rc);
      }
    }

    /** One atomic step of `terminate`. */
    method Terminate()
      requires Valid() && TerminateCanStep(Abs())
      modifies this
      ensures Abs() == TerminateNext(old(Abs())) && Valid()
    {
      StepKeeps(Abs(), TerminateStep);
      hide Inv;
      match edt {
        case Ready => edt := Disconnecting;
        case Disconnecting =>
          if connected && !device {
            edt := Ready;
          } else {
            if connected {
              device, connected := false, false;
            }
            edt := TestDone;
          }
        case TestDone =>
          edt := if worker != NoWorker && worker != Finished && !cancelled then Cancelling else Exited;
        case Cancelling =>
          if worker != Finished {
            cancelled := true;
          }
          edt := TestProgress;
        case TestProgress => edt := if progress != 100 then Waiting else Exited;
        case Woken => edt := TestProgress;
      }
    }

    /** Below its maximum the bar advances by one; failures are reported only from the maximum. */
    method StepProgressBar()
      modifies this`bar
      ensures old(bar).value < old(bar).max ==> bar == old(bar).(value := old(bar).value + 1)
      ensures old(bar).value >= old(bar).max ==>
                bar == old(bar).(value := 0, finished := Some(old(bar).max - transferredOk))
    {
      var oldValue := bar.value;
      if bar.max - oldValue > 1 {
        bar := bar.(value := oldValue + 1);
      } else if bar.max - oldValue == 1 {
        bar := bar.(value := bar.max);
      } else {
        bar := bar.(value := 0, finished := Some(bar.max - transferredOk));
      }
    }

    /** Takes the oldest undelivered event from the queue and compares its two arrays as they are now. */
    method TakeEvent() returns (changed: bool)
      requires CanDeliver(Abs())
      modifies this`events
      ensures DeliverNext(old(Abs()))
              == old(Abs()).(events := events, bar := if changed then StepBar(old(bar), transferredOk) else old(bar))
    {
      hide StepBar;
      if events.stale > 0 {
        events := events.(stale := events.stale - 1);
        return true;  // the arrays of a finished worker always differ
      }
      changed := events.newBox != events.oldBox;
      var missed := if changed then 0 else 1;
      events := events.(
        pending := events.pending - 1, delivered := events.delivered + 1, missed := events.missed + missed);
    }

    /** The delivery of the oldest undelivered `filesCopied` event. */
    method PropertyChange()
      requires Valid() && CanDeliver(Abs())
      modifies this
      ensures Abs() == DeliverNext(old(Abs())) && Valid()
    {
      DeliverKeeps(Abs());
      hide Inv, StepBar, DeliverNext;
      ghost var before := bar;
      var changed := TakeEvent();
      if changed {
        StepProgressBar();
        BarStepped(before, bar, transferredOk);
      }
    }

    method ResetProgressBar(size: nat)
      modifies `bar, `transferredOk
      ensures bar == Bar(0, size + old(bar.value), None) && transferredOk == 0
    {
      var maxProgressBarValue := size;
      if bar.value != 0 {
        maxProgressBarValue := maxProgressBarValue + bar.value;
      }
      bar := Bar(0, maxProgressBarValue, None);
      transferredOk := 0;
    }

    /** A new worker, with its own future, progress and event arrays. */
    method CreateWorker()
      modifies `worker, `cancelled, `progress, `events
      ensures worker == NotStarted && !cancelled && progress == 0
      ensures events == Events(0, -1, 0, old(events).stale + old(events).pending, 0, 0, 0)
    {
      cancelled, progress := false, 0;
      events := Events(0, -1, 0, events.stale + events.pending, 0, 0, 0);
      worker := NotStarted;
    }

    /** Appends every file of the list to the transfer queue. */
    method AddFilesToTransferQueue(listModel: seq<File>)
      modifies `transferQueue, `past
      ensures transferQueue == old(transferQueue) + listModel
      ensures past == old(past).(enqueued := old(past).enqueued + listModel)
    {
      for index := 0 to |listModel|
        invariant transferQueue == old(transferQueue) + listModel[..index]
        invariant past == old(past).(enqueued := old(past).enqueued + listModel[..index])
      {
        transferQueue := transferQueue + [listModel[index]];
        past := past.(enqueued := past.enqueued + [listModel[index]]);
        assert listModel[..index + 1] == listModel[..index] + [listModel[index]];
      }
      assert listModel[..|listModel|] == listModel;
    }

    /** Sets up the bar, queues the files, then creates and schedules the worker. */
    method MenuItemCopyFilesAction(listModel: seq<File>)
      requires Valid() && CanCopy(Abs())
      modifies this
      ensures Abs() == CopyNext(old(Abs()), listModel) && Valid()
    {
      CopyKeeps(Abs(), listModel);
      hide Inv, CanCopy, Next;
      ghost var clean := bar.value == 0 && transferQueue == [] && events.stale + events.pending == 0;
      ResetProgressBar(|listModel|);
      AddFilesToTransferQueue(listModel);
      past := past.(batchStart := |past.log|, batchSize := |listModel|, clean := clean, drained := false);
      CreateWorker();
    }

    /** Every entry of the device list is looked at, and the last one stays. */
    method UsbConnect(devices: seq<bool>)
      requires Valid() && edt == Ready && !connected
      modifies this
      ensures Abs() == Next(old(Abs()), Connect(devices)) && Valid()
    {
      StepKeeps(Abs(), Connect(devices));
      hide Inv;
      var success := false;
      for i := 0 to |devices|
        invariant device == (if i == 0 then old(device) else devices[i - 1])
        invariant success <==> true in devices[..i]
        invariant Abs() == old(Abs()).(device := device)
      {
        device := devices[i];
        if device {
          success := true;
        }
        assert devices[..i + 1] == devices[..i] + [devices[i]];
      }
      assert devices[..|devices|] == devices;
      connected := success;
    }

    method UsbDisconnect()
      requires Valid() && edt == Ready && connected
      modifies this
      ensures Abs() == Next(old(Abs()), Disconnect) && Valid()
    {
      StepKeeps(Abs(), Disconnect);
      hide Inv;
      device, connected := false, false;
    }
  }
}
