/**
 The copy engine of MtpRetag.java: a worker thread that drains the transfer queue, the event thread
 that delivers progress events and may call `terminate`, and the monitor the two share.

 Each read or write of shared data is one atomic step.  The worker's program points follow
 `doInBackground`, the event thread's follow `terminate`.
 */
module CopyEngine {
  import opened Wrappers

  type File = string

  datatype SendResult = Zero | NonZero | Threw

  /** What became of a file taken from the queue. */
  datatype Fate = Sent(file: File, ok: bool) | Dropped(file: File)

  datatype Worker =
    | NoWorker
    | NotStarted             // created and scheduled
    | ResetProgress          // setProgress(0)
    | FireFirst              // the event before the first file
    | Take                   // transferQueue.remove()
    | TestCancelled(f: File)
    | CallSend(f: File)      // dereference of usbDevice
    | Sending(f: File)       // inside sendFile
    | WriteOld               // oldValue[0] = filesCopied
    | WriteNew               // newValue[0] = filesCopied+1
    | FireCopied             // the event after a file
    | SetDone                // setProgress(100)
    | Notify                 // notifyMe()
    | Returning              // doInBackground has returned, the future is not done yet
    | Finished

  datatype Edt =
    | Ready                  // handling events
    | Disconnecting          // inside terminate, lock held
    | TestDone
    | Cancelling
    | TestProgress           // the wait loop's test, lock held
    | Waiting                // inside wait(), lock released
    | Woken                  // notified, lock not yet reacquired
    | Exited

  datatype Bar = Bar(value: nat, max: nat, finished: Option<int>)

  /**
   `stale` counts undelivered events of earlier batches, `pending` those of the current one.
   `missed` counts deliveries that left the bar alone.  `oldBox` and `newBox` are the two one-element
   arrays every event of a batch shares.
   */
  datatype Events = Events(
    filesCopied: nat, oldBox: int, newBox: int,
    stale: nat, pending: nat, delivered: nat, missed: nat)

  /**
   A record of the run, which no step depends on: every file ever queued, the fate of every file taken,
   the calls of `sendFile`, the length of the log when the current batch began and its number of files,
   whether it began with the bar, the queue and the event queue empty, and whether the worker has met
   the empty queue.
   */
  datatype Past = Past(
    enqueued: seq<File>, log: seq<Fate>, sendCalls: nat,
    batchStart: nat, batchSize: nat, clean: bool, drained: bool)

  datatype State = State(
    queue: seq<File>,
    worker: Worker,
    edt: Edt,
    cancelled: bool,
    progress: nat,
    device: bool,
    connected: bool,
    transferredOk: nat,
    events: Events,
    bar: Bar,
    past: Past)

  datatype Step =
    | WorkerStep(rc: SendResult)  // `rc` matters only inside sendFile
    | TerminateStep               // from Ready: the user asks to exit
    | SpuriousWake
    | Deliver
    | CopyFiles(files: seq<File>)
    | Connect(devices: seq<bool>)  // the device list found, false for a null entry
    | Disconnect

  function Init(): State {
    State([], NoWorker, Ready, false, 0, false, false, 0,
          Events(0, -1, 0, 0, 0, 0, 0), Bar(0, 100, None), Past([], [], 0, 0, 0, false, false))
  }

  predicate LockFree(s: State) {
    s.edt.Ready? || s.edt.Waiting? || s.edt.Woken? || s.edt.Exited?
  }

  predicate WorkerCanStep(s: State) {
    !s.worker.NoWorker? && !s.worker.Finished? && (s.worker.Notify? ==> LockFree(s))
  }

  predicate TerminateCanStep(s: State) {
    !s.edt.Waiting? && !s.edt.Exited?
  }

  predicate CanDeliver(s: State) {
    s.edt.Ready? && s.events.stale + s.events.pending > 0
  }

  predicate CanCopy(s: State) {
    s.edt.Ready? && (s.worker.NoWorker? || s.worker.Finished?)
  }

  predicate Enabled(s: State, step: Step) {
    match step
    case WorkerStep(_) => WorkerCanStep(s)
    case TerminateStep => TerminateCanStep(s)
    case SpuriousWake => s.edt.Waiting?
    case Deliver => CanDeliver(s)
    case CopyFiles(_) => CanCopy(s)
    case Connect(_) => s.edt.Ready? && !s.connected
    case Disconnect => s.edt.Ready? && s.connected
  }

  function Next(s: State, step: Step): State
    requires Enabled(s, step)
  {
    match step
    case WorkerStep(rc) => WorkerNext(s, rc)
    case TerminateStep => TerminateNext(s)
    case SpuriousWake => s.(edt := Woken)
    case Deliver => DeliverNext(s)
    case CopyFiles(files) => CopyNext(s, files)
    // any entry that is not null counts as success, but the last entry is kept
    case Connect(ds) =>
      s.(connected := true in ds, device := if ds == [] then s.device else ds[|ds| - 1])
    case Disconnect => s.(connected := false, device := false)
  }

  /** The next step of `doInBackground`. */
  function WorkerNext(s: State, rc: SendResult): State
    requires WorkerCanStep(s)
  {
    match s.worker
    // a future cancelled before it starts never runs
    case NotStarted => s.(worker := if s.cancelled then Finished else ResetProgress)
    case ResetProgress => s.(progress := 0, worker := FireFirst)
    case FireFirst =>
      s.(worker := Take, events := s.events.(oldBox := -1, newBox := 0, pending := s.events.pending + 1))
    case Take =>
      if s.queue == [] then s.(worker := Returning, past := s.past.(drained := true))  // remove() throws
      else s.(worker := TestCancelled(s.queue[0]), queue := s.queue[1..])
    case TestCancelled(f) =>
      if s.cancelled then s.(worker := SetDone, past := s.past.(log := s.past.log + [Dropped(f)]))
      else s.(worker := CallSend(f))
    case CallSend(f) =>
      if s.device then s.(worker := Sending(f), past := s.past.(sendCalls := s.past.sendCalls + 1))
      else s.(worker := Returning, past := s.past.(log := s.past.log + [Dropped(f)]))  // null reference
    case Sending(f) =>
      (match rc
       case Zero =>
         s.(worker := WriteOld, past := s.past.(log := s.past.log + [Sent(f, true)]),
            transferredOk := s.transferredOk + 1)
       case NonZero => s.(worker := WriteOld, past := s.past.(log := s.past.log + [Sent(f, false)]))
       case Threw => s.(worker := Returning, past := s.past.(log := s.past.log + [Dropped(f)])))
    case WriteOld => s.(worker := WriteNew, events := s.events.(oldBox := s.events.filesCopied))
    case WriteNew => s.(worker := FireCopied, events := s.events.(newBox := s.events.filesCopied + 1))
    case FireCopied =>
      s.(worker := Take,
         events := s.events.(pending := s.events.pending + 1, filesCopied := s.events.filesCopied + 1))
    case SetDone => s.(worker := Notify, progress := 100)
    case Notify => s.(worker := Returning, edt := if s.edt.Waiting? then Woken else s.edt)
    case Returning => s.(worker := Finished)
  }

  predicate IsDone(s: State) {
    s.worker.Finished? || s.cancelled
  }

  /** The next step of `terminate`, which holds the monitor except while it waits. */
  function TerminateNext(s: State): State
    requires TerminateCanStep(s)
  {
    match s.edt
    case Ready => s.(edt := Disconnecting)
    case Disconnecting =>
      if !s.connected then s.(edt := TestDone)
      else if s.device then s.(edt := TestDone, connected := false, device := false)
      else s.(edt := Ready)  // null reference: the exception leaves terminate
    case TestDone => s.(edt := if !s.worker.NoWorker? && !IsDone(s) then Cancelling else Exited)
    case Cancelling => s.(edt := TestProgress, cancelled := s.cancelled || !s.worker.Finished?)
    case TestProgress => s.(edt := if s.progress != 100 then Waiting else Exited)
    case Woken => s.(edt := TestProgress)
  }

  /** `stepProgressBar`. */
  function StepBar(bar: Bar, transferredOk: nat): Bar {
    if bar.max - bar.value > 1 then bar.(value := bar.value + 1)
    else if bar.max - bar.value == 1 then bar.(value := bar.max)
    else bar.(value := 0, finished := Some(bar.max - transferredOk))
  }

  /** `propertyChange`: the arrays are read when the event is delivered, not when it was fired. */
  function DeliverNext(s: State): State
    requires CanDeliver(s)
  {
    var e := s.events;
    if e.stale > 0 then
      // the arrays of a finished worker always differ
      s.(events := e.(stale := e.stale - 1), bar := StepBar(s.bar, s.transferredOk))
    else if e.newBox != e.oldBox then
      s.(events := e.(pending := e.pending - 1, delivered := e.delivered + 1), bar := StepBar(s.bar, s.transferredOk))
    else
      s.(events := e.(pending := e.pending - 1, delivered := e.delivered + 1, missed := e.missed + 1))
  }

  /** `menuItemCopyFilesAction` on a list of files, with no other batch running. */
  function CopyNext(s: State, files: seq<File>): State
    requires CanCopy(s)
  {
    s.(queue := s.queue + files,
       worker := NotStarted,
       cancelled := false,
       progress := 0,
       transferredOk := 0,
       events := Events(0, -1, 0, s.events.stale + s.events.pending, 0, 0, 0),
       bar := Bar(0, |files| + s.bar.value, None),
       past := s.past.(
         enqueued := s.past.enqueued + files,
         batchStart := |s.past.log|,
         batchSize := |files|,
         clean := s.bar.value == 0 && s.queue == [] && s.events.stale + s.events.pending == 0,
         drained := false))
  }

  predicate Feasible(s: State, schedule: seq<Step>)
    decreases |schedule|
  {
    schedule == [] || (Enabled(s, schedule[0]) && Feasible(Next(s, schedule[0]), schedule[1..]))
  }

  function Execute(s: State, schedule: seq<Step>): State
    requires Feasible(s, schedule)
    decreases |schedule|
  {
    if schedule == [] then s else Execute(Next(s, schedule[0]), schedule[1..])
  }

  // ----- runs -----

  /** What every step keeps, every run keeps. */
  lemma {:induction false} RunKeeps(inv: State -> bool, s: State, schedule: seq<Step>)
    requires forall t, step :: inv(t) && Enabled(t, step) ==> inv(Next(t, step))
    requires inv(s) && Feasible(s, schedule)
    ensures inv(Execute(s, schedule))
    decreases |schedule|
  {
    hide Next, Enabled;
    if schedule != [] {
      RunKeeps(inv, Next(s, schedule[0]), schedule[1..]);
    }
  }
}
