/**
 The idle-shutdown monitor of the out-of-process server (AppAtlModule.cpp).

 Any number of client threads lock and unlock the module while one monitor thread waits on an
 auto-reset event.  Every access to shared data is one atomic step, so an `Unlock` that brings the
 count to zero is three steps (decrement, raise the activity flag, signal) and each test
 `!bActivity && m_nLockCnt == 0` of the monitor is two separate reads.
 */
module ShutdownMonitor {

  /** Where a client thread stands between its decrement to zero and the end of `Unlock`. */
  datatype UnlockPc = RaiseActivity | SetEvent

  /** The next atomic step of `MonitorShutdown`. */
  datatype MonitorPc =
    | WaitForZero      // WaitForSingleObject(hEventShutdown, INFINITE)
    | ClearActivity    // bActivity = false
    | WaitIdle         // WaitForSingleObject(hEventShutdown, dwTimeOut)
    | ReadActivity     // first test, left operand
    | ReadCount        // first test, right operand
    | SuspendObjects   // CoSuspendClassObjects, free-threaded build only
    | RereadActivity   // second test, left operand
    | RereadCount      // second test, right operand
    | CloseEvent
    | PostQuit
    | Exited

  /**
   `unlocking` holds the threads inside the tail of an `Unlock`; any natural number may be a thread.
   `reachedZero` records that some `Unlock` has brought the count to zero.
   */
  datatype State = State(
    freeThreaded: bool,
    lockCount: nat,
    activity: bool,
    signalled: bool,
    suspended: bool,
    unlocking: map<nat, UnlockPc>,
    pc: MonitorPc,
    reachedZero: bool)

  datatype Step =
    | Lock
    | Decrement(thread: nat)   // the first step of Unlock
    | FinishUnlock(thread: nat)  // one of its two later steps
    | Monitor

  function Init(freeThreaded: bool): State {
    State(freeThreaded, 0, false, false, false, map[], WaitForZero, false)
  }

  predicate MonitorCanStep(s: State) {
    !s.pc.Exited? && (s.pc.WaitForZero? ==> s.signalled)
  }

  /**
   `Unlock` is called only by a thread that owes one, and by a thread that is not already inside
   `Unlock`.  Suspended class objects admit no first client.  The infinite wait blocks.
   */
  predicate Enabled(s: State, step: Step) {
    match step
    case Lock => !(s.suspended && s.lockCount == 0)
    case Decrement(t) => s.lockCount > 0 && t !in s.unlocking
    case FinishUnlock(t) => t in s.unlocking
    case Monitor => MonitorCanStep(s)
  }

  function Next(s: State, step: Step): State
    requires Enabled(s, step)
  {
    match step
    case Lock => s.(lockCount := s.lockCount + 1)
    case Decrement(t) =>
      if s.lockCount == 1
      then s.(lockCount := 0, unlocking := s.unlocking[t := RaiseActivity], reachedZero := true)
      else s.(lockCount := s.lockCount - 1)
    case FinishUnlock(t) =>
      if s.unlocking[t] == RaiseActivity
      then s.(activity := true, unlocking := s.unlocking[t := SetEvent])
      else s.(signalled := true, unlocking := s.unlocking - {t})
    case Monitor => MonitorNext(s)
  }

  function MonitorNext(s: State): State
    requires MonitorCanStep(s)
  {
    match s.pc
    case WaitForZero => s.(signalled := false, pc := ClearActivity)
    case ClearActivity => s.(activity := false, pc := WaitIdle)
    case WaitIdle =>
      if s.signalled then s.(signalled := false, pc := ClearActivity) else s.(pc := ReadActivity)
    case ReadActivity => s.(pc := if s.activity then WaitForZero else ReadCount)
    case ReadCount =>
      s.(pc := if s.lockCount != 0 then WaitForZero else if s.freeThreaded then SuspendObjects else CloseEvent)
    case SuspendObjects => s.(suspended := true, pc := RereadActivity)
    case RereadActivity => s.(pc := if s.activity then WaitForZero else RereadCount)
    case RereadCount => s.(pc := if s.lockCount != 0 then WaitForZero else CloseEvent)
    case CloseEvent => s.(pc := PostQuit)
    case PostQuit => s.(pc := Exited)
  }

  /** A schedule is an interleaving of atomic steps; each must be enabled when its turn comes. */
  predicate Feasible(s: State, schedule: seq<Step>)
    decreases |schedule|
  {
    schedule == [] || (Enabled(s, schedule[0]) && Feasible(Next(s, schedule[0]), schedule[1..]))
  }

  function Execute(s: State, schedule: seq<Step>): State
    requires Feasible(s, schedule)
    decreases |schedule|
  {
    if schedule == [] then s else Execute(Next(s, schedule[0]), schedule[1..])
  }

  // ----- the inductive invariant -----

  /** The monitor has left its loop. */
  predicate PastLoop(s: State) {
    s.pc.CloseEvent? || s.pc.PostQuit? || s.pc.Exited?
  }

  /** Some `Unlock` has raised the flag and not yet signalled the event. */
  ghost predicate SignalOwed(m: map<nat, UnlockPc>) {
    exists t :: t in m && m[t] == SetEvent
  }

  /** A transition to zero that the monitor has not been told about can still reach it. */
  predicate NothingLost(s: State) {
    s.reachedZero && s.lockCount == 0 ==> s.signalled || s.unlocking.Keys != {} || s.pc != WaitForZero
  }

  ghost predicate Inv(s: State) {
    && NothingLost(s)
    // a raised flag that the monitor may still test is backed by a signal it has not consumed
    && (s.activity && !s.pc.WaitForZero? && !s.pc.ClearActivity? && !PastLoop(s) ==>
          s.signalled || SignalOwed(s.unlocking))
    && (s.pc.RereadActivity? || s.pc.RereadCount? ==> s.suspended)
    && (s.pc.SuspendObjects? || s.pc.RereadActivity? || s.pc.RereadCount? ==> s.freeThreaded)
    && (s.freeThreaded && PastLoop(s) ==> s.suspended && s.lockCount == 0)
    && (s.suspended ==> s.freeThreaded)
  }

  lemma OwedMeansUnlocking(m: map<nat, UnlockPc>)
    requires SignalOwed(m)
    ensures m.Keys != {}
  {
    var t :| t in m && m[t] == SetEvent;
    assert t in m.Keys;
  }

  lemma InvMonitorStep(s: State)
    requires Inv(s) && MonitorCanStep(s)
    ensures Inv(MonitorNext(s)) && MonitorNext(s).freeThreaded == s.freeThreaded
    ensures PastLoop(s) ==> PastLoop(MonitorNext(s))
  {
    if SignalOwed(s.unlocking) {
      OwedMeansUnlocking(s.unlocking);
    }
    hide SignalOwed;
    match s.pc
    case WaitForZero => case ClearActivity => case WaitIdle => case ReadActivity => case ReadCount =>
    case SuspendObjects => case RereadActivity => case RereadCount => case CloseEvent => case PostQuit =>
  }

  lemma InvFinishUnlock(s: State, t: nat)
    requires Inv(s) && t in s.unlocking
    ensures Inv(Next(s, FinishUnlock(t)))
  {
    if s.unlocking[t] == RaiseActivity {
      var s' := Next(s, FinishUnlock(t));
      assert s'.unlocking[t] == SetEvent && t in s'.unlocking.Keys;
    }
  }

  lemma InvDecrement(s: State, t: nat)
    requires Inv(s) && Enabled(s, Decrement(t))
    ensures Inv(Next(s, Decrement(t)))
  {
    var s' := Next(s, Decrement(t));
    if SignalOwed(s.unlocking) {
      var other :| other in s.unlocking && s.unlocking[other] == SetEvent;
      assert other in s'.unlocking && s'.unlocking[other] == SetEvent;
    }
    assert s.lockCount == 1 ==> t in s'.unlocking.Keys;
  }

  lemma InvStep(s: State, step: Step)
    requires Inv(s) && Enabled(s, step)
    ensures Inv(Next(s, step)) && Next(s, step).freeThreaded == s.freeThreaded
    ensures PastLoop(s) ==> PastLoop(Next(s, step))
  {
    match step
    case Lock =>
    case Decrement(t) => InvDecrement(s, t);
    case FinishUnlock(t) => InvFinishUnlock(s, t);
    case Monitor => InvMonitorStep(s);
  }

  lemma InvInit(freeThreaded: bool)
    ensures Inv(Init(freeThreaded))
  {
  }

  lemma {:induction false} InvExecute(s: State, schedule: seq<Step>)
    requires Inv(s) && Feasible(s, schedule)
    ensures Inv(Execute(s, schedule))
    ensures PastLoop(s) ==> PastLoop(Execute(s, schedule))
    ensures Execute(s, schedule).freeThreaded == s.freeThreaded
    decreases |schedule|
  {
    hide Next, Inv, Enabled;
    if schedule != [] {
      InvStep(s, schedule[0]);
      InvExecute(Next(s, schedule[0]), schedule[1..]);
    }
  }

  // ----- no lost signal -----

  /**
   In every interleaving, once some `Unlock` has reached zero and the count is zero, either the event
   is signalled, or an `Unlock` has still to signal it, or the monitor is past its infinite wait.
   */
  lemma NoLostSignal(freeThreaded: bool, schedule: seq<Step>)
    requires Feasible(Init(freeThreaded), schedule)
    ensures NothingLost(Execute(Init(freeThreaded), schedule))
  {
    InvExecute(Init(freeThreaded), schedule);
  }

  // ----- shutdown completes -----

  function ThreadsAt(m: map<nat, UnlockPc>, pc: UnlockPc): set<nat> {
    set t | t in m && m[t] == pc
  }

  function Rank(pc: MonitorPc): nat {
    match pc
    case ClearActivity => 10 case WaitIdle => 9 case ReadActivity => 8 case ReadCount => 7
    case SuspendObjects => 6 case RereadActivity => 5 case RereadCount => 4 case WaitForZero => 3
    case CloseEvent => 2 case PostQuit => 1 case Exited => 0
  }

  /** How many steps the threads inside `Unlock` still have to take. */
  function ClientStepsLeft(m: map<nat, UnlockPc>): nat {
    |m.Keys| + |ThreadsAt(m, RaiseActivity)|
  }

  /** An upper bound on the steps left while no client locks the module again. */
  function StepsLeft(s: State): nat {
    12 * ClientStepsLeft(s.unlocking)
    + (if s.signalled then 11 else 0) + Rank(s.pc)
  }

  /** Either of the two later steps of an `Unlock` leaves one step less to do. */
  lemma FewerPending(m: map<nat, UnlockPc>, t: nat)
    requires t in m
    ensures m[t] == RaiseActivity ==> ClientStepsLeft(m[t := SetEvent]) + 1 == ClientStepsLeft(m)
    ensures m[t] == SetEvent ==> ClientStepsLeft(m - {t}) + 1 == ClientStepsLeft(m)
  {
    var before := ThreadsAt(m, RaiseActivity);
    if m[t] == RaiseActivity {
      var m' := m[t := SetEvent];
      assert m'.Keys == m.Keys;
      assert ThreadsAt(m', RaiseActivity) == before - {t};
    } else {
      var m' := m - {t};
      assert m'.Keys == m.Keys - {t};
      assert ThreadsAt(m', RaiseActivity) == before;
    }
  }

  lemma QuietMonitorStep(s: State)
    requires MonitorCanStep(s)
    ensures var s' := MonitorNext(s);
            s'.lockCount == s.lockCount && s'.reachedZero == s.reachedZero && StepsLeft(s') < StepsLeft(s)
  {
    hide ClientStepsLeft;
    match s.pc
    case WaitForZero => case ClearActivity => case WaitIdle => case ReadActivity => case ReadCount =>
    case SuspendObjects => case RereadActivity => case RereadCount => case CloseEvent => case PostQuit =>
  }

  lemma QuietStepDecreases(s: State, step: Step)
    requires s.lockCount == 0 && step != Lock && Enabled(s, step)
    ensures Next(s, step).lockCount == 0 && Next(s, step).reachedZero == s.reachedZero
    ensures StepsLeft(Next(s, step)) < StepsLeft(s)
  {
    hide ClientStepsLeft, MonitorNext;
    match step
    case Decrement(t) =>
    case FinishUnlock(t) => FewerPending(s.unlocking, t);
    case Monitor => QuietMonitorStep(s);
  }

  predicate Quiet(schedule: seq<Step>) {
    Lock !in schedule
  }

  /** No thread other than a new client can move. */
  ghost predicate Stuck(s: State) {
    forall step :: step != Lock ==> !Enabled(s, step)
  }

  lemma {:induction false} QuietExecute(s: State, schedule: seq<Step>)
    requires s.lockCount == 0 && Feasible(s, schedule) && Quiet(schedule)
    ensures var s' := Execute(s, schedule);
            s'.lockCount == 0 && s'.reachedZero == s.reachedZero && |schedule| + StepsLeft(s') <= StepsLeft(s)
    decreases |schedule|
  {
    hide Next, StepsLeft, Enabled;
    if schedule != [] {
      QuietStepDecreases(s, schedule[0]);
      QuietExecute(Next(s, schedule[0]), schedule[1..]);
    }
  }

  /**
   From every reachable state in which an `Unlock` has reached zero and the count is still zero: if no
   client comes back, every interleaving ends within `StepsLeft` steps, and it can end only with the
   monitor exited and the quit message posted.
   */
  lemma ShutdownCompletes(freeThreaded: bool, past: seq<Step>, future: seq<Step>)
    requires Feasible(Init(freeThreaded), past)
    requires var s := Execute(Init(freeThreaded), past);
             s.lockCount == 0 && s.reachedZero && Feasible(s, future) && Quiet(future)
    ensures var s := Execute(Init(freeThreaded), past);
            |future| <= StepsLeft(s) && (Stuck(Execute(s, future)) ==> Execute(s, future).pc == Exited)
  {
    var s := Execute(Init(freeThreaded), past);
    InvExecute(Init(freeThreaded), past);
    QuietExecute(s, future);
    InvExecute(s, future);
    var s' := Execute(s, future);
    if Stuck(s') {
      assert !Enabled(s', Monitor);
      if s'.unlocking.Keys != {} {
        var t :| t in s'.unlocking.Keys;
        assert Enabled(s', FinishUnlock(t));
      }
    }
  }

  // ----- safe shutdown -----

  /** In every interleaving the module is unlocked, and stays so, once the monitor has left its loop. */
  ghost predicate SafeBuild(freeThreaded: bool) {
    forall past, future ::
      Feasible(Init(freeThreaded), past) && PastLoop(Execute(Init(freeThreaded), past))
      && Feasible(Execute(Init(freeThreaded), past), future)
      ==> Execute(Execute(Init(freeThreaded), past), future).lockCount == 0
  }

  lemma {:induction false} Append(s: State, first: seq<Step>, second: seq<Step>)
    requires Feasible(s, first) && Feasible(Execute(s, first), second)
    ensures Feasible(s, first + second)
    ensures Execute(s, first + second) == Execute(Execute(s, first), second)
    decreases |first|
  {
    hide Next, Enabled;
    if first == [] {
      assert first + second == second;
    } else {
      assert (first + second)[1..] == first[1..] + second;
      Append(Next(s, first[0]), first[1..], second);
    }
  }

  function FirstClient(): seq<Step> {
    [Lock, Decrement(0), FinishUnlock(0), FinishUnlock(0)]
  }

  function IdleMonitor(): seq<Step> {
    [Monitor, Monitor, Monitor, Monitor, Monitor]
  }

  /** The state in which the monitor of the build without suspension has read a count of zero. */
  function Dying(): State {
    State(false, 0, false, false, false, map[], CloseEvent, true)
  }

  lemma FirstClientRuns(freeThreaded: bool)
    ensures Feasible(Init(freeThreaded), FirstClient())
    ensures Execute(Init(freeThreaded), FirstClient())
            == State(freeThreaded, 0, true, true, false, map[], WaitForZero, true)
  {
    assert map[0 := SetEvent] - {0} == map[];
    if freeThreaded {
      assert Feasible(Init(true), FirstClient());
    } else {
      assert Feasible(Init(false), FirstClient());
    }
  }

  lemma IdleMonitorRuns()
    ensures var s := State(false, 0, true, true, false, map[], WaitForZero, true);
            Feasible(s, IdleMonitor()) && Execute(s, IdleMonitor()) == Dying()
  {
  }

  /** A client that locks the module just after the only count test is served by a module about to quit. */
  lemma LateClientIsServedByDyingModule()
    ensures Feasible(Init(false), FirstClient() + IdleMonitor())
    ensures var s := Execute(Init(false), FirstClient() + IdleMonitor());
            PastLoop(s) && Feasible(s, [Lock]) && Execute(s, [Lock]).lockCount == 1
  {
    FirstClientRuns(false);
    IdleMonitorRuns();
    assert Feasible(Dying(), [Lock]) && Execute(Dying(), [Lock]).lockCount == 1;
    hide Feasible, Execute;
    Append(Init(false), FirstClient(), IdleMonitor());
  }

  /**
   The monitor's exit is safe exactly in the free-threaded build.  Without the suspension of class
   objects a client can lock the module between the count test and the quit message.
   */
  lemma SafeExactlyWhenFreeThreaded(freeThreaded: bool)
    ensures SafeBuild(freeThreaded) <==> freeThreaded
  {
    if freeThreaded {
      forall past, future | Feasible(Init(true), past) && PastLoop(Execute(Init(true), past))
        && Feasible(Execute(Init(true), past), future)
        ensures Execute(Execute(Init(true), past), future).lockCount == 0
      {
        InvExecute(Init(true), past);
        InvExecute(Execute(Init(true), past), future);
      }
    } else {
      LateClientIsServedByDyingModule();
      assert Execute(Execute(Init(false), FirstClient() + IdleMonitor()), [Lock]).lockCount == 1;
    }
  }

  // ----- what the monitor has seen when it leaves -----

  /**
   What the monitor has found out since it last cleared the activity flag: that its wait timed out, that the
   flag was still clear and the count zero, and that both were so again once objects were suspended.
   */
  datatype Seen = Seen(timedOut: bool, inactive: bool, unlocked: bool, inactiveAgain: bool, unlockedAgain: bool)

  function NothingSeen(): Seen {
    Seen(false, false, false, false, false)
  }

  /** What one step adds: only the monitor's own waits and reads count, and they say what the state then is. */
  function Observe(s: State, seen: Seen, step: Step): Seen {
    if step != Monitor then seen
    else match s.pc
      case WaitForZero => NothingSeen()
      case ClearActivity => NothingSeen()
      case WaitIdle => seen.(timedOut := !s.signalled)
      case ReadActivity => seen.(inactive := !s.activity)
      case ReadCount => seen.(unlocked := s.lockCount == 0)
      case RereadActivity => seen.(inactiveAgain := s.suspended && !s.activity)
      case RereadCount => seen.(unlockedAgain := s.suspended && s.lockCount == 0)
      case _ => seen
  }

  function Observed(s: State, seen: Seen, schedule: seq<Step>): Seen
    requires Feasible(s, schedule)
    decreases |schedule|
  {
    if schedule == [] then seen
    else Observed(Next(s, schedule[0]), Observe(s, seen, schedule[0]), schedule[1..])
  }

  /** All the tests of the build have found the module idle. */
  predicate FoundIdle(freeThreaded: bool, seen: Seen) {
    seen.timedOut && seen.inactive && seen.unlocked && (freeThreaded ==> seen.inactiveAgain && seen.unlockedAgain)
  }

  /** How much the monitor must have seen to be where it is. */
  predicate SeenAt(s: State, seen: Seen) {
    match s.pc
    case WaitForZero => !FoundIdle(s.freeThreaded, seen)
    case ClearActivity => !FoundIdle(s.freeThreaded, seen)
    case WaitIdle => seen == NothingSeen()
    case ReadActivity => seen == Seen(true, false, false, false, false)
    case ReadCount => seen == Seen(true, true, false, false, false)
    case SuspendObjects => seen == Seen(true, true, true, false, false)
    case RereadActivity => seen == Seen(true, true, true, false, false)
    case RereadCount => seen == Seen(true, true, true, true, false)
    case _ => FoundIdle(s.freeThreaded, seen)
  }

  lemma {:induction false} SeenExecute(s: State, seen: Seen, schedule: seq<Step>)
    requires Inv(s) && SeenAt(s, seen) && Feasible(s, schedule)
    ensures SeenAt(Execute(s, schedule), Observed(s, seen, schedule))
    decreases |schedule|
  {
    hide Inv, SeenAt;
    if schedule != [] {
      InvStep(s, schedule[0]);
      SeenStep(s, seen, schedule[0]);
      hide Next, Enabled;
      SeenExecute(Next(s, schedule[0]), Observe(s, seen, schedule[0]), schedule[1..]);
    }
  }

  lemma SeenStep(s: State, seen: Seen, step: Step)
    requires Inv(s) && SeenAt(s, seen) && Enabled(s, step)
    ensures SeenAt(Next(s, step), Observe(s, seen, step))
  {
    hide Inv, MonitorNext, SeenAt;
    if step == Monitor {
      SuspendedAtRereads(s);
      SeenMonitor(s, seen);
    } else {
      SeenElsewhere(s, Next(s, step), seen);
    }
  }

  lemma SuspendedAtRereads(s: State)
    requires Inv(s)
    ensures s.pc.RereadActivity? || s.pc.RereadCount? ==> s.suspended
    ensures s.pc.SuspendObjects? || s.pc.RereadActivity? || s.pc.RereadCount? ==> s.freeThreaded
  {
  }

  lemma SeenMonitor(s: State, seen: Seen)
    requires SeenAt(s, seen) && MonitorCanStep(s)
    requires s.pc.RereadActivity? || s.pc.RereadCount? ==> s.suspended
    requires s.pc.SuspendObjects? || s.pc.RereadActivity? || s.pc.RereadCount? ==> s.freeThreaded
    ensures SeenAt(MonitorNext(s), Observe(s, seen, Monitor))
  {
    if s.pc.ReadActivity? || s.pc.ReadCount? || s.pc.RereadActivity? || s.pc.RereadCount? {
      SeenTest(s, seen);
    } else {
      match s.pc
      case WaitForZero => case ClearActivity => case WaitIdle => case SuspendObjects =>
      case CloseEvent => case PostQuit =>
    }
  }

  lemma SeenTest(s: State, seen: Seen)
    requires SeenAt(s, seen) && (s.pc.ReadActivity? || s.pc.ReadCount? || s.pc.RereadActivity? || s.pc.RereadCount?)
    requires s.pc.RereadActivity? || s.pc.RereadCount? ==> s.suspended && s.freeThreaded
    ensures SeenAt(MonitorNext(s), Observe(s, seen, Monitor))
  {
    match s.pc
    case ReadActivity => case ReadCount => case RereadActivity => case RereadCount =>
  }

  lemma SeenElsewhere(s: State, s': State, seen: Seen)
    requires SeenAt(s, seen) && s'.pc == s.pc && s'.freeThreaded == s.freeThreaded
    ensures SeenAt(s', seen)
  {
  }

  /**
   In every interleaving and in both builds, the monitor is past its loop exactly if, since it last cleared the
   activity flag, its wait has timed out and every test has found the flag clear and the count zero.
   */
  lemma LeavesExactlyWhenIdle(freeThreaded: bool, schedule: seq<Step>)
    requires Feasible(Init(freeThreaded), schedule)
    ensures PastLoop(Execute(Init(freeThreaded), schedule))
            <==> FoundIdle(freeThreaded, Observed(Init(freeThreaded), NothingSeen(), schedule))
  {
    hide Next, Enabled;
    SeenExecute(Init(freeThreaded), NothingSeen(), schedule);
    InvExecute(Init(freeThreaded), schedule);
  }

  /** The step with which the monitor leaves its loop finds the count zero, with or without suspension. */
  lemma LeavesUnlocked(freeThreaded: bool, past: seq<Step>)
    requires Feasible(Init(freeThreaded), past)
    requires var s := Execute(Init(freeThreaded), past); MonitorCanStep(s) && !PastLoop(s) && PastLoop(MonitorNext(s))
    ensures var s := Execute(Init(freeThreaded), past);
            s.lockCount == 0 && MonitorNext(s).lockCount == 0 && (freeThreaded ==> s.suspended)
  {
    hide Inv, Feasible, Execute;
    InvInit(freeThreaded);
    InvExecute(Init(freeThreaded), past);
    SuspendedAtRereads(Execute(Init(freeThreaded), past));
  }

  /** What the monitor does once it is past its loop: the closing and the posting, as they are done in a run. */
  function Farewell(s: State, schedule: seq<Step>): seq<MonitorPc>
    requires Feasible(s, schedule)
    decreases |schedule|
  {
    if schedule == [] then []
    else FarewellNow(s, schedule[0]) + Farewell(Next(s, schedule[0]), schedule[1..])
  }

  function FarewellNow(s: State, step: Step): seq<MonitorPc> {
    if step == Monitor && (s.pc.CloseEvent? || s.pc.PostQuit?) then [s.pc] else []
  }

  /** What is done by the time the monitor is at a point of its program. */
  function FarewellAt(pc: MonitorPc): seq<MonitorPc> {
    match pc
    case PostQuit => [CloseEvent]
    case Exited => [CloseEvent, PostQuit]
    case _ => []
  }

  lemma FarewellStep(s: State, step: Step)
    requires Enabled(s, step)
    ensures FarewellAt(s.pc) + FarewellNow(s, step) == FarewellAt(Next(s, step).pc)
  {
    hide MonitorNext, FarewellAt;
    if step == Monitor {
      FarewellMonitor(s);
    } else {
      assert FarewellAt(s.pc) + [] == FarewellAt(s.pc);
    }
  }

  lemma FarewellMonitor(s: State)
    requires MonitorCanStep(s)
    ensures FarewellAt(s.pc) + FarewellNow(s, Monitor) == FarewellAt(MonitorNext(s).pc)
  {
    match s.pc
    case WaitForZero => case ClearActivity => case WaitIdle => case ReadActivity => case ReadCount =>
    case SuspendObjects => case RereadActivity => case RereadCount => case CloseEvent => case PostQuit =>
  }

  lemma {:induction false} FarewellExecute(s: State, schedule: seq<Step>)
    requires Feasible(s, schedule)
    ensures FarewellAt(s.pc) + Farewell(s, schedule) == FarewellAt(Execute(s, schedule).pc)
    decreases |schedule|
  {
    hide Next, Enabled, FarewellAt, FarewellNow;
    if schedule != [] {
      FarewellStep(s, schedule[0]);
      FarewellExecute(Next(s, schedule[0]), schedule[1..]);
      assert FarewellAt(s.pc) + (FarewellNow(s, schedule[0]) + Farewell(Next(s, schedule[0]), schedule[1..]))
             == FarewellAt(s.pc) + FarewellNow(s, schedule[0]) + Farewell(Next(s, schedule[0]), schedule[1..]);
    } else {
      assert FarewellAt(s.pc) + [] == FarewellAt(s.pc);
    }
  }

  /** In every interleaving the monitor exits having closed the event once and then posted the quit message once. */
  lemma ClosesThenPosts(freeThreaded: bool, schedule: seq<Step>)
    requires Feasible(Init(freeThreaded), schedule)
    ensures var done := Farewell(Init(freeThreaded), schedule);
            && done <= [CloseEvent, PostQuit]
            && (Execute(Init(freeThreaded), schedule).pc == Exited <==> done == [CloseEvent, PostQuit])
  {
    hide Feasible, Execute, Farewell;
    FarewellExecute(Init(freeThreaded), schedule);
    assert [] + Farewell(Init(freeThreaded), schedule) == Farewell(Init(freeThreaded), schedule);
  }

  // ----- the count -----

  function Locks(schedule: seq<Step>): nat {
    if schedule == [] then 0 else (if schedule[0].Lock? then 1 else 0) + Locks(schedule[1..])
  }

  function Decrements(schedule: seq<Step>): nat {
    if schedule == [] then 0 else (if schedule[0].Decrement? then 1 else 0) + Decrements(schedule[1..])
  }

  /** In every interleaving the count is that of the locks not given back. */
  lemma {:induction false} CountIsLocksHeld(s: State, schedule: seq<Step>)
    requires Feasible(s, schedule)
    ensures Execute(s, schedule).lockCount == s.lockCount + Locks(schedule) - Decrements(schedule)
    decreases |schedule|
  {
    hide Next, Enabled;
    if schedule != [] {
      CountStep(s, schedule[0]);
      CountIsLocksHeld(Next(s, schedule[0]), schedule[1..]);
    }
  }

  lemma CountStep(s: State, step: Step)
    requires Enabled(s, step)
    ensures Next(s, step).lockCount
            == s.lockCount + (if step.Lock? then 1 else 0) - (if step.Decrement? then 1 else 0)
  {
    match step
    case Lock => case Decrement(_) => case FinishUnlock(_) => case Monitor =>
  }

  // ----- an event closed too early -----

  /** The next step of the thread signals an event that the monitor has closed. */
  predicate SignalsClosed(s: State, t: nat) {
    (s.pc.PostQuit? || s.pc.Exited?) && t in s.unlocking && s.unlocking[t] == SetEvent
  }

  ghost predicate CanSignalClosed(s: State) {
    exists future, t :: Feasible(s, future) && SignalsClosed(Execute(s, future), t)
  }

  lemma OneStepEarlier(s: State, step: Step)
    requires Enabled(s, step) && CanSignalClosed(Next(s, step))
    ensures CanSignalClosed(s)
  {
    hide Next, Enabled, SignalsClosed;
    var future, t :| Feasible(Next(s, step), future) && SignalsClosed(Execute(Next(s, step), future), t);
    assert ([step] + future)[1..] == future;
    assert Feasible(s, [step] + future) && SignalsClosed(Execute(s, [step] + future), t);
  }

  lemma UnlockingThreadSignals(s: State, t: nat)
    requires s.pc == CloseEvent && t in s.unlocking
    ensures CanSignalClosed(s)
    decreases s.unlocking[t] == RaiseActivity
  {
    if s.unlocking[t] == RaiseActivity {
      UnlockingThreadSignals(Next(s, FinishUnlock(t)), t);
      OneStepEarlier(s, FinishUnlock(t));
    } else {
      var closed := Next(s, Monitor);
      assert Feasible(closed, []) && SignalsClosed(Execute(closed, []), t);
      OneStepEarlier(s, Monitor);
    }
  }

  lemma {:induction false} LockingClientSignals(s: State)
    requires s.pc == CloseEvent && s.unlocking.Keys == {} && s.lockCount > 0
    ensures CanSignalClosed(s)
    decreases s.lockCount
  {
    hide CanSignalClosed;
    var s' := Next(s, Decrement(0));
    if s.lockCount == 1 {
      UnlockingThreadSignals(s', 0);
    } else {
      LockingClientSignals(s');
    }
    OneStepEarlier(s, Decrement(0));
  }

  lemma {:induction false} NobodyUnlocks(s: State, future: seq<Step>)
    requires Inv(s) && PastLoop(s) && s.freeThreaded && s.unlocking.Keys == {} && Feasible(s, future)
    ensures Execute(s, future).unlocking.Keys == {}
    decreases |future|
  {
    if future != [] {
      InvStep(s, future[0]);
      NobodyUnlocks(Next(s, future[0]), future[1..]);
    }
  }

  /**
   When the monitor is about to close the event, some `Unlock` can still signal it afterwards, unless the build
   suspends class objects and no thread is inside `Unlock`: the count test does not wait for those threads.
   */
  lemma ClosedEventSignalledExactlyWhen(freeThreaded: bool, past: seq<Step>)
    requires Feasible(Init(freeThreaded), past) && Execute(Init(freeThreaded), past).pc == CloseEvent
    ensures var s := Execute(Init(freeThreaded), past);
            CanSignalClosed(s) <==> !freeThreaded || s.unlocking.Keys != {}
  {
    var s := Execute(Init(freeThreaded), past);
    InvExecute(Init(freeThreaded), past);
    if t :| t in s.unlocking.Keys {
      UnlockingThreadSignals(s, t);
    } else if freeThreaded {
      forall future | Feasible(s, future)
        ensures Execute(s, future).unlocking.Keys == {}
      {
        NobodyUnlocks(s, future);
      }
    } else if s.lockCount > 0 {
      LockingClientSignals(s);
    } else {
      LockingClientSignals(Next(s, Lock));
      OneStepEarlier(s, Lock);
    }
  }

  /** While the monitor waits for the module to stay idle, a second client brings the count back to zero. */
  function SecondClient(): seq<Step> {
    [Monitor, Lock, Decrement(1), Monitor, Monitor]
  }

  function PassTests(): seq<Step> {
    [Monitor, Monitor, Monitor, Monitor, Monitor]
  }

  function CloseAndSignal(): seq<Step> {
    [Monitor, FinishUnlock(1)]
  }

  lemma SecondClientRuns()
    ensures var s := State(true, 0, true, true, false, map[], WaitForZero, true);
            && Feasible(s, SecondClient())
            && Execute(s, SecondClient())
               == State(true, 0, false, false, false, map[1 := RaiseActivity], ReadActivity, true)
  {
    assert map[][1 := RaiseActivity] == map[1 := RaiseActivity];
  }

  lemma PassTestsRuns()
    ensures var s := State(true, 0, false, false, false, map[1 := RaiseActivity], ReadActivity, true);
            && Feasible(s, PassTests())
            && Execute(s, PassTests())
               == State(true, 0, false, false, true, map[1 := RaiseActivity], CloseEvent, true)
  {
  }

  lemma CloseAndSignalRuns()
    ensures var s := State(true, 0, false, false, true, map[1 := RaiseActivity], CloseEvent, true);
            Feasible(s, CloseAndSignal()) && SignalsClosed(Execute(s, CloseAndSignal()), 1)
  {
  }

  /** Such a run of the free-threaded build: its second client is about to signal the closed event. */
  lemma SecondClientSignalsClosedEvent()
    ensures var run := FirstClient() + SecondClient() + PassTests() + CloseAndSignal();
            Feasible(Init(true), run) && SignalsClosed(Execute(Init(true), run), 1)
  {
    FirstClientRuns(true);
    SecondClientRuns();
    PassTestsRuns();
    CloseAndSignalRuns();
    hide Feasible, Execute;
    Append(Init(true), FirstClient(), SecondClient());
    Append(Init(true), FirstClient() + SecondClient(), PassTests());
    Append(Init(true), FirstClient() + SecondClient() + PassTests(), CloseAndSignal());
  }

  // ----- the module object -----

  /** The shared fields of the module and the program points of its threads, changed one step at a time. */
  class AppAtlModule {
    const freeThreaded: bool
    var lockCount: nat
    var activity: bool
    var signalled: bool
    var suspended: bool
    var unlocking: map<nat, UnlockPc>
    var pc: MonitorPc
    ghost var reachedZero: bool

    ghost function Abs(): State
      reads this
    {
      State(freeThreaded, lockCount, activity, signalled, suspended, unlocking, pc, reachedZero)
    }

    constructor (freeThreaded: bool)
      ensures Abs() == Init(freeThreaded) && Inv(Abs())
    {
      this.freeThreaded := freeThreaded;
      lockCount, activity, signalled, suspended := 0, false, false, false;
      unlocking, pc, reachedZero := map[], WaitForZero, false;
    }

    method Lock()
      requires Inv(Abs()) && Enabled(Abs(), Step.Lock)
      modifies this
      ensures Abs() == Next(old(Abs()), Step.Lock) && Inv(Abs())
    {
      InvStep(Abs(), Step.Lock);
      hide Inv;
      lockCount := lockCount + 1;
    }

    /** The decrement; the thread leaves `Unlock` unless it took the count to zero. */
    method UnlockDecrement(thread: nat) returns (count: nat)
      requires Inv(Abs()) && Enabled(Abs(), Decrement(thread))
      modifies this
      ensures Abs() == Next(old(Abs()), Decrement(thread)) && Inv(Abs())
      ensures count == lockCount && (count == 0 <==> thread in unlocking)
    {
      InvStep(Abs(), Decrement(thread));
      hide Inv;
      lockCount := lockCount - 1;
      count := lockCount;
      if count == 0 {
        unlocking := unlocking[thread := RaiseActivity];
        reachedZero := true;
      }
    }

    method UnlockFinish(thread: nat)
      requires Inv(Abs()) && Enabled(Abs(), FinishUnlock(thread))
      modifies this
      ensures Abs() == Next(old(Abs()), FinishUnlock(thread)) && Inv(Abs())
    {
      InvStep(Abs(), FinishUnlock(thread));
      hide Inv;
      if unlocking[thread] == RaiseActivity {
        activity := true;
        unlocking := unlocking[thread := SetEvent];
      } else {
        signalled := true;
        unlocking := unlocking - {thread};
      }
    }

    /** One atomic step of the monitor thread. */
    method MonitorShutdown()
      requires Inv(Abs()) && Enabled(Abs(), Monitor)
      modifies this
      ensures Abs() == Next(old(Abs()), Monitor) && Inv(Abs())
    {
      InvStep(Abs(), Monitor);
      hide Inv;
      match pc {
        case WaitForZero =>
          signalled := false;
          pc := ClearActivity;
        case ClearActivity =>
          activity := false;
          pc := WaitIdle;
        case WaitIdle =>
          if signalled {
            signalled := false;
            pc := ClearActivity;
          } else {
            pc := ReadActivity;  // timed out
          }
        case ReadActivity =>
          pc := if activity then WaitForZero else ReadCount;
        case ReadCount =>
          if lockCount != 0 {
            pc := WaitForZero;
          } else {
            pc := if freeThreaded then SuspendObjects else CloseEvent;
          }
        case SuspendObjects =>
          suspended := true;
          pc := RereadActivity;
        case RereadActivity =>
          pc := if activity then WaitForZero else RereadCount;
        case RereadCount =>
          pc := if lockCount != 0 then WaitForZero else CloseEvent;
        case CloseEvent =>
          pc := PostQuit;
        case PostQuit =>
          pc := Exited;
      }
    }
  }
}
