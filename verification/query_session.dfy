/**
 * A query session shared by runs (executing a query or saving edits), cancellations and closings. Each thread goes
 * through its operation one atomic step at a time: a critical section of the state mutex, or taking or releasing the
 * execution mutex.
 */
module QuerySessions {
  import opened TextLines

  /** A thread carries out one operation; the cancel function of a run is known by its thread. */
  type Thread = nat

  datatype Shared = Shared(
    lock: Option<Thread>,
    closed: bool,
    cancelRun: Option<Thread>,
    connected: bool,
    cancelled: set<Thread>)

  // ----- the critical sections -----

  function TryLock(s: Shared, thread: Thread): Shared {
    if s.lock.None? then s.(lock := Some(thread)) else s
  }

  function BeginRun(s: Shared, cancel: Thread): Shared {
    if s.closed then s else s.(cancelRun := Some(cancel))
  }

  function Cancel(s: Shared, run: Option<Thread>): Shared {
    if run.None? then s else s.(cancelled := s.cancelled + {run.value})
  }

  class QuerySession {
    var executionMutex: Option<Thread>
    var closed: bool
    var cancelRun: Option<Thread>
    var connected: bool
    var cancelled: set<Thread>

    ghost function View(): Shared
      reads this
    {
      Shared(executionMutex, closed, cancelRun, connected, cancelled)
    }

    constructor ()
      ensures View() == Shared(None, false, None, true, {})
    {
      executionMutex, closed, cancelRun, connected, cancelled := None, false, None, true, {};
    }

    method TryLockExecution(thread: Thread) returns (locked: bool)
      modifies this
      ensures View() == TryLock(old(View()), thread)
      ensures locked <==> old(executionMutex).None?
    {
      locked := executionMutex.None?;
      if locked {
        executionMutex := Some(thread);
      }
    }

    method UnlockExecution()
      modifies this
      ensures View() == old(View()).(lock := None)
    {
      executionMutex := None;
    }

    /** Registers the cancellation of the current run; fails once the session is closed. */
    method Begin(cancel: Thread) returns (begun: bool)
      modifies this
      ensures View() == BeginRun(old(View()), cancel)
      ensures begun <==> !closed
    {
      if closed {
        return false;
      }
      cancelRun := Some(cancel);
      return true;
    }

    method End()
      modifies this
      ensures View() == old(View()).(cancelRun := None)
    {
      cancelRun := None;
    }

    /** The first critical section of closing: from here on no run begins. */
    method MarkClosed() returns (seen: Option<Thread>)
      modifies this
      ensures View() == old(View()).(closed := true) && seen == old(cancelRun)
    {
      closed := true;
      seen := cancelRun;
    }

    method Call(run: Option<Thread>)
      modifies this
      ensures View() == Cancel(old(View()), run)
    {
      if run.Some? {
        cancelled := cancelled + {run.value};
      }
    }
  }

  // ----- threads -----

  datatype Pc =
    | RunStart | Holding | Running | Ended | Unlocking | RunDone | Refused
    | CloseStart | Closing(seen: Option<Thread>) | CloseWaiting | CloseLocked | CloseUnlocking | CloseDone
    | CancelStart | Cancelling(seen: Option<Thread>) | CancelDone
  {
    predicate HoldsLock() {
      Holding? || Running? || Ended? || Unlocking? || CloseLocked? || CloseUnlocking?
    }

    predicate BeforeRun() {
      RunStart? || Holding?
    }

    /** `closed` was set by this thread. */
    predicate HasMarkedClosed() {
      Closing? || HasCancelled()
    }

    /** A closing thread that is past calling the cancel function it saw. */
    predicate HasCancelled() {
      CloseWaiting? || CloseLocked? || HasClosed()
    }

    /** A closing thread that has closed the connection. */
    predicate HasClosed() {
      CloseUnlocking? || CloseDone?
    }

    predicate Finished() {
      RunDone? || Refused? || CloseDone? || CancelDone?
    }
  }

  datatype State = State(shared: Shared, pcs: map<Thread, Pc>)

  /** `Go` lets a thread take its next step, `Reconnect` lets a run open the connection again, `Drop` loses it. */
  datatype Event = Go(thread: Thread) | Reconnect(thread: Thread) | Drop

  predicate Initial(s: State) {
    && (exists connected :: s.shared == Shared(None, false, None, connected, {}))
    && (forall t | t in s.pcs :: s.pcs[t] in {RunStart, CloseStart, CancelStart})
  }

  function At(s: State, thread: Thread, pc: Pc, shared: Shared): State {
    State(shared, s.pcs[thread := pc])
  }

  function GoNext(s: State, t: Thread): State
    requires t in s.pcs
  {
    var shared := s.shared;
    match s.pcs[t]
    case RunStart => At(s, t, if shared.lock.None? then Holding else Refused, TryLock(shared, t))
    case Holding => At(s, t, if shared.closed then Ended else Running, BeginRun(shared, t))
    case Running => At(s, t, Ended, shared.(cancelRun := None))
    case Ended => At(s, t, Unlocking, Cancel(shared, Some(t)))
    case Unlocking => At(s, t, RunDone, shared.(lock := None))
    case CloseStart => At(s, t, Closing(shared.cancelRun), shared.(closed := true))
    case Closing(seen) => At(s, t, CloseWaiting, Cancel(shared, seen))
    case CloseWaiting => if shared.lock.None? then At(s, t, CloseLocked, TryLock(shared, t)) else s
    case CloseLocked => At(s, t, CloseUnlocking, shared.(connected := false))
    case CloseUnlocking => At(s, t, CloseDone, shared.(lock := None))
    case CancelStart => At(s, t, Cancelling(shared.cancelRun), shared)
    case Cancelling(seen) => At(s, t, CancelDone, Cancel(shared, seen))
    case _ => s
  }

  function Next(s: State, event: Event): State {
    match event
    case Go(t) => if t in s.pcs then GoNext(s, t) else s
    case Reconnect(t) => if t in s.pcs && s.pcs[t].Running? then s.(shared := s.shared.(connected := true)) else s
    case Drop => s.(shared := s.shared.(connected := false))
  }

  /** The state after the events, in the order in which the scheduler chose them. */
  function Run(s: State, events: seq<Event>): State {
    if events == [] then s else Next(Run(s, events[..|events| - 1]), events[|events| - 1])
  }

  // ----- what every step keeps -----

  ghost predicate LocksAgree(s: State) {
    && (s.shared.lock.Some? ==> s.shared.lock.value in s.pcs)
    && (s.shared.cancelRun.Some? ==> s.shared.cancelRun.value in s.pcs)
    && (forall t | t in s.pcs ::
          && (s.pcs[t].HoldsLock() <==> s.shared.lock == Some(t))
          && (s.pcs[t].Running? <==> s.shared.cancelRun == Some(t)))
  }

  /** The flag is set exactly when a thread has set it. */
  ghost predicate ClosedAgrees(s: State) {
    s.shared.closed <==> exists t :: t in s.pcs && s.pcs[t].HasMarkedClosed()
  }

  ghost predicate ClosingAgrees(s: State) {
    && (forall t | t in s.pcs ::
          && (s.pcs[t].HasMarkedClosed() ==> s.shared.closed)
          && (s.pcs[t].Closing? && s.shared.cancelRun.Some? ==> s.pcs[t].seen == s.shared.cancelRun)
          && (s.pcs[t].HasCancelled() && s.shared.cancelRun.Some? ==> s.shared.cancelRun.value in s.shared.cancelled)
          && (s.pcs[t].HasClosed() ==> !s.shared.connected && s.shared.cancelRun.None?))
  }

  /** Only runs that have begun are seen, */
  ghost predicate SeenHaveBegun(s: State) {
    forall t | t in s.pcs && (s.pcs[t].Closing? || s.pcs[t].Cancelling?) && s.pcs[t].seen.Some? ::
      s.pcs[t].seen.value in s.pcs && !s.pcs[s.pcs[t].seen.value].BeforeRun()
  }

  /** and so only they are cancelled. */
  ghost predicate RunsBeginUncancelled(s: State) {
    forall t | t in s.pcs && s.pcs[t].BeforeRun() :: t !in s.shared.cancelled
  }

  ghost predicate CancellationAsked(s: State) {
    s.shared.closed || exists c :: c in s.pcs && s.pcs[c].CancelDone?
  }

  ghost predicate CancellationsAgree(s: State) {
    forall t | t in s.pcs && s.pcs[t].Running? && t in s.shared.cancelled :: CancellationAsked(s)
  }

  ghost predicate Inv(s: State) {
    LocksAgree(s) && ClosedAgrees(s) && ClosingAgrees(s) && SeenHaveBegun(s) && RunsBeginUncancelled(s)
    && CancellationsAgree(s)
  }

  lemma LocksAgreeNext(s: State, t: Thread)
    requires LocksAgree(s) && t in s.pcs
    ensures LocksAgree(GoNext(s, t))
  {
  }

  lemma ClosedAgreesNext(s: State, t: Thread)
    requires ClosedAgrees(s) && t in s.pcs
    ensures ClosedAgrees(GoNext(s, t))
  {
    var next := GoNext(s, t);
    if c :| c in s.pcs && s.pcs[c].HasMarkedClosed() {
      assert next.pcs[c].HasMarkedClosed();
    } else if next.shared.closed {
      assert next.pcs[t].HasMarkedClosed();
    } else {
      assert !next.pcs[t].HasMarkedClosed();
    }
  }

  lemma ClosingAgreesNext(s: State, t: Thread)
    requires LocksAgree(s) && ClosingAgrees(s) && t in s.pcs
    ensures ClosingAgrees(GoNext(s, t))
  {
  }

  /** A step changes one program counter, never back to before a run, and sees and cancels as follows. */
  lemma StepOf(s: State, t: Thread)
    requires t in s.pcs
    ensures var pc, pc', next := s.pcs[t], GoNext(s, t).pcs[t], GoNext(s, t);
            && next.pcs == s.pcs[t := pc']
            && (pc'.BeforeRun() ==> pc.BeforeRun())
            && ((pc'.Closing? || pc'.Cancelling?) && pc' != pc ==> pc'.seen == s.shared.cancelRun)
            && (next.shared.cancelled == s.shared.cancelled
                || (!pc'.BeforeRun() && next.shared.cancelled == s.shared.cancelled + {t})
                || ((pc.Closing? || pc.Cancelling?) && pc.seen.Some?
                    && next.shared.cancelled == s.shared.cancelled + {pc.seen.value}))
  {
  }

  lemma SeenHaveBegunNext(s: State, t: Thread)
    requires LocksAgree(s) && SeenHaveBegun(s) && t in s.pcs
    ensures SeenHaveBegun(GoNext(s, t))
  {
    StepOf(s, t);
    hide GoNext;
  }

  lemma RunsBeginUncancelledNext(s: State, t: Thread)
    requires SeenHaveBegun(s) && RunsBeginUncancelled(s) && t in s.pcs
    ensures RunsBeginUncancelled(GoNext(s, t))
  {
    StepOf(s, t);
    hide GoNext;
  }

  lemma CancellationAskedStays(s: State, t: Thread)
    requires CancellationAsked(s) && t in s.pcs
    ensures CancellationAsked(GoNext(s, t))
  {
    if !s.shared.closed {
      var c :| c in s.pcs && s.pcs[c].CancelDone?;
      assert GoNext(s, t).pcs[c].CancelDone?;
    }
  }

  lemma CancellationsAgreeNext(s: State, t: Thread)
    requires Inv(s) && t in s.pcs
    ensures CancellationsAgree(GoNext(s, t))
  {
    var next := GoNext(s, t);
    forall r | r in next.pcs && next.pcs[r].Running? && r in next.shared.cancelled
      ensures CancellationAsked(next)
    {
      if CancellationAsked(s) {
        CancellationAskedStays(s, t);
      } else {
        assert next.pcs[t].CancelDone?;
      }
    }
  }

  lemma NextKeepsInv(s: State, event: Event)
    requires Inv(s)
    ensures Inv(Next(s, event))
  {
    if event.Go? && event.thread in s.pcs {
      LocksAgreeNext(s, event.thread);
      ClosedAgreesNext(s, event.thread);
      ClosingAgreesNext(s, event.thread);
      SeenHaveBegunNext(s, event.thread);
      RunsBeginUncancelledNext(s, event.thread);
      CancellationsAgreeNext(s, event.thread);
    }
  }

  /** The invariant holds in every interleaving. */
  lemma {:induction false} RunKeepsInv(s: State, events: seq<Event>)
    requires Initial(s)
    ensures Inv(Run(s, events))
  {
    if events != [] {
      RunKeepsInv(s, events[..|events| - 1]);
      NextKeepsInv(Run(s, events[..|events| - 1]), events[|events| - 1]);
    }
  }

  // ----- what follows for every interleaving -----

  predicate Active(s: State, run: Thread) {
    run in s.pcs && s.pcs[run].Running?
  }

  /** At most one run is active; it holds the execution mutex and its cancel function is the registered one. */
  lemma AtMostOneActiveRun(s: State, events: seq<Event>, a: Thread, b: Thread)
    requires Initial(s)
    ensures var now := Run(s, events);
            && (Active(now, a) && Active(now, b) ==> a == b)
            && (Active(now, a) <==> now.shared.cancelRun == Some(a))
            && (Active(now, a) ==> now.shared.lock == Some(a))
  {
    RunKeepsInv(s, events);
  }

  /** Once `closed` is set no run begins, however the run goes on. */
  lemma {:induction false} NoRunBeginsOnceClosed(s: State, events: seq<Event>, run: Thread)
    requires s.shared.closed && Active(Run(s, events), run)
    ensures Active(s, run) && Run(s, events).shared.closed
  {
    StaysClosed(s, events);
    if events != [] {
      StaysClosed(s, events[..|events| - 1]);
      NoRunBeginsOnceClosed(s, events[..|events| - 1], run);
    }
  }

  lemma {:induction false} StaysClosed(s: State, events: seq<Event>)
    requires s.shared.closed
    ensures Run(s, events).shared.closed
  {
    if events != [] {
      StaysClosed(s, events[..|events| - 1]);
    }
  }

  /**
   * Every run that is active once a thread has set `closed` is the one whose cancel function this thread is about to
   * call, and is cancelled as soon as the thread has called it.
   */
  lemma ClosingCancelsTheActiveRun(s: State, events: seq<Event>, closer: Thread, run: Thread)
    requires Initial(s)
    requires var now := Run(s, events); closer in now.pcs && now.pcs[closer].HasMarkedClosed() && Active(now, run)
    ensures var now := Run(s, events);
            if now.pcs[closer].Closing? then now.pcs[closer].seen == Some(run) else run in now.shared.cancelled
  {
    RunKeepsInv(s, events);
  }

  /**
   * The converse: an active run is cancelled only by a closing or by a request to cancel, and it begins uncancelled.
   */
  lemma OnlyAskedForCancellations(s: State, events: seq<Event>, run: Thread)
    requires Initial(s)
    ensures var now := Run(s, events);
            && (Active(now, run) && run in now.shared.cancelled
                ==> CancellationAsked(now))
            && (run in now.pcs && now.pcs[run].BeforeRun() ==> run !in now.shared.cancelled)
  {
    RunKeepsInv(s, events);
  }

  /** Only the step that calls the cancel function leaves the request behind. */
  lemma {:induction false} RequestIsCarriedOut(s: State, events: seq<Event>, canceller: Thread, run: Thread)
    requires canceller in s.pcs && s.pcs[canceller] == Cancelling(Some(run))
    ensures var later := Run(s, events);
            && canceller in later.pcs
            && (later.pcs[canceller] == Cancelling(Some(run))
                || (later.pcs[canceller].CancelDone? && run in later.shared.cancelled))
  {
    if events != [] {
      RequestIsCarriedOut(s, events[..|events| - 1], canceller, run);
    }
  }

  /**
   * A request to cancel cancels the run that is active at that moment: from its first step on, the requesting thread is
   * about to call that run's cancel function, and has called it once it is done.
   */
  lemma RequestCancelsTheActiveRun(s: State, events: seq<Event>, canceller: Thread, run: Thread, more: seq<Event>)
    requires Initial(s)
    requires var now := Run(s, events);
             canceller in now.pcs && now.pcs[canceller].CancelStart? && Active(now, run)
    ensures var later := Run(Next(Run(s, events), Go(canceller)), more);
            && canceller in later.pcs
            && (later.pcs[canceller] == Cancelling(Some(run))
                || (later.pcs[canceller].CancelDone? && run in later.shared.cancelled))
  {
    var now := Run(s, events);
    AtMostOneActiveRun(s, events, run, run);
    hide Run;
    assert Next(now, Go(canceller)).pcs[canceller] == Cancelling(Some(run));
    RequestIsCarriedOut(Next(now, Go(canceller)), more, canceller, run);
  }

  /** While a run is active every other run is refused at once, and changes nothing. */
  lemma BusySessionsRefuseRuns(s: State, events: seq<Event>, active: Thread, other: Thread)
    requires Initial(s)
    requires var now := Run(s, events); Active(now, active) && other in now.pcs && now.pcs[other].RunStart?
    ensures var now, next := Run(s, events), Next(Run(s, events), Go(other));
            next.pcs == now.pcs[other := Refused] && next.shared == now.shared
  {
    AtMostOneActiveRun(s, events, active, active);
    hide Run;
  }

  /** The step that closes the connection finds no active run: the closing thread holds the execution mutex. */
  lemma ConnectionClosesWithoutRuns(s: State, events: seq<Event>, closer: Thread, run: Thread)
    requires Initial(s)
    requires var now := Run(s, events); closer in now.pcs && now.pcs[closer].CloseLocked?
    ensures var now := Run(s, events);
            now.shared.lock == Some(closer) && (run != closer && run in now.pcs ==> !now.pcs[run].HoldsLock())
  {
    RunKeepsInv(s, events);
  }

  /** After a thread has closed the connection it stays closed and no run is ever active again. */
  lemma {:induction false} ClosedForGood(s: State, events: seq<Event>, closer: Thread, more: seq<Event>, run: Thread)
    requires Initial(s)
    requires closer in Run(s, events).pcs && Run(s, events).pcs[closer].HasClosed()
    ensures var later := Run(Run(s, events), more); !later.shared.connected && !Active(later, run)
  {
    var now := Run(s, events);
    RunKeepsInv(s, events);
    HasClosedStays(now, closer, more);
    RunFromInv(now, more);
  }

  lemma {:induction false} RunFromInv(s: State, events: seq<Event>)
    requires Inv(s)
    ensures Inv(Run(s, events))
  {
    if events != [] {
      RunFromInv(s, events[..|events| - 1]);
      NextKeepsInv(Run(s, events[..|events| - 1]), events[|events| - 1]);
    }
  }

  lemma {:induction false} HasClosedStays(s: State, closer: Thread, events: seq<Event>)
    requires closer in s.pcs && s.pcs[closer].HasClosed()
    ensures closer in Run(s, events).pcs && Run(s, events).pcs[closer].HasClosed()
  {
    if events != [] {
      HasClosedStays(s, closer, events[..|events| - 1]);
    }
  }

  /** No interleaving gets stuck: while an operation is unfinished some thread can take a step. */
  lemma NoDeadlock(s: State, events: seq<Event>, t: Thread)
    requires Initial(s)
    requires t in Run(s, events).pcs && !Run(s, events).pcs[t].Finished()
    ensures exists u :: Next(Run(s, events), Go(u)) != Run(s, events)
  {
    var now := Run(s, events);
    RunKeepsInv(s, events);
    var u := if now.pcs[t].CloseWaiting? && now.shared.lock.Some? then now.shared.lock.value else t;
    assert GoNext(now, u).pcs[u] != now.pcs[u];
    assert Next(now, Go(u)) != now;
  }

  /** How many steps an operation has left at most. */
  function Left(pc: Pc): nat {
    match pc
    case RunStart | CloseStart => 5
    case Holding | Closing(_) => 4
    case Running | CloseWaiting => 3
    case Ended | CloseLocked | CancelStart => 2
    case Unlocking | CloseUnlocking | Cancelling(_) => 1
    case RunDone | Refused | CloseDone | CancelDone => 0
  }

  /** How often the events made the thread take a step. */
  function StepsTaken(s: State, events: seq<Event>, t: Thread): nat {
    if events == [] then 0
    else
      var before, event := Run(s, events[..|events| - 1]), events[|events| - 1];
      StepsTaken(s, events[..|events| - 1], t) + if event == Go(t) && Next(before, event) != before then 1 else 0
  }

  lemma StepsShorten(s: State, t: Thread, u: Thread)
    requires u in s.pcs
    ensures u in Next(s, Go(t)).pcs
    ensures Left(Next(s, Go(t)).pcs[u]) + (if t == u && Next(s, Go(t)) != s then 1 else 0) <= Left(s.pcs[u])
  {
  }

  /** No operation takes more than five steps, however long it is made to wait in between. */
  lemma {:induction false} StepsAreBounded(s: State, events: seq<Event>, t: Thread)
    requires t in s.pcs
    ensures t in Run(s, events).pcs && StepsTaken(s, events, t) + Left(Run(s, events).pcs[t]) <= Left(s.pcs[t]) <= 5
  {
    if events != [] {
      StepsAreBounded(s, events[..|events| - 1], t);
      var before := Run(s, events[..|events| - 1]);
      if events[|events| - 1].Go? {
        StepsShorten(before, events[|events| - 1].thread, t);
      }
    }
  }
}
