/**
  The functor queue of an event loop and its eventfd wakeup, as interleaved atomic
  steps of the loop thread and any number of other threads.
*/
module EventLoops {

  type Thread = nat
  type Functor = nat

  /**
    Where the loop thread is.  Handling: dispatching active channels, wake saying
    whether the wakeup channel is among those still to be dispatched.  ToSwap:
    callingPendingFunctors_ is set, the queue not yet taken.  Calling: the taken
    functors, of which the first `next` have been started.
  */
  datatype Phase = AtPoll | Handling(wake: bool) | ToSwap | Calling(functors: seq<Functor>, next: nat) | Stopped

  datatype State = State(
    phase: Phase,
    pending: seq<Functor>,
    eventfd: nat,
    pushing: set<Thread>,   // other threads between their push and their wakeup
    selfPushing: bool,      // the loop thread, likewise, inside a functor
    quit: bool,
    quitting: set<Thread>,  // other threads between setting quit_ and their wakeup
    pushed: seq<Functor>,   // history: every functor queued, in order
    ran: seq<Functor>,      // history: every functor started, in order
    taken: nat              // history: how many had been queued when the queue was last taken
  )

  datatype Action =
    | Push(t: Thread, f: Functor)
    | Wakeup(t: Thread)
    | SetQuit(t: Thread)
    | WakeupQuit(t: Thread)
    | PollReturns(wake: bool)
    | ReadEventfd
    | QueueFromHandler(f: Functor)
    | QuitFromLoop
    | BeginPending
    | Swap
    | RunNext
    | QueueFromFunctor(f: Functor)
    | WakeupSelf
    | EndPending

  const INIT := State(AtPoll, [], 0, {}, false, false, {}, [], [], 0)

  predicate Enabled(s: State, a: Action) {
    match a
    case Push(t, _) => t !in s.pushing
    case Wakeup(t) => t in s.pushing
    case SetQuit(t) => t !in s.quitting
    case WakeupQuit(t) => t in s.quitting
    case PollReturns(wake) => s.phase.AtPoll? && (wake ==> s.eventfd > 0)
    case ReadEventfd => s.phase == Handling(true)
    case QueueFromHandler(_) => s.phase.Handling?
    case QuitFromLoop => s.phase.Handling? || (s.phase.Calling? && s.phase.next > 0)
    case BeginPending => s.phase == Handling(false)
    case Swap => s.phase.ToSwap?
    case RunNext => s.phase.Calling? && s.phase.next < |s.phase.functors| && !s.selfPushing
    case QueueFromFunctor(_) => s.phase.Calling? && 0 < s.phase.next <= |s.phase.functors| && !s.selfPushing
    case WakeupSelf => s.selfPushing
    case EndPending => s.phase.Calling? && s.phase.next == |s.phase.functors| && !s.selfPushing
  }

  /** One atomic step; eventfd adds up writes until it is read. */
  function Step(s: State, a: Action): State
    requires Enabled(s, a)
  {
    match a
    case Push(t, f) => s.(pending := s.pending + [f], pushed := s.pushed + [f], pushing := s.pushing + {t})
    case Wakeup(t) => s.(eventfd := s.eventfd + 1, pushing := s.pushing - {t})
    case SetQuit(t) => s.(quit := true, quitting := s.quitting + {t})
    case WakeupQuit(t) => s.(eventfd := s.eventfd + 1, quitting := s.quitting - {t})
    case PollReturns(wake) => s.(phase := Handling(wake))
    case ReadEventfd => s.(eventfd := 0, phase := Handling(false))
    case QueueFromHandler(f) => s.(pending := s.pending + [f], pushed := s.pushed + [f])
    case QuitFromLoop => s.(quit := true)
    case BeginPending => s.(phase := ToSwap)
    case Swap => s.(phase := Calling(s.pending, 0), pending := [], taken := |s.pushed|)
    case RunNext => s.(ran := s.ran + [s.phase.functors[s.phase.next]],
      phase := Calling(s.phase.functors, s.phase.next + 1))
    case QueueFromFunctor(f) => s.(pending := s.pending + [f], pushed := s.pushed + [f], selfPushing := true)
    case WakeupSelf => s.(eventfd := s.eventfd + 1, selfPushing := false)
    case EndPending => s.(phase := if s.quit then Stopped else AtPoll)
  }

  /** Functors taken from the queue and not yet started. */
  function Waiting(s: State): seq<Functor> {
    if s.phase.Calling? && s.phase.next <= |s.phase.functors| then s.phase.functors[s.phase.next..] else []
  }

  /**
    Nothing is lost, duplicated or reordered: what was queued is what ran, then what was taken, then
    what is pending.
  */
  ghost predicate InOrder(s: State) {
    && s.pushed == s.ran + Waiting(s) + s.pending
    && (s.phase.Calling? ==> s.phase.next <= |s.phase.functors| && |s.ran| + |Waiting(s)| == s.taken)
    && s.taken <= |s.pushed|
    && (s.selfPushing ==> s.phase.Calling?)
  }

  /** From the moment the queue is taken until poll, whatever is pending has a wakeup signalled or on its way. */
  ghost predicate WakeupOnItsWay(s: State) {
    && ((s.phase.AtPoll? || s.phase.Calling?) && s.pending != [] ==> s.eventfd > 0 || s.pushing != {} || s.selfPushing)
    && (s.phase.AtPoll? && s.quit ==> s.eventfd > 0 || s.quitting != {})
  }

  ghost predicate Inv(s: State) {
    InOrder(s) && WakeupOnItsWay(s)
  }

  lemma StepKeepsOrder(s: State, a: Action)
    requires InOrder(s) && Enabled(s, a)
    ensures InOrder(Step(s, a))
  {
    hide Waiting;
    var t := Step(s, a);
    WaitingStep(s, a);
    var r, w, p := s.ran, Waiting(s), s.pending;
    match a {
      case Push(_, f) => assert r + w + p + [f] == r + w + (p + [f]);
      case QueueFromHandler(f) => assert r + w + p + [f] == r + w + (p + [f]);
      case QueueFromFunctor(f) => assert r + w + p + [f] == r + w + (p + [f]);
      case Swap => assert r + [] + p == r + p + [];
      case RunNext => assert r + ([w[0]] + w[1..]) + p == r + [w[0]] + w[1..] + p;
      case _ =>
    }
  }

  lemma WaitingStep(s: State, a: Action)
    requires InOrder(s) && Enabled(s, a)
    ensures var t := Step(s, a);
      if a.RunNext? then
        && Waiting(s) != [] && Waiting(t) == Waiting(s)[1..] && t.ran == s.ran + [Waiting(s)[0]]
        && Waiting(s) == [Waiting(s)[0]] + Waiting(s)[1..]
      else if a.Swap? then Waiting(s) == [] && Waiting(t) == s.pending
      else Waiting(t) == Waiting(s)
  {
  }

  lemma StepKeepsWakeup(s: State, a: Action)
    requires Inv(s) && Enabled(s, a)
    ensures WakeupOnItsWay(Step(s, a))
  {
  }

  // ----- runs -----

  /** The states of a run under a schedule; actions that are not enabled do nothing. */
  function Exec(s: State, schedule: seq<Action>): State {
    if schedule == [] then s
    else
      var t := Exec(s, schedule[..|schedule| - 1]);
      var a := schedule[|schedule| - 1];
      if Enabled(t, a) then Step(t, a) else t
  }

  lemma {:induction false} EveryRun(schedule: seq<Action>)
    ensures Inv(Exec(INIT, schedule))
  {
    if schedule != [] {
      EveryRun(schedule[..|schedule| - 1]);
      var t := Exec(INIT, schedule[..|schedule| - 1]);
      var a := schedule[|schedule| - 1];
      if Enabled(t, a) {
        StepKeepsOrder(t, a);
        StepKeepsWakeup(t, a);
      }
    }
  }

  /**
    No lost wakeup: a loop at poll with functors pending finds its eventfd readable, or some thread
    is about to make it so.
  */
  lemma NoLostWakeup(schedule: seq<Action>)
    ensures var s := Exec(INIT, schedule);
      s.phase.AtPoll? && s.pending != [] ==> s.eventfd > 0 || s.pushing != {}
  {
    EveryRun(schedule);
  }

  /** Nor does a loop sleep through a quit from another thread. */
  lemma NoLostQuit(schedule: seq<Action>)
    ensures var s := Exec(INIT, schedule);
      s.phase.AtPoll? && s.quit ==> s.eventfd > 0 || s.quitting != {}
  {
    EveryRun(schedule);
  }

  /** Functors run in the order they were queued, each at most once. */
  lemma RunInQueueOrder(schedule: seq<Action>)
    ensures var s := Exec(INIT, schedule); s.ran <= s.pushed
  {
    EveryRun(schedule);
    var s := Exec(INIT, schedule);
    assert s.pushed == s.ran + (Waiting(s) + s.pending);
  }

  /** A functor queued while a batch runs is not part of that batch. */
  lemma LaterBatch(schedule: seq<Action>, k: nat)
    requires var s := Exec(INIT, schedule); s.phase.Calling? && s.taken <= k < |s.pushed|
    ensures var s := Exec(INIT, schedule); |s.ran| <= k && |s.ran| + |Waiting(s)| <= k
  {
    EveryRun(schedule);
  }

  // ----- progress: one more round of the loop runs everything that was pending -----

  function Repeat(a: Action, n: nat): (r: seq<Action>)
    ensures |r| == n && forall i :: 0 <= i < n ==> r[i] == a
  {
    seq(n, _ => a)
  }

  lemma {:induction false} ExecConcat(s: State, p: seq<Action>, q: seq<Action>)
    ensures Exec(s, p + q) == Exec(Exec(s, p), q)
  {
    hide Step, Enabled;
    if q == [] {
      assert p + q == p;
    } else {
      ExecConcat(s, p, q[..|q| - 1]);
      assert (p + q)[..|p + q| - 1] == p + q[..|q| - 1];
    }
  }

  lemma {:induction false} RunAll(s: State, n: nat)
    requires s.phase.Calling? && s.phase.next == 0 && !s.selfPushing && n <= |s.phase.functors|
    ensures var t := Exec(s, Repeat(RunNext, n));
      t == s.(phase := Calling(s.phase.functors, n), ran := s.ran + s.phase.functors[..n])
  {
    if n > 0 {
      RunAll(s, n - 1);
      assert Repeat(RunNext, n)[..n - 1] == Repeat(RunNext, n - 1);
      assert s.phase.functors[..n] == s.phase.functors[..n - 1] + [s.phase.functors[n - 1]];
    }
  }

  const TAKE := [PollReturns(true), ReadEventfd, BeginPending, Swap]

  function Round(n: nat): seq<Action> {
    TAKE + Repeat(RunNext, n)
  }

  lemma FirstSteps(s: State)
    requires s.phase.AtPoll? && s.eventfd > 0 && !s.selfPushing
    ensures var t := Exec(s, TAKE);
      t == s.(phase := Calling(s.pending, 0), pending := [], eventfd := 0, taken := |s.pushed|)
  {
    var steps := TAKE;
    assert steps[..3] == [PollReturns(true), ReadEventfd, BeginPending];
    assert steps[..3][..2] == [PollReturns(true), ReadEventfd];
    assert steps[..3][..2][..1] == [PollReturns(true)];
    assert steps[..3][..2][..1][..0] == [];
    assert Exec(s, steps[..3][..2][..1]) == s.(phase := Handling(true));
    assert Exec(s, steps[..3][..2]) == s.(phase := Handling(false), eventfd := 0);
    assert Exec(s, steps[..3]) == s.(phase := ToSwap, eventfd := 0);
  }

  lemma OneRound(s: State)
    requires s.phase.AtPoll? && s.eventfd > 0 && !s.selfPushing
    ensures var t := Exec(s, Round(|s.pending|));
      t.ran == s.ran + s.pending && t.pending == []
  {
    hide Step, Enabled;
    FirstSteps(s);
    var t := s.(phase := Calling(s.pending, 0), pending := [], eventfd := 0, taken := |s.pushed|);
    RunAll(t, |s.pending|);
    assert s.pending[..|s.pending|] == s.pending;
    ExecConcat(s, TAKE, Repeat(RunNext, |s.pending|));
  }

  /**
    Once every waker has finished, poll can return for the eventfd, and the round that follows runs
    all that was pending.
  */
  lemma PendingWillRun(schedule: seq<Action>)
    requires var s := Exec(INIT, schedule); s.phase.AtPoll? && s.pending != [] && s.pushing == {}
    ensures var s := Exec(INIT, schedule); var t := Exec(INIT, schedule + Round(|s.pending|));
      t.ran == s.pushed && t.pending == []
  {
    hide Exec, Round;
    var s := Exec(INIT, schedule);
    EveryRun(schedule);
    OneRound(s);
    ExecConcat(INIT, schedule, Round(|s.pending|));
    assert s.pushed == s.ran + s.pending;
  }

  /** What may happen on the way: the loop takes the queue, somebody asks it to quit, a round ends. */
  datatype Happening = Taking | Asking | Ending

  predicate Is(a: Action, h: Happening) {
    match h
    case Taking => a.Swap?
    case Asking => a.SetQuit? || a.QuitFromLoop?
    case Ending => a.EndPending?
  }

  ghost predicate Happens(s: State, schedule: seq<Action>, h: Happening) {
    exists i :: 0 <= i < |schedule| && Is(schedule[i], h) && Enabled(Exec(s, schedule[..i]), schedule[i])
  }

  lemma HappensStep(s: State, schedule: seq<Action>, h: Happening)
    requires schedule != []
    ensures var n := |schedule| - 1;
      Happens(s, schedule, h) <==>
        Happens(s, schedule[..n], h) || (Is(schedule[n], h) && Enabled(Exec(s, schedule[..n]), schedule[n]))
  {
    hide Exec, Enabled, Is;
    var n := |schedule| - 1;
    forall i | 0 <= i < n ensures schedule[..n][i] == schedule[i] && schedule[..n][..i] == schedule[..i] {}
    if Happens(s, schedule[..n], h) {
      var i :| 0 <= i < n && Is(schedule[..n][i], h) && Enabled(Exec(s, schedule[..n][..i]), schedule[..n][i]);
      assert Is(schedule[i], h) && Enabled(Exec(s, schedule[..i]), schedule[i]);
    }
    if Happens(s, schedule, h) {
      var i :| 0 <= i < |schedule| && Is(schedule[i], h) && Enabled(Exec(s, schedule[..i]), schedule[i]);
      assert i < n ==> Is(schedule[..n][i], h) && Enabled(Exec(s, schedule[..n][..i]), schedule[..n][i]);
    }
  }

  /** The first n functors have been started, or have been taken and are being started. */
  ghost predicate UnderWay(s: State, n: nat) {
    if s.phase.Calling? then n <= s.taken else n <= |s.ran|
  }

  lemma StepUnderWay(s: State, a: Action, n: nat)
    requires InOrder(s) && Enabled(s, a) && n <= |s.pushed|
    ensures s.pushed <= Step(s, a).pushed
    ensures a.Swap? || UnderWay(s, n) ==> UnderWay(Step(s, a), n)
  {
  }

  lemma {:induction false} StaysUnderWay(s: State, schedule: seq<Action>)
    requires InOrder(s)
    ensures var t := Exec(s, schedule);
      InOrder(t) && s.pushed <= t.pushed && (Happens(s, schedule, Taking) ==> UnderWay(t, |s.pushed|))
  {
    if schedule != [] {
      hide InOrder, UnderWay, Happens, Step, Enabled;
      var n := |schedule| - 1;
      StaysUnderWay(s, schedule[..n]);
      HappensStep(s, schedule, Taking);
      var t := Exec(s, schedule[..n]);
      if Enabled(t, schedule[n]) {
        StepKeepsOrder(t, schedule[n]);
        StepUnderWay(t, schedule[n], |s.pushed|);
      }
    }
  }

  /**
    Progress, whatever the other threads do meanwhile: on any way on which the loop takes
    the queue and gets back to poll, or stops, everything queued before is started.
  */
  lemma QueuedGetsRun(s: State, schedule: seq<Action>)
    requires InOrder(s) && Happens(s, schedule, Taking)
    requires Exec(s, schedule).phase in {AtPoll, Stopped}
    ensures s.pushed <= Exec(s, schedule).ran
  {
    hide Exec, Happens;
    StaysUnderWay(s, schedule);
    var t := Exec(s, schedule);
    assert t.pushed == t.ran + (Waiting(t) + t.pending);
  }

  // ----- when the loop ends, and when it goes on -----

  lemma {:induction false} QuitIffAsked(s: State, schedule: seq<Action>)
    ensures Exec(s, schedule).quit <==> s.quit || Happens(s, schedule, Asking)
  {
    if schedule != [] {
      hide Happens, Step, Enabled;
      var t, a := Exec(s, schedule[..|schedule| - 1]), schedule[|schedule| - 1];
      QuitIffAsked(s, schedule[..|schedule| - 1]);
      HappensStep(s, schedule, Asking);
      if Enabled(t, a) {
        QuitStep(t, a);
      }
    }
  }

  lemma QuitStep(s: State, a: Action)
    requires Enabled(s, a)
    ensures Step(s, a).quit <==> s.quit || Is(a, Asking)
  {
  }

  /** Asked to quit, the loop stops at the end of the round it is in, and for good. */
  lemma {:induction false} QuitStops(s: State, schedule: seq<Action>)
    requires s.quit
    ensures Exec(s, schedule).quit
    ensures s.phase.Stopped? || Happens(s, schedule, Ending) ==> Exec(s, schedule).phase.Stopped?
  {
    if schedule != [] {
      hide Happens;
      QuitStops(s, schedule[..|schedule| - 1]);
      HappensStep(s, schedule, Ending);
    }
  }

  /** The request to quit is among the first k actions, and a round ends after them. */
  ghost predicate QuitServed(schedule: seq<Action>, k: nat) {
    k <= |schedule| && Happens(INIT, schedule[..k], Asking) && Happens(Exec(INIT, schedule[..k]), schedule[k..], Ending)
  }

  /** The loop has stopped if and only if it was asked to quit and a round has ended since. */
  lemma {:induction false} StoppedIffQuitServed(schedule: seq<Action>)
    ensures Exec(INIT, schedule).phase.Stopped? <==> exists k: nat :: QuitServed(schedule, k)
  {
    hide Exec, QuitServed;
    if exists k: nat :: QuitServed(schedule, k) {
      var k: nat :| QuitServed(schedule, k);
      StoppedWhenServed(schedule, k);
    }
    if Exec(INIT, schedule).phase.Stopped? {
      ServedWhenStopped(schedule);
    }
  }

  lemma StoppedWhenServed(schedule: seq<Action>, k: nat)
    requires QuitServed(schedule, k)
    ensures Exec(INIT, schedule).phase.Stopped?
  {
    hide Exec, Happens;
    QuitIffAsked(INIT, schedule[..k]);
    QuitStops(Exec(INIT, schedule[..k]), schedule[k..]);
    assert schedule[..k] + schedule[k..] == schedule;
    ExecConcat(INIT, schedule[..k], schedule[k..]);
  }

  lemma HappensOnce(s: State, a: Action, h: Happening)
    requires Is(a, h) && Enabled(s, a)
    ensures Happens(s, [a], h)
  {
    assert [a][..0] == [] && Is([a][0], h) && Enabled(Exec(s, [a][..0]), [a][0]);
  }

  lemma {:induction false} ServedWhenStopped(schedule: seq<Action>)
    requires Exec(INIT, schedule).phase.Stopped?
    ensures exists k: nat :: QuitServed(schedule, k)
  {
    hide Happens;
    var n := |schedule| - 1;
    var before, t := schedule[..n], Exec(INIT, schedule[..n]);
    if t.phase.Stopped? {
      hide Exec;
      ServedWhenStopped(before);
      var k: nat :| QuitServed(before, k);
      assert schedule[..k] == before[..k] && schedule[k..][..|schedule[k..]| - 1] == before[k..];
      HappensStep(Exec(INIT, schedule[..k]), schedule[k..], Ending);
      assert QuitServed(schedule, k);
    } else {
      QuitIffAsked(INIT, before);
      assert schedule[n] == EndPending && t.quit;
      assert schedule[n..] == [EndPending];
      HappensOnce(t, EndPending, Ending);
      assert QuitServed(schedule, n);
    }
  }

  /** The end of a round leads back to poll exactly if nobody has asked the loop to quit. */
  lemma RoundEnds(schedule: seq<Action>)
    requires Enabled(Exec(INIT, schedule), EndPending)
    ensures var t := Exec(INIT, schedule + [EndPending]);
      if Happens(INIT, schedule, Asking) then t.phase.Stopped? else t.phase.AtPoll?
  {
    QuitIffAsked(INIT, schedule);
    assert (schedule + [EndPending])[..|schedule|] == schedule;
  }

  /** Whatever the loop is doing, another thread can queue a functor and wake it, ... */
  lemma PushTakes(s: State, t: Thread, f: Functor)
    requires t !in s.pushing
    ensures Exec(s, [Push(t, f), Wakeup(t)]) ==
      s.(pending := s.pending + [f], pushed := s.pushed + [f], eventfd := s.eventfd + 1)
  {
    hide Exec;
    ExecTwo(s, Push(t, f), Wakeup(t));
    assert s.pushing + {t} - {t} == s.pushing;
  }

  /** ... and so can a handler, and a functor that is being run. */
  lemma QueueingTakes(s: State, f: Functor)
    ensures s.phase.Handling? ==>
      Exec(s, [QueueFromHandler(f)]) == s.(pending := s.pending + [f], pushed := s.pushed + [f])
    ensures s.phase.Calling? && 0 < s.phase.next <= |s.phase.functors| && !s.selfPushing ==>
      Exec(s, [QueueFromFunctor(f), WakeupSelf]) ==
        s.(pending := s.pending + [f], pushed := s.pushed + [f], eventfd := s.eventfd + 1)
  {
    hide Exec;
    if s.phase.Handling? {
      ExecOne(s, QueueFromHandler(f));
    } else if Enabled(s, QueueFromFunctor(f)) {
      ExecTwo(s, QueueFromFunctor(f), WakeupSelf);
    }
  }

  /** So are the ways of asking it to quit. */
  lemma QuittingTakes(s: State, t: Thread)
    ensures t !in s.quitting ==> Exec(s, [SetQuit(t), WakeupQuit(t)]) == s.(quit := true, eventfd := s.eventfd + 1)
    ensures s.phase.Handling? || (s.phase.Calling? && s.phase.next > 0) ==> Exec(s, [QuitFromLoop]) == s.(quit := true)
  {
    hide Exec;
    if t !in s.quitting {
      ExecTwo(s, SetQuit(t), WakeupQuit(t));
      assert s.quitting + {t} - {t} == s.quitting;
    }
    ExecOne(s, QuitFromLoop);
  }

  lemma ExecOne(s: State, a: Action)
    ensures Exec(s, [a]) == if Enabled(s, a) then Step(s, a) else s
  {
    assert [a][..0] == [];
  }

  lemma ExecTwo(s: State, a: Action, b: Action)
    requires Enabled(s, a)
    ensures Exec(s, [a, b]) == if Enabled(Step(s, a), b) then Step(Step(s, a), b) else Step(s, a)
  {
    assert [a, b][..1] == [a];
    ExecOne(s, a);
  }

  /** What the loop thread does next. */
  function NextStep(s: State): Action
    requires InOrder(s) && !s.phase.Stopped?
  {
    match s.phase
    case AtPoll => PollReturns(false)
    case Handling(wake) => if wake then ReadEventfd else BeginPending
    case ToSwap => Swap
    case Calling(functors, next) =>
      if s.selfPushing then WakeupSelf else if next < |functors| then RunNext else EndPending
  }

  /** How far the loop thread is from poll. */
  function Distance(s: State): (nat, nat, nat) {
    match s.phase
    case Handling(wake) => (if wake then 4 else 3, 0, 0)
    case ToSwap => (2, 0, 0)
    case Calling(functors, next) =>
      (1, if next <= |functors| then |functors| - next else 0, if s.selfPushing then 1 else 0)
    case _ => (0, 0, 0)
  }

  /** The loop thread is never stuck: from anywhere before its end, on its own, it gets back to poll or ends. */
  lemma {:induction false} Finish(s: State) returns (q: seq<Action>)
    requires InOrder(s) && !s.phase.Stopped?
    ensures Exec(s, q).phase in {AtPoll, Stopped} && InOrder(Exec(s, q))
    ensures Exec(s, q).quit == s.quit && s.pushed <= Exec(s, q).pushed
    ensures Exec(s, q).phase.Stopped? ==> s.quit
    decreases Distance(s).0, Distance(s).1, Distance(s).2
  {
    if s.phase.AtPoll? {
      q := [];
    } else {
      var a := NextStep(s);
      StepKeepsOrder(s, a);
      var t := Step(s, a);
      ExecOne(s, a);
      if t.phase.Stopped? {
        q := [a];
      } else {
        q := Finish(t);
        ExecConcat(s, [a], q);
        q := [a] + q;
      }
    }
  }

  /** Unless asked to quit, a loop can run whatever another thread queues now, wherever it is. */
  lemma CanRun(s: State, t: Thread, f: Functor) returns (q: seq<Action>)
    requires InOrder(s) && !s.phase.Stopped? && !s.quit && t !in s.pushing
    ensures [Push(t, f), Wakeup(t)] <= q && s.pushed + [f] <= Exec(s, q).ran
  {
    var push := [Push(t, f), Wakeup(t)];
    PushTakes(s, t, f);
    var s1 := Exec(s, push);
    ExecKeepsOrder(s, push);
    var home := Finish(s1);
    var s2 := Exec(s1, home);
    var take := [PollReturns(false), BeginPending, Swap];
    var s3 := Exec(s2, take);
    TakeQuietly(s2);
    ExecKeepsOrder(s2, take);
    var rest := Finish(s3);
    ExecConcat(s2, take, rest);
    assert (take + rest)[..2] == take[..2] && (take + rest)[2] == Swap;
    assert Happens(s2, take + rest, Taking);
    QueuedGetsRun(s2, take + rest);
    ExecConcat(s1, home, take + rest);
    ExecConcat(s, push, home + (take + rest));
    q := push + (home + (take + rest));
  }

  lemma {:induction false} ExecKeepsOrder(s: State, schedule: seq<Action>)
    requires InOrder(s)
    ensures InOrder(Exec(s, schedule))
  {
    if schedule != [] {
      hide InOrder, Step, Enabled;
      var t, a := Exec(s, schedule[..|schedule| - 1]), schedule[|schedule| - 1];
      ExecKeepsOrder(s, schedule[..|schedule| - 1]);
      if Enabled(t, a) { StepKeepsOrder(t, a); }
    }
  }

  /** A round may also begin with a timeout. */
  lemma TakeQuietly(s: State)
    requires s.phase.AtPoll? && InOrder(s)
    ensures var steps := [PollReturns(false), BeginPending, Swap];
      && Exec(s, steps[..2]) == s.(phase := ToSwap) && Enabled(Exec(s, steps[..2]), Swap)
      && Exec(s, steps) == s.(phase := Calling(s.pending, 0), pending := [], taken := |s.pushed|)
  {
    var steps := [PollReturns(false), BeginPending, Swap];
    assert steps[..2] == [PollReturns(false), BeginPending];
    ExecTwo(s, PollReturns(false), BeginPending);
    assert steps[..|steps| - 1] == steps[..2];
  }

  /** In every run from this state, whatever is pending at poll has a wakeup coming. */
  ghost predicate AlwaysWoken(start: State) {
    forall schedule: seq<Action> :: WakeupOnItsWay(Exec(start, schedule))
  }

  /**
    The condition that the loop starts with an empty queue is exact: with functors
    queued by the loop thread itself before loop(), and with them only, there is a
    moment at poll when functors are pending and no wakeup is coming.
  */
  lemma QueuedBeforeLoop(p: seq<Functor>)
    ensures AlwaysWoken(INIT.(pending := p, pushed := p)) <==> p == []
  {
    var start := INIT.(pending := p, pushed := p);
    if p == [] {
      forall schedule: seq<Action> ensures WakeupOnItsWay(Exec(start, schedule)) {
        EveryRun(schedule);
      }
    }
    if AlwaysWoken(start) {
      var none: seq<Action> := [];
      assert WakeupOnItsWay(Exec(start, none)) && Exec(start, none) == start;
    }
  }
}
