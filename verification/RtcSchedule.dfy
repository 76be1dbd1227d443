/**
 When timers fire and what the alarm is set for, over whole runs: a queued timer fires at exactly its times, none
 early and none left out, and with a driver that works the alarm is the head of the queue at all times.
 */
module RtcSchedule {
  import opened Wrappers
  import opened RtcTimers
  import opened RtcRange
  import opened RtcWork

  // ---------------------------------------------------------------------------------------------
  // Sweeps one after another
  // ---------------------------------------------------------------------------------------------

  /** What a timer does up to `now`, and what is left of it; one that is off does nothing. */
  function Does(t: Timer, now: int): seq<int> {
    if t.enabled then Firings(t, now) else []
  }

  function Left(t: Timer, now: int): Timer
    decreases if t.expires > now then 0 else now - t.expires + 1
  {
    if !t.enabled || t.expires > now then t
    else if t.period == 0 then t.(enabled := false)
    else Left(Rearmed(t), now)
  }

  /** Which is where the closed form puts it. */
  lemma {:induction false} LeftIsSwept(t: Timer, now: int)
    requires t.enabled
    ensures Left(t, now) == Swept(t, now)
    decreases if t.expires > now then 0 else now - t.expires + 1
  {
    if t.expires <= now && t.period > 0 {
      SweptStep(t, now);
      LeftIsSwept(Rearmed(t), now);
    }
  }

  function Max(a: int, b: int): int {
    if a < b then b else a
  }

  /** A periodic timer that is due fires once and is then like one set a period later. */
  lemma DoesStep(t: Timer, now: int)
    requires t.enabled && t.expires <= now && t.period > 0
    ensures Left(t, now) == Left(Rearmed(t), now) && Does(t, now) == [t.expires] + Does(Rearmed(t), now)
  {
    SweptStep(t, now);
  }

  lemma NotYet(t: Timer, now: int)
    requires !t.enabled || t.expires > now
    ensures Does(t, now) == [] && Left(t, now) == t
  {
  }

  lemma OneShot(t: Timer, now: int)
    requires t.enabled && t.expires <= now && t.period == 0
    ensures Does(t, now) == [t.expires] && Left(t, now) == t.(enabled := false)
  {
  }

  /** Catching up to `a` and then to `b` is catching up to the later of the two. */
  lemma {:induction false} CatchUpTwice(t: Timer, a: int, b: int)
    ensures Does(t, a) + Does(Left(t, a), b) == Does(t, Max(a, b))
    ensures Left(Left(t, a), b) == Left(t, Max(a, b))
    decreases if t.expires > a then 0 else a - t.expires + 1
  {
    if !t.enabled || t.expires > a {
      NotYet(t, a);
      if Max(a, b) == a {
        NotYet(t, b);
      }
    } else if t.period == 0 {
      OneShot(t, a);
      OneShot(t, Max(a, b));
      NotYet(Left(t, a), b);
    } else {
      var t' := Rearmed(t);
      CatchUpTwice(t', a, b);
      DoesStep(t, a);
      DoesStep(t, Max(a, b));
      assert ([t.expires] + Does(t', a)) + Does(Left(t', a), b) == [t.expires] + (Does(t', a) + Does(Left(t', a), b));
    }
  }

  lemma {:induction false} TimesOfBoth(a: seq<Firing>, b: seq<Firing>, id: Id)
    ensures TimesOf(a + b, id) == TimesOf(a, id) + TimesOf(b, id)
  {
    if a == [] {
      assert a + b == b && [] + TimesOf(b, id) == TimesOf(b, id);
    } else {
      TimesOfBoth(a[1..], b, id);
      assert (a + b)[1..] == a[1..] + b && (a + b)[0] == a[0];
      var first := if a[0].id == id then [a[0].at] else [];
      assert first + (TimesOf(a[1..], id) + TimesOf(b, id)) == (first + TimesOf(a[1..], id)) + TimesOf(b, id);
    }
  }

  /** From `r` to `r'` the log grew, and timer `id` did what it does up to `n`. */
  ghost predicate Ran(r: Rtc, r': Rtc, id: Id, n: int) {
    && id in r.timers && id in r'.timers && r.fired <= r'.fired
    && TimesOf(r'.fired[|r.fired|..], id) == Does(r.timers[id], n)
    && r'.timers[id] == Left(r.timers[id], n)
  }

  lemma RanOn(r: Rtc, r1: Rtc, r2: Rtc, id: Id, a: int, b: int)
    requires Ran(r, r1, id, a) && Ran(r1, r2, id, b)
    ensures Ran(r, r2, id, Max(a, b))
  {
    CatchUpTwice(r.timers[id], a, b);
    var x, y := r1.fired[|r.fired|..], r2.fired[|r1.fired|..];
    assert r2.fired[|r.fired|..] == x + y;
    TimesOfBoth(x, y, id);
  }

  /** Nothing happened to the timer. */
  lemma Idled(r: Rtc, r': Rtc, id: Id) returns (n: int)
    requires id in r.timers && id in r'.timers && r'.timers[id] == r.timers[id] && r'.fired == r.fired
    ensures Ran(r, r', id, n) && n < r.timers[id].expires
  {
    n := r.timers[id].expires - 1;
    assert r'.fired[|r.fired|..] == [];
  }

  // ---------------------------------------------------------------------------------------------
  // The work
  // ---------------------------------------------------------------------------------------------

  /** The clock can be read, and programming the alarm does not fail. */
  ghost predicate Unfailing(script: seq<Call>) {
    forall c <- script :: c.read == Done && c.write != Broken
  }

  lemma StayUnfailing(r: Rtc, r1: Rtc, n: nat)
    requires CallsLater(r, r1, n) && Unfailing(r.script)
    ensures Unfailing(r1.script)
  {
    forall c | c in r1.script ensures c in r.script { }
  }

  lemma NeverFails(s: Rtc)
    requires Queued(s) && s.queue != [] && Unfailing(s.script)
    ensures Reprogram(s).1 != Failed
  {
    if s.script != [] {
      assert s.script[0] in s.script;
    }
  }

  /** One sweep, at the time read. */
  lemma SweepRan(r: Rtc, id: Id) returns (n: int)
    requires Queued(r) && id in r.timers && Unfailing(r.script)
    ensures Ran(r, AfterSweep(r), id, n) && n == AfterSweep(r).now
  {
    ConsumeTouches(r);
    if r.script != [] {
      assert r.script[0] in r.script;
    }
    var (r1, _, now) := ReadTime(r);
    assert Queued(r1) && now == r1.now;
    SweepCatchesUp(r1, now, id);
    if r.timers[id].enabled {
      LeftIsSwept(r.timers[id], now);
    }
    SweepAppends(r1, now);
    SweepFrame(r1, now);
    n := now;
    assert AfterSweep(r).fired[|r.fired|..] == SweepLog(r1, now);
  }

  /** One round: a sweep, and the alarm programmed unless it is late. */
  lemma RoundRan(r: Rtc, id: Id) returns (n: int)
    requires Queued(r) && id in r.timers && Unfailing(r.script) && AfterSweep(r).queue != []
    ensures var (s1, res) := Reprogram(AfterSweep(r));
            && res != Failed && Unfailing(s1.script) && Ran(r, s1, id, n) && r.now <= n <= s1.now
  {
    n := SweepRan(r, id);
    var s := AfterSweep(r);
    AfterSweepLater(r);
    StayUnfailing(r, s, 1);
    NeverFails(s);
    ReprogramLater(s);
    StayUnfailing(s, Reprogram(s).0, 4);
  }

  /**
   The work catches every timer up to a time between the clock at its beginning and at its end: the timer fires at
   exactly its times up to then and is left at the next; a timer that is off does not fire.
   */
  lemma {:induction false} WorkCatchesUp(r: Rtc, id: Id) returns (n: int)
    requires Queued(r) && id in r.timers && Unfailing(r.script)
    ensures Ran(r, Work(r), id, n) && r.now <= n <= Work(r).now
    decreases |r.script|
  {
    var s := AfterSweep(r);
    if s.queue == [] {
      n := SweepRan(r, id);
      AfterSweepLater(r);
    } else {
      n := RoundRan(r, id);
      var (s1, res) := Reprogram(s);
      if res == InPast {
        var m := WorkCatchesUp(s1, id);
        RanOn(r, s1, Work(s1), id, n, m);
        n := m;
      }
    }
  }

  // ---------------------------------------------------------------------------------------------
  // Every run
  // ---------------------------------------------------------------------------------------------

  /** The event is not about this timer, and if it is the work, the driver does not fail in it. */
  ghost predicate Leaves(e: Event, id: Id) {
    match e.op
    case StartTimer(i, _, _) => i != id
    case CancelTimer(i) => i != id
    case UserAlarm(_, _) => id != AIE
    case UserIrq(_, _) => id != UIE
    case Worker => Unfailing(e.script)
    case _ => true
  }

  /** Any step but the work leaves the timer alone. */
  lemma StepIdles(r: Rtc, e: Event, id: Id)
    requires Device(r) && Allowed(r, e) && Leaves(e, id) && id in r.timers && !e.op.Worker?
    ensures id in Step(r, e).timers && Step(r, e).timers[id] == r.timers[id] && Step(r, e).fired == r.fired
  {
    var q := r.(script := e.script);
    assert Good(q);
    match e.op
    case StartTimer(i, expires, period) => StartEffect(q, i, expires, period);
    case CancelTimer(i) => CancelEffect(q, i);
    case UserAlarm(expires, on) => SetUserAlarmEffect(q, expires, on);
    case UserIrq(on, unsupported) => UpdateIrqEffect(q, on, unsupported);
    case ClockWritten(time) => WriteClockEffect(q, time);
    case WorkScheduled =>
    case Elapse(dt) =>
  }

  lemma StepRan(r: Rtc, e: Event, id: Id) returns (n: int)
    requires Device(r) && Allowed(r, e) && Leaves(e, id) && id in r.timers
    ensures Ran(r, Step(r, e), id, n)
  {
    if e.op.Worker? {
      n := WorkCatchesUp(r.(script := e.script, pending := false), id);
    } else {
      StepIdles(r, e, id);
      n := Idled(r, Step(r, e), id);
    }
  }

  lemma {:induction false} RunRan(r: Rtc, events: seq<Event>, id: Id) returns (n: int)
    requires Device(r) && AllowedRun(r, events) && id in r.timers && forall e <- events :: Leaves(e, id)
    ensures Ran(r, Run(r, events), id, n)
    decreases |events|
  {
    if events == [] {
      n := Idled(r, r, id);
    } else {
      StepKeeps(r, events[0]);
      var s := Step(r, events[0]);
      var a := StepRan(r, events[0], id);
      assert forall e <- events[1..] :: e in events;
      var b := RunRan(s, events[1..], id);
      RanOn(r, s, Run(s, events[1..]), id, a, b);
      n := Max(a, b);
    }
  }

  lemma ScheduleOf(at: int, p: nat, n: int)
    ensures var times := Firings(Timer(at, p, true), n);
            && |times| == (if at > n then 0 else if p == 0 then 1 else (n - at) / p + 1)
            && forall k: nat :: k < |times| ==> times[k] == at + k * p
  {
    var t := Timer(at, p, true);
    FiringCount(t, n);
    forall k: nat | k < |Firings(t, n)| ensures Firings(t, n)[k] == at + k * p {
      FiringTime(t, n, k);
    }
  }

  /**
   A timer started for `at` with period `p` fires at `at`, `at + p`, `at + 2 * p` and so on, in this order and with
   none left out, and at no other time, in every run in which nobody touches it and the driver does not fail in the
   work; without a period it fires at most once.
   */
  lemma StartedFiresOnSchedule(r: Rtc, id: Id, at: int, p: nat, script: seq<Call>, events: seq<Event>) returns (n: int)
    requires Device(r) && id in r.timers && Start(r.(script := script), id, at, p).1
    requires Device(Step(r, Event(StartTimer(id, at, p), script)))
    requires AllowedRun(Step(r, Event(StartTimer(id, at, p), script)), events) && forall e <- events :: Leaves(e, id)
    ensures var s := Step(r, Event(StartTimer(id, at, p), script));
            var w := Run(s, events);
            && s.fired == r.fired && s.fired <= w.fired
            && var times := TimesOf(w.fired[|s.fired|..], id);
               && |times| == (if at > n then 0 else if p == 0 then 1 else (n - at) / p + 1)
               && forall k: nat :: k < |times| ==> times[k] == at + k * p
  {
    var s := Step(r, Event(StartTimer(id, at, p), script));
    StartEffect(r.(script := script), id, at, p);
    assert s.timers[id] == Timer(at, p, true) && s.fired == r.fired;
    n := RunRan(s, events, id);
    ScheduleOf(at, p, n);
  }

  // ---------------------------------------------------------------------------------------------
  // The alarm is the head of the queue
  // ---------------------------------------------------------------------------------------------

  ghost predicate Working(script: seq<Call>) {
    forall c <- script :: Works(c)
  }

  /** The work is scheduled or about to be, or the alarm is armed for exactly the head of the queue, or off. */
  ghost predicate AlarmIsHead(r: Rtc) {
    Roused(r) || (if r.queue == [] then r.alarm == None
                  else r.alarm == Some(Expires(r, r.queue[0])) && r.now < Expires(r, r.queue[0]))
  }

  ghost predicate Exact(r: Rtc) {
    Queued(r) && AlarmIsHead(r)
  }

  lemma ConsumeExact(r: Rtc)
    requires Exact(r) && Working(r.script)
    ensures Exact(Consume(r)) && Working(Consume(r).script) && Works(NextCall(r))
  {
    ConsumeTouches(r);
    if r.script != [] {
      assert r.script[0] in r.script;
      forall c | c in r.script[1..] ensures c in r.script { }
    }
  }

  lemma EnqueueExact(r: Rtc, id: Id)
    requires Exact(r) && Working(r.script) && id in r.timers && id !in r.queue
    ensures Exact(Enqueue(r, id).0)
  {
    ConsumeExact(r);
    ConsumeTouches(r);
    var r1 := Consume(r);
    ConsumeExact(r1);
    assert Good(r);
    EnqueueKeeps(r, id);
    EnqueueArmsIffEarliest(r, id);
    EnqueueTouches(r, id);
    AddKeeps(r1, id);
    if Preceded(r1, id, r1.now) {
      assert r1.queue != [];
    }
  }

  /** The new queue is the old one with the timer added, and being roused stays. */
  lemma EnqueueTouches(r: Rtc, id: Id)
    requires Queued(r) && id in r.timers && id !in r.queue && Works(NextCall(r)) && Works(NextCall(Consume(r)))
    ensures var r' := Enqueue(r, id).0; var r1 := Consume(r); var r2 := Add(r1, id);
            && r'.queue == r2.queue && r'.timers == r2.timers && (Roused(r1) ==> Roused(r'))
            && (r'.now == r1.now || !Preceded(r1, id, r1.now))
  {
    ConsumeTouches(r);
    var r1 := Consume(r);
    var r2 := Add(r1, id);
    assert Expires(r2, id) == Expires(r1, id);
    FirstLiveIsEarliest(r1, r1.queue, r1.now);
    ArmTouches(r2, id);
  }

  lemma ArmTouches(r: Rtc, id: Id)
    requires id in r.timers && Works(NextCall(r))
    ensures var r' := Arm(r, id).0;
            r'.queue == r.queue && r'.timers == r.timers && (Roused(r) ==> Roused(r'))
  {
    ConsumeTouches(r);
  }

  /** The queue after a removal is the old one without the timer, and a roused device stays so. */
  lemma RemoveTail(r: Rtc, id: Id)
    requires Exact(r) && Working(r.script) && id in r.timers && id in r.queue
    ensures var r' := Remove(r, id);
            && Working(r'.script) && (Roused(r) ==> Roused(r'))
            && (r.queue[0] != id ==> r'.queue != [] && Expires(r', r'.queue[0]) == Expires(r, r.queue[0]))
            && Works(NextCall(r))
  {
    DequeueKeeps(r, id);
    ConsumeExact(r);
    ConsumeTouches(Dequeue(r, id));
  }

  lemma RemoveExact(r: Rtc, id: Id)
    requires Exact(r) && Working(r.script) && id in r.timers
    ensures Exact(RemoveIfEnabled(r, id)) && Working(RemoveIfEnabled(r, id).script)
  {
    if r.timers[id].enabled {
      assert Good(r);
      RemoveTail(r, id);
      RemoveRearms(r, id);
      assert Queued(Remove(r, id)) by { RemoveKeeps(r, id); }
    }
  }

  lemma LaunchExact(r: Rtc, id: Id, expires: int, period: nat) returns (c: Rtc, r': Rtc)
    requires Exact(r) && Working(r.script) && id in r.timers && id !in r.queue
    ensures c == Configure(r, id, expires, period) && Exact(c)
    ensures r' == Enqueue(c, id).0 && Exact(r')
  {
    c := Configure(r, id, expires, period);
    ConfigureKeeps(r, id, expires, period);
    EnqueueExact(c, id);
    r' := Enqueue(c, id).0;
  }

  lemma WorkingIsSafe(r: Rtc)
    requires Working(r.script)
    ensures RetriesSafely(r)
  {
    assert forall i :: 0 <= i < |r.script| ==> r.script[i] in r.script;
  }

  lemma StepExact(r: Rtc, e: Event)
    requires Device(r) && AlarmIsHead(r) && Allowed(r, e) && Working(e.script)
    ensures Exact(Step(r, e))
  {
    var q := r.(script := e.script);
    assert Good(q) && Exact(q);
    match e.op
    case StartTimer(id, expires, period) =>
      RemoveExact(q, id);
      RemoveIfEnabledKeeps(q, id);
      var c, r' := LaunchExact(RemoveIfEnabled(q, id), id, expires, period);
    case CancelTimer(id) => RemoveExact(q, id);
    case UserAlarm(expires, on) =>
      RemoveExact(q, AIE);
      RemoveIfEnabledKeeps(q, AIE);
      var c, r' := LaunchExact(RemoveIfEnabled(q, AIE), AIE, expires, 0);
    case UserIrq(on, unsupported) => IrqExact(q, on, unsupported);
    case ClockWritten(time) => ConsumeTouches(q);
    case WorkScheduled =>
    case Worker =>
      WorkingIsSafe(q.(pending := false));
      WorkKeeps(q.(pending := false));
      WorkEnds(q.(pending := false));
    case Elapse(dt) =>
  }

  /** Switching update interrupts on is setting the timer up after a reading, and enqueueing it. */
  lemma SwitchOnIs(r: Rtc, c: Rtc)
    requires UIE in r.timers && !r.timers[UIE].enabled && NextCall(r).read == Done && UIE in Consume(r).timers
    requires c == Configure(Consume(r), UIE, Consume(r).now + 1, 1)
    ensures UpdateIrq(r, true, false) == Enqueue(c, UIE)
  {
  }

  lemma SwitchOnExact(r: Rtc)
    requires Exact(r) && Working(r.script) && UIE in r.timers && !r.timers[UIE].enabled
    ensures Exact(UpdateIrq(r, true, false).0)
  {
    ConsumeExact(r);
    ConsumeTouches(r);
    var r1 := Consume(r);
    assert UIE !in r1.queue;
    var c, r' := LaunchExact(r1, UIE, r1.now + 1, 1);
    SwitchOnIs(r, c);
  }

  lemma IrqExact(r: Rtc, on: bool, unsupported: bool)
    requires Exact(r) && Working(r.script) && UIE in r.timers
    ensures Exact(UpdateIrq(r, on, unsupported).0)
  {
    if r.timers[UIE].enabled != on && !unsupported {
      if on {
        SwitchOnExact(r);
      } else {
        RemoveExact(r, UIE);
      }
    }
  }

  /**
   Over every run in which the driver does not fail: unless the work is scheduled or about to be, the hardware alarm
   is armed for exactly the expiry of the head of the queue, and is off when the queue is empty.
   */
  lemma {:induction false} AlarmIsHeadOverRuns(r: Rtc, events: seq<Event>)
    requires Device(r) && AlarmIsHead(r) && AllowedRun(r, events) && forall e <- events :: Working(e.script)
    ensures AlarmIsHead(Run(r, events))
    decreases |events|
  {
    if events != [] {
      StepKeeps(r, events[0]);
      assert events[0] in events;
      StepExact(r, events[0]);
      assert forall e <- events[1..] :: e in events;
      AlarmIsHeadOverRuns(Step(r, events[0]), events[1..]);
    }
  }

  // ---------------------------------------------------------------------------------------------
  // Retries and giving up
  // ---------------------------------------------------------------------------------------------

  /** `n` failures, then a call that works, with no time passing. */
  ghost predicate FailsThenWorks(script: seq<Call>, n: nat) {
    && n < |script| && Works(script[n])
    && (forall i: nat :: i <= n ==> script[i].dt == 0)
    && (forall i: nat :: i < n ==> Fails(script[i]))
  }

  lemma {:induction false} ProgramRetries(r: Rtc, at: int, retry: nat, n: nat)
    requires ToHardware(r.range, at) == at && r.now < at && FailsThenWorks(r.script, n)
    ensures var (r1, res) := Program(r, at, at, retry);
            if n <= retry then res == Armed && r1 == r.(alarm := Some(at), script := r.script[n + 1..])
            else res == Failed && r1 == r.(script := r.script[retry + 1..])
    decreases retry
  {
    var r1 := r.(script := r.script[1..]);
    assert Consume(r) == r1;
    if n > 0 && retry > 0 {
      assert Attempt(r, at, at) == (r1, Failed, at);
      ProgramRetries(r1, at, retry - 1, n - 1);
      assert r1.script[n..] == r.script[n + 1..] && (n > retry ==> r1.script[retry..] == r.script[retry + 1..]);
    }
  }

  /** An alarm that needs no conversion is programmed if one of four attempts works, and given up otherwise. */
  lemma FourAttempts(s: Rtc, n: nat)
    requires Queued(s) && s.queue != [] && s.now < Expires(s, s.queue[0]) && FailsThenWorks(s.script, n)
    requires ToHardware(s.range, Expires(s, s.queue[0])) == Expires(s, s.queue[0])
    ensures var (s1, res) := Reprogram(s);
            if n < 4 then res == Armed && s1 == s.(alarm := Some(Expires(s, s.queue[0])), script := s.script[n + 1..])
            else res == Failed && s1 == s.(script := s.script[4..])
  {
    ProgramRetries(s, Expires(s, s.queue[0]), 3, n);
  }

  /** Giving up takes the head off the queue and the work goes on with the others. */
  lemma GivesUpTheHead(r: Rtc, n: nat)
    requires Queued(r) && r.queue != [] && r.script != [] && r.script[0].dt == 0 && r.script[0].read == Done
    requires r.now < Expires(r, r.queue[0]) && FailsThenWorks(r.script[1..], n) && n >= 4
    requires ToHardware(r.range, Expires(r, r.queue[0])) == Expires(r, r.queue[0])
    ensures var id := r.queue[0]; var t := r.timers[id];
            var rest := r.(timers := r.timers[id := Timer(t.expires, t.period, false)], queue := r.queue[1..], script := r.script[5..]);
            Queued(rest) && Work(r) == Work(rest)
  {
    SweepsNothing(r);
    var s := r.(script := r.script[1..]);
    FourAttempts(s, n);
    assert s.script[4..] == r.script[5..];
    var s1 := s.(script := s.script[4..]);
    DequeueKeeps(s1, s.queue[0]);
    TailKeeps(r.timers, r.queue);
  }
}
