/**
 `rtc_timer_do_work`: the expiry sweep, the reprogramming of the alarm with its retries, and every run of
 the whole device.
 */
module RtcWork {
  import opened Wrappers
  import opened RtcTimers
  import opened RtcRange

  // ---------------------------------------------------------------------------------------------
  // One sweep
  // ---------------------------------------------------------------------------------------------

  /** How often a timer goes off up to `now`. */
  function Due(t: Timer, now: int): nat {
    if t.expires > now then 0
    else if t.period == 0 then 1
    else (now - t.expires) / t.period + 1
  }

  /** The times at which it goes off. */
  function Firings(t: Timer, now: int): (s: seq<int>)
    decreases if t.expires > now then 0 else now - t.expires + 1
  {
    if t.expires > now then []
    else if t.period == 0 then [t.expires]
    else [t.expires] + Firings(t.(expires := t.expires + t.period), now)
  }

  /** All firings still to come from the queue. */
  function DueIn(timers: map<Id, Timer>, queue: seq<Id>, now: int): nat {
    if queue == [] then 0
    else (if queue[0] in timers then Due(timers[queue[0]], now) else 0) + DueIn(timers, queue[1..], now)
  }

  /** Fires the head of the queue: it leaves the queue, and a periodic timer re-enters one period later. */
  function Fire(r: Rtc): Rtc
    requires r.queue != [] && r.queue[0] in r.timers
  {
    var id := r.queue[0];
    var t := r.timers[id];
    var r1 := Dequeue(r, id).(fired := r.fired + [Firing(id, t.expires)]);
    if t.period == 0 then r1 else Add(Configure(r1, id, t.expires + t.period, t.period), id)
  }

  lemma DivStep(x: nat, p: nat)
    requires p > 0 && x >= p
    ensures (x - p) / p == x / p - 1
  {
    var q, m := x / p, x % p;
    assert x - p == (q - 1) * p + m;
    DivUnique(x - p, p, q - 1, m);
  }

  lemma DivUnique(x: int, p: int, q: int, m: int)
    requires p > 0 && x == q * p + m && 0 <= m < p
    ensures x / p == q
  {
    var d := x / p - q;
    assert d * p == m - x % p;
    assert d >= 1 ==> d * p >= p;
    assert d <= -1 ==> d * p <= -p;
  }

  /** One firing brings a periodic timer one closer to being caught up. */
  lemma DueStep(t: Timer, now: int)
    requires t.expires <= now && t.period > 0
    ensures Due(t, now) == Due(t.(expires := t.expires + t.period), now) + 1
  {
    if t.expires + t.period <= now {
      DivStep(now - t.expires, t.period);
    } else {
      DivUnique(now - t.expires, t.period, 0, now - t.expires);
    }
  }

  lemma {:induction false} FiringCount(t: Timer, now: int)
    ensures |Firings(t, now)| == Due(t, now)
    decreases if t.expires > now then 0 else now - t.expires + 1
  {
    if t.expires <= now && t.period > 0 {
      DueStep(t, now);
      FiringCount(t.(expires := t.expires + t.period), now);
    }
  }

  lemma Later(e: int, p: nat, k: nat)
    requires k > 0
    ensures e + p + (k - 1) * p == e + k * p
  {
  }

  /** The `k`-th firing of a periodic timer is `k` periods after the first. */
  lemma {:induction false} FiringTime(t: Timer, now: int, k: nat)
    requires k < |Firings(t, now)|
    ensures Firings(t, now)[k] == t.expires + k * t.period <= now
    decreases k
  {
    if k > 0 {
      var t' := t.(expires := t.expires + t.period);
      assert Firings(t, now)[k] == Firings(t', now)[k - 1];
      FiringTime(t', now, k - 1);
      Later(t.expires, t.period, k);
    }
  }

  /** After its firings a periodic timer stands at the first of its times that lies after `now`. */
  lemma {:induction false} CaughtUp(t: Timer, now: int)
    requires t.period > 0 && t.expires <= now
    ensures t.expires + (Due(t, now) - 1) * t.period <= now < t.expires + Due(t, now) * t.period
    decreases now - t.expires
  {
    var t' := t.(expires := t.expires + t.period);
    DueStep(t, now);
    if t'.expires <= now {
      CaughtUp(t', now);
      Later(t.expires, t.period, Due(t, now));
      if Due(t, now) > 1 {
        Later(t.expires, t.period, Due(t, now) - 1);
      }
    }
  }

  lemma {:induction false} DueInFrame(timers: map<Id, Timer>, timers': map<Id, Timer>, queue: seq<Id>, now: int)
    requires forall id :: id in queue ==>
      id in timers && id in timers' && timers'[id].expires == timers[id].expires && timers'[id].period == timers[id].period
    ensures DueIn(timers, queue, now) == DueIn(timers', queue, now)
  {
    if queue != [] {
      DueInFrame(timers, timers', queue[1..], now);
    }
  }

  lemma {:induction false} DueInInsert(timers: map<Id, Timer>, queue: seq<Id>, id: Id, now: int)
    requires id in timers
    ensures DueIn(timers, Insert(timers, queue, id), now) == DueIn(timers, queue, now) + Due(timers[id], now)
  {
    if queue != [] {
      if queue[0] in timers && timers[id].expires < timers[queue[0]].expires {
        assert ([id] + queue)[1..] == queue;
      } else {
        DueInInsert(timers, queue[1..], id, now);
        assert ([queue[0]] + Insert(timers, queue[1..], id))[1..] == Insert(timers, queue[1..], id);
      }
    }
  }

  function Fired(r: Rtc): Rtc
    requires r.queue != [] && r.queue[0] in r.timers
  {
    Dequeue(r, r.queue[0]).(fired := r.fired + [Firing(r.queue[0], r.timers[r.queue[0]].expires)])
  }

  lemma FiredKeeps(r: Rtc)
    requires Queued(r) && r.queue != []
    ensures Queued(Fired(r)) && Fired(r).queue == r.queue[1..] && r.queue[0] !in r.queue[1..]
  {
    DequeueKeeps(r, r.queue[0]);
    TailKeeps(r.timers, r.queue);
  }

  /** The head timer after it fired. */
  function Rearmed(t: Timer): Timer {
    Timer(t.expires + t.period, t.period, t.period > 0)
  }

  lemma FireTouches(r: Rtc)
    requires r.queue != [] && r.queue[0] in r.timers
    ensures var id := r.queue[0]; var t := r.timers[id]; var f := Fire(r);
            f == r.(timers := r.timers[id := Rearmed(t)], queue := f.queue, fired := r.fired + [Firing(id, t.expires)])
  {
    var id := r.queue[0];
    var t := r.timers[id];
    var r1 := Fired(r);
    if t.period > 0 {
      var r2 := Configure(r1, id, t.expires + t.period, t.period);
      assert Add(r2, id).timers == r.timers[id := Rearmed(t)];
    } else {
      assert r1.timers == r.timers[id := Rearmed(t)];
    }
  }

  lemma Requeued(r: Rtc, id: Id, expires: int, period: nat) returns (f: Rtc)
    requires Queued(r) && id in r.timers && id !in r.queue
    ensures f == Add(Configure(r, id, expires, period), id) && Queued(f)
    ensures forall x :: x in f.queue <==> x == id || x in r.queue
  {
    ConfigureKeeps(r, id, expires, period);
    AddKeeps(Configure(r, id, expires, period), id);
    f := Add(Configure(r, id, expires, period), id);
  }

  /** What firing the head leaves behind: a periodic timer stays on the queue, a one-shot timer does not. */
  lemma FireEffect(r: Rtc)
    requires Queued(r) && r.queue != []
    ensures Queued(Fire(r))
    ensures forall x :: x in Fire(r).queue <==> x in r.queue[1..] || (x == r.queue[0] && r.timers[x].period > 0)
  {
    var id := r.queue[0];
    var t := r.timers[id];
    FiredKeeps(r);
    if t.period > 0 {
      var f := Requeued(Fired(r), id, t.expires + t.period, t.period);
      assert Fire(r) == f;
    }
  }

  lemma FireKeeps(r: Rtc)
    requires Queued(r) && r.queue != []
    ensures Queued(Fire(r))
  {
    FireEffect(r);
  }

  /** Each firing uses up one of the firings due. */
  lemma FireUsesOne(r: Rtc, now: int)
    requires Queued(r) && r.queue != [] && Expires(r, r.queue[0]) <= now
    ensures DueIn(Fire(r).timers, Fire(r).queue, now) + 1 == DueIn(r.timers, r.queue, now)
  {
    var id := r.queue[0];
    var t := r.timers[id];
    var f := Fire(r);
    FiredKeeps(r);
    FireTouches(r);
    DueInFrame(r.timers, f.timers, r.queue[1..], now);
    if t.period > 0 {
      var timers := Enabled(Configure(Fired(r), id, t.expires + t.period, t.period), id, true).timers;
      assert timers == f.timers;
      DueInInsert(f.timers, r.queue[1..], id, now);
      DueStep(t, now);
      assert Due(f.timers[id], now) == Due(t.(expires := t.expires + t.period), now);
    }
  }

  /** The `while` loop of `rtc_timer_do_work` for one reading of the clock. */
  ghost function Sweep(r: Rtc, now: int): Rtc
    requires Queued(r)
    decreases DueIn(r.timers, r.queue, now)
  {
    if r.queue == [] || Expires(r, r.queue[0]) > now then r
    else
      FireKeeps(r);
      FireUsesOne(r, now);
      Sweep(Fire(r), now)
  }

  /** The firings of one sweep, in order. */
  ghost function SweepLog(r: Rtc, now: int): seq<Firing>
    requires Queued(r)
    decreases DueIn(r.timers, r.queue, now)
  {
    if r.queue == [] || Expires(r, r.queue[0]) > now then []
    else
      FireKeeps(r);
      FireUsesOne(r, now);
      [Firing(r.queue[0], Expires(r, r.queue[0]))] + SweepLog(Fire(r), now)
  }

  /** The times at which one timer fired. */
  function TimesOf(log: seq<Firing>, id: Id): seq<int> {
    if log == [] then []
    else (if log[0].id == id then [log[0].at] else []) + TimesOf(log[1..], id)
  }

  /** A timer that was on the queue, after a sweep. */
  function Swept(t: Timer, now: int): Timer {
    if t.expires > now then t
    else if t.period == 0 then t.(enabled := false)
    else t.(expires := t.expires + Due(t, now) * t.period)
  }

  /** A sweep leaves the queue in order with nothing due on it. */
  lemma {:induction false} SweepKeeps(r: Rtc, now: int)
    requires Queued(r)
    ensures Queued(Sweep(r, now))
    ensures Sweep(r, now).queue != [] ==> Expires(Sweep(r, now), Sweep(r, now).queue[0]) > now
    decreases DueIn(r.timers, r.queue, now)
  {
    if r.queue != [] && Expires(r, r.queue[0]) <= now {
      FireKeeps(r);
      FireUsesOne(r, now);
      SweepKeeps(Fire(r), now);
    }
  }

  /** It changes timers and queue, appends to the log, and nothing else. */
  lemma {:induction false} SweepFrame(r: Rtc, now: int)
    requires Queued(r)
    ensures var s := Sweep(r, now);
            && s.timers.Keys == r.timers.Keys
            && s.alarm == r.alarm && s.pending == r.pending && s.now == r.now && s.script == r.script
            && s.range == r.range
    decreases DueIn(r.timers, r.queue, now)
  {
    if r.queue != [] && Expires(r, r.queue[0]) <= now {
      FireKeeps(r);
      FireTouches(r);
      FireUsesOne(r, now);
      SweepFrame(Fire(r), now);
    }
  }

  lemma {:induction false} SweepAppends(r: Rtc, now: int)
    requires Queued(r)
    ensures Sweep(r, now).fired == r.fired + SweepLog(r, now)
    decreases DueIn(r.timers, r.queue, now)
  {
    if r.queue != [] && Expires(r, r.queue[0]) <= now {
      FireKeeps(r);
      FireUsesOne(r, now);
      SweepAppends(Fire(r), now);
      var head := [Firing(r.queue[0], Expires(r, r.queue[0]))];
      assert Fire(r).fired == r.fired + head by { FireTouches(r); }
      assert (r.fired + head) + SweepLog(Fire(r), now) == r.fired + (head + SweepLog(Fire(r), now));
    }
  }

  lemma SweptStep(t: Timer, now: int)
    requires t.expires <= now && t.period > 0
    ensures Swept(t, now).expires == Swept(Rearmed(t), now).expires && Firings(t, now) == [t.expires] + Firings(Rearmed(t), now)
  {
    DueStep(t, now);
    Later(t.expires, t.period, Due(t, now));
    FiringsIgnoreEnabled(Rearmed(t), now, t.enabled);
  }

  lemma {:induction false} FiringsIgnoreEnabled(t: Timer, now: int, on: bool)
    ensures Firings(t.(enabled := on), now) == Firings(t, now)
    decreases if t.expires > now then 0 else now - t.expires + 1
  {
    if t.expires <= now && t.period > 0 {
      FiringsIgnoreEnabled(t.(expires := t.expires + t.period), now, on);
    }
  }

  /**
   One sweep catches every timer up: a queued timer fires at exactly its times up to `now` (a one-shot timer
   at most once), and is left disabled if it was a one-shot that fired, and otherwise queued at its first time
   after `now`.  A timer that is not queued does not fire.
   */
  lemma {:induction false} SweepCatchesUp(r: Rtc, now: int, id: Id)
    requires Queued(r) && id in r.timers
    ensures TimesOf(SweepLog(r, now), id) == if id in r.queue then Firings(r.timers[id], now) else []
    ensures id in Sweep(r, now).timers
    ensures Sweep(r, now).timers[id] == if id in r.queue then Swept(r.timers[id], now) else r.timers[id]
    decreases DueIn(r.timers, r.queue, now)
  {
    if r.queue == [] || Expires(r, r.queue[0]) > now {
      if id in r.queue {
        NotDue(r, now, id);
      }
    } else {
      FireEffect(r);
      FireTouches(r);
      FireUsesOne(r, now);
      TailKeeps(r.timers, r.queue);
      SweepCatchesUp(Fire(r), now, id);
      var t := r.timers[r.queue[0]];
      assert ([Firing(r.queue[0], t.expires)] + SweepLog(Fire(r), now))[1..] == SweepLog(Fire(r), now);
      if id == r.queue[0] && t.period > 0 {
        SweptStep(t, now);
      }
    }
  }

  lemma NotDue(r: Rtc, now: int, id: Id)
    requires Queued(r) && id in r.queue && Expires(r, r.queue[0]) > now
    ensures r.timers[id].expires > now
  {
    if id != r.queue[0] {
      assert id in r.queue[1..];
      BehindHead(r.timers, r.queue, id);
    }
  }

  ghost predicate InOrder(log: seq<Firing>, from: int, to: int) {
    && (forall i :: 0 <= i < |log| ==> from <= log[i].at <= to)
    && (forall i, j :: 0 <= i < j < |log| ==> log[i].at <= log[j].at)
  }

  lemma InOrderPrepend(f: Firing, log: seq<Firing>, from: int, to: int)
    requires from <= f.at <= to && InOrder(log, f.at, to)
    ensures InOrder([f] + log, from, to)
  {
  }

  /** The next head does not expire before the one that fired. */
  lemma NextHeadLater(r: Rtc)
    requires Queued(r) && r.queue != []
    ensures Fire(r).queue != [] ==> Expires(r, r.queue[0]) <= Expires(Fire(r), Fire(r).queue[0])
  {
    FireEffect(r);
    FireTouches(r);
    TailKeeps(r.timers, r.queue);
    var f := Fire(r);
    if f.queue != [] && f.queue[0] != r.queue[0] {
      assert f.queue[0] in f.queue;
      BehindHead(r.timers, r.queue, f.queue[0]);
    }
  }

  /** Firings come in order of expiry, none after `now`. */
  lemma {:induction false} SweepInOrder(r: Rtc, now: int, from: int)
    requires Queued(r) && (r.queue != [] ==> from <= Expires(r, r.queue[0]))
    ensures InOrder(SweepLog(r, now), from, now)
    decreases DueIn(r.timers, r.queue, now)
  {
    if r.queue != [] && Expires(r, r.queue[0]) <= now {
      FireKeeps(r);
      FireUsesOne(r, now);
      NextHeadLater(r);
      SweepInOrder(Fire(r), now, Expires(r, r.queue[0]));
      InOrderPrepend(Firing(r.queue[0], Expires(r, r.queue[0])), SweepLog(Fire(r), now), from, now);
    }
  }

  // ---------------------------------------------------------------------------------------------
  // The whole of rtc_timer_do_work
  // ---------------------------------------------------------------------------------------------

  /** Programs the alarm, with up to `retry` further attempts on the same `alarm->time` after failures. */
  function Program(r: Rtc, time: int, at: int, retry: nat): (Rtc, AlarmResult)
    decreases retry
  {
    var (r1, res, time') := Attempt(r, time, at);
    if res == Failed && retry > 0 then Program(r1, time', at, retry - 1) else (r1, res)
  }

  /** How far the clock moves during the calls of a script. */
  function Total(script: seq<Call>): nat {
    if script == [] then 0 else script[0].dt + Total(script[1..])
  }

  /** A call after which `rtc_timer_do_work` tries again with the same alarm. */
  predicate Fails(c: Call) {
    c.read == Broken || (c.read == Done && c.write == Broken)
  }

  /** No time passes between a call that fails and the next one. */
  ghost predicate Brisk(script: seq<Call>) {
    forall i :: 0 <= i < |script| - 1 && Fails(script[i]) ==> script[i + 1].dt == 0
  }

  lemma {:induction false} ProgramEffect(r: Rtc, time: int, at: int, retry: nat)
    ensures var (r1, res) := Program(r, time, at, retry);
            && r1 == r.(alarm := r1.alarm, pending := r1.pending, now := r1.now, script := r1.script)
            && |r1.script| <= |r.script|
            && (r.script == [] && r.now < time ==> res == Armed)
            && (res == Armed ==> r1.alarm == Some(at))
    decreases retry
  {
    ConsumeTouches(r);
    var (r1, res, time') := Attempt(r, time, at);
    if res == Failed && retry > 0 {
      ProgramEffect(r1, time', at, retry - 1);
    }
  }

  /** `r1` is later than `r` by at most `n` calls of the script. */
  ghost predicate CallsLater(r: Rtc, r1: Rtc, n: nat) {
    && r1.range == r.range && |r1.script| <= |r.script| <= |r1.script| + n
    && r1.script == r.script[|r.script| - |r1.script|..]
    && r1.now >= r.now && r1.now + Total(r1.script) == r.now + Total(r.script)
  }

  lemma LaterStill(r: Rtc, r1: Rtc, r2: Rtc, m: nat, n: nat)
    requires CallsLater(r, r1, m) && CallsLater(r1, r2, n)
    ensures CallsLater(r, r2, m + n)
  {
  }

  lemma ConsumeLater(r: Rtc)
    ensures CallsLater(r, Consume(r), 1)
  {
    ConsumeTouches(r);
  }

  lemma {:induction false} ProgramLater(r: Rtc, time: int, at: int, retry: nat)
    ensures CallsLater(r, Program(r, time, at, retry).0, retry + 1)
    decreases retry
  {
    ConsumeLater(r);
    var (r1, res, time') := Attempt(r, time, at);
    if res == Failed && retry > 0 {
      ProgramLater(r1, time', at, retry - 1);
      LaterStill(r, r1, Program(r1, time', at, retry - 1).0, 1, retry);
    }
  }

  /** The clock shows times of the window all along. */
  ghost predicate ClockShown(r: Rtc) {
    var w := r.range;
    Shown(w.lo, w.hi, w.start, r.now) && Shown(w.lo, w.hi, w.start, r.now + Total(r.script))
  }

  /** Hardware times are ahead of shown times, but only the first second shown needs conversion. */
  ghost predicate OneAhead(w: Window) {
    Proper(w) && w.offset < 0 && w.lo == w.start + 1
  }

  /**
   A retry checks the hardware time of the alarm against the time shown.  An alarm that gets programmed is still
   in the future unless hardware times are ahead of shown times and time passes between attempts.
   */
  ghost predicate RetriesSafely(r: Rtc) {
    r.range.offset >= 0 || Brisk(r.script) || (OneAhead(r.range) && ClockShown(r))
  }

  lemma {:induction false} ProgramsFuture(r: Rtc, time: int, at: int, retry: nat)
    requires r.range.offset >= 0 || Brisk(r.script)
    requires time <= at || (Brisk(r.script) && NextCall(r).dt == 0 && r.now < at)
    ensures var (r1, res) := Program(r, time, at, retry);
            res == Armed ==> r1.now < at
    decreases retry
  {
    ConsumeTouches(r);
    var (r1, res, time') := Attempt(r, time, at);
    if res == Failed && retry > 0 {
      ProgramsFuture(r1, time', at, retry - 1);
    }
  }

  /** An alarm after the first second shown needs no conversion, and one after the hardware range is never reached. */
  lemma {:induction false} ProgramsFutureOneAhead(r: Rtc, time: int, at: int, retry: nat)
    requires OneAhead(r.range) && ClockShown(r) && (time == at || at > r.range.hi)
    ensures var (r1, res) := Program(r, time, at, retry);
            res == Armed ==> r1.now < at
    decreases retry
  {
    ConsumeTouches(r);
    var (r1, res, time') := Attempt(r, time, at);
    if res == Failed && retry > 0 {
      ProgramsFutureOneAhead(r1, time', at, retry - 1);
    }
  }

  /** The clock is read and what is due at that time is fired. */
  ghost function AfterSweep(r: Rtc): (s: Rtc)
    requires Queued(r)
    ensures Queued(s) && s.timers.Keys == r.timers.Keys
    ensures (r.script == [] ==> s.script == []) && (r.script != [] ==> |s.script| < |r.script|) && s.range == r.range
    ensures r.script == [] && s.queue != [] ==> s.now < Expires(s, s.queue[0])
  {
    ConsumeTouches(r);
    var (r1, _, now) := ReadTime(r);
    assert Queued(r1);
    SweepKeeps(r1, now);
    SweepFrame(r1, now);
    Sweep(r1, now)
  }

  /** Programs the alarm for the head of the queue. */
  ghost function Reprogram(s: Rtc): (r: (Rtc, AlarmResult))
    requires Queued(s) && s.queue != []
    ensures Queued(r.0) && r.0.timers == s.timers && r.0.queue == s.queue && r.0.fired == s.fired && r.0.range == s.range
    ensures |r.0.script| <= |s.script|
    ensures s.script == [] && s.now < Expires(s, s.queue[0]) ==> r.1 == Armed
    ensures r.1 == Armed ==> r.0.alarm == Some(Expires(s, s.queue[0]))
  {
    var at := Expires(s, s.queue[0]);
    ProgramEffect(s, at, at, 3);
    Program(s, at, at, 3)
  }

  lemma AfterSweepLater(r: Rtc)
    requires Queued(r)
    ensures CallsLater(r, AfterSweep(r), 1)
  {
    ConsumeTouches(r);
    ConsumeLater(r);
    var (r1, _, now) := ReadTime(r);
    assert Queued(r1);
    SweepFrame(r1, now);
  }

  lemma ReprogramLater(s: Rtc)
    requires Queued(s) && s.queue != []
    ensures CallsLater(s, Reprogram(s).0, 4)
  {
    ProgramLater(s, Expires(s, s.queue[0]), Expires(s, s.queue[0]), 3);
  }

  /** Retries that are safe now are safe later in the same work. */
  lemma StaySafe(r: Rtc, r1: Rtc, n: nat)
    requires CallsLater(r, r1, n) && RetriesSafely(r)
    ensures RetriesSafely(r1)
  {
    if Brisk(r.script) {
      var k := |r.script| - |r1.script|;
      forall i | 0 <= i < |r1.script| - 1 && Fails(r1.script[i]) ensures r1.script[i + 1].dt == 0 {
        assert r1.script[i] == r.script[k + i] && r1.script[i + 1] == r.script[k + i + 1];
      }
    }
  }

  lemma ReprogramsFuture(s: Rtc)
    requires Queued(s) && s.queue != [] && RetriesSafely(s)
    ensures Reprogram(s).1 == Armed ==> Reprogram(s).0.now < Expires(s, s.queue[0])
  {
    var at := Expires(s, s.queue[0]);
    if s.range.offset >= 0 || Brisk(s.script) {
      ProgramsFuture(s, at, at, 3);
    } else {
      ProgramsFutureOneAhead(s, at, at, 3);
    }
  }

  /** From `again:` on.  A dropped timer is one whose alarm could not be programmed in four attempts. */
  ghost function Work(r: Rtc): Rtc
    requires Queued(r)
    decreases |r.script|
  {
    var s := AfterSweep(r);
    if s.queue == [] then s.(alarm := None)
    else
      var (s1, res) := Reprogram(s);
      match res
      case Armed => s1
      case InPast => Work(s1)
      case Failed => DequeueKeeps(s1, s.queue[0]); Work(Dequeue(s1, s.queue[0]))
  }

  ghost function DoWork(r: Rtc): Rtc
    requires Queued(r)
  {
    Work(r.(pending := false))
  }

  /** Once the failures are over the work ends, with the queue in order, and the alarm set for its head if any. */
  lemma {:induction false} WorkEnds(r: Rtc)
    requires Queued(r)
    ensures var w := Work(r);
            && Queued(w) && w.timers.Keys == r.timers.Keys && w.range == r.range
            && (if w.queue == [] then w.alarm == None else w.alarm == Some(Expires(w, w.queue[0])))
    decreases |r.script|
  {
    var s := AfterSweep(r);
    if s.queue != [] {
      var id := s.queue[0];
      var (s1, res) := Reprogram(s);
      match res
      case Armed =>
      case InPast => WorkEnds(s1);
      case Failed => DequeueKeeps(s1, id); WorkEnds(Dequeue(s1, id));
    }
  }

  /** A round in which retries are safe arms an alarm in the future, or leaves retries safe. */
  lemma SafeRound(r: Rtc)
    requires Queued(r) && RetriesSafely(r) && AfterSweep(r).queue != []
    ensures var (s1, res) := Reprogram(AfterSweep(r));
            RetriesSafely(s1) && (res == Armed ==> Good(s1))
  {
    var s := AfterSweep(r);
    AfterSweepLater(r);
    StaySafe(r, s, 1);
    ReprogramsFuture(s);
    ReprogramLater(s);
    StaySafe(s, Reprogram(s).0, 4);
  }

  /** If retries are safe, that alarm is in the future. */
  lemma {:induction false} WorkKeeps(r: Rtc)
    requires Queued(r) && RetriesSafely(r)
    ensures Good(Work(r))
    decreases |r.script|
  {
    var s := AfterSweep(r);
    if s.queue != [] {
      SafeRound(r);
      var (s1, res) := Reprogram(s);
      match res
      case Armed =>
      case InPast => WorkKeeps(s1);
      case Failed => DequeueKeeps(s1, s.queue[0]); WorkKeeps(Dequeue(s1, s.queue[0]));
    }
  }

  // ---------------------------------------------------------------------------------------------
  // How long the work takes
  // ---------------------------------------------------------------------------------------------

  /** The clock can be read, and the driver leaves it to the core to call an alarm late. */
  ghost predicate Plain(script: seq<Call>) {
    forall c <- script :: c.read == Done && c.write != Late
  }

  ghost predicate HeadDue(r: Rtc) {
    r.queue != [] && Expires(r, r.queue[0]) <= r.now
  }

  lemma {:induction false} InsertLength(timers: map<Id, Timer>, queue: seq<Id>, id: Id)
    requires id in timers
    ensures |Insert(timers, queue, id)| == |queue| + 1
  {
    if queue != [] {
      InsertLength(timers, queue[1..], id);
    }
  }

  lemma FireShortens(r: Rtc)
    requires Queued(r) && r.queue != []
    ensures |Fire(r).queue| <= |r.queue|
  {
    FiredKeeps(r);
    var id, t := r.queue[0], r.timers[r.queue[0]];
    if t.period > 0 {
      var c := Configure(Fired(r), id, t.expires + t.period, t.period);
      InsertLength(Enabled(c, id, true).timers, c.queue, id);
    }
  }

  /** A sweep makes the queue no longer. */
  lemma {:induction false} SweepShortens(r: Rtc, now: int)
    requires Queued(r)
    ensures |Sweep(r, now).queue| <= |r.queue|
    decreases DueIn(r.timers, r.queue, now)
  {
    if r.queue != [] && Expires(r, r.queue[0]) <= now {
      FireKeeps(r);
      FireUsesOne(r, now);
      FireShortens(r);
      SweepShortens(Fire(r), now);
    }
  }

  lemma StayPlain(r: Rtc, r1: Rtc, n: nat)
    requires CallsLater(r, r1, n) && Plain(r.script)
    ensures Plain(r1.script)
  {
    forall c | c in r1.script ensures c in r.script { }
  }

  /** Reading the clock and sweeping fires the head if it was due. */
  lemma SweepFiresDue(r: Rtc)
    requires Queued(r) && Plain(r.script)
    ensures var s := AfterSweep(r);
            |s.queue| <= |r.queue| && |s.fired| >= |r.fired| + (if HeadDue(r) then 1 else 0)
  {
    ConsumeTouches(r);
    var (r1, ok, now) := ReadTime(r);
    assert Queued(r1);
    SweepShortens(r1, now);
    SweepAppends(r1, now);
    if r.script != [] {
      assert r.script[0] in r.script;
    }
  }

  /** If hardware times are not behind shown times, an alarm called late is late. */
  lemma {:induction false} LateIsDue(r: Rtc, time: int, at: int, retry: nat)
    requires r.range.offset <= 0 && Plain(r.script) && at <= time
    ensures Program(r, time, at, retry).1 == InPast ==> at <= Program(r, time, at, retry).0.now
    decreases retry
  {
    ConsumeTouches(r);
    ConsumeLater(r);
    StayPlain(r, Consume(r), 1);
    if r.script != [] {
      assert r.script[0] in r.script;
    }
    var (r1, res, time') := Attempt(r, time, at);
    if res == Failed && retry > 0 {
      LateIsDue(r1, time', at, retry - 1);
    }
  }

  /** The driver calls of the work that come from the script, and what it fired. */
  ghost function Calls(r: Rtc): int
    requires Queued(r)
  {
    |r.script| - |DoWork(r).script|
  }

  ghost function Fires(r: Rtc): int
    requires Queued(r)
  {
    |DoWork(r).fired| - |r.fired|
  }

  /**
   Each round reads the clock once and programs the alarm four times at most.  Where hardware times are not behind
   shown times, a round that is not the last drops a timer or finds one due, which the next round fires.
   */
  lemma {:induction false} CallsBounded(r: Rtc)
    requires Queued(r) && r.range.offset <= 0 && Plain(r.script)
    ensures |Work(r).fired| >= |r.fired| + (if HeadDue(r) then 1 else 0)
    ensures |r.script| - |Work(r).script| <=
            5 * (|r.queue| + |Work(r).fired| - |r.fired| + (if HeadDue(r) then 0 else 1))
    decreases |r.script|
  {
    SweepFiresDue(r);
    var s := AfterSweep(r);
    AfterSweepLater(r);
    StayPlain(r, s, 1);
    if s.queue != [] {
      var id, at := s.queue[0], Expires(s, s.queue[0]);
      var (s1, res) := Reprogram(s);
      LateIsDue(s, at, at, 3);
      ReprogramLater(s);
      StayPlain(s, s1, 4);
      match res
      case Armed =>
      case InPast => CallsBounded(s1);
      case Failed =>
        DequeueKeeps(s1, id);
        CallsBounded(Dequeue(s1, id));
    }
  }

  /** The head of the queue is a time to come whose alarm is shown and converted to an earlier one. */
  ghost predicate Converted(r: Rtc) {
    && Queued(r) && r.queue != [] && Proper(r.range) && r.range.offset > 0
    && var w, at := r.range, Expires(r, r.queue[0]);
       w.start <= r.now < at && Shown(w.lo, w.hi, w.start, at) && ToHardware(w, at) != at
  }

  /** With the alarm due later, reading the clock at once uses up a call and changes nothing else. */
  lemma SweepsNothing(r: Rtc)
    requires Queued(r) && r.queue != [] && r.script != [] && r.script[0].dt == 0
    requires Expires(r, r.queue[0]) > if r.script[0].read == Done then r.now else r.script[0].junk
    ensures AfterSweep(r) == r.(script := r.script[1..])
  {
  }

  /** The second attempt takes the alarm for a past one. */
  lemma SecondAttemptIsLate(s: Rtc)
    requires Converted(s) && |s.script| >= 2
    requires s.script[0] == Call(0, Done, Broken, 0) && s.script[1] == Call(0, Done, Broken, 0)
    ensures Reprogram(s) == (s.(script := s.script[2..]), InPast)
  {
    var w, at := s.range, Expires(s, s.queue[0]);
    ExpansionIsBijection(w.lo, w.hi, w.start, w.offset);
    var s1, s2 := s.(script := s.script[1..]), s.(script := s.script[2..]);
    assert Attempt(s, at, at) == (s1, Failed, at - w.offset);
    assert s1.script[1..] == s2.script && Attempt(s1, at - w.offset, at) == (s2, InPast, at - w.offset);
    assert Program(s1, at - w.offset, at, 2) == (s2, InPast);
  }

  lemma FailingRound(r: Rtc)
    requires Converted(r) && |r.script| >= 3
    requires forall i :: 0 <= i < 3 ==> r.script[i] == Call(0, Done, Broken, 0)
    ensures Work(r) == Work(r.(script := r.script[3..]))
  {
    var s := r.(script := r.script[1..]);
    SweepsNothing(r);
    SecondAttemptIsLate(s);
    assert s.script[2..] == r.script[3..];
  }

  /**
   Where hardware times are behind shown times, the second attempt takes a converted alarm for a past one, and the
   work starts over.  Three failing calls change nothing, so the work goes on for as long as programming fails.
   */
  lemma {:induction false} FailuresAreEndless(r: Rtc, n: nat)
    requires Converted(r)
    requires 3 * n <= |r.script| && forall i :: 0 <= i < 3 * n ==> r.script[i] == Call(0, Done, Broken, 0)
    ensures Work(r) == Work(r.(script := r.script[3 * n..]))
    decreases n
  {
    if n == 0 {
      assert r.script[0..] == r.script;
    } else {
      var s := r.(script := r.script[3..]);
      FailingRound(r);
      FailuresAreEndless(s, n - 1);
      assert s.script[3 * (n - 1)..] == r.script[3 * n..];
    }
  }

  /** The first attempt ends with -ETIME. */
  lemma LateAtOnce(s: Rtc)
    requires Queued(s) && s.queue != [] && s.script != [] && s.script[0].dt == 0 && s.script[0].read == Done
    requires s.script[0].write == Late || HeadDue(s)
    ensures Reprogram(s) == (s.(script := s.script[1..]), InPast)
  {
  }

  /** A driver that answers -ETIME itself keeps the work going too, whatever the offset. */
  lemma {:induction false} LateAnswersAreEndless(r: Rtc, n: nat)
    requires Queued(r) && r.queue != [] && r.now < Expires(r, r.queue[0])
    requires 2 * n <= |r.script| && forall i :: 0 <= i < 2 * n ==> r.script[i] == Call(0, Done, Late, 0)
    ensures Work(r) == Work(r.(script := r.script[2 * n..]))
    decreases n
  {
    if n == 0 {
      assert r.script[0..] == r.script;
    } else {
      var s := r.(script := r.script[1..]);
      SweepsNothing(r);
      var s1 := r.(script := r.script[2..]);
      LateAtOnce(s);
      assert s.script[1..] == r.script[2..];
      LateAnswersAreEndless(s1, n - 1);
      assert s1.script[2 * (n - 1)..] == r.script[2 * n..];
    }
  }

  /** So does a clock that cannot be read for the sweep, only for the check of the alarm. */
  lemma {:induction false} BlindSweepsAreEndless(r: Rtc, junk: int, n: nat)
    requires Queued(r) && HeadDue(r) && junk < Expires(r, r.queue[0])
    requires 2 * n <= |r.script|
    requires forall i :: 0 <= i < 2 * n ==> r.script[i] == Call(0, if i % 2 == 0 then Broken else Done, Done, junk)
    ensures Work(r) == Work(r.(script := r.script[2 * n..]))
    decreases n
  {
    if n == 0 {
      assert r.script[0..] == r.script;
    } else {
      var s := r.(script := r.script[1..]);
      SweepsNothing(r);
      var s1 := r.(script := r.script[2..]);
      LateAtOnce(s);
      assert s.script[1..] == r.script[2..];
      BlindSweepsAreEndless(s1, junk, n - 1);
      assert s1.script[2 * (n - 1)..] == r.script[2 * n..];
    }
  }

  // ---------------------------------------------------------------------------------------------
  // What retries do when shown and hardware times differ
  // ---------------------------------------------------------------------------------------------

  /** A device on which only the alarm timer is queued; the hardware alarm has gone off and the work is scheduled. */
  function Waiting(w: Window, now: int, at: int, script: seq<Call>): Rtc {
    Rtc(map[AIE := Timer(at, 0, true), UIE := Timer(0, 0, false)], [AIE], None, true, now, script, [], w, 0)
  }

  /** The first attempt to program the alarm fails, a second passes, and the next attempt succeeds. */
  function LateScript(): seq<Call> {
    [Call(0, Done, Done, 0), Call(0, Done, Broken, 0), Call(1, Done, Done, 0)]
  }

  /**
   Where hardware times are ahead of shown times, the retry takes an alarm that has passed for a future one.  The
   timer is left on the queue, with no work scheduled and an alarm that never goes off.
   */
  lemma LateRetryLosesAlarm(w: Window, at: int, dt: nat)
    requires w.offset < 0 && at < w.lo
    ensures var r := Waiting(w, at - 1, at, LateScript());
            && Device(r)
            && DoWork(r).queue == [AIE] && DoWork(r).fired == [] && Expires(DoWork(r), AIE) == at
            && !Roused(Tick(DoWork(r), dt)) && Tick(DoWork(r), dt).now >= at
  {
    var r := Waiting(w, at - 1, at, LateScript()).(pending := false);
    var s := AfterSweep(r);
    assert r.script[1..] == [Call(0, Done, Broken, 0), Call(1, Done, Done, 0)];
    assert s == r.(script := r.script[1..]);
    var (s1, res1, time) := Attempt(s, at, at);
    assert s.script[1..] == [Call(1, Done, Done, 0)];
    assert res1 == Failed && time == at - w.offset && s1 == s.(script := s.script[1..]);
    var (s2, res2, _) := Attempt(s1, time, at);
    assert res2 == Armed && s2.now == at && s2.alarm == Some(at);
    assert Program(s1, time, at, 2) == (s2, Armed);
    assert Program(s, at, at, 3) == (s2, Armed) && Reprogram(s) == (s2, Armed);
  }

  /** A device in working order whose clock and queued times are times it can show. */
  ghost predicate InWindow(w: Window, r: Rtc) {
    && Device(r) && r.range == w && ClockShown(r)
    && forall id <- r.queue :: Shown(w.lo, w.hi, w.start, Expires(r, id))
  }

  /**
   The work keeps the device awake, from every state in the window and for every driver, if and only if the offset
   is not negative or leaves no future time to convert.
   */
  lemma WorkKeepsIffOffset(w: Window)
    requires Proper(w)
    ensures (forall r: Rtc :: InWindow(w, r) ==> Good(DoWork(r))) <==> w.offset >= 0 || w.lo == w.start + 1
  {
    if w.offset >= 0 || w.lo == w.start + 1 {
      forall r: Rtc | InWindow(w, r) ensures Good(DoWork(r)) { WorkKeeps(r.(pending := false)); }
    } else {
      var at := w.start + 1;
      var r := Waiting(w, at - 1, at, LateScript());
      LateRetryLosesAlarm(w, at, 0);
      LateScriptTakesOne();
      assert InWindow(w, r);
      assert DoWork(r).queue != [] && !Roused(DoWork(r)) && DoWork(r).now >= at;
      assert DoWork(r).queue[0] == AIE;
      assert !Good(DoWork(r));
    }
  }

  lemma LateScriptTakesOne()
    ensures Total(LateScript()) == 1
  {
    var l := LateScript();
    assert l[1..] == [l[1], l[2]] && l[1..][1..] == [l[2]] && [l[2]][1..] == [];
  }

  /** The work takes at most `k` calls per timer queued or fired, and `k` more. */
  ghost predicate Within(r: Rtc, k: nat)
    requires Queued(r)
  {
    Calls(r) <= k * (|r.queue| + Fires(r) + 1)
  }

  ghost predicate Bounded(w: Window, k: nat) {
    forall r: Rtc :: InWindow(w, r) && Plain(r.script) ==> Within(r, k)
  }

  function Failing(n: nat): seq<Call> {
    seq(n, _ => Call(0, Done, Broken, 0))
  }

  lemma {:induction false} FailingTakesNoTime(n: nat)
    ensures Total(Failing(n)) == 0
  {
    if n > 0 {
      FailingTakesNoTime(n - 1);
      assert Failing(n)[1..] == Failing(n - 1);
    }
  }

  lemma WaitingInWindow(w: Window, now: int, at: int, script: seq<Call>)
    requires Shown(w.lo, w.hi, w.start, now) && Shown(w.lo, w.hi, w.start, now + Total(script))
    requires Shown(w.lo, w.hi, w.start, at)
    ensures InWindow(w, Waiting(w, now, at, script))
  {
  }

  /** The last second of the window, as alarm. */
  function LastSecond(w: Window): int {
    w.start + w.hi - w.lo
  }

  lemma EndlessWork(w: Window, n: nat)
    requires Proper(w) && w.offset > 0
    ensures var q := Waiting(w, w.start, LastSecond(w), Failing(3 * n)).(pending := false);
            && Queued(q)
            && Work(q) == Waiting(w, w.start, LastSecond(w), []).(pending := false, alarm := Some(LastSecond(w)))
  {
    var at := LastSecond(w);
    var q := Waiting(w, w.start, at, Failing(3 * n)).(pending := false);
    ExpansionIsBijection(w.lo, w.hi, w.start, w.offset);
    FailuresAreEndless(q, n);
    assert q.script[3 * n..] == [];
    QuietWork(w, w.start, at);
  }

  /** All of `3 * n` failures go by without effect. */
  lemma EndlessExample(w: Window, n: nat)
    requires Proper(w) && w.offset > 0
    ensures var r := Waiting(w, w.start, LastSecond(w), Failing(3 * n));
            InWindow(w, r) && Plain(r.script) && |r.queue| == 1 && Fires(r) == 0 && Calls(r) == 3 * n
  {
    FailingTakesNoTime(3 * n);
    WaitingInWindow(w, w.start, LastSecond(w), Failing(3 * n));
    EndlessWork(w, n);
  }

  lemma QuietWork(w: Window, now: int, at: int)
    requires now < at
    ensures var e := Waiting(w, now, at, []).(pending := false);
            Queued(e) && Work(e) == e.(alarm := Some(at))
  {
    var e := Waiting(w, now, at, []).(pending := false);
    assert AfterSweep(e) == e;
    assert Reprogram(e) == (e.(alarm := Some(at)), Armed);
  }

  lemma Exceeds(w: Window, k: nat) returns (r: Rtc)
    requires Proper(w) && w.offset > 0
    ensures InWindow(w, r) && Plain(r.script) && !Within(r, k)
  {
    r := Waiting(w, w.start, LastSecond(w), Failing(3 * (k + 1)));
    EndlessExample(w, k + 1);
    assert k * (|r.queue| + Fires(r) + 1) == k * 2;
  }

  lemma BoundedByFive(w: Window, r: Rtc)
    requires w.offset <= 0 && InWindow(w, r) && Plain(r.script)
    ensures Within(r, 5)
  {
    CallsBounded(r.(pending := false));
  }

  /**
   For a clock that can be read and a driver that does not answer -ETIME itself: the number of driver calls is
   bounded by the timers queued and fired, if and only if the offset is not positive.
   */
  lemma WorkBoundedIffOffset(w: Window)
    requires Proper(w)
    ensures (exists k: nat :: Bounded(w, k)) <==> w.offset <= 0
  {
    if w.offset <= 0 {
      forall r: Rtc | InWindow(w, r) && Plain(r.script) ensures Within(r, 5) {
        BoundedByFive(w, r);
      }
      assert Bounded(w, 5);
    } else {
      forall k: nat ensures !Bounded(w, k) {
        var r := Exceeds(w, k);
      }
    }
  }

  /** An alarm whose hardware time is the shown time is given up after four attempts, unless it passes meanwhile. */
  lemma {:induction false} GivenUp(r: Rtc, at: int, retry: nat)
    requires ToHardware(r.range, at) == at && retry < |r.script|
    requires forall i :: 0 <= i <= retry ==> Fails(r.script[i])
    ensures var (r1, res) := Program(r, at, at, retry);
            res == Failed || (res == InPast && at <= r1.now)
    decreases retry
  {
    ConsumeTouches(r);
    var (r1, res, time) := Attempt(r, at, at);
    if res == Failed && retry > 0 {
      GivenUp(r1, at, retry - 1);
    }
  }

  /**
   Where hardware times are behind shown times, the first retry takes the alarm for a past one, and the work
   starts over: as long as the clock can be read, no timer is given up, however often programming fails.
   */
  lemma NeverGivenUp(r: Rtc, at: int)
    requires Proper(r.range) && r.range.offset > 0 && r.range.start <= r.now
    requires Shown(r.range.lo, r.range.hi, r.range.start, at) && ToHardware(r.range, at) != at
    requires forall c <- r.script :: c.read == Done
    ensures Program(r, at, at, 3).1 != Failed
  {
    var w := r.range;
    ConsumeTouches(r);
    var (r1, res, time) := Attempt(r, at, at);
    if res == Failed {
      ExpansionIsBijection(w.lo, w.hi, w.start, w.offset);
      assert time == at - w.offset < w.start <= r1.now;
      var (r2, res2, _) := Attempt(r1, time, at);
      assert forall c <- r1.script :: c in r.script;
      assert NextCall(r1).read == Done && time <= r2.now && res2 == InPast;
      assert Program(r1, time, at, 2) == (r2, InPast);
    }
  }

  // ---------------------------------------------------------------------------------------------
  // Every run
  // ---------------------------------------------------------------------------------------------

  /** One section under the lock each, but for `WorkScheduled`, the end of `rtc_set_time`, and the passing of time. */
  datatype Op =
    | StartTimer(id: Id, expires: int, period: nat)
    | CancelTimer(id: Id)
    | UserAlarm(expires: int, on: bool)
    | UserIrq(on: bool, unsupported: bool)
    | ClockWritten(time: int)
    | WorkScheduled
    | Worker
    | Elapse(dt: nat)

  /** A step of the device, with what the driver is going to answer during it. */
  datatype Event = Event(op: Op, script: seq<Call>)

  /** The work may also run without being pending: when it was scheduled again while it waited for the lock. */
  ghost predicate Allowed(r: Rtc, e: Event) {
    match e.op
    case StartTimer(id, _, _) => id in r.timers
    case CancelTimer(id) => id in r.timers
    case WorkScheduled => r.owed > 0
    case Worker => RetriesSafely(r.(script := e.script))
    case _ => true
  }

  ghost function Step(r: Rtc, e: Event): Rtc
    requires Device(r) && (e.op.StartTimer? || e.op.CancelTimer? ==> e.op.id in r.timers)
    requires e.op.WorkScheduled? ==> r.owed > 0
  {
    var r := r.(script := e.script);
    match e.op
    case StartTimer(id, expires, period) => Start(r, id, expires, period).0
    case CancelTimer(id) => RemoveIfEnabled(r, id)
    case UserAlarm(expires, on) => SetUserAlarm(r, expires, on).0
    case UserIrq(on, unsupported) => UpdateIrq(r, on, unsupported).0
    case ClockWritten(time) => WriteClock(r, time)
    case WorkScheduled => Schedule(r)
    case Worker => DoWork(r)
    case Elapse(dt) => Tick(r, dt)
  }

  ghost predicate Device(r: Rtc) {
    Good(r) && AIE in r.timers && UIE in r.timers
  }

  lemma StepKeeps(r: Rtc, e: Event)
    requires Device(r) && Allowed(r, e)
    ensures Device(Step(r, e)) && Step(r, e).timers.Keys == r.timers.Keys && Step(r, e).range == r.range
  {
    var q := r.(script := e.script);
    assert Good(q);
    match e.op
    case StartTimer(id, expires, period) => StartKeeps(q, id, expires, period);
    case CancelTimer(id) => RemoveIfEnabledKeeps(q, id);
    case UserAlarm(expires, on) => SetUserAlarmKeeps(q, expires, on);
    case UserIrq(on, unsupported) => UpdateIrqKeeps(q, on, unsupported);
    case ClockWritten(time) => WriteClockKeeps(q, time);
    case WorkScheduled => ScheduleKeeps(q);
    case Worker =>
      assert RetriesSafely(q.(pending := false));
      WorkKeeps(q.(pending := false));
      WorkEnds(q.(pending := false));
    case Elapse(dt) =>
  }

  ghost predicate AllowedRun(r: Rtc, events: seq<Event>)
    requires Device(r)
    decreases |events|
  {
    events == [] ||
    (Allowed(r, events[0]) && (StepKeeps(r, events[0]); AllowedRun(Step(r, events[0]), events[1..])))
  }

  ghost function Run(r: Rtc, events: seq<Event>): Rtc
    requires Device(r) && AllowedRun(r, events)
    decreases |events|
  {
    if events == [] then r
    else
      StepKeeps(r, events[0]);
      Run(Step(r, events[0]), events[1..])
  }

  /**
   Over every run of any callers, one lock section at a time, however the driver fails: the queue is sorted, a
   timer is enabled exactly when it is queued, and the queue is empty, or the work is scheduled or about to be, or
   the alarm is armed for the future and no later than the head of the queue.  The work's retries must be safe,
   which they always are if the offset is not negative.
   */
  lemma {:induction false} NoLostWakeup(r: Rtc, events: seq<Event>)
    requires Device(r) && AllowedRun(r, events)
    ensures Device(Run(r, events))
    decreases |events|
  {
    if events != [] {
      StepKeeps(r, events[0]);
      NoLostWakeup(Step(r, events[0]), events[1..]);
    }
  }

  /** A device with nothing queued is one of those. */
  lemma FreshDevice(r: Rtc)
    requires r.queue == [] && AIE in r.timers && UIE in r.timers && forall id <- r.timers :: !r.timers[id].enabled
    ensures Device(r)
  {
  }

  /** A device as registered, with the two timers every device has. */
  function Registered(w: Window, now: int): Rtc {
    Rtc(map[AIE := Timer(0, 0, false), UIE := Timer(0, 0, false)], [], None, false, now, [], [], w, 0)
  }

  /** The alarm is set, goes off, and before the work runs the clock is set back to where it was. */
  function SetBack(now: int, at: int): seq<Event>
    requires now < at
  {
    [Event(UserAlarm(at, true), []), Event(Elapse(at - now), []), Event(ClockWritten(now), []), Event(WorkScheduled, [])]
  }

  /** That is how a device comes to wait, so the failing states above are reached. */
  lemma WaitingIsReached(w: Window, now: int, at: int)
    requires now < at
    ensures Device(Registered(w, now)) && AllowedRun(Registered(w, now), SetBack(now, at))
    ensures Run(Registered(w, now), SetBack(now, at)) == Waiting(w, now, at, [])
  {
    var r, e := Registered(w, now), SetBack(now, at);
    var d := Waiting(w, now, at, []);
    var a := d.(pending := false, alarm := Some(at));
    SetsAlarm(w, now, at);
    var b := d.(now := at);
    assert Step(a, e[1]) == b;
    var c := d.(owed := 1);
    assert Step(b, e[2]) == c && Step(c, e[3]) == d;
    assert e[1..][0] == e[1] && e[1..][1..] == e[2..] && e[2..][0] == e[2] && e[2..][1..] == e[3..];
    assert e[3..][0] == e[3] && e[3..][1..] == [];
    assert AllowedRun(c, e[3..]) && Run(c, e[3..]) == d;
    assert AllowedRun(b, e[2..]) && Run(b, e[2..]) == d;
    assert AllowedRun(a, e[1..]) && Run(a, e[1..]) == d;
  }

  lemma ReachWaiting(w: Window, now: int, at: int) returns (r: Rtc, events: seq<Event>)
    requires now < at
    ensures r.queue == [] && r.now == now && r.range == w
    ensures Device(r) && AllowedRun(r, events) && Run(r, events) == Waiting(w, now, at, [])
  {
    r, events := Registered(w, now), SetBack(now, at);
    WaitingIsReached(w, now, at);
  }

  /** The alarm timer stays queued and due, and no work is ever scheduled, however long one waits. */
  ghost predicate Lost(r: Rtc, dt: nat) {
    r.queue == [AIE] && r.fired == [] && Expires(r, AIE) <= r.now && !Roused(Tick(r, dt))
  }

  lemma LateStep(d: Rtc, w: Window, at: int, dt: nat)
    requires w.offset < 0 && at < w.lo && d == Waiting(w, at - 1, at, [])
    ensures Device(d) && Lost(Step(d, Event(Worker, LateScript())), dt)
  {
    LateRetryLosesAlarm(w, at, dt);
  }

  /** So a registered device comes to lose a wake-up for good, if the condition of `WorkKeepsIffOffset` is not met. */
  lemma LostWakeupIsReached(w: Window, dt: nat) returns (r: Rtc, events: seq<Event>)
    requires Proper(w) && w.offset < 0 && w.lo != w.start + 1
    ensures r.queue == [] && r.now == w.start && r.range == w
    ensures Device(r) && AllowedRun(r, events) && Device(Run(r, events))
    ensures Lost(Step(Run(r, events), Event(Worker, LateScript())), dt)
  {
    r, events := ReachWaiting(w, w.start, w.start + 1);
    LateStep(Run(r, events), w, w.start + 1, dt);
  }

  lemma SetsAlarm(w: Window, now: int, at: int)
    requires now < at
    ensures Step(Registered(w, now), Event(UserAlarm(at, true), [])) ==
            Waiting(w, now, at, []).(pending := false, alarm := Some(at))
  {
    var c := Configure(Registered(w, now), AIE, at, 0);
    assert c.timers == map[AIE := Timer(at, 0, false), UIE := Timer(0, 0, false)];
    assert Add(c, AIE) == Waiting(w, now, at, []).(pending := false);
  }

  lemma DueFires(r: Rtc, id: Id)
    requires Queued(r) && id in r.queue && Expires(r, id) <= r.now
    ensures Firing(id, Expires(r, id)) in SweepLog(r, r.now)
  {
    SweepCatchesUp(r, r.now, id);
    assert TimesOf(SweepLog(r, r.now), id)[0] == Expires(r, id);
    InTimes(SweepLog(r, r.now), id, 0);
  }

  lemma HeadFirst(r: Rtc, id: Id)
    requires Queued(r) && id in r.queue
    ensures Expires(r, r.queue[0]) <= Expires(r, id)
  {
    if id != r.queue[0] {
      assert id in r.queue[1..];
      BehindHead(r.timers, r.queue, id);
    }
  }

  /** Everything fired so far stays in the log, and what the first sweep fires is added. */
  lemma {:induction false} WorkLogs(r: Rtc, f: Firing)
    requires Queued(r) && (f in r.fired || f in AfterSweep(r).fired)
    ensures f in Work(r).fired
    decreases |r.script|
  {
    ConsumeTouches(r);
    var (r1, _, now) := ReadTime(r);
    assert Queued(r1);
    SweepAppends(r1, now);
    var s := AfterSweep(r);
    if s.queue != [] {
      var id := s.queue[0];
      var (s1, res) := Reprogram(s);
      match res
      case Armed =>
      case InPast => WorkLogs(s1, f);
      case Failed => DequeueKeeps(s1, id); WorkLogs(Dequeue(s1, id), f);
    }
  }

  /**
   So in every reachable state, once the clock reaches the expiry of a queued timer, the work is scheduled or about
   to be, and running it fires the timer, provided its first reading of the clock succeeds.
   */
  lemma DueTimerIsServed(r: Rtc, events: seq<Event>, id: Id, dt: nat, script: seq<Call>)
    requires Device(r) && AllowedRun(r, events)
    requires id in Run(r, events).queue && Expires(Run(r, events), id) <= Run(r, events).now + dt
    ensures var s := Tick(Run(r, events), dt);
            && Device(s) && Roused(s)
            && (script == [] || script[0].read == Done ==>
                  Firing(id, Expires(s, id)) in Step(s, Event(Worker, script)).fired)
  {
    NoLostWakeup(r, events);
    var s := Tick(Run(r, events), dt);
    HeadFirst(Run(r, events), id);
    assert s.timers == Run(r, events).timers && s.queue == Run(r, events).queue;
    if script == [] || script[0].read == Done {
      WorkServes(s.(script := script, pending := false), id);
    }
  }

  lemma WorkServes(r: Rtc, id: Id)
    requires Queued(r) && id in r.queue && Expires(r, id) <= r.now && NextCall(r).read == Done
    ensures Firing(id, Expires(r, id)) in Work(r).fired
  {
    ConsumeTouches(r);
    var r1 := Consume(r);
    assert Queued(r1);
    DueFires(r1, id);
    SweepAppends(r1, r1.now);
    WorkLogs(r, Firing(id, Expires(r, id)));
  }

  lemma {:induction false} InTimes(log: seq<Firing>, id: Id, k: nat)
    requires k < |TimesOf(log, id)|
    ensures Firing(id, TimesOf(log, id)[k]) in log
  {
    if log[0].id == id {
      if k > 0 {
        InTimes(log[1..], id, k - 1);
        assert TimesOf(log, id)[k] == TimesOf(log[1..], id)[k - 1];
      }
    } else {
      InTimes(log[1..], id, k);
    }
  }
}
