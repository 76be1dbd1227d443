/**
 The RTC timer queue on one hardware alarm.  Operations are functions on an `Rtc` value; RtcDevice.dfy
 carries them out in place.

 The driver is abstract.  `script` lists what its coming calls do: how far the clock moves before the call
 and what is answered.  The list is arbitrary and finite; once it is used up, calls succeed at once.  When the
 clock crosses the alarm, the interrupt schedules the work; an alarm that is past when it is armed stays silent.
 */
module RtcTimers {
  import opened Wrappers
  import opened RtcRange

  type Id = nat

  /** The two timers every device has; other ids are timers of kernel users. */
  const AIE: Id := 0
  const UIE: Id := 1

  datatype Timer = Timer(expires: int, period: nat, enabled: bool)

  /** What a driver callback answers: 0, -ETIME, or another error. */
  datatype Answer = Done | Late | Broken

  /** The answers of `read_time` and of a `set_` callback; `junk` is what a failed `read_time` leaves behind. */
  datatype Call = Call(dt: nat, read: Answer, write: Answer, junk: int)

  datatype Firing = Firing(id: Id, at: int)

  /**
   `pending` is the work being scheduled, up to the point where it gets the lock.  `owed` counts the callers of
   `rtc_set_time` that have set the clock, given up the lock and not scheduled the work yet.
   */
  datatype Rtc = Rtc(
    timers: map<Id, Timer>, queue: seq<Id>,
    alarm: Option<int>, pending: bool, now: int, script: seq<Call>, fired: seq<Firing>, range: Window, owed: nat)

  // ---------------------------------------------------------------------------------------------
  // Clock and driver
  // ---------------------------------------------------------------------------------------------

  /** The clock moves; if it crosses the alarm, the interrupt schedules the work. */
  function Tick(r: Rtc, dt: nat): Rtc {
    var now := r.now + dt;
    if r.alarm.Some? && r.now < r.alarm.value <= now then r.(now := now, pending := true, alarm := None)
    else r.(now := now)
  }

  function NextCall(r: Rtc): Call {
    if r.script == [] then Call(0, Done, Done, 0) else r.script[0]
  }

  function Consume(r: Rtc): Rtc {
    Tick(if r.script == [] then r else r.(script := r.script[1..]), NextCall(r).dt)
  }

  /** `__rtc_read_time`: whether it succeeded, and the time or junk. */
  function ReadTime(r: Rtc): (Rtc, bool, int) {
    var c := NextCall(r);
    var r1 := Consume(r);
    (r1, c.read == Done, if c.read == Done then r1.now else c.junk)
  }

  datatype AlarmResult = Armed | InPast | Failed

  /**
   `__rtc_set_alarm` for the alarm `at`, as one step: reads the time, refuses a past alarm, programs the hardware.
   `time` is the caller's `alarm->time`, which is left converted to hardware time, also when programming fails.
   The callers take any -ETIME for a past alarm, the driver's own included.
   */
  function Attempt(r: Rtc, time: int, at: int): (Rtc, AlarmResult, int) {
    var c := NextCall(r);
    var r1 := Consume(r);
    if c.read == Broken then (r1, Failed, time)
    else if c.read == Late || time <= r1.now then (r1, InPast, time)
    else if c.write == Broken then (r1, Failed, ToHardware(r.range, time))
    else if c.write == Late then (r1, InPast, ToHardware(r.range, time))
    else (r1.(alarm := Some(at)), Armed, ToHardware(r.range, time))
  }

  /** `__rtc_set_alarm` on a fresh alarm. */
  function SetAlarm(r: Rtc, at: int): (Rtc, AlarmResult) {
    var (r1, res, _) := Attempt(r, at, at);
    (r1, res)
  }

  // ---------------------------------------------------------------------------------------------
  // The queue
  // ---------------------------------------------------------------------------------------------

  function Expires(r: Rtc, id: Id): int {
    if id in r.timers then r.timers[id].expires else 0
  }

  /** `timerqueue_add`: before the first later timer, after equal ones. */
  function Insert(timers: map<Id, Timer>, queue: seq<Id>, id: Id): seq<Id>
    requires id in timers
  {
    if queue == [] then [id]
    else if queue[0] in timers && timers[id].expires < timers[queue[0]].expires then [id] + queue
    else [queue[0]] + Insert(timers, queue[1..], id)
  }

  function Delete(queue: seq<Id>, id: Id): seq<Id> {
    if queue == [] then [] else if queue[0] == id then queue[1..] else [queue[0]] + Delete(queue[1..], id)
  }

  /** The first timer not expired at `now`, if any. */
  function FirstLive(r: Rtc, queue: seq<Id>, now: int): Option<Id> {
    if queue == [] then None
    else if Expires(r, queue[0]) >= now then Some(queue[0])
    else FirstLive(r, queue[1..], now)
  }

  function Enabled(r: Rtc, id: Id, on: bool): Rtc
    requires id in r.timers
  {
    r.(timers := r.timers[id := r.timers[id].(enabled := on)])
  }

  function Dequeue(r: Rtc, id: Id): Rtc
    requires id in r.timers
  {
    Enabled(r, id, false).(queue := Delete(r.queue, id))
  }

  function Add(r: Rtc, id: Id): Rtc
    requires id in r.timers
  {
    Enabled(r, id, true).(queue := Insert(Enabled(r, id, true).timers, r.queue, id))
  }

  // ---------------------------------------------------------------------------------------------
  // Operations
  // ---------------------------------------------------------------------------------------------

  /** Programs the alarm for a timer just added, or takes the timer off again. */
  function Arm(r: Rtc, id: Id): (Rtc, bool)
    requires id in r.timers
  {
    var (r1, res) := SetAlarm(r, Expires(r, id));
    match res
    case Armed => (r1, true)
    case InPast => (r1.(pending := true), true)
    case Failed => (Dequeue(r1, id), false)
  }

  /** `rtc_timer_enqueue`; the flag is success. */
  function Enqueue(r: Rtc, id: Id): (s: (Rtc, bool))
    requires id in r.timers
    ensures s.0.range == r.range
  {
    var (r1, ok, now) := ReadTime(r);
    if !ok then (r1, false)
    else
      var next := FirstLive(r1, r1.queue, now);
      var r2 := Add(r1, id);
      if next.None? || Expires(r2, id) < Expires(r2, next.value) then Arm(r2, id) else (r2, true)
  }

  /** `rtc_timer_remove`. */
  function Remove(r: Rtc, id: Id): (s: Rtc)
    requires id in r.timers && r.queue != []
    ensures s.range == r.range
  {
    var r1 := Dequeue(r, id);
    if r.queue[0] != id then r1
    else if r1.queue == [] then r1.(alarm := None)
    else
      var (r2, res) := SetAlarm(r1, Expires(r1, r1.queue[0]));
      if res == InPast then r2.(pending := true) else r2
  }

  function RemoveIfEnabled(r: Rtc, id: Id): Rtc
    requires id in r.timers
  {
    if r.timers[id].enabled && r.queue != [] then Remove(r, id) else r
  }

  function Configure(r: Rtc, id: Id, expires: int, period: nat): Rtc
    requires id in r.timers
  {
    r.(timers := r.timers[id := r.timers[id].(expires := expires, period := period)])
  }

  /** `rtc_timer_start`. */
  function Start(r: Rtc, id: Id, expires: int, period: nat): (Rtc, bool)
    requires id in r.timers
  {
    Enqueue(Configure(RemoveIfEnabled(r, id), id, expires, period), id)
  }

  /** `rtc_set_alarm` past its argument checks. */
  function SetUserAlarm(r: Rtc, expires: int, on: bool): (Rtc, bool)
    requires AIE in r.timers
  {
    var r1 := Configure(RemoveIfEnabled(r, AIE), AIE, expires, 0);
    if on then Enqueue(r1, AIE) else (r1, true)
  }

  /** `rtc_update_irq_enable`; the first reading of the time is used even if it failed. */
  function UpdateIrq(r: Rtc, on: bool, unsupported: bool): (s: (Rtc, bool))
    requires UIE in r.timers
    ensures s.0.range == r.range
  {
    if r.timers[UIE].enabled == on then (r, true)
    else if unsupported then (r, false)
    else if on then
      var (r1, _, now) := ReadTime(r);
      Enqueue(Configure(r1, UIE, now + 1, 1), UIE)
    else (RemoveIfEnabled(r, UIE), true)
  }

  /** The part of `rtc_set_time` under the lock. */
  function WriteClock(r: Rtc, time: int): (s: Rtc)
    ensures s.range == r.range
  {
    var r1 := Consume(r);
    (if NextCall(r).write == Done then r1.(now := time) else r1).(owed := r1.owed + 1)
  }

  /** What follows once the lock is given up. */
  function Schedule(r: Rtc): Rtc
    requires r.owed > 0
  {
    r.(pending := true, owed := r.owed - 1)
  }

  /** `rtc_set_time` when nobody gets in between; `interrupted` is a lock wait broken off by a signal. */
  function SetTime(r: Rtc, time: int, unsupported: bool, interrupted: bool): (s: Rtc)
    requires UIE in r.timers
    ensures s.range == r.range
  {
    var uie := r.timers[UIE].enabled;
    var (r1, ok) := if uie then UpdateIrq(r, false, unsupported) else (r, true);
    if !ok || interrupted then r1
    else
      var r2 := Schedule(WriteClock(r1, time));
      if uie && UIE in r2.timers then UpdateIrq(r2, true, unsupported).0 else r2
  }

  // ---------------------------------------------------------------------------------------------
  // The queue is sorted and holds exactly the enabled timers
  // ---------------------------------------------------------------------------------------------

  ghost predicate Known(timers: map<Id, Timer>, queue: seq<Id>) {
    forall id <- queue :: id in timers
  }

  ghost predicate Distinct(queue: seq<Id>) {
    forall i, j :: 0 <= i < j < |queue| ==> queue[i] != queue[j]
  }

  ghost predicate Sorted(timers: map<Id, Timer>, queue: seq<Id>)
    requires Known(timers, queue)
  {
    forall i, j :: 0 <= i < j < |queue| ==> timers[queue[i]].expires <= timers[queue[j]].expires
  }

  ghost predicate Queued(r: Rtc) {
    && Known(r.timers, r.queue) && Distinct(r.queue) && Sorted(r.timers, r.queue)
    && (forall id <- r.timers :: r.timers[id].enabled <==> id in r.queue)
  }

  lemma {:induction false} InsertKeeps(timers: map<Id, Timer>, queue: seq<Id>, id: Id)
    requires Known(timers, queue) && Distinct(queue) && Sorted(timers, queue) && id in timers && id !in queue
    ensures var q := Insert(timers, queue, id);
            && Known(timers, q) && Distinct(q) && Sorted(timers, q)
            && (forall x :: x in q <==> x == id || x in queue)
            && q != []
            && q[0] == if queue == [] || timers[id].expires < timers[queue[0]].expires then id else queue[0]
  {
    if queue != [] {
      var h := queue[0];
      assert h in queue;
      TailKeeps(timers, queue);
      if timers[id].expires < timers[h].expires {
        PrependKeeps(timers, id, queue);
      } else {
        InsertKeeps(timers, queue[1..], id);
        var rest := Insert(timers, queue[1..], id);
        forall x | x in rest ensures x != h && timers[h].expires <= timers[x].expires {
          if x != id {
            BehindHead(timers, queue, x);
          }
        }
        PrependKeeps(timers, h, rest);
      }
    }
  }

  /** In a sorted queue without repeats, later timers differ from the head and do not expire before it. */
  lemma BehindHead(timers: map<Id, Timer>, queue: seq<Id>, x: Id)
    requires Known(timers, queue) && Distinct(queue) && Sorted(timers, queue) && queue != [] && x in queue[1..]
    ensures x in queue && x != queue[0] && timers[queue[0]].expires <= timers[x].expires
  {
    var k :| 0 <= k < |queue[1..]| && queue[1..][k] == x;
    assert queue[k + 1] == x;
  }

  lemma TailKeeps(timers: map<Id, Timer>, queue: seq<Id>)
    requires Known(timers, queue) && Distinct(queue) && Sorted(timers, queue) && queue != []
    ensures Known(timers, queue[1..]) && Distinct(queue[1..]) && Sorted(timers, queue[1..])
    ensures forall x :: x in queue <==> x == queue[0] || x in queue[1..]
    ensures queue[0] !in queue[1..]
  {
  }

  lemma PrependKeeps(timers: map<Id, Timer>, h: Id, rest: seq<Id>)
    requires Known(timers, rest) && Distinct(rest) && Sorted(timers, rest) && h in timers
    requires forall x :: x in rest ==> x != h && timers[h].expires <= timers[x].expires
    ensures Known(timers, [h] + rest) && Distinct([h] + rest) && Sorted(timers, [h] + rest)
    ensures forall x :: x in [h] + rest <==> x == h || x in rest
  {
  }

  lemma {:induction false} DeleteKeeps(timers: map<Id, Timer>, queue: seq<Id>, id: Id)
    requires Known(timers, queue) && Distinct(queue) && Sorted(timers, queue)
    ensures var q := Delete(queue, id);
            && Known(timers, q) && Distinct(q) && Sorted(timers, q)
            && (forall x :: x in q <==> x != id && x in queue)
            && (queue != [] && queue[0] == id ==> q == queue[1..])
            && (queue != [] && queue[0] != id ==> q != [] && q[0] == queue[0])
  {
    if queue != [] {
      var h := queue[0];
      TailKeeps(timers, queue);
      if h != id {
        DeleteKeeps(timers, queue[1..], id);
        var rest := Delete(queue[1..], id);
        forall x | x in rest ensures x != h && timers[h].expires <= timers[x].expires {
          BehindHead(timers, queue, x);
        }
        PrependKeeps(timers, h, rest);
      }
    }
  }

  /** Only the timers on the queue matter for its order. */
  lemma SortedFrame(timers: map<Id, Timer>, timers': map<Id, Timer>, queue: seq<Id>)
    requires Known(timers, queue) && Sorted(timers, queue)
    requires forall id <- queue :: id in timers' && timers'[id].expires == timers[id].expires
    ensures Known(timers', queue) && Sorted(timers', queue)
  {
  }

  lemma DequeueKeeps(r: Rtc, id: Id)
    requires Queued(r) && id in r.timers
    ensures Queued(Dequeue(r, id))
    ensures forall x :: x in Dequeue(r, id).queue <==> x != id && x in r.queue
    ensures r.queue != [] && r.queue[0] == id ==> Dequeue(r, id).queue == r.queue[1..]
    ensures r.queue != [] && r.queue[0] != id ==> Dequeue(r, id).queue != [] && Dequeue(r, id).queue[0] == r.queue[0]
  {
    DeleteKeeps(r.timers, r.queue, id);
    SortedFrame(r.timers, Dequeue(r, id).timers, Delete(r.queue, id));
  }

  lemma AddKeeps(r: Rtc, id: Id)
    requires Queued(r) && id in r.timers && id !in r.queue
    ensures var r' := Add(r, id);
            && Queued(r') && r'.queue != []
            && (forall x :: x in r'.queue <==> x == id || x in r.queue)
            && r'.queue[0] == (if r.queue == [] || Expires(r, id) < Expires(r, r.queue[0]) then id else r.queue[0])
            && (forall x :: Expires(r', x) == Expires(r, x))
  {
    SortedFrame(r.timers, Enabled(r, id, true).timers, r.queue);
    InsertKeeps(Enabled(r, id, true).timers, r.queue, id);
  }

  lemma ConfigureKeeps(r: Rtc, id: Id, expires: int, period: nat)
    requires Queued(r) && id in r.timers && id !in r.queue
    ensures Queued(Configure(r, id, expires, period))
  {
    SortedFrame(r.timers, Configure(r, id, expires, period).timers, r.queue);
  }

  /** Deleting what was just added gives the old queue back. */
  lemma {:induction false} DeleteInserted(timers: map<Id, Timer>, queue: seq<Id>, id: Id)
    requires id in timers && id !in queue
    ensures Delete(Insert(timers, queue, id), id) == queue
  {
    if queue != [] {
      if queue[0] in timers && timers[id].expires < timers[queue[0]].expires {
        assert ([id] + queue)[1..] == queue;
      } else {
        DeleteInserted(timers, queue[1..], id);
        var q := [queue[0]] + Insert(timers, queue[1..], id);
        assert q[1..] == Insert(timers, queue[1..], id);
        assert [queue[0]] + queue[1..] == queue;
      }
    }
  }

  // ---------------------------------------------------------------------------------------------
  // No lost wake-up
  // ---------------------------------------------------------------------------------------------

  /** The work is scheduled, or going to be by someone who has set the clock. */
  ghost predicate Roused(r: Rtc) {
    r.pending || r.owed > 0
  }

  /** Someone will look at the queue by the time its head expires. */
  ghost predicate Awake(r: Rtc) {
    r.queue == [] || Roused(r) || (r.alarm.Some? && r.now < r.alarm.value <= Expires(r, r.queue[0]))
  }

  ghost predicate Good(r: Rtc) {
    Queued(r) && Awake(r)
  }

  lemma ConsumeKeeps(r: Rtc)
    requires Good(r)
    ensures Good(Consume(r))
  {
    assert Consume(r).timers == r.timers && Consume(r).queue == r.queue;
  }

  /** What programming the alarm can do. */
  lemma SetAlarmEffect(r: Rtc, at: int)
    ensures var (r1, res) := SetAlarm(r, at);
            && r1 == Consume(r).(alarm := r1.alarm)
            && r1.timers == r.timers && r1.queue == r.queue && (Roused(r) ==> Roused(r1))
            && (res == Armed ==> r1.alarm == Some(at) && r1.now < at)
            && (res != Armed ==> r1 == Consume(r))
  {
  }

  lemma FirstLiveHead(r: Rtc, now: int)
    requires r.queue != [] && Expires(r, r.queue[0]) >= now
    ensures FirstLive(r, r.queue, now) == Some(r.queue[0])
  {
  }

  /** Where a timer lands when there is no earlier live one: at the head, unless the head has expired already. */
  lemma EnqueueAtHead(r: Rtc, id: Id)
    requires Good(r) && !Roused(r) && id in r.timers && id !in r.queue
    ensures var next := FirstLive(r, r.queue, r.now);
            if next.None? || Expires(r, id) < Expires(r, next.value)
            then Add(r, id).queue != [] && Add(r, id).queue[0] == id
            else r.queue != [] && Add(r, id).queue != [] && Add(r, id).queue[0] == r.queue[0]
  {
    AddKeeps(r, id);
    if r.queue != [] {
      FirstLiveHead(r, r.now);
    }
  }

  lemma ConsumeTouches(r: Rtc)
    ensures var c := Consume(r);
            c == r.(now := c.now, pending := c.pending, alarm := c.alarm, script := c.script)
  {
  }

  lemma DequeueAdded(r: Rtc, id: Id)
    requires Queued(r) && id in r.timers && id !in r.queue
    ensures Dequeue(Add(r, id), id) == r
  {
    var a := Add(r, id);
    DeleteInserted(a.timers, r.queue, id);
    assert a.timers[id := a.timers[id].(enabled := false)] == r.timers;
  }

  /** Taking back an addition restores everything, so a failed alarm leaves no trace but the passing of time. */
  lemma UndoAdd(r: Rtc, id: Id)
    requires Queued(r) && id in r.timers && id !in r.queue
    ensures id in Consume(Add(r, id)).timers && Dequeue(Consume(Add(r, id)), id) == Consume(r)
  {
    DequeueAdded(r, id);
    ConsumeTouches(r);
    ConsumeTouches(Add(r, id));
  }

  lemma ArmedIsGood(r: Rtc, id: Id)
    requires Queued(r) && r.queue != [] && (Roused(r) || r.queue[0] == id)
    requires SetAlarm(r, Expires(r, id)).1 == Armed
    ensures Good(SetAlarm(r, Expires(r, id)).0)
  {
    SetAlarmEffect(r, Expires(r, id));
  }

  lemma EnqueueSameTimers(r: Rtc, id: Id)
    requires id in r.timers
    ensures Enqueue(r, id).0.timers.Keys == r.timers.Keys
  {
    ConsumeTouches(r);
    var r2 := Add(Consume(r), id);
    ConsumeTouches(r2);
  }

  lemma EnqueueKeeps(r: Rtc, id: Id)
    requires Good(r) && id in r.timers && id !in r.queue
    ensures Good(Enqueue(r, id).0)
    ensures Enqueue(r, id).1 <==> id in Enqueue(r, id).0.queue
  {
    var (r1, ok, now) := ReadTime(r);
    ConsumeKeeps(r);
    if ok {
      var next := FirstLive(r1, r1.queue, now);
      var r2 := Add(r1, id);
      AddKeeps(r1, id);
      if !Roused(r1) {
        EnqueueAtHead(r1, id);
      }
      if next.None? || Expires(r2, id) < Expires(r2, next.value) {
        SetAlarmEffect(r2, Expires(r2, id));
        var (r3, res) := SetAlarm(r2, Expires(r2, id));
        match res
        case Armed => ArmedIsGood(r2, id);
        case InPast =>
        case Failed => UndoAdd(r1, id); ConsumeKeeps(r1);
      }
    }
  }

  /** The alarm of a removed head is early enough for whoever is next. */
  lemma RemoveHeadKeeps(r: Rtc)
    requires Good(r) && r.queue != []
    ensures Good(Remove(r, r.queue[0]))
  {
    var id := r.queue[0];
    DequeueKeeps(r, id);
    var r1 := Dequeue(r, id);
    if r1.queue != [] {
      assert r1.queue[0] == r.queue[1] && Expires(r1, r1.queue[0]) == Expires(r, r.queue[1]);
      assert Good(r1);
      ConsumeKeeps(r1);
      SetAlarmEffect(r1, Expires(r1, r1.queue[0]));
    }
  }

  lemma RemoveKeeps(r: Rtc, id: Id)
    requires Good(r) && id in r.timers && id in r.queue
    ensures Good(Remove(r, id)) && id !in Remove(r, id).queue && Remove(r, id).timers.Keys == r.timers.Keys
  {
    DequeueKeeps(r, id);
    var r1 := Dequeue(r, id);
    if r.queue[0] == id {
      RemoveHeadKeeps(r);
      if r1.queue != [] {
        SetAlarmEffect(r1, Expires(r1, r1.queue[0]));
      }
    }
  }

  lemma RemoveIfEnabledKeeps(r: Rtc, id: Id)
    requires Good(r) && id in r.timers
    ensures var r' := RemoveIfEnabled(r, id); Good(r') && id !in r'.queue && r'.timers.Keys == r.timers.Keys
  {
    if r.timers[id].enabled {
      RemoveKeeps(r, id);
    }
  }

  /** Still good, with the same timers. */
  ghost predicate Follows(r: Rtc, r': Rtc) {
    Good(r') && r'.timers.Keys == r.timers.Keys
  }

  /** A timer that is off the queue may be set up afresh and enqueued. */
  lemma LaunchKeeps(r: Rtc, id: Id, expires: int, period: nat) returns (c: Rtc, r': Rtc)
    requires Good(r) && id in r.timers && id !in r.queue
    ensures c == Configure(r, id, expires, period) && Follows(r, c)
    ensures r' == Enqueue(c, id).0 && Follows(r, r')
  {
    c := Configure(r, id, expires, period);
    ConfigureKeeps(r, id, expires, period);
    assert Awake(c);
    EnqueueKeeps(c, id);
    EnqueueSameTimers(c, id);
    r' := Enqueue(c, id).0;
  }

  lemma StartKeeps(r: Rtc, id: Id, expires: int, period: nat)
    requires Good(r) && id in r.timers
    ensures Follows(r, Start(r, id, expires, period).0)
  {
    RemoveIfEnabledKeeps(r, id);
    var c, r' := LaunchKeeps(RemoveIfEnabled(r, id), id, expires, period);
  }

  lemma SetUserAlarmKeeps(r: Rtc, expires: int, on: bool)
    requires Good(r) && AIE in r.timers
    ensures Follows(r, SetUserAlarm(r, expires, on).0)
  {
    RemoveIfEnabledKeeps(r, AIE);
    var c, r' := LaunchKeeps(RemoveIfEnabled(r, AIE), AIE, expires, 0);
  }

  lemma SwitchOnKeeps(r: Rtc)
    requires Good(r) && UIE in r.timers && !r.timers[UIE].enabled
    ensures Follows(r, UpdateIrq(r, true, false).0)
  {
    ConsumeKeeps(r);
    ConsumeTouches(r);
    var (r1, _, now) := ReadTime(r);
    var c, r' := LaunchKeeps(r1, UIE, now + 1, 1);
    assert UpdateIrq(r, true, false).0 == r';
  }

  lemma UpdateIrqKeeps(r: Rtc, on: bool, unsupported: bool)
    requires Good(r) && UIE in r.timers
    ensures Follows(r, UpdateIrq(r, on, unsupported).0)
  {
    if r.timers[UIE].enabled != on && !unsupported {
      if on {
        SwitchOnKeeps(r);
      } else {
        RemoveIfEnabledKeeps(r, UIE);
      }
    }
  }

  lemma WriteClockKeeps(r: Rtc, time: int)
    requires Good(r)
    ensures Good(WriteClock(r, time)) && WriteClock(r, time).timers == r.timers
  {
    ConsumeTouches(r);
  }

  lemma ScheduleKeeps(r: Rtc)
    requires Good(r) && r.owed > 0
    ensures Good(Schedule(r)) && Schedule(r).timers == r.timers
  {
  }

  lemma SetTimeKeeps(r: Rtc, time: int, unsupported: bool, interrupted: bool)
    requires Good(r) && UIE in r.timers
    ensures Follows(r, SetTime(r, time, unsupported, interrupted))
  {
    var uie := r.timers[UIE].enabled;
    if uie {
      UpdateIrqKeeps(r, false, unsupported);
    }
    var (r1, ok) := if uie then UpdateIrq(r, false, unsupported) else (r, true);
    if ok && !interrupted {
      WriteClockKeeps(r1, time);
      ScheduleKeeps(WriteClock(r1, time));
      if uie {
        UpdateIrqKeeps(Schedule(WriteClock(r1, time)), true, unsupported);
      }
    }
  }

  // ---------------------------------------------------------------------------------------------
  // What each operation leaves of the timers
  // ---------------------------------------------------------------------------------------------

  /** Timer `id` is `t` now; every other timer, and what has fired, is as it was. */
  ghost predicate Only(r: Rtc, r': Rtc, id: Id, t: Timer) {
    r'.timers == r.timers[id := t] && r'.fired == r.fired
  }

  lemma SetAlarmTouches(r: Rtc, at: int)
    ensures SetAlarm(r, at).0.timers == r.timers && SetAlarm(r, at).0.fired == r.fired
  {
    ConsumeTouches(r);
  }

  /** `rtc_timer_cancel`: the timer is off, and keeps its time and period. */
  lemma CancelEffect(r: Rtc, id: Id)
    requires Queued(r) && id in r.timers
    ensures Only(r, RemoveIfEnabled(r, id), id, Timer(r.timers[id].expires, r.timers[id].period, false))
  {
    if r.timers[id].enabled {
      var r1 := Dequeue(r, id);
      if r1.queue != [] {
        SetAlarmTouches(r1, Expires(r1, r1.queue[0]));
      }
    } else {
      assert r.timers[id := r.timers[id]] == r.timers;
    }
  }

  lemma EnqueueEffect(r: Rtc, id: Id)
    requires Queued(r) && id in r.timers && id !in r.queue
    ensures Only(r, Enqueue(r, id).0, id, Timer(r.timers[id].expires, r.timers[id].period, Enqueue(r, id).1))
  {
    ConsumeTouches(r);
    var r1 := Consume(r);
    var r2 := Add(r1, id);
    SetAlarmTouches(r2, Expires(r2, id));
    if !ReadTime(r).1 {
      assert r.timers[id := r.timers[id]] == r.timers;
    }
  }

  lemma ConfigureThenEnqueue(r: Rtc, id: Id, expires: int, period: nat)
    requires Queued(r) && id in r.timers && id !in r.queue
    ensures var e := Enqueue(Configure(r, id, expires, period), id);
            Only(r, e.0, id, Timer(expires, period, e.1))
  {
    var c := Configure(r, id, expires, period);
    ConfigureKeeps(r, id, expires, period);
    EnqueueEffect(c, id);
  }

  /** `rtc_timer_start`: time and period are the ones given, and the timer is on if and only if the call succeeds. */
  lemma StartEffect(r: Rtc, id: Id, expires: int, period: nat)
    requires Good(r) && id in r.timers
    ensures var (r', ok) := Start(r, id, expires, period);
            Only(r, r', id, Timer(expires, period, ok))
  {
    CancelEffect(r, id);
    RemoveIfEnabledKeeps(r, id);
    ConfigureThenEnqueue(RemoveIfEnabled(r, id), id, expires, period);
  }

  /** `rtc_set_alarm`: one shot at the time given, on if that was asked for and succeeds. */
  lemma SetUserAlarmEffect(r: Rtc, expires: int, on: bool)
    requires Good(r) && AIE in r.timers
    ensures var (r', ok) := SetUserAlarm(r, expires, on);
            Only(r, r', AIE, Timer(expires, 0, on && ok)) && (!on ==> ok)
  {
    CancelEffect(r, AIE);
    RemoveIfEnabledKeeps(r, AIE);
    ConfigureThenEnqueue(RemoveIfEnabled(r, AIE), AIE, expires, 0);
  }

  /** `rtc_update_irq_enable`: every second, beginning one second after the clock as read; or off. */
  lemma UpdateIrqEffect(r: Rtc, on: bool, unsupported: bool)
    requires Good(r) && UIE in r.timers
    ensures var (r', ok) := UpdateIrq(r, on, unsupported); var was := r.timers[UIE];
            && (was.enabled == on ==> r' == r && ok)
            && (was.enabled != on && unsupported ==> r' == r && !ok)
            && (was.enabled && !on && !unsupported ==> ok && Only(r, r', UIE, Timer(was.expires, was.period, false)))
            && (!was.enabled && on && !unsupported ==>
                  var read := if NextCall(r).read == Done then r.now + NextCall(r).dt else NextCall(r).junk;
                  Only(r, r', UIE, Timer(read + 1, 1, ok)))
  {
    var was := r.timers[UIE];
    if was.enabled && !on {
      CancelEffect(r, UIE);
    } else if !was.enabled && on {
      ConsumeTouches(r);
      var (r1, _, now) := ReadTime(r);
      ConfigureThenEnqueue(r1, UIE, now + 1, 1);
    }
  }

  /** The clock shows the time given if the driver takes it, and runs on otherwise; timers are not touched. */
  lemma WriteClockEffect(r: Rtc, time: int)
    ensures var w := WriteClock(r, time);
            && w.now == (if NextCall(r).write == Done then time else r.now + NextCall(r).dt)
            && w.timers == r.timers && w.queue == r.queue && w.fired == r.fired
  {
  }

  /** With a driver that works at once, update interrupts are switched off and on at the time shown. */
  lemma OffAtOnce(r: Rtc)
    requires Good(r) && UIE in r.timers && r.script == [] && r.timers[UIE].enabled
    ensures var (r', ok) := UpdateIrq(r, false, false);
            && ok && r'.script == [] && Follows(r, r')
            && Only(r, r', UIE, Timer(r.timers[UIE].expires, r.timers[UIE].period, false))
  {
    UpdateIrqEffect(r, false, false);
    UpdateIrqKeeps(r, false, false);
  }

  lemma OnAtOnce(r: Rtc)
    requires Good(r) && UIE in r.timers && r.script == [] && !r.timers[UIE].enabled
    ensures var r' := UpdateIrq(r, true, false).0;
            Only(r, r', UIE, Timer(r.now + 1, 1, true)) && r'.now == r.now && (r.pending ==> r'.pending)
  {
    UpdateIrqEffect(r, true, false);
    StartsAtOnce(Configure(Consume(r), UIE, r.now + 1, 1), UIE);
  }

  lemma StartsAtOnce(r: Rtc, id: Id)
    requires r.script == [] && id in r.timers
    ensures Enqueue(r, id).1 && Enqueue(r, id).0.now == r.now && (r.pending ==> Enqueue(r, id).0.pending)
  {
  }

  /** The clock is written and the work scheduled. */
  lemma WrittenAtOnce(r: Rtc, time: int)
    requires Good(r) && r.script == []
    ensures var s := Schedule(WriteClock(r, time));
            Good(s) && s.script == [] && s.now == time && s.pending && s.timers == r.timers && s.fired == r.fired
  {
    WriteClockKeeps(r, time);
    WriteClockEffect(r, time);
    ScheduleKeeps(WriteClock(r, time));
  }

  /** A whole `rtc_set_time` on a driver that works at once: update interrupts that were on are on again, from then. */
  lemma SetTimeEffect(r: Rtc, time: int)
    requires Good(r) && UIE in r.timers && r.script == []
    ensures var s := SetTime(r, time, false, false);
            && s.now == time && s.pending
            && Only(r, s, UIE, if r.timers[UIE].enabled then Timer(time + 1, 1, true) else r.timers[UIE])
  {
    if r.timers[UIE].enabled {
      var s := OffAndOn(r, time);
    } else {
      WrittenAtOnce(r, time);
      assert r.timers[UIE := r.timers[UIE]] == r.timers;
    }
  }

  lemma OffAndOn(r: Rtc, time: int) returns (s: Rtc)
    requires Good(r) && UIE in r.timers && r.script == [] && r.timers[UIE].enabled
    ensures s == SetTime(r, time, false, false)
    ensures s.now == time && s.pending && Only(r, s, UIE, Timer(time + 1, 1, true))
  {
    OffAtOnce(r);
    var r1 := UpdateIrq(r, false, false).0;
    WrittenAtOnce(r1, time);
    var r2 := Schedule(WriteClock(r1, time));
    OnAtOnce(r2);
    s := UpdateIrq(r2, true, false).0;
    assert s.timers == r.timers[UIE := Timer(time + 1, 1, true)];
  }

  // ---------------------------------------------------------------------------------------------
  // When the alarm is programmed
  // ---------------------------------------------------------------------------------------------

  /** The first live timer of a sorted queue is the earliest of those not expired. */
  lemma {:induction false} FirstLiveIsEarliest(r: Rtc, queue: seq<Id>, now: int)
    requires Known(r.timers, queue) && Distinct(queue) && Sorted(r.timers, queue)
    ensures match FirstLive(r, queue, now)
            case None => forall x <- queue :: Expires(r, x) < now
            case Some(y) => y in queue && Expires(r, y) >= now
                            && forall x <- queue :: Expires(r, x) >= now ==> Expires(r, y) <= Expires(r, x)
  {
    if queue != [] {
      TailKeeps(r.timers, queue);
      if Expires(r, queue[0]) >= now {
        forall x | x in queue[1..] ensures Expires(r, queue[0]) <= Expires(r, x) { BehindHead(r.timers, queue, x); }
      } else {
        FirstLiveIsEarliest(r, queue[1..], now);
      }
    }
  }

  /** A queued timer that is not expired at `now` goes off no later than timer `id`. */
  ghost predicate Preceded(r: Rtc, id: Id, now: int) {
    exists x :: x in r.queue && now <= Expires(r, x) <= Expires(r, id)
  }

  /** Two calls that succeed. */
  predicate Works(c: Call) {
    c.read == Done && c.write == Done
  }

  /**
   Enqueueing programs the alarm if and only if no live timer on the queue goes off earlier or at the same time:
   for the new timer's expiry, or if that has come, the work is scheduled.  Otherwise the alarm is left alone.
   */
  lemma EnqueueArmsIffEarliest(r: Rtc, id: Id)
    requires Queued(r) && id in r.timers && id !in r.queue && NextCall(r).read == Done
    ensures var (r', ok) := Enqueue(r, id);
            var r1 := Consume(r);
            && (Preceded(r1, id, r1.now) ==> ok && r'.alarm == r1.alarm && r'.script == r1.script && r'.pending == r1.pending)
            && (!Preceded(r1, id, r1.now) && Works(NextCall(r1)) ==>
                  ok && if Expires(r, id) > r'.now then r'.alarm == Some(Expires(r, id)) else r'.pending)
  {
    ConsumeTouches(r);
    var r1 := Consume(r);
    FirstLiveIsEarliest(r1, r1.queue, r1.now);
    var next := FirstLive(r1, r1.queue, r1.now);
    AddKeeps(r1, id);
    var r2 := Add(r1, id);
    if next.Some? && Expires(r1, next.value) <= Expires(r1, id) {
      assert Preceded(r1, id, r1.now);
    }
    assert Expires(r2, id) == Expires(r1, id) && (next.Some? ==> Expires(r2, next.value) == Expires(r1, next.value));
    if Works(NextCall(r2)) {
      ArmWorks(r2, id);
    }
  }

  lemma ArmWorks(r: Rtc, id: Id)
    requires id in r.timers && Works(NextCall(r))
    ensures var (r', ok) := Arm(r, id);
            ok && if Expires(r, id) > r'.now then r'.alarm == Some(Expires(r, id)) else r'.pending
  {
  }

  /**
   Removing the timer that is next programs the alarm for the one after it, or turns it off when there is none;
   removing another leaves it alone.
   */
  lemma RemoveRearms(r: Rtc, id: Id)
    requires Queued(r) && id in r.timers && id in r.queue
    ensures var r' := Remove(r, id);
            && (r'.queue == [] ==> r'.alarm == None)
            && (r.queue[0] != id ==> r'.alarm == r.alarm && r'.pending == r.pending && r'.script == r.script && r'.now == r.now)
            && (r.queue[0] == id && r'.queue != [] && Works(NextCall(r)) ==>
                  var at := Expires(r', r'.queue[0]);
                  if at > r'.now then r'.alarm == Some(at) else r'.pending)
  {
    DequeueKeeps(r, id);
    var r1 := Dequeue(r, id);
    if r.queue[0] == id && r1.queue != [] {
      ConsumeTouches(r1);
    }
  }
}
