/** The RTC device as the kernel keeps it; every method does what its namesake in RtcTimers or RtcWork says. */
module RtcDevice {
  import opened Wrappers
  import opened RtcTimers
  import opened RtcRange
  import RtcWork

  lemma {:induction false} InsertAt(timers: map<Id, Timer>, queue: seq<Id>, id: Id, i: nat)
    requires id in timers && i <= |queue|
    requires forall k :: 0 <= k < i ==> !(queue[k] in timers && timers[id].expires < timers[queue[k]].expires)
    requires i < |queue| ==> queue[i] in timers && timers[id].expires < timers[queue[i]].expires
    ensures Insert(timers, queue, id) == queue[..i] + [id] + queue[i..]
  {
    if i > 0 {
      InsertAt(timers, queue[1..], id, i - 1);
      assert queue[1..][..i - 1] == queue[1..i] && queue[1..][i - 1..] == queue[i..];
      assert [queue[0]] + queue[1..i] == queue[..i];
    } else if queue != [] {
      assert queue[..0] + [id] + queue[0..] == [id] + queue;
    }
  }

  lemma {:induction false} DeleteAbsent(queue: seq<Id>, id: Id)
    requires id !in queue
    ensures Delete(queue, id) == queue
  {
    if queue != [] {
      DeleteAbsent(queue[1..], id);
      assert [queue[0]] + queue[1..] == queue;
    }
  }

  lemma {:induction false} DeleteAt(queue: seq<Id>, id: Id, i: nat)
    requires i < |queue| && id !in queue[..i] && queue[i] == id
    ensures Delete(queue, id) == queue[..i] + queue[i + 1..]
    decreases i
  {
    if i > 0 {
      var tail := queue[1..];
      assert queue[0] in queue[..i];
      assert tail[..i - 1] == queue[1..i] && tail[i..] == queue[i + 1..];
      assert forall x :: x in queue[1..i] ==> x in queue[..i];
      DeleteAt(tail, id, i - 1);
      assert [queue[0]] + queue[1..i] == queue[..i];
      assert [queue[0]] + (queue[1..i] + queue[i + 1..]) == queue[..i] + queue[i + 1..];
    }
  }

  class Device {
    var timers: map<Id, Timer>
    var queue: seq<Id>
    var alarm: Option<int>
    var pending: bool
    var now: int
    var script: seq<Call>
    var fired: seq<Firing>
    const range: Window
    ghost var owed: nat

    ghost function View(): Rtc
      reads this
    {
      Rtc(timers, queue, alarm, pending, now, script, fired, range, owed)
    }

    constructor (known: set<Id>, now: int, range: Window)
      ensures View() == Rtc(map id | id in known + {AIE, UIE} :: Timer(0, 0, false), [], None, false, now, [], [], range, 0)
      ensures RtcWork.Device(View())
    {
      timers := map id | id in known + {AIE, UIE} :: Timer(0, 0, false);
      queue, alarm, pending, script, fired := [], None, false, [], [];
      this.now, this.range, owed := now, range, 0;
      new;
      assert AIE in timers && UIE in timers;
      RtcWork.FreshDevice(View());
    }

    /** What happens to clock and alarm before a driver call. */
    method DriverCall() returns (c: Call)
      modifies this
      ensures c == NextCall(old(View())) && View() == Consume(old(View()))
    {
      c := Call(0, Done, Done, 0);
      if script != [] {
        c, script := script[0], script[1..];
      }
      var was := now;
      now := now + c.dt;
      if alarm.Some? && was < alarm.value <= now {
        pending, alarm := true, None;
      }
    }

    method ReadClock() returns (ok: bool, time: int)
      modifies this
      ensures (View(), ok, time) == ReadTime(old(View()))
    {
      var c := DriverCall();
      ok, time := c.read == Done, if c.read == Done then now else c.junk;
    }

    /** `__rtc_set_alarm`; `left` is what it leaves in the caller's `alarm->time`. */
    method AttemptAlarm(time: int, at: int) returns (res: AlarmResult, left: int)
      modifies this
      ensures (View(), res, left) == Attempt(old(View()), time, at)
    {
      left := time;
      var c := DriverCall();
      if c.read == Broken {
        return Failed, left;
      }
      if c.read == Late || left <= now {
        return InPast, left;
      }
      left := ToHardware(range, left);
      if c.write != Done {
        return (if c.write == Late then InPast else Failed), left;
      }
      alarm := Some(at);
      res := Armed;
    }

    method ProgramAlarm(at: int) returns (res: AlarmResult)
      modifies this
      ensures (View(), res) == SetAlarm(old(View()), at)
    {
      var left;
      res, left := AttemptAlarm(at, at);
    }

    method QueueAdd(id: Id)
      requires id in timers
      modifies this`queue
      ensures queue == Insert(timers, old(queue), id)
    {
      var i := 0;
      while i < |queue| && !(queue[i] in timers && timers[id].expires < timers[queue[i]].expires)
        invariant i <= |queue|
        invariant forall k :: 0 <= k < i ==> !(queue[k] in timers && timers[id].expires < timers[queue[k]].expires)
      {
        i := i + 1;
      }
      InsertAt(timers, queue, id, i);
      queue := queue[..i] + [id] + queue[i..];
    }

    method QueueDel(id: Id)
      modifies this`queue
      ensures queue == Delete(old(queue), id)
    {
      var i := 0;
      while i < |queue| && queue[i] != id
        invariant i <= |queue| && id !in queue[..i]
      {
        i := i + 1;
      }
      if i == |queue| {
        assert queue[..i] == queue;
        DeleteAbsent(queue, id);
      } else {
        DeleteAt(queue, id, i);
        queue := queue[..i] + queue[i + 1..];
      }
    }

    method TakeOff(id: Id)
      requires id in timers
      modifies this
      ensures View() == Dequeue(old(View()), id)
    {
      QueueDel(id);
      timers := timers[id := timers[id].(enabled := false)];
    }

    method PutOn(id: Id)
      requires id in timers
      modifies this
      ensures View() == Add(old(View()), id)
    {
      timers := timers[id := timers[id].(enabled := true)];
      QueueAdd(id);
    }

    /** Skips over expired timers. */
    method FindLive(time: int) returns (next: Option<Id>)
      ensures next == FirstLive(View(), queue, time)
    {
      var i := 0;
      while i < |queue|
        invariant i <= |queue|
        invariant FirstLive(View(), queue[i..], time) == FirstLive(View(), queue, time)
      {
        var e := if queue[i] in timers then timers[queue[i]].expires else 0;
        assert e == Expires(View(), queue[i]);
        if e >= time {
          return Some(queue[i]);
        }
        i := i + 1;
      }
      return None;
    }

    method ArmTimer(id: Id) returns (ok: bool)
      requires id in timers
      modifies this
      ensures (View(), ok) == Arm(old(View()), id)
    {
      var res := ProgramAlarm(timers[id].expires);
      if res == InPast {
        pending := true;
      } else if res == Failed {
        TakeOff(id);
        return false;
      }
      return true;
    }

    method TimerEnqueue(id: Id) returns (ok: bool)
      requires id in timers
      modifies this
      ensures (View(), ok) == Enqueue(old(View()), id)
    {
      var good, time := ReadClock();
      if !good {
        return false;
      }
      var next := FindLive(time);
      PutOn(id);
      var e := timers[id].expires;
      if next.None? || e < (if next.value in timers then timers[next.value].expires else 0) {
        ok := ArmTimer(id);
      } else {
        ok := true;
      }
    }

    method TimerRemove(id: Id)
      requires id in timers && queue != []
      modifies this
      ensures View() == Remove(old(View()), id)
    {
      var first := queue[0];
      TakeOff(id);
      if first == id {
        if queue == [] {
          alarm := None;
          return;
        }
        var res := ProgramAlarm(if queue[0] in timers then timers[queue[0]].expires else 0);
        if res == InPast {
          pending := true;
        }
      }
    }

    /** `rtc_timer_cancel`. */
    method TimerCancel(id: Id)
      requires id in timers && Queued(View())
      modifies this
      ensures View() == RemoveIfEnabled(old(View()), id)
    {
      if timers[id].enabled {
        assert id in queue;
        TimerRemove(id);
      }
    }

    method TimerStart(id: Id, expires: int, period: nat) returns (ok: bool)
      requires id in timers && Queued(View())
      modifies this
      ensures (View(), ok) == Start(old(View()), id, expires, period)
    {
      TimerCancel(id);
      timers := timers[id := timers[id].(expires := expires, period := period)];
      ok := TimerEnqueue(id);
    }

    method SetAlarmTime(expires: int, on: bool) returns (ok: bool)
      requires AIE in timers && Queued(View())
      modifies this
      ensures (View(), ok) == SetUserAlarm(old(View()), expires, on)
    {
      TimerCancel(AIE);
      timers := timers[AIE := timers[AIE].(expires := expires, period := 0)];
      ok := true;
      if on {
        ok := TimerEnqueue(AIE);
      }
    }

    method UpdateIrqEnable(on: bool, unsupported: bool) returns (ok: bool)
      requires UIE in timers && Queued(View())
      modifies this
      ensures (View(), ok) == UpdateIrq(old(View()), on, unsupported)
    {
      if timers[UIE].enabled == on {
        return true;
      }
      if unsupported {
        return false;
      }
      if on {
        var _, time := ReadClock();
        timers := timers[UIE := timers[UIE].(expires := time + 1, period := 1)];
        ok := TimerEnqueue(UIE);
      } else {
        TimerCancel(UIE);
        ok := true;
      }
    }

    /** The section under the lock. */
    method WriteClockTime(time: int)
      modifies this
      ensures View() == WriteClock(old(View()), time)
    {
      var c := DriverCall();
      if c.write == Done {
        now := time;
      }
      owed := owed + 1;
    }

    /** `rtc_set_time`. */
    method SetClockTime(time: int, unsupported: bool, interrupted: bool)
      requires UIE in timers && Good(View())
      modifies this
      ensures View() == SetTime(old(View()), time, unsupported, interrupted)
    {
      var uie := timers[UIE].enabled;
      if uie {
        UpdateIrqKeeps(View(), false, unsupported);
        var ok := UpdateIrqEnable(false, unsupported);
        if !ok {
          return;
        }
      }
      if interrupted {
        return;
      }
      WriteClockKeeps(View(), time);
      WriteClockTime(time);
      pending, owed := true, owed - 1;
      if uie {
        var _ := UpdateIrqEnable(true, unsupported);
      }
    }

    /** Expires the head of the queue. */
    method FireHead()
      requires Queued(View()) && queue != []
      modifies this
      ensures View() == RtcWork.Fire(old(View()))
    {
      var id := queue[0];
      var t := timers[id];
      TakeOff(id);
      fired := fired + [Firing(id, t.expires)];
      if t.period != 0 {
        timers := timers[id := timers[id].(expires := t.expires + t.period, period := t.period)];
        PutOn(id);
      }
    }

    method SweepQueue(time: int)
      requires Queued(View())
      modifies this
      ensures View() == RtcWork.Sweep(old(View()), time)
    {
      while queue != [] && timers[queue[0]].expires <= time
        invariant Queued(View()) && RtcWork.Sweep(View(), time) == RtcWork.Sweep(old(View()), time)
        decreases RtcWork.DueIn(timers, queue, time)
      {
        RtcWork.FireKeeps(View());
        RtcWork.FireUsesOne(View(), time);
        FireHead();
      }
    }

    /** Up to three retries after the first failure, each on the alarm as the one before left it. */
    method ProgramWithRetries(at: int) returns (res: AlarmResult)
      modifies this
      ensures (View(), res) == RtcWork.Program(old(View()), at, at, 3)
    {
      var retry, time := 3, at;
      res, time := AttemptAlarm(time, at);
      while res == Failed && retry > 0
        invariant retry >= 0
        invariant RtcWork.Program(old(View()), at, at, 3) ==
          if res == Failed && retry > 0 then RtcWork.Program(View(), time, at, retry - 1) else (View(), res)
      {
        retry := retry - 1;
        res, time := AttemptAlarm(time, at);
      }
    }

    /** `rtc_timer_do_work`. */
    method TimerWork()
      requires Queued(View())
      modifies this
      ensures View() == RtcWork.DoWork(old(View()))
    {
      pending := false;
      while true
        invariant Queued(View()) && RtcWork.Work(View()) == RtcWork.DoWork(old(View()))
        decreases |script|
      {
        ghost var from := View();
        ConsumeTouches(from);
        var _, time := ReadClock();
        assert Queued(View());
        SweepQueue(time);
        assert View() == RtcWork.AfterSweep(from);
        if queue == [] {
          alarm := None;
          return;
        }
        var id := queue[0];
        ghost var swept := View();
        var res := ProgramWithRetries(timers[id].expires);
        assert (View(), res) == RtcWork.Reprogram(swept);
        if res == Armed {
          return;
        }
        if res == Failed {
          DequeueKeeps(View(), id);
          TakeOff(id);
        }
      }
    }
  }
}
