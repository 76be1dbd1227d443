/**
 Cooling-device statistics: a transition table kept flat, a time total per state and a count of transitions,
 with the conservation laws that tie them together since set-up or the last reset.
 */
module CoolingStats {

  // ---------------------------------------------------------------------------------------------
  // Sums over the flat table
  // ---------------------------------------------------------------------------------------------

  function Sum(s: seq<int>): int {
    if s == [] then 0 else Sum(s[..|s| - 1]) + s[|s| - 1]
  }

  /** Position of the transition from `i` to `j`. */
  function Flat(n: nat, i: nat, j: nat): nat {
    i * n + j
  }

  lemma FlatInTable(n: nat, i: nat, j: nat)
    requires i < n && j < n
    ensures Flat(n, i, j) < n * n
  {
    assert (i + 1) * n <= n * n;
    assert (i + 1) * n == i * n + n;
  }

  lemma FlatInjective(n: nat, i: nat, j: nat, i': nat, j': nat)
    requires j < n && j' < n && Flat(n, i, j) == Flat(n, i', j')
    ensures i == i' && j == j'
  {
    var d: int, w: int := i - i', n;
    assert d * w == j' - j;
    assert d >= 1 ==> d * w >= w;
    assert d <= -1 ==> d * w <= -w;
  }

  /** Departures from `x`: the first `j` entries of its row. */
  function Row(t: seq<int>, n: nat, x: nat, j: nat): int
    requires |t| == n * n && x < n && j <= n
  {
    if j == 0 then 0
    else
      FlatInTable(n, x, j - 1);
      Row(t, n, x, j - 1) + t[Flat(n, x, j - 1)]
  }

  /** Arrivals at `x`: the first `i` entries of its column. */
  function Column(t: seq<int>, n: nat, x: nat, i: nat): int
    requires |t| == n * n && x < n && i <= n
  {
    if i == 0 then 0
    else
      FlatInTable(n, i - 1, x);
      Column(t, n, x, i - 1) + t[Flat(n, i - 1, x)]
  }

  lemma {:induction false} SumBump(s: seq<int>, k: nat, d: int)
    requires k < |s|
    ensures Sum(s[k := s[k] + d]) == Sum(s) + d
  {
    var s' := s[k := s[k] + d];
    if k == |s| - 1 {
      assert s'[..|s| - 1] == s[..|s| - 1];
    } else {
      SumBump(s[..|s| - 1], k, d);
      assert s'[..|s| - 1] == s[..|s| - 1][k := s[k] + d];
    }
  }

  lemma {:induction false} SumZero(s: seq<int>)
    requires forall i :: 0 <= i < |s| ==> s[i] == 0
    ensures Sum(s) == 0
  {
    if s != [] {
      SumZero(s[..|s| - 1]);
    }
  }

  lemma {:induction false} RowBump(t: seq<int>, n: nat, from: nat, to: nat, x: nat, j: nat)
    requires |t| == n * n && from < n && to < n && x < n && j <= n
    ensures Flat(n, from, to) < |t|
    ensures Row(t[Flat(n, from, to) := t[Flat(n, from, to)] + 1], n, x, j)
            == Row(t, n, x, j) + if x == from && to < j then 1 else 0
    decreases j
  {
    FlatInTable(n, from, to);
    if j > 0 {
      RowBump(t, n, from, to, x, j - 1);
      FlatInTable(n, x, j - 1);
      if Flat(n, x, j - 1) == Flat(n, from, to) {
        FlatInjective(n, x, j - 1, from, to);
      }
    }
  }

  lemma {:induction false} ColumnBump(t: seq<int>, n: nat, from: nat, to: nat, x: nat, i: nat)
    requires |t| == n * n && from < n && to < n && x < n && i <= n
    ensures Flat(n, from, to) < |t|
    ensures Column(t[Flat(n, from, to) := t[Flat(n, from, to)] + 1], n, x, i)
            == Column(t, n, x, i) + if x == to && from < i then 1 else 0
    decreases i
  {
    FlatInTable(n, from, to);
    if i > 0 {
      ColumnBump(t, n, from, to, x, i - 1);
      FlatInTable(n, i - 1, x);
      if Flat(n, i - 1, x) == Flat(n, from, to) {
        FlatInjective(n, i - 1, x, from, to);
      }
    }
  }

  lemma {:induction false} EmptyTable(t: seq<int>, n: nat, x: nat, j: nat)
    requires |t| == n * n && x < n && j <= n && forall k :: 0 <= k < |t| ==> t[k] == 0
    ensures Row(t, n, x, j) == 0 && Column(t, n, x, j) == 0
    decreases j
  {
    if j > 0 {
      FlatInTable(n, x, j - 1);
      FlatInTable(n, j - 1, x);
      EmptyTable(t, n, x, j - 1);
    }
  }

  // ---------------------------------------------------------------------------------------------
  // The statistics
  // ---------------------------------------------------------------------------------------------

  datatype Stats = Stats(
    maxStates: nat, state: nat, totalTrans: nat, lastTime: int, timeInState: seq<int>, transTable: seq<int>)

  ghost predicate Shaped(s: Stats) {
    s.state < s.maxStates && |s.timeInState| == s.maxStates && |s.transTable| == s.maxStates * s.maxStates
  }

  /** `update_time_in_state`. */
  function Account(s: Stats, now: int): (r: Stats)
    requires s.state < |s.timeInState|
    ensures Shaped(s) ==> Shaped(r) && r.maxStates == s.maxStates
  {
    s.(timeInState := s.timeInState[s.state := s.timeInState[s.state] + (now - s.lastTime)], lastTime := now)
  }

  /** `thermal_cooling_device_stats_update`. */
  function Update(s: Stats, to: nat, now: int): (r: Stats)
    requires Shaped(s) && to < s.maxStates
    ensures Shaped(r) && r.maxStates == s.maxStates
  {
    if s.state == to then s
    else
      FlatInTable(s.maxStates, s.state, to);
      var k := Flat(s.maxStates, s.state, to);
      Account(s, now).(transTable := s.transTable[k := s.transTable[k] + 1], state := to, totalTrans := s.totalTrans + 1)
  }

  /** `reset_store`; the current state is kept. */
  function Reset(s: Stats, now: int): (r: Stats)
    ensures s.state < s.maxStates ==> Shaped(r) && r.maxStates == s.maxStates
  {
    s.(totalTrans := 0, lastTime := now,
       transTable := seq(s.maxStates * s.maxStates, _ => 0), timeInState := seq(s.maxStates, _ => 0))
  }

  datatype Op = ChangeTo(to: nat, now: int) | Show(now: int) | Clear(now: int)

  ghost predicate Legal(s: Stats, op: Op) {
    op.now >= s.lastTime && (op.ChangeTo? ==> op.to < s.maxStates)
  }

  function Apply(s: Stats, op: Op): (r: Stats)
    requires Shaped(s) && (op.ChangeTo? ==> op.to < s.maxStates)
    ensures Shaped(r) && r.maxStates == s.maxStates
  {
    match op
    case ChangeTo(to, now) => Update(s, to, now)
    case Show(now) => Account(s, now)
    case Clear(now) => Reset(s, now)
  }

  /** When and in which state counting began. */
  datatype Epoch = Epoch(start: nat, since: int)

  function Restart(s: Stats, e: Epoch, op: Op): Epoch {
    if op.Clear? then Epoch(s.state, op.now) else e
  }

  function At(x: nat, y: nat): int {
    if x == y then 1 else 0
  }

  /** Each state was entered once more than left if it is the current one, and once less if counting began there. */
  ghost predicate Balanced(t: seq<int>, n: nat, cur: nat, start: nat)
    requires |t| == n * n
  {
    forall x: nat :: x < n ==> Column(t, n, x, n) - Row(t, n, x, n) == At(x, cur) - At(x, start)
  }

  /** The times in state add up to the time that has passed. */
  ghost predicate Timed(times: seq<int>, passed: int) {
    Sum(times) == passed && forall i :: 0 <= i < |times| ==> times[i] >= 0
  }

  /** What is conserved: the count is the sum of the table, the table is balanced, the times add up. */
  ghost predicate Conserved(s: Stats, e: Epoch) {
    && Shaped(s)
    && s.totalTrans == Sum(s.transTable)
    && Balanced(s.transTable, s.maxStates, s.state, e.start)
    && Timed(s.timeInState, s.lastTime - e.since)
  }

  lemma ResetConserves(s: Stats, now: int)
    requires s.state < s.maxStates
    ensures Conserved(Reset(s, now), Epoch(s.state, now))
  {
    var r := Reset(s, now);
    SumZero(r.transTable);
    SumZero(r.timeInState);
    forall x: nat | x < r.maxStates
      ensures Column(r.transTable, r.maxStates, x, r.maxStates) == 0 == Row(r.transTable, r.maxStates, x, r.maxStates)
    {
      EmptyTable(r.transTable, r.maxStates, x, r.maxStates);
    }
  }

  lemma TimePasses(times: seq<int>, i: nat, passed: int, delta: nat)
    requires i < |times| && Timed(times, passed)
    ensures Timed(times[i := times[i] + delta], passed + delta)
  {
    SumBump(times, i, delta);
  }

  /** A transition is one departure and one arrival. */
  lemma TransitionBalances(t: seq<int>, n: nat, from: nat, to: nat, start: nat)
    requires |t| == n * n && from < n && to < n && Balanced(t, n, from, start)
    ensures Flat(n, from, to) < |t| && Balanced(t[Flat(n, from, to) := t[Flat(n, from, to)] + 1], n, to, start)
  {
    FlatInTable(n, from, to);
    var u := t[Flat(n, from, to) := t[Flat(n, from, to)] + 1];
    forall x: nat | x < n ensures Column(u, n, x, n) - Row(u, n, x, n) == At(x, to) - At(x, start) {
      RowBump(t, n, from, to, x, n);
      ColumnBump(t, n, from, to, x, n);
    }
  }

  lemma UpdateConserves(s: Stats, e: Epoch, to: nat, now: int)
    requires Conserved(s, e) && to < s.maxStates && now >= s.lastTime
    ensures Conserved(Update(s, to, now), e)
  {
    if s.state != to {
      TimePasses(s.timeInState, s.state, s.lastTime - e.since, now - s.lastTime);
      TransitionBalances(s.transTable, s.maxStates, s.state, to, e.start);
      SumBump(s.transTable, Flat(s.maxStates, s.state, to), 1);
    }
  }

  lemma StepConserves(s: Stats, e: Epoch, op: Op)
    requires Conserved(s, e) && Legal(s, op)
    ensures Conserved(Apply(s, op), Restart(s, e, op))
  {
    match op
    case ChangeTo(to, now) => UpdateConserves(s, e, to, now);
    case Show(now) => TimePasses(s.timeInState, s.state, s.lastTime - e.since, now - s.lastTime);
    case Clear(now) => ResetConserves(s, now);
  }

  ghost predicate LegalRun(s: Stats, ops: seq<Op>)
    requires Shaped(s)
    decreases |ops|
  {
    ops == [] || (Legal(s, ops[0]) && LegalRun(Apply(s, ops[0]), ops[1..]))
  }

  ghost function Run(s: Stats, e: Epoch, ops: seq<Op>): (Stats, Epoch)
    requires Shaped(s) && LegalRun(s, ops)
    decreases |ops|
  {
    if ops == [] then (s, e) else Run(Apply(s, ops[0]), Restart(s, e, ops[0]), ops[1..])
  }

  /** Over every run of state changes, readings and resets the books balance. */
  lemma {:induction false} ConservedOverRuns(s: Stats, e: Epoch, ops: seq<Op>)
    requires Conserved(s, e) && LegalRun(s, ops)
    ensures Conserved(Run(s, e, ops).0, Run(s, e, ops).1)
    decreases |ops|
  {
    if ops != [] {
      StepConserves(s, e, ops[0]);
      ConservedOverRuns(Apply(s, ops[0]), Restart(s, e, ops[0]), ops[1..]);
    }
  }

  // ---------------------------------------------------------------------------------------------
  // What every number stands for
  // ---------------------------------------------------------------------------------------------

  /** A stretch of time spent in one state, and a change from one state to another. */
  datatype Stay = Stay(state: nat, from: int, to: int)
  datatype Move = Move(from: nat, to: nat)

  /** What happened since counting began: where the device was when, and how it moved. */
  datatype History = History(state: nat, since: int, until: int, stays: seq<Stay>, moves: seq<Move>)

  /** The history after an operation.  Setting the state that is set already goes unnoticed. */
  function Record(h: History, op: Op): History {
    match op
    case ChangeTo(to, now) =>
      if to == h.state then h
      else h.(state := to, until := now, stays := h.stays + [Stay(h.state, h.until, now)], moves := h.moves + [Move(h.state, to)])
    case Show(now) => h.(until := now, stays := h.stays + [Stay(h.state, h.until, now)])
    case Clear(now) => History(h.state, now, now, [], [])
  }

  function TimeIn(stays: seq<Stay>, x: nat): int {
    if stays == [] then 0
    else
      var last := stays[|stays| - 1];
      TimeIn(stays[..|stays| - 1], x) + if last.state == x then last.to - last.from else 0
  }

  function Changes(moves: seq<Move>, i: nat, j: nat): nat {
    multiset(moves)[Move(i, j)]
  }

  /** Each stay begins where the one before ended, from the start of counting up to the last update. */
  ghost predicate Chained(stays: seq<Stay>, since: int, until: int) {
    if stays == [] then since == until
    else
      var last := stays[|stays| - 1];
      last.from <= last.to == until && Chained(stays[..|stays| - 1], since, last.from)
  }

  ghost predicate CountsMoves(t: seq<int>, n: nat, moves: seq<Move>)
    requires |t| == n * n
  {
    forall i: nat, j: nat :: i < n && j < n ==> Flat(n, i, j) < |t| && t[Flat(n, i, j)] == Changes(moves, i, j)
  }

  /** Every number is what the history says: time spent in each state, changes between each two, changes in all. */
  ghost predicate Recorded(s: Stats, h: History) {
    && Shaped(s) && s.state == h.state && s.lastTime == h.until && Chained(h.stays, h.since, h.until)
    && (forall x: nat :: x < s.maxStates ==> s.timeInState[x] == TimeIn(h.stays, x))
    && CountsMoves(s.transTable, s.maxStates, h.moves)
    && s.totalTrans == |h.moves|
  }

  lemma OneMoreStay(stays: seq<Stay>, last: Stay, since: int)
    ensures forall x: nat :: TimeIn(stays + [last], x) == TimeIn(stays, x) + if last.state == x then last.to - last.from else 0
    ensures last.from <= last.to && Chained(stays, since, last.from) ==> Chained(stays + [last], since, last.to)
  {
    assert (stays + [last])[..|stays|] == stays;
  }

  lemma OneMoreMove(t: seq<int>, n: nat, moves: seq<Move>, from: nat, to: nat)
    requires |t| == n * n && from < n && to < n && CountsMoves(t, n, moves)
    ensures Flat(n, from, to) < |t|
    ensures CountsMoves(t[Flat(n, from, to) := t[Flat(n, from, to)] + 1], n, moves + [Move(from, to)])
  {
    var k := Flat(n, from, to);
    forall i: nat, j: nat | i < n && j < n
      ensures Flat(n, i, j) < |t| && t[k := t[k] + 1][Flat(n, i, j)] == Changes(moves + [Move(from, to)], i, j)
    {
      if Flat(n, i, j) == k {
        FlatInjective(n, i, j, from, to);
      }
    }
  }

  lemma ResetRecorded(s: Stats, now: int)
    requires s.state < s.maxStates
    ensures Recorded(Reset(s, now), History(s.state, now, now, [], []))
  {
    forall i: nat, j: nat | i < s.maxStates && j < s.maxStates ensures Flat(s.maxStates, i, j) < s.maxStates * s.maxStates {
      FlatInTable(s.maxStates, i, j);
    }
  }

  lemma StepRecorded(s: Stats, h: History, op: Op)
    requires Recorded(s, h) && Legal(s, op)
    ensures Recorded(Apply(s, op), Record(h, op))
  {
    OneMoreStay(h.stays, Stay(h.state, h.until, op.now), h.since);
    match op
    case ChangeTo(to, now) =>
      if to != s.state {
        OneMoreMove(s.transTable, s.maxStates, h.moves, s.state, to);
      }
    case Show(now) =>
    case Clear(now) => ResetRecorded(s, now);
  }

  ghost function Recall(h: History, ops: seq<Op>): History
    decreases |ops|
  {
    if ops == [] then h else Recall(Record(h, ops[0]), ops[1..])
  }

  /**
   Over every run: the time of a state is the time spent in it, the table entry of two states is the number of
   changes from one to the other, and the count is the number of changes, all since set-up or the last reset.
   */
  lemma {:induction false} RecordedOverRuns(s: Stats, e: Epoch, h: History, ops: seq<Op>)
    requires Recorded(s, h) && LegalRun(s, ops)
    ensures Recorded(Run(s, e, ops).0, Recall(h, ops))
    decreases |ops|
  {
    if ops != [] {
      StepRecorded(s, h, ops[0]);
      RecordedOverRuns(Apply(s, ops[0]), Restart(s, e, ops[0]), Record(h, ops[0]), ops[1..]);
    }
  }

  // ---------------------------------------------------------------------------------------------
  // The device
  // ---------------------------------------------------------------------------------------------

  class CoolingDevice {
    const maxStates: nat
    const timeInState: array<int>
    const transTable: array<int>
    var state: nat
    var totalTrans: nat
    var lastTime: int

    ghost function View(): Stats
      reads this, timeInState, transTable
    {
      Stats(maxStates, state, totalTrans, lastTime, timeInState[..], transTable[..])
    }

    ghost predicate Valid()
      reads this, timeInState, transTable
    {
      Shaped(View()) && timeInState != transTable
    }

    /** `cooling_device_stats_setup`: one more state than the highest, and everything zero. */
    constructor (highest: nat, now: int)
      ensures Valid() && fresh(timeInState) && fresh(transTable)
      ensures maxStates == highest + 1 && Conserved(View(), Epoch(0, now))
      ensures Recorded(View(), History(0, now, now, [], []))
    {
      var n := highest + 1;
      maxStates := n;
      timeInState := new int[n](_ => 0);
      transTable := new int[n * n](_ => 0);
      state, totalTrans, lastTime := 0, 0, now;
      new;
      ResetConserves(View(), now);
      ResetRecorded(View(), now);
      assert View() == Reset(View(), now);
    }

    method UpdateTime(now: int)
      requires Valid()
      modifies this`lastTime, timeInState
      ensures Valid() && View() == Account(old(View()), now)
    {
      var delta := now - lastTime;
      timeInState[state] := timeInState[state] + delta;
      lastTime := now;
    }

    method ChangeState(to: nat, now: int)
      requires Valid() && to < maxStates
      modifies this, timeInState, transTable
      ensures Valid() && View() == Update(old(View()), to, now)
    {
      if state == to {
        return;
      }
      FlatInTable(maxStates, state, to);
      UpdateTime(now);
      var k := state * maxStates + to;
      transTable[k] := transTable[k] + 1;
      state := to;
      totalTrans := totalTrans + 1;
    }

    method ResetStats(now: int)
      requires Valid()
      modifies this, timeInState, transTable
      ensures Valid() && View() == Reset(old(View()), now)
    {
      totalTrans := 0;
      lastTime := now;
      for i := 0 to transTable.Length
        invariant View() == old(View()).(totalTrans := 0, lastTime := now, transTable := View().transTable)
        invariant forall k :: 0 <= k < i ==> transTable[k] == 0
      {
        transTable[i] := 0;
      }
      for i := 0 to maxStates
        invariant View() == old(View()).(totalTrans := 0, lastTime := now, transTable := View().transTable, timeInState := View().timeInState)
        invariant forall k :: 0 <= k < transTable.Length ==> transTable[k] == 0
        invariant forall k :: 0 <= k < i ==> timeInState[k] == 0
      {
        timeInState[i] := 0;
      }
    }
  }
}
