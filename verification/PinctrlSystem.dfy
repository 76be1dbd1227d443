/**
 All devices that share one pin controller: handles come and go, select states, and GPIOs are
 requested and freed in between.  The theorems here are about every legal run.
 */
module PinctrlSystem {
  import opened Wrappers
  import opened Pinmux
  import opened PinctrlCore

  datatype Handle = Handle(states: seq<State>, cur: Option<nat>)

  /** Handles are keyed by device name, so names are distinct. */
  datatype System = System(c: Controller, handles: map<Name, Handle>)

  datatype Op =
    | Get(name: Name, states: seq<State>)
    | Select(name: Name, next: nat)
    | Put(name: Name)
    | RequestGpio(pin: Pin, gpio: Name)
    | FreeGpio(pin: Pin)

  /** What callers must respect: a free names a GPIO that is held, a selection names a state that exists. */
  ghost predicate Legal(s: System, op: Op) {
    match op
    case Get(n, _) => n !in s.handles
    case Select(n, i) => n in s.handles && i < |s.handles[n].states| && ValidIndex(s.handles[n].states, s.handles[n].cur)
    case Put(n) => n in s.handles && ValidIndex(s.handles[n].states, s.handles[n].cur)
    case RequestGpio(_, _) => true
    case FreeGpio(p) => p in s.c.pins && s.c.pins[p].gpioOwner.Some?
  }

  function Drop(e: Env, c: Controller, h: Handle): Controller {
    if h.cur.Some? && h.cur.value < |h.states| then DisableState(e, c, h.states[h.cur.value], 0) else c
  }

  ghost function Step(e: Env, s: System, op: Op): System
    requires Legal(s, op)
  {
    match op
    case Get(n, states) => s.(handles := s.handles[n := Handle(states, None)])
    case Select(n, i) =>
      var h := s.handles[n];
      var r := SelectState(e, s.c, h.states, n, h.cur, i);
      System(r.c, s.handles[n := h.(cur := r.cur)])
    case Put(n) => System(Drop(e, s.c, s.handles[n]), s.handles - {n})
    case RequestGpio(p, g) => s.(c := PinRequest(e, s.c, p, g, true).c)
    case FreeGpio(p) => s.(c := PinFree(e, s.c, p, true))
  }

  ghost predicate LegalRun(e: Env, s: System, ops: seq<Op>)
    decreases |ops|
  {
    ops == [] || (Legal(s, ops[0]) && LegalRun(e, Step(e, s, ops[0]), ops[1..]))
  }

  ghost function Run(e: Env, s: System, ops: seq<Op>): System
    requires LegalRun(e, s, ops)
    decreases |ops|
  {
    if ops == [] then s else Run(e, Step(e, s, ops[0]), ops[1..])
  }

  /** Every pin unclaimed, no references held, no handles. */
  ghost predicate Initial(s: System) {
    && (forall p <- s.c.pins :: s.c.pins[p] == PinDesc(0, None, None, None))
    && s.c.refs == 0 && s.c.mask == {} && s.handles == map[]
  }

  // ---------------------------------------------------------------------------------------------
  // The ledger
  // ---------------------------------------------------------------------------------------------

  ghost predicate Selected(s: System, n: Name) {
    n in s.handles && s.handles[n].cur.Some? && s.handles[n].cur.value < |s.handles[n].states|
  }

  ghost function Current(s: System, n: Name): State
    requires Selected(s, n)
  {
    s.handles[n].states[s.handles[n].cur.value]
  }

  /**
   The books balance for one pin: it has no owner exactly when its count is 0, and otherwise its count is
   how often it occurs in the owner's currently selected state and its setting is the one naming it there.
   */
  ghost predicate Balanced(s: System, p: Pin)
    requires p in s.c.pins
  {
    var d := s.c.pins[p];
    && WellKept(d)
    && (d.muxOwner.Some? ==>
          && Selected(s, d.muxOwner.value)
          && d.muxUsecount == Occ(Current(s, d.muxOwner.value), p)
          && Carrier(Current(s, d.muxOwner.value), p) >= 0
          && d.muxSetting == Some(Current(s, d.muxOwner.value)[Carrier(Current(s, d.muxOwner.value), p)].id))
  }

  /** Everything a selected state names is owned by the device that selected it. */
  ghost predicate Covered(s: System, n: Name) {
    Selected(s, n) ==>
      && AllApplicable(Current(s, n))
      && forall p :: Carrier(Current(s, n), p) >= 0 ==> p in s.c.pins && s.c.pins[p].muxOwner == Some(n)
  }

  ghost predicate Ledger(s: System) {
    && (forall p <- s.c.pins :: Balanced(s, p))
    && (forall n <- s.handles ::
          ValidIndex(s.handles[n].states, s.handles[n].cur) && GoodStates(s.handles[n].states) && Covered(s, n))
  }

  /** The pins with everything `n` owns given back. */
  function Without(pins: map<Pin, PinDesc>, n: Name): map<Pin, PinDesc> {
    map p | p in pins ::
      if pins[p].muxOwner == Some(n) then pins[p].(muxUsecount := 0, muxOwner := None, muxSetting := None)
      else pins[p]
  }

  /** A balanced pin, seen from one handle. */
  lemma SplitPin(s: System, n: Name, p: Pin)
    requires p in s.c.pins && Balanced(s, p) && Selected(s, n) && Covered(s, n)
    ensures s.c.pins[p] == Claimed(Without(s.c.pins, n)[p], Current(s, n), p, n)
    ensures Carrier(Current(s, n), p) >= 0 ==> Without(s.c.pins, n)[p].muxUsecount == 0
  {
    var i := Carrier(Current(s, n), p);
  }

  lemma WithoutWellKept(s: System, n: Name)
    requires forall p <- s.c.pins :: Balanced(s, p)
    ensures AllWellKept(Without(s.c.pins, n)) && NotOwner(Without(s.c.pins, n), n)
  {
    forall p | p in s.c.pins ensures WellKept(Without(s.c.pins, n)[p]) { assert Balanced(s, p); }
  }

  /** A balanced ledger, seen from one handle. */
  lemma SplitLedger(s: System, n: Name)
    requires Ledger(s) && n in s.handles
    ensures var base := Without(s.c.pins, n);
            && AllWellKept(base) && NotOwner(base, n)
            && Holds(s.c.pins, base, s.handles[n].states, s.handles[n].cur, n)
  {
    WithoutWellKept(s, n);
    assert Covered(s, n);
    var h := s.handles[n];
    if h.cur.Some? {
      assert Selected(s, n) && Current(s, n) == h.states[h.cur.value];
      forall p | p in s.c.pins
        ensures s.c.pins[p] == Claimed(Without(s.c.pins, n)[p], Current(s, n), p, n)
        ensures Carrier(Current(s, n), p) >= 0 ==> Without(s.c.pins, n)[p].muxUsecount == 0
      {
        SplitPin(s, n, p);
      }
    } else {
      forall p | p in s.c.pins ensures s.c.pins[p].muxOwner != Some(n) { assert Balanced(s, p); }
      assert Without(s.c.pins, n) == s.c.pins;
    }
  }

  /** One pin stays balanced when handle `n` holds `cur` on top of the others' claims. */
  lemma JoinPin(s: System, t: System, n: Name, p: Pin)
    requires p in s.c.pins && Balanced(s, p) && n in s.handles && n in t.handles
    requires ValidIndex(s.handles[n].states, t.handles[n].cur)
    requires t.handles == s.handles[n := s.handles[n].(cur := t.handles[n].cur)]
    requires Holds(t.c.pins, Without(s.c.pins, n), s.handles[n].states, t.handles[n].cur, n)
    ensures p in t.c.pins && Balanced(t, p)
  {
    var h := t.handles[n];
    if h.cur.Some? {
      assert Selected(t, n) && Current(t, n) == h.states[h.cur.value];
      var i := Carrier(Current(t, n), p);
      assert t.c.pins[p] == Claimed(Without(s.c.pins, n)[p], Current(t, n), p, n);
    }
  }

  lemma JoinHandle(s: System, t: System, n: Name, m: Name)
    requires Ledger(s) && m in s.handles && n in s.handles && n in t.handles
    requires ValidIndex(s.handles[n].states, t.handles[n].cur)
    requires t.handles == s.handles[n := s.handles[n].(cur := t.handles[n].cur)]
    requires Holds(t.c.pins, Without(s.c.pins, n), s.handles[n].states, t.handles[n].cur, n)
    ensures Covered(t, m)
  {
    if m == n {
      if t.handles[n].cur.Some? {
        assert Current(t, n) == s.handles[n].states[t.handles[n].cur.value];
      }
    } else if Selected(t, m) {
      assert Covered(s, m) && Current(t, m) == Current(s, m);
      forall p | Carrier(Current(t, m), p) >= 0
        ensures p in t.c.pins && t.c.pins[p].muxOwner == Some(m)
      {
        assert Balanced(s, p);
        assert Without(s.c.pins, n)[p] == s.c.pins[p] && s.c.pins[p].muxUsecount > 0;
      }
    }
  }

  /** Putting one handle's new holding back among the others. */
  lemma JoinLedger(s: System, n: Name, c: Controller, cur: Option<nat>)
    requires Ledger(s) && n in s.handles && ValidIndex(s.handles[n].states, cur)
    requires Holds(c.pins, Without(s.c.pins, n), s.handles[n].states, cur, n)
    ensures Ledger(System(c, s.handles[n := s.handles[n].(cur := cur)]))
  {
    var t := System(c, s.handles[n := s.handles[n].(cur := cur)]);
    forall p | p in t.c.pins ensures Balanced(t, p) { JoinPin(s, t, n, p); }
    forall m | m in t.handles ensures Covered(t, m) { JoinHandle(s, t, n, m); }
  }

  lemma SelectKeepsLedger(e: Env, s: System, n: Name, next: nat)
    requires Ledger(s) && NonPositive(e) && Legal(s, Select(n, next))
    ensures Ledger(Step(e, s, Select(n, next)))
  {
    var h := s.handles[n];
    SplitLedger(s, n);
    if h.cur != Some(next) {
      CommitEffect(e, Without(s.c.pins, n), s.c, h.states, n, h.cur, next);
    }
    var r := SelectState(e, s.c, h.states, n, h.cur, next);
    JoinLedger(s, n, r.c, r.cur);
  }

  /** A handle with no state selected can be forgotten. */
  lemma ForgetHandle(s: System, n: Name)
    requires Ledger(s) && n in s.handles && s.handles[n].cur.None?
    ensures Ledger(s.(handles := s.handles - {n}))
  {
    var t := s.(handles := s.handles - {n});
    forall p | p in t.c.pins ensures Balanced(t, p) { assert Balanced(s, p); }
    forall m | m in t.handles ensures Covered(t, m) { assert Covered(s, m); }
  }

  lemma PutKeepsLedger(e: Env, s: System, n: Name)
    requires Ledger(s) && Legal(s, Put(n))
    ensures Ledger(Step(e, s, Put(n)))
  {
    var h := s.handles[n];
    SplitLedger(s, n);
    var c := Drop(e, s.c, h);
    if h.cur.Some? {
      DisableRestores(e, Without(s.c.pins, n), s.c, h.states[h.cur.value], n);
    }
    JoinLedger(s, n, c, None);
    var t := System(c, s.handles[n := h.(cur := None)]);
    ForgetHandle(t, n);
    assert t.handles - {n} == s.handles - {n};
  }

  lemma GetKeepsLedger(s: System, n: Name, states: seq<State>)
    requires Ledger(s) && n !in s.handles && GoodStates(states)
    ensures Ledger(s.(handles := s.handles[n := Handle(states, None)]))
  {
    var t := s.(handles := s.handles[n := Handle(states, None)]);
    forall p | p in t.c.pins ensures Balanced(t, p) { assert Balanced(s, p); }
    forall m | m in t.handles ensures Covered(t, m) { assert m != n ==> Covered(s, m); }
  }

  ghost predicate SameMux(c: Controller, c': Controller) {
    && c'.pins.Keys == c.pins.Keys
    && forall p <- c'.pins :: c'.pins[p] == c.pins[p].(gpioOwner := c'.pins[p].gpioOwner)
  }

  lemma GpioEffect(e: Env, c: Controller, p: Pin, g: Name)
    ensures SameMux(c, PinRequest(e, c, p, g, true).c)
    ensures SameMux(c, PinFree(e, c, p, true))
  {
  }

  /** A change of GPIO owners only is invisible to the ledger. */
  lemma GpioKeepsLedger(s: System, c: Controller)
    requires Ledger(s) && SameMux(s.c, c)
    ensures Ledger(s.(c := c))
  {
    var t := s.(c := c);
    forall p | p in t.c.pins ensures Balanced(t, p) { assert Balanced(s, p); }
    forall m | m in t.handles ensures Covered(t, m) { assert Covered(s, m); }
  }

  ghost predicate GoodOp(op: Op) {
    op.Get? ==> GoodStates(op.states)
  }

  lemma StepKeepsLedger(e: Env, s: System, op: Op)
    requires Ledger(s) && NonPositive(e) && Legal(s, op) && GoodOp(op)
    ensures Ledger(Step(e, s, op))
  {
    match op
    case Get(n, states) => GetKeepsLedger(s, n, states);
    case Select(n, i) => SelectKeepsLedger(e, s, n, i);
    case Put(n) => PutKeepsLedger(e, s, n);
    case RequestGpio(p, g) => GpioEffect(e, s.c, p, g); GpioKeepsLedger(s, PinRequest(e, s.c, p, g, true).c);
    case FreeGpio(p) => GpioEffect(e, s.c, p, ""); GpioKeepsLedger(s, PinFree(e, s.c, p, true));
  }

  /**
   Over every run the ledger stays balanced, whatever the driver, the module loader and the pin
   configuration answer on the way, provided every state's mux groups are disjoint.
   */
  lemma {:induction false} LedgerOverRuns(e: Env, s: System, ops: seq<Op>)
    requires Initial(s) || Ledger(s)
    requires NonPositive(e) && LegalRun(e, s, ops) && forall op <- ops :: GoodOp(op)
    ensures Ledger(Run(e, s, ops))
    decreases |ops|
  {
    assert Ledger(s);
    if ops != [] {
      StepKeepsLedger(e, s, ops[0]);
      LedgerOverRuns(e, Step(e, s, ops[0]), ops[1..]);
    }
  }

  /** One controller with one pin, and one device whose only state muxes that pin. */
  function Sample(): System {
    System(Controller(map[7 := PinDesc(0, None, None, None)], 0, {}, 0), map["uart" := Handle([[Mux(1, [7])]], None)])
  }

  lemma SampleNeedsPin(s: System)
    requires s.handles == map["uart" := Handle([[Mux(1, [7])]], Some(0))]
    requires 7 in s.c.pins && s.c.pins[7].muxOwner == None
    ensures !Ledger(s)
  {
    var st: State := [Mux(1, [7])];
    assert st == [] + [st[0]];
    LastSetting([], st[0], 7);
    assert Occurs([7], 7) == 1;
    assert Selected(s, "uart") && Current(s, "uart") == st && Carrier(st, 7) >= 0;
    assert !Covered(s, "uart");
  }

  /** A driver that answers with a positive number makes the core record a state it does not hold. */
  lemma PositiveAnswerBreaksLedger()
    ensures var e := Env(false, false, t => true, t => 0, (t, id) => 1, (t, id) => 0);
            Ledger(Sample()) && Legal(Sample(), Select("uart", 0)) && !Ledger(Step(e, Sample(), Select("uart", 0)))
  {
    var e := Env(false, false, t => true, t => 0, (t, id) => 1, (t, id) => 0);
    var s := Sample();
    assert Covered(s, "uart") && GoodStates(s.handles["uart"].states);
    OneSettingAnswersOne(e, s.c);
    var t := Step(e, s, Select("uart", 0));
    assert t.handles == map["uart" := Handle([[Mux(1, [7])]], Some(0))];
    SampleNeedsPin(t);
  }

  lemma OneSettingAnswersOne(e: Env, c: Controller)
    requires !e.rts && !e.strict && e.live(0) && e.request(1) == 0 && e.setMux(2, 1) == 1
    requires c == Controller(map[7 := PinDesc(0, None, None, None)], 0, {}, 0)
    ensures EnableSetting(e, c, Mux(1, [7]), "uart").status == 1
    ensures var r := SelectState(e, c, [[Mux(1, [7])]], "uart", None, 0);
            r.cur == Some(0) && r.c.pins == c.pins
  {
    var s := Mux(1, [7]);
    var r := PinRequest(e, c, 7, "uart", false);
    assert r.status == 0 && r.c.tick == 2;
    assert AcquireFrom(e, r.c, s.group, "uart", 1) == Acquired(r.c, 0, 1);
    assert AcquireFrom(e, c, s.group, "uart", 0) == Acquired(r.c, 0, 1);
    EnableEffect(e, c, s, "uart");
    var st: State := [s];
    var a := ApplySetting(e, c, s, "uart");
    assert Apply(e, a.c, st, "uart", 1) == Acquired(a.c, 0, 1);
    assert Apply(e, c, st, "uart", 0) == Acquired(a.c, 0, 1);
  }
}
