/**
 The core composed with the rts3917 driver.  The core lets a GPIO and a mux function share a pin
 (the driver is not strict), but the driver's `pinsmask` excludes it: in every reachable state a
 pin's bit is set exactly when one of the two holds the pin, and never both do.
 */
module PinExclusivity {
  import opened Wrappers
  import opened Pinmux
  import opened PinctrlCore
  import opened PinctrlSystem
  import Rts3917

  /** The mask bit is set exactly when a mux function or a GPIO holds the pin, and not both do. */
  predicate OneHolder(d: PinDesc, bit: bool) {
    (bit <==> d.muxUsecount > 0 || d.gpioOwner.Some?) && !(d.muxUsecount > 0 && d.gpioOwner.Some?)
  }

  ghost predicate Exclusive(c: Controller) {
    && (forall p <- c.pins :: OneHolder(c.pins[p], p in c.mask))
    && (forall p <- c.mask :: p in c.pins && p <= Rts3917.MAX_OFFSET)
    && c.refs == |c.mask|
  }

  /** A step that touches one pin, its bit and (with the bit) one module reference. */
  lemma TouchOne(c: Controller, c': Controller, p: Pin)
    requires Exclusive(c) && p in c.pins && p in c'.pins
    requires c'.pins == c.pins[p := c'.pins[p]] && OneHolder(c'.pins[p], p in c'.mask)
    requires || (c'.mask == c.mask && c'.refs == c.refs)
             || (p !in c.mask && p <= Rts3917.MAX_OFFSET && c'.mask == c.mask + {p} && c'.refs == c.refs + 1)
             || (p in c.mask && c'.mask == c.mask - {p} && c'.refs == c.refs - 1)
    ensures Exclusive(c')
  {
  }

  lemma RequestKeeps(e: Env, c: Controller, p: Pin, owner: Name, gpio: bool)
    requires e.rts && Exclusive(c)
    ensures Exclusive(PinRequest(e, c, p, owner, gpio).c)
  {
    var r := PinRequest(e, c, p, owner, gpio);
    if p in c.pins && !Refused(e, c.pins[p], owner, gpio) {
      var d := c.pins[p];
      assert OneHolder(d, p in c.mask);
      assert Unclaim(Claim(d, owner, gpio), gpio).muxUsecount == d.muxUsecount;
      assert r.c.pins == c.pins[p := r.c.pins[p]];
      TouchOne(c, r.c, p);
    }
  }

  /** A GPIO gets a pin if and only if nobody holds it, whether by mux or as a GPIO. */
  lemma GpioGrantedIffFree(e: Env, c: Controller, p: Pin, g: Name)
    requires e.rts && e.live(c.tick) && Exclusive(c) && AllWellKept(c.pins) && p in c.pins && p <= Rts3917.MAX_OFFSET
    ensures var r := PinRequest(e, c, p, g, true);
            && (r.status == 0 <==> c.pins[p].muxUsecount == 0 && c.pins[p].gpioOwner.None?)
            && (r.status == 0 <==> p !in c.mask)
            && (r.status == 0 ==> r.c.pins == c.pins[p := c.pins[p].(gpioOwner := Some(g))] && r.c.mask == c.mask + {p})
            && (r.status != 0 ==> r.c == c.(tick := r.c.tick))
  {
    RequestGrantedIff(e, c, p, g, true);
    assert OneHolder(c.pins[p], p in c.mask);
  }

  /** A device gets a pin for a mux function if and only if nobody else holds it. */
  lemma MuxGrantedIffFree(e: Env, c: Controller, p: Pin, owner: Name)
    requires e.rts && e.live(c.tick) && Exclusive(c) && AllWellKept(c.pins) && p in c.pins && p <= Rts3917.MAX_OFFSET
    ensures var r := PinRequest(e, c, p, owner, false); var d := c.pins[p];
            && (r.status == 0 <==> d.gpioOwner.None? && (d.muxUsecount == 0 || d.muxOwner == Some(owner)))
            && (r.status == 0 ==> r.c.pins == c.pins[p := d.(muxUsecount := d.muxUsecount + 1, muxOwner := Some(owner))])
            && (r.status != 0 ==> r.c == c.(tick := r.c.tick))
  {
    RequestGrantedIff(e, c, p, owner, false);
    assert OneHolder(c.pins[p], p in c.mask);
  }

  lemma FreeKeeps(e: Env, c: Controller, p: Pin, gpio: bool)
    requires e.rts && Exclusive(c)
    requires gpio && p in c.pins ==> c.pins[p].gpioOwner.Some?
    ensures Exclusive(PinFree(e, c, p, gpio))
  {
    if p in c.pins {
      assert OneHolder(c.pins[p], p in c.mask);
      TouchOne(c, PinFree(e, c, p, gpio), p);
    }
  }

  lemma {:induction false} AcquireKeeps(e: Env, c: Controller, group: seq<Pin>, owner: Name, i: nat)
    requires e.rts && Exclusive(c) && i <= |group|
    ensures Exclusive(AcquireFrom(e, c, group, owner, i).c)
    decreases |group| - i
  {
    if i < |group| {
      RequestKeeps(e, c, group[i], owner, false);
      AcquireKeeps(e, PinRequest(e, c, group[i], owner, false).c, group, owner, i + 1);
    }
  }

  lemma {:induction false} ReleaseKeeps(e: Env, c: Controller, group: seq<Pin>, i: nat)
    requires e.rts && Exclusive(c) && i <= |group|
    ensures Exclusive(ReleaseDown(e, c, group, i))
    decreases i
  {
    if i > 0 {
      FreeKeeps(e, c, group[i - 1], false);
      ReleaseKeeps(e, PinFree(e, c, group[i - 1], false), group, i - 1);
    }
  }

  lemma EnableKeeps(e: Env, c: Controller, s: Setting, owner: Name)
    requires e.rts && Exclusive(c) && s.Mux?
    ensures Exclusive(EnableSetting(e, c, s, owner).c)
  {
    AcquireKeeps(e, c, s.group, owner, 0);
    var a := AcquireFrom(e, c, s.group, owner, 0);
    if a.status != 0 {
      ReleaseKeeps(e, a.c, s.group, a.upto);
    }
  }

  lemma {:induction false} DisableKeeps(e: Env, c: Controller, s: Setting, i: nat)
    requires e.rts && Exclusive(c) && s.Mux? && i <= |s.group|
    ensures Exclusive(DisableFrom(e, c, s, i))
    decreases |s.group| - i
  {
    if i < |s.group| {
      var p := s.group[i];
      FreeKeeps(e, c, p, false);
      var c1 := if p in c.pins && c.pins[p].muxSetting == Some(s.id) then PinFree(e, c, p, false) else c;
      DisableKeeps(e, c1, s, i + 1);
    }
  }

  lemma {:induction false} ApplyKeeps(e: Env, c: Controller, st: State, owner: Name, k: nat)
    requires e.rts && Exclusive(c) && k <= |st|
    ensures Exclusive(Apply(e, c, st, owner, k).c)
    decreases |st| - k
  {
    if k < |st| {
      if st[k].Mux? {
        EnableKeeps(e, c, st[k], owner);
      }
      ApplyKeeps(e, ApplySetting(e, c, st[k], owner).c, st, owner, k + 1);
    }
  }

  lemma {:induction false} DisableStateKeeps(e: Env, c: Controller, st: State, k: nat)
    requires e.rts && Exclusive(c) && k <= |st|
    ensures Exclusive(DisableState(e, c, st, k))
    decreases |st| - k
  {
    if k < |st| {
      if st[k].Mux? {
        DisableKeeps(e, c, st[k], 0);
      }
      DisableStateKeeps(e, if st[k].Mux? then DisableSetting(e, c, st[k]) else c, st, k + 1);
    }
  }

  lemma {:induction false} CommitKeeps(e: Env, c: Controller, states: seq<State>, owner: Name, cur: Option<nat>, next: nat)
    requires e.rts && Exclusive(c) && next < |states| && ValidIndex(states, cur)
    ensures Exclusive(CommitState(e, c, states, owner, cur, next).c)
    decreases cur.Some?
  {
    if cur.Some? {
      DisableStateKeeps(e, c, states[cur.value], 0);
    }
    var c1 := if cur.Some? then DisableState(e, c, states[cur.value], 0) else c;
    ApplyKeeps(e, c1, states[next], owner, 0);
    var a := Apply(e, c1, states[next], owner, 0);
    if a.status < 0 {
      DisableStateKeeps(e, a.c, states[next][..a.upto], 0);
      if cur.Some? {
        CommitKeeps(e, DisableState(e, a.c, states[next][..a.upto], 0), states, owner, None, cur.value);
      }
    }
  }

  lemma StepKeepsExclusive(e: Env, s: System, op: Op)
    requires e.rts && Exclusive(s.c) && Legal(s, op)
    ensures Exclusive(Step(e, s, op).c)
  {
    match op
    case Get(n, states) =>
    case Select(n, i) => CommitKeeps(e, s.c, s.handles[n].states, n, s.handles[n].cur, i);
    case Put(n) =>
      var h := s.handles[n];
      if h.cur.Some? {
        DisableStateKeeps(e, s.c, h.states[h.cur.value], 0);
      }
    case RequestGpio(p, g) => RequestKeeps(e, s.c, p, g, true);
    case FreeGpio(p) => FreeKeeps(e, s.c, p, true);
  }

  /** Over every run, overlapping groups or not: one holder per pin, and one module reference per held pin. */
  lemma {:induction false} ExclusiveOverRuns(e: Env, s: System, ops: seq<Op>)
    requires Initial(s) || Exclusive(s.c)
    requires e.rts && LegalRun(e, s, ops)
    ensures Exclusive(Run(e, s, ops).c)
    decreases |ops|
  {
    assert Exclusive(s.c);
    if ops != [] {
      StepKeepsExclusive(e, s, ops[0]);
      ExclusiveOverRuns(e, Step(e, s, ops[0]), ops[1..]);
    }
  }

  // ---------------------------------------------------------------------------------------------
  // A failed selection changes nothing
  // ---------------------------------------------------------------------------------------------

  /** A pin that `owner` can claim from the driver, or has claimed already. */
  ghost predicate Claimable(c: Controller, p: Pin, owner: Name) {
    && p in c.pins && p <= Rts3917.MAX_OFFSET && c.pins[p].gpioOwner.None?
    && (c.pins[p].muxUsecount > 0 ==> c.pins[p].muxOwner == Some(owner))
  }

  lemma {:induction false} AcquireSucceeds(e: Env, c: Controller, group: seq<Pin>, owner: Name, i: nat)
    requires e.rts && (forall t: nat :: e.live(t)) && Exclusive(c) && i <= |group|
    requires forall p <- group :: Claimable(c, p, owner)
    ensures AcquireFrom(e, c, group, owner, i).status == 0
    decreases |group| - i
  {
    if i < |group| {
      var r := PinRequest(e, c, group[i], owner, false);
      assert Claimable(c, group[i], owner);
      RequestKeeps(e, c, group[i], owner, false);
      forall p | p in group ensures Claimable(r.c, p, owner) {
        assert Claimable(c, p, owner);
      }
      AcquireSucceeds(e, r.c, group, owner, i + 1);
    }
  }

  /** Every pin-configuration setting of the state re-applies whenever it is tried. */
  ghost predicate ConfigsApply(e: Env, st: State) {
    forall s <- st :: s.Configs? ==> forall t: nat :: e.config(t, s.id) >= 0
  }

  ghost predicate StateClaimable(base: map<Pin, PinDesc>, st: State) {
    forall p: Pin :: Carrier(st, p) >= 0 ==>
      p in base && p <= Rts3917.MAX_OFFSET && base[p].gpioOwner.None? && base[p].muxUsecount == 0
  }

  /** On rts3917 a state whose pins nobody holds applies from start to end. */
  lemma {:induction false} ApplySucceeds(
      e: Env, base: map<Pin, PinDesc>, c: Controller, st: State, owner: Name, k: nat)
    requires e.rts && (forall t: nat :: e.live(t)) && Exclusive(c) && k <= |st|
    requires AllWellKept(base) && NotOwner(base, owner)
    requires AllApplicable(st) && ConfigsApply(e, st) && StateClaimable(base, st)
    requires FreeFor(base, st[..k]) && c.pins == ClaimedPins(base, st[..k], owner)
    ensures Apply(e, c, st, owner, k).status >= 0
    decreases |st| - k
  {
    if k < |st| {
      var s := st[k];
      assert s in st;
      assert st[..k + 1] == st[..k] + [s];
      var r := ApplySetting(e, c, s, owner);
      if s.Mux? {
        forall p | p in s.group ensures Claimable(c, p, owner) {
          assert OccursIn(st[k], p) > 0;
          CarrierIsLast(st, k, p);
          assert c.pins[p] == Claimed(base[p], st[..k], p, owner);
        }
        AcquireSucceeds(e, c, s.group, owner, 0);
        ClaimedWellKept(base, st[..k], owner);
        EnableEffect(e, c, s, owner);
        EnableKeeps(e, c, s, owner);
        ClaimOneMore(base, st[..k], s, owner);
      } else {
        ClaimNothing(base, st[..k], s, owner);
      }
      ApplySucceeds(e, base, r.c, st, owner, k + 1);
    }
  }

  /** What is held determines the mask and the references. */
  lemma SameHolders(c: Controller, c': Controller)
    requires Exclusive(c) && Exclusive(c') && c.pins == c'.pins
    ensures c.mask == c'.mask && c.refs == c'.refs
  {
    forall p: Pin ensures p in c.mask <==> p in c'.mask {
      assert p in c.mask ==> p in c.pins;
      assert p in c'.mask ==> p in c'.pins;
    }
    assert c.mask == c'.mask;
  }

  /** Everything a held state names can be claimed again once it is given back. */
  lemma HeldIsClaimable(s: System, n: Name)
    requires Ledger(s) && Exclusive(s.c) && Selected(s, n)
    ensures StateClaimable(Without(s.c.pins, n), Current(s, n))
  {
    assert Covered(s, n);
    forall p: Pin | Carrier(Current(s, n), p) >= 0
      ensures p in s.c.pins && p <= Rts3917.MAX_OFFSET && s.c.pins[p].gpioOwner.None?
    {
      assert Balanced(s, p);
    }
  }

  /** Whether `pinctrl_select_state` reports an error. */
  ghost predicate SelectFails(e: Env, s: System, n: Name, next: nat)
    requires Legal(s, Select(n, next))
  {
    SelectState(e, s.c, s.handles[n].states, n, s.handles[n].cur, next).ret < 0
  }

  /** The pin-configuration settings of the state that is selected now, if any, can be applied again. */
  ghost predicate CurrentReapplies(e: Env, s: System, n: Name) {
    Selected(s, n) ==> ConfigsApply(e, Current(s, n))
  }

  /** An rts3917 controller whose module stays loaded, in a state that runs of it keep. */
  ghost predicate RtsState(e: Env, s: System) {
    e.rts && (forall t: nat :: e.live(t)) && Ledger(s) && Exclusive(s.c)
  }

  /** After a failed attempt at another state, the old one applies again. */
  lemma OldStateReapplies(e: Env, s: System, n: Name, next: nat)
    requires RtsState(e, s) && Legal(s, Select(n, next)) && CurrentReapplies(e, s, n) && Selected(s, n)
    ensures var r := CommitState(e, s.c, s.handles[n].states, n, s.handles[n].cur, next);
            r.ret < 0 ==> r.cur == s.handles[n].cur
  {
    var h := s.handles[n];
    var base := Without(s.c.pins, n);
    var oldState := h.states[h.cur.value];
    SplitLedger(s, n);
    HeldIsClaimable(s, n);
    assert Current(s, n) == oldState && Covered(s, n) && GoodStates(h.states);
    DisableRestores(e, base, s.c, oldState, n);
    var c1 := DisableState(e, s.c, oldState, 0);
    DisableStateKeeps(e, s.c, oldState, 0);
    ApplyOrUndo(e, base, c1, h.states[next], n);
    ApplyKeeps(e, c1, h.states[next], n, 0);
    var a := Apply(e, c1, h.states[next], n, 0);
    if a.status < 0 {
      var c2 := DisableState(e, a.c, h.states[next][..a.upto], 0);
      DisableStateKeeps(e, a.c, h.states[next][..a.upto], 0);
      assert oldState[..0] == [] && base == ClaimedPins(base, [], n);
      ApplySucceeds(e, base, c2, oldState, n, 0);
    }
  }

  /**
   On rts3917, when `pinctrl_select_state` fails, the handle still has its old state and every pin, mask
   bit and module reference is exactly as before the call.
   */
  lemma FailedSelectIsNoop(e: Env, s: System, n: Name, next: nat)
    requires RtsState(e, s)
    requires Legal(s, Select(n, next)) && CurrentReapplies(e, s, n) && SelectFails(e, s, n, next)
    ensures var r := SelectState(e, s.c, s.handles[n].states, n, s.handles[n].cur, next);
            r.cur == s.handles[n].cur && r.c == s.c.(tick := r.c.tick)
  {
    var h := s.handles[n];
    var r := CommitState(e, s.c, h.states, n, h.cur, next);
    SplitLedger(s, n);
    CommitEffect(e, Without(s.c.pins, n), s.c, h.states, n, h.cur, next);
    CommitKeeps(e, s.c, h.states, n, h.cur, next);
    if h.cur.Some? {
      OldStateReapplies(e, s, n, next);
    }
    assert r.c.pins == s.c.pins;
    SameHolders(s.c, r.c);
  }
}
