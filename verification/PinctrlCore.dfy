/**
 Selecting pinctrl states: `pinctrl_commit_state` with its rollback and its re-selection of the old
 state.  The system of all handles sharing one controller is in PinctrlSystem.
 */
module PinctrlCore {
  import opened Wrappers
  import opened Pinmux

  type State = seq<Setting>

  // ---------------------------------------------------------------------------------------------
  // Operations
  // ---------------------------------------------------------------------------------------------

  function ApplySetting(e: Env, c: Controller, s: Setting, owner: Name): Outcome {
    match s
    case Mux(_, _) => EnableSetting(e, c, s, owner)
    case Configs(id) => Outcome(c.(tick := c.tick + 1), e.config(c.tick, id))
    case Invalid(_) => Outcome(c, -EINVAL)
  }

  /** Applies `st[k..]`; stops at the first negative status, and then `upto` is that setting. */
  function Apply(e: Env, c: Controller, st: State, owner: Name, k: nat): (r: Acquired)
    requires k <= |st|
    ensures k <= r.upto <= |st|
    ensures r.status >= 0 ==> r.upto == |st|
    decreases |st| - k
  {
    if k == |st| then Acquired(c, 0, k)
    else
      var r := ApplySetting(e, c, st[k], owner);
      if r.status < 0 then Acquired(r.c, r.status, k) else Apply(e, r.c, st, owner, k + 1)
  }

  /** Disables the mux settings of `st[k..]`, first to last. */
  function DisableState(e: Env, c: Controller, st: State, k: nat): Controller
    requires k <= |st|
    decreases |st| - k
  {
    if k == |st| then c
    else DisableState(e, if st[k].Mux? then DisableSetting(e, c, st[k]) else c, st, k + 1)
  }

  /** `depth` counts nested activations of `pinctrl_commit_state`. */
  datatype Committed = Committed(c: Controller, cur: Option<nat>, ret: int, depth: nat)

  ghost predicate ValidIndex(states: seq<State>, cur: Option<nat>) {
    cur.Some? ==> cur.value < |states|
  }

  /** The re-selection passes through `pinctrl_select_state`, whose equality test fails as no state is current. */
  function CommitState(e: Env, c: Controller, states: seq<State>, owner: Name, cur: Option<nat>, next: nat): Committed
    requires next < |states| && ValidIndex(states, cur)
    decreases cur.Some?
  {
    var c1 := if cur.Some? then DisableState(e, c, states[cur.value], 0) else c;
    var a := Apply(e, c1, states[next], owner, 0);
    if a.status >= 0 then Committed(a.c, Some(next), 0, 1)
    else
      var c2 := DisableState(e, a.c, states[next][..a.upto], 0);
      if cur.None? then Committed(c2, None, a.status, 1)
      else
        var r := CommitState(e, c2, states, owner, None, cur.value);
        Committed(r.c, r.cur, a.status, r.depth + 1)
  }

  function SelectState(e: Env, c: Controller, states: seq<State>, owner: Name, cur: Option<nat>, next: nat): Committed
    requires next < |states| && ValidIndex(states, cur)
  {
    if cur == Some(next) then Committed(c, cur, 0, 0) else CommitState(e, c, states, owner, cur, next)
  }

  // ---------------------------------------------------------------------------------------------
  // What a state claims
  // ---------------------------------------------------------------------------------------------

  function OccursIn(s: Setting, p: Pin): nat {
    if s.Mux? then Occurs(s.group, p) else 0
  }

  /** How often a pin occurs in the mux groups of a state. */
  function Occ(st: State, p: Pin): nat {
    if st == [] then 0 else Occ(st[..|st| - 1], p) + OccursIn(st[|st| - 1], p)
  }

  /** The last setting of the state that names the pin, or -1. */
  function Carrier(st: State, p: Pin): (i: int)
    ensures -1 <= i < |st|
    ensures i >= 0 ==> OccursIn(st[i], p) > 0
    ensures i < 0 <==> Occ(st, p) == 0
  {
    if st == [] then -1
    else if OccursIn(st[|st| - 1], p) > 0 then |st| - 1
    else Carrier(st[..|st| - 1], p)
  }

  /** Pairwise pin-disjoint mux groups (a group may repeat a pin). */
  ghost predicate Disjoint(st: State) {
    forall i, j, p :: 0 <= i < j < |st| ==> OccursIn(st[i], p) == 0 || OccursIn(st[j], p) == 0
  }

  /** Settings are separate objects, so their addresses differ. */
  ghost predicate DistinctIds(st: State) {
    forall i, j :: 0 <= i < j < |st| ==> st[i].id != st[j].id
  }

  function Claimed(d: PinDesc, st: State, p: Pin, owner: Name): PinDesc {
    var i := Carrier(st, p);
    if i < 0 then d
    else d.(muxUsecount := d.muxUsecount + Occ(st, p), muxOwner := Some(owner), muxSetting := Some(st[i].id))
  }

  /** `base` with all settings of the state claimed for `owner`. */
  function ClaimedPins(base: map<Pin, PinDesc>, st: State, owner: Name): map<Pin, PinDesc> {
    map p | p in base :: Claimed(base[p], st, p, owner)
  }

  /** All pins the state names are registered and unclaimed in `base`. */
  ghost predicate FreeFor(base: map<Pin, PinDesc>, st: State) {
    forall p :: Carrier(st, p) >= 0 ==> p in base && base[p].muxUsecount == 0
  }

  ghost predicate NotOwner(base: map<Pin, PinDesc>, owner: Name) {
    forall p <- base :: base[p].muxOwner != Some(owner)
  }

  /** Drivers report failure by a negative number only; `rts3917` answers 0, -EINVAL or -EBUSY. */
  ghost predicate NonPositive(e: Env) {
    e.rts || ((forall t: nat :: e.request(t) <= 0) && (forall t: nat, id: nat :: e.setMux(t, id) <= 0))
  }

  ghost predicate AllApplicable(st: State) {
    forall s <- st :: !s.Invalid?
  }

  // ---------------------------------------------------------------------------------------------
  // Applying a state
  // ---------------------------------------------------------------------------------------------

  lemma {:induction false} AcquireStatus(e: Env, c: Controller, group: seq<Pin>, owner: Name, i: nat)
    requires i <= |group| && NonPositive(e)
    ensures AcquireFrom(e, c, group, owner, i).status <= 0
    decreases |group| - i
  {
    if i < |group| && PinRequest(e, c, group[i], owner, false).status == 0 {
      AcquireStatus(e, PinRequest(e, c, group[i], owner, false).c, group, owner, i + 1);
    }
  }

  lemma EnableStatus(e: Env, c: Controller, s: Setting, owner: Name)
    requires s.Mux? && NonPositive(e)
    ensures EnableSetting(e, c, s, owner).status <= 0
  {
    AcquireStatus(e, c, s.group, owner, 0);
  }

  /** The driver accepts the setting: it grants every pin it is asked for, and then answers `set_mux` with 0. */
  ghost predicate Accepted(e: Env, c: Controller, s: Setting, owner: Name)
    requires s.Mux?
  {
    var a := AcquireFrom(e, c, s.group, owner, 0);
    a.status == 0 && (e.rts || e.setMux(a.c.tick, s.id) == 0)
  }

  /**
   `pinmux_enable_setting` takes any nonzero answer of the driver as failure, but its caller only a negative one.
   A setting is claimed if and only if the driver accepts it, and otherwise leaves no trace; it counts as applied
   also when it was not accepted but the answer was positive.
   */
  lemma ClaimedIffAccepted(e: Env, c: Controller, s: Setting, owner: Name)
    requires s.Mux? && s.group != [] && AllWellKept(c.pins) && Untouched(c.pins, s.group, owner)
    ensures var r := ApplySetting(e, c, s, owner);
            && (Available(c.pins, s.group, owner) && r.c.pins == EnabledPins(c.pins, s, owner) <==> Accepted(e, c, s, owner))
            && (!Accepted(e, c, s, owner) ==> r.c.pins == c.pins)
            && (r.status == 0 <==> Accepted(e, c, s, owner))
  {
    EnableEffect(e, c, s, owner);
    var p := s.group[0];
    assert p in s.group && Occurs(s.group, p) > 0;
    assert p in c.pins ==> EnabledPins(c.pins, s, owner)[p].muxUsecount > c.pins[p].muxUsecount;
  }

  // ---------------------------------------------------------------------------------------------
  // What a commit returns
  // ---------------------------------------------------------------------------------------------

  /** The answer to a setting: of the first pin refused, else of `set_mux`; of the pin configuration; or -EINVAL. */
  ghost function Answer(e: Env, c: Controller, s: Setting, owner: Name): int {
    match s
    case Configs(id) => e.config(c.tick, id)
    case Invalid(_) => -EINVAL
    case Mux(id, group) =>
      var a := AcquireFrom(e, c, group, owner, 0);
      if a.status != 0 then a.status else if e.rts then 0 else e.setMux(a.c.tick, id)
  }

  /** The controller when setting `k` comes up. */
  ghost function Reached(e: Env, c: Controller, st: State, owner: Name, k: nat): Controller
    requires k <= |st|
  {
    if k == 0 then c else ApplySetting(e, Reached(e, c, st, owner, k - 1), st[k - 1], owner).c
  }

  ghost function AnswerAt(e: Env, c: Controller, st: State, owner: Name, k: nat): int
    requires k < |st|
  {
    Answer(e, Reached(e, c, st, owner, k), st[k], owner)
  }

  ghost predicate NoneFails(e: Env, c: Controller, st: State, owner: Name, k: nat)
    requires k <= |st|
  {
    forall i: nat :: i < k ==> AnswerAt(e, c, st, owner, i) >= 0
  }

  lemma {:induction false} ApplyReturns(e: Env, c: Controller, st: State, owner: Name, k: nat)
    requires k <= |st| && NoneFails(e, c, st, owner, k)
    ensures var a := Apply(e, Reached(e, c, st, owner, k), st, owner, k);
            if a.status >= 0 then NoneFails(e, c, st, owner, |st|)
            else a.upto < |st| && NoneFails(e, c, st, owner, a.upto) && AnswerAt(e, c, st, owner, a.upto) == a.status
    decreases |st| - k
  {
    if k < |st| {
      var r := ApplySetting(e, Reached(e, c, st, owner, k), st[k], owner);
      assert r.status == AnswerAt(e, c, st, owner, k);
      if r.status >= 0 {
        assert r.c == Reached(e, c, st, owner, k + 1);
        ApplyReturns(e, c, st, owner, k + 1);
      }
    }
  }

  /**
   With the old state dropped, a commit returns 0 and selects the new state if no setting of it is answered with a
   negative number, and otherwise returns the answer to the first setting that is.
   */
  lemma CommitReturns(e: Env, c: Controller, states: seq<State>, owner: Name, cur: Option<nat>, next: nat)
    requires next < |states| && ValidIndex(states, cur)
    ensures var r := CommitState(e, c, states, owner, cur, next);
            var c1 := if cur.Some? then DisableState(e, c, states[cur.value], 0) else c;
            && (r.ret == 0 <==> NoneFails(e, c1, states[next], owner, |states[next]|))
            && (r.ret == 0 ==> r.cur == Some(next))
            && (r.ret != 0 ==> exists k: nat ::
                  && k < |states[next]| && NoneFails(e, c1, states[next], owner, k)
                  && AnswerAt(e, c1, states[next], owner, k) == r.ret < 0)
  {
    var c1 := if cur.Some? then DisableState(e, c, states[cur.value], 0) else c;
    ApplyReturns(e, c1, states[next], owner, 0);
  }

  lemma LastSetting(st: State, s: Setting, p: Pin)
    ensures Occ(st + [s], p) == Occ(st, p) + OccursIn(s, p)
    ensures Carrier(st + [s], p) == if OccursIn(s, p) > 0 then |st| else Carrier(st, p)
  {
    assert (st + [s])[..|st|] == st;
  }

  /** Claims of a longer state, when the added setting names only unclaimed pins or pins already claimed. */
  lemma ClaimOneMore(base: map<Pin, PinDesc>, st: State, s: Setting, owner: Name)
    requires AllWellKept(base) && NotOwner(base, owner) && FreeFor(base, st) && s.Mux?
    requires Available(ClaimedPins(base, st, owner), s.group, owner)
    ensures FreeFor(base, st + [s])
    ensures EnabledPins(ClaimedPins(base, st, owner), s, owner) == ClaimedPins(base, st + [s], owner)
  {
    var mid := ClaimedPins(base, st, owner);
    forall p: Pin
      ensures Carrier(st + [s], p) >= 0 ==> p in base && base[p].muxUsecount == 0
      ensures p in base ==> EnabledPins(mid, s, owner)[p] == Claimed(base[p], st + [s], p, owner)
    {
      LastSetting(st, s, p);
      assert p in s.group <==> OccursIn(s, p) > 0;
    }
  }

  lemma ClaimNothing(base: map<Pin, PinDesc>, st: State, s: Setting, owner: Name)
    requires !s.Mux? && FreeFor(base, st)
    ensures FreeFor(base, st + [s])
    ensures ClaimedPins(base, st + [s], owner) == ClaimedPins(base, st, owner)
  {
    forall p: Pin
      ensures Carrier(st + [s], p) == Carrier(st, p) && Occ(st + [s], p) == Occ(st, p)
    {
      LastSetting(st, s, p);
    }
  }

  /** In a disjoint state no earlier setting names a pin of setting `k`. */
  lemma DisjointPrefix(st: State, k: nat, p: Pin)
    requires k < |st| && Disjoint(st) && OccursIn(st[k], p) > 0
    ensures Carrier(st[..k], p) < 0
  {
    var i := Carrier(st[..k], p);
  }

  lemma DisjointUntouched(base: map<Pin, PinDesc>, st: State, k: nat, owner: Name)
    requires k < |st| && st[k].Mux? && Disjoint(st) && NotOwner(base, owner)
    ensures Untouched(ClaimedPins(base, st[..k], owner), st[k].group, owner)
  {
    forall p | p in st[k].group
      ensures Carrier(st[..k], p) < 0
    {
      assert OccursIn(st[k], p) > 0;
      DisjointPrefix(st, k, p);
    }
  }

  /** `pins` are `base` with the first `k` settings of the state claimed. */
  ghost predicate ClaimedUpTo(base: map<Pin, PinDesc>, pins: map<Pin, PinDesc>, st: State, owner: Name, k: nat)
    requires k <= |st|
  {
    FreeFor(base, st[..k]) && AllApplicable(st[..k]) && pins == ClaimedPins(base, st[..k], owner)
  }

  lemma ApplyMux(e: Env, base: map<Pin, PinDesc>, c: Controller, st: State, owner: Name, k: nat)
    requires k < |st| && st[k].Mux? && AllWellKept(base) && NotOwner(base, owner) && NonPositive(e)
    requires ClaimedUpTo(base, c.pins, st, owner, k)
    ensures var r := EnableSetting(e, c, st[k], owner);
            && (r.status >= 0 ==> ClaimedUpTo(base, r.c.pins, st, owner, k + 1))
            && (r.status < 0 && Disjoint(st) ==> r.c.pins == c.pins)
  {
    var s := st[k];
    assert st[..k + 1] == st[..k] + [s];
    ClaimedWellKept(base, st[..k], owner);
    EnableEffect(e, c, s, owner);
    EnableStatus(e, c, s, owner);
    if EnableSetting(e, c, s, owner).status == 0 {
      ClaimOneMore(base, st[..k], s, owner);
    } else if Disjoint(st) {
      DisjointUntouched(base, st, k, owner);
    }
  }

  lemma ApplyOther(e: Env, base: map<Pin, PinDesc>, c: Controller, st: State, owner: Name, k: nat)
    requires k < |st| && !st[k].Mux? && ClaimedUpTo(base, c.pins, st, owner, k)
    ensures var r := ApplySetting(e, c, st[k], owner);
            r.c.pins == c.pins && (r.status >= 0 ==> ClaimedUpTo(base, r.c.pins, st, owner, k + 1))
  {
    assert st[..k + 1] == st[..k] + [st[k]];
    ClaimNothing(base, st[..k], st[k], owner);
  }

  /**
   Applying a state claims exactly the settings that were applied.  After a failure this needs
   disjoint groups; after a success it does not.
   */
  lemma {:induction false} ApplyEffect(
      e: Env, base: map<Pin, PinDesc>, c: Controller, st: State, owner: Name, k: nat)
    requires k <= |st| && AllWellKept(base) && NotOwner(base, owner) && NonPositive(e)
    requires ClaimedUpTo(base, c.pins, st, owner, k)
    ensures var r := Apply(e, c, st, owner, k);
            r.status >= 0 || Disjoint(st) ==> ClaimedUpTo(base, r.c.pins, st, owner, r.upto)
    decreases |st| - k
  {
    if k < |st| {
      if st[k].Mux? {
        ApplyMux(e, base, c, st, owner, k);
      } else {
        ApplyOther(e, base, c, st, owner, k);
      }
      var r := ApplySetting(e, c, st[k], owner);
      if r.status >= 0 {
        ApplyEffect(e, base, r.c, st, owner, k + 1);
      }
    }
  }

  /** Applying from the start. */
  lemma ApplyAllEffect(e: Env, base: map<Pin, PinDesc>, c: Controller, st: State, owner: Name)
    requires AllWellKept(base) && NotOwner(base, owner) && NonPositive(e) && c.pins == base
    ensures var r := Apply(e, c, st, owner, 0);
            r.status >= 0 || Disjoint(st) ==> ClaimedUpTo(base, r.c.pins, st, owner, r.upto)
  {
    assert st[..0] == [] && base == ClaimedPins(base, [], owner);
    ApplyEffect(e, base, c, st, owner, 0);
  }

  lemma ClaimedWellKept(base: map<Pin, PinDesc>, st: State, owner: Name)
    requires AllWellKept(base)
    ensures AllWellKept(ClaimedPins(base, st, owner))
  {
    forall p | p in base
      ensures WellKept(Claimed(base[p], st, p, owner))
    {
      var i := Carrier(st, p);
    }
  }

  // ---------------------------------------------------------------------------------------------
  // Disabling a state
  // ---------------------------------------------------------------------------------------------

  function CarrierOcc(st: State, p: Pin): nat {
    var i := Carrier(st, p);
    if i < 0 then 0 else OccursIn(st[i], p)
  }

  /** A pin after the first `k` settings of an applied state were disabled: only its carrier frees it. */
  function Stage(d: PinDesc, st: State, p: Pin, owner: Name, k: nat): PinDesc {
    if Carrier(st, p) < k then Lowered(Claimed(d, st, p, owner), CarrierOcc(st, p))
    else Claimed(d, st, p, owner)
  }

  function StagePins(base: map<Pin, PinDesc>, st: State, owner: Name, k: nat): map<Pin, PinDesc> {
    map p | p in base :: Stage(base[p], st, p, owner, k)
  }

  lemma {:induction false} CarrierIsLast(st: State, i: nat, p: Pin)
    requires i < |st| && OccursIn(st[i], p) > 0
    ensures i <= Carrier(st, p)
    ensures OccursIn(st[i], p) <= Occ(st, p)
  {
    if i < |st| - 1 {
      assert st[..|st| - 1][i] == st[i];
      CarrierIsLast(st[..|st| - 1], i, p);
    }
  }

  lemma StageStep(base: map<Pin, PinDesc>, st: State, owner: Name, k: nat)
    requires k < |st| && st[k].Mux? && DistinctIds(st)
    ensures var pins := StagePins(base, st, owner, k);
            && (forall p <- pins :: pins[p].muxSetting == Some(st[k].id) ==> pins[p].muxUsecount >= Occurs(st[k].group, p))
            && DisabledPins(pins, st[k]) == StagePins(base, st, owner, k + 1)
  {
    var pins := StagePins(base, st, owner, k);
    forall p | p in base
      ensures pins[p].muxSetting == Some(st[k].id) ==> pins[p].muxUsecount >= Occurs(st[k].group, p)
      ensures DisabledPins(pins, st[k])[p] == Stage(base[p], st, p, owner, k + 1)
    {
      if OccursIn(st[k], p) > 0 {
        CarrierIsLast(st, k, p);
      }
      var i := Carrier(st, p);
      if i >= 0 {
        CarrierIsLast(st, i, p);
        assert i < k ==> st[i].id != st[k].id;
        assert i > k ==> st[k].id != st[i].id;
      }
    }
  }

  lemma {:induction false} DisableStateEffect(
      e: Env, base: map<Pin, PinDesc>, c: Controller, st: State, owner: Name, k: nat)
    requires k <= |st| && DistinctIds(st)
    requires c.pins == StagePins(base, st, owner, k)
    ensures DisableState(e, c, st, k).pins == StagePins(base, st, owner, |st|)
    decreases |st| - k
  {
    if k < |st| {
      if st[k].Mux? {
        StageStep(base, st, owner, k);
        DisableEffect(e, c, st[k]);
        DisableStateEffect(e, base, DisableSetting(e, c, st[k]), st, owner, k + 1);
      } else {
        forall p | p in base
          ensures Stage(base[p], st, p, owner, k) == Stage(base[p], st, p, owner, k + 1)
        {
          assert Carrier(st, p) != k;
        }
        DisableStateEffect(e, base, c, st, owner, k + 1);
      }
    }
  }

  /** Disabling an applied state lowers each pin by what its last setting claimed, and no more. */
  lemma DisableClaimed(e: Env, base: map<Pin, PinDesc>, c: Controller, st: State, owner: Name)
    requires DistinctIds(st) && c.pins == ClaimedPins(base, st, owner)
    ensures DisableState(e, c, st, 0).pins
            == map p | p in base :: Lowered(Claimed(base[p], st, p, owner), CarrierOcc(st, p))
  {
    forall p | p in base
      ensures Stage(base[p], st, p, owner, 0) == Claimed(base[p], st, p, owner)
    {
    }
    assert c.pins == StagePins(base, st, owner, 0);
    DisableStateEffect(e, base, c, st, owner, 0);
    forall p | p in base
      ensures Stage(base[p], st, p, owner, |st|) == Lowered(Claimed(base[p], st, p, owner), CarrierOcc(st, p))
    {
      assert Carrier(st, p) < |st|;
    }
  }

  /** For disjoint groups the last setting that names a pin is the only one. */
  lemma {:induction false} DisjointCarrier(st: State, p: Pin)
    requires Disjoint(st)
    ensures Occ(st, p) == CarrierOcc(st, p)
  {
    if st != [] {
      var k := |st| - 1;
      assert st == st[..k] + [st[k]];
      LastSetting(st[..k], st[k], p);
      DisjointCarrier(st[..k], p);
      if OccursIn(st[k], p) > 0 {
        DisjointPrefix(st, k, p);
      }
    }
  }

  /** Disabling a disjoint state restores `base` exactly. */
  lemma DisableRestores(e: Env, base: map<Pin, PinDesc>, c: Controller, st: State, owner: Name)
    requires AllWellKept(base) && FreeFor(base, st) && Disjoint(st) && DistinctIds(st)
    requires c.pins == ClaimedPins(base, st, owner)
    ensures DisableState(e, c, st, 0).pins == base
  {
    DisableClaimed(e, base, c, st, owner);
    forall p | p in base
      ensures Lowered(Claimed(base[p], st, p, owner), CarrierOcc(st, p)) == base[p]
    {
      DisjointCarrier(st, p);
      var i := Carrier(st, p);
      assert i >= 0 ==> base[p].muxUsecount == 0;
    }
  }

  // ---------------------------------------------------------------------------------------------
  // Applying and disabling: nothing leaks exactly when the groups are disjoint
  // ---------------------------------------------------------------------------------------------

  lemma {:induction false} EarlierSettingCounts(st: State, i: nat, p: Pin)
    requires i < Carrier(st, p) && OccursIn(st[i], p) > 0
    ensures Occ(st, p) > CarrierOcc(st, p)
  {
    var k := |st| - 1;
    assert st == st[..k] + [st[k]];
    LastSetting(st[..k], st[k], p);
    assert st[..k][i] == st[i];
    if Carrier(st, p) == k {
      CarrierIsLast(st[..k], i, p);
    } else {
      EarlierSettingCounts(st[..k], i, p);
    }
  }

  lemma DisjointIffCarrier(st: State)
    ensures Disjoint(st) <==> forall p: Pin :: Occ(st, p) == CarrierOcc(st, p)
  {
    if Disjoint(st) {
      forall p: Pin ensures Occ(st, p) == CarrierOcc(st, p) { DisjointCarrier(st, p); }
    } else {
      var i, j, p :| 0 <= i < j < |st| && OccursIn(st[i], p) > 0 && OccursIn(st[j], p) > 0;
      CarrierIsLast(st, j, p);
      EarlierSettingCounts(st, i, p);
      assert Occ(st, p) != CarrierOcc(st, p);
    }
  }

  /** A pin after its state was applied and disabled again. */
  lemma LeftOver(base: map<Pin, PinDesc>, st: State, owner: Name, p: Pin)
    requires p in base && AllWellKept(base) && FreeFor(base, st)
    ensures var d := Lowered(Claimed(base[p], st, p, owner), CarrierOcc(st, p));
            && d.muxUsecount == base[p].muxUsecount + Occ(st, p) - CarrierOcc(st, p)
            && (Occ(st, p) == CarrierOcc(st, p) ==> d == base[p])
  {
    var i := Carrier(st, p);
    if i >= 0 {
      CarrierIsLast(st, i, p);
      assert base[p].muxUsecount == 0;
    }
  }

  /**
   A device that applies a state and then lets it go leaves every pin it named with a use count of
   all its occurrences minus those in the last group naming it.  So every pin is as before if and
   only if the state's mux groups are pairwise disjoint.
   */
  lemma RoundTripLeavesNothingIffDisjoint(e: Env, c: Controller, st: State, owner: Name)
    requires AllWellKept(c.pins) && NotOwner(c.pins, owner) && NonPositive(e) && DistinctIds(st)
    requires Apply(e, c, st, owner, 0).status >= 0
    ensures var after := DisableState(e, Apply(e, c, st, owner, 0).c, st, 0).pins;
            && after.Keys == c.pins.Keys
            && (forall p <- c.pins ::
                  after[p].muxUsecount == c.pins[p].muxUsecount + Occ(st, p) - CarrierOcc(st, p))
            && (after == c.pins <==> Disjoint(st))
  {
    ApplyAllEffect(e, c.pins, c, st, owner);
    var a := Apply(e, c, st, owner, 0);
    assert st[..a.upto] == st;
    DisableClaimed(e, c.pins, a.c, st, owner);
    LeavesNothingIff(c.pins, DisableState(e, a.c, st, 0).pins, st, owner);
  }

  /** Two groups that share a free pin: the pin keeps a count of 1 and its owner after the state is dropped. */
  lemma OverlapLeaks(e: Env, c: Controller)
    requires e.rts && (forall t: nat :: e.live(t))
    requires c == Controller(map[7 := PinDesc(0, None, None, None)], 0, {}, 0)
    ensures var st: State := [Mux(1, [7]), Mux(2, [7])];
            var a := Apply(e, c, st, "uart", 0);
            && a.status == 0
            && DisableState(e, a.c, st, 0).pins[7].muxUsecount == 1
            && DisableState(e, a.c, st, 0).pins[7].muxOwner == Some("uart")
  {
    var s1, s2 := Mux(1, [7]), Mux(2, [7]);
    var st: State := [s1, s2];
    SharePin(e, c, s1);
    var c1 := ApplySetting(e, c, s1, "uart").c;
    SharePin(e, c1, s2);
    var c2 := ApplySetting(e, c1, s2, "uart").c;
    assert Apply(e, c2, st, "uart", 2) == Acquired(c2, 0, 2);
    assert Apply(e, c1, st, "uart", 1) == Acquired(c2, 0, 2);
    assert Apply(e, c, st, "uart", 0) == Acquired(c2, 0, 2);
    assert DisableFrom(e, c2, s1, 1) == c2 && DisableSetting(e, c2, s1) == c2;
    var c3 := PinFree(e, c2, 7, false);
    assert DisableFrom(e, c3, s2, 1) == c3 && DisableSetting(e, c2, s2) == c3;
    assert DisableState(e, c3, st, 2) == c3 && DisableState(e, c2, st, 1) == c3;
  }

  /** A device may enable any number of settings on a pin it has. */
  lemma SharePin(e: Env, c: Controller, s: Setting)
    requires e.rts && (forall t: nat :: e.live(t)) && s == Mux(s.id, [7])
    requires 7 in c.pins && c.pins[7].gpioOwner.None?
    requires if c.pins[7].muxUsecount > 0 then c.pins[7].muxOwner == Some("uart") else 7 !in c.mask
    ensures var r := ApplySetting(e, c, s, "uart");
            && r.status == 0 && 7 in r.c.pins
            && r.c.pins[7] == PinDesc(c.pins[7].muxUsecount + 1, Some("uart"), Some(s.id), None)
  {
    var q := PinRequest(e, c, 7, "uart", false);
    assert AcquireFrom(e, q.c, s.group, "uart", 1) == Acquired(q.c, 0, 1);
    assert AcquireFrom(e, c, s.group, "uart", 0) == Acquired(q.c, 0, 1);
  }

  lemma LeavesNothingIff(base: map<Pin, PinDesc>, after: map<Pin, PinDesc>, st: State, owner: Name)
    requires AllWellKept(base) && FreeFor(base, st)
    requires after == map p | p in base :: Lowered(Claimed(base[p], st, p, owner), CarrierOcc(st, p))
    ensures forall p <- base :: after[p].muxUsecount == base[p].muxUsecount + Occ(st, p) - CarrierOcc(st, p)
    ensures after == base <==> Disjoint(st)
  {
    forall p | p in base
      ensures after[p].muxUsecount == base[p].muxUsecount + Occ(st, p) - CarrierOcc(st, p)
      ensures Occ(st, p) == CarrierOcc(st, p) ==> after[p] == base[p]
    {
      LeftOver(base, st, owner, p);
    }
    DisjointIffCarrier(st);
    if !Disjoint(st) {
      var p: Pin :| Occ(st, p) != CarrierOcc(st, p);
      assert Carrier(st, p) >= 0;
      assert p in base && after[p].muxUsecount != base[p].muxUsecount;
    }
  }

  // ---------------------------------------------------------------------------------------------
  // Committing a state
  // ---------------------------------------------------------------------------------------------

  ghost predicate GoodStates(states: seq<State>) {
    forall st <- states :: Disjoint(st) && DistinctIds(st)
  }

  /** `pins` are `base` with exactly the current state (if any) claimed for `owner`. */
  ghost predicate Holds(
      pins: map<Pin, PinDesc>, base: map<Pin, PinDesc>, states: seq<State>, cur: Option<nat>, owner: Name)
    requires ValidIndex(states, cur)
  {
    match cur
    case None => pins == base
    case Some(i) =>
      FreeFor(base, states[i]) && AllApplicable(states[i]) && pins == ClaimedPins(base, states[i], owner)
  }

  lemma PrefixGood(st: State, k: nat)
    requires k <= |st| && Disjoint(st) && DistinctIds(st)
    ensures Disjoint(st[..k]) && DistinctIds(st[..k])
  {
    forall i, j, p: Pin | 0 <= i < j < k
      ensures OccursIn(st[..k][i], p) == 0 || OccursIn(st[..k][j], p) == 0
    {
      assert st[..k][i] == st[i] && st[..k][j] == st[j];
    }
  }

  /** Applying from nothing: either the whole state is claimed, or undoing the part applied restores `base`. */
  lemma ApplyOrUndo(e: Env, base: map<Pin, PinDesc>, c: Controller, st: State, owner: Name)
    requires AllWellKept(base) && NotOwner(base, owner) && NonPositive(e)
    requires Disjoint(st) && DistinctIds(st) && c.pins == base
    ensures var a := Apply(e, c, st, owner, 0);
            if a.status >= 0
            then FreeFor(base, st) && AllApplicable(st) && a.c.pins == ClaimedPins(base, st, owner)
            else DisableState(e, a.c, st[..a.upto], 0).pins == base
  {
    ApplyAllEffect(e, base, c, st, owner);
    var a := Apply(e, c, st, owner, 0);
    assert st[..|st|] == st;
    if a.status < 0 {
      PrefixGood(st, a.upto);
      DisableRestores(e, base, a.c, st[..a.upto], owner);
    }
  }

  /**
   Whatever fails on the way, the handle ends up holding exactly one complete state or none: the new
   one on success, and on failure the old one or (when re-selecting that fails too) none.  The
   recursion is at most two deep.
   */
  lemma {:induction false} CommitEffect(
      e: Env, base: map<Pin, PinDesc>, c: Controller, states: seq<State>, owner: Name, cur: Option<nat>, next: nat)
    requires next < |states| && ValidIndex(states, cur) && GoodStates(states)
    requires AllWellKept(base) && NotOwner(base, owner) && NonPositive(e)
    requires Holds(c.pins, base, states, cur, owner)
    ensures var r := CommitState(e, c, states, owner, cur, next);
            && ValidIndex(states, r.cur)
            && Holds(r.c.pins, base, states, r.cur, owner)
            && r.ret <= 0
            && (if r.ret == 0 then r.cur == Some(next) else r.cur == cur || r.cur == None)
            && r.depth <= (if cur.Some? then 2 else 1)
    decreases cur.Some?
  {
    var c1 := if cur.Some? then DisableState(e, c, states[cur.value], 0) else c;
    if cur.Some? {
      DisableRestores(e, base, c, states[cur.value], owner);
    }
    ApplyOrUndo(e, base, c1, states[next], owner);
    var a := Apply(e, c1, states[next], owner, 0);
    if a.status < 0 && cur.Some? {
      var c2 := DisableState(e, a.c, states[next][..a.upto], 0);
      CommitEffect(e, base, c2, states, owner, None, cur.value);
    }
  }
}
