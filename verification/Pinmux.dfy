/**
 Pin ownership: the per-pin ledger of `pin_request`, `pin_free`, `pinmux_enable_setting` and
 `pinmux_disable_setting`.  Everything here is a function on a `Controller` value; the class
 `Device` in PinctrlDev.dfy carries the same steps out in place and is proved to match.

 What the driver and the module loader answer is not fixed: `Env` is an arbitrary oracle indexed
 by a running call number, so every statement holds for every sequence of successes and failures.
 */
module Pinmux {
  import opened Wrappers
  import Rts3917

  type Pin = nat
  type Name = string

  /** The mux-related fields of `struct pin_desc`; `muxSetting` stands for the setting's address. */
  datatype PinDesc = PinDesc(
    muxUsecount: nat,
    muxOwner: Option<Name>,
    muxSetting: Option<nat>,
    gpioOwner: Option<Name>)

  /** Registered pins, module references taken by this controller's pins, and the rts3917 `pinsmask`. */
  datatype Controller = Controller(pins: map<Pin, PinDesc>, refs: int, mask: set<Pin>, tick: nat)

  /**
   `rts` selects the rts3917 callbacks (`pinsmask`, and a `set_mux` that always returns 0).  Otherwise
   the driver answers as the oracles say.  `live(t)` is the answer of `try_module_get` at call `t`.
   */
  datatype Env = Env(
    strict: bool,
    rts: bool,
    live: nat -> bool,
    request: nat -> int,
    setMux: (nat, nat) -> int,
    config: (nat, nat) -> int)

  datatype Setting =
    | Mux(id: nat, group: seq<Pin>)
    | Configs(id: nat)
    | Invalid(id: nat)

  datatype Outcome = Outcome(c: Controller, status: int)

  // ---------------------------------------------------------------------------------------------
  // Driver callbacks
  // ---------------------------------------------------------------------------------------------

  function DriverRequest(e: Env, c: Controller, pin: Pin): Outcome {
    if e.rts then
      var (mask, status) := Rts3917.Request(c.mask, pin);
      Outcome(c.(mask := mask, tick := c.tick + 1), status)
    else
      Outcome(c.(tick := c.tick + 1), e.request(c.tick))
  }

  function DriverFree(e: Env, c: Controller, pin: Pin): Controller {
    if e.rts then c.(mask := Rts3917.Free(c.mask, pin).0) else c
  }

  function DriverSetMux(e: Env, c: Controller, id: nat): Outcome {
    Outcome(c.(tick := c.tick + 1), if e.rts then 0 else e.setMux(c.tick, id))
  }

  // ---------------------------------------------------------------------------------------------
  // pin_request and pin_free
  // ---------------------------------------------------------------------------------------------

  function Claim(d: PinDesc, owner: Name, gpio: bool): PinDesc {
    if gpio then d.(gpioOwner := Some(owner))
    else d.(muxUsecount := d.muxUsecount + 1, muxOwner := if d.muxUsecount == 0 then Some(owner) else d.muxOwner)
  }

  /** The `out_free_pin` path of `pin_request`. */
  function Unclaim(d: PinDesc, gpio: bool): PinDesc {
    if gpio then d.(gpioOwner := None)
    else if d.muxUsecount <= 1 then d.(muxUsecount := 0, muxOwner := None)
    else d.(muxUsecount := d.muxUsecount - 1)
  }

  predicate Refused(e: Env, d: PinDesc, owner: Name, gpio: bool) {
    || ((!gpio || e.strict) && d.muxUsecount > 0 && d.muxOwner != Some(owner))
    || ((gpio || e.strict) && d.gpioOwner.Some?)
  }

  function PinRequest(e: Env, c: Controller, pin: Pin, owner: Name, gpio: bool): Outcome {
    if pin !in c.pins || Refused(e, c.pins[pin], owner, gpio) then
      Outcome(c, -EINVAL)
    else
      var d := c.pins[pin];
      var c1 := c.(pins := c.pins[pin := Claim(d, owner, gpio)]);
      if !gpio && d.muxUsecount > 0 then
        Outcome(c1, 0)
      else if !e.live(c.tick) then
        Outcome(c.(pins := c.pins[pin := Unclaim(Claim(d, owner, gpio), gpio)], tick := c.tick + 1), -EINVAL)
      else
        var r := DriverRequest(e, c1.(refs := c.refs + 1, tick := c.tick + 1), pin);
        if r.status == 0 then r
        else Outcome(r.c.(refs := r.c.refs - 1, pins := r.c.pins[pin := Unclaim(r.c.pins[pin], gpio)]), r.status)
  }

  function PinFree(e: Env, c: Controller, pin: Pin, gpio: bool): Controller {
    if pin !in c.pins then c
    else
      var d := c.pins[pin];
      if !gpio && d.muxUsecount == 0 then c
      else if !gpio && d.muxUsecount > 1 then
        c.(pins := c.pins[pin := d.(muxUsecount := d.muxUsecount - 1)])
      else
        var c1 := DriverFree(e, c, pin);
        var d1 := if gpio then d.(gpioOwner := None)
                  else d.(muxUsecount := 0, muxOwner := None, muxSetting := None);
        c1.(pins := c.pins[pin := d1], refs := c.refs - 1)
  }

  // ---------------------------------------------------------------------------------------------
  // pinmux_enable_setting and pinmux_disable_setting
  // ---------------------------------------------------------------------------------------------

  datatype Acquired = Acquired(c: Controller, status: int, upto: nat)

  /** Requests `group[i..]` one by one; on failure `upto` is the index that failed. */
  function AcquireFrom(e: Env, c: Controller, group: seq<Pin>, owner: Name, i: nat): (r: Acquired)
    requires i <= |group|
    ensures i <= r.upto <= |group|
    ensures r.status == 0 ==> r.upto == |group|
    decreases |group| - i
  {
    if i == |group| then Acquired(c, 0, i)
    else
      var r := PinRequest(e, c, group[i], owner, false);
      if r.status != 0 then Acquired(r.c, r.status, i)
      else AcquireFrom(e, r.c, group, owner, i + 1)
  }

  /** Frees `group[..i]` from the last one back. */
  function ReleaseDown(e: Env, c: Controller, group: seq<Pin>, i: nat): Controller
    requires i <= |group|
    decreases i
  {
    if i == 0 then c else ReleaseDown(e, PinFree(e, c, group[i - 1], false), group, i - 1)
  }

  /** `mux_setting` written on every registered pin of the group. */
  function Mark(c: Controller, group: seq<Pin>, setting: Option<nat>): Controller {
    c.(pins := map p | p in c.pins :: if p in group then c.pins[p].(muxSetting := setting) else c.pins[p])
  }

  function EnableSetting(e: Env, c: Controller, s: Setting, owner: Name): Outcome
    requires s.Mux?
  {
    var a := AcquireFrom(e, c, s.group, owner, 0);
    if a.status != 0 then
      Outcome(ReleaseDown(e, a.c, s.group, a.upto), a.status)
    else
      var r := DriverSetMux(e, Mark(a.c, s.group, Some(s.id)), s.id);
      if r.status == 0 then r
      else Outcome(ReleaseDown(e, Mark(r.c, s.group, None), s.group, |s.group|), r.status)
  }

  /** Frees the pins of `s.group[i..]` that still carry this setting. */
  function DisableFrom(e: Env, c: Controller, s: Setting, i: nat): Controller
    requires s.Mux? && i <= |s.group|
    decreases |s.group| - i
  {
    if i == |s.group| then c
    else
      var p := s.group[i];
      var c1 := if p in c.pins && c.pins[p].muxSetting == Some(s.id) then PinFree(e, c, p, false) else c;
      DisableFrom(e, c1, s, i + 1)
  }

  function DisableSetting(e: Env, c: Controller, s: Setting): Controller
    requires s.Mux?
  {
    DisableFrom(e, c, s, 0)
  }

  // ---------------------------------------------------------------------------------------------
  // What a group of requests or frees does to the ledger, pin by pin
  // ---------------------------------------------------------------------------------------------

  /** An unclaimed pin has neither owner nor setting, and a claimed one has an owner. */
  predicate WellKept(d: PinDesc) {
    && (d.muxUsecount == 0 <==> d.muxOwner.None?)
    && (d.muxUsecount == 0 ==> d.muxSetting.None?)
  }

  predicate AllWellKept(pins: map<Pin, PinDesc>) {
    forall p <- pins :: WellKept(pins[p])
  }

  /** How often a pin occurs in a group. */
  function Occurs(group: seq<Pin>, p: Pin): nat {
    multiset(group)[p]
  }

  lemma OccursLast(prefix: seq<Pin>, p: Pin, q: Pin)
    ensures Occurs(prefix + [p], q) == Occurs(prefix, q) + if p == q then 1 else 0
  {
  }

  function Raised(d: PinDesc, n: nat, owner: Name): PinDesc {
    if n == 0 then d else d.(muxUsecount := d.muxUsecount + n, muxOwner := Some(owner))
  }

  /** `pins` after every pin of the group was requested for `owner`. */
  function RaisedPins(pins: map<Pin, PinDesc>, group: seq<Pin>, owner: Name): map<Pin, PinDesc> {
    map p | p in pins :: Raised(pins[p], Occurs(group, p), owner)
  }

  /** Every pin of the group is registered and not claimed by another owner. */
  predicate Available(pins: map<Pin, PinDesc>, group: seq<Pin>, owner: Name) {
    forall p <- group :: p in pins && (pins[p].muxUsecount > 0 ==> pins[p].muxOwner == Some(owner))
  }

  lemma RequestEffect(e: Env, c: Controller, pin: Pin, owner: Name)
    requires AllWellKept(c.pins)
    ensures var r := PinRequest(e, c, pin, owner, false);
            && (r.status != 0 ==> r.c.pins == c.pins)
            && (r.status == 0 ==>
                  && pin in c.pins
                  && (c.pins[pin].muxUsecount > 0 ==> c.pins[pin].muxOwner == Some(owner))
                  && r.c.pins == c.pins[pin := Raised(c.pins[pin], 1, owner)])
  {
    var r := PinRequest(e, c, pin, owner, false);
    if pin in c.pins {
      var d := c.pins[pin];
      if d.muxUsecount == 0 {
        assert Unclaim(Claim(d, owner, false), false) == d;
        assert c.pins[pin := d] == c.pins;
        assert c.pins[pin := Claim(d, owner, false)][pin := d] == c.pins;
      }
    }
  }

  /** What the driver answers when the pin is requested from it at once. */
  ghost function DriverAnswer(e: Env, c: Controller, pin: Pin): int {
    if !e.rts then e.request(c.tick + 1)
    else if pin > Rts3917.MAX_OFFSET then -EINVAL
    else if pin in c.mask then -EBUSY
    else 0
  }

  /** Nobody stands in the way of the request as far as the core can see. */
  ghost predicate CoreAllows(e: Env, d: PinDesc, owner: Name, gpio: bool) {
    var otherMux := d.muxUsecount > 0 && d.muxOwner != Some(owner);
    if e.strict then !otherMux && d.gpioOwner.None?
    else if gpio then d.gpioOwner.None?
    else !otherMux
  }

  /**
   Exactly when a request is granted, and what it then leaves: a GPIO gets the pin and nothing else changes; a mux
   owner is counted once more, and only its first claim asks the driver and takes a module reference.
   */
  lemma RequestGrantedIff(e: Env, c: Controller, pin: Pin, owner: Name, gpio: bool)
    requires AllWellKept(c.pins)
    ensures var r := PinRequest(e, c, pin, owner, gpio);
            var d := if pin in c.pins then c.pins[pin] else PinDesc(0, None, None, None);
            var first := gpio || d.muxUsecount == 0;
            && (r.status == 0 <==>
                  && pin in c.pins && CoreAllows(e, d, owner, gpio)
                  && (first ==> e.live(c.tick) && DriverAnswer(e, c, pin) == 0))
            && (r.status == 0 ==>
                  && r.c.pins == c.pins[pin :=
                       if gpio then PinDesc(d.muxUsecount, d.muxOwner, d.muxSetting, Some(owner))
                       else PinDesc(d.muxUsecount + 1, Some(owner), d.muxSetting, d.gpioOwner)]
                  && r.c.refs == c.refs + (if first then 1 else 0)
                  && r.c.mask == if first && e.rts then c.mask + {pin} else c.mask)
            && (r.status != 0 ==>
                  && r.c == c.(tick := r.c.tick)
                  && r.status == if pin in c.pins && CoreAllows(e, d, owner, gpio) && e.live(c.tick)
                                 then DriverAnswer(e, c, pin) else -EINVAL)
  {
    var r := PinRequest(e, c, pin, owner, gpio);
    if pin in c.pins && !Refused(e, c.pins[pin], owner, gpio) {
      var d := c.pins[pin];
      if gpio || d.muxUsecount == 0 {
        assert WellKept(d) && Unclaim(Claim(d, owner, gpio), gpio) == d;
        assert c.pins[pin := d] == c.pins;
        assert c.pins[pin := Claim(d, owner, gpio)][pin := d] == c.pins;
      }
    }
  }

  /** Freeing a pin takes a granted request back, whoever asked for it. */
  lemma FreeTakesBack(e: Env, c: Controller, pin: Pin, owner: Name, gpio: bool)
    requires AllWellKept(c.pins) && PinRequest(e, c, pin, owner, gpio).status == 0
    requires e.rts ==> pin !in c.mask || (!gpio && pin in c.pins && c.pins[pin].muxUsecount > 0)
    ensures var r := PinRequest(e, c, pin, owner, gpio).c;
            PinFree(e, r, pin, gpio) == c.(tick := r.tick)
  {
    RequestGrantedIff(e, c, pin, owner, gpio);
    var r := PinRequest(e, c, pin, owner, gpio).c;
    var d := c.pins[pin];
    assert WellKept(d);
    assert c.pins[pin := r.pins[pin]][pin := d] == c.pins;
    assert pin !in c.mask ==> c.mask + {pin} - {pin} == c.mask;
  }

  /** One more request on a raised prefix raises the longer prefix. */
  lemma RaiseLast(base: map<Pin, PinDesc>, prefix: seq<Pin>, p: Pin, owner: Name)
    requires p in base && (base[p].muxUsecount > 0 ==> base[p].muxOwner == Some(owner))
    ensures var raised := RaisedPins(base, prefix, owner);
            raised[p := Raised(raised[p], 1, owner)] == RaisedPins(base, prefix + [p], owner)
  {
    forall q | q in base
      ensures Occurs(prefix + [p], q) == Occurs(prefix, q) + if p == q then 1 else 0
    {
      OccursLast(prefix, p, q);
    }
  }

  /** Acquiring from `i`, given what the first `i` requests did to `base`: all or a prefix is raised. */
  lemma {:induction false} AcquireEffect(
      e: Env, base: map<Pin, PinDesc>, c: Controller, group: seq<Pin>, owner: Name, i: nat)
    requires i <= |group| && AllWellKept(base)
    requires Available(base, group[..i], owner)
    requires c.pins == RaisedPins(base, group[..i], owner)
    ensures var r := AcquireFrom(e, c, group, owner, i);
            && Available(base, group[..r.upto], owner)
            && r.c.pins == RaisedPins(base, group[..r.upto], owner)
    decreases |group| - i
  {
    if i < |group| {
      RequestEffect(e, c, group[i], owner);
      var r := PinRequest(e, c, group[i], owner, false);
      if r.status == 0 {
        assert group[..i + 1] == group[..i] + [group[i]];
        RaiseLast(base, group[..i], group[i], owner);
        AcquireEffect(e, base, r.c, group, owner, i + 1);
      }
    }
  }

  /** What happens at pin `i` of the group if every pin is requested in turn. */
  ghost function AskedAt(e: Env, c: Controller, group: seq<Pin>, owner: Name, i: nat): Outcome
    requires i < |group|
  {
    PinRequest(e, if i == 0 then c else AskedAt(e, c, group, owner, i - 1).c, group[i], owner, false)
  }

  ghost predicate AllGranted(e: Env, c: Controller, group: seq<Pin>, owner: Name, i: nat)
    requires i <= |group|
  {
    forall j: nat :: j < i ==> AskedAt(e, c, group, owner, j).status == 0
  }

  /** The acquire loop returns 0 if every pin is granted, and otherwise the answer to the first pin refused. */
  lemma {:induction false} AcquireReturns(e: Env, c: Controller, c': Controller, group: seq<Pin>, owner: Name, i: nat)
    requires i <= |group| && AllGranted(e, c, group, owner, i)
    requires c' == if i == 0 then c else AskedAt(e, c, group, owner, i - 1).c
    ensures var a := AcquireFrom(e, c', group, owner, i);
            && AllGranted(e, c, group, owner, a.upto)
            && (a.status != 0 ==> a.upto < |group| && a.status == AskedAt(e, c, group, owner, a.upto).status)
    decreases |group| - i
  {
    if i < |group| {
      var r := AskedAt(e, c, group, owner, i);
      assert r == PinRequest(e, c', group[i], owner, false);
      if r.status == 0 {
        AcquireReturns(e, c, r.c, group, owner, i + 1);
      }
    }
  }

  /** Freeing a pin takes back one request. */
  lemma FreeRaised(d: PinDesc, n: nat, owner: Name)
    requires n > 0 && WellKept(d) && (d.muxUsecount > 0 ==> d.muxOwner == Some(owner))
    ensures var raised := Raised(d, n, owner);
            Raised(d, n - 1, owner)
            == if raised.muxUsecount > 1 then raised.(muxUsecount := raised.muxUsecount - 1)
               else raised.(muxUsecount := 0, muxOwner := None, muxSetting := None)
  {
  }

  /** Freeing the last pin of a raised prefix leaves the shorter prefix raised. */
  lemma FreeLast(e: Env, base: map<Pin, PinDesc>, c: Controller, prefix: seq<Pin>, p: Pin, owner: Name)
    requires AllWellKept(base) && Available(base, prefix + [p], owner)
    requires c.pins == RaisedPins(base, prefix + [p], owner)
    ensures PinFree(e, c, p, false).pins == RaisedPins(base, prefix, owner)
  {
    assert p in prefix + [p];
    OccursLast(prefix, p, p);
    FreeRaised(base[p], Occurs(prefix + [p], p), owner);
    assert PinFree(e, c, p, false).pins == c.pins[p := Raised(base[p], Occurs(prefix, p), owner)];
    forall q | q in base && q != p
      ensures c.pins[q] == Raised(base[q], Occurs(prefix, q), owner)
    {
      OccursLast(prefix, p, q);
    }
  }

  /** Releasing undoes acquiring exactly: no pin keeps a trace of the attempt. */
  lemma {:induction false} ReleaseEffect(
      e: Env, base: map<Pin, PinDesc>, c: Controller, group: seq<Pin>, owner: Name, i: nat)
    requires i <= |group| && AllWellKept(base)
    requires Available(base, group[..i], owner)
    requires c.pins == RaisedPins(base, group[..i], owner)
    ensures ReleaseDown(e, c, group, i).pins == base
    decreases i
  {
    if i == 0 {
      assert c.pins == base;
    } else {
      var p := group[i - 1];
      assert group[..i] == group[..i - 1] + [p];
      FreeLast(e, base, c, group[..i - 1], p, owner);
      ReleaseEffect(e, base, PinFree(e, c, p, false), group, owner, i - 1);
    }
  }

  /** `pins` after the setting was enabled: counts raised and the setting recorded. */
  function EnabledPins(pins: map<Pin, PinDesc>, s: Setting, owner: Name): map<Pin, PinDesc>
    requires s.Mux?
  {
    map p | p in pins ::
      if p in s.group then Raised(pins[p], Occurs(s.group, p), owner).(muxSetting := Some(s.id)) else pins[p]
  }

  /** No registered pin of the group belongs to `owner`. */
  predicate Untouched(pins: map<Pin, PinDesc>, group: seq<Pin>, owner: Name) {
    forall p <- group :: p in pins ==> pins[p].muxOwner != Some(owner)
  }

  lemma MarkRaised(c: Controller, base: map<Pin, PinDesc>, s: Setting, owner: Name)
    requires s.Mux? && c.pins == RaisedPins(base, s.group, owner)
    ensures Mark(c, s.group, Some(s.id)).pins == EnabledPins(base, s, owner)
  {
    assert forall p :: p in s.group <==> Occurs(s.group, p) > 0;
  }

  lemma UnmarkEnabled(c: Controller, base: map<Pin, PinDesc>, s: Setting, owner: Name)
    requires s.Mux? && AllWellKept(base) && c.pins == EnabledPins(base, s, owner)
    requires Available(base, s.group, owner) && Untouched(base, s.group, owner)
    ensures Mark(c, s.group, None).pins == RaisedPins(base, s.group, owner)
  {
    assert forall p :: p in s.group <==> Occurs(s.group, p) > 0;
  }

  /** Enabling a setting raises exactly its own pins; a failed attempt leaves every pin as it was,
      provided the owner held none of them before. */
  lemma EnableEffect(e: Env, c: Controller, s: Setting, owner: Name)
    requires s.Mux? && AllWellKept(c.pins)
    ensures var r := EnableSetting(e, c, s, owner);
            if r.status == 0
            then Available(c.pins, s.group, owner) && r.c.pins == EnabledPins(c.pins, s, owner)
            else Untouched(c.pins, s.group, owner) ==> r.c.pins == c.pins
  {
    var g := s.group;
    assert c.pins == RaisedPins(c.pins, g[..0], owner);
    AcquireEffect(e, c.pins, c, g, owner, 0);
    var a := AcquireFrom(e, c, g, owner, 0);
    if a.status != 0 {
      ReleaseEffect(e, c.pins, a.c, g, owner, a.upto);
    } else {
      assert g[..|g|] == g;
      MarkRaised(a.c, c.pins, s, owner);
      var r := DriverSetMux(e, Mark(a.c, g, Some(s.id)), s.id);
      if r.status != 0 && Untouched(c.pins, g, owner) {
        UnmarkEnabled(r.c, c.pins, s, owner);
        ReleaseEffect(e, c.pins, Mark(r.c, g, None), g, owner, |g|);
      }
    }
  }

  function Lowered(d: PinDesc, n: nat): PinDesc {
    if n == 0 then d
    else if d.muxUsecount <= n then d.(muxUsecount := 0, muxOwner := None, muxSetting := None)
    else d.(muxUsecount := d.muxUsecount - n)
  }

  /** `pins` after the setting was disabled: only pins that still carry this setting are lowered. */
  function DisabledPins(pins: map<Pin, PinDesc>, s: Setting): map<Pin, PinDesc>
    requires s.Mux?
  {
    map p | p in pins ::
      if pins[p].muxSetting == Some(s.id) then Lowered(pins[p], Occurs(s.group, p)) else pins[p]
  }

  /** Freeing one more occurrence of a pin that still carries the setting lowers the longer prefix. */
  lemma DisableLast(e: Env, base: map<Pin, PinDesc>, c: Controller, id: nat, prefix: seq<Pin>, p: Pin)
    requires p in base && base[p].muxSetting == Some(id) ==> base[p].muxUsecount >= Occurs(prefix + [p], p)
    requires c.pins == DisabledPins(base, Mux(id, prefix))
    ensures (if p in c.pins && c.pins[p].muxSetting == Some(id) then PinFree(e, c, p, false) else c).pins
            == DisabledPins(base, Mux(id, prefix + [p]))
  {
    var c1 := if p in c.pins && c.pins[p].muxSetting == Some(id) then PinFree(e, c, p, false) else c;
    forall q | q in base
      ensures c1.pins[q] == DisabledPins(base, Mux(id, prefix + [p]))[q]
    {
      OccursLast(prefix, p, q);
    }
  }

  lemma {:induction false} DisableFromEffect(
      e: Env, base: map<Pin, PinDesc>, c: Controller, s: Setting, i: nat)
    requires s.Mux? && i <= |s.group|
    requires forall p <- base :: base[p].muxSetting == Some(s.id) ==> base[p].muxUsecount >= Occurs(s.group, p)
    requires c.pins == DisabledPins(base, Mux(s.id, s.group[..i]))
    ensures DisableFrom(e, c, s, i).pins == DisabledPins(base, s)
    decreases |s.group| - i
  {
    if i == |s.group| {
      assert s.group[..i] == s.group;
    } else {
      var p := s.group[i];
      assert s.group[..i + 1] == s.group[..i] + [p];
      OccursMonotone(s.group, i + 1);
      DisableLast(e, base, c, s.id, s.group[..i], p);
      var c1 := if p in c.pins && c.pins[p].muxSetting == Some(s.id) then PinFree(e, c, p, false) else c;
      DisableFromEffect(e, base, c1, s, i + 1);
    }
  }

  lemma OccursMonotone(group: seq<Pin>, i: nat)
    requires i <= |group|
    ensures forall p :: Occurs(group[..i], p) <= Occurs(group, p)
  {
    assert group == group[..i] + group[i..];
  }

  lemma DisableEffect(e: Env, c: Controller, s: Setting)
    requires s.Mux?
    requires forall p <- c.pins ::
      c.pins[p].muxSetting == Some(s.id) ==> c.pins[p].muxUsecount >= Occurs(s.group, p)
    ensures DisableSetting(e, c, s).pins == DisabledPins(c.pins, s)
  {
    assert c.pins == DisabledPins(c.pins, Mux(s.id, s.group[..0]));
    DisableFromEffect(e, c.pins, c, s, 0);
  }
}
