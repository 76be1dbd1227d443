/**
 The pin controller and the pinctrl handle as the kernel keeps them: pin records and the current state
 are overwritten in place.  Every method is proved to do what its namesake in Pinmux and PinctrlCore says.
 */
module PinctrlDev {
  import opened Wrappers
  import opened Pinmux
  import PinctrlCore
  import PinctrlSystem
  import Rts3917

  class Device {
    const env: Env
    const drv: Rts3917.RtsPinctrl
    var pins: map<Pin, PinDesc>
    var refs: int
    var tick: nat

    ghost predicate Valid() {
      drv.Valid()
    }

    ghost function View(): Controller
      requires Valid()
      reads this, drv.pinsmask
    {
      Controller(pins, refs, drv.Bits(), tick)
    }

    constructor (env: Env, registered: set<Pin>)
      ensures Valid() && fresh(drv.pinsmask) && this.env == env
      ensures View().pins.Keys == registered
      ensures PinctrlSystem.Initial(PinctrlSystem.System(View(), map[]))
    {
      this.env := env;
      drv := new Rts3917.RtsPinctrl();
      pins := map p | p in registered :: PinDesc(0, None, None, None);
      refs, tick := 0, 0;
    }

    method DriverRequest(pin: Pin) returns (status: int)
      requires Valid()
      modifies this`tick, drv.pinsmask
      ensures Outcome(View(), status) == Pinmux.DriverRequest(env, old(View()), pin)
    {
      if env.rts {
        status := drv.PmxRequest(pin);
      } else {
        status := env.request(tick);
      }
      tick := tick + 1;
    }

    method RequestPin(pin: Pin, owner: Name, gpio: bool) returns (status: int)
      requires Valid()
      modifies this, drv.pinsmask
      ensures Outcome(View(), status) == PinRequest(env, old(View()), pin, owner, gpio)
    {
      if pin !in pins {
        return -EINVAL;
      }
      var d := pins[pin];
      if (!gpio || env.strict) && d.muxUsecount > 0 && d.muxOwner != Some(owner) {
        return -EINVAL;
      }
      if (gpio || env.strict) && d.gpioOwner.Some? {
        return -EINVAL;
      }
      pins := pins[pin := Claim(d, owner, gpio)];
      if !gpio && d.muxUsecount > 0 {
        return 0;
      }
      var alive := env.live(tick);
      tick := tick + 1;
      if !alive {
        status := -EINVAL;
      } else {
        refs := refs + 1;
        status := DriverRequest(pin);
        if status != 0 {
          refs := refs - 1;
        }
      }
      if status != 0 {
        pins := pins[pin := Unclaim(pins[pin], gpio)];
        assert pins == old(pins)[pin := Unclaim(Claim(d, owner, gpio), gpio)];
      }
    }

    method FreePin(pin: Pin, gpio: bool)
      requires Valid()
      modifies this, drv.pinsmask
      ensures View() == PinFree(env, old(View()), pin, gpio)
    {
      if pin !in pins {
        return;
      }
      var d := pins[pin];
      if !gpio {
        if d.muxUsecount == 0 {
          return;
        }
        d := d.(muxUsecount := d.muxUsecount - 1);
        pins := pins[pin := d];
        if d.muxUsecount > 0 {
          return;
        }
      }
      if env.rts {
        var _ := drv.PmxFree(pin);
      }
      if gpio {
        d := d.(gpioOwner := None);
      } else {
        d := d.(muxOwner := None, muxSetting := None);
      }
      pins := pins[pin := d];
      refs := refs - 1;
      assert pins == old(pins)[pin := d];
    }

    /** The loops that write `mux_setting` on every registered pin of a group. */
    method MarkGroup(group: seq<Pin>, setting: Option<nat>)
      requires Valid()
      modifies this`pins
      ensures View() == Mark(old(View()), group, setting)
    {
      for i := 0 to |group|
        invariant View() == Mark(old(View()), group[..i], setting)
      {
        if group[i] in pins {
          pins := pins[group[i] := pins[group[i]].(muxSetting := setting)];
        }
      }
      assert group[..|group|] == group;
    }

    method Release(group: seq<Pin>, count: nat)
      requires Valid() && count <= |group|
      modifies this, drv.pinsmask
      ensures View() == ReleaseDown(env, old(View()), group, count)
    {
      var i := count;
      while i > 0
        invariant 0 <= i <= count
        invariant ReleaseDown(env, View(), group, i) == ReleaseDown(env, old(View()), group, count)
      {
        i := i - 1;
        FreePin(group[i], false);
      }
    }

    method Enable(s: Setting, owner: Name) returns (ret: int)
      requires Valid() && s.Mux?
      modifies this, drv.pinsmask
      ensures Outcome(View(), ret) == EnableSetting(env, old(View()), s, owner)
    {
      var i := 0;
      while i < |s.group|
        invariant i <= |s.group|
        invariant AcquireFrom(env, View(), s.group, owner, i) == AcquireFrom(env, old(View()), s.group, owner, 0)
      {
        ret := RequestPin(s.group[i], owner, false);
        if ret != 0 {
          Release(s.group, i);
          return;
        }
        i := i + 1;
      }
      MarkGroup(s.group, Some(s.id));
      ret := if env.rts then 0 else env.setMux(tick, s.id);
      tick := tick + 1;
      if ret != 0 {
        MarkGroup(s.group, None);
        Release(s.group, i);
      }
    }

    method Disable(s: Setting)
      requires Valid() && s.Mux?
      modifies this, drv.pinsmask
      ensures View() == DisableSetting(env, old(View()), s)
    {
      for i := 0 to |s.group|
        invariant DisableFrom(env, View(), s, i) == DisableFrom(env, old(View()), s, 0)
      {
        if s.group[i] in pins && pins[s.group[i]].muxSetting == Some(s.id) {
          FreePin(s.group[i], false);
        }
      }
    }
  }

  /** `struct pinctrl`: the states of one device and which of them is selected. */
  class Pinctrl {
    const name: Name
    const states: seq<PinctrlCore.State>
    var state: Option<nat>

    constructor (name: Name, states: seq<PinctrlCore.State>)
      ensures this.name == name && this.states == states && state == None
    {
      this.name, this.states, state := name, states, None;
    }

    method DisableAll(dev: Device, st: PinctrlCore.State)
      requires dev.Valid()
      modifies dev, dev.drv.pinsmask
      ensures dev.View() == PinctrlCore.DisableState(dev.env, old(dev.View()), st, 0)
    {
      for k := 0 to |st|
        invariant PinctrlCore.DisableState(dev.env, dev.View(), st, k)
               == PinctrlCore.DisableState(dev.env, old(dev.View()), st, 0)
      {
        if st[k].Mux? {
          dev.Disable(st[k]);
        }
      }
    }

    method ApplyAll(dev: Device, st: PinctrlCore.State) returns (ret: int, upto: nat)
      requires dev.Valid()
      modifies dev, dev.drv.pinsmask
      ensures Acquired(dev.View(), ret, upto) == PinctrlCore.Apply(dev.env, old(dev.View()), st, name, 0)
    {
      upto := 0;
      while upto < |st|
        invariant upto <= |st|
        invariant PinctrlCore.Apply(dev.env, dev.View(), st, name, upto)
               == PinctrlCore.Apply(dev.env, old(dev.View()), st, name, 0)
      {
        match st[upto] {
          case Mux(_, _) =>
            ret := dev.Enable(st[upto], name);
          case Configs(id) =>
            ret := dev.env.config(dev.tick, id);
            dev.tick := dev.tick + 1;
          case Invalid(_) =>
            ret := -EINVAL;
        }
        if ret < 0 {
          return;
        }
        upto := upto + 1;
      }
      ret := 0;
    }

    method CommitState(dev: Device, next: nat) returns (ret: int, ghost depth: nat)
      requires dev.Valid() && next < |states| && PinctrlCore.ValidIndex(states, state)
      modifies this, dev, dev.drv.pinsmask
      ensures PinctrlCore.Committed(dev.View(), state, ret, depth)
           == PinctrlCore.CommitState(dev.env, old(dev.View()), states, name, old(state), next)
      decreases state.Some?, 0
    {
      var oldState := state;
      if state.Some? {
        DisableAll(dev, states[state.value]);
      }
      state := None;
      var upto;
      ret, upto := ApplyAll(dev, states[next]);
      if ret >= 0 {
        state := Some(next);
        return 0, 1;
      }
      DisableAll(dev, states[next][..upto]);
      depth := 1;
      if oldState.Some? {
        var _, nested := SelectState(dev, oldState.value);
        depth := nested + 1;
      }
    }

    method SelectState(dev: Device, next: nat) returns (ret: int, ghost depth: nat)
      requires dev.Valid() && next < |states| && PinctrlCore.ValidIndex(states, state)
      modifies this, dev, dev.drv.pinsmask
      ensures PinctrlCore.Committed(dev.View(), state, ret, depth)
           == PinctrlCore.SelectState(dev.env, old(dev.View()), states, name, old(state), next)
      decreases state.Some?, 1
    {
      if state == Some(next) {
        return 0, 0;
      }
      ret, depth := CommitState(dev, next);
    }

    /** `pinctrl_free`: every setting of every state is released, and disabled if its state is the current one. */
    method Free(dev: Device)
      requires dev.Valid() && PinctrlCore.ValidIndex(states, state)
      modifies dev, dev.drv.pinsmask
      ensures dev.View() == PinctrlSystem.Drop(dev.env, old(dev.View()), PinctrlSystem.Handle(states, state))
    {
      for i := 0 to |states|
        invariant dev.View() == if state.Some? && state.value < i
                                then PinctrlSystem.Drop(dev.env, old(dev.View()), PinctrlSystem.Handle(states, state))
                                else old(dev.View())
      {
        ghost var before := dev.View();
        for k := 0 to |states[i]|
          invariant state == Some(i) ==>
            PinctrlCore.DisableState(dev.env, dev.View(), states[i], k)
            == PinctrlCore.DisableState(dev.env, old(dev.View()), states[i], 0)
          invariant state != Some(i) ==> dev.View() == before
        {
          if states[i][k].Mux? && state == Some(i) {
            dev.Disable(states[i][k]);
          }
        }
      }
    }
  }
}
