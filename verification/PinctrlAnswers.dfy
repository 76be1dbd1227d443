/**
 The ledger under any driver at all, also one that answers with positive numbers.  Such an answer makes the core
 record a setting as applied that it does not hold.  The pins' side of the books balances all the same, over
 every run; what can be missing are whole settings of a selected state, and exactly the ones not accepted are.
 */
module PinctrlAnswers {
  import opened Wrappers
  import opened Pinmux
  import opened PinctrlCore
  import opened PinctrlSystem

  // ---------------------------------------------------------------------------------------------
  // States of which only a part is held
  // ---------------------------------------------------------------------------------------------

  /** `held` is the state with some mux settings blanked out. */
  ghost predicate PartOf(held: State, st: State) {
    && |held| == |st|
    && forall i :: 0 <= i < |st| ==>
         held[i] == st[i] || (st[i].Mux? && st[i].group != [] && held[i] == Configs(st[i].id))
  }

  lemma PartIsGood(held: State, st: State)
    requires PartOf(held, st) && Disjoint(st) && DistinctIds(st)
    ensures Disjoint(held) && DistinctIds(held)
  {
    forall i, j, p: Pin | 0 <= i < j < |held|
      ensures OccursIn(held[i], p) == 0 || OccursIn(held[j], p) == 0
    {
      assert OccursIn(st[i], p) == 0 || OccursIn(st[j], p) == 0;
    }
  }

  /** A pin that the held part names is claimed as in the whole state. */
  lemma PartCarrier(held: State, st: State, p: Pin)
    requires PartOf(held, st) && Disjoint(st) && DistinctIds(st) && Carrier(held, p) >= 0
    ensures Carrier(st, p) == Carrier(held, p) && Occ(st, p) == Occ(held, p)
    ensures held[Carrier(held, p)] == st[Carrier(held, p)]
  {
    var i := Carrier(held, p);
    CarrierIsLast(st, i, p);
    PartIsGood(held, st);
    DisjointCarrier(st, p);
    DisjointCarrier(held, p);
  }

  /** What is held of a setting that was applied. */
  ghost function Took(e: Env, c: Controller, s: Setting, owner: Name): Setting {
    if s.Mux? && s.group != [] && !Accepted(e, c, s, owner) then Configs(s.id) else s
  }

  /** What is held of `st[k..]` after applying it, up to where that stopped. */
  ghost function Taken(e: Env, c: Controller, st: State, owner: Name, k: nat): State
    requires k <= |st|
    decreases |st| - k
  {
    if k == |st| then []
    else
      var r := ApplySetting(e, c, st[k], owner);
      if r.status < 0 then [] else [Took(e, c, st[k], owner)] + Taken(e, r.c, st, owner, k + 1)
  }

  /** The driver accepts every mux setting of `st[k..]` that names a pin. */
  ghost predicate AllAccepted(e: Env, c: Controller, st: State, owner: Name, k: nat)
    requires k <= |st|
    decreases |st| - k
  {
    k < |st| ==>
      && (st[k].Mux? && st[k].group != [] ==> Accepted(e, c, st[k], owner))
      && AllAccepted(e, ApplySetting(e, c, st[k], owner).c, st, owner, k + 1)
  }

  lemma {:induction false} TakenWholeIffAccepted(e: Env, c: Controller, st: State, owner: Name, k: nat)
    requires k <= |st| && Apply(e, c, st, owner, k).status >= 0
    ensures Taken(e, c, st, owner, k) == st[k..] <==> AllAccepted(e, c, st, owner, k)
    decreases |st| - k
  {
    if k < |st| {
      var r := ApplySetting(e, c, st[k], owner);
      var head, rest := Took(e, c, st[k], owner), Taken(e, r.c, st, owner, k + 1);
      TakenWholeIffAccepted(e, r.c, st, owner, k + 1);
      assert st[k..] == [st[k]] + st[k + 1..];
      assert Taken(e, c, st, owner, k)[0] == head && Taken(e, c, st, owner, k)[1..] == rest;
      assert st[k..][0] == st[k] && st[k..][1..] == st[k + 1..];
    }
  }

  // ---------------------------------------------------------------------------------------------
  // Applying and dropping
  // ---------------------------------------------------------------------------------------------

  /** `pins` are `base` with the part `held` of the state claimed. */
  ghost predicate PartHeld(base: map<Pin, PinDesc>, pins: map<Pin, PinDesc>, held: State, st: State, owner: Name) {
    PartOf(held, st) && FreeFor(base, held) && AllApplicable(held) && pins == ClaimedPins(base, held, owner)
  }

  /** No setting before `k` has given the owner a pin of setting `k`. */
  lemma PartUntouched(base: map<Pin, PinDesc>, held: State, st: State, owner: Name, k: nat)
    requires k < |st| && st[k].Mux? && Disjoint(st) && NotOwner(base, owner) && PartOf(held, st[..k])
    ensures Untouched(ClaimedPins(base, held, owner), st[k].group, owner)
  {
    forall p | p in st[k].group
      ensures Carrier(held, p) < 0
    {
      assert OccursIn(st[k], p) > 0;
      var i := Carrier(held, p);
    }
  }

  lemma ApplyOne(e: Env, base: map<Pin, PinDesc>, c: Controller, held: State, st: State, owner: Name, k: nat)
    requires k < |st| && AllWellKept(base) && NotOwner(base, owner) && Disjoint(st)
    requires PartHeld(base, c.pins, held, st[..k], owner)
    ensures var r := ApplySetting(e, c, st[k], owner);
            if r.status < 0 then r.c.pins == c.pins
            else PartHeld(base, r.c.pins, held + [Took(e, c, st[k], owner)], st[..k + 1], owner)
  {
    var s, took := st[k], Took(e, c, st[k], owner);
    assert st[..k + 1] == st[..k] + [s];
    if s.Mux? {
      ClaimedWellKept(base, held, owner);
      PartUntouched(base, held, st, owner, k);
      EnableEffect(e, c, s, owner);
      if s.group != [] {
        ClaimedIffAccepted(e, c, s, owner);
      } else {
        assert EnabledPins(c.pins, s, owner) == c.pins;
      }
      if took.Mux? {
        ClaimOneMore(base, held, s, owner);
      } else {
        ClaimNothing(base, held, took, owner);
      }
    } else {
      ClaimNothing(base, held, s, owner);
    }
  }

  lemma {:induction false} ApplyPart(
      e: Env, base: map<Pin, PinDesc>, c: Controller, held: State, st: State, owner: Name, k: nat)
    requires k <= |st| && AllWellKept(base) && NotOwner(base, owner) && Disjoint(st)
    requires PartHeld(base, c.pins, held, st[..k], owner)
    ensures var r := Apply(e, c, st, owner, k);
            PartHeld(base, r.c.pins, held + Taken(e, c, st, owner, k), st[..r.upto], owner)
    decreases |st| - k
  {
    if k == |st| {
      assert held + [] == held;
    } else {
      ApplyOne(e, base, c, held, st, owner, k);
      var r := ApplySetting(e, c, st[k], owner);
      if r.status < 0 {
        assert held + [] == held;
      } else {
        var took, rest := Took(e, c, st[k], owner), Taken(e, r.c, st, owner, k + 1);
        ApplyPart(e, base, r.c, held + [took], st, owner, k + 1);
        assert held + ([took] + rest) == held + [took] + rest;
      }
    }
  }

  /** Applying from the start. */
  lemma ApplyFromNothing(e: Env, base: map<Pin, PinDesc>, c: Controller, st: State, owner: Name)
    requires AllWellKept(base) && NotOwner(base, owner) && Disjoint(st) && c.pins == base
    ensures var r := Apply(e, c, st, owner, 0);
            PartHeld(base, r.c.pins, Taken(e, c, st, owner, 0), st[..r.upto], owner)
  {
    assert st[..0] == [] && base == ClaimedPins(base, [], owner);
    ApplyPart(e, base, c, [], st, owner, 0);
    assert [] + Taken(e, c, st, owner, 0) == Taken(e, c, st, owner, 0);
  }

  /** No pin carries the setting. */
  ghost predicate Unmarked(pins: map<Pin, PinDesc>, id: nat) {
    forall p <- pins :: pins[p].muxSetting != Some(id)
  }

  lemma {:induction false} DisableUnmarked(e: Env, c: Controller, s: Setting, i: nat)
    requires s.Mux? && i <= |s.group| && Unmarked(c.pins, s.id)
    ensures DisableFrom(e, c, s, i) == c
    decreases |s.group| - i
  {
    if i < |s.group| {
      DisableUnmarked(e, c, s, i + 1);
    }
  }

  lemma {:induction false} DisableMarksNothing(e: Env, c: Controller, s: Setting, i: nat, id: nat)
    requires s.Mux? && i <= |s.group| && Unmarked(c.pins, id)
    ensures Unmarked(DisableFrom(e, c, s, i).pins, id)
    decreases |s.group| - i
  {
    if i < |s.group| {
      var p := s.group[i];
      var c1 := if p in c.pins && c.pins[p].muxSetting == Some(s.id) then PinFree(e, c, p, false) else c;
      DisableMarksNothing(e, c1, s, i + 1, id);
    }
  }

  /** Settings that are not held are passed over when the state is dropped. */
  lemma {:induction false} DropsOnlyHeld(e: Env, c: Controller, held: State, st: State, k: nat)
    requires PartOf(held, st) && k <= |st|
    requires forall i :: k <= i < |st| && held[i] != st[i] ==> Unmarked(c.pins, st[i].id)
    ensures DisableState(e, c, st, k) == DisableState(e, c, held, k)
    decreases |st| - k
  {
    if k < |st| {
      var c1 := if st[k].Mux? then DisableSetting(e, c, st[k]) else c;
      if held[k] != st[k] {
        DisableUnmarked(e, c, st[k], 0);
      }
      forall i | k + 1 <= i < |st| && held[i] != st[i]
        ensures Unmarked(c1.pins, st[i].id)
      {
        if st[k].Mux? {
          DisableMarksNothing(e, c, st[k], 0, st[i].id);
        }
      }
      DropsOnlyHeld(e, c1, held, st, k + 1);
    }
  }

  ghost predicate AllUnmarked(base: map<Pin, PinDesc>, st: State) {
    forall s <- st :: Unmarked(base, s.id)
  }

  /** Dropping a state of which a part is held gives back exactly that part. */
  lemma DropRestores(e: Env, base: map<Pin, PinDesc>, c: Controller, held: State, st: State, owner: Name)
    requires AllWellKept(base) && Disjoint(st) && DistinctIds(st) && AllUnmarked(base, st)
    requires PartHeld(base, c.pins, held, st, owner)
    ensures DisableState(e, c, st, 0).pins == base
  {
    forall i | 0 <= i < |st| && held[i] != st[i]
      ensures Unmarked(c.pins, st[i].id)
    {
      assert st[i] in st && Unmarked(base, st[i].id);
      forall p | p in base
        ensures Claimed(base[p], held, p, owner).muxSetting != Some(st[i].id)
      {
        var j := Carrier(held, p);
        if j >= 0 {
          assert j != i && held[j].id == st[j].id;
          assert j < i ==> st[j].id != st[i].id;
          assert i < j ==> st[i].id != st[j].id;
        }
      }
    }
    DropsOnlyHeld(e, c, held, st, 0);
    PartIsGood(held, st);
    DisableRestores(e, base, c, held, owner);
  }

  // ---------------------------------------------------------------------------------------------
  // Committing a state
  // ---------------------------------------------------------------------------------------------

  /** `pins` are `base` with the part `held` of the current state (if any) claimed for `owner`. */
  ghost predicate HoldsPart(
      pins: map<Pin, PinDesc>, base: map<Pin, PinDesc>, states: seq<State>, cur: Option<nat>, held: State, owner: Name)
    requires ValidIndex(states, cur)
  {
    match cur
    case None => pins == base
    case Some(i) => PartHeld(base, pins, held, states[i], owner)
  }

  datatype Attempt = Attempt(c: Controller, state: nat)

  /** The last apply loop that a commit runs: where it starts, and the state it applies. */
  ghost function LastAttempt(
      e: Env, c: Controller, states: seq<State>, owner: Name, cur: Option<nat>, next: nat): (r: Attempt)
    requires next < |states| && ValidIndex(states, cur)
    ensures r.state < |states|
  {
    var c1 := if cur.Some? then DisableState(e, c, states[cur.value], 0) else c;
    var a := Apply(e, c1, states[next], owner, 0);
    if a.status >= 0 || cur.None? then Attempt(c1, next)
    else Attempt(DisableState(e, a.c, states[next][..a.upto], 0), cur.value)
  }

  lemma AttemptEffect(e: Env, base: map<Pin, PinDesc>, c: Controller, st: State, owner: Name)
    requires AllWellKept(base) && NotOwner(base, owner) && AllUnmarked(base, st)
    requires Disjoint(st) && DistinctIds(st) && c.pins == base
    ensures var a := Apply(e, c, st, owner, 0);
            if a.status >= 0 then PartHeld(base, a.c.pins, Taken(e, c, st, owner, 0), st, owner)
            else DisableState(e, a.c, st[..a.upto], 0).pins == base
  {
    ApplyFromNothing(e, base, c, st, owner);
    var a := Apply(e, c, st, owner, 0);
    assert st[..|st|] == st;
    if a.status < 0 {
      PrefixGood(st, a.upto);
      forall s | s in st[..a.upto] ensures Unmarked(base, s.id) { assert s in st; }
      DropRestores(e, base, a.c, Taken(e, c, st, owner, 0), st[..a.upto], owner);
    }
  }

  /** Whatever the driver answers, a commit ends with what its last attempt took, or with nothing. */
  lemma {:induction false} CommitPart(
      e: Env, base: map<Pin, PinDesc>, c: Controller, states: seq<State>, owner: Name, cur: Option<nat>, held: State, next: nat)
    requires next < |states| && ValidIndex(states, cur) && GoodStates(states)
    requires AllWellKept(base) && NotOwner(base, owner) && forall st <- states :: AllUnmarked(base, st)
    requires HoldsPart(c.pins, base, states, cur, held, owner)
    ensures var r := CommitState(e, c, states, owner, cur, next);
            var l := LastAttempt(e, c, states, owner, cur, next);
            && r.cur == (if Apply(e, l.c, states[l.state], owner, 0).status >= 0 then Some(l.state) else None)
            && HoldsPart(r.c.pins, base, states, r.cur, Taken(e, l.c, states[l.state], owner, 0), owner)
            && r.depth <= (if cur.Some? then 2 else 1)
    decreases cur.Some?
  {
    var c1 := if cur.Some? then DisableState(e, c, states[cur.value], 0) else c;
    if cur.Some? {
      DropRestores(e, base, c, held, states[cur.value], owner);
    }
    AttemptEffect(e, base, c1, states[next], owner);
    var a := Apply(e, c1, states[next], owner, 0);
    if a.status < 0 && cur.Some? {
      var c2 := DisableState(e, a.c, states[next][..a.upto], 0);
      CommitPart(e, base, c2, states, owner, None, [], cur.value);
    }
  }

  // ---------------------------------------------------------------------------------------------
  // The books of the whole system
  // ---------------------------------------------------------------------------------------------

  ghost predicate Owned(pins: map<Pin, PinDesc>, p: Pin, n: Name) {
    p in pins && pins[p].muxOwner == Some(n)
  }

  /** The device holds all pins of the setting. */
  ghost predicate HasAll(pins: map<Pin, PinDesc>, s: Setting, n: Name) {
    s.Mux? ==> forall p <- s.group :: Owned(pins, p, n)
  }

  ghost predicate HasNone(pins: map<Pin, PinDesc>, s: Setting, n: Name) {
    s.Mux? ==> forall p <- s.group :: !Owned(pins, p, n)
  }

  /** Every setting of a selected state is held whole or not at all. */
  ghost predicate Whole(s: System, n: Name) {
    Selected(s, n) ==>
      AllApplicable(Current(s, n)) && forall x <- Current(s, n) :: HasAll(s.c.pins, x, n) || HasNone(s.c.pins, x, n)
  }

  /** Settings of different handles are different objects, so their addresses differ. */
  ghost predicate Separate(a: seq<State>, b: seq<State>) {
    forall st <- a, st' <- b, x, y :: x in st && y in st' ==> x.id != y.id
  }

  /**
   The books balance on the side of the pins: every pin is either free or counts its occurrences in its owner's
   selected state, and settings are held whole or not at all.  A ledger also has no setting missing.
   */
  ghost predicate Books(s: System) {
    && (forall p <- s.c.pins :: Balanced(s, p))
    && (forall n <- s.handles ::
          ValidIndex(s.handles[n].states, s.handles[n].cur) && GoodStates(s.handles[n].states) && Whole(s, n))
    && (forall n <- s.handles, m <- s.handles :: n != m ==> Separate(s.handles[n].states, s.handles[m].states))
  }

  ghost function HeldPart(pins: map<Pin, PinDesc>, st: State, n: Name): (held: State)
    ensures PartOf(held, st)
  {
    seq(|st|, i requires 0 <= i < |st| => if HasAll(pins, st[i], n) then st[i] else Configs(st[i].id))
  }

  lemma SplitPart(s: System, n: Name, p: Pin)
    requires p in s.c.pins && Balanced(s, p) && Selected(s, n) && Whole(s, n) && GoodStates(s.handles[n].states)
    ensures var held := HeldPart(s.c.pins, Current(s, n), n);
            && s.c.pins[p] == Claimed(Without(s.c.pins, n)[p], held, p, n)
            && (Carrier(held, p) >= 0 ==> Without(s.c.pins, n)[p].muxUsecount == 0)
  {
    var st := Current(s, n);
    var held := HeldPart(s.c.pins, st, n);
    if Owned(s.c.pins, p, n) {
      var i := Carrier(st, p);
      assert st[i] in st && p in st[i].group && !HasNone(s.c.pins, st[i], n);
      assert held[i] == st[i];
      CarrierIsLast(held, i, p);
      PartCarrier(held, st, p);
    } else {
      var j := Carrier(held, p);
    }
  }

  /** Nobody else's pin carries a setting of the handle. */
  lemma SplitUnmarked(s: System, n: Name)
    requires Books(s) && n in s.handles
    ensures forall st <- s.handles[n].states :: AllUnmarked(Without(s.c.pins, n), st)
  {
    var base := Without(s.c.pins, n);
    forall st, x, p | st in s.handles[n].states && x in st && p in base
      ensures base[p].muxSetting != Some(x.id)
    {
      assert Balanced(s, p);
      if s.c.pins[p].muxOwner.Some? && s.c.pins[p].muxOwner != Some(n) {
        var m := s.c.pins[p].muxOwner.value;
        var cur := Current(s, m);
        assert Separate(s.handles[m].states, s.handles[n].states);
        assert cur in s.handles[m].states && cur[Carrier(cur, p)] in cur;
      }
    }
  }

  lemma SplitBooks(s: System, n: Name)
    requires Books(s) && n in s.handles
    ensures var h, base := s.handles[n], Without(s.c.pins, n);
            && AllWellKept(base) && NotOwner(base, n)
            && HoldsPart(s.c.pins, base, h.states, h.cur,
                         if h.cur.Some? then HeldPart(s.c.pins, h.states[h.cur.value], n) else [], n)
  {
    WithoutWellKept(s, n);
    var h, base := s.handles[n], Without(s.c.pins, n);
    assert Whole(s, n) && GoodStates(h.states);
    if h.cur.Some? {
      var held := HeldPart(s.c.pins, Current(s, n), n);
      forall p | p in s.c.pins
        ensures s.c.pins[p] == Claimed(base[p], held, p, n)
        ensures Carrier(held, p) >= 0 ==> base[p].muxUsecount == 0
      {
        SplitPart(s, n, p);
      }
      forall p: Pin | Carrier(held, p) >= 0
        ensures p in base
      {
        var x := held[Carrier(held, p)];
        assert p in x.group && HasAll(s.c.pins, x, n);
      }
      forall x | x in held ensures !x.Invalid? {
        var i :| 0 <= i < |held| && held[i] == x;
        assert Current(s, n)[i] in Current(s, n);
      }
    } else {
      forall p | p in s.c.pins ensures s.c.pins[p].muxOwner != Some(n) { assert Balanced(s, p); }
      assert base == s.c.pins;
    }
  }

  /** `t` is `s` with what handle `n` holds replaced by the part `held` of its state `t.handles[n].cur`. */
  ghost predicate Replaced(s: System, t: System, n: Name, held: State) {
    && n in s.handles && n in t.handles
    && t.handles == s.handles[n := s.handles[n].(cur := t.handles[n].cur)]
    && ValidIndex(s.handles[n].states, t.handles[n].cur)
    && HoldsPart(t.c.pins, Without(s.c.pins, n), s.handles[n].states, t.handles[n].cur, held, n)
  }

  lemma KeptPin(s: System, t: System, n: Name, held: State, p: Pin)
    requires Replaced(s, t, n, held) && p in s.c.pins && Balanced(s, p)
    requires p in t.c.pins && t.c.pins[p] == Without(s.c.pins, n)[p]
    ensures Balanced(t, p) && !Owned(t.c.pins, p, n)
    ensures forall m :: m != n ==> (Owned(t.c.pins, p, m) <==> Owned(s.c.pins, p, m))
  {
    var d := t.c.pins[p];
    if d.muxOwner.Some? {
      var m := d.muxOwner.value;
      assert m != n && s.c.pins[p] == d;
      assert Current(t, m) == Current(s, m);
    }
  }

  lemma TakenPin(s: System, t: System, n: Name, held: State, p: Pin)
    requires Replaced(s, t, n, held) && p in s.c.pins && Balanced(s, p) && GoodStates(s.handles[n].states)
    requires t.handles[n].cur.Some? && Carrier(held, p) >= 0
    ensures p in t.c.pins && Balanced(t, p) && Owned(t.c.pins, p, n)
    ensures forall m :: m != n ==> !Owned(s.c.pins, p, m)
  {
    var st := t.handles[n].states[t.handles[n].cur.value];
    assert Selected(t, n) && Current(t, n) == st;
    assert t.c.pins[p] == Claimed(Without(s.c.pins, n)[p], held, p, n);
    PartCarrier(held, st, p);
  }

  lemma ReplacedPin(s: System, t: System, n: Name, held: State, p: Pin)
    requires Books(s) && Replaced(s, t, n, held) && p in s.c.pins
    ensures p in t.c.pins && Balanced(t, p)
    ensures forall m :: m != n ==> (Owned(t.c.pins, p, m) <==> Owned(s.c.pins, p, m))
    ensures Owned(t.c.pins, p, n) <==> t.handles[n].cur.Some? && Carrier(held, p) >= 0
  {
    assert Balanced(s, p) && GoodStates(s.handles[n].states);
    if t.handles[n].cur.Some? && Carrier(held, p) >= 0 {
      TakenPin(s, t, n, held, p);
    } else {
      KeptPin(s, t, n, held, p);
    }
  }

  /** A pin of a setting that is not held is not named by what is held. */
  lemma NotCarried(held: State, st: State, i: nat, p: Pin)
    requires PartOf(held, st) && Disjoint(st) && i < |st| && held[i] != st[i] && p in st[i].group
    ensures Carrier(held, p) < 0
  {
    assert OccursIn(st[i], p) > 0;
    var j := Carrier(held, p);
  }

  lemma ReplacedOwn(s: System, t: System, n: Name, held: State, i: nat)
    requires Books(s) && Replaced(s, t, n, held) && Selected(t, n) && i < |held|
    ensures var x := Current(t, n)[i];
            if held[i] == x then HasAll(t.c.pins, x, n) else HasNone(t.c.pins, x, n)
  {
    var st := Current(t, n);
    assert st in s.handles[n].states && Disjoint(st);
    if st[i].Mux? {
      forall p | p in st[i].group
        ensures Owned(t.c.pins, p, n) <==> held[i] == st[i]
      {
        assert OccursIn(st[i], p) > 0;
        if held[i] == st[i] {
          CarrierIsLast(held, i, p);
        } else {
          NotCarried(held, st, i, p);
        }
        if p in s.c.pins {
          ReplacedPin(s, t, n, held, p);
        }
      }
    }
  }

  lemma ReplacedOther(s: System, t: System, n: Name, held: State, m: Name)
    requires Books(s) && Replaced(s, t, n, held) && m in s.handles && m != n
    ensures Whole(t, m) && (Covered(t, m) <==> Covered(s, m))
  {
    assert Whole(s, m);
    assert Selected(t, m) <==> Selected(s, m);
    forall p: Pin ensures Owned(t.c.pins, p, m) <==> Owned(s.c.pins, p, m) {
      if p in s.c.pins {
        ReplacedPin(s, t, n, held, p);
      }
    }
    if Selected(s, m) {
      assert Current(t, m) == Current(s, m);
      forall x | x in Current(s, m)
        ensures HasAll(t.c.pins, x, m) || HasNone(t.c.pins, x, m)
      {
        assert HasAll(s.c.pins, x, m) || HasNone(s.c.pins, x, m);
      }
      SameCover(s, t, m);
    }
  }

  lemma SameCover(s: System, t: System, m: Name)
    requires Selected(s, m) && Selected(t, m) && Current(t, m) == Current(s, m)
    requires forall p: Pin :: Owned(t.c.pins, p, m) <==> Owned(s.c.pins, p, m)
    ensures Covered(t, m) <==> Covered(s, m)
  {
    CoverCarries(s, t, m);
    CoverCarries(t, s, m);
  }

  lemma CoverCarries(s: System, t: System, m: Name)
    requires Selected(s, m) && Selected(t, m) && Current(t, m) == Current(s, m)
    requires forall p: Pin :: Owned(t.c.pins, p, m) <==> Owned(s.c.pins, p, m)
    ensures Covered(s, m) ==> Covered(t, m)
  {
    if Covered(s, m) {
      forall p: Pin | Carrier(Current(t, m), p) >= 0 ensures Owned(t.c.pins, p, m) { assert Owned(s.c.pins, p, m); }
    }
  }

  lemma CoveredIffWhole(s: System, t: System, n: Name, held: State)
    requires Books(s) && Replaced(s, t, n, held) && Selected(t, n)
    ensures Whole(t, n) && (Covered(t, n) <==> held == Current(t, n))
  {
    var st := Current(t, n);
    forall x | x in st ensures !x.Invalid? && (HasAll(t.c.pins, x, n) || HasNone(t.c.pins, x, n)) {
      var i :| 0 <= i < |st| && st[i] == x;
      assert held[i] in held;
      ReplacedOwn(s, t, n, held, i);
    }
    if held != st {
      var i :| 0 <= i < |st| && held[i] != st[i];
      var p := st[i].group[0];
      assert OccursIn(st[i], p) > 0;
      CarrierIsLast(st, i, p);
      ReplacedOwn(s, t, n, held, i);
      assert p in st[i].group && !Owned(t.c.pins, p, n);
    } else {
      forall p: Pin | Carrier(st, p) >= 0 ensures Owned(t.c.pins, p, n) { ReplacedPin(s, t, n, held, p); }
    }
  }

  /** The books balance again, and the cover of all other handles is as before. */
  lemma JoinBooks(s: System, t: System, n: Name, held: State)
    requires Books(s) && Replaced(s, t, n, held)
    ensures Books(t)
    ensures forall m <- s.handles :: m != n ==> (Covered(t, m) <==> Covered(s, m))
    ensures t.handles[n].cur.Some? ==> (Covered(t, n) <==> held == Current(t, n))
  {
    forall p | p in t.c.pins ensures Balanced(t, p) { ReplacedPin(s, t, n, held, p); }
    forall m | m in s.handles && m != n ensures Whole(t, m) && (Covered(t, m) <==> Covered(s, m)) {
      ReplacedOther(s, t, n, held, m);
    }
    if t.handles[n].cur.Some? {
      CoveredIffWhole(s, t, n, held);
    }
  }

  // ---------------------------------------------------------------------------------------------
  // Steps and runs
  // ---------------------------------------------------------------------------------------------

  /**
   A selection keeps the books whatever the driver answers.  Afterwards the handle holds all of the state it has
   recorded if and only if the driver accepted every setting of it that names a pin; in particular, one such
   setting answered with a positive number breaks the ledger.  Other handles are not affected.
   */
  lemma SelectCoversIffAccepted(e: Env, s: System, n: Name, next: nat)
    requires Books(s) && Legal(s, Select(n, next)) && s.handles[n].cur != Some(next)
    ensures var t := Step(e, s, Select(n, next));
            var l := LastAttempt(e, s.c, s.handles[n].states, n, s.handles[n].cur, next);
            var last := s.handles[n].states[l.state];
            && Books(t)
            && t.handles[n].cur == (if Apply(e, l.c, last, n, 0).status >= 0 then Some(l.state) else None)
            && (Selected(t, n) ==> (Covered(t, n) <==> AllAccepted(e, l.c, last, n, 0)))
            && forall m <- s.handles :: m != n ==> (Covered(t, m) <==> Covered(s, m))
  {
    var h := s.handles[n];
    SplitBooks(s, n);
    SplitUnmarked(s, n);
    assert GoodStates(h.states);
    CommitPart(e, Without(s.c.pins, n), s.c, h.states, n, h.cur,
               if h.cur.Some? then HeldPart(s.c.pins, h.states[h.cur.value], n) else [], next);
    var l := LastAttempt(e, s.c, h.states, n, h.cur, next);
    var t := Step(e, s, Select(n, next));
    var held := Taken(e, l.c, h.states[l.state], n, 0);
    assert Replaced(s, t, n, held);
    JoinBooks(s, t, n, held);
    if Selected(t, n) {
      TakenWholeIffAccepted(e, l.c, Current(t, n), n, 0);
      assert Current(t, n)[0..] == Current(t, n);
    }
  }

  /**
   The step-level condition for the ledger: the last state the commit tries to apply fails, so that none is
   selected, or the driver accepts every setting of it that names a pin.
   */
  lemma SelectKeepsLedgerIff(e: Env, s: System, n: Name, next: nat)
    requires Ledger(s) && Books(s) && Legal(s, Select(n, next)) && s.handles[n].cur != Some(next)
    ensures var l := LastAttempt(e, s.c, s.handles[n].states, n, s.handles[n].cur, next);
            var last := s.handles[n].states[l.state];
            Ledger(Step(e, s, Select(n, next))) <==>
            Apply(e, l.c, last, n, 0).status < 0 || AllAccepted(e, l.c, last, n, 0)
  {
    SelectCoversIffAccepted(e, s, n, next);
    var t := Step(e, s, Select(n, next));
    forall m | m in t.handles && m != n ensures Covered(t, m) { assert Covered(s, m); }
  }

  lemma ForgetBooks(s: System, n: Name)
    requires Books(s) && n in s.handles && s.handles[n].cur.None?
    ensures Books(s.(handles := s.handles - {n}))
  {
    var t := s.(handles := s.handles - {n});
    forall p | p in t.c.pins ensures Balanced(t, p) { assert Balanced(s, p); }
    forall m | m in t.handles ensures Whole(t, m) { assert Whole(s, m); }
  }

  lemma PutKeepsBooks(e: Env, s: System, n: Name)
    requires Books(s) && Legal(s, Put(n))
    ensures Books(Step(e, s, Put(n)))
  {
    var h := s.handles[n];
    SplitBooks(s, n);
    SplitUnmarked(s, n);
    assert GoodStates(h.states);
    var c := Drop(e, s.c, h);
    if h.cur.Some? {
      DropRestores(e, Without(s.c.pins, n), s.c, HeldPart(s.c.pins, h.states[h.cur.value], n), h.states[h.cur.value], n);
    }
    var t := System(c, s.handles[n := h.(cur := None)]);
    assert Replaced(s, t, n, []);
    JoinBooks(s, t, n, []);
    ForgetBooks(t, n);
    assert t.handles - {n} == s.handles - {n};
  }

  /** Settings of a new handle are separate from those of the handles already there. */
  ghost predicate Apart(s: System, op: Op) {
    op.Get? ==> GoodStates(op.states) && forall m <- s.handles :: Separate(s.handles[m].states, op.states)
  }

  lemma GetKeepsBooks(s: System, n: Name, states: seq<State>)
    requires Books(s) && n !in s.handles && Apart(s, Get(n, states))
    ensures Books(s.(handles := s.handles[n := Handle(states, None)]))
  {
    var t := s.(handles := s.handles[n := Handle(states, None)]);
    forall p | p in t.c.pins ensures Balanced(t, p) { assert Balanced(s, p); }
    forall m | m in t.handles ensures Whole(t, m) { assert m != n ==> Whole(s, m); }
    forall a, b | a in t.handles && b in t.handles && a != b
      ensures Separate(t.handles[a].states, t.handles[b].states)
    {
      if a != n && b != n {
        assert Separate(s.handles[a].states, s.handles[b].states);
      }
    }
  }

  lemma GpioKeepsBooks(s: System, c: Controller)
    requires Books(s) && SameMux(s.c, c)
    ensures Books(s.(c := c))
  {
    var t := s.(c := c);
    forall p | p in t.c.pins ensures Balanced(t, p) { assert Balanced(s, p); }
    forall m | m in t.handles ensures Whole(t, m) {
      assert Whole(s, m);
      if Selected(s, m) {
        forall x | x in Current(s, m)
          ensures HasAll(t.c.pins, x, m) || HasNone(t.c.pins, x, m)
        {
          assert HasAll(s.c.pins, x, m) || HasNone(s.c.pins, x, m);
          assert forall p: Pin :: Owned(t.c.pins, p, m) <==> Owned(s.c.pins, p, m);
        }
      }
    }
  }

  lemma StepKeepsBooks(e: Env, s: System, op: Op)
    requires Books(s) && Legal(s, op) && Apart(s, op)
    ensures Books(Step(e, s, op))
  {
    match op
    case Get(n, states) => GetKeepsBooks(s, n, states);
    case Select(n, i) =>
      if s.handles[n].cur != Some(i) {
        SelectCoversIffAccepted(e, s, n, i);
      } else {
        assert Step(e, s, op) == s;
      }
    case Put(n) => PutKeepsBooks(e, s, n);
    case RequestGpio(p, g) => GpioEffect(e, s.c, p, g); GpioKeepsBooks(s, PinRequest(e, s.c, p, g, true).c);
    case FreeGpio(p) => GpioEffect(e, s.c, p, ""); GpioKeepsBooks(s, PinFree(e, s.c, p, true));
  }

  ghost predicate ApartRun(e: Env, s: System, ops: seq<Op>)
    requires LegalRun(e, s, ops)
    decreases |ops|
  {
    ops == [] || (Apart(s, ops[0]) && ApartRun(e, Step(e, s, ops[0]), ops[1..]))
  }

  /** Over every run under any driver whatever, each pin is free or counts its occurrences in its owner's selected state. */
  lemma {:induction false} BooksOverRuns(e: Env, s: System, ops: seq<Op>)
    requires Initial(s) || Books(s)
    requires LegalRun(e, s, ops) && ApartRun(e, s, ops)
    ensures Books(Run(e, s, ops))
    decreases |ops|
  {
    assert Books(s);
    if ops != [] {
      StepKeepsBooks(e, s, ops[0]);
      BooksOverRuns(e, Step(e, s, ops[0]), ops[1..]);
    }
  }
}
