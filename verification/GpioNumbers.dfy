/** The global GPIO number space: a sorted list of disjoint ranges and the search for a free one. */
module GpioNumbers {
  import opened Wrappers

  /** A registered chip: numbers `base` up to but not including `base + ngpio`. */
  datatype Chip = Chip(base: int, ngpio: nat)

  function End(c: Chip): int {
    c.base + c.ngpio
  }

  predicate Overlap(a: Chip, b: Chip) {
    a.base < End(b) && b.base < End(a)
  }

  ghost predicate Sorted(list: seq<Chip>) {
    && (forall i :: 0 <= i < |list| ==> list[i].ngpio > 0)
    && (forall i, j :: 0 <= i < j < |list| ==> End(list[i]) <= list[j].base)
  }

  ghost predicate Clear(list: seq<Chip>, c: Chip) {
    forall d <- list :: !Overlap(c, d)
  }

  /** All numbers are valid GPIO numbers. */
  ghost predicate Within(list: seq<Chip>, limit: nat) {
    forall c <- list :: 0 <= c.base && End(c) <= limit
  }

  /** A range of valid numbers that nobody has. */
  ghost predicate Free(list: seq<Chip>, base: int, ngpio: nat, limit: nat) {
    0 <= base && base + ngpio <= limit && Clear(list, Chip(base, ngpio))
  }

  // ---------------------------------------------------------------------------------------------
  // Numbers and descriptors
  // ---------------------------------------------------------------------------------------------

  /** A line: position of its chip in the list, and offset on the chip. */
  datatype Line = Line(chip: nat, offset: nat)

  ghost predicate Exists(list: seq<Chip>, l: Line) {
    l.chip < |list| && l.offset < list[l.chip].ngpio
  }

  /** `desc_to_gpio`. */
  function ToNumber(list: seq<Chip>, l: Line): int
    requires l.chip < |list|
  {
    list[l.chip].base + l.offset
  }

  /** `gpio_to_desc`, from position `i` on. */
  function ToLine(list: seq<Chip>, gpio: int, i: nat): Option<Line>
    requires i <= |list|
    decreases |list| - i
  {
    if i == |list| then None
    else if list[i].base <= gpio < End(list[i]) then Some(Line(i, gpio - list[i].base))
    else ToLine(list, gpio, i + 1)
  }

  /** Every line has its own number: looking the number up gives the line back. */
  lemma {:induction false} NumberRoundTrip(list: seq<Chip>, l: Line, i: nat)
    requires Sorted(list) && Exists(list, l) && i <= l.chip
    ensures ToLine(list, ToNumber(list, l), i) == Some(l)
    decreases l.chip - i
  {
    if i < l.chip {
      assert End(list[i]) <= list[l.chip].base;
      NumberRoundTrip(list, l, i + 1);
    }
  }

  /** A number that is found belongs to the line found; one that is not found belongs to no line. */
  lemma {:induction false} LineRoundTrip(list: seq<Chip>, gpio: int, i: nat)
    requires i <= |list|
    ensures match ToLine(list, gpio, i)
            case Some(l) => Exists(list, l) && ToNumber(list, l) == gpio == list[l.chip].base + l.offset
            case None => forall l: Line :: Exists(list, l) && l.chip >= i ==> list[l.chip].base + l.offset != gpio
    decreases |list| - i
  {
    if i < |list| && !(list[i].base <= gpio < End(list[i])) {
      LineRoundTrip(list, gpio, i + 1);
    }
  }

  // ---------------------------------------------------------------------------------------------
  // Registration
  // ---------------------------------------------------------------------------------------------

  ghost predicate Inserted(before: seq<Chip>, after: seq<Chip>, c: Chip, k: int) {
    0 <= k <= |before| && after == before[..k] + [c] + before[k..]
  }

  lemma OnlyAdded(before: seq<Chip>, after: seq<Chip>, c: Chip, k: int)
    requires Inserted(before, after, c, k)
    ensures forall d :: d in after <==> d == c || d in before
  {
    assert before == before[..k] + before[k..];
    forall d ensures d in after <==> d == c || d in before {
      assert d in before <==> d in before[..k] || d in before[k..];
    }
  }

  class Registry {
    const limit: nat
    var list: seq<Chip>

    ghost predicate Valid()
      reads this
    {
      Sorted(list)
    }

    constructor (limit: nat)
      ensures Valid() && list == [] && this.limit == limit
    {
      this.limit, list := limit, [];
    }

    /** `gpio_to_desc`. */
    method FindLine(gpio: int) returns (l: Option<Line>)
      ensures l == ToLine(list, gpio, 0)
    {
      for i := 0 to |list|
        invariant ToLine(list, gpio, i) == ToLine(list, gpio, 0)
      {
        if list[i].base <= gpio < End(list[i]) {
          return Some(Line(i, gpio - list[i].base));
        }
      }
      return None;
    }

    /**
     `gpiochip_find_base`: the highest free base, and an error only when there is none, provided every
     registered number is below the limit.
     */
    method FindBase(ngpio: nat) returns (base: int)
      requires Valid() && ngpio > 0 && Within(list, limit)
      ensures base >= 0 ==> Free(list, base, ngpio, limit)
      ensures base >= 0 ==> forall b :: b > base ==> !Free(list, b, ngpio, limit)
      ensures base < 0 ==> base == -ENOSPC && forall b :: !Free(list, b, ngpio, limit)
    {
      base := limit - ngpio;
      var i := |list|;
      while i > 0 && End(list[i - 1]) > base
        invariant 0 <= i <= |list|
        invariant forall j :: i <= j < |list| ==> base + ngpio <= list[j].base
        invariant base + ngpio <= limit
        invariant forall b :: b > base ==> !Free(list, b, ngpio, limit)
      {
        i := i - 1;
        var c := list[i];
        forall b | b > c.base - ngpio ensures !Free(list, b, ngpio, limit) {
          if b <= base {
            assert Overlap(Chip(b, ngpio), c) && c in list;
          }
        }
        base := c.base - ngpio;
      }
      if 0 <= base < limit {
        forall d | d in list ensures !Overlap(Chip(base, ngpio), d) {
          var j :| 0 <= j < |list| && list[j] == d;
          if j < i - 1 {
            assert End(list[j]) <= list[i - 1].base;
          }
        }
      } else {
        return -ENOSPC;
      }
    }

    /** `gpiodev_add_to_list`: refused exactly when the new range overlaps a registered one. */
    method AddToList(c: Chip) returns (ret: int)
      requires Valid() && c.ngpio > 0
      modifies this
      ensures Valid()
      ensures ret == if Clear(old(list), c) then 0 else -EBUSY
      ensures ret != 0 ==> list == old(list)
      ensures ret == 0 ==> exists k :: Inserted(old(list), list, c, k)
    {
      if list == [] {
        list := [c];
        assert Inserted(old(list), list, c, 0);
        return 0;
      }
      if End(c) <= list[0].base {
        Insertable(list, c, 0);
        list := list[..0] + [c] + list[0..];
        assert Inserted(old(list), list, c, 0);
        return 0;
      }
      if End(list[|list| - 1]) <= c.base {
        Insertable(list, c, |list|);
        list := list[..|list|] + [c] + list[|list|..];
        assert Inserted(old(list), list, c, |old(list)|);
        return 0;
      }
      for i := 0 to |list| - 1
        invariant list == old(list)
        invariant forall k :: 0 < k <= i ==> !(End(list[k - 1]) <= c.base && End(c) <= list[k].base)
      {
        if End(list[i]) <= c.base && End(c) <= list[i + 1].base {
          Insertable(list, c, i + 1);
          list := list[..i + 1] + [c] + list[i + 1..];
          assert Inserted(old(list), list, c, i + 1);
          return 0;
        }
      }
      NoGap(list, c);
      return -EBUSY;
    }

    /**
     The part of `gpiochip_add_data` that takes a number range.  A chip that lets the core choose is refused
     only when no range is left, never as busy.
     */
    method AddChip(base: int, ngpio: nat) returns (ret: int, taken: int)
      requires Valid() && Within(list, limit)
      modifies this
      ensures Valid()
      ensures ngpio == 0 ==> ret == -EINVAL
      ensures ngpio > 0 && base >= 0 ==> ret == if Clear(old(list), Chip(base, ngpio)) then 0 else -EBUSY
      ensures ngpio > 0 && base < 0 ==> ret == 0 || ret == -ENOSPC
      ensures ngpio > 0 && base < 0 ==> (ret == 0 <==> exists b :: Free(old(list), b, ngpio, limit))
      ensures ret == 0 && base >= 0 ==> taken == base
      ensures ret == 0 && base < 0 ==>
        Free(old(list), taken, ngpio, limit) && forall b :: b > taken ==> !Free(old(list), b, ngpio, limit)
      ensures ret == 0 ==> taken >= 0 && exists k :: Inserted(old(list), list, Chip(taken, ngpio), k)
      ensures base < 0 || base + ngpio <= limit ==> Within(list, limit)
      ensures ret != 0 ==> list == old(list)
    {
      taken := base;
      if ngpio == 0 {
        return -EINVAL, taken;
      }
      if taken < 0 {
        taken := FindBase(ngpio);
        if taken < 0 {
          return taken, taken;
        }
      }
      ret := AddToList(Chip(taken, ngpio));
      if ret == 0 {
        ghost var k :| Inserted(old(list), list, Chip(taken, ngpio), k);
        OnlyAdded(old(list), list, Chip(taken, ngpio), k);
      }
    }
  }

  /** A gap that fits keeps the list sorted, and a chip that fits in it overlaps nobody. */
  lemma Insertable(list: seq<Chip>, c: Chip, k: nat)
    requires Sorted(list) && c.ngpio > 0 && k <= |list|
    requires k > 0 ==> End(list[k - 1]) <= c.base
    requires k < |list| ==> End(c) <= list[k].base
    ensures Sorted(list[..k] + [c] + list[k..]) && Clear(list, c)
  {
    forall i | 0 <= i < |list|
      ensures if i < k then End(list[i]) <= c.base else End(c) <= list[i].base
    {
      if i < k - 1 {
        assert End(list[i]) <= list[k - 1].base;
      } else if i > k {
        assert End(list[k]) <= list[i].base;
      }
    }
  }

  /** When no gap fits, someone is in the way. */
  lemma NoGap(list: seq<Chip>, c: Chip)
    requires Sorted(list) && c.ngpio > 0 && list != []
    requires list[0].base < End(c) && c.base < End(list[|list| - 1])
    requires forall k :: 0 < k < |list| ==> !(End(list[k - 1]) <= c.base && End(c) <= list[k].base)
    ensures !Clear(list, c)
  {
    var k := 0;
    while End(list[k]) <= c.base
      invariant 0 <= k < |list| && list[k].base < End(c)
      decreases |list| - k
    {
      k := k + 1;
    }
    assert Overlap(c, list[k]) && list[k] in list;
  }
}
