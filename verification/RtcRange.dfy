/**
 Range expansion: hardware that counts from `rangeMin` to `rangeMax` is made to show times from `startSecs`
 on.  Times are non-negative seconds.
 */
module RtcRange {
  import opened Wrappers

  class Range {
    const rangeMin: nat
    const rangeMax: nat
    var setStartTime: bool
    var startSecs: nat
    var offsetSecs: int

    constructor (rangeMin: nat, rangeMax: nat)
      ensures this.rangeMin == rangeMin && this.rangeMax == rangeMax && !setStartTime && offsetSecs == 0
    {
      this.rangeMin, this.rangeMax := rangeMin, rangeMax;
      setStartTime, startSecs, offsetSecs := false, 0, 0;
    }

    /** `rtc_device_get_offset`; `start` is the start time from the device tree, if any. */
    method GetOffset(start: Option<nat>)
      modifies this
      ensures rangeMin == rangeMax ==>
        setStartTime == old(setStartTime) && startSecs == old(startSecs) && offsetSecs == old(offsetSecs)
      ensures rangeMin != rangeMax && start.Some? ==> setStartTime && startSecs == start.value
      ensures rangeMin != rangeMax && start.None? ==> setStartTime == old(setStartTime) && startSecs == old(startSecs)
      ensures rangeMin < rangeMax && setStartTime ==> OneToOne(rangeMin, rangeMax, startSecs, offsetSecs)
      ensures rangeMin < rangeMax && setStartTime ==> IsOffset(rangeMin, rangeMax, startSecs, offsetSecs)
    {
      if rangeMin == rangeMax {
        return;
      }
      if start.Some? {
        startSecs, setStartTime := start.value, true;
      }
      if !setStartTime {
        return;
      }
      var rangeSecs := rangeMax - rangeMin + 1;
      if startSecs > rangeMax || startSecs + rangeSecs - 1 < rangeMin {
        offsetSecs := startSecs - rangeMin;
      } else if startSecs > rangeMin {
        offsetSecs := rangeSecs;
      } else if startSecs < rangeMin {
        offsetSecs := -rangeSecs;
      } else {
        offsetSecs := 0;
      }
      if rangeMin < rangeMax {
        ExpansionIsBijection(rangeMin, rangeMax, startSecs, offsetSecs);
      }
    }
  }

  /**
   What the offset is for.  When the shown window and the hardware window are apart, the first second of one
   is shown as the first of the other; when they overlap, the part outside moves by one whole range.
   */
  ghost predicate IsOffset(lo: nat, hi: nat, start: nat, offset: int) {
    var apart := start > hi || start + (hi - lo) < lo;
    && (apart ==> lo + offset == start)
    && (!apart && start > lo ==> offset == hi - lo + 1)
    && (!apart && start < lo ==> offset == -(hi - lo + 1))
    && (start == lo ==> offset == 0)
  }

  /** `rtc_add_offset`. */
  function AddOffset(lo: nat, hi: nat, start: nat, offset: int, secs: int): int {
    if offset == 0 then secs
    else if (start > lo && secs >= start) || (start < lo && secs <= start + hi - lo) then secs
    else secs + offset
  }

  /** `rtc_subtract_offset`. */
  function SubtractOffset(lo: nat, hi: nat, offset: int, secs: int): int {
    if offset == 0 then secs
    else if lo <= secs <= hi then secs
    else secs - offset
  }

  /** `rtc_valid_range`, for a range that is set. */
  predicate Shown(lo: nat, hi: nat, start: nat, secs: int) {
    start <= secs <= start + hi - lo
  }

  /** The hardware range is shown one to one as the window that `rtc_valid_range` accepts, and setting inverts reading. */
  ghost predicate OneToOne(lo: nat, hi: nat, start: nat, offset: int) {
    && (forall h :: lo <= h <= hi ==>
          var shown := AddOffset(lo, hi, start, offset, h);
          Shown(lo, hi, start, shown) && SubtractOffset(lo, hi, offset, shown) == h)
    && (forall s :: Shown(lo, hi, start, s) ==>
          var h := SubtractOffset(lo, hi, offset, s);
          lo <= h <= hi && AddOffset(lo, hi, start, offset, h) == s)
  }

  /** Reading and setting are inverse, for every placement of the window. */
  lemma ExpansionIsBijection(lo: nat, hi: nat, start: nat, offset: int)
    requires lo < hi && IsOffset(lo, hi, start, offset)
    ensures OneToOne(lo, hi, start, offset)
  {
  }

  /** No two hardware times are shown alike. */
  lemma ReadInjective(lo: nat, hi: nat, start: nat, offset: int, g: int, h: int)
    requires lo < hi && IsOffset(lo, hi, start, offset) && lo <= g < h <= hi
    ensures AddOffset(lo, hi, start, offset, g) != AddOffset(lo, hi, start, offset, h)
  {
    ExpansionIsBijection(lo, hi, start, offset);
    assert SubtractOffset(lo, hi, offset, AddOffset(lo, hi, start, offset, g)) == g;
  }

  /** The second after `s` of a clock that counts from `first` to `last` and starts over. */
  function Following(s: int, first: int, last: int): int {
    if s == last then first else s + 1
  }

  /**
   The clock shown ticks with the hardware clock: second by second through the window, starting over at its end,
   whatever the hardware counts from and wherever it starts over.
   */
  lemma ShownClockTicks(lo: nat, hi: nat, start: nat, offset: int, h: int)
    requires lo < hi && IsOffset(lo, hi, start, offset) && lo <= h <= hi
    ensures AddOffset(lo, hi, start, offset, Following(h, lo, hi))
            == Following(AddOffset(lo, hi, start, offset, h), start, start + hi - lo)
  {
  }

  /** A time that hardware and window share is shown as it is; with none to share, the first seconds correspond. */
  lemma SharedTimesUnchanged(lo: nat, hi: nat, start: nat, offset: int)
    requires lo < hi && IsOffset(lo, hi, start, offset)
    ensures forall h :: lo <= h <= hi && Shown(lo, hi, start, h) ==> AddOffset(lo, hi, start, offset, h) == h
    ensures (forall h :: lo <= h <= hi ==> !Shown(lo, hi, start, h)) ==> AddOffset(lo, hi, start, offset, lo) == start
  {
    if start > hi || start + (hi - lo) < lo {
    } else {
      var h := if start > lo then start else lo;
      assert lo <= h <= hi && Shown(lo, hi, start, h);
    }
  }

  /** A device's hardware range, the first second shown, and the offset. */
  datatype Window = Window(lo: nat, hi: nat, start: nat, offset: int)

  /** A device whose offset is as `rtc_device_get_offset` computes it, or that has no range to expand. */
  ghost predicate Proper(w: Window) {
    w.offset == 0 || (w.lo < w.hi && IsOffset(w.lo, w.hi, w.start, w.offset))
  }

  /** The hardware time for a shown time. */
  function ToHardware(w: Window, secs: int): int {
    SubtractOffset(w.lo, w.hi, w.offset, secs)
  }

  /** Converting twice is converting once: a hardware time passes for a shown time that needs no conversion. */
  lemma ToHardwareTwice(w: Window, secs: int)
    requires Proper(w) && (w.offset != 0 ==> Shown(w.lo, w.hi, w.start, secs))
    ensures ToHardware(w, ToHardware(w, secs)) == ToHardware(w, secs)
  {
    if w.offset != 0 {
      ExpansionIsBijection(w.lo, w.hi, w.start, w.offset);
    }
  }
}
