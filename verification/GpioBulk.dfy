/**
 `gpiod_set_array_value_complex` and `gpiod_get_array_value_complex`: one bulk call for the lines the
 masks select, then a sweep over the others, chip by chip.
 */
module GpioBulk {
  import opened Wrappers
  import opened GpioArray

  /** `find_next_zero_bit`: the first clear bit at or after `i`, or the size. */
  function NextZero(mask: seq<bool>, i: nat): (j: nat)
    requires i <= |mask|
    ensures i <= j <= |mask|
    ensures forall k :: i <= k < j ==> mask[k]
    ensures j < |mask| ==> !mask[j]
    decreases |mask| - i
  {
    if i == |mask| || !mask[i] then i else NextZero(mask, i + 1)
  }

  /** The level a normal output is driven to. */
  predicate Effective(raw: bool, d: Desc, value: bool) {
    if !raw && d.activeLow then !value else value
  }

  /** Open drain and open source outputs are set one by one. */
  predicate Individually(raw: bool, d: Desc) {
    !raw && (d.openDrain || d.openSource)
  }

  /** `value_bitmap` after the fast path: inverted in place where `flipped` says so. */
  function Flip(values: seq<bool>, flipped: seq<bool>): (r: seq<bool>)
    requires |values| == |flipped|
    ensures |r| == |values|
  {
    seq(|values|, i requires 0 <= i < |values| => values[i] != flipped[i])
  }

  /** The indices before `i` that are not skipped. */
  function Upto(skip: seq<bool>, i: nat): (r: seq<bool>)
    ensures |r| == |skip| && forall j :: 0 <= j < |r| ==> (r[j] <==> !skip[j] && j < i)
  {
    seq(|skip|, j requires 0 <= j < |skip| => !skip[j] && j < i)
  }

  function Either(a: seq<bool>, b: seq<bool>): (r: seq<bool>)
    requires |a| == |b|
    ensures |r| == |a| && forall i :: 0 <= i < |r| ==> r[i] == (a[i] || b[i])
  {
    seq(|a|, i requires 0 <= i < |a| => a[i] || b[i])
  }

  /** A bulk write on one chip: exactly the masked lines of the chip are set. */
  ghost function BulkSet<L>(
      hw: Hw<L>, before: map<Line, Cell<L>>, chip: nat, mask: seq<bool>, bits: seq<bool>): map<Line, Cell<L>>
    requires |mask| <= |bits|
  {
    map l | l in before ::
      if l.chip == chip && l.hw < |mask| && mask[l.hw] then SetRaw(hw, l, before[l], bits[l.hw]) else before[l]
  }

  /** The bulk call on the fast chip writes exactly the lines of the set mask, each as a single call would. */
  lemma FastPathWrites<L>(
      raw: bool, hw: Hw<L>, before: map<Line, Cell<L>>, descs: seq<Desc>, values: seq<bool>, info: ArrayInfo)
    requires |descs| == |values| && Present(before, descs) && WellFormed(info, descs)
    ensures var bits := if raw then values else Flip(values, info.invertMask);
            Written(raw, hw, before, BulkSet(hw, before, info.chip, info.setMask, bits), descs, values, info.setMask)
  {
    var bits := if raw then values else Flip(values, info.invertMask);
    var after := BulkSet(hw, before, info.chip, info.setMask, bits);
    forall i | 0 <= i < |descs| && info.setMask[i]
      ensures after[descs[i].line] == WriteOne(raw, hw, descs[i], before[descs[i].line], values[i])
    {
      assert descs[i].line == Line(info.chip, i);
    }
    forall l | l in before && Spared(descs, info.setMask, l)
      ensures after[l] == before[l]
    {
      if l.chip == info.chip && l.hw < info.size && info.setMask[l.hw] {
        assert false;
      }
    }
  }

  /** Writing some indices and then others is writing both. */
  lemma WriteBoth<L>(
      raw: bool, hw: Hw<L>, before: map<Line, Cell<L>>, mid: map<Line, Cell<L>>, after: map<Line, Cell<L>>,
      descs: seq<Desc>, values: seq<bool>, first: seq<bool>, second: seq<bool>)
    requires |descs| == |values| == |first| == |second| && Present(before, descs) && Distinct(descs)
    requires Written(raw, hw, before, mid, descs, values, first) && Written(raw, hw, mid, after, descs, values, second)
    requires forall i :: 0 <= i < |descs| ==> !(first[i] && second[i])
    ensures Written(raw, hw, before, after, descs, values, Either(first, second))
  {
    forall i | 0 <= i < |descs| && Either(first, second)[i]
      ensures after[descs[i].line] == WriteOne(raw, hw, descs[i], before[descs[i].line], values[i])
    {
      if second[i] {
        assert Spared(descs, first, descs[i].line);
      } else {
        assert Spared(descs, second, descs[i].line);
      }
    }
    forall l | l in before && Spared(descs, Either(first, second), l)
      ensures after[l] == before[l]
    {
      SparedByBoth(descs, first, second, l);
    }
  }

  // ---------------------------------------------------------------------------------------------
  // The bulk write as a whole, with masks that may not fit
  // ---------------------------------------------------------------------------------------------

  /** All a bulk write needs of the masks to make sense at all. */
  ghost predicate Usable(info: ArrayInfo, descs: seq<Desc>) {
    && |descs| == info.size == |info.getMask| == |info.setMask| == |info.invertMask|
    && forall i :: 0 <= i < info.size && info.invertMask[i] ==> descs[i].activeLow
  }

  /** What the bulk write does: one bulk call with the set mask, then single calls for the leftover indices. */
  ghost function BulkWrite<L>(
      raw: bool, hw: Hw<L>, before: map<Line, Cell<L>>, descs: seq<Desc>, values: seq<bool>, info: ArrayInfo)
    : map<Line, Cell<L>>
    requires |descs| == |values| && Present(before, descs) && Usable(info, descs)
  {
    var bits := if raw then values else Flip(values, info.invertMask);
    var mid := BulkSet(hw, before, info.chip, info.setMask, bits);
    WriteMarked(raw, hw, mid, descs, values, Upto(info.setMask, |descs|))
  }

  /** With masks that fit, the bulk write is one single-line call per index. */
  lemma FittingBulkWrite<L>(
      raw: bool, hw: Hw<L>, before: map<Line, Cell<L>>, descs: seq<Desc>, values: seq<bool>, info: ArrayInfo)
    requires |descs| == |values| && Present(before, descs) && Distinct(descs) && WellFormed(info, descs)
    ensures BulkWrite(raw, hw, before, descs, values, info) == WriteEach(raw, hw, before, descs, values)
  {
    var bits := if raw then values else Flip(values, info.invertMask);
    var mid := BulkSet(hw, before, info.chip, info.setMask, bits);
    var left := Upto(info.setMask, |descs|);
    var after := WriteMarked(raw, hw, mid, descs, values, left);
    FastPathWrites(raw, hw, before, descs, values, info);
    WrittenIsWriteMarked(raw, hw, mid, after, descs, values, left);
    WriteBoth(raw, hw, before, mid, after, descs, values, info.setMask, left);
    assert Either(info.setMask, left) == Everywhere(|descs|);
    WrittenAllIsWriteEach(raw, hw, before, after, descs, values);
  }

  /** Every chip has all its lines below any line it has. */
  ghost predicate Consecutive<L>(lines: map<Line, Cell<L>>) {
    forall l <- lines, h: nat :: h < l.hw ==> Line(l.chip, h) in lines
  }

  /** Driving a line high or low makes a difference. */
  ghost predicate Responsive<L(!new)>(hw: Hw<L>) {
    forall l, c: L :: hw.setLine(l, c, true) != hw.setLine(l, c, false)
  }

  /** Where the candidate was dropped, the bulk write drives the fast chip's line of that index with the index's value. */
  lemma DroppedIndexIsDriven<L>(
      raw: bool, hw: Hw<L>, before: map<Line, Cell<L>>, descs: seq<Desc>, values: seq<bool>, info: ArrayInfo, k: nat)
    requires |descs| == |values| && Present(before, descs) && Distinct(descs) && Consecutive(before)
    requires DropsAt(descs, k) && MasksUpTo(info, descs, k)
    ensures var l := Line(info.chip, k);
            l in before && BulkWrite(raw, hw, before, descs, values, info)[l] == SetRaw(hw, l, before[l], values[k])
  {
    var l, h := Line(info.chip, k), descs[k].line.hw;
    assert descs[k] in descs && descs[k].line == Line(info.chip, h);
    forall j: nat | j < k ensures descs[j].line == Line(info.chip, j) && j != h {
      assert InPlace(descs, j) && descs[j].line != descs[k].line;
    }
    assert Line(info.chip, k) in before;
    var bits := if raw then values else Flip(values, info.invertMask);
    var mid := BulkSet(hw, before, info.chip, info.setMask, bits);
    assert mid[l] == SetRaw(hw, l, before[l], values[k]);
    var left := Upto(info.setMask, |descs|);
    WrittenIsWriteMarked(raw, hw, mid, WriteMarked(raw, hw, mid, descs, values, left), descs, values, left);
    forall i | 0 <= i < |descs| && left[i]
      ensures descs[i].line != l
    {
      assert i < k && InPlace(descs, i);
    }
    assert Spared(descs, left, l);
  }

  /** Single-line calls leave a line alone, or drive it as the value of the one index naming it says. */
  lemma UnnamedValueIsIdle<L>(
      raw: bool, hw: Hw<L>, before: map<Line, Cell<L>>, descs: seq<Desc>, values: seq<bool>, k: nat, v: bool, l: Line)
    requires |descs| == |values| && Present(before, descs) && Distinct(descs) && k < |descs|
    requires l in before && descs[k].line != l
    ensures l in WriteEach(raw, hw, before, descs, values) && l in WriteEach(raw, hw, before, descs, values[k := v])
    ensures WriteEach(raw, hw, before, descs, values)[l] == WriteEach(raw, hw, before, descs, values[k := v])[l]
  {
    var values' := values[k := v];
    var all := Everywhere(|descs|);
    var a, b := WriteEach(raw, hw, before, descs, values), WriteEach(raw, hw, before, descs, values');
    WrittenAllIsWriteEach(raw, hw, before, a, descs, values);
    WrittenAllIsWriteEach(raw, hw, before, b, descs, values');
    if !Spared(descs, all, l) {
      var i :| 0 <= i < |descs| && descs[i].line == l;
      assert all[i] && values'[i] == values[i];
    }
  }

  /** The bulk write through these masks does what single calls do, for all values. */
  ghost predicate ActsLikeSingles<L>(
      raw: bool, hw: Hw<L>, before: map<Line, Cell<L>>, descs: seq<Desc>, info: ArrayInfo)
    requires Present(before, descs) && Usable(info, descs)
  {
    forall values: seq<bool> | |values| == |descs| ::
      BulkWrite(raw, hw, before, descs, values, info) == WriteEach(raw, hw, before, descs, values)
  }

  lemma SinglesFor<L>(
      raw: bool, hw: Hw<L>, before: map<Line, Cell<L>>, descs: seq<Desc>, info: ArrayInfo, values: seq<bool>)
    requires Present(before, descs) && Usable(info, descs) && |values| == |descs|
    requires ActsLikeSingles(raw, hw, before, descs, info)
    ensures BulkWrite(raw, hw, before, descs, values, info) == WriteEach(raw, hw, before, descs, values)
  {
  }

  /** A bulk write through dropped masks drives a line by a value that single calls do not use for it. */
  lemma DroppedDiffers<L(!new)>(
      raw: bool, hw: Hw<L>, before: map<Line, Cell<L>>, descs: seq<Desc>, info: ArrayInfo, k: nat, low: seq<bool>)
    requires Present(before, descs) && Distinct(descs) && Consecutive(before) && Responsive(hw)
    requires DropsAt(descs, k) && MasksUpTo(info, descs, k) && |low| == |descs| && !low[k]
    ensures BulkWrite(raw, hw, before, descs, low, info) != WriteEach(raw, hw, before, descs, low)
            || BulkWrite(raw, hw, before, descs, low[k := true], info) != WriteEach(raw, hw, before, descs, low[k := true])
  {
    var high := low[k := true];
    var l := Line(info.chip, k);
    DroppedIndexIsDriven(raw, hw, before, descs, low, info, k);
    DroppedIndexIsDriven(raw, hw, before, descs, high, info, k);
    UnnamedValueIsIdle(raw, hw, before, descs, low, k, true, l);
    assert SetRaw(hw, l, before[l], false) != SetRaw(hw, l, before[l], true);
  }

  /**
   End to end: through the masks that `gpiod_get_array` leaves in `descs->info`, the bulk write does what single
   calls do for all values, if and only if the candidate was not dropped.
   */
  lemma BulkWriteIffNotDropped<L(!new)>(
      raw: bool, hw: Hw<L>, before: map<Line, Cell<L>>, descs: seq<Desc>, info: ArrayInfo)
    requires Present(before, descs) && Distinct(descs) && Consecutive(before) && Responsive(hw)
    requires MasksUpTo(info, descs, DropIndex(descs))
    ensures ActsLikeSingles(raw, hw, before, descs, info) <==> !Abandons(descs)
  {
    if Abandons(descs) {
      var k := DropIndex(descs);
      var low := seq(|descs|, _ => false);
      DroppedDiffers(raw, hw, before, descs, info, k, low);
      if ActsLikeSingles(raw, hw, before, descs, info) {
        SinglesFor(raw, hw, before, descs, info, low);
        SinglesFor(raw, hw, before, descs, info, low[k := true]);
      }
    } else {
      MasksFitIff(info, descs);
      forall values: seq<bool> | |values| == |descs|
        ensures BulkWrite(raw, hw, before, descs, values, info) == WriteEach(raw, hw, before, descs, values)
      {
        FittingBulkWrite(raw, hw, before, descs, values, info);
      }
    }
  }

  /** Push-pull lines whose state is the level they are driven to. */
  function PlainHw(): Hw<bool> {
    Hw((l: Line, c: bool, v: bool) => v, (l: Line, c: bool) => (c, 0),
       (l: Line, c: bool, v: bool) => (v, 0), (l: Line, c: bool) => if c then 1 else 0)
  }

  /** A chip with three lines, all low. */
  function ThreeLow(): map<Line, Cell<bool>> {
    map[Line(0, 0) := Cell(false, true), Line(0, 1) := Cell(false, true), Line(0, 2) := Cell(false, true)]
  }

  function ZeroAndTwo(): seq<Desc> {
    [Desc(Line(0, 0), false, false, false), Desc(Line(0, 2), false, false, false)]
  }

  /** An example: for lines 0 and 2 of a chip, the masks `gpiod_get_array` leaves make the bulk write drive line 1. */
  lemma DroppedMasksMisdirect(info: ArrayInfo)
    requires MasksUpTo(info, ZeroAndTwo(), DropIndex(ZeroAndTwo()))
    ensures Abandons(ZeroAndTwo()) && Line(0, 1) in ThreeLow()
    ensures BulkWrite(false, PlainHw(), ThreeLow(), ZeroAndTwo(), [true, true], info)[Line(0, 1)].level
    ensures !WriteEach(false, PlainHw(), ThreeLow(), ZeroAndTwo(), [true, true])[Line(0, 1)].level
  {
    var descs := ZeroAndTwo();
    assert InPlace(descs, 0) && DropsAt(descs, 1);
    DroppedIndexIsDriven(false, PlainHw(), ThreeLow(), descs, [true, true], info, 1);
    var each := WriteEach(false, PlainHw(), ThreeLow(), descs, [true, true]);
    WrittenAllIsWriteEach(false, PlainHw(), ThreeLow(), each, descs, [true, true]);
    assert Spared(descs, Everywhere(2), Line(0, 1));
  }

  // ---------------------------------------------------------------------------------------------
  // The bulk read with masks that may not fit
  // ---------------------------------------------------------------------------------------------

  /** What the bulk read takes index `i` for: the fast chip's line of that number where the get mask says so. */
  function Taken(info: ArrayInfo, descs: seq<Desc>, i: nat): Desc
    requires i < |descs| == |info.getMask| == |info.invertMask|
  {
    if info.getMask[i] then Desc(Line(info.chip, i), info.invertMask[i], false, false) else descs[i]
  }

  /** Reading through masks that fit is reading the lines themselves. */
  lemma FittingRead<L>(raw: bool, hw: Hw<L>, lines: map<Line, Cell<L>>, descs: seq<Desc>, info: ArrayInfo, i: nat)
    requires WellFormed(info, descs) && i < |descs| && descs[i].line in lines
    ensures Taken(info, descs, i).line == descs[i].line
    ensures ReadOne(raw, hw, Taken(info, descs, i), lines[descs[i].line]) == ReadOne(raw, hw, descs[i], lines[descs[i].line])
  {
  }

  /** Whatever state the lines are in, the bulk read through these masks gives at every index what a single read does. */
  ghost predicate ReadsLikeSingles<L(!new)>(raw: bool, hw: Hw<L>, keys: set<Line>, descs: seq<Desc>, info: ArrayInfo)
    requires Usable(info, descs) && forall d <- descs :: d.line in keys
  {
    forall lines: map<Line, Cell<L>>, i: nat | lines.Keys == keys && i < |descs| ::
      Taken(info, descs, i).line in keys &&
      ReadOne(raw, hw, Taken(info, descs, i), lines[Taken(info, descs, i).line]) ==
      ReadOne(raw, hw, descs[i], lines[descs[i].line])
  }

  ghost predicate CanRead<L(!new)>(hw: Hw<L>, l: Line, high: bool) {
    exists c: L :: if high then hw.getLine(l, c) > 0 else hw.getLine(l, c) == 0
  }

  /** Every line can be low and can be high. */
  ghost predicate Legible<L(!new)>(hw: Hw<L>) {
    forall l: Line :: CanRead(hw, l, false) && CanRead(hw, l, true)
  }

  /** Where the candidate was dropped, the bulk read follows a line that a single read does not look at. */
  lemma DroppedReadDiffers<L(!new)>(
      raw: bool, hw: Hw<L>, lines: map<Line, Cell<L>>, descs: seq<Desc>, info: ArrayInfo, k: nat)
    requires Present(lines, descs) && Distinct(descs) && Consecutive(lines) && Legible(hw)
    requires DropsAt(descs, k) && MasksUpTo(info, descs, k)
    ensures !ReadsLikeSingles(raw, hw, lines.Keys, descs, info)
  {
    var l, h := Line(info.chip, k), descs[k].line.hw;
    assert descs[k] in descs && descs[k].line == Line(info.chip, h);
    forall j: nat | j < k ensures descs[j].line == Line(info.chip, j) && j != h {
      assert InPlace(descs, j) && descs[j].line != descs[k].line;
    }
    assert l in lines && Taken(info, descs, k) == Desc(l, false, false, false);
    assert CanRead(hw, l, false) && CanRead(hw, l, true);
    var c0: L :| hw.getLine(l, c0) == 0;
    var c1: L :| hw.getLine(l, c1) > 0;
    var low, high := lines[l := Cell(c0, true)], lines[l := Cell(c1, true)];
    assert low.Keys == lines.Keys && high.Keys == lines.Keys;
    assert ReadOne(raw, hw, Taken(info, descs, k), low[l]) == 0 && ReadOne(raw, hw, Taken(info, descs, k), high[l]) == 1;
    assert low[descs[k].line] == high[descs[k].line];
  }

  /**
   End to end: through the masks that `gpiod_get_array` leaves in `descs->info`, the bulk read gives what single
   reads give in every state of the lines, if and only if the candidate was not dropped.
   */
  lemma BulkReadIffNotDropped<L(!new)>(
      raw: bool, hw: Hw<L>, lines: map<Line, Cell<L>>, descs: seq<Desc>, info: ArrayInfo)
    requires Present(lines, descs) && Distinct(descs) && Consecutive(lines) && Legible(hw)
    requires MasksUpTo(info, descs, DropIndex(descs))
    ensures ReadsLikeSingles(raw, hw, lines.Keys, descs, info) <==> !Abandons(descs)
  {
    if Abandons(descs) {
      DroppedReadDiffers(raw, hw, lines, descs, info, DropIndex(descs));
    } else {
      MasksFitIff(info, descs);
      forall now: map<Line, Cell<L>>, i: nat | now.Keys == lines.Keys && i < |descs|
        ensures Taken(info, descs, i).line in lines.Keys &&
                ReadOne(raw, hw, Taken(info, descs, i), now[Taken(info, descs, i).line]) ==
                ReadOne(raw, hw, descs[i], now[descs[i].line])
      {
        assert descs[i] in descs;
        FittingRead(raw, hw, now, descs, info, i);
      }
    }
  }

  // ---------------------------------------------------------------------------------------------
  // One round of the sweep
  // ---------------------------------------------------------------------------------------------

  /** The lines collected for one chip: `pend` marks the indices, `mask` and `bits` hold their lines. */
  ghost predicate Collected(
      raw: bool, descs: seq<Desc>, values: seq<bool>, chip: nat, mask: seq<bool>, bits: seq<bool>, pend: seq<bool>)
    requires |descs| == |values| == |pend| && |mask| == |bits|
  {
    && (forall j :: 0 <= j < |descs| && pend[j] ==>
          && descs[j].line.chip == chip && descs[j].line.hw < |mask|
          && mask[descs[j].line.hw] && bits[descs[j].line.hw] == Effective(raw, descs[j], values[j])
          && !Individually(raw, descs[j]))
    && (forall h: nat | h < |mask| && mask[h] ::
          exists j :: 0 <= j < |descs| && pend[j] && descs[j].line == Line(chip, h))
  }

  /** One more line collected; lines are distinct, so no bit collected before is overwritten. */
  lemma CollectNext(
      raw: bool, descs: seq<Desc>, values: seq<bool>, chip: nat, mask: seq<bool>, bits: seq<bool>, pend: seq<bool>, i: nat)
    requires |descs| == |values| == |pend| && |mask| == |bits| && Distinct(descs) && i < |descs| && !pend[i]
    requires Collected(raw, descs, values, chip, mask, bits, pend)
    requires descs[i].line.chip == chip && descs[i].line.hw < |mask| && !Individually(raw, descs[i])
    ensures var h := descs[i].line.hw;
            Collected(raw, descs, values, chip, mask[h := true],
                      bits[h := Effective(raw, descs[i], values[i])], pend[i := true])
  {
    var k := descs[i].line.hw;
    var pend' := pend[i := true];
    forall j | 0 <= j < |descs| && pend[j]
      ensures descs[j].line.hw != k
    {
      assert descs[j].line == Line(chip, descs[j].line.hw) && descs[i].line == Line(chip, k);
    }
    forall h: nat | h < |mask| && mask[k := true][h]
      ensures exists j :: 0 <= j < |descs| && pend'[j] && descs[j].line == Line(chip, h)
    {
      if h == k {
        assert pend'[i] && descs[i].line == Line(chip, k);
      } else {
        var j :| 0 <= j < |descs| && pend[j] && descs[j].line == Line(chip, h);
        assert pend'[j];
      }
    }
  }

  /** Every index before `i` that is not skipped is either done or pending, not both, and no other is. */
  ghost predicate Bookkept(skip: seq<bool>, done: seq<bool>, pend: seq<bool>, i: nat) {
    && |skip| == |done| == |pend|
    && (forall j :: 0 <= j < |skip| ==> ((done[j] || pend[j]) <==> !skip[j] && j < i))
    && (forall j :: 0 <= j < |skip| ==> !(done[j] && pend[j]))
  }

  lemma BookNext(skip: seq<bool>, done: seq<bool>, pend: seq<bool>, i: nat)
    requires Bookkept(skip, done, pend, i) && i < |skip| && !skip[i]
    ensures !done[i] && !pend[i]
    ensures Bookkept(skip, done[i := true], pend, NextZero(skip, i + 1))
    ensures Bookkept(skip, done, pend[i := true], NextZero(skip, i + 1))
  {
  }

  /** A masked line belongs to a pending index, so no other index names it. */
  lemma MaskedIsPending(
      raw: bool, descs: seq<Desc>, values: seq<bool>, chip: nat, mask: seq<bool>, bits: seq<bool>, pend: seq<bool>, h: nat)
    returns (j: nat)
    requires |descs| == |values| == |pend| && |mask| == |bits| && Distinct(descs)
    requires Collected(raw, descs, values, chip, mask, bits, pend) && h < |mask| && mask[h]
    ensures j < |descs| && pend[j] && descs[j].line == Line(chip, h)
    ensures forall i :: 0 <= i < |descs| && descs[i].line == Line(chip, h) ==> i == j
  {
    j :| j < |descs| && pend[j] && descs[j].line == Line(chip, h);
  }

  /** Pushing leaves lines alone that no pending index names. */
  lemma PushSpares<L>(
      raw: bool, hw: Hw<L>, mid: map<Line, Cell<L>>, after: map<Line, Cell<L>>,
      descs: seq<Desc>, values: seq<bool>, chip: nat, mask: seq<bool>, bits: seq<bool>, pend: seq<bool>, l: Line)
    requires |descs| == |values| == |pend| && |mask| == |bits| && Distinct(descs)
    requires Collected(raw, descs, values, chip, mask, bits, pend)
    requires after == BulkSet(hw, mid, chip, mask, bits) && l in mid && Spared(descs, pend, l)
    ensures after[l] == mid[l]
  {
    if l.chip == chip && l.hw < |mask| && mask[l.hw] {
      var j := MaskedIsPending(raw, descs, values, chip, mask, bits, pend, l.hw);
    }
  }

  /** What pushing does to the line of one index that is done or pending. */
  lemma PushIndex<L>(
      raw: bool, hw: Hw<L>, before: map<Line, Cell<L>>, mid: map<Line, Cell<L>>, after: map<Line, Cell<L>>,
      descs: seq<Desc>, values: seq<bool>, chip: nat, mask: seq<bool>, bits: seq<bool>, done: seq<bool>, pend: seq<bool>, i: nat)
    requires |descs| == |values| == |pend| == |done| && |mask| == |bits| && Present(before, descs) && Distinct(descs)
    requires Written(raw, hw, before, mid, descs, values, done)
    requires Collected(raw, descs, values, chip, mask, bits, pend)
    requires forall j :: 0 <= j < |descs| && pend[j] ==> !done[j]
    requires after == BulkSet(hw, mid, chip, mask, bits) && i < |descs| && (done[i] || pend[i])
    ensures after[descs[i].line] == WriteOne(raw, hw, descs[i], before[descs[i].line], values[i])
  {
    var l := descs[i].line;
    if pend[i] {
      assert Spared(descs, done, l);
      assert l == Line(chip, l.hw);
    } else {
      assert Spared(descs, pend, l);
      PushSpares(raw, hw, mid, after, descs, values, chip, mask, bits, pend, l);
    }
  }

  lemma SparedByBoth(descs: seq<Desc>, done: seq<bool>, pend: seq<bool>, l: Line)
    requires |descs| == |done| == |pend| && Spared(descs, Either(done, pend), l)
    ensures Spared(descs, done, l) && Spared(descs, pend, l)
  {
    forall i | 0 <= i < |descs| && (done[i] || pend[i]) ensures descs[i].line != l {
      assert Either(done, pend)[i];
    }
  }

  /** Pushing the collected bits writes exactly the pending lines. */
  lemma PushWrites<L>(
      raw: bool, hw: Hw<L>, before: map<Line, Cell<L>>, mid: map<Line, Cell<L>>, after: map<Line, Cell<L>>,
      descs: seq<Desc>, values: seq<bool>, chip: nat, mask: seq<bool>, bits: seq<bool>, done: seq<bool>, pend: seq<bool>)
    requires |descs| == |values| == |pend| == |done| && |mask| == |bits| && Present(before, descs) && Distinct(descs)
    requires Written(raw, hw, before, mid, descs, values, done)
    requires Collected(raw, descs, values, chip, mask, bits, pend)
    requires forall j :: 0 <= j < |descs| && pend[j] ==> !done[j]
    requires after == BulkSet(hw, mid, chip, mask, bits)
    ensures Written(raw, hw, before, after, descs, values, Either(done, pend))
  {
    forall i | 0 <= i < |descs| && Either(done, pend)[i]
      ensures after[descs[i].line] == WriteOne(raw, hw, descs[i], before[descs[i].line], values[i])
    {
      PushIndex(raw, hw, before, mid, after, descs, values, chip, mask, bits, done, pend, i);
    }
    forall l | l in before && Spared(descs, Either(done, pend), l)
      ensures after[l] == before[l]
    {
      SparedByBoth(descs, done, pend, l);
      PushSpares(raw, hw, mid, after, descs, values, chip, mask, bits, pend, l);
    }
  }

  class Bus<L> {
    const hw: Hw<L>
    /** Number of lines of each chip. */
    const ngpio: nat -> nat
    var lines: map<Line, Cell<L>>

    constructor (hw: Hw<L>, ngpio: nat -> nat, lines: map<Line, Cell<L>>)
      ensures this.hw == hw && this.ngpio == ngpio && this.lines == lines
    {
      this.hw, this.ngpio, this.lines := hw, ngpio, lines;
    }

    ghost predicate Has(descs: seq<Desc>)
      reads this
    {
      Present(lines, descs) && forall d <- descs :: d.line.hw < ngpio(d.line.chip)
    }

    /** The chips of the array have all their lines. */
    ghost predicate Whole(descs: seq<Desc>)
      reads this
    {
      forall d <- descs :: WholeChip(d.line)
    }

    /** A line is there exactly if its number is below its chip's number of lines. */
    ghost predicate WholeChip(l: Line)
      reads this
    {
      forall h: nat :: Line(l.chip, h) in lines <==> h < ngpio(l.chip)
    }

    /** `gpio_chip_set_multiple`; mask bits past the chip's last line are ignored. */
    method SetMultiple(chip: nat, mask: seq<bool>, bits: seq<bool>)
      requires |mask| <= |bits|
      requires WholeChip(Line(chip, 0))
      modifies this
      ensures lines == BulkSet(hw, old(lines), chip, mask, bits)
    {
      for i := 0 to ngpio(chip)
        invariant lines.Keys == old(lines.Keys)
        invariant forall l <- lines ::
          lines[l] == if l.chip == chip && l.hw < i && l.hw < |mask| && mask[l.hw]
                      then SetRaw(hw, l, old(lines)[l], bits[l.hw]) else old(lines)[l]
      {
        if i < |mask| && mask[i] {
          var l := Line(chip, i);
          lines := lines[l := SetRaw(hw, l, lines[l], bits[i])];
        }
      }
    }

    /** Sets an open-drain or open-source output at once. */
    method SetIndividually(
        descs: seq<Desc>, i: nat, value: bool,
        ghost before: map<Line, Cell<L>>, ghost values: seq<bool>, ghost done: seq<bool>)
      requires |descs| == |values| == |done| && Has(descs) && Distinct(descs) && Present(before, descs)
      requires i < |descs| && !done[i] && Individually(false, descs[i])
      requires value == Effective(false, descs[i], values[i])
      requires Written(false, hw, before, lines, descs, values, done)
      modifies this
      ensures lines.Keys == old(lines.Keys) && Written(false, hw, before, lines, descs, values, done[i := true])
    {
      var d := descs[i];
      WriteNext(false, hw, before, lines, descs, values, done, i);
      if d.openDrain {
        lines := lines[d.line := SetOpenDrain(hw, d.line, lines[d.line], value)];
      } else {
        lines := lines[d.line := SetOpenSource(hw, d.line, lines[d.line], value)];
      }
    }

    /** `push collected bits to outputs`. */
    method Push(
        raw: bool, descs: seq<Desc>, chip: nat, mask: seq<bool>, bits: seq<bool>, count: nat,
        ghost before: map<Line, Cell<L>>, ghost values: seq<bool>, ghost done: seq<bool>, ghost pend: seq<bool>)
      requires |descs| == |values| == |pend| == |done| && |mask| == |bits| == ngpio(chip)
      requires WholeChip(Line(chip, 0)) && Present(before, descs) && Distinct(descs)
      requires Written(raw, hw, before, lines, descs, values, done)
      requires Collected(raw, descs, values, chip, mask, bits, pend)
      requires forall j :: 0 <= j < |descs| ==> !(done[j] && pend[j])
      requires count == 0 ==> forall j :: 0 <= j < |descs| ==> !pend[j]
      modifies this
      ensures lines.Keys == old(lines.Keys)
      ensures Written(raw, hw, before, lines, descs, values, Either(done, pend))
    {
      if count != 0 {
        ghost var mid := lines;
        SetMultiple(chip, mask, bits);
        PushWrites(raw, hw, before, mid, lines, descs, values, chip, mask, bits, done, pend);
      } else {
        assert Either(done, pend) == done;
      }
    }

    /**
     The collecting loop of one round: from `first` on, as long as the lines belong to the same chip.
     `flipped` marks values already inverted by the fast path.
     */
    method Collect(
        raw: bool, descs: seq<Desc>, skip: seq<bool>, flipped: seq<bool>, bitmap: seq<bool>, first: nat,
        ghost before: map<Line, Cell<L>>, ghost values: seq<bool>)
      returns (i: nat, mask: seq<bool>, bits: seq<bool>, count: nat, ghost done: seq<bool>, ghost pend: seq<bool>)
      requires |descs| == |skip| == |flipped| == |values| && bitmap == Flip(values, flipped)
      requires Has(descs) && Distinct(descs) && Present(before, descs)
      requires first < |descs| && !skip[first]
      requires forall j :: 0 <= j < |descs| && flipped[j] ==> descs[j].activeLow && !raw
      requires Written(raw, hw, before, lines, descs, values, Upto(skip, first))
      modifies this
      ensures lines.Keys == old(lines.Keys)
      ensures first < i <= |descs| && (i < |descs| ==> !skip[i])
      ensures Bookkept(skip, done, pend, i) && |mask| == |bits| == ngpio(descs[first].line.chip)
      ensures Written(raw, hw, before, lines, descs, values, done)
      ensures Collected(raw, descs, values, descs[first].line.chip, mask, bits, pend)
      ensures count == 0 ==> forall j :: 0 <= j < |pend| ==> !pend[j]
    {
      var n := |descs|;
      var chip := descs[first].line.chip;
      mask, bits, count := seq(ngpio(chip), _ => false), seq(ngpio(chip), _ => false), 0;
      done, pend := Upto(skip, first), seq(n, _ => false);
      i := first;
      var more := true;
      while more
        invariant first <= i <= n && (i < n ==> !skip[i]) && (more ==> i < n && descs[i].line.chip == chip)
        invariant |mask| == |bits| == ngpio(chip) && |done| == |pend| == n
        invariant !more ==> first < i
        invariant lines.Keys == old(lines.Keys)
        invariant Bookkept(skip, done, pend, i)
        invariant Written(raw, hw, before, lines, descs, values, done)
        invariant Collected(raw, descs, values, chip, mask, bits, pend)
        invariant count == 0 ==> forall j :: 0 <= j < n ==> !pend[j]
        decreases n - i, more
      {
        var d := descs[i];
        assert d in descs;
        var value := bitmap[i];
        if !raw && !flipped[i] && d.activeLow {
          value := !value;
        }
        assert value == Effective(raw, d, values[i]);
        BookNext(skip, done, pend, i);
        if Individually(raw, d) {
          SetIndividually(descs, i, value, before, values, done);
          done := done[i := true];
        } else {
          CollectNext(raw, descs, values, chip, mask, bits, pend, i);
          mask, bits, count := mask[d.line.hw := true], bits[d.line.hw := value], count + 1;
          pend := pend[i := true];
        }
        i := NextZero(skip, i + 1);
        more := i < n && descs[i].line.chip == chip;
      }
    }

    /** One round of the sweep: the outputs of one chip are collected and pushed together. */
    method SweepChip(
        raw: bool, descs: seq<Desc>, skip: seq<bool>, flipped: seq<bool>, bitmap: seq<bool>, first: nat,
        ghost before: map<Line, Cell<L>>, ghost values: seq<bool>)
      returns (i: nat)
      requires |descs| == |skip| == |flipped| == |values| && bitmap == Flip(values, flipped)
      requires Has(descs) && Whole(descs) && Distinct(descs) && Present(before, descs)
      requires first < |descs| && !skip[first]
      requires forall j :: 0 <= j < |descs| && flipped[j] ==> descs[j].activeLow && !raw
      requires Written(raw, hw, before, lines, descs, values, Upto(skip, first))
      modifies this
      ensures lines.Keys == old(lines.Keys)
      ensures first < i <= |descs| && (i < |descs| ==> !skip[i])
      ensures Written(raw, hw, before, lines, descs, values, Upto(skip, i))
    {
      var mask, bits, count;
      ghost var done, pend;
      i, mask, bits, count, done, pend := Collect(raw, descs, skip, flipped, bitmap, first, before, values);
      assert descs[first] in descs && WholeChip(descs[first].line);
      Push(raw, descs, descs[first].line.chip, mask, bits, count, before, values, done, pend);
      assert Either(done, pend) == Upto(skip, i);
    }

    /** `bitmap_xor` into its first operand. */
    static method Xor(value: array<bool>, flipped: seq<bool>)
      requires value.Length == |flipped|
      modifies value
      ensures value[..] == Flip(old(value[..]), flipped)
    {
      for k := 0 to value.Length
        invariant forall j :: 0 <= j < k ==> value[j] == (old(value[j]) != flipped[j])
        invariant forall j :: k <= j < value.Length ==> value[j] == old(value[j])
      {
        value[k] := value[k] != flipped[k];
      }
    }

    /** The fast path: values are inverted in place, then the set mask is written with one call. */
    method FastWrite(raw: bool, descs: seq<Desc>, a: ArrayInfo, value: array<bool>)
      requires value.Length == |descs| && Usable(a, descs) && WholeChip(Line(a.chip, 0))
      modifies this, value
      ensures value[..] == if raw then old(value[..]) else Flip(old(value[..]), a.invertMask)
      ensures lines == BulkSet(hw, old(lines), a.chip, a.setMask, value[..])
    {
      if !raw {
        Xor(value, a.invertMask);
      }
      SetMultiple(a.chip, a.setMask, value[..]);
    }

    /** The sweep over the leftover indices, chip by chip. */
    method Sweep(
        raw: bool, descs: seq<Desc>, skip: seq<bool>, flipped: seq<bool>, bitmap: seq<bool>, ghost values: seq<bool>)
      requires |descs| == |skip| == |flipped| == |values| && bitmap == Flip(values, flipped)
      requires Has(descs) && Whole(descs) && Distinct(descs)
      requires forall j :: 0 <= j < |descs| && flipped[j] ==> descs[j].activeLow && !raw
      modifies this
      ensures lines == WriteMarked(raw, hw, old(lines), descs, values, Upto(skip, |descs|))
    {
      var n := |descs|;
      var i := NextZero(skip, 0);
      while i < n
        invariant i <= n && (i < n ==> !skip[i]) && Has(descs) && Whole(descs) && lines.Keys == old(lines.Keys)
        invariant Written(raw, hw, old(lines), lines, descs, values, Upto(skip, i))
      {
        i := SweepChip(raw, descs, skip, flipped, bitmap, i, old(lines), values);
      }
      WrittenIsWriteMarked(raw, hw, old(lines), lines, descs, values, Upto(skip, n));
    }

    /**
     The bulk write.  Whatever the masks, it does what `BulkWrite` says; with none, or with masks that fit, every
     line and IS_OUT flag ends up as one `gpiod_set_value_nocheck` (or raw write) per index would leave it.  The
     caller's bitmap is left inverted where the fast path inverted it.
     */
    method SetArrayValueComplex(raw: bool, descs: seq<Desc>, info: Option<ArrayInfo>, value: array<bool>)
      requires value.Length == |descs| && Has(descs) && Whole(descs) && Distinct(descs)
      requires info.Some? ==> Usable(info.value, descs) && WholeChip(Line(info.value.chip, 0))
      modifies this, value
      ensures info.None? || WellFormed(info.value, descs) ==>
        lines == WriteEach(raw, hw, old(lines), descs, old(value[..]))
      ensures info.Some? ==> lines == BulkWrite(raw, hw, old(lines), descs, old(value[..]), info.value)
      ensures value[..] == if raw || info.None? then old(value[..]) else Flip(old(value[..]), info.value.invertMask)
    {
      var none := seq(|descs|, _ => false);
      ghost var values := value[..];
      if info.None? {
        assert value[..] == Flip(values, none) && Upto(none, |descs|) == Everywhere(|descs|);
        Sweep(raw, descs, none, none, value[..], values);
      } else {
        FastWrite(raw, descs, info.value, value);
        var flipped := if raw then none else info.value.invertMask;
        assert value[..] == Flip(values, flipped);
        Sweep(raw, descs, info.value.setMask, flipped, value[..], values);
        if WellFormed(info.value, descs) {
          FittingBulkWrite(raw, hw, old(lines), descs, values, info.value);
        }
      }
    }

    // -------------------------------------------------------------------------------------------
    // Reading
    // -------------------------------------------------------------------------------------------

    /** `gpio_chip_get_multiple`: fails as soon as one masked line of the chip fails; other bits are left alone. */
    method GetMultiple(chip: nat, mask: seq<bool>, bits: seq<bool>) returns (ret: int, out: seq<bool>)
      requires |mask| <= |bits|
      requires forall h: nat | h < |mask| && mask[h] && h < ngpio(chip) :: Line(chip, h) in lines
      ensures |out| == |bits| && ret <= 0
      ensures ret == 0 ==> forall h: nat | h < |bits| ::
        if h < |mask| && mask[h] && h < ngpio(chip) then LineReads(Line(chip, h), out[h]) else out[h] == bits[h]
      ensures ret < 0 ==> exists h: nat :: h < |mask| && mask[h] && h < ngpio(chip) && LineFails(Line(chip, h), ret)
    {
      ret, out := 0, bits;
      for i := 0 to ngpio(chip)
        invariant |out| == |bits|
        invariant forall h: nat | h < |bits| ::
          if h < |mask| && mask[h] && h < i then LineReads(Line(chip, h), out[h]) else out[h] == bits[h]
      {
        if i < |mask| && mask[i] {
          var value := hw.getLine(Line(chip, i), lines[Line(chip, i)].level);
          if value < 0 {
            assert LineFails(Line(chip, i), value);
            return value, out;
          }
          out := out[i := value != 0];
        }
      }
    }

    ghost predicate LineReads(l: Line, bit: bool)
      requires l in lines
      reads this
    {
      var v := hw.getLine(l, lines[l].level);
      v >= 0 && bit == (v != 0)
    }

    ghost predicate LineFails(l: Line, ret: int)
      requires l in lines
      reads this
    {
      ret < 0 && hw.getLine(l, lines[l].level) == ret
    }

    /** `value` is what a single-line read of index `i` gives. */
    ghost predicate ReadsAs(raw: bool, descs: seq<Desc>, i: nat, value: bool)
      requires i < |descs| && Present(lines, descs)
      reads this
    {
      ReadOne(raw, hw, descs[i], lines[descs[i].line]) == if value then 1 else 0
    }

    /** Some single-line read in the array fails with `ret`. */
    ghost predicate SomeReadFails(raw: bool, descs: seq<Desc>, ret: int)
      requires Present(lines, descs)
      reads this
    {
      ret < 0 && exists d :: d in descs && ReadOne(raw, hw, d, lines[d.line]) == ret
    }

    /** The fast chip has all its lines, and the masks are as long as the array. */
    ghost predicate Readable(a: ArrayInfo, descs: seq<Desc>)
      reads this
    {
      Usable(a, descs) && WholeChip(Line(a.chip, 0))
    }

    /** `value` is what a read through the masks gives at index `i`; past the chip's last line it is `was`, as given. */
    ghost predicate TakenAs(raw: bool, descs: seq<Desc>, a: ArrayInfo, i: nat, value: bool, was: bool)
      requires i < |descs| && Present(lines, descs) && Readable(a, descs)
      reads this
    {
      var d := Taken(a, descs, i);
      assert !a.getMask[i] ==> d in descs;
      if d.line in lines then ReadOne(raw, hw, d, lines[d.line]) == if value then 1 else 0
      else value == (was != (!raw && a.invertMask[i]))
    }

    /** Some read through the masks fails with `ret`. */
    ghost predicate SomeTakenFails(raw: bool, descs: seq<Desc>, a: ArrayInfo, ret: int)
      requires Present(lines, descs) && Readable(a, descs)
      reads this
    {
      && ret < 0
      && exists i: nat ::
           && i < |descs| && Taken(a, descs, i).line in lines
           && ReadOne(raw, hw, Taken(a, descs, i), lines[Taken(a, descs, i).line]) == ret
    }

    /** With masks that fit these are the single-line reads. */
    lemma TakenIsRead(raw: bool, descs: seq<Desc>, a: ArrayInfo, i: nat, value: bool, was: bool)
      requires i < |descs| && Present(lines, descs) && Readable(a, descs) && WellFormed(a, descs)
      ensures TakenAs(raw, descs, a, i, value, was) <==> ReadsAs(raw, descs, i, value)
    {
      assert descs[i] in descs;
      FittingRead(raw, hw, lines, descs, a, i);
    }

    lemma TakenFailsIsReadFails(raw: bool, descs: seq<Desc>, a: ArrayInfo, ret: int)
      requires Present(lines, descs) && Readable(a, descs) && WellFormed(a, descs) && SomeTakenFails(raw, descs, a, ret)
      ensures SomeReadFails(raw, descs, ret)
    {
      var i: nat :| i < |descs| && Taken(a, descs, i).line in lines &&
        ReadOne(raw, hw, Taken(a, descs, i), lines[Taken(a, descs, i).line]) == ret;
      assert descs[i] in descs;
      FittingRead(raw, hw, lines, descs, a, i);
    }

    /** The first round of the sweep: which lines of one chip to read, and where the next round starts. */
    method CollectInputs(descs: seq<Desc>, skip: seq<bool>, first: nat) returns (i: nat, mask: seq<bool>)
      requires |descs| == |skip| && Has(descs) && first < |descs| && !skip[first]
      ensures first < i <= |descs| && (i < |descs| ==> !skip[i])
      ensures |mask| == ngpio(descs[first].line.chip)
      ensures forall j :: first <= j < i && !skip[j] ==>
        descs[j].line.chip == descs[first].line.chip && descs[j].line.hw < |mask| && mask[descs[j].line.hw]
      ensures forall h: nat | h < |mask| && mask[h] ::
        exists j: nat :: j < |descs| && !skip[j] && descs[j].line == Line(descs[first].line.chip, h)
    {
      var n := |descs|;
      var chip := descs[first].line.chip;
      mask := seq(ngpio(chip), _ => false);
      i := first;
      var more := true;
      while more
        invariant first <= i <= n && (i < n ==> !skip[i]) && (more ==> i < n && descs[i].line.chip == chip)
        invariant |mask| == ngpio(chip) && (!more ==> first < i)
        invariant forall j :: first <= j < i && !skip[j] ==>
          descs[j].line.chip == chip && descs[j].line.hw < |mask| && mask[descs[j].line.hw]
        invariant forall h: nat | h < |mask| && mask[h] ::
          exists j: nat :: j < |descs| && !skip[j] && descs[j].line == Line(chip, h)
        decreases n - i, more
      {
        var d := descs[i];
        assert d in descs && !skip[i] && descs[i].line == Line(chip, d.line.hw);
        mask := mask[d.line.hw := true];
        i := NextZero(skip, i + 1);
        more := i < n && descs[i].line.chip == chip;
      }
    }

    /** Hands the bits read from one chip to the leftover indices of the round, each exactly once. */
    method Distribute(raw: bool, descs: seq<Desc>, skip: seq<bool>, first: nat, i: nat, bits: seq<bool>, value: array<bool>)
      requires |descs| == |skip| == value.Length && Has(descs) && first < i <= |descs| && !skip[first]
      requires forall j :: first <= j < i && !skip[j] ==>
        descs[j].line.hw < |bits| && LineReads(descs[j].line, bits[descs[j].line.hw])
      modifies value
      ensures forall j :: 0 <= j < |descs| ==>
        if first <= j < i && !skip[j] then ReadsAs(raw, descs, j, value[j]) else value[j] == old(value[j])
    {
      var j := first;
      while j < i
        invariant first <= j <= i && (j < i ==> !skip[j])
        invariant forall k :: 0 <= k < |descs| ==>
          if first <= k < j && !skip[k] then ReadsAs(raw, descs, k, value[k]) else value[k] == old(value[k])
      {
        var v := bits[descs[j].line.hw];
        if !raw && descs[j].activeLow {
          v := !v;
        }
        value[j] := v;
        var next := NextZero(skip[..i], j + 1);
        assert forall k :: j + 1 <= k < next ==> skip[..i][k] == skip[k];
        j := next;
      }
    }

    /** The fast path: one call reads the get mask, then values are inverted in place. */
    method FastRead(raw: bool, descs: seq<Desc>, a: ArrayInfo, value: array<bool>) returns (ret: int)
      requires value.Length == |descs| && Has(descs) && Readable(a, descs)
      modifies value
      ensures ret <= 0 && (ret < 0 ==> SomeTakenFails(raw, descs, a, ret))
      ensures ret == 0 ==> forall j: nat | j < |descs| && a.getMask[j] ::
        TakenAs(raw, descs, a, j, value[j], old(value[j]))
    {
      var out;
      ghost var was := value[..];
      ret, out := GetMultiple(a.chip, a.getMask, value[..]);
      if ret != 0 {
        ghost var h: nat :| h < a.size && a.getMask[h] && h < ngpio(a.chip) && LineFails(Line(a.chip, h), ret);
        assert Taken(a, descs, h).line == Line(a.chip, h);
        return;
      }
      forall k | 0 <= k < value.Length {
        value[k] := out[k];
      }
      if !raw {
        Xor(value, a.invertMask);
      }
      forall j: nat | j < |descs| && a.getMask[j] ensures TakenAs(raw, descs, a, j, value[j], was[j]) {
        assert value[..][j] == (out[j] != (!raw && a.invertMask[j]));
      }
    }

    /** One round of the sweep: the leftover lines of one chip are read together. */
    method ReadChip(raw: bool, descs: seq<Desc>, skip: seq<bool>, first: nat, value: array<bool>)
      returns (ret: int, next: nat)
      requires |descs| == |skip| == value.Length && Has(descs) && first < |descs| && !skip[first]
      modifies value
      ensures ret <= 0 && first < next <= |descs| && (next < |descs| ==> !skip[next])
      ensures ret == 0 ==> forall j: nat | j < |descs| ::
        if first <= j < next && !skip[j] then ReadsAs(raw, descs, j, value[j]) else value[j] == old(value[j])
      ensures ret < 0 ==> exists j: nat ::
        j < |descs| && !skip[j] && ReadOne(raw, hw, descs[j], lines[descs[j].line]) == ret
    {
      var mask;
      next, mask := CollectInputs(descs, skip, first);
      var bits := mask;
      var chip := descs[first].line.chip;
      ret, bits := GetMultiple(chip, mask, bits);
      if ret != 0 {
        ghost var h: nat :| h < |mask| && mask[h] && LineFails(Line(chip, h), ret);
        ghost var j: nat :| j < |descs| && !skip[j] && descs[j].line == Line(chip, h);
        assert ReadOne(raw, hw, descs[j], lines[descs[j].line]) == ret;
        return;
      }
      forall j | first <= j < next && !skip[j]
        ensures descs[j].line.hw < |bits| && LineReads(descs[j].line, bits[descs[j].line.hw])
      {
        assert descs[j].line == Line(chip, descs[j].line.hw);
      }
      Distribute(raw, descs, skip, first, next, bits, value);
    }

    /** The sweep over the leftover indices, chip by chip. */
    method ReadRest(raw: bool, descs: seq<Desc>, skip: seq<bool>, value: array<bool>) returns (ret: int)
      requires |descs| == |skip| == value.Length && Has(descs)
      modifies value
      ensures ret <= 0
      ensures ret == 0 ==> forall j: nat | j < |descs| ::
        if skip[j] then value[j] == old(value[j]) else ReadsAs(raw, descs, j, value[j])
      ensures ret < 0 ==> exists j: nat ::
        j < |descs| && !skip[j] && ReadOne(raw, hw, descs[j], lines[descs[j].line]) == ret
    {
      ret := 0;
      var i := NextZero(skip, 0);
      while i < |descs|
        invariant i <= |descs| && (i < |descs| ==> !skip[i]) && ret == 0
        invariant forall j: nat | j < |descs| ::
          if skip[j] then value[j] == old(value[j]) else j < i ==> ReadsAs(raw, descs, j, value[j])
      {
        ret, i := ReadChip(raw, descs, skip, i, value);
        if ret != 0 {
          return;
        }
      }
    }

    /**
     The bulk read.  With no masks, or masks that fit, it succeeds exactly when every single-line read would, and
     then returns at every index what that read gives; otherwise it returns the error of one of them.  With other
     masks it reads the lines that `Taken` says.
     */
    method GetArrayValueComplex(raw: bool, descs: seq<Desc>, info: Option<ArrayInfo>, value: array<bool>)
      returns (ret: int)
      requires value.Length == |descs| && Has(descs)
      requires info.Some? ==> Readable(info.value, descs)
      modifies value
      ensures ret <= 0
      ensures info.None? || WellFormed(info.value, descs) ==>
        && (ret == 0 ==> forall i: nat | i < |descs| :: ReadsAs(raw, descs, i, value[i]))
        && (ret < 0 ==> SomeReadFails(raw, descs, ret))
      ensures info.Some? ==>
        && (ret == 0 ==> forall i: nat | i < |descs| :: TakenAs(raw, descs, info.value, i, value[i], old(value[i])))
        && (ret < 0 ==> SomeTakenFails(raw, descs, info.value, ret))
    {
      if info.None? {
        ret := ReadRest(raw, descs, seq(|descs|, _ => false), value);
      } else {
        var a := info.value;
        ret := ReadMasked(raw, descs, a, value);
        if WellFormed(a, descs) {
          if ret < 0 {
            TakenFailsIsReadFails(raw, descs, a, ret);
          } else {
            forall i: nat | i < |descs| ensures ReadsAs(raw, descs, i, value[i]) {
              TakenIsRead(raw, descs, a, i, value[i], old(value[i]));
            }
          }
        }
      }
    }

    /** The fast path and the sweep over what it left. */
    method ReadMasked(raw: bool, descs: seq<Desc>, a: ArrayInfo, value: array<bool>) returns (ret: int)
      requires value.Length == |descs| && Has(descs) && Readable(a, descs)
      modifies value
      ensures ret <= 0
      ensures ret == 0 ==> forall i: nat | i < |descs| :: TakenAs(raw, descs, a, i, value[i], old(value[i]))
      ensures ret < 0 ==> SomeTakenFails(raw, descs, a, ret)
    {
      ret := FastRead(raw, descs, a, value);
      if ret != 0 {
        return;
      }
      ret := ReadRest(raw, descs, a.getMask, value);
      if ret < 0 {
        ghost var j: nat :| j < |descs| && !a.getMask[j] && ReadOne(raw, hw, descs[j], lines[descs[j].line]) == ret;
        assert descs[j] in descs && Taken(a, descs, j) == descs[j];
      } else {
        forall i: nat | i < |descs| && !a.getMask[i] ensures TakenAs(raw, descs, a, i, value[i], old(value[i])) {
          assert descs[i] in descs && ReadsAs(raw, descs, i, value[i]);
        }
      }
    }
  }
}
