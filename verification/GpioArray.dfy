/**
 GPIO arrays: the masks `gpiod_get_array` builds, and the bulk read and write that use them.  The
 reference is the single-line access: a bulk call must leave and return what one call per line would.

 A line's hardware is an arbitrary state `L` with arbitrary driver callbacks; the one assumption is
 that a callback on a line acts on that line only.
 */
module GpioArray {
  import opened Wrappers

  datatype Line = Line(chip: nat, hw: nat)

  datatype Desc = Desc(line: Line, activeLow: bool, openDrain: bool, openSource: bool)

  datatype Hw<!L> = Hw(
    setLine: (Line, L, bool) -> L,
    directionInput: (Line, L) -> (L, int),
    directionOutput: (Line, L, bool) -> (L, int),
    getLine: (Line, L) -> int)

  /** Hardware state of a line and its FLAG_IS_OUT. */
  datatype Cell<L> = Cell(level: L, isOut: bool)

  /** `struct gpio_array`, with the three bitmaps as bit sequences of `size` bits. */
  datatype ArrayInfo = ArrayInfo(
    size: nat, chip: nat, getMask: seq<bool>, setMask: seq<bool>, invertMask: seq<bool>)

  ghost predicate Distinct(descs: seq<Desc>) {
    forall i, j :: 0 <= i < j < |descs| ==> descs[i].line != descs[j].line
  }

  // ---------------------------------------------------------------------------------------------
  // One line at a time
  // ---------------------------------------------------------------------------------------------

  function SetRaw<L>(hw: Hw<L>, line: Line, c: Cell<L>, value: bool): Cell<L> {
    c.(level := hw.setLine(line, c.level, value))
  }

  function DriveOut<L>(hw: Hw<L>, line: Line, c: Cell<L>, value: bool): Cell<L> {
    var (level, ret) := hw.directionOutput(line, c.level, value);
    Cell(level, c.isOut || ret == 0)
  }

  function LetGo<L>(hw: Hw<L>, line: Line, c: Cell<L>): Cell<L> {
    c.(level := hw.directionInput(line, c.level).0)
  }

  function SetOpenDrain<L>(hw: Hw<L>, line: Line, c: Cell<L>, value: bool): Cell<L> {
    if value then LetGo(hw, line, c) else DriveOut(hw, line, c, false)
  }

  function SetOpenSource<L>(hw: Hw<L>, line: Line, c: Cell<L>, value: bool): Cell<L> {
    if value then DriveOut(hw, line, c, true) else LetGo(hw, line, c)
  }

  /** `gpiod_set_value_nocheck`. */
  function SetValue<L>(hw: Hw<L>, d: Desc, c: Cell<L>, value: bool): Cell<L> {
    var value := if d.activeLow then !value else value;
    if d.openDrain then SetOpenDrain(hw, d.line, c, value)
    else if d.openSource then SetOpenSource(hw, d.line, c, value)
    else SetRaw(hw, d.line, c, value)
  }

  function WriteOne<L>(raw: bool, hw: Hw<L>, d: Desc, c: Cell<L>, value: bool): Cell<L> {
    if raw then SetRaw(hw, d.line, c, value) else SetValue(hw, d, c, value)
  }

  /** `gpiod_get_value` and `gpiod_get_raw_value`: a negative error, or 0 or 1. */
  function ReadOne<L>(raw: bool, hw: Hw<L>, d: Desc, c: Cell<L>): int {
    var v := hw.getLine(d.line, c.level);
    if v < 0 then v
    else if (v != 0) != (!raw && d.activeLow) then 1 else 0
  }

  ghost predicate Present<L>(lines: map<Line, Cell<L>>, descs: seq<Desc>) {
    forall d <- descs :: d.line in lines
  }

  /** One single-line call per marked index, in order. */
  ghost function WriteMarked<L>(
      raw: bool, hw: Hw<L>, lines: map<Line, Cell<L>>, descs: seq<Desc>, values: seq<bool>, marked: seq<bool>)
    : (after: map<Line, Cell<L>>)
    requires |descs| == |values| == |marked| && Present(lines, descs)
    ensures after.Keys == lines.Keys
    decreases |descs|
  {
    if descs == [] then lines
    else
      var n := |descs| - 1;
      var before := WriteMarked(raw, hw, lines, descs[..n], values[..n], marked[..n]);
      if marked[n]
      then before[descs[n].line := WriteOne(raw, hw, descs[n], before[descs[n].line], values[n])]
      else before
  }

  /** The reference for writing: one single-line call per index, in order. */
  ghost function WriteEach<L>(
      raw: bool, hw: Hw<L>, lines: map<Line, Cell<L>>, descs: seq<Desc>, values: seq<bool>): map<Line, Cell<L>>
    requires |descs| == |values| && Present(lines, descs)
  {
    WriteMarked(raw, hw, lines, descs, values, Everywhere(|descs|))
  }

  /** The indices marked in `done` were written from `before`, and nothing else changed. */
  ghost predicate Written<L>(
      raw: bool, hw: Hw<L>, before: map<Line, Cell<L>>, after: map<Line, Cell<L>>,
      descs: seq<Desc>, values: seq<bool>, done: seq<bool>)
    requires |descs| == |values| == |done| && Present(before, descs)
  {
    && after.Keys == before.Keys
    && (forall i :: 0 <= i < |descs| && done[i] ==>
          after[descs[i].line] == WriteOne(raw, hw, descs[i], before[descs[i].line], values[i]))
    && (forall l <- before :: Spared(descs, done, l) ==> after[l] == before[l])
  }

  /** No index marked in `done` names this line. */
  ghost predicate Spared(descs: seq<Desc>, done: seq<bool>, l: Line)
    requires |descs| == |done|
  {
    forall i :: 0 <= i < |descs| && done[i] ==> descs[i].line != l
  }

  function Everywhere(n: nat): (s: seq<bool>)
    ensures |s| == n && forall i :: 0 <= i < n ==> s[i]
  {
    seq(n, _ => true)
  }

  /** One more index written. */
  lemma WriteNext<L>(
      raw: bool, hw: Hw<L>, before: map<Line, Cell<L>>, after: map<Line, Cell<L>>,
      descs: seq<Desc>, values: seq<bool>, done: seq<bool>, i: nat)
    requires |descs| == |values| == |done| && Present(before, descs) && Distinct(descs) && i < |descs|
    requires Written(raw, hw, before, after, descs, values, done) && !done[i]
    ensures descs[i].line in after && after[descs[i].line] == before[descs[i].line]
    ensures Written(raw, hw, before,
                    after[descs[i].line := WriteOne(raw, hw, descs[i], before[descs[i].line], values[i])],
                    descs, values, done[i := true])
  {
    assert Spared(descs, done, descs[i].line);
    forall l | l in before && Spared(descs, done[i := true], l)
      ensures l != descs[i].line && Spared(descs, done, l)
    {
      assert done[i := true][i];
      forall j | 0 <= j < |descs| && done[j] ensures descs[j].line != l { assert done[i := true][j]; }
    }
  }

  /** For distinct lines, writing the marked ones in order is writing all of those. */
  lemma {:induction false} WriteMarkedWrites<L>(
      raw: bool, hw: Hw<L>, lines: map<Line, Cell<L>>, descs: seq<Desc>, values: seq<bool>, marked: seq<bool>, n: nat)
    requires |descs| == |values| == |marked| && Present(lines, descs) && Distinct(descs) && n <= |descs|
    ensures Written(raw, hw, lines, WriteMarked(raw, hw, lines, descs[..n], values[..n], marked[..n]),
                    descs, values, seq(|descs|, i requires 0 <= i < |marked| => i < n && marked[i]))
  {
    if n > 0 {
      var k := n - 1;
      WriteMarkedWrites(raw, hw, lines, descs, values, marked, k);
      var done := seq(|descs|, i requires 0 <= i < |marked| => i < k && marked[i]);
      var done' := seq(|descs|, i requires 0 <= i < |marked| => i < n && marked[i]);
      assert descs[..n][..k] == descs[..k] && values[..n][..k] == values[..k] && marked[..n][..k] == marked[..k];
      if marked[k] {
        WriteNext(raw, hw, lines, WriteMarked(raw, hw, lines, descs[..k], values[..k], marked[..k]), descs, values, done, k);
        assert done[k := true] == done';
      } else {
        assert done == done';
      }
    }
  }

  /** Whatever wrote the marked lines did what writing them in order does. */
  lemma WrittenIsWriteMarked<L>(
      raw: bool, hw: Hw<L>, lines: map<Line, Cell<L>>, after: map<Line, Cell<L>>,
      descs: seq<Desc>, values: seq<bool>, marked: seq<bool>)
    requires |descs| == |values| == |marked| && Present(lines, descs) && Distinct(descs)
    ensures Written(raw, hw, lines, after, descs, values, marked)
            <==> after == WriteMarked(raw, hw, lines, descs, values, marked)
  {
    var n := |descs|;
    WriteMarkedWrites(raw, hw, lines, descs, values, marked, n);
    assert descs[..n] == descs && values[..n] == values && marked[..n] == marked;
    assert seq(n, i requires 0 <= i < |marked| => i < n && marked[i]) == marked;
    var each := WriteMarked(raw, hw, lines, descs, values, marked);
    if Written(raw, hw, lines, after, descs, values, marked) {
      forall l | l in lines
        ensures after[l] == each[l]
      {
        if !Spared(descs, marked, l) {
          var i :| 0 <= i < n && marked[i] && descs[i].line == l;
        }
      }
    }
  }

  /** Whatever wrote all the lines did what writing each of them in order does. */
  lemma WrittenAllIsWriteEach<L>(
      raw: bool, hw: Hw<L>, lines: map<Line, Cell<L>>, after: map<Line, Cell<L>>, descs: seq<Desc>, values: seq<bool>)
    requires |descs| == |values| && Present(lines, descs) && Distinct(descs)
    ensures Written(raw, hw, lines, after, descs, values, Everywhere(|descs|))
            <==> after == WriteEach(raw, hw, lines, descs, values)
  {
    WrittenIsWriteMarked(raw, hw, lines, after, descs, values, Everywhere(|descs|));
  }

  // ---------------------------------------------------------------------------------------------
  // Mask construction
  // ---------------------------------------------------------------------------------------------

  /** What the bulk read and write rely on. */
  ghost predicate WellFormed(info: ArrayInfo, descs: seq<Desc>) {
    && |descs| == info.size == |info.getMask| == |info.setMask| == |info.invertMask|
    && (forall i :: 0 <= i < info.size && info.getMask[i] ==> descs[i].line == Line(info.chip, i))
    && (forall i :: 0 <= i < info.size && info.setMask[i] ==>
          info.getMask[i] && !descs[i].openDrain && !descs[i].openSource)
    && (forall i :: 0 <= i < info.size ==> (info.invertMask[i] <==> info.getMask[i] && descs[i].activeLow))
  }

  predicate InPlace(descs: seq<Desc>, i: nat)
    requires i < |descs|
  {
    descs[i].line == Line(descs[0].line.chip, i)
  }

  /** The first line that is not the fast chip's line of its own index is `k`, and belongs to the fast chip all the same. */
  ghost predicate DropsAt(descs: seq<Desc>, k: nat) {
    && k < |descs|
    && !InPlace(descs, k) && descs[k].line.chip == descs[0].line.chip
    && forall j: nat | j < k :: InPlace(descs, j)
  }

  ghost predicate Abandons(descs: seq<Desc>) {
    exists k: nat :: DropsAt(descs, k)
  }

  /** The index at which the candidate is dropped, or the length. */
  ghost function DropIndex(descs: seq<Desc>): (k: nat)
    ensures Abandons(descs) ==> DropsAt(descs, k)
    ensures !Abandons(descs) ==> k == |descs|
  {
    if Abandons(descs) then (var k: nat :| DropsAt(descs, k); k) else |descs|
  }

  predicate Full(mask: seq<bool>, n: nat)
    requires n <= |mask|
  {
    forall i: nat | i < n :: mask[i]
  }

  /** The masks are as the lines before `stop` make them; from `stop` on they are as they were set up. */
  ghost predicate MasksUpTo(a: ArrayInfo, descs: seq<Desc>, stop: nat) {
    && descs != [] && stop <= |descs| == a.size && a.chip == descs[0].line.chip
    && |a.getMask| == |a.setMask| == |a.invertMask| == |descs|
    && forall i: nat | i < |descs| ::
         && (a.getMask[i] <==> i >= stop || InPlace(descs, i))
         && (a.setMask[i] <==> i >= stop || (InPlace(descs, i) && !descs[i].openDrain && !descs[i].openSource))
         && (a.invertMask[i] <==> i < stop && InPlace(descs, i) && descs[i].activeLow)
  }

  /** Masks made from all lines fit the array; masks left behind where the candidate was dropped do not. */
  lemma MasksFitIff(a: ArrayInfo, descs: seq<Desc>)
    requires MasksUpTo(a, descs, DropIndex(descs))
    ensures WellFormed(a, descs) <==> !Abandons(descs)
  {
    if Abandons(descs) {
      var k := DropIndex(descs);
      assert a.getMask[k] && !InPlace(descs, k);
    }
  }

  /**
   The loop of `gpiod_get_array` over the descriptors it looked up.  The result is what `descs->info`
   points to when it returns, and whether the local `array_info` was dropped on the way.

   The masks fit the array if and only if the candidate was not dropped, which a caller can see from
   the descriptors: dropping leaves `descs->info` set to masks that are wrong from that index on.
   */
  method GetArray(descs: seq<Desc>) returns (info: Option<ArrayInfo>, dropped: bool)
    ensures info.Some? <==> descs != [] && descs[0].line.hw == 0
    ensures dropped <==> info.Some? && Abandons(descs)
    ensures info.Some? ==> MasksUpTo(info.value, descs, DropIndex(descs))
    ensures info.Some? ==> (WellFormed(info.value, descs) <==> !dropped)
  {
    info, dropped := None, false;
    var count := |descs|;
    var chip := 0;
    var getMask, setMask, invertMask: seq<bool> := [], [], [];
    ghost var at: nat := 0;
    for n := 0 to count
      invariant n > 0 ==> (info.Some? <==> descs[0].line.hw == 0)
      invariant n == 0 ==> info.None?
      invariant info.None? ==> !dropped
      invariant info.Some? ==> n > 0 && info == Some(ArrayInfo(count, chip, getMask, setMask, invertMask))
      invariant info.Some? ==> MasksUpTo(info.value, descs, if dropped then at else n)
      invariant info.Some? && !dropped ==> forall k: nat | k < n :: !DropsAt(descs, k)
      invariant dropped ==> DropsAt(descs, at)
    {
      var d := descs[n];
      if n == 0 && d.line.hw == 0 {
        chip := d.line.chip;
        getMask, setMask := seq(count, _ => true), seq(count, _ => true);
        invertMask := seq(count, _ => false);
        info := Some(ArrayInfo(count, chip, getMask, setMask, invertMask));
      }
      if info.Some? && !dropped {
        if d.line.chip != chip {
          getMask, setMask := getMask[n := false], setMask[n := false];
        } else if d.line.hw != n {
          if Full(getMask, n) {
            dropped, at := true, n;
          } else {
            getMask, setMask := getMask[n := false], setMask[n := false];
          }
        } else {
          if d.openDrain || d.openSource {
            setMask := setMask[n := false];
          }
          if d.activeLow {
            invertMask := invertMask[n := true];
          }
        }
        info := Some(ArrayInfo(count, chip, getMask, setMask, invertMask));
      }
    }
    if info.Some? {
      assert (if dropped then at else count) == DropIndex(descs);
      MasksFitIff(info.value, descs);
    }
  }
}
