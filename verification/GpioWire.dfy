/**
 What a write puts on the wire.  Here a line's state is what its driver drives onto the wire, if anything, and an
 undriven wire is pulled to a level of its own.
 */
module GpioWire {
  import opened Wrappers
  import opened GpioArray

  type Wire = Option<bool>

  /** `pull` is the level of an undriven wire, `status` what `direction_output` answers. */
  function WireHw(pull: Line -> bool, status: Line -> int): Hw<Wire> {
    Hw((l: Line, c: Wire, v: bool) => Some(v),
       (l: Line, c: Wire) => (None, 0),
       (l: Line, c: Wire, v: bool) => (Some(v), status(l)),
       (l: Line, c: Wire) => if Level(pull, l, c) then 1 else 0)
  }

  function Level(pull: Line -> bool, l: Line, c: Wire): bool {
    match c
    case Some(v) => v
    case None => pull(l)
  }

  /**
   What a value means for the wire.  A raw write drives it.  Otherwise an active-low line is inverted; an open-drain
   output never drives high and an open-source output never drives low, they let go of the wire instead.
   */
  function OnWire(raw: bool, d: Desc, v: bool): Wire {
    if raw then Some(v)
    else match (d.openDrain, d.openSource, v != d.activeLow)
      case (true, _, true) => None
      case (true, _, false) => Some(false)
      case (false, true, true) => Some(true)
      case (false, true, false) => None
      case (false, false, on) => Some(on)
  }

  /** Only an open-drain or open-source output that drives the wire becomes an output, if the chip agrees. */
  predicate TurnsOut(raw: bool, d: Desc, v: bool, status: int) {
    !raw && (d.openDrain || d.openSource) && OnWire(raw, d, v).Some? && status == 0
  }

  lemma SingleWriteOnWire(raw: bool, pull: Line -> bool, status: Line -> int, d: Desc, c: Cell<Wire>, v: bool)
    ensures WriteOne(raw, WireHw(pull, status), d, c, v)
            == Cell(OnWire(raw, d, v), c.isOut || TurnsOut(raw, d, v, status(d.line)))
  {
  }

  /** A single-line read reports the level of the wire, inverted for an active-low line unless raw. */
  lemma SingleReadOfWire(raw: bool, pull: Line -> bool, status: Line -> int, d: Desc, c: Cell<Wire>)
    ensures ReadOne(raw, WireHw(pull, status), d, c) == 1 <==> Level(pull, d.line, c.level) != (!raw && d.activeLow)
    ensures ReadOne(raw, WireHw(pull, status), d, c) in {0, 1}
  {
  }

  /** Writing an array puts every value on its wire, and touches no other. */
  lemma ArrayOnWire(
      raw: bool, pull: Line -> bool, status: Line -> int, lines: map<Line, Cell<Wire>>, descs: seq<Desc>, values: seq<bool>)
    requires |descs| == |values| && Present(lines, descs) && Distinct(descs)
    ensures var after := WriteEach(raw, WireHw(pull, status), lines, descs, values);
            && after.Keys == lines.Keys
            && (forall i: nat :: i < |descs| ==>
                  var d := descs[i];
                  d.line in after && after[d.line] ==
                    Cell(OnWire(raw, d, values[i]), lines[d.line].isOut || TurnsOut(raw, d, values[i], status(d.line))))
            && (forall l <- lines :: (forall d <- descs :: d.line != l) ==> after[l] == lines[l])
  {
    var hw := WireHw(pull, status);
    var after := WriteEach(raw, hw, lines, descs, values);
    WrittenAllIsWriteEach(raw, hw, lines, after, descs, values);
    forall i: nat | i < |descs|
      ensures var d := descs[i];
              d.line in after && after[d.line] ==
                Cell(OnWire(raw, d, values[i]), lines[d.line].isOut || TurnsOut(raw, d, values[i], status(d.line)))
    {
      assert descs[i] in descs;
      SingleWriteOnWire(raw, pull, status, descs[i], lines[descs[i].line], values[i]);
    }
    forall l | l in lines && (forall d <- descs :: d.line != l) ensures after[l] == lines[l] {
      assert Spared(descs, Everywhere(|descs|), l);
    }
  }

  /** An undriven open-drain wire is pulled up, an undriven open-source wire down. */
  ghost predicate Pulled(pull: Line -> bool, d: Desc) {
    pull(d.line) == d.openDrain
  }

  /** What an array write puts on the wires is what a read of the array then gives. */
  lemma ReadBack(
      raw: bool, pull: Line -> bool, status: Line -> int, lines: map<Line, Cell<Wire>>, descs: seq<Desc>, values: seq<bool>,
      i: nat)
    requires |descs| == |values| && Present(lines, descs) && Distinct(descs) && i < |descs| && Pulled(pull, descs[i])
    ensures var hw := WireHw(pull, status); var after := WriteEach(raw, hw, lines, descs, values);
            && descs[i].line in after
            && ReadOne(raw, hw, descs[i], after[descs[i].line]) == if values[i] then 1 else 0
  {
    ArrayOnWire(raw, pull, status, lines, descs, values);
    var after := WriteEach(raw, WireHw(pull, status), lines, descs, values);
    SingleReadOfWire(raw, pull, status, descs[i], after[descs[i].line]);
  }
}
