/**
 The Realtek thermal sensor: piecewise-linear conversion between temperature and sensor code over two
 calibration tables, in C integer arithmetic.  Temperatures are in hundredths of a kelvin.  The table of
 true temperatures is a constant of the driver; the statements hold for any table in its place.
 */
module RtsThermal {

  const SIZE: nat := 18
  const ZERO_C: int := 27315
  const TWO32: int := 0x1_0000_0000
  const SIGN: int := 0x40000

  /** A strictly increasing calibration table. */
  ghost predicate Table(t: seq<int>) {
    |t| == SIZE && 0 <= t[0] && forall i, j :: 0 <= i < j < SIZE ==> t[i] < t[j]
  }

  /** The driver's table of true temperatures. */
  function ActualTable(): seq<int> {
    seq(SIZE, i => 26815 + 500 * i)
  }

  /** C division, which truncates toward zero. */
  function CDiv(a: int, b: int): int
    requires b > 0
  {
    if a >= 0 then a / b else -((-a) / b)
  }

  /** Conversion to a 32-bit unsigned number. */
  function U32(x: int): int {
    if 0 <= x < TWO32 then x else x % TWO32
  }

  // ---------------------------------------------------------------------------------------------
  // Segment search and interpolation
  // ---------------------------------------------------------------------------------------------

  /** Where the search loop stops: the first entry not below `x`, or the last entry. */
  function Stop(t: seq<int>, x: int, i: nat): (k: nat)
    requires i < |t|
    ensures i <= k < |t|
    ensures forall j :: i <= j < k ==> t[j] < x
    ensures k < |t| - 1 ==> x <= t[k]
    decreases |t| - i
  {
    if i == |t| - 1 || x <= t[i] then i else Stop(t, x, i + 1)
  }

  function Segment(t: seq<int>, x: int): (i: nat)
    requires |t| >= 2
    ensures i + 1 < |t|
  {
    var k := Stop(t, x, 0);
    if k > 0 then k - 1 else 0
  }

  /** `u * dy / dx` with truncation. */
  function Scale(u: int, dy: int, dx: int): int
    requires dx > 0
  {
    CDiv(u * dy, dx)
  }

  function Interpolate(from: seq<int>, to: seq<int>, x: int): int
    requires Table(from) && Table(to)
  {
    var i := Segment(from, x);
    Scale(x - from[i], to[i + 1] - to[i], from[i + 1] - from[i]) + to[i]
  }

  /** Sensor values below 27315 wrap around as unsigned numbers. */
  function Encode(thk: int): int {
    U32(U32(thk - ZERO_C) / 100 * 1024)
  }

  function Temp2Code(actual: seq<int>, thermal: seq<int>, actk: int): int
    requires Table(actual) && Table(thermal)
  {
    Encode(U32(Interpolate(actual, thermal, actk)))
  }

  /** The sensor value a code stands for; bit 18 marks a negative code in 18-bit two's complement. */
  function Decode(code: int): int
    requires 0 <= code
  {
    if code / SIGN % 2 == 1 then
      var magnitude := (SIGN - code % SIGN) % SIGN;
      CDiv(-magnitude, 1024) * 100 + ZERO_C
    else U32(U32(code / 1024 * 100) + ZERO_C)
  }

  function Code2Temp(actual: seq<int>, thermal: seq<int>, code: int): int
    requires Table(actual) && Table(thermal) && 0 <= code
  {
    U32(Interpolate(thermal, actual, Decode(code)))
  }

  // ---------------------------------------------------------------------------------------------
  // The conversions as code
  // ---------------------------------------------------------------------------------------------

  /** The search loop both conversions share; `i` and `i + 1` are always inside the table. */
  method FindSegment(t: seq<int>, x: int) returns (i: nat)
    requires |t| >= 2
    ensures i == Segment(t, x) && i + 1 < |t|
  {
    i := 0;
    while i < |t| - 1 && x > t[i]
      invariant i < |t| && Stop(t, x, i) == Stop(t, x, 0)
    {
      i := i + 1;
    }
    if i > 0 {
      i := i - 1;
    }
  }

  method Convert(from: seq<int>, to: seq<int>, x: int) returns (y: int)
    requires Table(from) && Table(to)
    ensures y == Interpolate(from, to, x)
  {
    var i := FindSegment(from, x);
    var x1, y1, x2, y2 := from[i], to[i], from[i + 1], to[i + 1];
    y := Scale(x - x1, y2 - y1, x2 - x1) + y1;
  }

  method TempToCode(actual: seq<int>, thermal: seq<int>, actk: int) returns (thk: int)
    requires Table(actual) && Table(thermal)
    ensures thk == Temp2Code(actual, thermal, actk)
  {
    thk := Convert(actual, thermal, actk);
    thk := Encode(U32(thk));
  }

  method CodeToTemp(actual: seq<int>, thermal: seq<int>, code: int) returns (thk: int)
    requires Table(actual) && Table(thermal) && 0 <= code < TWO32
    ensures thk == Code2Temp(actual, thermal, code)
  {
    thk := Convert(thermal, actual, Decode(code));
    thk := U32(thk);
  }

  // ---------------------------------------------------------------------------------------------
  // Arithmetic of one segment
  // ---------------------------------------------------------------------------------------------

  lemma DivMonotone(a: int, b: int, d: int)
    requires d > 0 && a <= b
    ensures a / d <= b / d
  {
    var k := b / d - a / d;
    assert k * d == b - a + a % d - b % d;
    assert k <= -1 ==> k * d <= -d;
  }

  lemma MulDiv(q: int, d: int)
    requires d > 0
    ensures q * d / d == q
  {
    var r := q * d / d;
    assert q * d == r * d + q * d % d;
    assert (q - r) * d == q * d % d;
    assert q - r >= 1 ==> (q - r) * d >= d;
    assert q - r <= -1 ==> (q - r) * d <= -d;
  }

  lemma DivAtMost(a: int, d: int, q: int)
    requires d > 0 && a <= q * d
    ensures a / d <= q
  {
    DivMonotone(a, q * d, d);
    MulDiv(q, d);
  }

  lemma DivAtLeast(a: int, d: int, q: int)
    requires d > 0 && a >= q * d
    ensures a / d >= q
  {
    DivMonotone(q * d, a, d);
    MulDiv(q, d);
  }

  lemma ScaleBounds(u: int, dy: int, dx: int)
    requires dx > 0 && dy > 0 && u >= 0
    ensures Scale(u, dy, dx) >= 0
    ensures u <= dx ==> Scale(u, dy, dx) <= dy
    ensures u == dx ==> Scale(u, dy, dx) == dy
  {
    assert u * dy >= 0;
    DivAtLeast(u * dy, dx, 0);
    if u <= dx {
      assert u * dy <= dx * dy == dy * dx;
      DivAtMost(u * dy, dx, dy);
    }
    if u == dx {
      assert u * dy == dy * dx;
      MulDiv(dy, dx);
    }
  }

  lemma ScaleMonotone(u: int, u': int, dy: int, dx: int)
    requires dx > 0 && dy > 0 && 0 <= u <= u'
    ensures Scale(u, dy, dx) <= Scale(u', dy, dx)
  {
    assert 0 <= u * dy <= u' * dy;
    DivMonotone(u * dy, u' * dy, dx);
  }

  /** Scaling forth and back never overshoots: each division only loses. */
  lemma ScaleBack(u: int, dy: int, dx: int)
    requires dx > 0 && dy > 0 && u >= 0
    ensures Scale(Scale(u, dy, dx), dx, dy) <= u
  {
    ScaleBounds(u, dy, dx);
    var v := Scale(u, dy, dx);
    assert u * dy >= 0;
    assert v == u * dy / dx;
    assert v * dx <= u * dy;
    assert v * dx >= 0;
    DivAtMost(v * dx, dy, u);
  }

  lemma Product(a: int, b: int, m: int, n: int)
    requires 0 <= a <= m && 0 <= b <= n
    ensures 0 <= a * b <= m * n
  {
    assert a * b <= m * b;
    assert m * b <= m * n;
  }

  lemma QuotientAtMost(a: int, d: int)
    requires d > 0 && 0 <= a
    ensures 0 <= a / d <= a
  {
    assert a * d == a + a * (d - 1) && a * (d - 1) >= 0;
    DivAtMost(a, d, a);
    DivAtLeast(a, d, 0);
  }

  /** A quotient is no larger than its dividend, and keeps its sign. */
  lemma ScaleSize(u: int, dy: int, dx: int)
    requires dx > 0 && 0 <= dy <= 35_315 && -60_000 <= u <= 60_000
    ensures u >= 0 ==> 0 <= Scale(u, dy, dx) <= 2_118_900_000
    ensures u < 0 ==> -2_118_900_000 <= Scale(u, dy, dx) <= 0
  {
    if u >= 0 {
      Product(u, dy, 60_000, 35_315);
      QuotientAtMost(u * dy, dx);
    } else {
      Product(-u, dy, 60_000, 35_315);
      assert -(u * dy) == (-u) * dy;
      QuotientAtMost(-(u * dy), dx);
    }
  }

  // ---------------------------------------------------------------------------------------------
  // Interpolation is monotone and stays between the table values
  // ---------------------------------------------------------------------------------------------

  /** From the first table entry on, the segment found brackets the input (the last one is open above). */
  lemma SegmentBrackets(t: seq<int>, x: int)
    requires Table(t) && t[0] <= x
    ensures var i := Segment(t, x);
            && t[i] <= x && (i > 0 ==> t[i] < x)
            && (i < SIZE - 2 ==> x <= t[i + 1])
  {
    var k := Stop(t, x, 0);
  }

  lemma SegmentUnique(t: seq<int>, x: int, i: nat)
    requires Table(t) && i + 1 < SIZE && t[i] < x && (i < SIZE - 2 ==> x <= t[i + 1])
    ensures Segment(t, x) == i
  {
    var k := Stop(t, x, 0);
    assert k >= i + 1;
  }

  lemma SegmentsOrdered(t: seq<int>, x: int, x': int)
    requires Table(t) && t[0] <= x <= x'
    ensures Segment(t, x) <= Segment(t, x')
  {
    SegmentBrackets(t, x);
    SegmentBrackets(t, x');
  }

  /** Within its segment, an interpolated value lies between the two table values. */
  lemma InterpolateBounds(from: seq<int>, to: seq<int>, x: int)
    requires Table(from) && Table(to) && from[0] <= x
    ensures var i := Segment(from, x);
            && to[i] <= Interpolate(from, to, x)
            && (i < SIZE - 2 || x <= from[i + 1] ==> Interpolate(from, to, x) <= to[i + 1])
  {
    SegmentBrackets(from, x);
    var i := Segment(from, x);
    ScaleBounds(x - from[i], to[i + 1] - to[i], from[i + 1] - from[i]);
  }

  lemma InterpolateRange(from: seq<int>, to: seq<int>, x: int)
    requires Table(from) && Table(to) && from[0] <= x
    ensures to[0] <= Interpolate(from, to, x)
    ensures x <= from[SIZE - 1] ==> Interpolate(from, to, x) <= to[SIZE - 1]
  {
    InterpolateBounds(from, to, x);
  }

  lemma InterpolateMonotone(from: seq<int>, to: seq<int>, x: int, x': int)
    requires Table(from) && Table(to) && from[0] <= x <= x'
    ensures Interpolate(from, to, x) <= Interpolate(from, to, x')
  {
    SegmentBrackets(from, x);
    SegmentBrackets(from, x');
    var i, i' := Segment(from, x), Segment(from, x');
    if i == i' {
      ScaleMonotone(x - from[i], x' - from[i], to[i + 1] - to[i], from[i + 1] - from[i]);
    } else {
      SegmentsOrdered(from, x, x');
      InterpolateBounds(from, to, x);
      InterpolateBounds(from, to, x');
      assert to[i + 1] <= to[i'];
    }
  }

  /** Table entries map to table entries. */
  lemma AtEntry(from: seq<int>, to: seq<int>, i: nat)
    requires Table(from) && Table(to) && i < SIZE
    ensures Interpolate(from, to, from[i]) == to[i]
  {
    if i == 0 {
      ScaleBounds(0, to[1] - to[0], from[1] - from[0]);
      assert Scale(0, to[1] - to[0], from[1] - from[0]) == 0;
    } else {
      SegmentUnique(from, from[i], i - 1);
      ScaleBounds(from[i] - from[i - 1], to[i] - to[i - 1], from[i] - from[i - 1]);
    }
  }

  /** Segment `i` is the one for `x`: the first and the last reach beyond the table, inner borders belong to the lower. */
  ghost predicate InSegment(t: seq<int>, x: int, i: nat)
    requires Table(t)
  {
    i + 1 < SIZE && (i > 0 ==> t[i] < x) && (i < SIZE - 2 ==> x <= t[i + 1])
  }

  /**
   `y` is the value at `x` on the straight line through entries `i` and `i + 1`, rounded toward entry `i`: exactly,
   without a division.
   */
  ghost predicate OnLine(from: seq<int>, to: seq<int>, i: nat, x: int, y: int)
    requires Table(from) && Table(to) && i + 1 < SIZE
  {
    var dx, dy := from[i + 1] - from[i], to[i + 1] - to[i];
    if x >= from[i] then (y - to[i]) * dx <= (x - from[i]) * dy < (y + 1 - to[i]) * dx
    else (to[i] - y) * dx <= (from[i] - x) * dy < (to[i] - y + 1) * dx
  }

  lemma QuotientExact(a: int, d: int)
    requires d > 0 && a >= 0
    ensures a / d * d <= a < (a / d + 1) * d
  {
    assert (a / d + 1) * d == a / d * d + d;
  }

  /** The interpolated value is on the line of the segment that the input lies in, below and above the table too. */
  lemma InterpolateExact(from: seq<int>, to: seq<int>, x: int)
    requires Table(from) && Table(to)
    ensures var i := Segment(from, x);
            InSegment(from, x, i) && OnLine(from, to, i, x, Interpolate(from, to, x))
  {
    var i := Segment(from, x);
    var dx, dy := from[i + 1] - from[i], to[i + 1] - to[i];
    if x >= from[0] {
      SegmentBrackets(from, x);
      Product(x - from[i], dy, x - from[i], dy);
      QuotientExact((x - from[i]) * dy, dx);
    } else {
      assert i == 0;
      Product(from[0] - x, dy, from[0] - x, dy);
      assert (x - from[0]) * dy == -((from[0] - x) * dy);
      QuotientExact((from[0] - x) * dy, dx);
    }
  }

  /** Interpolating back loses less than one: the next value up interpolates to no less than the input. */
  lemma BackLosesLittle(from: seq<int>, to: seq<int>, z: int)
    requires Table(from) && Table(to) && from[0] <= z
    ensures Interpolate(to, from, Interpolate(from, to, z) + 1) >= z
  {
    var i, t := Segment(from, z), Interpolate(from, to, z);
    SegmentBrackets(from, z);
    InterpolateExact(from, to, z);
    InterpolateBounds(from, to, z);
    if i < SIZE - 2 && t + 1 > to[i + 1] {
      AtEntry(to, from, i + 1);
      InterpolateMonotone(to, from, to[i + 1], t + 1);
    } else {
      var dx, dy := from[i + 1] - from[i], to[i + 1] - to[i];
      SegmentUnique(to, t + 1, i);
      assert (t + 1 - to[i]) * dx >= (z - from[i]) * dy;
      Product(t + 1 - to[i], dx, t + 1 - to[i], dx);
      DivAtLeast((t + 1 - to[i]) * dx, dy, z - from[i]);
    }
  }

  /** Interpolating forth and back never overshoots, whichever segments the two searches find. */
  lemma ForthAndBack(from: seq<int>, to: seq<int>, x: int)
    requires Table(from) && Table(to) && from[0] <= x
    ensures to[0] <= Interpolate(from, to, x)
    ensures Interpolate(to, from, Interpolate(from, to, x)) <= x
  {
    SegmentBrackets(from, x);
    InterpolateBounds(from, to, x);
    var i := Segment(from, x);
    var y := Interpolate(from, to, x);
    if y == to[i] {
      AtEntry(to, from, i);
    } else {
      SegmentUnique(to, y, i);
      ScaleBack(x - from[i], to[i + 1] - to[i], from[i + 1] - from[i]);
    }
  }

  /** An interpolated temperature never leaves the range of a C `int`; below the table it is at most the first entry. */
  lemma TemperatureSize(thermal: seq<int>, actual: seq<int>, x: int)
    requires Calibration(thermal) && Temperatures(actual) && 0 <= x <= 60_000
    ensures -2_118_900_000 <= Interpolate(thermal, actual, x) <= 2_118_935_315
    ensures x >= thermal[0] ==> Interpolate(thermal, actual, x) >= 0
    ensures x < thermal[0] ==> Interpolate(thermal, actual, x) <= actual[0]
  {
    var i := Segment(thermal, x);
    if x >= thermal[0] {
      SegmentBrackets(thermal, x);
    } else {
      assert i == 0;
    }
    ScaleSize(x - thermal[i], actual[i + 1] - actual[i], thermal[i + 1] - thermal[i]);
  }

  // ---------------------------------------------------------------------------------------------
  // The conversions
  // ---------------------------------------------------------------------------------------------

  /** A table of true temperatures up to the driver's highest. */
  ghost predicate Temperatures(t: seq<int>) {
    Table(t) && t[SIZE - 1] <= 35_315
  }

  lemma ActualTableFits()
    ensures Temperatures(ActualTable()) && ActualTable()[0] == 26815 && ActualTable()[1] == ZERO_C
  {
  }

  /** A calibration that keeps every product of the conversions within 32 bits. */
  ghost predicate Calibration(t: seq<int>) {
    Table(t) && t[0] <= ZERO_C && t[SIZE - 1] <= 4_000_000
  }

  ghost predicate InTable(actual: seq<int>, actk: int)
    requires Table(actual)
  {
    actual[0] <= actk <= actual[SIZE - 1]
  }

  /** The sensor value for a temperature is one the conversions are made for. */
  ghost predicate SensorFits(actual: seq<int>, thermal: seq<int>, actk: int)
    requires Table(actual) && Table(thermal)
  {
    Interpolate(actual, thermal, actk) <= 4_000_000
  }

  /** From the first table entry on, and as far above the table as the sensor value stays within 4000000. */
  ghost predicate Convertible(actual: seq<int>, thermal: seq<int>, actk: int)
    requires Table(actual) && Table(thermal)
  {
    actual[0] <= actk < 0x8000_0000 && SensorFits(actual, thermal, actk)
  }

  lemma InTableConvertible(actual: seq<int>, thermal: seq<int>, actk: int)
    requires Temperatures(actual) && Calibration(thermal) && InTable(actual, actk)
    ensures Convertible(actual, thermal, actk)
  {
    InterpolateRange(actual, thermal, actk);
  }

  /** The 85 degree trip point lies above the driver's table; it converts for calibrations up to 2000000. */
  lemma TripPointConvertible(thermal: seq<int>)
    requires Calibration(thermal) && thermal[SIZE - 1] <= 2_000_000
    ensures Convertible(ActualTable(), thermal, 35_815)
  {
    var actual := ActualTable();
    ActualTableFits();
    SegmentUnique(actual, 35_815, 16);
    var dy := thermal[17] - thermal[16];
    assert Scale(1000, dy, 500) == 2 * dy;
    assert Interpolate(actual, thermal, 35_815) == 2 * dy + thermal[16];
  }

  /** A bounded quotient of a product bounds the product. */
  lemma ProductAtMost(u: int, dy: int, dx: int)
    requires 0 < dx <= 500 && dy > 0 && u >= 0 && Scale(u, dy, dx) <= 4_000_000
    ensures 0 <= u * dy < 0x8000_0000
  {
    Product(u, dy, u, dy);
    var q := u * dy / dx;
    assert u * dy == q * dx + u * dy % dx;
    DivAtLeast(u * dy, dx, 0);
    Product(q, dx, 4_000_000, 500);
  }

  /** No product in `temp2code` leaves the range of a C `int` when temperatures are at most 500 apart, as in the driver. */
  lemma ProductFits(actual: seq<int>, thermal: seq<int>, actk: int)
    requires Temperatures(actual) && Calibration(thermal) && Convertible(actual, thermal, actk)
    requires forall i :: 0 <= i < SIZE - 1 ==> actual[i + 1] - actual[i] <= 500
    ensures var i := Segment(actual, actk);
            0 <= (actk - actual[i]) * (thermal[i + 1] - thermal[i]) < 0x8000_0000
  {
    SegmentBrackets(actual, actk);
    var i := Segment(actual, actk);
    ProductAtMost(actk - actual[i], thermal[i + 1] - thermal[i], actual[i + 1] - actual[i]);
  }

  /** Nor does one in `code2temp`, for any sensor value up to 4000000. */
  lemma BackProductFits(actual: seq<int>, thermal: seq<int>, x: int)
    requires Temperatures(actual) && Calibration(thermal) && 0 <= x <= 4_000_000
    requires forall i :: 0 <= i < SIZE - 1 ==> actual[i + 1] - actual[i] <= 500
    ensures var i := Segment(thermal, x);
            -0x8000_0000 < (x - thermal[i]) * (actual[i + 1] - actual[i]) < 0x8000_0000
  {
    var i := Segment(thermal, x);
    var u, dy := x - thermal[i], actual[i + 1] - actual[i];
    if u >= 0 {
      Product(u, dy, 4_000_000, 500);
    } else {
      Product(-u, dy, 4_000_000, 500);
      assert u * dy == -((-u) * dy);
    }
  }

  /** At or above 27315 a sensor value encodes plainly; below it, the code wraps to a huge one. */
  lemma EncodeValue(y: int)
    requires 0 <= y <= 4_000_000
    ensures y >= ZERO_C ==> Encode(y) == (y - ZERO_C) / 100 * 1024 <= 40_960_000
    ensures y < ZERO_C ==> Encode(y) == (y - ZERO_C + TWO32) / 100 * 1024 - 10 * TWO32 > 1_000_000_000
  {
    if y < ZERO_C {
      var v := y - ZERO_C + TWO32;
      assert U32(y - ZERO_C) == v;
      assert 42949399 <= v / 100 <= 42949672;
      var w := v / 100 * 1024;
      assert 10 * TWO32 <= w < 11 * TWO32;
      assert w % TWO32 == w - 10 * TWO32;
    }
  }

  lemma EncodeMonotoneIff(y: int, z: int)
    requires 0 <= y <= z <= 4_000_000
    ensures Encode(y) <= Encode(z) <==> y >= ZERO_C || z < ZERO_C
  {
    EncodeValue(y);
    EncodeValue(z);
    DivMonotone(y - ZERO_C, z - ZERO_C, 100);
    DivMonotone(y - ZERO_C + TWO32, z - ZERO_C + TWO32, 100);
  }

  /** Two temperatures in order, from the first table entry on. */
  ghost predicate OrderedPair(actual: seq<int>, thermal: seq<int>, a: int, b: int) {
    Table(actual) && Calibration(thermal) && actual[0] <= a <= b && SensorFits(actual, thermal, b)
  }

  /**
   `temp2code` keeps the order of two temperatures, in the table or above it, exactly when it does not mix a
   sensor value below 27315 with one at or above it.
   */
  lemma Temp2CodeMonotoneIff(actual: seq<int>, thermal: seq<int>, a: int, b: int)
    requires OrderedPair(actual, thermal, a, b)
    ensures Temp2Code(actual, thermal, a) <= Temp2Code(actual, thermal, b)
            <==> Interpolate(actual, thermal, a) >= ZERO_C || Interpolate(actual, thermal, b) < ZERO_C
  {
    InterpolateRange(actual, thermal, a);
    InterpolateMonotone(actual, thermal, a, b);
    EncodeMonotoneIff(Interpolate(actual, thermal, a), Interpolate(actual, thermal, b));
  }

  /** An uncalibrated sensor shows the order broken: -5 degrees gives a greater code than 0 degrees. */
  lemma Temp2CodeOrderBreaks()
    ensures var t := ActualTable();
            Temperatures(t) && Calibration(t) && Temp2Code(t, t, 26815) > Temp2Code(t, t, 27315)
  {
    var t := ActualTable();
    ActualTableFits();
    AtEntry(t, t, 0);
    AtEntry(t, t, 1);
    EncodeMonotoneIff(26815, 27315);
  }

  /** Codes the sensor can produce: 19 bits. */
  ghost predicate SensorCode(code: int) {
    0 <= code < 2 * SIGN
  }

  /** The number a code stands for: bit 18 set means negative, except that the bit alone is zero. */
  function Signed(code: int): int
    requires 0 <= code
  {
    if code < SIGN then code else -((2 * SIGN - code) % SIGN)
  }

  /** Sensor codes of either sign decode in the order of the numbers they stand for. */
  lemma DecodeInOrder(a: int, b: int)
    requires SensorCode(a) && SensorCode(b) && Signed(a) <= Signed(b)
    ensures 0 <= Decode(a) <= Decode(b) <= 60_000
  {
    DecodeSigned(a);
    DecodeSigned(b);
    if 0 <= Signed(a) {
      DivMonotone(Signed(a), Signed(b), 1024);
    } else if Signed(b) < 0 {
      DivMonotone(-Signed(b), -Signed(a), 1024);
    }
  }

  lemma DecodeSigned(code: int)
    requires SensorCode(code)
    ensures Decode(code) == ZERO_C + 100 * CDiv(Signed(code), 1024)
    ensures -256 < CDiv(Signed(code), 1024) < 256
  {
    if code >= SIGN {
      assert code / SIGN == 1 && code % SIGN == code - SIGN;
    } else {
      assert code / SIGN == 0;
    }
  }

  /** From the first calibration point on, `code2temp` keeps the order of sensor values, codes of either sign included. */
  lemma Code2TempMonotone(actual: seq<int>, thermal: seq<int>, a: int, b: int)
    requires Temperatures(actual) && Calibration(thermal) && SensorCode(a) && SensorCode(b)
    requires thermal[0] <= Decode(a) <= Decode(b)
    ensures Code2Temp(actual, thermal, a) <= Code2Temp(actual, thermal, b)
  {
    DecodeSigned(a);
    DecodeSigned(b);
    InterpolateMonotone(thermal, actual, Decode(a), Decode(b));
    TemperatureSize(thermal, actual, Decode(a));
    TemperatureSize(thermal, actual, Decode(b));
  }

  /**
   What `code2temp` computes: the temperature on the line of the segment that the sensor value lies in, taken as an
   unsigned number.  From the first calibration point on it is that temperature itself.
   */
  lemma Code2TempExact(actual: seq<int>, thermal: seq<int>, code: int) returns (i: nat, y: int)
    requires Temperatures(actual) && Calibration(thermal) && SensorCode(code)
    ensures InSegment(thermal, Decode(code), i) && OnLine(thermal, actual, i, Decode(code), y)
    ensures Code2Temp(actual, thermal, code) == if y >= 0 then y else y + TWO32
    ensures Decode(code) >= thermal[0] ==> y >= 0
  {
    var x := Decode(code);
    i, y := Segment(thermal, x), Interpolate(thermal, actual, x);
    DecodeSigned(code);
    InterpolateExact(thermal, actual, x);
    TemperatureSize(thermal, actual, x);
    assert y < 0 ==> y % TWO32 == y + TWO32;
  }

  /** At a calibration point `code2temp` gives the true temperature of that point. */
  lemma Code2TempAtEntry(actual: seq<int>, thermal: seq<int>, code: int, i: nat)
    requires Temperatures(actual) && Table(thermal) && 0 <= code && i < SIZE && Decode(code) == thermal[i]
    ensures Code2Temp(actual, thermal, code) == actual[i]
  {
    AtEntry(thermal, actual, i);
  }

  /**
   What `temp2code` computes: the sensor value on the line of the segment that the temperature lies in, counted in
   whole hundreds from 27315 with 1024 per hundred; below 27315 the count is taken from 32-bit wrap-around.
   */
  lemma Temp2CodeExact(actual: seq<int>, thermal: seq<int>, actk: int) returns (i: nat, y: int, q: int)
    requires Table(actual) && Calibration(thermal) && Convertible(actual, thermal, actk)
    ensures InSegment(actual, actk, i) && OnLine(actual, thermal, i, actk, y)
    ensures 100 * q <= (if y >= ZERO_C then y - ZERO_C else y - ZERO_C + TWO32) < 100 * q + 100
    ensures Temp2Code(actual, thermal, actk) == if y >= ZERO_C then 1024 * q else 1024 * q - 10 * TWO32
  {
    i, y := Segment(actual, actk), Interpolate(actual, thermal, actk);
    q := (if y >= ZERO_C then y - ZERO_C else y - ZERO_C + TWO32) / 100;
    InterpolateExact(actual, thermal, actk);
    InterpolateRange(actual, thermal, actk);
    EncodeValue(y);
  }

  /** A table entry at or above 27315 has the code of its calibration value. */
  lemma Temp2CodeAtEntry(actual: seq<int>, thermal: seq<int>, i: nat)
    requires Table(actual) && Calibration(thermal) && i < SIZE && thermal[i] >= ZERO_C
    ensures Temp2Code(actual, thermal, actual[i]) == (thermal[i] - ZERO_C) / 100 * 1024
  {
    AtEntry(actual, thermal, i);
    EncodeValue(thermal[i]);
  }

  // ---------------------------------------------------------------------------------------------
  // Round trip
  // ---------------------------------------------------------------------------------------------

  /** What is left of a sensor value in hundreds whose code has bit 18 set: it reads as a negative number. */
  function Folded(q: nat): (z: int)
    ensures 1815 <= z <= ZERO_C
  {
    ZERO_C - 100 * ((256 - q % 256) % 256)
  }

  /** What a code made from a sensor value at or above 27315 decodes to: never more than that value. */
  lemma DecodeEncoded(y: int)
    requires ZERO_C <= y <= 4_000_000
    ensures var q := (y - ZERO_C) / 100;
            && Encode(y) == q * 1024
            && Decode(Encode(y)) ==
               if q / 256 % 2 == 0 then ZERO_C + 100 * q else Folded(q)
    ensures 0 <= Decode(Encode(y)) <= y
  {
    EncodeValue(y);
    var q := (y - ZERO_C) / 100;
    var code := q * 1024;
    assert code / 1024 == q && code / SIGN == q / 256 && code % SIGN == (q % 256) * 1024;
    var m := (256 - q % 256) % 256;
    assert (SIGN - code % SIGN) % SIGN == m * 1024;
    assert CDiv(-(m * 1024), 1024) == -m;
  }

  /** Converting back a sensor value that a temperature maps at or above gives no more than that temperature. */
  lemma BackNeverAbove(actual: seq<int>, thermal: seq<int>, actk: int, z: int)
    requires Temperatures(actual) && Calibration(thermal) && actual[0] <= actk
    requires thermal[0] <= z <= Interpolate(actual, thermal, actk)
    ensures 0 <= Interpolate(thermal, actual, z) <= actk
  {
    ForthAndBack(actual, thermal, actk);
    InterpolateMonotone(thermal, actual, z, Interpolate(actual, thermal, actk));
    InterpolateRange(thermal, actual, z);
  }

  lemma UnsignedAtMost(v: int, m: int)
    requires -2_118_900_000 <= v <= m < 0x8000_0000
    ensures U32(v) <= m <==> v >= 0
  {
    assert v < 0 ==> v % TWO32 == v + TWO32;
  }

  /** The first segment, continued down to `z`, stays above minus one hundredth of a kelvin. */
  ghost predicate StaysAbove(actual: seq<int>, thermal: seq<int>, z: int)
    requires Table(actual) && Table(thermal)
  {
    (thermal[0] - z) * (actual[1] - actual[0]) < (actual[0] + 1) * (thermal[1] - thermal[0])
  }

  /** Below the calibration the sign of the temperature is decided by one comparison of products. */
  lemma BelowIff(actual: seq<int>, thermal: seq<int>, z: int)
    requires Table(actual) && Table(thermal) && z < thermal[0]
    ensures Interpolate(thermal, actual, z) >= 0 <==> StaysAbove(actual, thermal, z)
  {
    assert Segment(thermal, z) == 0;
    var m, dx := (thermal[0] - z) * (actual[1] - actual[0]), thermal[1] - thermal[0];
    Product(thermal[0] - z, actual[1] - actual[0], thermal[0] - z, actual[1] - actual[0]);
    assert (z - thermal[0]) * (actual[1] - actual[0]) == -m;
    assert Interpolate(thermal, actual, z) == actual[0] - m / dx;
    if m >= (actual[0] + 1) * dx {
      DivAtLeast(m, dx, actual[0] + 1);
    } else if m / dx > actual[0] {
      assert m == m / dx * dx + m % dx;
      Product(actual[0] + 1, dx, m / dx, dx);
      assert false;
    }
  }

  lemma BackIff(actual: seq<int>, thermal: seq<int>, actk: int, z: int)
    requires Temperatures(actual) && Calibration(thermal) && actual[0] <= actk < 0x8000_0000
    requires 0 <= z <= Interpolate(actual, thermal, actk)
    ensures U32(Interpolate(thermal, actual, z)) <= actk <==> z >= thermal[0] || StaysAbove(actual, thermal, z)
  {
    if z >= thermal[0] {
      BackNeverAbove(actual, thermal, actk, z);
    } else {
      TemperatureSize(thermal, actual, z);
      BelowIff(actual, thermal, z);
    }
    UnsignedAtMost(Interpolate(thermal, actual, z), actk);
  }

  /**
   For a sensor value `y` of at least 27315, converting a temperature to a code and back never gives a higher
   temperature if and only if the whole kelvins in `y` leave bit 18 of the code clear, or the value the code then
   reads as is not below the calibration, or is below it by too little to make the temperature negative (a
   negative temperature becomes a huge unsigned one).
   */
  lemma RoundTripIff(actual: seq<int>, thermal: seq<int>, actk: int)
    requires Temperatures(actual) && Calibration(thermal) && Convertible(actual, thermal, actk)
    requires Interpolate(actual, thermal, actk) >= ZERO_C
    ensures var q := (Interpolate(actual, thermal, actk) - ZERO_C) / 100;
            Code2Temp(actual, thermal, Temp2Code(actual, thermal, actk)) <= actk
            <==> q / 256 % 2 == 0 || Folded(q) >= thermal[0] || StaysAbove(actual, thermal, Folded(q))
  {
    var y := Interpolate(actual, thermal, actk);
    var q := (y - ZERO_C) / 100;
    DecodeEncoded(y);
    BackIff(actual, thermal, actk, Decode(Encode(y)));
    assert U32(y) == y;
  }

  lemma SmallQuotient(y: int)
    requires ZERO_C <= y < ZERO_C + 25_600
    ensures var q := (y - ZERO_C) / 100; 0 <= q <= 255 && q / 256 == 0
  {
  }

  /**
   In particular below 256 kelvin above freezing, where bit 18 of the code is clear.  Nor does it fall short by much:
   one hundredth of a kelvin more would read less than one hundred below what the temperature reads.
   */
  lemma RoundTrip(actual: seq<int>, thermal: seq<int>, actk: int)
    requires Temperatures(actual) && Calibration(thermal) && Convertible(actual, thermal, actk)
    requires ZERO_C <= Interpolate(actual, thermal, actk) < ZERO_C + 25_600
    ensures var code := Temp2Code(actual, thermal, actk);
            0 <= code < SIGN && Code2Temp(actual, thermal, code) <= actk
    ensures Interpolate(actual, thermal, Code2Temp(actual, thermal, Temp2Code(actual, thermal, actk)) + 1)
            > Interpolate(actual, thermal, actk) - 100
  {
    var y := Interpolate(actual, thermal, actk);
    var q := (y - ZERO_C) / 100;
    assert q <= 255 && q / 256 == 0 by { SmallQuotient(y); }
    DecodeEncoded(y);
    RoundTripIff(actual, thermal, actk);
    var z := ZERO_C + 100 * q;
    PlainBack(actual, thermal, Encode(y), z);
    BackLosesLittle(thermal, actual, z);
  }

  /** A sensor value from the first calibration point on is converted without wrap-around. */
  lemma PlainBack(actual: seq<int>, thermal: seq<int>, code: int, z: int)
    requires Temperatures(actual) && Calibration(thermal) && 0 <= code && Decode(code) == z && thermal[0] <= z <= 60_000
    ensures Code2Temp(actual, thermal, code) == Interpolate(thermal, actual, z)
  {
    TemperatureSize(thermal, actual, z);
  }

  lemma SteepStart(actual: seq<int>, thermal: seq<int>)
    requires Temperatures(actual) && Calibration(thermal)
    requires actual[0] == 26_815 && actual[1] == 27_315 && thermal[0] == ZERO_C && thermal[1] == ZERO_C + 1
    ensures Interpolate(thermal, actual, 1815) == 26_815 - 12_750_000
  {
    assert Stop(thermal, 1815, 0) == 0;
    assert Scale(1815 - thermal[0], 500, 1) == -12_750_000;
  }

  /** A calibration of the driver's table for which 80 degrees comes back as an enormous temperature. */
  lemma RoundTripBreaks(actual: seq<int>, thermal: seq<int>)
    requires actual == ActualTable() && thermal == seq(SIZE, i => if i == 17 then 53_015 else ZERO_C + i)
    ensures Temperatures(actual) && Calibration(thermal) && InTable(actual, 35_315)
    ensures Temp2Code(actual, thermal, 35_315) == 257 * 1024
    ensures Code2Temp(actual, thermal, 257 * 1024) > 35_315
  {
    ActualTableFits();
    assert actual[17] == 35_315 && thermal[17] == 53_015;
    AtEntry(actual, thermal, 17);
    DecodeEncoded(53_015);
    SteepStart(actual, thermal);
    assert Decode(257 * 1024) == 1815;
  }
}
