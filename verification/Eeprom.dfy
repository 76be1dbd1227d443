/**
 The I2C slave EEPROM: a callback that keeps a 16-bit index and masks it, against a plain byte array with a
 cursor that wraps at the size.
 */
module Eeprom {
  import opened Wrappers

  type Byte = b: int | 0 <= b < 256

  const U16: nat := 65536

  datatype Event = WriteRequested | WriteReceived(val: Byte) | ReadRequested | ReadProcessed | Stop

  // ---------------------------------------------------------------------------------------------
  // The callback
  // ---------------------------------------------------------------------------------------------

  /** `struct eeprom_data`. */
  datatype Chip = Chip(buffer: seq<Byte>, idx: nat, mask: nat, numAddressBytes: nat, idxWriteCnt: nat, readOnly: bool)

  /** Bitwise and of two numbers. */
  function And(x: nat, m: nat): nat {
    if m == 0 then 0 else 2 * And(x / 2, m / 2) + (x % 2) * (m % 2)
  }

  function Pow2(k: nat): (p: nat)
    ensures p > 0
  {
    if k == 0 then 1 else 2 * Pow2(k - 1)
  }

  /** As set up by the probe: a power-of-two size up to 64 KiB, the mask one less. */
  ghost predicate Valid(c: Chip, k: nat) {
    && k <= 16 && |c.buffer| == Pow2(k) && c.mask == Pow2(k) - 1
    && c.idx < U16 && c.idxWriteCnt <= c.numAddressBytes && 1 <= c.numAddressBytes <= 2
  }

  /** Masking with one less than a power of two is the remainder. */
  lemma {:induction false} MaskIsMod(x: nat, k: nat)
    ensures And(x, Pow2(k) - 1) == x % Pow2(k)
    decreases k
  {
    if k > 0 {
      var p := Pow2(k - 1);
      assert (2 * p - 1) / 2 == p - 1 && (2 * p - 1) % 2 == 1;
      MaskIsMod(x / 2, k - 1);
      HalfMod(x, p);
    }
  }

  lemma HalfMod(x: nat, p: nat)
    requires p > 0
    ensures x % (2 * p) == 2 * (x / 2 % p) + x % 2
  {
    var h := x / 2;
    var q := h / p;
    assert x == 2 * h + x % 2 && h == q * p + h % p;
    assert x == q * (2 * p) + (2 * (h % p) + x % 2);
    ModUnique(x, 2 * p, q, 2 * (h % p) + x % 2);
  }

  lemma ModUnique(x: int, d: int, q: int, r: int)
    requires d > 0 && x == q * d + r && 0 <= r < d
    ensures x % d == r
  {
    var e := x / d - q;
    assert e * d == r - x % d;
    assert e >= 1 ==> e * d >= d;
    assert e <= -1 ==> e * d <= -d;
  }

  lemma MaskInBounds(c: Chip, k: nat, x: nat)
    requires Valid(c, k)
    ensures And(x, c.mask) == x % |c.buffer| < |c.buffer|
  {
    MaskIsMod(x, k);
  }

  /** `i2c_slave_eeprom_slave_cb`, with the byte put on the bus, if any. */
  ghost function Step(c: Chip, k: nat, e: Event): (Chip, Option<Byte>)
    requires Valid(c, k)
  {
    match e
    case WriteRequested => (c.(idxWriteCnt := 0), None)
    case Stop => (c.(idxWriteCnt := 0), None)
    case WriteReceived(val) =>
      if c.idxWriteCnt < c.numAddressBytes then
        var idx := if c.idxWriteCnt == 0 then 0 else c.idx;
        (c.(idx := (idx * 256 + val) % U16, idxWriteCnt := c.idxWriteCnt + 1), None)
      else if c.readOnly then (c, None)
      else
        MaskInBounds(c, k, c.idx);
        (c.(buffer := c.buffer[And(c.idx, c.mask) := val], idx := (c.idx + 1) % U16), None)
    case ReadRequested =>
      MaskInBounds(c, k, c.idx);
      (c, Some(c.buffer[And(c.idx, c.mask)]))
    case ReadProcessed =>
      var idx := (c.idx + 1) % U16;
      MaskInBounds(c, k, idx);
      (c.(idx := idx), Some(c.buffer[And(idx, c.mask)]))
  }

  // ---------------------------------------------------------------------------------------------
  // The byte array with a cursor
  // ---------------------------------------------------------------------------------------------

  datatype Memory = Memory(bytes: seq<Byte>, cursor: nat, numAddressBytes: nat, addressed: nat, readOnly: bool)

  ghost predicate Ok(m: Memory) {
    m.cursor < |m.bytes| && m.addressed <= m.numAddressBytes && 1 <= m.numAddressBytes <= 2
  }

  /** The position after this one; the last is followed by the first. */
  function Advance(at: nat, size: nat): nat {
    if at + 1 == size then 0 else at + 1
  }

  ghost function Next(m: Memory, e: Event): (Memory, Option<Byte>)
    requires Ok(m)
  {
    var size := |m.bytes|;
    match e
    case WriteRequested => (m.(addressed := 0), None)
    case Stop => (m.(addressed := 0), None)
    case WriteReceived(val) =>
      if m.addressed < m.numAddressBytes then
        (m.(cursor := ((if m.addressed == 0 then 0 else m.cursor) * 256 + val) % size, addressed := m.addressed + 1), None)
      else if m.readOnly then (m, None)
      else (m.(bytes := m.bytes[m.cursor := val], cursor := Advance(m.cursor, size)), None)
    case ReadRequested => (m, Some(m.bytes[m.cursor]))
    case ReadProcessed => (m.(cursor := Advance(m.cursor, size)), Some(m.bytes[Advance(m.cursor, size)]))
  }

  ghost function Abstract(c: Chip, k: nat): Memory
    requires Valid(c, k)
  {
    Memory(c.buffer, c.idx % |c.buffer|, c.numAddressBytes, c.idxWriteCnt, c.readOnly)
  }

  lemma ModMod(x: nat, a: nat, b: nat)
    requires a > 0 && b > 0
    ensures a * b > 0 && x % (a * b) % a == x % a
  {
    assert a * b > 0;
    var q, r := x / (a * b), x % (a * b);
    assert x == q * (a * b) + r;
    assert q * (a * b) == (q * b) * a;
    var s := r / a;
    assert r == s * a + r % a;
    assert x == (q * b + s) * a + r % a;
    ModUnique(x, a, q * b + s, r % a);
  }

  lemma {:induction false} PowSplit(k: nat, j: nat)
    ensures Pow2(k) * Pow2(j) == Pow2(k + j)
    decreases k
  {
    if k > 0 {
      PowSplit(k - 1, j);
      assert 2 * Pow2(k - 1) * Pow2(j) == 2 * (Pow2(k - 1) * Pow2(j));
    }
  }

  lemma Pow16()
    ensures Pow2(16) == U16
  {
    assert Pow2(4) == 16;
    PowSplit(4, 4);
    PowSplit(8, 8);
  }

  /** Wrapping the index at 16 bits is invisible behind the mask. */
  lemma WrapInvisible(x: nat, k: nat)
    requires k <= 16
    ensures x % U16 % Pow2(k) == x % Pow2(k)
  {
    Pow16();
    PowSplit(k, 16 - k);
    ModMod(x, Pow2(k), Pow2(16 - k));
  }

  lemma ModOfSum(x: nat, c: nat, v: nat, d: nat)
    requires d > 0
    ensures (x % d * c + v) % d == (x * c + v) % d
  {
    var q := x / d;
    assert x == q * d + x % d;
    var y := x % d * c + v;
    assert x * c + v == (q * d) * c + y;
    assert (q * d) * c == (q * c) * d;
    var s := y / d;
    assert x * c + v == (q * c + s) * d + y % d;
    ModUnique(x * c + v, d, q * c + s, y % d);
  }

  lemma AdvanceIsMod(x: nat, size: nat)
    requires size > 0
    ensures (x + 1) % size == Advance(x % size, size)
  {
    var q, r := x / size, x % size;
    if r + 1 == size {
      assert x + 1 == (q + 1) * size + 0;
      ModUnique(x + 1, size, q + 1, 0);
    } else {
      ModUnique(x + 1, size, q, r + 1);
    }
  }

  lemma AddressRefines(c: Chip, k: nat, val: Byte)
    requires Valid(c, k) && c.idxWriteCnt < c.numAddressBytes
    ensures var d := Step(c, k, WriteReceived(val)).0;
            Valid(d, k) && Abstract(d, k) == Next(Abstract(c, k), WriteReceived(val)).0
  {
    var idx := if c.idxWriteCnt == 0 then 0 else c.idx;
    WrapInvisible(idx * 256 + val, k);
    ModOfSum(idx, 256, val, |c.buffer|);
  }

  lemma CursorRefines(c: Chip, k: nat)
    requires Valid(c, k)
    ensures And(c.idx, c.mask) == c.idx % |c.buffer|
    ensures And((c.idx + 1) % U16, c.mask) == (c.idx + 1) % U16 % |c.buffer| == Advance(c.idx % |c.buffer|, |c.buffer|)
  {
    MaskInBounds(c, k, c.idx);
    MaskInBounds(c, k, (c.idx + 1) % U16);
    WrapInvisible(c.idx + 1, k);
    AdvanceIsMod(c.idx, |c.buffer|);
  }

  lemma WriteRefines(c: Chip, k: nat, val: Byte)
    requires Valid(c, k) && c.idxWriteCnt == c.numAddressBytes
    ensures var d := Step(c, k, WriteReceived(val)).0;
            Valid(d, k) && Abstract(d, k) == Next(Abstract(c, k), WriteReceived(val)).0
  {
    CursorRefines(c, k);
  }

  lemma ReadRefines(c: Chip, k: nat, e: Event)
    requires Valid(c, k) && (e.ReadRequested? || e.ReadProcessed?)
    ensures Valid(Step(c, k, e).0, k)
    ensures (Abstract(Step(c, k, e).0, k), Step(c, k, e).1) == Next(Abstract(c, k), e)
  {
    CursorRefines(c, k);
  }

  /** The callback refines the array with a cursor, event by event. */
  lemma CallbackRefines(c: Chip, k: nat, e: Event)
    requires Valid(c, k)
    ensures Valid(Step(c, k, e).0, k) && Ok(Abstract(c, k))
    ensures (Abstract(Step(c, k, e).0, k), Step(c, k, e).1) == Next(Abstract(c, k), e)
  {
    match e
    case WriteReceived(val) =>
      if c.idxWriteCnt < c.numAddressBytes {
        AddressRefines(c, k, val);
      } else {
        WriteRefines(c, k, val);
      }
    case ReadRequested => ReadRefines(c, k, e);
    case ReadProcessed => ReadRefines(c, k, e);
    case _ =>
  }

  // ---------------------------------------------------------------------------------------------
  // Runs
  // ---------------------------------------------------------------------------------------------

  lemma NextOk(m: Memory, e: Event)
    requires Ok(m)
    ensures var n := Next(m, e).0;
            && Ok(n) && |n.bytes| == |m.bytes| && n.numAddressBytes == m.numAddressBytes && n.readOnly == m.readOnly
            && (m.readOnly ==> n.bytes == m.bytes)
  {
  }

  /** A run of events: the memory afterwards and the bytes put on the bus. */
  ghost function Run(m: Memory, events: seq<Event>): (Memory, seq<Byte>)
    requires Ok(m)
    decreases |events|
  {
    if events == [] then (m, [])
    else
      NextOk(m, events[0]);
      var (n, out) := Next(m, events[0]);
      var (last, outs) := Run(n, events[1..]);
      (last, (if out.Some? then [out.value] else []) + outs)
  }

  ghost function RunChip(c: Chip, k: nat, events: seq<Event>): (Chip, seq<Byte>)
    requires Valid(c, k)
    decreases |events|
  {
    if events == [] then (c, [])
    else
      CallbackRefines(c, k, events[0]);
      var (d, out) := Step(c, k, events[0]);
      var (last, outs) := RunChip(d, k, events[1..]);
      (last, (if out.Some? then [out.value] else []) + outs)
  }

  /** Over every event sequence the callback and the array with a cursor give the same bytes and contents. */
  lemma {:induction false} RunRefines(c: Chip, k: nat, events: seq<Event>)
    requires Valid(c, k)
    ensures Valid(RunChip(c, k, events).0, k) && Ok(Abstract(c, k))
    ensures (Abstract(RunChip(c, k, events).0, k), RunChip(c, k, events).1) == Run(Abstract(c, k), events)
    decreases |events|
  {
    if events != [] {
      CallbackRefines(c, k, events[0]);
      RunRefines(Step(c, k, events[0]).0, k, events[1..]);
    }
  }

  /** A read-only part never changes from the bus. */
  lemma {:induction false} ReadOnlyNeverChanges(m: Memory, events: seq<Event>)
    requires Ok(m) && m.readOnly
    ensures Run(m, events).0.bytes == m.bytes
    decreases |events|
  {
    if events != [] {
      NextOk(m, events[0]);
      ReadOnlyNeverChanges(Next(m, events[0]).0, events[1..]);
    }
  }

  lemma {:induction false} RunOk(m: Memory, events: seq<Event>)
    requires Ok(m)
    ensures var n := Run(m, events).0;
            Ok(n) && |n.bytes| == |m.bytes| && n.numAddressBytes == m.numAddressBytes && n.readOnly == m.readOnly
    decreases |events|
  {
    if events != [] {
      NextOk(m, events[0]);
      RunOk(Next(m, events[0]).0, events[1..]);
    }
  }

  lemma {:induction false} RunConcat(m: Memory, a: seq<Event>, b: seq<Event>)
    requires Ok(m)
    ensures Ok(Run(m, a).0)
    ensures Run(m, a + b) == (Run(Run(m, a).0, b).0, Run(m, a).1 + Run(Run(m, a).0, b).1)
    decreases |a|
  {
    if a == [] {
      assert a + b == b && [] + Run(m, b).1 == Run(m, b).1;
    } else {
      NextOk(m, a[0]);
      assert (a + b)[1..] == a[1..] + b;
      var (n, out) := Next(m, a[0]);
      RunConcat(n, a[1..], b);
      var first := if out.Some? then [out.value] else [];
      var (n1, outs) := Run(n, a[1..]);
      assert first + (outs + Run(n1, b).1) == (first + outs) + Run(n1, b).1;
    }
  }

  // ---------------------------------------------------------------------------------------------
  // Writing and reading back
  // ---------------------------------------------------------------------------------------------

  /** The address phase of a transfer: most significant byte first. */
  function Address(a: nat, numAddressBytes: nat): seq<Event>
    requires a < U16
  {
    if numAddressBytes == 1 then [WriteRequested, WriteReceived(a % 256)]
    else [WriteRequested, WriteReceived(a / 256), WriteReceived(a % 256)]
  }

  function Writes(data: seq<Byte>): (s: seq<Event>)
    ensures |s| == |data| && forall i :: 0 <= i < |s| ==> s[i] == WriteReceived(data[i])
  {
    seq(|data|, i requires 0 <= i < |data| => WriteReceived(data[i]))
  }

  function Reads(n: nat): (s: seq<Event>)
    ensures |s| == n && forall i :: 0 <= i < n ==> s[i] == ReadProcessed
  {
    seq(n, _ => ReadProcessed)
  }

  /** Addresses a part with that many address bytes can be given. */
  ghost predicate Addressable(m: Memory, a: nat) {
    a < U16 && (m.numAddressBytes == 1 ==> a < 256)
  }

  lemma RunOne(m: Memory, e: Event, rest: seq<Event>)
    requires Ok(m) && Next(m, e).1.None?
    ensures Ok(Next(m, e).0) && Run(m, [e] + rest) == Run(Next(m, e).0, rest)
  {
    NextOk(m, e);
    assert ([e] + rest)[1..] == rest;
    var (last, outs) := Run(Next(m, e).0, rest);
    assert [] + outs == outs;
  }

  /** The last address byte. */
  lemma LastAddressByte(m: Memory, val: Byte)
    requires Ok(m) && m.addressed < m.numAddressBytes
    ensures Run(m, [WriteReceived(val)]) == (Next(m, WriteReceived(val)).0, [])
  {
    RunOne(m, WriteReceived(val), []);
    assert [WriteReceived(val)] + [] == [WriteReceived(val)];
  }

  lemma AddressSetsCursor(m: Memory, a: nat)
    requires Ok(m) && Addressable(m, a)
    ensures Run(m, Address(a, m.numAddressBytes)) == (m.(cursor := a % |m.bytes|, addressed := m.numAddressBytes), [])
  {
    var low := [WriteReceived(a % 256)];
    var m0 := m.(addressed := 0);
    if m.numAddressBytes == 1 {
      assert Address(a, 1) == [WriteRequested] + low;
      RunOne(m, WriteRequested, low);
      LastAddressByte(m0, a % 256);
    } else {
      assert Address(a, 2) == [WriteRequested] + ([WriteReceived(a / 256)] + low);
      RunOne(m, WriteRequested, [WriteReceived(a / 256)] + low);
      RunOne(m0, WriteReceived(a / 256), low);
      var m1 := m0.(cursor := (a / 256) % |m.bytes|, addressed := 1);
      assert m1 == Next(m0, WriteReceived(a / 256)).0;
      LastAddressByte(m1, a % 256);
      ModOfSum(a / 256, 256, a % 256, |m.bytes|);
    }
  }

  /** The position `i` places after `at`, wrapping once. */
  function Pos(at: nat, i: nat, size: nat): nat {
    if at + i < size then at + i else at + i - size
  }

  /** `data` lies in `bytes` from `at` on, wrapping at the end. */
  ghost predicate Holds(bytes: seq<Byte>, at: nat, data: seq<Byte>)
    requires at < |bytes| && |data| <= |bytes|
  {
    forall i :: 0 <= i < |data| ==> bytes[Pos(at, i, |bytes|)] == data[i]
  }

  /** Position `j` is not among the `n` positions from `at` on. */
  ghost predicate Elsewhere(size: nat, at: nat, n: nat, j: nat) {
    forall i: nat :: i < n ==> Pos(at, i, size) != j
  }

  lemma ElsewhereTail(size: nat, c: nat, n: nat, j: nat)
    requires c < size && 0 < n <= size && Elsewhere(size, c, n, j)
    ensures j != c && Elsewhere(size, Advance(c, size), n - 1, j)
  {
    assert Pos(c, 0, size) == c;
    forall i: nat | i < n - 1 ensures Pos(Advance(c, size), i, size) != j {
      assert Pos(c, i + 1, size) != j;
    }
  }

  /** What storing the rest of a block does, seen from the whole block. */
  lemma StoreHead(bytes: seq<Byte>, c: nat, data: seq<Byte>, after: seq<Byte>)
    requires c < |bytes| && 0 < |data| <= |bytes| && |after| == |bytes|
    requires Holds(after, Advance(c, |bytes|), data[1..])
    requires forall j: nat :: j < |bytes| && Elsewhere(|bytes|, Advance(c, |bytes|), |data| - 1, j) ==>
      after[j] == bytes[c := data[0]][j]
    ensures Holds(after, c, data)
    ensures forall j: nat :: j < |bytes| && Elsewhere(|bytes|, c, |data|, j) ==> after[j] == bytes[j]
  {
    var size := |bytes|;
    forall i | 0 <= i < |data| ensures after[Pos(c, i, size)] == data[i] {
      if i == 0 {
        assert Elsewhere(size, Advance(c, size), |data| - 1, c);
      } else {
        assert Pos(c, i, size) == Pos(Advance(c, size), i - 1, size);
        assert data[1..][i - 1] == data[i];
      }
    }
    forall j: nat | j < size && Elsewhere(size, c, |data|, j) ensures after[j] == bytes[j] {
      ElsewhereTail(size, c, |data|, j);
    }
  }

  /** Writing a block stores it and touches nothing else. */
  lemma {:induction false} WritesStore(m: Memory, data: seq<Byte>)
    requires Ok(m) && m.addressed == m.numAddressBytes && !m.readOnly && |data| <= |m.bytes|
    ensures var (n, outs) := Run(m, Writes(data));
            && outs == [] && |n.bytes| == |m.bytes| && n.cursor == Pos(m.cursor, |data|, |m.bytes|)
            && Holds(n.bytes, m.cursor, data)
            && forall j: nat :: j < |m.bytes| && Elsewhere(|m.bytes|, m.cursor, |data|, j) ==> n.bytes[j] == m.bytes[j]
    decreases |data|
  {
    if data != [] {
      var e := WriteReceived(data[0]);
      assert Writes(data) == [e] + Writes(data[1..]);
      RunOne(m, e, Writes(data[1..]));
      var m1 := Next(m, e).0;
      WritesStore(m1, data[1..]);
      StoreHead(m.bytes, m.cursor, data, Run(m1, Writes(data[1..])).0.bytes);
    }
  }

  /** Reading a block gives the bytes after the cursor and changes nothing. */
  lemma {:induction false} ReadsFetch(m: Memory, n: nat)
    requires Ok(m) && n < |m.bytes|
    ensures var (last, outs) := Run(m, Reads(n));
            && last == m.(cursor := Pos(m.cursor, n, |m.bytes|)) && |outs| == n
            && forall i :: 0 <= i < n ==> outs[i] == m.bytes[Pos(m.cursor, i + 1, |m.bytes|)]
    decreases n
  {
    if n > 0 {
      var (m1, out) := Next(m, ReadProcessed);
      NextOk(m, ReadProcessed);
      assert Reads(n)[1..] == Reads(n - 1);
      ReadsFetch(m1, n - 1);
      var outs := Run(m1, Reads(n - 1)).1;
      assert Run(m, Reads(n)).1 == [out.value] + outs;
      forall i | 0 < i < n
        ensures ([out.value] + outs)[i] == m.bytes[Pos(m.cursor, i + 1, |m.bytes|)]
      {
        assert Pos(m1.cursor, i, |m.bytes|) == Pos(m.cursor, i + 1, |m.bytes|);
        assert outs[i - 1] == m.bytes[Pos(m1.cursor, (i - 1) + 1, |m.bytes|)];
      }
    }
  }

  /** The first byte is the one at the cursor. */
  lemma ReadFirst(m: Memory, more: seq<Event>)
    requires Ok(m)
    ensures Run(m, [ReadRequested] + more) == (Run(m, more).0, [m.bytes[m.cursor]] + Run(m, more).1)
  {
    assert ([ReadRequested] + more)[1..] == more && ([ReadRequested] + more)[0] == ReadRequested;
  }

  /** A block is its first byte and the bytes after it. */
  lemma BlockFrom(bytes: seq<Byte>, at: nat, data: seq<Byte>, rest: seq<Byte>)
    requires at < |bytes| && 0 < |data| <= |bytes| && Holds(bytes, at, data) && |rest| == |data| - 1
    requires forall i :: 0 <= i < |rest| ==> rest[i] == bytes[Pos(at, i + 1, |bytes|)]
    ensures [bytes[at]] + rest == data
  {
    var block := [bytes[at]] + rest;
    assert bytes[Pos(at, 0, |bytes|)] == data[0];
    forall i | 0 < i < |data| ensures block[i] == data[i] {
      assert block[i] == rest[i - 1] == bytes[Pos(at, (i - 1) + 1, |bytes|)];
    }
  }

  /** Reading from the cursor on gives a block that lies there. */
  lemma ReadBlock(m: Memory, data: seq<Byte>)
    requires Ok(m) && 0 < |data| <= |m.bytes| && Holds(m.bytes, m.cursor, data)
    ensures Run(m, [ReadRequested] + Reads(|data| - 1)) == (m.(cursor := Pos(m.cursor, |data| - 1, |m.bytes|)), data)
  {
    var more := Reads(|data| - 1);
    var last, rest := FetchRest(m, |data| - 1, more);
    ReadFirst(m, more);
    BlockFrom(m.bytes, m.cursor, data, rest);
  }

  lemma FetchRest(m: Memory, n: nat, more: seq<Event>) returns (last: Memory, outs: seq<Byte>)
    requires Ok(m) && n < |m.bytes| && more == Reads(n)
    ensures Run(m, more) == (last, outs) && last == m.(cursor := Pos(m.cursor, n, |m.bytes|)) && |outs| == n
    ensures forall i :: 0 <= i < n ==> outs[i] == m.bytes[Pos(m.cursor, i + 1, |m.bytes|)]
  {
    ReadsFetch(m, n);
    last, outs := Run(m, more).0, Run(m, more).1;
  }

  lemma ReadBack(m: Memory, a: nat, data: seq<Byte>)
    requires Ok(m) && Addressable(m, a) && 0 < |data| <= |m.bytes| && Holds(m.bytes, a % |m.bytes|, data)
    ensures Run(m, Address(a, m.numAddressBytes) + ([ReadRequested] + Reads(|data| - 1))).1 == data
  {
    AddressSetsCursor(m, a);
    RunConcat(m, Address(a, m.numAddressBytes), [ReadRequested] + Reads(|data| - 1));
    ReadBlock(Run(m, Address(a, m.numAddressBytes)).0, data);
    assert [] + data == data;
  }

  /** A write transfer: address, data, stop. */
  function WriteTransfer(a: nat, numAddressBytes: nat, data: seq<Byte>): seq<Event>
    requires a < U16
  {
    Address(a, numAddressBytes) + (Writes(data) + [Stop])
  }

  /** A read transfer: address, then the bytes after a repeated start. */
  function ReadTransfer(a: nat, numAddressBytes: nat, n: nat): seq<Event>
    requires a < U16 && n > 0
  {
    Address(a, numAddressBytes) + ([ReadRequested] + Reads(n - 1))
  }

  lemma StopEnds(m: Memory, events: seq<Event>)
    requires Ok(m)
    ensures Run(m, events + [Stop]).0 == Run(m, events).0.(addressed := 0)
  {
    RunConcat(m, events, [Stop]);
    assert [Stop][1..] == [];
  }

  /** A write transfer leaves the block in place and every other byte alone. */
  lemma WriteStores(m: Memory, a: nat, data: seq<Byte>)
    requires Ok(m) && !m.readOnly && Addressable(m, a) && |data| <= |m.bytes|
    ensures var s := Run(m, WriteTransfer(a, m.numAddressBytes, data)).0;
            && Ok(s) && |s.bytes| == |m.bytes| && s.numAddressBytes == m.numAddressBytes
            && s.cursor == Pos(a % |m.bytes|, |data|, |m.bytes|)
            && Holds(s.bytes, a % |m.bytes|, data)
            && forall j: nat :: j < |m.bytes| && Elsewhere(|m.bytes|, a % |m.bytes|, |data|, j) ==> s.bytes[j] == m.bytes[j]
  {
    RunOk(m, WriteTransfer(a, m.numAddressBytes, data));
    AddressSetsCursor(m, a);
    RunConcat(m, Address(a, m.numAddressBytes), Writes(data) + [Stop]);
    var m1 := Run(m, Address(a, m.numAddressBytes)).0;
    WritesStore(m1, data);
    StopEnds(m1, Writes(data));
  }

  /**
   Writing up to `size` bytes at an address of a writable part, then addressing it again and reading as many
   bytes, gives them back.
   */
  lemma WriteThenRead(m: Memory, a: nat, data: seq<Byte>)
    requires Ok(m) && !m.readOnly && Addressable(m, a) && 0 < |data| <= |m.bytes|
    ensures var s := Run(m, WriteTransfer(a, m.numAddressBytes, data)).0;
            Ok(s) && Run(s, ReadTransfer(a, m.numAddressBytes, |data|)).1 == data
  {
    WriteStores(m, a, data);
    ReadBack(Run(m, WriteTransfer(a, m.numAddressBytes, data)).0, a, data);
  }

  /** The `n` bytes from a position on, wrapping. */
  function Window(bytes: seq<Byte>, at: nat, n: nat): (w: seq<Byte>)
    requires at < |bytes| && n <= |bytes|
    ensures |w| == n && Holds(bytes, at, w)
  {
    seq(n, i requires 0 <= i < n => bytes[Pos(at, i, |bytes|)])
  }

  /** A read without an address phase: from the cursor on, leaving it at the last byte put on the bus. */
  lemma ReadOn(m: Memory, n: nat)
    requires Ok(m) && 0 < n <= |m.bytes|
    ensures Run(m, [ReadRequested] + Reads(n - 1))
            == (m.(cursor := Pos(m.cursor, n - 1, |m.bytes|)), Window(m.bytes, m.cursor, n))
  {
    ReadBlock(m, Window(m.bytes, m.cursor, n));
  }

  /** A stop ends the address phase and leaves the cursor where it is. */
  lemma StopThenRead(m: Memory, n: nat)
    requires Ok(m) && 0 < n <= |m.bytes|
    ensures Run(m, [Stop] + ([ReadRequested] + Reads(n - 1))).1 == Window(m.bytes, m.cursor, n)
  {
    RunOne(m, Stop, [ReadRequested] + Reads(n - 1));
    ReadOn(m.(addressed := 0), n);
  }

  /** Addressing, a stop and a read in a transfer of its own: the bytes from the address on. */
  lemma AddressStopRead(m: Memory, a: nat, n: nat)
    requires Ok(m) && Addressable(m, a) && 0 < n <= |m.bytes|
    ensures Run(m, Address(a, m.numAddressBytes) + ([Stop] + ([ReadRequested] + Reads(n - 1)))).1
            == Window(m.bytes, a % |m.bytes|, n)
  {
    AddressSetsCursor(m, a);
    RunConcat(m, Address(a, m.numAddressBytes), [Stop] + ([ReadRequested] + Reads(n - 1)));
    StopThenRead(m.(cursor := a % |m.bytes|, addressed := m.numAddressBytes), n);
    assert [] + Window(m.bytes, a % |m.bytes|, n) == Window(m.bytes, a % |m.bytes|, n);
  }

  /** After a write transfer, a read without an address goes on behind the block. */
  lemma WriteThenReadOn(m: Memory, a: nat, data: seq<Byte>, n: nat)
    requires Ok(m) && !m.readOnly && Addressable(m, a) && |data| <= |m.bytes| && 0 < n <= |m.bytes|
    ensures var s := Run(m, WriteTransfer(a, m.numAddressBytes, data)).0;
            && Ok(s) && |s.bytes| == |m.bytes|
            && Run(s, [ReadRequested] + Reads(n - 1)).1
               == Window(s.bytes, Pos(a % |m.bytes|, |data|, |m.bytes|), n)
  {
    WriteStores(m, a, data);
    ReadOn(Run(m, WriteTransfer(a, m.numAddressBytes, data)).0, n);
  }

  /** Data sent to a read-only part is ignored altogether. */
  lemma {:induction false} ReadOnlyIgnores(m: Memory, data: seq<Byte>)
    requires Ok(m) && m.readOnly && m.addressed == m.numAddressBytes
    ensures Run(m, Writes(data)) == (m, [])
    decreases |data|
  {
    if data != [] {
      assert Writes(data) == [WriteReceived(data[0])] + Writes(data[1..]);
      RunOne(m, WriteReceived(data[0]), Writes(data[1..]));
      ReadOnlyIgnores(m, data[1..]);
    }
  }

  // ---------------------------------------------------------------------------------------------
  // The same of the callback
  // ---------------------------------------------------------------------------------------------

  /** No bus traffic changes a read-only part. */
  lemma ReadOnlyChip(c: Chip, k: nat, events: seq<Event>)
    requires Valid(c, k) && c.readOnly
    ensures RunChip(c, k, events).0.buffer == c.buffer
  {
    RunRefines(c, k, events);
    ReadOnlyNeverChanges(Abstract(c, k), events);
  }

  /** A write transfer on the bus leaves the block in the buffer and every other byte alone. */
  lemma ChipStores(c: Chip, k: nat, a: nat, data: seq<Byte>)
    requires Valid(c, k) && !c.readOnly && Addressable(Abstract(c, k), a) && |data| <= |c.buffer|
    ensures var d := RunChip(c, k, WriteTransfer(a, c.numAddressBytes, data)).0;
            && Valid(d, k) && Holds(d.buffer, a % |c.buffer|, data)
            && forall j: nat :: j < |c.buffer| && Elsewhere(|c.buffer|, a % |c.buffer|, |data|, j) ==> d.buffer[j] == c.buffer[j]
  {
    RunRefines(c, k, WriteTransfer(a, c.numAddressBytes, data));
    WriteStores(Abstract(c, k), a, data);
  }

  /** What is written on the bus is what is read from it. */
  lemma ChipWriteThenRead(c: Chip, k: nat, a: nat, data: seq<Byte>)
    requires Valid(c, k) && !c.readOnly && Addressable(Abstract(c, k), a) && 0 < |data| <= |c.buffer|
    ensures var d := RunChip(c, k, WriteTransfer(a, c.numAddressBytes, data)).0;
            Valid(d, k) && RunChip(d, k, ReadTransfer(a, c.numAddressBytes, |data|)).1 == data
  {
    RunRefines(c, k, WriteTransfer(a, c.numAddressBytes, data));
    WriteThenRead(Abstract(c, k), a, data);
    RunRefines(RunChip(c, k, WriteTransfer(a, c.numAddressBytes, data)).0, k, ReadTransfer(a, c.numAddressBytes, |data|));
  }

  /** Addressing a part, a stop and a read in a transfer of its own. */
  lemma ChipAddressStopRead(c: Chip, k: nat, a: nat, n: nat)
    requires Valid(c, k) && Addressable(Abstract(c, k), a) && 0 < n <= |c.buffer|
    ensures RunChip(c, k, Address(a, c.numAddressBytes) + ([Stop] + ([ReadRequested] + Reads(n - 1)))).1
            == Window(c.buffer, a % |c.buffer|, n)
  {
    RunRefines(c, k, Address(a, c.numAddressBytes) + ([Stop] + ([ReadRequested] + Reads(n - 1))));
    AddressStopRead(Abstract(c, k), a, n);
  }

  /** Reading on after a write transfer. */
  lemma ChipWriteThenReadOn(c: Chip, k: nat, a: nat, data: seq<Byte>, n: nat)
    requires Valid(c, k) && !c.readOnly && Addressable(Abstract(c, k), a) && |data| <= |c.buffer| && 0 < n <= |c.buffer|
    ensures var d := RunChip(c, k, WriteTransfer(a, c.numAddressBytes, data)).0;
            && Valid(d, k) && |d.buffer| == |c.buffer|
            && RunChip(d, k, [ReadRequested] + Reads(n - 1)).1 == Window(d.buffer, Pos(a % |c.buffer|, |data|, |c.buffer|), n)
  {
    RunRefines(c, k, WriteTransfer(a, c.numAddressBytes, data));
    WriteThenReadOn(Abstract(c, k), a, data, n);
    RunRefines(RunChip(c, k, WriteTransfer(a, c.numAddressBytes, data)).0, k, [ReadRequested] + Reads(n - 1));
  }

  // ---------------------------------------------------------------------------------------------
  // The device
  // ---------------------------------------------------------------------------------------------

  class Device {
    const buffer: array<Byte>
    const mask: nat
    const numAddressBytes: nat
    const readOnly: bool
    var idx: nat
    var idxWriteCnt: nat

    ghost function View(): Chip
      reads this, buffer
    {
      Chip(buffer[..], idx, mask, numAddressBytes, idxWriteCnt, readOnly)
    }

    /** The set-up in the probe: an empty part has all bits set. */
    constructor (k: nat, addr16: bool, readOnly: bool)
      requires k <= 16
      ensures Valid(View(), k) && fresh(buffer) && View().readOnly == readOnly
      ensures View().numAddressBytes == (if addr16 then 2 else 1) && View().idx == 0 && View().idxWriteCnt == 0
      ensures forall b <- View().buffer :: b == 255
    {
      var size := Pow2(k);
      buffer := new Byte[size](_ => 255);
      mask, numAddressBytes, this.readOnly := size - 1, if addr16 then 2 else 1, readOnly;
      idx, idxWriteCnt := 0, 0;
    }

    method Callback(e: Event, ghost k: nat) returns (out: Option<Byte>)
      requires Valid(View(), k)
      modifies this, buffer
      ensures (View(), out) == Step(old(View()), k, e) && Valid(View(), k)
    {
      CallbackRefines(View(), k, e);
      out := None;
      match e {
        case WriteReceived(val) =>
          if idxWriteCnt < numAddressBytes {
            if idxWriteCnt == 0 {
              idx := 0;
            }
            idx := (idx * 256 + val) % U16;
            idxWriteCnt := idxWriteCnt + 1;
          } else if !readOnly {
            MaskInBounds(View(), k, idx);
            buffer[And(idx, mask)] := val;
            idx := (idx + 1) % U16;
          }
        case ReadProcessed =>
          idx := (idx + 1) % U16;
          MaskInBounds(View(), k, idx);
          out := Some(buffer[And(idx, mask)]);
        case ReadRequested =>
          MaskInBounds(View(), k, idx);
          out := Some(buffer[And(idx, mask)]);
        case Stop =>
          idxWriteCnt := 0;
        case WriteRequested =>
          idxWriteCnt := 0;
      }
    }
  }
}
