/**
 `dw_writer`, `dw_reader`, `interrupt_transfer` and `poll_transfer` as code that moves cursors and buffers,
 with the device running in between at any pace.  Every method's effect is a run of the machine in DwSpi.
 */
module DwSpiDriver {
  import opened Wrappers
  import opened DwSpi

  lemma {:induction false} RunMore(t: Transfer, m: Machine, trace: seq<Action>, a: Action)
    requires t.nBytes > 0 && Possible(t, m, trace) && Enabled(Run(t, m, trace), a)
    ensures Possible(t, m, trace + [a]) && Run(t, m, trace + [a]) == Next(t, Run(t, m, trace), a)
    decreases |trace|
  {
    if trace == [] {
      assert trace + [a] == [a] && [a][1..] == [];
    } else {
      assert (trace + [a])[1..] == trace[1..] + [a] && (trace + [a])[0] == trace[0];
      RunMore(t, Next(t, m, trace[0]), trace[1..], a);
    }
  }

  /** From the first state to the second by some run that keeps the invariant and never moves backwards. */
  ghost predicate Leads(t: Transfer, m: Machine, m': Machine, trace: seq<Action>)
    requires t.nBytes > 0
  {
    && Possible(t, m, trace) && m' == Run(t, m, trace)
    && Inv(t, m') && Remaining(t, m') <= Remaining(t, m)
    && (Remaining(t, m') == Remaining(t, m) ==> m' == m.(pc := m'.pc))
  }

  lemma LeadsOn(t: Transfer, m: Machine, m': Machine, trace: seq<Action>, a: Action)
    requires ValidTransfer(t) && Leads(t, m, m', trace) && Enabled(m', a)
    ensures Leads(t, m, Next(t, m', a), trace + [a])
  {
    RunMore(t, m, trace, a);
    StepKeeps(t, m', a);
    MovesMakeProgress(t, m', a);
  }

  /** The bytes of `k` words. */
  function Bytes(t: Transfer, k: int): int {
    k * t.nBytes
  }

  lemma BytesMore(t: Transfer, k: int)
    ensures Bytes(t, k + 1) == Bytes(t, k) + t.nBytes && Bytes(t, 0) == 0
  {
  }

  class Spi {
    const t: Transfer
    /** Accesses so far, and how many steps the device tries before each of them. */
    var clock: nat
    const pace: nat -> nat

    var tx: nat
    var rx: nat
    var rxBuf: seq<Word>
    ghost var pc: Pc

    var txFifo: seq<Word>
    var shifter: Option<Word>
    var rxFifo: seq<Word>
    var shifted: seq<Word>
    var txOverrun: bool
    var rxOverrun: bool
    var rxUnderrun: bool

    ghost function View(): Machine
      reads this
    {
      Machine(tx, rx, rxBuf, pc, txFifo, shifter, rxFifo, shifted, txOverrun, rxOverrun, rxUnderrun)
    }

    /** The set-up part of `dw_spi_transfer_one`, on a controller that was disabled and so has empty FIFOs. */
    constructor (t: Transfer, pace: nat -> nat)
      requires ValidTransfer(t)
      ensures this.t == t && this.pace == pace && View() == START && Inv(t, View())
    {
      this.t, this.pace, clock := t, pace, 0;
      tx, rx, rxBuf, pc := 0, 0, [], Idle;
      txFifo, shifter, rxFifo, shifted := [], None, [], [];
      txOverrun, rxOverrun, rxUnderrun := false, false, false;
      new;
      StartHolds(t);
    }

    // The accesses and moves of the hardware, whatever state it is in.

    method ShiftOut()
      requires t.nBytes > 0 && shifter.Some?
      modifies this
      ensures View() == Next(t, old(View()), Shift) && clock == old(clock)
    {
      shifted, shifter := shifted + [shifter.value], None;
      if |rxFifo| < t.depth {
        rxFifo := rxFifo + [t.reply(shifted)];
      } else {
        rxOverrun := true;
      }
    }

    method LoadShifter()
      requires t.nBytes > 0 && shifter.None? && txFifo != []
      modifies this
      ensures View() == Next(t, old(View()), Load) && clock == old(clock)
    {
      shifter, txFifo := Some(txFifo[0]), txFifo[1..];
    }

    method WriteDr()
      requires t.nBytes > 0 && pc.Writing? && pc.left > 0
      modifies this
      ensures View() == Next(t, old(View()), WriteWord)
    {
      var word := TxWord(t, tx / t.nBytes);
      if |txFifo| < t.depth {
        txFifo := txFifo + [word];
      } else {
        txOverrun := true;
      }
      tx := tx + t.nBytes;
      pc := Writing(pc.left - 1);
    }

    method ReadDr()
      requires t.nBytes > 0 && pc.Reading? && pc.left > 0
      modifies this
      ensures View() == Next(t, old(View()), ReadWord)
    {
      var word := 0;
      if rxFifo != [] {
        word, rxFifo := rxFifo[0], rxFifo[1..];
      } else {
        rxUnderrun := true;
      }
      rxBuf, rx := rxBuf + [word], rx + t.nBytes;
      pc := Reading(pc.left - 1);
    }

    /** One step of the device, if it can take one. */
    method DeviceStep(ghost from: Machine, ghost trace: seq<Action>) returns (ghost trace': seq<Action>)
      requires ValidTransfer(t) && Leads(t, from, View(), trace)
      modifies this
      ensures Leads(t, from, View(), trace') && pc == old(pc) && clock == old(clock) && rx == old(rx) && tx == old(tx)
      ensures Enabled(old(View()), Load) || Enabled(old(View()), Shift) ==> Remaining(t, View()) < old(Remaining(t, View()))
      ensures Remaining(t, View()) <= old(Remaining(t, View()))
    {
      trace' := trace;
      if shifter.Some? {
        LeadsOn(t, from, View(), trace, Shift);
        MovesMakeProgress(t, View(), Shift);
        trace' := trace + [Shift];
        ShiftOut();
      } else if txFifo != [] {
        LeadsOn(t, from, View(), trace, Load);
        MovesMakeProgress(t, View(), Load);
        trace' := trace + [Load];
        LoadShifter();
      }
    }

    method DeviceRuns(ghost from: Machine, ghost trace: seq<Action>) returns (ghost trace': seq<Action>)
      requires ValidTransfer(t) && Leads(t, from, View(), trace)
      modifies this
      ensures Leads(t, from, View(), trace') && pc == old(pc) && rx == old(rx) && tx == old(tx)
    {
      trace' := trace;
      for i := 0 to pace(clock)
        invariant Leads(t, from, View(), trace') && pc == old(pc) && rx == old(rx) && tx == old(tx)
      {
        trace' := DeviceStep(from, trace');
      }
      clock := clock + 1;
    }

    /** One word is written, after the device has run for a while. */
    method WriteOne(ghost from: Machine, ghost trace: seq<Action>) returns (ghost trace': seq<Action>)
      requires ValidTransfer(t) && Leads(t, from, View(), trace) && pc.Writing? && pc.left > 0
      modifies this
      ensures Leads(t, from, View(), trace') && pc == Writing(old(pc.left) - 1) && rx == old(rx) && tx == old(tx) + t.nBytes
      ensures Remaining(t, View()) < Remaining(t, from)
    {
      trace' := DeviceRuns(from, trace);
      LeadsOn(t, from, View(), trace', WriteWord);
      MovesMakeProgress(t, View(), WriteWord);
      trace' := trace' + [WriteWord];
      WriteDr();
    }

    method ReadOne(ghost from: Machine, ghost trace: seq<Action>) returns (ghost trace': seq<Action>)
      requires ValidTransfer(t) && Leads(t, from, View(), trace) && pc.Reading? && pc.left > 0
      modifies this
      ensures Leads(t, from, View(), trace') && pc == Reading(old(pc.left) - 1) && rx == old(rx) + t.nBytes && tx == old(tx)
      ensures Remaining(t, View()) < Remaining(t, from)
    {
      trace' := DeviceRuns(from, trace);
      LeadsOn(t, from, View(), trace', ReadWord);
      MovesMakeProgress(t, View(), ReadWord);
      trace' := trace' + [ReadWord];
      ReadDr();
    }

    /** The loop of the writer: `max` words, one by one. */
    method WriteWords(max: nat, ghost from: Machine, ghost trace: seq<Action>) returns (ghost trace': seq<Action>)
      requires ValidTransfer(t) && Leads(t, from, View(), trace) && pc == Writing(max)
      modifies this
      ensures Leads(t, from, View(), trace') && pc == Writing(0)
      ensures rx == old(rx) && tx == old(tx) + Bytes(t, max)
      ensures max > 0 ==> Remaining(t, View()) < Remaining(t, from)
    {
      var left: nat := max;
      trace' := trace;
      while left > 0
        invariant left <= max && rx == old(rx) && tx == old(tx) + Bytes(t, max - left)
        invariant Leads(t, from, View(), trace') && pc == Writing(left)
        invariant left < max ==> Remaining(t, View()) < Remaining(t, from)
      {
        BytesMore(t, max - left);
        trace' := WriteOne(from, trace');
        left := left - 1;
      }
    }

    method Writer() returns (ghost trace: seq<Action>)
      requires ValidTransfer(t) && Inv(t, View()) && pc == Idle
      modifies this
      ensures Leads(t, old(View()), View(), trace) && pc == Idle
      ensures rx == old(rx) && tx == old(tx) + Bytes(t, old(TxMax(t, View())))
      ensures old(TxMax(t, View())) > 0 ==> Remaining(t, View()) < old(Remaining(t, View()))
    {
      ghost var from := View();
      assert Leads(t, from, View(), []);
      LeadsOn(t, from, View(), [], StartWriter);
      var max := TxMaxNow();
      pc, trace := Writing(max), [] + [StartWriter];
      trace := WriteWords(max, from, trace);
      LeadsOn(t, from, View(), trace, EndLoop);
      pc, trace := Idle, trace + [EndLoop];
    }

    /** The loop of the reader: `max` words, one by one. */
    method ReadWords(max: nat, ghost from: Machine, ghost trace: seq<Action>) returns (ghost trace': seq<Action>)
      requires ValidTransfer(t) && Leads(t, from, View(), trace) && pc == Reading(max)
      modifies this
      ensures Leads(t, from, View(), trace') && pc == Reading(0)
      ensures tx == old(tx) && rx == old(rx) + Bytes(t, max)
      ensures max > 0 ==> Remaining(t, View()) < Remaining(t, from)
    {
      var left: nat := max;
      trace' := trace;
      while left > 0
        invariant left <= max && tx == old(tx) && rx == old(rx) + Bytes(t, max - left)
        invariant Leads(t, from, View(), trace') && pc == Reading(left)
        invariant left < max ==> Remaining(t, View()) < Remaining(t, from)
      {
        BytesMore(t, max - left);
        trace' := ReadOne(from, trace');
        left := left - 1;
      }
    }

    method Reader() returns (ghost trace: seq<Action>)
      requires ValidTransfer(t) && Inv(t, View()) && pc == Idle
      modifies this
      ensures Leads(t, old(View()), View(), trace) && pc == Idle
      ensures tx == old(tx) && rx == old(rx) + Bytes(t, old(RxMax(t, View())))
      ensures old(RxMax(t, View())) > 0 ==> Remaining(t, View()) < old(Remaining(t, View()))
    {
      ghost var from := View();
      assert Leads(t, from, View(), []);
      LeadsOn(t, from, View(), [], StartReader);
      var max := RxMaxNow();
      pc, trace := Reading(max), [] + [StartReader];
      trace := ReadWords(max, from, trace);
      LeadsOn(t, from, View(), trace, EndLoop);
      pc, trace := Idle, trace + [EndLoop];
    }

    function TxMaxNow(): (max: nat)
      requires t.nBytes > 0
      reads this
      ensures max == TxMax(t, View())
    {
      TxMax(t, Machine(tx, rx, rxBuf, Idle, txFifo, shifter, rxFifo, shifted, txOverrun, rxOverrun, rxUnderrun))
    }

    function RxMaxNow(): (max: nat)
      requires t.nBytes > 0
      reads this
      ensures max == RxMax(t, View())
    {
      RxMax(t, Machine(tx, rx, rxBuf, Idle, txFifo, shifter, rxFifo, shifted, txOverrun, rxOverrun, rxUnderrun))
    }

    /**
     `interrupt_transfer`: the error branch is there, and it is never taken.  Everything in the RX FIFO is read;
     then, if the TX FIFO asked for it and words are missing, as much is written as `tx_max` allows at that point
     (`mid` is the machine then).
     */
    method Interrupt(txEmpty: bool) returns (error: bool, finished: bool, ghost mid: Machine)
      requires ValidTransfer(t) && Inv(t, View()) && pc == Idle
      modifies this
      ensures !error && Inv(t, View()) && pc == Idle
      ensures finished <==> rx == t.len
      ensures finished ==> rxBuf == Replies(t, 0, Words(t))
      ensures Inv(t, mid) && mid.tx == old(tx) && mid.rx == rx == old(rx) + Bytes(t, old(RxMax(t, View())))
      ensures tx == old(tx) + if txEmpty && !finished then Bytes(t, TxMax(t, mid)) else 0
      ensures Remaining(t, View()) <= old(Remaining(t, View()))
    {
      mid := View();
      error, finished := txOverrun || rxOverrun || rxUnderrun, false;
      if error {
        return;
      }
      ghost var trace := Reader();
      mid := View();
      CursorBound(t, View());
      if rx == t.len {
        finished := true;
        return;
      }
      if txEmpty {
        trace := Writer();
      }
    }

    /** Writer then reader: either something moved, or there was nothing to write or read. */
    method WriteAndRead()
      requires ValidTransfer(t) && Inv(t, View()) && pc == Idle
      modifies this
      ensures Inv(t, View()) && pc == Idle
      ensures || (View() == old(View()) && old(TxMax(t, View())) == 0 && old(RxMax(t, View())) == 0)
              || Remaining(t, View()) < old(Remaining(t, View()))
    {
      ghost var from := View();
      ghost var trace := Writer();
      assert View() == from || Remaining(t, View()) < Remaining(t, from);
      trace := Reader();
    }

    /** One round of the polling loop; in an unfinished transfer something always moves. */
    method PollRound()
      requires ValidTransfer(t) && Inv(t, View()) && pc == Idle && t.len % t.nBytes == 0
      modifies this
      ensures Inv(t, View()) && pc == Idle && 0 <= Remaining(t, View())
      ensures old(rx) < t.len ==> Remaining(t, View()) < old(Remaining(t, View()))
    {
      if rx < t.len {
        NeverStuck(t, View());
      }
      WriteAndRead();
      assert Leads(t, View(), View(), []);
      ghost var trace := DeviceStep(View(), []);
      MovesMakeProgress(t, View(), StartReader);
    }

    /**
     `poll_transfer`, with a device that takes at least one step (if it can) per round: it terminates, and
     then the buffer holds the device's answer to every word of the transfer, in order.
     */
    method Poll()
      requires ValidTransfer(t) && Inv(t, View()) && pc == Idle && t.len % t.nBytes == 0
      modifies this
      ensures Inv(t, View()) && pc == Idle && rx == t.len
      ensures rxBuf == Replies(t, 0, Words(t)) && tx == t.len
      ensures CallersWords(t, shifted) && |shifted| == Words(t)
    {
      PollRound();
      while rx < t.len
        invariant Inv(t, View()) && pc == Idle && Remaining(t, View()) >= 0
        decreases Remaining(t, View())
      {
        PollRound();
      }
      CursorBound(t, View());
      SentWords(t, Words(t));
    }
  }

  lemma CursorBound(t: Transfer, m: Machine)
    requires ValidTransfer(t) && Inv(t, m)
    ensures m.rx <= m.tx <= t.len
    ensures m.rx == t.len ==> m.tx == t.len && m.rxBuf == Replies(t, 0, Words(t)) && m.shifted == Sent(t, Words(t))
  {
    assert m.txFifo == [] && m.shifter.None? ==> m.shifted + InShifter(m) + m.txFifo == m.shifted;
    if t.nBytes == 2 {
      assert m.rx == 2 * (m.rx / 2) && m.tx == 2 * (m.tx / 2);
    }
  }
}
