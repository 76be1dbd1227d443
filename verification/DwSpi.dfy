/**
 DesignWare SPI in transmit-and-receive mode: the driver's writer and reader against a device that shifts
 words between two hardware FIFOs at its own pace.  Writer and reader hold one lock, so at most one of
 them is under way; the device may take a step between any two register accesses.
 */
module DwSpi {
  import opened Wrappers

  type Word = int

  const TWO32: nat := 0x1_0000_0000

  /**
   One transfer: length in bytes, bytes per word, the FIFO length the driver believes in, the real depth,
   the words to send (`None` for a null buffer) and the device's answer to all words received so far.
   */
  datatype Transfer = Transfer(
    len: nat, nBytes: nat, fifoLen: nat, depth: nat, txBuf: Option<seq<Word>>, reply: seq<Word> -> Word)

  ghost predicate ValidTransfer(t: Transfer) {
    && (t.nBytes == 1 || t.nBytes == 2)
    && 1 <= t.fifoLen <= t.depth && t.depth < TWO32 && t.len < TWO32
    && (t.txBuf.Some? ==> |t.txBuf.value| >= Words(t))
  }

  /** Whole words in the transfer. */
  function Words(t: Transfer): nat
    requires t.nBytes > 0
  {
    t.len / t.nBytes
  }

  datatype Pc = Idle | Writing(left: nat) | Reading(left: nat)

  /** Cursors in bytes as in `struct dw_spi`, then the hardware: FIFOs, shift register and error flags. */
  datatype Machine = Machine(
    tx: nat, rx: nat, rxBuf: seq<Word>, pc: Pc,
    txFifo: seq<Word>, shifter: Option<Word>, rxFifo: seq<Word>, shifted: seq<Word>,
    txOverrun: bool, rxOverrun: bool, rxUnderrun: bool)

  const START := Machine(0, 0, [], Idle, [], None, [], [], false, false, false)

  function Min(a: nat, b: nat): nat {
    if a <= b then a else b
  }

  function U32(x: int): nat {
    if 0 <= x < TWO32 then x else x % TWO32
  }

  /** `tx_max`, in 32-bit unsigned arithmetic. */
  function TxMax(t: Transfer, m: Machine): nat
    requires t.nBytes > 0
  {
    var txLeft := U32((t.len - m.tx) / t.nBytes);
    var txRoom := U32(t.fifoLen - |m.txFifo|);
    var rxtxGap := U32(((t.len - m.rx) - (t.len - m.tx)) / t.nBytes);
    Min(Min(txLeft, txRoom), U32(t.fifoLen - rxtxGap))
  }

  /** `rx_max`. */
  function RxMax(t: Transfer, m: Machine): nat
    requires t.nBytes > 0
  {
    Min(U32((t.len - m.rx) / t.nBytes), |m.rxFifo|)
  }

  /** The word the writer loads at index `i`: 0 when the caller gave no buffer. */
  function TxWord(t: Transfer, i: nat): Word {
    if t.txBuf.Some? && i < |t.txBuf.value| then t.txBuf.value[i] else 0
  }

  // ---------------------------------------------------------------------------------------------
  // Steps
  // ---------------------------------------------------------------------------------------------

  datatype Action = StartWriter | WriteWord | StartReader | ReadWord | EndLoop | Load | Shift

  predicate Enabled(m: Machine, a: Action) {
    match a
    case StartWriter => m.pc.Idle?
    case StartReader => m.pc.Idle?
    case WriteWord => m.pc.Writing? && m.pc.left > 0
    case ReadWord => m.pc.Reading? && m.pc.left > 0
    case EndLoop => !m.pc.Idle? && m.pc.left == 0
    case Load => m.shifter.None? && m.txFifo != []
    case Shift => m.shifter.Some?
  }

  /** A word pushed on a full FIFO is lost and sets its overrun flag; a read of an empty one sets underrun. */
  function Next(t: Transfer, m: Machine, a: Action): Machine
    requires t.nBytes > 0 && Enabled(m, a)
  {
    match a
    case StartWriter => m.(pc := Writing(TxMax(t, m)))
    case StartReader => m.(pc := Reading(RxMax(t, m)))
    case EndLoop => m.(pc := Idle)
    case WriteWord =>
      var m1 := if |m.txFifo| < t.depth then m.(txFifo := m.txFifo + [TxWord(t, m.tx / t.nBytes)])
                else m.(txOverrun := true);
      m1.(tx := m.tx + t.nBytes, pc := Writing(m.pc.left - 1))
    case ReadWord =>
      var (word, m1) := if m.rxFifo != [] then (m.rxFifo[0], m.(rxFifo := m.rxFifo[1..]))
                        else (0, m.(rxUnderrun := true));
      m1.(rx := m.rx + t.nBytes, rxBuf := m.rxBuf + [word], pc := Reading(m.pc.left - 1))
    case Load => m.(shifter := Some(m.txFifo[0]), txFifo := m.txFifo[1..])
    case Shift =>
      var m1 := m.(shifted := m.shifted + [m.shifter.value], shifter := None);
      if |m.rxFifo| < t.depth then m1.(rxFifo := m.rxFifo + [t.reply(m1.shifted)])
      else m1.(rxOverrun := true)
  }

  ghost predicate Possible(t: Transfer, m: Machine, trace: seq<Action>)
    requires t.nBytes > 0
    decreases |trace|
  {
    trace == [] || (Enabled(m, trace[0]) && Possible(t, Next(t, m, trace[0]), trace[1..]))
  }

  ghost function Run(t: Transfer, m: Machine, trace: seq<Action>): Machine
    requires t.nBytes > 0 && Possible(t, m, trace)
    decreases |trace|
  {
    if trace == [] then m else Run(t, Next(t, m, trace[0]), trace[1..])
  }

  // ---------------------------------------------------------------------------------------------
  // The invariant
  // ---------------------------------------------------------------------------------------------

  /** The first `k` words of the transfer. */
  function Sent(t: Transfer, k: nat): (s: seq<Word>)
    ensures |s| == k
  {
    seq(k, i requires 0 <= i < k => TxWord(t, i))
  }

  /** The device's answers to words `from` up to `to`. */
  function Replies(t: Transfer, from: nat, to: nat): (s: seq<Word>)
    requires from <= to
    ensures |s| == to - from
  {
    seq(to - from, i requires 0 <= i < to - from => t.reply(Sent(t, from + i + 1)))
  }

  function InShifter(m: Machine): seq<Word> {
    if m.shifter.Some? then [m.shifter.value] else []
  }

  /** Words on their way: in the TX FIFO, the shift register or the RX FIFO. */
  function InFlight(m: Machine): nat {
    |m.txFifo| + |InShifter(m)| + |m.rxFifo|
  }

  ghost predicate Inv(t: Transfer, m: Machine)
    requires t.nBytes > 0
  {
    var sent, received, n := m.tx / t.nBytes, m.rx / t.nBytes, Words(t);
    && m.tx % t.nBytes == 0 && m.rx % t.nBytes == 0
    && received <= sent <= n
    && sent - received == InFlight(m) <= t.fifoLen
    && m.shifted + InShifter(m) + m.txFifo == Sent(t, sent)
    && |m.shifted| == received + |m.rxFifo|
    && m.rxFifo == Replies(t, received, |m.shifted|)
    && m.rxBuf == Replies(t, 0, received)
    && !m.txOverrun && !m.rxOverrun && !m.rxUnderrun
    && (m.pc.Writing? ==> sent + m.pc.left <= n && sent + m.pc.left - received <= t.fifoLen)
    && (m.pc.Reading? ==> m.pc.left <= |m.rxFifo|)
  }

  lemma ByteCursors(len: nat, tx: nat, rx: nat, w: nat)
    requires (w == 1 || w == 2) && tx % w == 0 && rx % w == 0 && rx / w <= tx / w <= len / w
    ensures (len - tx) / w == len / w - tx / w
    ensures (len - rx) / w == len / w - rx / w
    ensures ((len - rx) - (len - tx)) / w == tx / w - rx / w
    ensures 0 <= len / w <= len
  {
    if w == 2 {
      assert tx == 2 * (tx / 2) && rx == 2 * (rx / 2);
    }
  }

  /** With the invariant no subtraction in `tx_max` wraps: it is the least of words left, room and credit. */
  lemma TxMaxNeverWraps(t: Transfer, m: Machine)
    requires ValidTransfer(t) && Inv(t, m)
    ensures var sent, received := m.tx / t.nBytes, m.rx / t.nBytes;
            TxMax(t, m) == Min(Min(Words(t) - sent, t.fifoLen - |m.txFifo|), t.fifoLen - (sent - received))
    ensures RxMax(t, m) == |m.rxFifo|
  {
    var sent, received := m.tx / t.nBytes, m.rx / t.nBytes;
    ByteCursors(t.len, m.tx, m.rx, t.nBytes);
    FitsU32(Words(t) - sent);
    FitsU32(Words(t) - received);
    FitsU32(t.fifoLen - |m.txFifo|);
    FitsU32(sent - received);
    FitsU32(t.fifoLen - (sent - received));
  }

  lemma FitsU32(x: int)
    requires 0 <= x < TWO32
    ensures U32(x) == x
  {
  }

  lemma Advance(x: nat, w: nat)
    requires (w == 1 || w == 2) && x % w == 0
    ensures (x + w) / w == x / w + 1 && (x + w) % w == 0
  {
  }

  lemma LoadKeeps(t: Transfer, m: Machine)
    requires ValidTransfer(t) && Inv(t, m) && Enabled(m, Load)
    ensures Inv(t, Next(t, m, Load))
  {
    var m' := Next(t, m, Load);
    assert [m.txFifo[0]] + m.txFifo[1..] == m.txFifo;
    assert m'.shifted + InShifter(m') + m'.txFifo == m.shifted + InShifter(m) + m.txFifo;
  }

  lemma SentPrefix(t: Transfer, k: nat, n: nat)
    requires k <= n
    ensures Sent(t, n)[..k] == Sent(t, k)
  {
  }

  lemma NextReply(t: Transfer, from: nat, to: nat)
    requires from <= to
    ensures Replies(t, from, to) + [t.reply(Sent(t, to + 1))] == Replies(t, from, to + 1)
  {
  }

  lemma ShiftKeeps(t: Transfer, m: Machine)
    requires ValidTransfer(t) && Inv(t, m) && Enabled(m, Shift)
    ensures Inv(t, Next(t, m, Shift))
  {
    var sent, received, k := m.tx / t.nBytes, m.rx / t.nBytes, |m.shifted|;
    var m' := Next(t, m, Shift);
    assert m'.shifted + InShifter(m') + m'.txFifo == m.shifted + InShifter(m) + m.txFifo;
    SentPrefix(t, k + 1, sent);
    assert m'.shifted == Sent(t, k + 1);
    NextReply(t, received, k);
  }

  lemma WriteKeeps(t: Transfer, m: Machine)
    requires ValidTransfer(t) && Inv(t, m) && Enabled(m, WriteWord)
    ensures Inv(t, Next(t, m, WriteWord))
  {
    var sent := m.tx / t.nBytes;
    Advance(m.tx, t.nBytes);
    var m' := Next(t, m, WriteWord);
    assert m'.shifted + InShifter(m') + m'.txFifo == (m.shifted + InShifter(m) + m.txFifo) + [TxWord(t, sent)];
    assert Sent(t, sent) + [TxWord(t, sent)] == Sent(t, sent + 1);
  }

  lemma ReadKeeps(t: Transfer, m: Machine)
    requires ValidTransfer(t) && Inv(t, m) && Enabled(m, ReadWord)
    ensures Inv(t, Next(t, m, ReadWord))
  {
    var received := m.rx / t.nBytes;
    Advance(m.rx, t.nBytes);
    var m' := Next(t, m, ReadWord);
    assert m'.rxFifo == Replies(t, received, |m.shifted|)[1..];
    assert m'.rxFifo == Replies(t, received + 1, |m.shifted|);
    NextReply(t, 0, received);
  }

  lemma StartKeeps(t: Transfer, m: Machine)
    requires ValidTransfer(t) && Inv(t, m) && m.pc.Idle?
    ensures Inv(t, Next(t, m, StartWriter)) && Inv(t, Next(t, m, StartReader))
  {
    TxMaxNeverWraps(t, m);
  }

  lemma StepKeeps(t: Transfer, m: Machine, a: Action)
    requires ValidTransfer(t) && Inv(t, m) && Enabled(m, a)
    ensures Inv(t, Next(t, m, a))
  {
    match a
    case StartWriter => StartKeeps(t, m);
    case StartReader => StartKeeps(t, m);
    case EndLoop =>
    case WriteWord => WriteKeeps(t, m);
    case ReadWord => ReadKeeps(t, m);
    case Load => LoadKeeps(t, m);
    case Shift => ShiftKeeps(t, m);
  }

  /**
   Over every interleaving: words sent minus words received are exactly the words in flight and at most
   `fifo_len`, so neither FIFO overruns or underruns.
   */
  lemma {:induction false} SafeOverRuns(t: Transfer, m: Machine, trace: seq<Action>)
    requires ValidTransfer(t) && (m == START || Inv(t, m)) && Possible(t, m, trace)
    ensures Inv(t, Run(t, m, trace))
    decreases |trace|
  {
    assert m == START ==> Inv(t, m) by { StartHolds(t); }
    if trace != [] {
      StepKeeps(t, m, trace[0]);
      SafeOverRuns(t, Next(t, m, trace[0]), trace[1..]);
    }
  }

  lemma StartHolds(t: Transfer)
    requires ValidTransfer(t)
    ensures Inv(t, START)
  {
    assert Sent(t, 0) == [] && Replies(t, 0, 0) == [];
  }

  /** What is sent: the caller's words in order, or zeros when there is no buffer. */
  ghost predicate CallersWords(t: Transfer, words: seq<Word>) {
    match t.txBuf
    case Some(buf) => words <= buf
    case None => forall w <- words :: w == 0
  }

  lemma SentWords(t: Transfer, k: nat)
    requires t.txBuf.Some? ==> k <= |t.txBuf.value|
    ensures CallersWords(t, Sent(t, k))
  {
  }

  /** `rx_end == rx`: every word was sent, and the buffer holds the device's answer to each, in order. */
  lemma CompletedRunDelivers(t: Transfer, trace: seq<Action>)
    requires ValidTransfer(t) && Possible(t, START, trace) && Run(t, START, trace).rx == t.len
    ensures var m := Run(t, START, trace);
            && m.tx == t.len && InFlight(m) == 0
            && |m.shifted| == |m.rxBuf| == Words(t) && CallersWords(t, m.shifted)
            && forall i :: 0 <= i < Words(t) ==> m.rxBuf[i] == t.reply(m.shifted[..i + 1])
    ensures t.len % t.nBytes == 0
  {
    SafeOverRuns(t, START, trace);
    var m := Run(t, START, trace);
    assert m.rx / t.nBytes == Words(t);
    assert m.tx / t.nBytes == Words(t);
    assert m.tx == t.len;
    assert InShifter(m) == [] && m.txFifo == [];
    assert m.shifted + InShifter(m) + m.txFifo == m.shifted;
    SentWords(t, Words(t));
    forall i | 0 <= i < Words(t) ensures m.rxBuf[i] == t.reply(m.shifted[..i + 1]) {
      SentPrefix(t, i + 1, Words(t));
    }
  }

  // ---------------------------------------------------------------------------------------------
  // Progress
  // ---------------------------------------------------------------------------------------------

  /** Steps still to come: each word is written, loaded, shifted and read once. */
  function Remaining(t: Transfer, m: Machine): int
    requires t.nBytes > 0
  {
    4 * Words(t) - 2 * (m.tx / t.nBytes) - 2 * (m.rx / t.nBytes) + |m.txFifo| - |m.rxFifo|
  }

  /** Words moving through take the device closer to completion, and only so many such steps exist. */
  lemma MovesMakeProgress(t: Transfer, m: Machine, a: Action)
    requires ValidTransfer(t) && Inv(t, m) && Enabled(m, a)
    ensures Remaining(t, m) >= 0
    ensures a in {WriteWord, Load, Shift, ReadWord} ==> Remaining(t, Next(t, m, a)) < Remaining(t, m)
    ensures a in {StartWriter, StartReader, EndLoop} ==> Remaining(t, Next(t, m, a)) == Remaining(t, m)
  {
    match a
    case WriteWord => Advance(m.tx, t.nBytes);
    case ReadWord => Advance(m.rx, t.nBytes);
    case _ =>
  }

  /** The driver never gets stuck: an unfinished idle transfer always has something to write, shift or read. */
  lemma NeverStuck(t: Transfer, m: Machine)
    requires ValidTransfer(t) && Inv(t, m) && m.pc.Idle? && t.len % t.nBytes == 0 && m.rx < t.len
    ensures TxMax(t, m) > 0 || RxMax(t, m) > 0 || Enabled(m, Load) || Enabled(m, Shift)
  {
    TxMaxNeverWraps(t, m);
    if t.nBytes == 1 {
    } else {
      assert m.rx / 2 < t.len / 2;
    }
  }
}
