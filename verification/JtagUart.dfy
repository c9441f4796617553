/** The interrupt-driven JTAG UART driver, together with the device it drives.

    One processor runs foreground code (`Write`, `Read`, `Close`) and, between any two of its accesses to
    what it shares with the interrupt handler and the alarm callback, and once more before a call
    returns, any number of handler entries and callbacks (`Interrupts`).  Only the two critical
    sections, with interrupts disabled, have none inside.  The device works in parallel with both:
    whenever a register is accessed, any number of bytes may have arrived from the host or been taken
    by it first (`HardwareStep`). */
module JtagUart {
  import opened Common
  import opened Ring

  type Byte = bv8

  const INT_MAX: nat := 0x7fff_ffff

  /** The RE and WE bits, of the device's control register or of the driver's copy of them. */
  datatype Enables = Enables(re: bool, we: bool)

  /** What a call of `Write` or `Read` returns: a byte count, one of two error codes, or, when the
      modelled part of the run ends inside the call's busy-wait loop, the bytes moved so far. */
  datatype Outcome = Transferred(n: nat) | WouldBlock | IoError | Waiting(moved: nat)
  {
    function Moved(): nat {
      match this
      case Transferred(n) => n
      case Waiting(n) => n
      case _ => 0
    }
  }

  /** Two ways of cutting the same bytes differ by what was moved from one side to the other. */
  lemma CutMoved<T>(s: seq<T>, t: seq<T>, s': seq<T>, t': seq<T>)
    requires s + t == s' + t' && |t'| <= |t|
    ensures t' == t[|t| - |t'|..] && s' == s + t[..|t| - |t'|]
  {
    var n := |t| - |t'|;
    assert t' == (s' + t')[|s'|..] && t[n..] == (s + t)[|s| + n..];
    assert s' == (s' + t')[..|s'|] && s + t[..n] == (s + t)[..|s| + n];
  }

  /** Taking n more elements after the first p is taking the first p + n. */
  lemma Splice<T>(s: seq<T>, t: seq<T>, p: nat, n: nat)
    requires p + n <= |t|
    ensures s + t[..p] + t[p..][..n] == s + t[..p + n]
  {
    assert t[..p + n] == t[..p] + t[p..][..n];
  }

  /** The next element of a sequence that has only grown at its end. */
  lemma GrowPrefix<T>(s: seq<T>, t: seq<T>, j: nat)
    requires s <= t && j < |s|
    ensures s[..j] + [t[j]] == s[..j + 1]
  {
  }

  /** A prefix of `t` may be moved over to `s`. */
  lemma SplitAt<T>(s: seq<T>, t: seq<T>, n: nat)
    requires n <= |t|
    ensures s + t == (s + t[..n]) + t[n..]
  {
    assert t == t[..n] + t[n..];
  }

  /** A copy of `t` into `b` at `at` grows by its next element. */
  lemma CopyOne<T>(b: seq<T>, at: nat, t: seq<T>, j: nat)
    requires at + j < |b| && j < |t| && b[at..at + j] == t[..j]
    ensures b[at + j := t[j]][at..at + j + 1] == t[..j + 1]
  {
    assert b[at + j := t[j]][at..at + j + 1] == b[at..at + j] + [t[j]];
    assert t[..j + 1] == t[..j] + [t[j]];
  }

  /** The inactivity count after a second with or without activity of the host. */
  function NextInactive(count: nat, activity: bool): nat {
    if activity then 0 else if count < INT_MAX - 2 then count + 1 else count
  }

  /** The count after these seconds. */
  function InactiveAfter(seconds: seq<bool>): (count: nat)
    ensures count <= INT_MAX - 2
  {
    var n := |seconds| - 1;
    if n < 0 then 0 else NextInactive(InactiveAfter(seconds[..n]), seconds[n])
  }

  /** The count has reached a limit exactly if the last seconds, as many as the limit says, were all without
      activity; one above INT_MAX - 2 is never reached. */
  lemma {:induction false} InactiveIff(seconds: seq<bool>, limit: nat)
    requires limit > 0
    ensures InactiveAfter(seconds) >= limit <==>
              limit <= INT_MAX - 2 && limit <= |seconds| &&
              forall k :: |seconds| - limit <= k < |seconds| ==> !seconds[k]
  {
    var n := |seconds| - 1;
    if n >= 0 && limit > 1 {
      InactiveIff(seconds[..n], limit - 1);
    }
  }

  /** What there is to see for foreground code that looks at the driver's fields: how many bytes are in the
      transmit and in the receive buffer, and the inactivity count. */
  datatype Look = Look(toSend: nat, toRead: nat, inactive: nat)

  /** From position `first` on, is there a look that finds the inactivity count at `limit` or more? */
  ghost predicate IdleSince(looks: seq<Look>, first: int, limit: nat) {
    exists k :: 0 <= k < |looks| && first <= k && looks[k].inactive >= limit
  }

  /** Is there one that finds it below? */
  ghost predicate SeenSince(looks: seq<Look>, first: int, limit: nat) {
    exists k :: 0 <= k < |looks| && first <= k && looks[k].inactive < limit
  }

  lemma SinceLater(looks: seq<Look>, later: seq<Look>, first: int, limit: nat)
    requires looks <= later
    ensures IdleSince(looks, first, limit) ==> IdleSince(later, first, limit)
    ensures SeenSince(looks, first, limit) ==> SeenSince(later, first, limit)
  {
  }

  lemma SinceEarlier(looks: seq<Look>, first: int, later: int, limit: nat)
    requires first <= later
    ensures IdleSince(looks, later, limit) ==> IdleSince(looks, first, limit)
    ensures SeenSince(looks, later, limit) ==> SeenSince(looks, first, limit)
  {
  }

  lemma SeenBelow(looks: seq<Look>, first: int, low: nat, high: nat)
    requires SeenSince(looks, first, low) && low <= high
    ensures SeenSince(looks, first, high)
  {
  }

  /** How many looks from position `first` on find it at `limit` or more? */
  ghost function Idles(looks: seq<Look>, first: nat, limit: nat): nat {
    var n := |looks| - 1;
    if n < first then 0 else Idles(looks[..n], first, limit) + if looks[n].inactive >= limit then 1 else 0
  }

  lemma {:induction false} IdlesLater(looks: seq<Look>, later: seq<Look>, first: nat, limit: nat)
    requires looks <= later && first <= |looks|
    ensures Idles(later, first, limit) == Idles(looks, first, limit) + Idles(later, |looks|, limit)
  {
    if looks < later {
      IdlesLater(looks, later[..|later| - 1], first, limit);
    } else {
      assert looks == later;
    }
  }

  lemma {:induction false} IdlesPositive(looks: seq<Look>, first: nat, limit: nat)
    requires IdleSince(looks, first, limit)
    ensures Idles(looks, first, limit) > 0
  {
    var n := |looks| - 1;
    if looks[n].inactive < limit {
      var k :| 0 <= k < |looks| && first <= k && looks[k].inactive >= limit;
      assert looks[..n][k].inactive >= limit;
      IdlesPositive(looks[..n], first, limit);
    }
  }

  /** What a call waits for: space in the transmit buffer, input in the receive buffer, or an empty transmit
      buffer. */
  datatype Goal = Space | Input | Empty

  predicate Reached(goal: Goal, look: Look) {
    match goal
    case Space => look.toSend < BUF_LEN - 1
    case Input => look.toRead > 0
    case Empty => look.toSend == 0
  }

  /** From position `first` on, n turns of a busy-wait were in vain, of two looks each: the first did not find
      the goal reached, the second did not find the host inactive. */
  ghost predicate InVain(goal: Goal, looks: seq<Look>, first: nat, n: nat, timeout: nat) {
    n > 0 ==>
      && first + 2 * n <= |looks| && InVain(goal, looks, first, n - 1, timeout)
      && !Reached(goal, looks[first + 2 * n - 2]) && looks[first + 2 * n - 1].inactive < timeout
  }

  lemma {:induction false} InVainLater(goal: Goal, looks: seq<Look>, later: seq<Look>, first: nat, n: nat, timeout: nat)
    requires InVain(goal, looks, first, n, timeout) && looks <= later
    ensures InVain(goal, later, first, n, timeout)
    ensures n > 0 ==> SeenSince(later, first, timeout)
  {
    if n > 0 {
      InVainLater(goal, looks, later, first, n - 1, timeout);
      assert later[first + 2 * n - 1].inactive < timeout;
    }
  }

  lemma VainSeen(goal: Goal, looks: seq<Look>, first: nat, n: nat, timeout: nat)
    requires n > 0
    ensures InVain(goal, looks, first, n, timeout) ==> SeenSince(looks, first, timeout)
  {
    if InVain(goal, looks, first, n, timeout) {
      InVainLater(goal, looks, looks, first, n, timeout);
    }
  }

  /** Somewhere from position `from` on. */
  ghost predicate InVainSince(goal: Goal, looks: seq<Look>, from: nat, n: nat, timeout: nat) {
    exists first: nat :: from <= first && InVain(goal, looks, first, n, timeout)
  }

  lemma VainSinceLater(goal: Goal, looks: seq<Look>, later: seq<Look>, from: nat, n: nat, timeout: nat)
    requires InVainSince(goal, looks, from, n, timeout) && looks <= later
    ensures InVainSince(goal, later, from, n, timeout)
  {
    var first: nat :| from <= first && InVain(goal, looks, first, n, timeout);
    InVainLater(goal, looks, later, first, n, timeout);
  }

  lemma VainSinceEarlier(goal: Goal, looks: seq<Look>, from: nat, later: nat, n: nat, timeout: nat)
    requires InVainSince(goal, looks, later, n, timeout) && from <= later
    ensures InVainSince(goal, looks, from, n, timeout)
  {
    var first: nat :| later <= first && InVain(goal, looks, first, n, timeout);
  }

  /** Of some rounds of busy-waiting that have used up `used` turns, none had more than `stall` turns in vain
      and one that was not. */
  ghost predicate Spent(looks: seq<Look>, from: nat, stall: nat, timeout: nat, used: nat, rounds: nat) {
    InVainSince(Space, looks, from, stall, timeout) && used <= (stall + 1) * rounds
  }

  lemma StallSum(used: nat, more: nat, s: nat, t: nat, rounds: nat)
    requires used <= (s + 1) * rounds && more <= t + 1
    ensures used + more <= ((if s > t then s else t) + 1) * (rounds + 1)
  {
    var most := if s > t then s else t;
    assert (most + 1) * (rounds + 1) == (most + 1) * rounds + (most + 1);
    assert (most + 1) * rounds == (s + 1) * rounds + (most - s) * rounds;
  }

  lemma SpentNext(looks: seq<Look>, later: seq<Look>, from: nat, stall: nat, timeout: nat, used: nat, rounds: nat,
                  more: nat, t: nat)
    requires Spent(looks, from, stall, timeout, used, rounds) && looks <= later
    requires from <= |looks| && InVainSince(Space, later, |looks|, t, timeout) && more <= t + 1
    ensures Spent(later, from, if stall > t then stall else t, timeout, used + more, rounds + 1)
  {
    StallSum(used, more, stall, t, rounds);
    if stall > t {
      VainSinceLater(Space, looks, later, from, stall, timeout);
    } else {
      VainSinceEarlier(Space, later, from, |looks|, t, timeout);
    }
  }

  lemma SpentLater(looks: seq<Look>, later: seq<Look>, from: nat, stall: nat, timeout: nat, used: nat, rounds: nat,
                   more: nat)
    requires Spent(looks, from, stall, timeout, used, rounds) && looks <= later && rounds <= more
    ensures Spent(later, from, stall, timeout, used, more)
  {
    VainSinceLater(Space, looks, later, from, stall, timeout);
    assert (stall + 1) * more == (stall + 1) * rounds + (stall + 1) * (more - rounds);
  }

  /** How often can a call of `Write` that began at position `from` have waited, if it has accepted `beyond`
      bytes more than there was room for at first?  Every wait that is over has seen a byte leave, or has
      found the host inactive for the timeout; and there is a second wait only if the host has been found
      active. */
  ghost function Waits(looks: seq<Look>, from: nat, beyond: nat, timeout: nat): nat {
    if SeenSince(looks, from, 1) then beyond + 1 + Idles(looks, from, timeout) else 1
  }

  lemma WaitsLater(looks: seq<Look>, later: seq<Look>, from: nat, beyond: nat, timeout: nat)
    requires looks <= later && from <= |looks|
    ensures Waits(looks, from, beyond, timeout) <= Waits(later, from, beyond, timeout)
  {
    SinceLater(looks, later, from, 1);
    IdlesLater(looks, later, from, timeout);
  }

  /** All of `polls` turns have been spent on these waits. */
  ghost predicate SpentAll(looks: seq<Look>, from: nat, timeout: nat, polls: nat, beyond: nat) {
    exists stall: nat :: Spent(looks, from, stall, timeout, polls, Waits(looks, from, beyond, timeout))
  }

  lemma SpentAllLater(looks: seq<Look>, later: seq<Look>, from: nat, timeout: nat, polls: nat, beyond: nat)
    requires SpentAll(looks, from, timeout, polls, beyond) && looks <= later && from <= |looks|
    ensures SpentAll(later, from, timeout, polls, beyond)
  {
    var rounds := Waits(looks, from, beyond, timeout);
    var stall: nat :| Spent(looks, from, stall, timeout, polls, rounds);
    WaitsLater(looks, later, from, beyond, timeout);
    SpentLater(looks, later, from, stall, timeout, polls, rounds, Waits(later, from, beyond, timeout));
  }

  class Uart {
    // Driver state.
    const rxBuf: array<Byte>
    const txBuf: array<Byte>
    var rxIn: nat
    var rxOut: nat
    var txIn: nat
    var txOut: nat
    var irqEnable: Enables
    var hostInactive: nat
    var timeout: nat

    // Device state: the enables last written to the control register, the two hardware FIFOs and
    // the activity bit.  `incoming` is what the host will still send, `hostGot` what it has taken.
    const depth: nat
    var control: Enables
    var activity: bool
    var rxFifo: seq<Byte>
    var txFifo: seq<Byte>
    var incoming: seq<Byte>
    ghost var hostGot: seq<Byte>
    ghost var reported: bool       // did the last read of the control register report an interrupt?

    // History: everything the host ever sends, the bytes popped from the receive FIFO, the bytes
    // returned by reads, the bytes accepted by writes, and what there was to see each time that
    // foreground code went on after interrupts.
    ghost const stream: seq<Byte>
    ghost var popped: seq<Byte>
    ghost var delivered: seq<Byte>
    ghost var accepted: seq<Byte>
    ghost var looks: seq<Look>

    /** The bytes waiting in the transmit buffer, oldest first. */
    ghost function TxRing(): seq<Byte>
      requires txBuf.Length == BUF_LEN && txOut < BUF_LEN && txIn < BUF_LEN
      reads this`txIn, this`txOut, txBuf
    {
      Window(txBuf[..], txOut, txIn)
    }

    /** The bytes waiting in the receive buffer, oldest first. */
    ghost function RxRing(): seq<Byte>
      requires rxBuf.Length == BUF_LEN && rxOut < BUF_LEN && rxIn < BUF_LEN
      reads this`rxIn, this`rxOut, rxBuf
    {
      Window(rxBuf[..], rxOut, rxIn)
    }

    ghost predicate Shape()
      reads this
    {
      && rxBuf.Length == BUF_LEN && txBuf.Length == BUF_LEN && rxBuf != txBuf
      && rxIn < BUF_LEN && rxOut < BUF_LEN && txIn < BUF_LEN && txOut < BUF_LEN
      && irqEnable == control
      && |txFifo| <= depth
      && 0 < timeout
    }

    /** Everything accepted by writes has been taken by the host, or is in the hardware FIFO, or is in
        the transmit buffer: in this order, nothing lost, duplicated or reordered. */
    ghost predicate TxInOrder()
      requires Shape()
      reads this, txBuf
    {
      hostGot + txFifo + TxRing() == accepted
    }

    /** Everything popped from the hardware FIFO has been returned by reads or is in the receive
        buffer, and the host's stream is what was popped, then the FIFO, then what is still to come. */
    ghost predicate RxInOrder()
      requires Shape()
      reads this, rxBuf
    {
      popped == delivered + RxRing() && popped + (rxFifo + incoming) == stream
    }

    ghost predicate Valid()
      reads this, rxBuf, txBuf
    {
      Shape() && TxInOrder() && RxInOrder()
    }

    /** Transmit interrupts are off only when there is nothing to send. */
    ghost predicate TxAwake()
      requires Shape()
      reads this, txBuf
    {
      !control.we ==> TxRing() == []
    }

    /** Receive interrupts are off only when there is no room to store a byte. */
    ghost predicate RxAwake()
      requires Shape()
      reads this, rxBuf
    {
      !control.re ==> |RxRing()| == BUF_LEN - 1
    }

    /** What holds between calls: the FIFO discipline, and no lost wakeup in either direction. */
    ghost predicate Quiescent()
      reads this, rxBuf, txBuf
    {
      Valid() && TxAwake() && RxAwake()
    }

    /** What handlers and hardware can have done since the old state.  They never touch the indices
        foreground code owns nor the transmit buffer; they only move bytes forward; and they never
        leave an enable off that is needed, unless foreground code had left it so. */
    twostate predicate Interrupted()
      requires old(Shape()) && Shape()
      reads this, rxBuf, txBuf
    {
      && txIn == old(txIn) && rxOut == old(rxOut) && txBuf[..] == old(txBuf[..])
      && accepted == old(accepted) && delivered == old(delivered) && timeout == old(timeout)
      && |old(popped)| <= |popped| && |TxRing()| <= |old(TxRing())|
      && (control.we ==> old(control.we)) && (control.re ==> old(control.re))
      && (old(TxAwake()) ==> TxAwake()) && (old(RxAwake()) ==> RxAwake())
    }

    /** A look since the old state has found the inactivity count at `limit` or more. */
    twostate predicate HostIdle(limit: nat)
      reads this`looks
    {
      IdleSince(looks, |old(looks)|, limit)
    }

    /** One has found it below. */
    twostate predicate HostSeen(limit: nat)
      reads this`looks
    {
      SeenSince(looks, |old(looks)|, limit)
    }

    /** What a transmitting call leaves alone: the receive side only gains bytes, and stays awake. */
    twostate predicate RxUndisturbed()
      requires old(Shape()) && Shape()
      reads this, rxBuf
    {
      && rxOut == old(rxOut) && delivered == old(delivered) && |old(popped)| <= |popped|
      && timeout == old(timeout) && old(looks) <= looks
      && (old(RxAwake()) ==> RxAwake())
    }

    /** What a receiving call leaves alone: the transmit side only loses bytes, and stays awake. */
    twostate predicate TxUndisturbed()
      requires old(Shape()) && Shape()
      reads this, txBuf
    {
      && txIn == old(txIn) && accepted == old(accepted) && |TxRing()| <= |old(TxRing())|
      && timeout == old(timeout) && old(looks) <= looks
      && (old(TxAwake()) ==> TxAwake())
    }

    /** The driver's initialisation: receive interrupts on, buffers empty. */
    constructor (hostStream: seq<Byte>, fifoDepth: nat, limit: nat)
      requires 0 < limit
      ensures Quiescent() && fresh(rxBuf) && fresh(txBuf)
      ensures stream == hostStream && incoming == hostStream
      ensures accepted == delivered == hostGot == [] && looks == []
      ensures control == Enables(true, false) && timeout == limit && depth == fifoDepth
    {
      rxBuf := new Byte[BUF_LEN];
      txBuf := new Byte[BUF_LEN];
      rxIn, rxOut, txIn, txOut := 0, 0, 0, 0;
      irqEnable, control := Enables(true, false), Enables(true, false);
      hostInactive, timeout, activity, depth := 0, limit, false, fifoDepth;
      rxFifo, txFifo, incoming, hostGot := [], [], hostStream, [];
      stream, popped, delivered, accepted, looks := hostStream, [], [], [], [];
    }

    // ---- The device ----

    /** Bytes may arrive from the host or be taken by it, at any time. */
    method HardwareStep()
      modifies this`rxFifo, this`incoming, this`txFifo, this`hostGot, this`activity
      ensures rxFifo + incoming == old(rxFifo + incoming)
      ensures |rxFifo| >= |old(rxFifo)|
      ensures |rxFifo| > 0 && |old(rxFifo)| > 0 ==> rxFifo[0] == old(rxFifo)[0]
      ensures hostGot + txFifo == old(hostGot + txFifo)
      ensures |txFifo| <= |old(txFifo)|
    {
      var arrive :| 0 <= arrive <= |incoming|;
      rxFifo, incoming := rxFifo + incoming[..arrive], incoming[arrive..];
      var take :| 0 <= take <= |txFifo|;
      hostGot, txFifo := hostGot + txFifo[..take], txFifo[take..];
      activity := *;
    }

    /** Reads the control register.  A read interrupt is reported only while RE is set and the receive
        FIFO holds data, a write interrupt only while WE is set and there is space; the device may
        hold back either until a threshold of its own is met. */
    method ReadControl() returns (ri: bool, wi: bool, space: nat)
      requires |txFifo| <= depth
      modifies this`rxFifo, this`incoming, this`txFifo, this`hostGot, this`activity,
               this`reported
      ensures rxFifo + incoming == old(rxFifo + incoming)
      ensures hostGot + txFifo == old(hostGot + txFifo) && |txFifo| <= |old(txFifo)|
      ensures ri ==> control.re && rxFifo != []
      ensures wi ==> control.we && space > 0
      ensures space == depth - |txFifo| && reported == (ri || wi)
    {
      HardwareStep();
      space := depth - |txFifo|;
      var readThreshold: bool := *;
      var writeThreshold: bool := *;
      ri := control.re && rxFifo != [] && readThreshold;
      wi := control.we && space > 0 && writeThreshold;
      reported := ri || wi;
    }

    /** Reads the data register: pops a byte if there is one.  RAVAIL counts the bytes left after it. */
    method ReadData() returns (valid: bool, avail: nat, c: Byte)
      modifies this`rxFifo, this`incoming, this`txFifo, this`hostGot, this`activity, this`popped
      ensures valid ==> popped == old(popped) + [c]
      ensures !valid ==> popped == old(popped)
      ensures avail == |rxFifo| && (!valid ==> rxFifo == [])
      ensures old(rxFifo) != [] ==> valid
      ensures popped + (rxFifo + incoming) == old(popped + (rxFifo + incoming))
      ensures hostGot + txFifo == old(hostGot + txFifo) && |txFifo| <= |old(txFifo)|
    {
      HardwareStep();
      ghost var all := popped + (rxFifo + incoming);
      if rxFifo == [] {
        valid, avail, c := false, 0, 0;
      } else {
        valid, c, rxFifo := true, rxFifo[0], rxFifo[1..];
        avail := |rxFifo|;
        popped := popped + [c];
        assert popped + (rxFifo + incoming) == all;
      }
    }

    /** Writes the data register.  The byte would be lost if the FIFO were full. */
    method WriteData(c: Byte)
      requires |txFifo| < depth
      modifies this`rxFifo, this`incoming, this`txFifo, this`hostGot, this`activity
      ensures rxFifo + incoming == old(rxFifo + incoming)
      ensures hostGot + txFifo == old(hostGot + txFifo) + [c]
      ensures |txFifo| <= |old(txFifo)| + 1
    {
      HardwareStep();
      ghost var before := hostGot + txFifo;
      txFifo := txFifo + [c];
      assert hostGot + txFifo == before + [c];
    }

    /** Writes the control register with the driver's copy of the enables. */
    method WriteControl()
      requires |txFifo| <= depth
      modifies this`rxFifo, this`incoming, this`txFifo, this`hostGot, this`activity, this`control
      ensures rxFifo + incoming == old(rxFifo + incoming)
      ensures hostGot + txFifo == old(hostGot + txFifo) && |txFifo| <= |old(txFifo)|
      ensures control == irqEnable
    {
      HardwareStep();
      control := irqEnable;
    }

    // ---- The interrupt handler ----

    /** Stores one received byte at the input index. */
    method PushRx(c: Byte)
      requires Shape() && (rxIn + 1) % BUF_LEN != rxOut
      modifies this`rxIn, rxBuf
      ensures Shape() && RxRing() == old(RxRing()) + [c]
    {
      WindowPush(rxBuf[..], rxOut, rxIn, c);
      ghost var b := rxBuf[..];
      rxBuf[rxIn] := c;
      assert rxBuf[..] == b[rxIn := c];
      rxIn := (rxIn + 1) % BUF_LEN;
    }

    /** One turn of the handler's receive loop, with room in the buffer. */
    method ReceiveByte() returns (valid: bool, avail: nat)
      requires Valid() && (rxIn + 1) % BUF_LEN != rxOut
      modifies this`rxFifo, this`incoming, this`txFifo, this`hostGot, this`activity, this`popped,
               this`rxIn, rxBuf
      ensures Valid() && TxRing() == old(TxRing()) && |txFifo| <= |old(txFifo)|
      ensures if valid then |popped| == |old(popped)| + 1 else avail == 0 && popped == old(popped)
      ensures avail == |rxFifo|
      ensures valid ==> |rxFifo| + |incoming| < |old(rxFifo)| + |old(incoming)|
      ensures old(rxFifo) != [] ==> valid
    {
      var c;
      valid, avail, c := ReadData();
      assert TxRing() == old(TxRing());
      if valid {
        ghost var held := RxRing();
        PushRx(c);
        assert delivered + (held + [c]) == (delivered + held) + [c];
      }
    }

    /** One turn of the handler's receive loop.  It stops the loop if there is no room, without touching
        the FIFO, or if the FIFO has run out. */
    method ReceiveTurn(avail0: nat) returns (stop: bool, avail: nat)
      requires Valid()
      modifies this`rxFifo, this`incoming, this`txFifo, this`hostGot, this`activity, this`popped,
               this`rxIn, rxBuf
      ensures Valid() && TxRing() == old(TxRing()) && |txFifo| <= |old(txFifo)|
      ensures stop ==> popped == old(popped)
      ensures stop ==> (avail == avail0 && |RxRing()| == BUF_LEN - 1 && rxFifo == old(rxFifo))
                       || (avail == 0 && rxFifo == [] && old(rxFifo) == [])
      ensures !stop ==> avail == |rxFifo| && |popped| == |old(popped)| + 1
      ensures !stop ==> |rxFifo| + |incoming| < |old(rxFifo)| + |old(incoming)|
    {
      if (rxIn + 1) % BUF_LEN == rxOut {
        WindowAt(rxBuf[..], rxOut, rxIn);
        return true, avail0;
      }
      var valid;
      valid, avail := ReceiveByte();
      return !valid, avail;
    }

    /** The handler's receive loop: moves bytes from the hardware FIFO into the buffer until one of
        them runs out.  A byte is popped only when there is a slot for it.  `avail` ends positive only
        if the loop stopped because the buffer was full. */
    method ReceiveBytes() returns (avail: nat)
      requires Valid() && rxFifo != []
      modifies this`rxFifo, this`incoming, this`txFifo, this`hostGot, this`activity, this`popped,
               this`rxIn, rxBuf
      ensures Valid() && TxRing() == old(TxRing()) && |txFifo| <= |old(txFifo)|
      ensures |popped| >= |old(popped)|
      ensures avail > 0 ==> |RxRing()| == BUF_LEN - 1
      ensures avail == 0 ==> |popped| > |old(popped)| && rxFifo == []
    {
      avail := 1;
      var stop := false;
      while !stop
        invariant Valid() && |txFifo| <= |old(txFifo)| && |popped| >= |old(popped)|
        invariant avail == 0 ==> |popped| > |old(popped)| && rxFifo == []
        invariant |popped| == |old(popped)| ==> rxFifo != []
        invariant stop && avail > 0 ==> |RxRing()| == BUF_LEN - 1
        decreases !stop, |rxFifo| + |incoming|
      {
        stop, avail := ReceiveTurn(avail);
      }
    }

    /** The handler's receive half: turns receive interrupts off if the loop stopped because the
        buffer was full, and otherwise leaves the hardware FIFO empty, having moved a byte. */
    method DrainRx()
      requires Valid() && control.re && rxFifo != []
      modifies this`rxFifo, this`incoming, this`txFifo, this`hostGot, this`activity, this`popped,
               this`rxIn, this`irqEnable, this`control, rxBuf
      ensures Valid() && Interrupted() && |txFifo| <= |old(txFifo)|
      ensures control == old(control).(re := control.re)
      ensures control.re ==> |popped| > |old(popped)| && rxFifo == []
    {
      var avail := ReceiveBytes();
      if avail > 0 {
        irqEnable := irqEnable.(re := false);
        WriteControl();
      }
    }

    /** Takes the oldest byte out of the transmit buffer and writes it to the data register. */
    method SendByte()
      requires Valid() && txOut != txIn && |txFifo| < depth
      modifies this`rxFifo, this`incoming, this`txFifo, this`hostGot, this`activity, this`txOut
      ensures Valid() && RxRing() == old(RxRing()) && |txFifo| <= |old(txFifo)| + 1
      ensures TxRing() == old(TxRing())[1..] && hostGot + txFifo == old(hostGot + txFifo + TxRing()[..1])
    {
      ghost var ring := TxRing();
      WindowDrop(txBuf[..], txOut, txIn, 1);
      SplitAt(hostGot + txFifo, ring, 1);
      var c := txBuf[txOut];
      assert ring[..1] == [c];
      WriteData(c);
      assert hostGot + txFifo == old(hostGot + txFifo) + ring[..1];
      txOut := (txOut + 1) % BUF_LEN;
      assert TxRing() == ring[1..] && RxRing() == old(RxRing());
    }

    /** Sends bytes until the given space is used up or the buffer is empty. */
    method SendBytes(space: nat) returns (left: nat)
      requires Valid() && |txFifo| + space <= depth
      modifies this`rxFifo, this`incoming, this`txFifo, this`hostGot, this`activity, this`txOut
      ensures Valid() && RxRing() == old(RxRing()) && |txFifo| <= depth
      ensures |TxRing()| == |old(TxRing())| - (space - left)
      ensures left <= space && (left == 0 || TxRing() == [])
    {
      left := space;
      ghost var waiting := |TxRing()|;
      while left > 0 && txOut != txIn
        invariant Valid() && left <= space && |txFifo| + left <= depth
        invariant |TxRing()| == waiting - (space - left)
        decreases left
      {
        SendByte();
        left := left - 1;
      }
      StillEmpty(txBuf[..], txOut, txIn);
    }

    /** The handler's transmit half, given the space the control register showed: it sends the oldest
        bytes, as many as fit, and turns transmit interrupts off only after running out of them. */
    method FeedTx(space: nat)
      requires Valid() && control.we && 0 < space && |txFifo| + space <= depth
      modifies this`rxFifo, this`incoming, this`txFifo, this`hostGot, this`activity, this`txOut,
               this`irqEnable, this`control
      ensures Valid() && Interrupted()
      ensures var n := Min(space, |old(TxRing())|);
              && TxRing() == old(TxRing())[n..]
              && hostGot + txFifo == old(hostGot + txFifo) + old(TxRing())[..n]
      ensures control == old(control).(we := space <= |old(TxRing())|)
    {
      var left := SendBytes(space);
      if left > 0 {
        irqEnable := irqEnable.(we := false);
        WriteControl();
      }
      CutMoved(old(hostGot + txFifo), old(TxRing()), hostGot + txFifo, TxRing());
    }

    /** What the handler has left to do: bytes to receive, bytes to send, and enables to clear. */
    ghost function Work(): nat
      requires Shape()
      reads this, txBuf
    {
      |rxFifo| + |incoming| + |TxRing()| + (if control.re then 1 else 0) + (if control.we then 1 else 0)
    }

    /** One pass of the handler.  It ends the loop only when the device reports nothing to do; otherwise
        it takes a byte from what the host has left, or sends one, or clears an enable bit. */
    method Pass() returns (more: bool)
      requires Valid()
      modifies this`rxFifo, this`incoming, this`txFifo, this`hostGot, this`activity, this`popped,
               this`rxIn, this`txOut, this`irqEnable, this`control, this`reported, rxBuf
      ensures Valid() && Interrupted()
      ensures if more then Work() < old(Work()) else !reported
    {
      var ri, wi, space := ReadControl();
      if !ri && !wi {
        return false;
      }
      if ri {
        DrainRx();
      }
      if wi {
        FeedTx(space);
      }
      return true;
    }

    /** The interrupt handler.  It terminates although the host may go on sending meanwhile, and ends
        only when the device reports nothing more to do. */
    method Isr()
      requires Valid()
      modifies this`rxFifo, this`incoming, this`txFifo, this`hostGot, this`activity, this`popped,
               this`rxIn, this`txOut, this`irqEnable, this`control, this`reported, rxBuf
      ensures Valid() && Interrupted() && !reported
    {
      var more := true;
      while more
        invariant Valid() && Interrupted() && (more || !reported)
        decreases more, Work()
      {
        more := Pass();
      }
    }

    /** The alarm callback that watches for the host, once a second. */
    method Timeout()
      requires Valid()
      modifies this`activity, this`hostInactive
      ensures Valid()
      ensures !activity && hostInactive == NextInactive(old(hostInactive), old(activity))
    {
      if activity {
        activity, hostInactive := false, 0;
      } else if hostInactive < INT_MAX - 2 {
        hostInactive := hostInactive + 1;
      }
    }

    /** Any number of handler entries and alarm callbacks. */
    method AnyInterrupts()
      requires Valid()
      modifies this`rxFifo, this`incoming, this`txFifo, this`hostGot, this`activity, this`popped,
               this`rxIn, this`txOut, this`irqEnable, this`control, this`hostInactive,
               this`reported, rxBuf
      ensures Valid() && Interrupted()
      ensures old(RxRing()) <= RxRing()
    {
      var n :| 0 <= n;
      for i := 0 to n
        invariant Valid() && Interrupted()
      {
        var alarm: bool := *;
        if alarm {
          Timeout();
        } else {
          Isr();
        }
      }
      assert old(popped) == stream[..|old(popped)|] && popped == stream[..|popped|];
      assert old(RxRing()) == old(popped)[|delivered|..] && RxRing() == popped[|delivered|..];
    }

    /** Whatever can happen between two steps of foreground code; what there is to see then is noted. */
    method Interrupts()
      requires Valid()
      modifies this`rxFifo, this`incoming, this`txFifo, this`hostGot, this`activity, this`popped,
               this`rxIn, this`txOut, this`irqEnable, this`control, this`hostInactive,
               this`looks, this`reported, rxBuf
      ensures Valid() && Interrupted()
      ensures old(RxRing()) <= RxRing()
      ensures looks == old(looks) + [Look(|TxRing()|, |RxRing()|, hostInactive)]
      ensures looks[|looks| - 1] == Look(|TxRing()|, |RxRing()|, hostInactive)
    {
      AnyInterrupts();
      looks := looks + [Look(|TxRing()|, |RxRing()|, hostInactive)];
    }

    // ---- Foreground code ----

    /** Turns transmit interrupts on; interrupts are disabled meanwhile, so this is one step. */
    method EnableTx()
      requires Valid()
      modifies this`rxFifo, this`incoming, this`txFifo, this`hostGot, this`activity, this`irqEnable,
               this`control
      ensures Valid() && control == old(control).(we := true)
    {
      irqEnable := irqEnable.(we := true);
      WriteControl();
    }

    /** Turns receive interrupts on, in one step. */
    method EnableRx()
      requires Valid()
      modifies this`rxFifo, this`incoming, this`txFifo, this`hostGot, this`activity, this`irqEnable,
               this`control
      ensures Valid() && control == old(control).(re := true)
    {
      irqEnable := irqEnable.(re := true);
      WriteControl();
    }

    /** Stores a byte j slots behind the published ones: the handler cannot see it. */
    method StoreByte(j: nat, c: Byte)
      requires Valid() && txIn + j < BUF_LEN && |TxRing()| + j < BUF_LEN
      modifies txBuf
      ensures Valid() && TxRing() == old(TxRing()) && RxRing() == old(RxRing())
      ensures txBuf[..] == old(txBuf[..])[txIn + j := c]
    {
      WindowAt(txBuf[..], txOut, txIn);
      WindowFrame(txBuf[..], txOut, txIn, j, c);
      txBuf[txIn + j] := c;
      assert txBuf[..] == old(txBuf[..])[txIn + j := c];
    }

    /** The copy of the next byte of a chunk, after whatever interrupts there are. */
    method PutByte(chunk: seq<Byte>, j: nat)
      requires Valid() && txIn + |chunk| <= BUF_LEN && |TxRing()| + |chunk| < BUF_LEN
      requires j < |chunk| && txBuf[..][txIn..txIn + j] == chunk[..j]
      modifies this`rxFifo, this`incoming, this`txFifo, this`hostGot, this`activity, this`popped,
               this`rxIn, this`txOut, this`irqEnable, this`control, this`hostInactive,
               this`looks, this`reported, rxBuf, txBuf
      ensures Valid() && RxUndisturbed() && txIn == old(txIn) && accepted == old(accepted)
      ensures |TxRing()| <= |old(TxRing())|
      ensures txBuf[..][txIn..txIn + j + 1] == chunk[..j + 1]
    {
      Interrupts();
      CopyOne(txBuf[..], txIn, chunk, j);
      StoreByte(j, chunk[j]);
    }

    /** The copy into the transmit buffer, byte by byte, with interrupts in between.  The slots are
        free for as long as they are not published, however far the handler advances: the buffer's
        contents stay whatever they would have been. */
    method CopyIn(chunk: seq<Byte>)
      requires Valid() && txIn + |chunk| <= BUF_LEN && |TxRing()| + |chunk| < BUF_LEN
      modifies this`rxFifo, this`incoming, this`txFifo, this`hostGot, this`activity, this`popped,
               this`rxIn, this`txOut, this`irqEnable, this`control, this`hostInactive,
               this`looks, this`reported, rxBuf, txBuf
      ensures Valid() && RxUndisturbed() && txIn == old(txIn) && accepted == old(accepted)
      ensures |TxRing()| <= |old(TxRing())|
      ensures txBuf[..][txIn..txIn + |chunk|] == chunk
    {
      ghost var at := txIn;
      for j := 0 to |chunk|
        invariant Valid() && RxUndisturbed() && txIn == at && accepted == old(accepted)
        invariant |TxRing()| <= |old(TxRing())|
        invariant txBuf[..][at..at + j] == chunk[..j]
      {
        PutByte(chunk, j);
      }
      assert chunk[..|chunk|] == chunk;
    }

    /** Makes n copied bytes visible to the handler. */
    method Publish(n: nat)
      requires Valid() && txIn + n <= BUF_LEN && |TxRing()| + n < BUF_LEN
      modifies this`txIn, this`accepted
      ensures Valid() && RxRing() == old(RxRing())
      ensures TxRing() == old(TxRing()) + old(txBuf[..][txIn..txIn + n])
      ensures accepted == old(accepted) + old(txBuf[..][txIn..txIn + n])
    {
      WindowAt(txBuf[..], txOut, txIn);
      WindowExtend(txBuf[..], txOut, txIn, n);
      ghost var chunk := txBuf[..][txIn..txIn + n];
      Associative(hostGot + txFifo, TxRing(), chunk);
      txIn := (txIn + n) % BUF_LEN;
      accepted := accepted + chunk;
    }

    /** Copies and publishes a chunk that fits the room seen in a snapshot. */
    method Append(chunk: seq<Byte>)
      requires Valid() && txIn + |chunk| <= BUF_LEN && |TxRing()| + |chunk| < BUF_LEN
      modifies this`rxFifo, this`incoming, this`txFifo, this`hostGot, this`activity, this`popped,
               this`rxIn, this`txOut, this`irqEnable, this`control, this`hostInactive,
               this`looks, this`reported, rxBuf, txBuf, this`txIn, this`accepted
      ensures Valid() && RxUndisturbed()
      ensures accepted == old(accepted) + chunk && |TxRing()| <= |old(TxRing())| + |chunk|
    {
      CopyIn(chunk);
      Interrupts();
      Publish(|chunk|);
    }

    /** One turn of the inner loop of `Write`: takes a snapshot of the two indices and appends as much
        of `data` as it leaves contiguous room for.  The snapshot of `txOut` may be stale at once. */
    method FillOnce(data: seq<Byte>) returns (n: nat, out: nat)
      requires Valid() && data != []
      modifies this`rxFifo, this`incoming, this`txFifo, this`hostGot, this`activity, this`popped,
               this`rxIn, this`txOut, this`irqEnable, this`control, this`hostInactive,
               this`looks, this`reported, rxBuf, txBuf, this`txIn, this`accepted
      ensures Valid() && RxUndisturbed()
      ensures n <= |data| && accepted == old(accepted) + data[..n]
      ensures |TxRing()| <= |old(TxRing())| + n
      ensures n == 0 ==> |old(TxRing())| == BUF_LEN - 1 && (txIn + 1) % BUF_LEN == out
    {
      Interrupts();
      out := txOut;
      WindowAt(txBuf[..], txOut, txIn);
      WindowAt(old(txBuf[..]), old(txOut), old(txIn));
      n := Room(out, txIn);
      if n > |data| {
        n := |data|;
      }
      if n > 0 {
        Append(data[..n]);
      }
    }

    /** The inner loop of `Write`: goes on until all of `data` is in or a snapshot shows no room.  The
        last snapshot of `txOut` is returned for the busy-wait that follows. */
    method Fill(data: seq<Byte>) returns (ptr: nat, out: nat)
      requires Valid()
      modifies this`rxFifo, this`incoming, this`txFifo, this`hostGot, this`activity, this`popped,
               this`rxIn, this`txOut, this`irqEnable, this`control, this`hostInactive,
               this`looks, this`reported, rxBuf, txBuf, this`txIn, this`accepted
      ensures Valid() && RxUndisturbed()
      ensures ptr <= |data| && accepted == old(accepted) + data[..ptr]
      ensures ptr >= Min(|data|, BUF_LEN - 1 - |old(TxRing())|)
      ensures ptr < |data| ==> (txIn + 1) % BUF_LEN == out
    {
      ptr, out := 0, 0;
      while ptr < |data|
        invariant Valid() && RxUndisturbed()
        invariant ptr <= |data| && accepted == old(accepted) + data[..ptr]
        invariant |TxRing()| <= |old(TxRing())| + ptr
        decreases |data| - ptr
      {
        var n;
        n, out := FillOnce(data[ptr..]);
        Splice(old(accepted), data, ptr, n);
        ptr := ptr + n;
        if n == 0 {
          break;
        }
      }
    }

    /** Fills the buffer, then turns transmit interrupts on to have it sent. */
    method FillAndKick(data: seq<Byte>) returns (n: nat, out: nat)
      requires Valid() && RxAwake()
      modifies this`rxFifo, this`incoming, this`txFifo, this`hostGot, this`activity, this`popped,
               this`rxIn, this`txOut, this`irqEnable, this`control, this`hostInactive,
               this`looks, this`reported, rxBuf, txBuf, this`txIn, this`accepted
      ensures Quiescent() && RxUndisturbed()
      ensures n <= |data| && accepted == old(accepted) + data[..n]
      ensures n >= Min(|data|, BUF_LEN - 1 - |old(TxRing())|)
      ensures n < |data| ==> (txIn + 1) % BUF_LEN == out
    {
      n, out := Fill(data);
      Interrupts();
      EnableTx();
    }

    /** The busy-wait of `Write` that began at position `start` of the history, when `vain` of the `polls` turns
        have been in vain: the others are left, but for one if the wait is over.  Then either the
        buffer is no longer full or the host has been inactive. */
    ghost predicate AwaitingRoom(out: nat, polls: nat, start: nat, left: nat, stay: bool, vain: nat)
      requires Shape()
      reads this, txBuf
    {
      && (txIn + 1) % BUF_LEN == out
      && InVain(Space, looks, start, vain, timeout)
      && if stay then left + vain == polls && |looks| == start + 2 * vain
         else left + vain + 1 == polls && (|TxRing()| < BUF_LEN - 1 || IdleSince(looks, start, timeout))
    }

    /** One turn of the busy-wait.  It is in vain, and the wait goes on, exactly if its first look still finds
        the buffer full and its second does not find the host inactive. */
    method PollSent(out: nat, ghost polls: nat, ghost start: nat, ghost left: nat, ghost vain: nat) returns (stay: bool)
      requires Quiescent() && left > 0 && AwaitingRoom(out, polls, start, left, true, vain)
      modifies this`rxFifo, this`incoming, this`txFifo, this`hostGot, this`activity, this`popped,
               this`rxIn, this`txOut, this`irqEnable, this`control, this`hostInactive,
               this`looks, this`reported, rxBuf
      ensures Quiescent() && RxUndisturbed() && accepted == old(accepted)
      ensures |looks| == |old(looks)| + 2
      ensures stay <==> !Reached(Space, looks[|looks| - 2]) && looks[|looks| - 1].inactive < timeout
      ensures AwaitingRoom(out, polls, start, left - 1, stay, if stay then vain + 1 else vain)
    {
      ghost var before := looks;
      Interrupts();
      WindowAt(txBuf[..], txOut, txIn);
      StillFull(txBuf[..], txOut, txIn, out);
      var unmoved := out == txOut;
      Interrupts();
      InVainLater(Space, before, looks, start, vain, timeout);
      stay := unmoved && hostInactive < timeout;
    }

    /** The busy-wait of `Write` after a snapshot of the output index that showed a full buffer: every turn but
        the last one was in vain, and that one too if the turns are used up. */
    method AwaitSent(out: nat, polls: nat) returns (left: nat, timedOut: bool, ghost vain: nat)
      requires Quiescent() && (txIn + 1) % BUF_LEN == out
      modifies this`rxFifo, this`incoming, this`txFifo, this`hostGot, this`activity, this`popped,
               this`rxIn, this`txOut, this`irqEnable, this`control, this`hostInactive,
               this`looks, this`reported, rxBuf
      ensures Quiescent() && RxUndisturbed() && accepted == old(accepted)
      ensures AwaitingRoom(out, polls, |old(looks)|, left, timedOut, vain) && (timedOut ==> left == 0)
    {
      left, timedOut, vain := polls, true, 0;
      ghost var start := |looks|;
      while timedOut && left > 0
        invariant Quiescent() && RxUndisturbed() && accepted == old(accepted)
        invariant AwaitingRoom(out, polls, start, left, timedOut, vain)
        decreases left
      {
        timedOut := PollSent(out, polls, start, left, vain);
        left, vain := left - 1, if timedOut then vain + 1 else vain;
      }
    }

    /** What follows a busy-wait: the call goes on unless the host has been found inactive at all.  `stall` is
        the number of turns that were in vain. */
    method WaitRound(out: nat, polls: nat) returns (left: nat, next: Next, ghost stall: nat)
      requires Quiescent() && (txIn + 1) % BUF_LEN == out
      modifies this`rxFifo, this`incoming, this`txFifo, this`hostGot, this`activity, this`popped,
               this`rxIn, this`txOut, this`irqEnable, this`control, this`hostInactive,
               this`looks, this`reported, rxBuf
      ensures Quiescent() && RxUndisturbed() && accepted == old(accepted)
      ensures left <= polls <= left + stall + 1 && InVainSince(Space, looks, |old(looks)|, stall, timeout)
      ensures next != RunEnds ==> |looks| > |old(looks)| && (next == Retry <==> looks[|looks| - 1].inactive == 0)
      ensures next == Done ==> HostIdle(1)
      ensures next == RunEnds ==> left == 0 && stall == polls && (polls > 0 ==> HostSeen(timeout))
      ensures next == Retry ==> left < polls && HostSeen(1) && (|TxRing()| < BUF_LEN - 1 || HostIdle(timeout))
    {
      ghost var start := |looks|;
      var timedOut;
      left, timedOut, stall := AwaitSent(out, polls);
      ghost var seen := looks;
      if timedOut {
        next := RunEnds;
      } else {
        Interrupts();
        next := if hostInactive > 0 then Done else Retry;
      }
      InVainLater(Space, seen, looks, start, stall, timeout);
      SinceLater(seen, looks, start, timeout);
    }

    /** One turn of the outer loop of `Write`. */
    method Round(data: seq<Byte>, nonblock: bool, polls: nat)
      returns (n: nat, left: nat, next: Next, ghost stall: nat)
      requires Valid() && RxAwake()
      modifies this`rxFifo, this`incoming, this`txFifo, this`hostGot, this`activity, this`popped,
               this`rxIn, this`txOut, this`irqEnable, this`control, this`hostInactive,
               this`looks, this`reported, rxBuf, txBuf, this`txIn, this`accepted
      ensures Quiescent() && RxUndisturbed()
      ensures n <= |data| && accepted == old(accepted) + data[..n]
      ensures n >= Min(|data|, BUF_LEN - 1 - |old(TxRing())|)
      ensures left <= polls <= left + stall + 1 && InVainSince(Space, looks, |old(looks)|, stall, timeout)
      ensures next == Done ==> n == |data| || nonblock || HostIdle(1)
      ensures nonblock ==> next == Done
      ensures next == RunEnds ==> n < |data| && left == 0 && (polls > 0 ==> HostSeen(timeout))
      ensures next == Retry ==> left < polls && n < |data|
      ensures next == Retry ==> HostSeen(1) && (|TxRing()| < BUF_LEN - 1 || HostIdle(timeout))
    {
      var out;
      n, out := FillAndKick(data);
      if n == |data| || nonblock {
        left, next, stall := polls, Done, 0;
        assert InVain(Space, looks, |looks|, 0, timeout);
      } else {
        ghost var before := looks;
        left, next, stall := WaitRound(out, polls);
        assert InVainSince(Space, looks, |before|, stall, timeout);
      }
    }

    /** The same with the account of the turns spent in all rounds so far. */
    method SpendRound(data: seq<Byte>, nonblock: bool, polls: nat,
                      ghost start: nat, ghost stall0: nat, ghost used: nat, ghost rounds: nat)
      returns (n: nat, left: nat, next: Next, ghost stall: nat)
      requires Valid() && RxAwake()
      requires start <= |looks| && Spent(looks, start, stall0, timeout, used, rounds)
      modifies this`rxFifo, this`incoming, this`txFifo, this`hostGot, this`activity, this`popped,
               this`rxIn, this`txOut, this`irqEnable, this`control, this`hostInactive,
               this`looks, this`reported, rxBuf, txBuf, this`txIn, this`accepted
      ensures Quiescent() && RxUndisturbed()
      ensures n <= |data| && accepted == old(accepted) + data[..n]
      ensures n >= Min(|data|, BUF_LEN - 1 - |old(TxRing())|)
      ensures left <= polls && Spent(looks, start, stall, timeout, used + (polls - left), rounds + 1)
      ensures next == Done ==> n == |data| || nonblock || HostIdle(1)
      ensures nonblock ==> next == Done
      ensures next == RunEnds ==> n < |data| && left == 0 && (polls > 0 ==> HostSeen(timeout))
      ensures next == Retry ==> left < polls && n < |data|
      ensures next == Retry ==> HostSeen(1) && (|TxRing()| < BUF_LEN - 1 || HostIdle(timeout))
    {
      ghost var before, t := looks, 0;
      n, left, next, t := Round(data, nonblock, polls);
      SpentNext(before, looks, start, stall0, timeout, used, rounds, polls - left, t);
      stall := if stall0 > t then stall0 else t;
    }

    /** A blocking or non-blocking call of `Write` with `polls` turns to spend, which began at position `start`
        of the history with room for `room` bytes and `base` accepted, after some rounds of its outer loop.
        Each accepts a byte, but for the first and those that follow a wait on an inactive host. */
    ghost predicate Rounds(base: seq<Byte>, data: seq<Byte>, nonblock: bool, polls: nat, start: nat, room: int,
                           ptr: nat, left: nat, next: Next, stall: nat, rounds: nat)
      requires Shape()
      reads this, txBuf
    {
      && ptr <= |data| && accepted == base + data[..ptr]
      && (if rounds == 0 then ptr == 0 && next == Retry && BUF_LEN - 1 - |TxRing()| == room
          else ptr >= Min(|data|, room) && (next == Done || ptr < |data|))
      && left <= polls && start <= |looks| && Spent(looks, start, stall, timeout, polls - left, rounds)
      && (next == Done ==> ptr == |data| || nonblock || IdleSince(looks, start, 1))
      && (next == RunEnds ==> !nonblock && left == 0)
      && (next != Done && rounds > 0 && polls > 0 ==> SeenSince(looks, start, timeout))
      && (rounds > 1 || (rounds == 1 && next == Retry) ==> SeenSince(looks, start, 1))
      && (rounds > 0 ==>
            rounds + Min(|data|, room) <= ptr + Idles(looks, start, timeout)
                                          + if next == Retry && |TxRing()| >= BUF_LEN - 1 then 0 else 1)
    }

    ghost predicate Sending(base: seq<Byte>, data: seq<Byte>, nonblock: bool, polls: nat, start: nat, room: int,
                            ptr: nat, left: nat, next: Next)
      requires Shape()
      reads this, txBuf
    {
      exists stall: nat, rounds: nat ::
        Rounds(base, data, nonblock, polls, start, room, ptr, left, next, stall, rounds)
    }

    /** What the rounds come to when there are no more of them. */
    lemma SendingOver(base: seq<Byte>, data: seq<Byte>, nonblock: bool, polls: nat, start: nat, room: int,
                      ptr: nat, left: nat, next: Next)
      requires Shape() && next != Retry && Sending(base, data, nonblock, polls, start, room, ptr, left, next)
      ensures Min(|data|, room) <= ptr <= |data| && accepted == base + data[..ptr] && start <= |looks|
      ensures next == Done ==> ptr == |data| || nonblock || IdleSince(looks, start, 1)
      ensures next == RunEnds ==> !nonblock && ptr < |data| && (polls > 0 ==> SeenSince(looks, start, timeout))
      ensures next == RunEnds ==> SpentAll(looks, start, timeout, polls, ptr - room)
    {
      var stall: nat, rounds: nat :|
        Rounds(base, data, nonblock, polls, start, room, ptr, left, next, stall, rounds);
      if next == RunEnds {
        SpentLater(looks, looks, start, stall, timeout, polls, rounds, Waits(looks, start, ptr - room, timeout));
      }
    }

    /** One more round. */
    method SendTurn(data: seq<Byte>, ptr0: nat, nonblock: bool, left0: nat,
                    ghost base: seq<Byte>, ghost polls: nat, ghost start: nat, ghost room: int)
      returns (ptr: nat, left: nat, next: Next)
      requires Quiescent()
      requires Sending(base, data, nonblock, polls, start, room, ptr0, left0, Retry)
      modifies this`rxFifo, this`incoming, this`txFifo, this`hostGot, this`activity, this`popped,
               this`rxIn, this`txOut, this`irqEnable, this`control, this`hostInactive,
               this`looks, this`reported, rxBuf, txBuf, this`txIn, this`accepted
      ensures Quiescent() && RxUndisturbed()
      ensures Sending(base, data, nonblock, polls, start, room, ptr, left, next)
      ensures next == Retry ==> left < left0
    {
      ghost var stall0: nat, rounds: nat :|
        Rounds(base, data, nonblock, polls, start, room, ptr0, left0, Retry, stall0, rounds);
      ghost var before := looks;
      var n;
      ghost var stall;
      n, left, next, stall := SpendRound(data[ptr0..], nonblock, left0, start, stall0, polls - left0, rounds);
      Splice(base, data, ptr0, n);
      ptr := ptr0 + n;
      SinceEarlier(looks, start, |before|, 1);
      SinceEarlier(looks, start, |before|, timeout);
      SinceLater(before, looks, start, 1);
      SinceLater(before, looks, start, timeout);
      IdlesLater(before, looks, start, timeout);
      if next == Retry {
        SeenBelow(looks, start, 1, timeout);
        if |TxRing()| >= BUF_LEN - 1 {
          IdlesPositive(looks, |before|, timeout);
        }
      }
      assert Rounds(base, data, nonblock, polls, start, room, ptr, left, next, stall, rounds + 1);
    }

    /** The outer loop of `Write`. */
    method SendRounds(data: seq<Byte>, nonblock: bool, polls: nat) returns (ptr: nat, left: nat, next: Next)
      requires Quiescent()
      modifies this`rxFifo, this`incoming, this`txFifo, this`hostGot, this`activity, this`popped,
               this`rxIn, this`txOut, this`irqEnable, this`control, this`hostInactive,
               this`looks, this`reported, rxBuf, txBuf, this`txIn, this`accepted
      ensures Quiescent() && RxUndisturbed() && next != Retry
      ensures Sending(old(accepted), data, nonblock, polls, |old(looks)|, BUF_LEN - 1 - |old(TxRing())|, ptr, left, next)
    {
      ghost var base, start, room := accepted, |looks|, BUF_LEN - 1 - |TxRing()|;
      ptr, left, next := 0, polls, Retry;
      assert InVain(Space, looks, |looks|, 0, timeout);
      assert Rounds(base, data, nonblock, polls, start, room, ptr, left, next, 0, 0);
      while next == Retry
        invariant Quiescent() && RxUndisturbed()
        invariant Sending(base, data, nonblock, polls, start, room, ptr, left, next)
        decreases next == Retry, left
      {
        ptr, left, next := SendTurn(data, ptr, nonblock, left, base, polls, start, room);
      }
    }

    /** The interrupts before the call returns take nothing back of what there was to see. */
    method BeforeReturn(ghost start: nat, ghost polls: nat, ghost beyond: nat)
      requires Quiescent() && start <= |looks|
      modifies this`rxFifo, this`incoming, this`txFifo, this`hostGot, this`activity, this`popped,
               this`rxIn, this`txOut, this`irqEnable, this`control, this`hostInactive,
               this`looks, this`reported, rxBuf
      ensures Quiescent() && RxUndisturbed() && accepted == old(accepted)
      ensures IdleSince(old(looks), start, 1) ==> IdleSince(looks, start, 1)
      ensures SeenSince(old(looks), start, timeout) ==> SeenSince(looks, start, timeout)
      ensures SpentAll(old(looks), start, timeout, polls, beyond) ==> SpentAll(looks, start, timeout, polls, beyond)
    {
      ghost var seen := looks;
      Interrupts();
      SinceLater(seen, looks, start, 1);
      SinceLater(seen, looks, start, timeout);
      if SpentAll(seen, start, timeout, polls, beyond) {
        SpentAllLater(seen, looks, start, timeout, polls, beyond);
      }
    }

    /** The outer loop in terms of what there was to see, up to the return of the call. */
    method SendAll(data: seq<Byte>, nonblock: bool, polls: nat) returns (ptr: nat, next: Next)
      requires Quiescent()
      modifies this`rxFifo, this`incoming, this`txFifo, this`hostGot, this`activity, this`popped,
               this`rxIn, this`txOut, this`irqEnable, this`control, this`hostInactive,
               this`looks, this`reported, rxBuf, txBuf, this`txIn, this`accepted
      ensures Quiescent() && RxUndisturbed() && next != Retry
      ensures Min(|data|, BUF_LEN - 1 - |old(TxRing())|) <= ptr <= |data| && accepted == old(accepted) + data[..ptr]
      ensures next == Done ==> ptr == |data| || nonblock || HostIdle(1)
      ensures next == RunEnds ==> !nonblock && ptr < |data| && (polls > 0 ==> HostSeen(timeout))
      ensures next == RunEnds ==>
                SpentAll(looks, |old(looks)|, timeout, polls, ptr - (BUF_LEN - 1 - |old(TxRing())|))
    {
      ghost var base, start, room := accepted, |looks|, BUF_LEN - 1 - |TxRing()|;
      var left;
      ptr, left, next := SendRounds(data, nonblock, polls);
      SendingOver(base, data, nonblock, polls, start, room, ptr, left, next);
      BeforeReturn(start, polls, if next == RunEnds then ptr - room else 0);
    }

    /** Sends `data`.  The bytes accepted are a prefix of it, and a positive return value is exactly
        how many; they join the transmit stream in order, while the receive side is not disturbed.
        At least as many bytes are accepted as there was room for at the call.  A blocking call
        gives up early only if the host was found inactive.  `polls` bounds the busy-wait turns in
        the part of the run that is modelled; a call that uses them up has found the buffer full in each,
        but for one at most in each of its waits. */
    method Write(data: seq<Byte>, nonblock: bool, polls: nat) returns (r: Outcome)
      requires Quiescent()
      modifies this`rxFifo, this`incoming, this`txFifo, this`hostGot, this`activity, this`popped,
               this`rxIn, this`txOut, this`irqEnable, this`control, this`hostInactive,
               this`looks, this`reported, rxBuf, txBuf, this`txIn, this`accepted
      ensures Quiescent() && RxUndisturbed()
      ensures r.Moved() <= |data| && accepted == old(accepted) + data[..r.Moved()]
      ensures r.Moved() >= Min(|data|, BUF_LEN - 1 - |old(TxRing())|)
      ensures r.Transferred? ==> r.n > 0
      ensures (r.WouldBlock? ==> nonblock) && (r.IoError? || r.Waiting? ==> !nonblock)
      ensures !nonblock && !r.Waiting? && r.Moved() < |data| ==> HostIdle(1)
      ensures r.Waiting? ==> r.moved < |data| && (polls > 0 ==> HostSeen(timeout))
      ensures r.Waiting? ==>
                SpentAll(looks, |old(looks)|, timeout, polls, r.moved - (BUF_LEN - 1 - |old(TxRing())|))
    {
      var ptr, next := SendAll(data, nonblock, polls);
      if next == RunEnds {
        r := Waiting(ptr);
      } else if ptr != 0 {
        r := Transferred(ptr);
      } else if nonblock {
        r := WouldBlock;
      } else {
        r := IoError;
      }
    }

    /** Copies one byte out of the receive buffer, after whatever interrupts there are. */
    method CopyByte(j: nat) returns (c: Byte)
      requires Valid() && rxOut + j < BUF_LEN && j < |RxRing()|
      modifies this`rxFifo, this`incoming, this`txFifo, this`hostGot, this`activity, this`popped,
               this`rxIn, this`txOut, this`irqEnable, this`control, this`hostInactive,
               this`looks, this`reported, rxBuf
      ensures Valid() && TxUndisturbed() && rxOut == old(rxOut) && delivered == old(delivered)
      ensures old(RxRing()) <= RxRing() && c == old(RxRing())[j]
      ensures old(RxAwake()) ==> RxAwake()
    {
      Interrupts();
      WindowAt(rxBuf[..], rxOut, rxIn);
      c := rxBuf[rxOut + j];
      assert c == rxBuf[..][(rxOut + j) % BUF_LEN] == RxRing()[j];
    }

    /** The copy out of the receive buffer, byte by byte, with interrupts in between.  The handler
        stores only behind the bytes being copied. */
    method CopyOut(n: nat) returns (chunk: seq<Byte>)
      requires Valid() && rxOut + n <= BUF_LEN && n <= |RxRing()|
      modifies this`rxFifo, this`incoming, this`txFifo, this`hostGot, this`activity, this`popped,
               this`rxIn, this`txOut, this`irqEnable, this`control, this`hostInactive,
               this`looks, this`reported, rxBuf
      ensures Valid() && TxUndisturbed() && rxOut == old(rxOut) && delivered == old(delivered)
      ensures old(RxRing()) <= RxRing() && chunk == old(RxRing())[..n]
      ensures old(RxAwake()) ==> RxAwake()
    {
      chunk := [];
      ghost var ring := RxRing();
      for j := 0 to n
        invariant Valid() && TxUndisturbed() && rxOut == old(rxOut) && delivered == old(delivered)
        invariant ring <= RxRing() && chunk == ring[..j]
        invariant old(RxAwake()) ==> RxAwake()
      {
        GrowPrefix(ring, RxRing(), j);
        var c := CopyByte(j);
        chunk := chunk + [c];
      }
    }

    /** Frees the n oldest slots of the receive buffer, whose bytes have been copied. */
    method Release(n: nat)
      requires Valid() && rxOut + n <= BUF_LEN && n <= |RxRing()|
      modifies this`rxOut, this`delivered
      ensures Valid() && TxRing() == old(TxRing())
      ensures RxRing() == old(RxRing())[n..] && delivered == old(delivered) + old(RxRing())[..n]
    {
      WindowAt(rxBuf[..], rxOut, rxIn);
      WindowDrop(rxBuf[..], rxOut, rxIn, n);
      ghost var ring := RxRing();
      SplitAt(delivered, ring, n);
      rxOut := (rxOut + n) % BUF_LEN;
      delivered := delivered + ring[..n];
      assert RxRing() == ring[n..] && TxRing() == old(TxRing());
    }

    /** Copies out and frees n contiguous bytes. */
    method Remove(n: nat) returns (chunk: seq<Byte>)
      requires Valid() && rxOut + n <= BUF_LEN && n <= |RxRing()|
      modifies this`rxFifo, this`incoming, this`txFifo, this`hostGot, this`activity, this`popped,
               this`rxIn, this`txOut, this`irqEnable, this`control, this`hostInactive,
               this`looks, this`reported, rxBuf, this`rxOut, this`delivered
      ensures Valid() && TxUndisturbed()
      ensures chunk == old(RxRing())[..n] && delivered == old(delivered) + chunk
      ensures |RxRing()| + n >= |old(RxRing())|
      ensures n == 0 ==> rxOut == old(rxOut) && (old(RxAwake()) ==> RxAwake())
    {
      chunk := CopyOut(n);
      Interrupts();
      assert chunk == RxRing()[..n];
      Release(n);
    }

    /** One turn of the inner loop of `Read`: takes a snapshot of the two indices and removes as many
        bytes as are contiguous, up to `space`.  The snapshot of `rxIn` may be stale at once. */
    method TakeOnce(space: nat) returns (chunk: seq<Byte>, in_: nat)
      requires Valid() && 0 < space
      modifies this`rxFifo, this`incoming, this`txFifo, this`hostGot, this`activity, this`popped,
               this`rxIn, this`txOut, this`irqEnable, this`control, this`hostInactive,
               this`looks, this`reported, rxBuf, this`rxOut, this`delivered
      ensures Valid() && TxUndisturbed()
      ensures |chunk| <= space && delivered == old(delivered) + chunk
      ensures |RxRing()| + |chunk| >= |old(RxRing())|
      ensures chunk == [] ==> old(RxRing()) == [] && in_ == rxOut == old(rxOut)
      ensures chunk == [] && old(RxAwake()) ==> RxAwake()
    {
      Interrupts();
      in_ := rxIn;
      WindowAt(rxBuf[..], rxOut, rxIn);
      var n := Supply(rxOut, in_);
      if n > space {
        n := space;
      }
      chunk := Remove(n);
    }

    /** The inner loop of `Read`: goes on until `space` bytes are taken or a snapshot shows none. */
    method Take(space: nat) returns (buffer: seq<Byte>, in_: nat)
      requires Valid() && 0 < space
      modifies this`rxFifo, this`incoming, this`txFifo, this`hostGot, this`activity, this`popped,
               this`rxIn, this`txOut, this`irqEnable, this`control, this`hostInactive,
               this`looks, this`reported, rxBuf, this`rxOut, this`delivered
      ensures Valid() && TxUndisturbed()
      ensures |buffer| <= space && delivered == old(delivered) + buffer
      ensures |buffer| >= Min(space, |old(RxRing())|)
      ensures buffer == [] ==> in_ == rxOut
      ensures buffer == [] && old(RxAwake()) ==> RxAwake()
    {
      buffer, in_ := [], rxOut;
      while |buffer| < space
        invariant Valid() && TxUndisturbed()
        invariant |buffer| <= space && delivered == old(delivered) + buffer
        invariant |RxRing()| + |buffer| >= |old(RxRing())|
        invariant buffer == [] ==> in_ == rxOut
        invariant buffer == [] && old(RxAwake()) ==> RxAwake()
        decreases space - |buffer|
      {
        var chunk;
        chunk, in_ := TakeOnce(space - |buffer|);
        Associative(old(delivered), buffer, chunk);
        buffer := buffer + chunk;
        if chunk == [] {
          break;
        }
      }
    }

    /** The busy-wait of `Read` that began at position `start` of the history with `waiting` bytes in the buffer,
        when `vain` of the `polls` turns have been in vain: the others are left, but for one if the wait is
        over.  Then either there is something in the buffer or the host has been inactive. */
    ghost predicate AwaitingInput(in_: nat, polls: nat, start: nat, waiting: nat, left: nat, stay: bool, vain: nat)
      requires Shape()
      reads this, rxBuf
    {
      && in_ == rxOut && waiting <= |RxRing()| && (vain > 0 ==> waiting == 0)
      && InVain(Input, looks, start, vain, timeout)
      && if stay then left + vain == polls && |looks| == start + 2 * vain
         else left + vain + 1 == polls && (RxRing() != [] || IdleSince(looks, start, timeout))
    }

    /** One turn of the busy-wait.  It is in vain, and the wait goes on, exactly if its first look still finds
        the buffer empty and its second does not find the host inactive. */
    method PollReceived(in_: nat, ghost polls: nat, ghost start: nat, ghost waiting: nat, ghost left: nat,
                        ghost vain: nat)
      returns (stay: bool)
      requires Quiescent() && left > 0 && AwaitingInput(in_, polls, start, waiting, left, true, vain)
      modifies this`rxFifo, this`incoming, this`txFifo, this`hostGot, this`activity, this`popped,
               this`rxIn, this`txOut, this`irqEnable, this`control, this`hostInactive,
               this`looks, this`reported, rxBuf
      ensures Quiescent() && TxUndisturbed() && delivered == old(delivered)
      ensures |looks| == |old(looks)| + 2
      ensures stay <==> !Reached(Input, looks[|looks| - 2]) && looks[|looks| - 1].inactive < timeout
      ensures AwaitingInput(in_, polls, start, waiting, left - 1, stay, if stay then vain + 1 else vain)
    {
      ghost var before := looks;
      Interrupts();
      StillEmpty(rxBuf[..], rxOut, rxIn);
      var unmoved := in_ == rxIn;
      Interrupts();
      InVainLater(Input, before, looks, start, vain, timeout);
      stay := unmoved && hostInactive < timeout;
    }

    /** The busy-wait of `Read` after a snapshot of the input index that showed an empty buffer: every turn but
        the last one was in vain, and that one too if the turns are used up. */
    method AwaitReceived(in_: nat, polls: nat) returns (left: nat, timedOut: bool, ghost vain: nat)
      requires Quiescent() && in_ == rxOut
      modifies this`rxFifo, this`incoming, this`txFifo, this`hostGot, this`activity, this`popped,
               this`rxIn, this`txOut, this`irqEnable, this`control, this`hostInactive,
               this`looks, this`reported, rxBuf
      ensures Quiescent() && TxUndisturbed() && delivered == old(delivered)
      ensures AwaitingInput(in_, polls, |old(looks)|, |old(RxRing())|, left, timedOut, vain)
      ensures timedOut ==> left == 0
    {
      left, timedOut, vain := polls, true, 0;
      ghost var start, waiting := |looks|, |RxRing()|;
      while timedOut && left > 0
        invariant Quiescent() && TxUndisturbed() && delivered == old(delivered)
        invariant AwaitingInput(in_, polls, start, waiting, left, timedOut, vain)
        decreases left
      {
        timedOut := PollReceived(in_, polls, start, waiting, left, vain);
        left, vain := left - 1, if timedOut then vain + 1 else vain;
      }
    }

    /** The busy-wait, and the look at the input index after it. */
    method AwaitMore(in_: nat, polls: nat) returns (left: nat, timedOut: bool, more: bool)
      requires Quiescent() && in_ == rxOut
      modifies this`rxFifo, this`incoming, this`txFifo, this`hostGot, this`activity, this`popped,
               this`rxIn, this`txOut, this`irqEnable, this`control, this`hostInactive,
               this`looks, this`reported, rxBuf
      ensures Quiescent() && TxUndisturbed() && delivered == old(delivered) && rxOut == old(rxOut)
      ensures timedOut ==> !more && (polls > 0 ==> old(RxRing()) == [] && HostSeen(timeout))
      ensures timedOut ==> InVainSince(Input, looks, |old(looks)|, polls, timeout)
      ensures more ==> left < polls && RxRing() != []
      ensures !timedOut && !more ==> HostIdle(timeout)
    {
      ghost var start := |looks|;
      ghost var vain;
      left, timedOut, vain := AwaitReceived(in_, polls);
      ghost var before := looks;
      Interrupts();
      SinceLater(before, looks, start, timeout);
      InVainLater(Input, before, looks, start, vain, timeout);
      StillEmpty(rxBuf[..], rxOut, rxIn);
      more := !timedOut && in_ != rxIn;
    }

    /** One turn of the outer loop of `Read`. */
    method FetchTurn(space: nat, nonblock: bool, polls: nat)
      returns (buffer: seq<Byte>, more: bool, left: nat, timedOut: bool)
      requires Quiescent() && space > 0
      modifies this`rxFifo, this`incoming, this`txFifo, this`hostGot, this`activity, this`popped,
               this`rxIn, this`txOut, this`irqEnable, this`control, this`hostInactive,
               this`looks, this`reported, rxBuf, this`rxOut, this`delivered
      ensures Valid() && TxUndisturbed() && (buffer == [] ==> RxAwake())
      ensures |buffer| <= space && delivered == old(delivered) + buffer
      ensures |buffer| >= Min(space, |old(RxRing())|)
      ensures more ==> buffer == [] && !timedOut && left < polls && RxRing() != []
      ensures timedOut ==> buffer == [] && !nonblock && (polls > 0 ==> old(RxRing()) == [] && HostSeen(timeout))
      ensures timedOut ==> InVainSince(Input, looks, |old(looks)|, polls, timeout)
      ensures !more && !timedOut && buffer == [] ==> nonblock || HostIdle(timeout)
    {
      ghost var start := |looks|;
      var in_;
      buffer, in_ := Take(space);
      more, left, timedOut := false, polls, false;
      if buffer == [] && !nonblock {
        ghost var from := |looks|;
        left, timedOut, more := AwaitMore(in_, polls);
        if timedOut {
          VainSinceEarlier(Input, looks, start, from, polls, timeout);
        }
      }
    }

    /** The outer loop of `Read`. */
    method Fetch(space: nat, nonblock: bool, polls: nat) returns (buffer: seq<Byte>, timedOut: bool)
      requires Quiescent()
      modifies this`rxFifo, this`incoming, this`txFifo, this`hostGot, this`activity, this`popped,
               this`rxIn, this`txOut, this`irqEnable, this`control, this`hostInactive,
               this`looks, this`reported, rxBuf, this`rxOut, this`delivered
      ensures Valid() && TxUndisturbed() && (buffer == [] ==> RxAwake())
      ensures |buffer| <= space && delivered == old(delivered) + buffer
      ensures |buffer| >= Min(space, |old(RxRing())|)
      ensures timedOut ==> space > 0 && buffer == [] && !nonblock
      ensures timedOut && polls > 0 ==> old(RxRing()) == [] && HostSeen(timeout)
      ensures timedOut ==> InVainSince(Input, looks, |old(looks)|, polls, timeout)
      ensures !nonblock && !timedOut && space > 0 && buffer == [] ==> HostIdle(timeout)
    {
      buffer, timedOut := [], false;
      var left: nat, more := polls, space > 0;
      ghost var start, waiting := |looks|, |RxRing()|;
      while more
        invariant Valid() && TxUndisturbed() && (buffer == [] ==> RxAwake()) && TxAwake()
        invariant more ==> space > 0 && buffer == []
        invariant |buffer| <= space && delivered == old(delivered) + buffer
        invariant |buffer| >= Min(space, waiting) || (more && |RxRing()| == waiting)
        invariant timedOut ==> space > 0 && buffer == [] && !nonblock
        invariant timedOut && polls > 0 ==> waiting == 0 && HostSeen(timeout)
        invariant timedOut ==> InVainSince(Input, looks, start, polls, timeout)
        invariant more ==> (left == polls && |RxRing()| == waiting) || RxRing() != []
        invariant !more && space > 0 && !timedOut && buffer == [] ==> nonblock || HostIdle(timeout)
        decreases more, left
      {
        ghost var from := |looks|;
        buffer, more, left, timedOut := FetchTurn(space, nonblock, left);
        if timedOut {
          VainSinceEarlier(Input, looks, start, from, polls, timeout);
        }
      }
    }

    /** After bytes have been taken there is room, so receive interrupts are turned on. */
    method Resume()
      requires Valid() && TxAwake()
      modifies this`rxFifo, this`incoming, this`txFifo, this`hostGot, this`activity, this`popped,
               this`rxIn, this`txOut, this`irqEnable, this`control, this`hostInactive,
               this`looks, this`reported, rxBuf
      ensures Quiescent() && TxUndisturbed() && delivered == old(delivered)
    {
      Interrupts();
      EnableRx();
    }

    /** Receives up to `space` bytes.  The bytes returned continue the host's stream where the
        previous call stopped, while the transmit side is not disturbed.  At least as many are
        returned as were waiting at the call and fit.  A blocking call comes back with nothing only
        if there was nothing to wait for or the host was found inactive. */
    method Read(space: nat, nonblock: bool, polls: nat) returns (r: Outcome, buffer: seq<Byte>)
      requires Quiescent()
      modifies this`rxFifo, this`incoming, this`txFifo, this`hostGot, this`activity, this`popped,
               this`rxIn, this`txOut, this`irqEnable, this`control, this`hostInactive,
               this`looks, this`reported, rxBuf, this`rxOut, this`delivered
      ensures Quiescent() && TxUndisturbed()
      ensures r.Moved() == |buffer| <= space && delivered == old(delivered) + buffer
      ensures |buffer| >= Min(space, |old(RxRing())|)
      ensures r.Transferred? ==> buffer != []
      ensures (r.WouldBlock? ==> nonblock) && (r.IoError? || r.Waiting? ==> !nonblock)
      ensures !nonblock && !r.Waiting? && space > 0 && buffer == [] ==> HostIdle(timeout)
      ensures r.Waiting? ==> space > 0 && buffer == [] && (polls > 0 ==> old(RxRing()) == [] && HostSeen(timeout))
      ensures r.Waiting? ==> InVainSince(Input, looks, |old(looks)|, polls, timeout)
    {
      var timedOut;
      buffer, timedOut := Fetch(space, nonblock, polls);
      if buffer != [] {
        Resume();
      }
      ghost var before := looks;
      Interrupts();
      SinceLater(before, looks, |old(looks)|, timeout);
      if timedOut {
        VainSinceLater(Input, before, looks, |old(looks)|, polls, timeout);
        r := Waiting(0);
      } else if buffer != [] {
        r := Transferred(|buffer|);
      } else if nonblock {
        r := WouldBlock;
      } else {
        r := IoError;
      }
    }

    /** The wait of a call of `Close` that began at position `start` of the history with `waiting` bytes to send:
        its condition has been evaluated, and found to hold `turns` times, each time with a look that found
        bytes to send and then one that did not find the host inactive. */
    ghost predicate AwaitingDrain(start: nat, waiting: nat, more: bool, turns: nat)
      requires Shape()
      reads this, txBuf
    {
      && |TxRing()| <= waiting && InVain(Empty, looks, start, turns, timeout)
      && (turns > 0 ==> waiting > 0)
      && if more then |looks| == start + 2 * turns else TxRing() == [] || IdleSince(looks, start, timeout)
    }

    /** One evaluation of the condition of `Close`'s loop.  It is true exactly if there are bytes left to send at
        the first look and the second does not find the host inactive. */
    method Draining(ghost start: nat, ghost waiting: nat, ghost turns: nat) returns (more: bool)
      requires Quiescent() && AwaitingDrain(start, waiting, true, turns)
      modifies this`rxFifo, this`incoming, this`txFifo, this`hostGot, this`activity, this`popped,
               this`rxIn, this`txOut, this`irqEnable, this`control, this`hostInactive,
               this`looks, this`reported, rxBuf
      ensures Quiescent() && RxUndisturbed() && accepted == old(accepted)
      ensures |looks| > |old(looks)|
      ensures more <==> !Reached(Empty, looks[|old(looks)|]) && looks[|looks| - 1].inactive < timeout
      ensures AwaitingDrain(start, waiting, more, if more then turns + 1 else turns)
    {
      ghost var before := looks;
      Interrupts();
      StillEmpty(txBuf[..], txOut, txIn);
      InVainLater(Empty, before, looks, start, turns, timeout);
      if txOut == txIn {
        return false;
      }
      ghost var first := looks;
      Interrupts();
      InVainLater(Empty, first, looks, start, turns, timeout);
      return hostInactive < timeout;
    }

    /** The loop of `Close`: it is over when its condition fails, or at once for a non-blocking call. */
    method Drain(nonblock: bool, polls: nat) returns (more: bool, ghost turns: nat)
      requires Quiescent()
      modifies this`rxFifo, this`incoming, this`txFifo, this`hostGot, this`activity, this`popped,
               this`rxIn, this`txOut, this`irqEnable, this`control, this`hostInactive,
               this`looks, this`reported, rxBuf
      ensures Quiescent() && RxUndisturbed() && accepted == old(accepted)
      ensures AwaitingDrain(|old(looks)|, |old(TxRing())|, more, turns)
      ensures more ==> turns == if nonblock then 1 else polls + 1
    {
      var left := polls;
      ghost var start, waiting := |looks|, |TxRing()|;
      more := Draining(start, waiting, 0);
      turns := if more then 1 else 0;
      while more && !nonblock && left > 0
        invariant Quiescent() && RxUndisturbed() && accepted == old(accepted)
        invariant AwaitingDrain(start, waiting, more, turns)
        invariant more ==> if nonblock then turns == 1 else turns + left == polls + 1
        decreases left
      {
        left := left - 1;
        more := Draining(start, waiting, turns);
        turns := if more then turns + 1 else turns;
      }
    }

    /** Waits for the transmit buffer to drain.  It reports success only when there is nothing left to
        send or the host was found inactive.  It refuses only a non-blocking call, after a look that found bytes
        to send and one that did not find the host inactive; and a blocking call goes on waiting only while
        each evaluation of the condition finds just that. */
    method Close(nonblock: bool, polls: nat) returns (r: Closing)
      requires Quiescent()
      modifies this`rxFifo, this`incoming, this`txFifo, this`hostGot, this`activity, this`popped,
               this`rxIn, this`txOut, this`irqEnable, this`control, this`hostInactive,
               this`looks, this`reported, rxBuf
      ensures Quiescent() && RxUndisturbed() && accepted == old(accepted)
      ensures r == Closed ==> TxRing() == [] || HostIdle(timeout)
      ensures r == Busy ==> nonblock && InVain(Empty, looks, |old(looks)|, 1, timeout)
      ensures r == Unfinished ==> !nonblock && InVain(Empty, looks, |old(looks)|, polls + 1, timeout)
      ensures r != Closed ==> old(TxRing()) != []
    {
      ghost var start := |looks|;
      var more;
      ghost var turns;
      more, turns := Drain(nonblock, polls);
      r := if !more then Closed else if nonblock then Busy else Unfinished;
      ghost var before := looks;
      Interrupts();
      InVainLater(Empty, before, looks, start, turns, timeout);
      SinceLater(before, looks, start, timeout);
    }
  }

  /** How a turn of `Write` ends: the call is finished, or goes on, or outlasts the modelled run. */
  datatype Next = Done | Retry | RunEnds

  /** The result of `Close`; `Unfinished` when the modelled part of the run ends inside the call. */
  datatype Closing = Closed | Busy | Unfinished

  /** A step of a client program. */
  datatype Call =
    | Send(data: seq<Byte>, nonblocking: bool, spins: nat)
    | Receive(space: nat, nonblocking: bool, spins: nat)
    | Shut(nonblocking: bool, spins: nat)

  /** What a step reports to the program. */
  datatype Report =
    | Sent(r: Outcome)
    | Got(r: Outcome, bytes: seq<Byte>)
    | ShutDown(c: Closing)

  /** The circumstances of a step: how many bytes were in the transmit and in the receive buffer at the
      call, how many were on return, what there was to see up to the return, and the position in that
      history at the call. */
  datatype Moment = Moment(toSend: nat, toRead: nat, unsent: nat, unread: nat, first: nat, looks: seq<Look>)

  datatype Entry = Entry(call: Call, report: Report, m: Moment)

  function SentIn(e: Entry): seq<Byte> {
    if e.call.Send? && e.report.Sent? && e.report.r.Moved() <= |e.call.data|
      then e.call.data[..e.report.r.Moved()] else []
  }

  function ReceivedIn(e: Entry): seq<Byte> {
    if e.report.Got? then e.report.bytes else []
  }

  /** All that a program was told has been sent, in order. */
  function SentBy(log: seq<Entry>): seq<Byte> {
    var n := |log| - 1;
    if n < 0 then [] else SentBy(log[..n]) + SentIn(log[n])
  }

  /** All that a program received, in order. */
  function ReceivedBy(log: seq<Entry>): seq<Byte> {
    var n := |log| - 1;
    if n < 0 then [] else ReceivedBy(log[..n]) + ReceivedIn(log[n])
  }

  /** What a call that moved some of `wanted` bytes may report, when at least `possible` could be moved at
      once: a positive count, or an error of the right kind.  A blocking call falls short of `enough`
      bytes only if the host was found inactive for `limit` seconds; and it is left waiting, with spins
      modelled, only if the host was found not to be inactive for `timeout`.  (`Sound` adds what it has
      waited for in vain.) */
  ghost predicate SoundOutcome(r: Outcome, wanted: nat, possible: int, enough: nat, nonblocking: bool, spins: nat,
                               m: Moment, limit: nat, timeout: nat)
  {
    && Min(wanted, possible) <= r.Moved() <= wanted
    && (r.Transferred? ==> r.n > 0)
    && (if nonblocking then r.Transferred? || r.WouldBlock? else !r.WouldBlock?)
    && (!nonblocking && !r.Waiting? && r.Moved() < enough ==> IdleSince(m.looks, m.first, limit))
    && (r.Waiting? ==> r.moved < enough && (spins > 0 ==> SeenSince(m.looks, m.first, timeout)))
  }

  /** Is the report one that the call may get? */
  ghost predicate Sound(e: Entry, limit: nat) {
    match e.call
    case Send(data, nonblocking, spins) =>
      && e.report.Sent?
      && SoundOutcome(e.report.r, |data|, BUF_LEN - 1 - e.m.toSend, |data|, nonblocking, spins, e.m, 1, limit)
      && (e.report.r.Waiting? ==>
            SpentAll(e.m.looks, e.m.first, limit, spins, e.report.r.moved - (BUF_LEN - 1 - e.m.toSend)))
    case Receive(space, nonblocking, spins) =>
      && e.report.Got? && |e.report.bytes| == e.report.r.Moved()
      && SoundOutcome(e.report.r, space, e.m.toRead, Min(space, 1), nonblocking, spins, e.m, limit, limit)
      && (e.report.r.Waiting? ==> InVainSince(Input, e.m.looks, e.m.first, spins, limit))
    case Shut(nonblocking, spins) =>
      && e.report.ShutDown?
      && (e.report.c == Closed ==> e.m.unsent == 0 || IdleSince(e.m.looks, e.m.first, limit))
      && (e.report.c == Busy ==> nonblocking && InVain(Empty, e.m.looks, e.m.first, 1, limit))
      && (e.report.c == Unfinished ==> !nonblocking && InVain(Empty, e.m.looks, e.m.first, spins + 1, limit))
      && (e.report.c != Closed ==> e.m.toSend > 0)
  }

  /** A call on a host that is inactive all the time comes back, if any of its spins are modelled. */
  lemma ComesBack(e: Entry, limit: nat)
    requires Sound(e, limit) && e.call.spins > 0
    requires forall k :: 0 <= k < |e.m.looks| && e.m.first <= k ==> e.m.looks[k].inactive >= limit
    ensures !Cut(e.report)
  {
    VainSeen(Empty, e.m.looks, e.m.first, e.call.spins + 1, limit);
  }

  function GoalOf(call: Call): Goal {
    match call
    case Send(_, _, _) => Space
    case Receive(_, _, _) => Input
    case Shut(_, _) => Empty
  }

  /** How many turns does a call need at most, if no more than n in a row are in vain?  A call of `Write` may
      wait for every byte that there was no room for at first, and once more each time that it finds the
      host inactive for the timeout. */
  ghost function Enough(e: Entry, limit: nat, n: nat): int {
    if e.call.Send? then
      (n + 1) * (|e.call.data| - (BUF_LEN - 1 - e.m.toSend) + Idles(e.m.looks, e.m.first, limit))
    else n
  }

  /** A call comes back when what it waits for comes about: if no more than n turns in a row are in vain,
      whatever else the host does. */
  lemma ServedComesBack(e: Entry, limit: nat, n: nat)
    requires Sound(e, limit) && e.call.spins > Enough(e, limit, n)
    requires forall k: nat :: InVainSince(GoalOf(e.call), e.m.looks, e.m.first, k, limit) ==> k <= n
    ensures !Cut(e.report)
  {
    match e.call {
      case Send(data, _, spins) =>
        if e.report.r.Waiting? {
          var room := BUF_LEN - 1 - e.m.toSend;
          var rounds := Waits(e.m.looks, e.m.first, e.report.r.moved - room, limit);
          var stall: nat :| Spent(e.m.looks, e.m.first, stall, limit, spins, rounds);
          assert InVainSince(GoalOf(e.call), e.m.looks, e.m.first, stall, limit);
          TurnsWithin(stall, n, rounds, |data| - room + Idles(e.m.looks, e.m.first, limit));
        }
      case Receive(_, _, spins) =>
        assert e.report.r.Waiting? ==> InVainSince(GoalOf(e.call), e.m.looks, e.m.first, spins, limit);
      case Shut(_, spins) =>
        var turns: nat := spins + 1;
        assert e.report.c == Unfinished ==> InVain(GoalOf(e.call), e.m.looks, e.m.first, turns, limit);
        assert e.report.c == Unfinished ==> InVainSince(GoalOf(e.call), e.m.looks, e.m.first, turns, limit);
    }
  }

  lemma TurnsWithin(stall: nat, n: nat, rounds: nat, most: nat)
    requires stall <= n && rounds <= most
    ensures (stall + 1) * rounds <= (n + 1) * most
  {
    assert (n + 1) * most == (stall + 1) * rounds + (stall + 1) * (most - rounds) + (n - stall) * most;
  }

  /** Between two steps of a program the transmit buffer gains nothing and the receive buffer loses
      nothing. */
  ghost predicate Follows(m: Moment, next: Moment) {
    m.looks <= next.looks && |m.looks| <= next.first && next.toSend <= m.unsent && next.toRead >= m.unread
  }

  /** The log of a program: each report is one the call may get, the steps follow one another, and no
      more bytes were to be sent than had been reported sent. */
  ghost predicate Told(log: seq<Entry>, limit: nat) {
    var n := |log| - 1;
    n < 0 ||
    (&& Told(log[..n], limit)
     && Sound(log[n], limit)
     && log[n].m.toSend <= |SentBy(log[..n])|
     && (n > 0 ==> Follows(log[n - 1].m, log[n].m)))
  }

  /** This is so of every call a program makes. */
  lemma {:induction false} ToldEach(log: seq<Entry>, limit: nat, i: nat)
    requires Told(log, limit) && i < |log|
    ensures Sound(log[i], limit)
    ensures log[i].m.toSend <= |SentBy(log[..i])|
    ensures i > 0 ==> Follows(log[i - 1].m, log[i].m)
  {
    var n := |log| - 1;
    if i < n {
      ToldEach(log[..n], limit, i);
      assert log[..n][..i] == log[..i];
    }
  }

  /** The log goes on with the next step. */
  lemma ToldNext(log: seq<Entry>, limit: nat, e: Entry)
    requires Told(log, limit) && Sound(e, limit) && e.m.toSend <= |SentBy(log)|
    requires log != [] ==> Follows(log[|log| - 1].m, e.m)
    ensures Told(log + [e], limit)
    ensures SentBy(log + [e]) == SentBy(log) + SentIn(e)
    ensures ReceivedBy(log + [e]) == ReceivedBy(log) + ReceivedIn(e)
  {
    assert (log + [e])[..|log|] == log;
  }

  /** Is this the state in which a step ended? */
  ghost predicate Ends(m: Moment, u: Uart)
    requires u.Shape()
    reads u, u.txBuf, u.rxBuf
  {
    m.looks == u.looks && m.unsent == |u.TxRing()| && m.unread == |u.RxRing()|
  }

  /** A step leaves the driver quiescent, with its histories longer by what is reported, and its report is
      one the call may get. */
  twostate predicate Performed(u: Uart, new e: Entry)
    requires old(u.Quiescent())
    reads u, u.txBuf, u.rxBuf
  {
    && u.Quiescent() && u.timeout == old(u.timeout) && old(u.looks) <= u.looks
    && e.m.toSend == |old(u.TxRing())| && e.m.toRead == |old(u.RxRing())| && e.m.first == |old(u.looks)|
    && Ends(e.m, u)
    && u.accepted == old(u.accepted) + SentIn(e) && u.delivered == old(u.delivered) + ReceivedIn(e)
    && Sound(e, u.timeout)
  }

  method SendStep(u: Uart, call: Call) returns (report: Report, ghost m: Moment)
    requires u.Quiescent() && call.Send?
    modifies u, u.rxBuf, u.txBuf
    ensures Performed(u, Entry(call, report, m))
  {
    var r := u.Write(call.data, call.nonblocking, call.spins);
    report := Sent(r);
    m := Moment(|old(u.TxRing())|, |old(u.RxRing())|, |u.TxRing()|, |u.RxRing()|, |old(u.looks)|, u.looks);
  }

  method ReceiveStep(u: Uart, call: Call) returns (report: Report, ghost m: Moment)
    requires u.Quiescent() && call.Receive?
    modifies u, u.rxBuf, u.txBuf
    ensures Performed(u, Entry(call, report, m))
  {
    var r, bytes := u.Read(call.space, call.nonblocking, call.spins);
    report := Got(r, bytes);
    m := Moment(|old(u.TxRing())|, |old(u.RxRing())|, |u.TxRing()|, |u.RxRing()|, |old(u.looks)|, u.looks);
  }

  method ShutStep(u: Uart, call: Call) returns (report: Report, ghost m: Moment)
    requires u.Quiescent() && call.Shut?
    modifies u, u.rxBuf, u.txBuf
    ensures Performed(u, Entry(call, report, m))
  {
    var c := u.Close(call.nonblocking, call.spins);
    report := ShutDown(c);
    m := Moment(|old(u.TxRing())|, |old(u.RxRing())|, |u.TxRing()|, |u.RxRing()|, |old(u.looks)|, u.looks);
  }

  /** One step of a client program. */
  method Perform(u: Uart, call: Call) returns (report: Report, ghost m: Moment)
    requires u.Quiescent()
    modifies u, u.rxBuf, u.txBuf
    ensures Performed(u, Entry(call, report, m))
  {
    match call {
      case Send(_, _, _) => report, m := SendStep(u, call);
      case Receive(_, _, _) => report, m := ReceiveStep(u, call);
      case Shut(_, _) => report, m := ShutStep(u, call);
    }
  }

  /** The driver's histories are what a program was told. */
  ghost predicate Books(u: Uart, log: seq<Entry>)
    reads u, u.txBuf, u.rxBuf
  {
    && u.Quiescent() && Told(log, u.timeout)
    && (log != [] ==> Ends(log[|log| - 1].m, u))
    && u.accepted == SentBy(log) && u.delivered == ReceivedBy(log)
  }

  /** Does the modelled part of the run end inside this call? */
  predicate Cut(report: Report) {
    match report
    case Sent(r) => r.Waiting?
    case Got(r, _) => r.Waiting?
    case ShutDown(c) => c == Unfinished
  }

  /** The log is of the first |log| of these calls and of the reports on them; no call follows one that has
      not come back. */
  ghost predicate Records(log: seq<Entry>, calls: seq<Call>, reports: seq<Report>) {
    && |log| == |reports| <= |calls|
    && (forall i :: 0 <= i < |log| ==> log[i].call == calls[i] && log[i].report == reports[i])
    && (forall i :: 0 <= i < |log| - 1 ==> !Cut(reports[i]))
  }

  /** All calls have been made, or the last one made has not come back. */
  predicate Finished(calls: seq<Call>, reports: seq<Report>) {
    |reports| == |calls| || (reports != [] && Cut(reports[|reports| - 1]))
  }

  lemma RecordsNext(log: seq<Entry>, calls: seq<Call>, reports: seq<Report>, e: Entry)
    requires Records(log, calls, reports) && !Finished(calls, reports) && e.call == calls[|log|]
    ensures Records(log + [e], calls, reports + [e.report])
  {
  }

  /** The next step of a program with this log, after whatever interrupts there are. */
  method Step(u: Uart, calls: seq<Call>, reports0: seq<Report>, ghost log0: seq<Entry>)
    returns (reports: seq<Report>, ghost log: seq<Entry>)
    requires Books(u, log0) && Records(log0, calls, reports0) && !Finished(calls, reports0)
    modifies u, u.rxBuf, u.txBuf
    ensures Books(u, log) && u.timeout == old(u.timeout)
    ensures Records(log, calls, reports) && |log| == |log0| + 1
  {
    u.Interrupts();
    var report;
    ghost var m;
    report, m := Perform(u, calls[|reports0|]);
    ghost var e := Entry(calls[|log0|], report, m);
    ToldNext(log0, u.timeout, e);
    RecordsNext(log0, calls, reports0, e);
    reports, log := reports0 + [report], log0 + [e];
  }

  /** The steps of a program, one after the other, up to one that does not come back. */
  method Play(u: Uart, calls: seq<Call>) returns (reports: seq<Report>, ghost log: seq<Entry>)
    requires Books(u, [])
    modifies u, u.rxBuf, u.txBuf
    ensures Books(u, log) && u.timeout == old(u.timeout)
    ensures Records(log, calls, reports) && Finished(calls, reports)
  {
    reports, log := [], [];
    while !Finished(calls, reports)
      invariant Books(u, log) && u.timeout == old(u.timeout)
      invariant Records(log, calls, reports)
      decreases |calls| - |reports|
    {
      reports, log := Step(u, calls, reports, log);
    }
  }

  /** Any client program, on any host stream, with any interleaving of interrupts.  There is one report
      for each call, up to one that does not come back, and it is one the call may get.  What the
      reports say was sent is what the host has, then the hardware FIFO, then the transmit buffer; what
      the calls returned, then the receive buffer, the hardware FIFO and the host's unsent bytes, is the
      host's stream.  And nothing is stranded: bytes to send keep the transmit interrupt on, and the
      receive interrupt is off only while the receive buffer is full. */
  method Session(hostStream: seq<Byte>, fifoDepth: nat, limit: nat, calls: seq<Call>)
    returns (u: Uart, reports: seq<Report>, ghost log: seq<Entry>)
    requires 0 < limit
    ensures u.Quiescent() && Told(log, limit)
    ensures Records(log, calls, reports) && Finished(calls, reports)
    ensures log != [] ==> Ends(log[|log| - 1].m, u)
    ensures u.hostGot + u.txFifo + u.TxRing() == SentBy(log)
    ensures ReceivedBy(log) + u.RxRing() + (u.rxFifo + u.incoming) == hostStream
    ensures u.TxRing() != [] ==> u.control.we
    ensures |u.RxRing()| < BUF_LEN - 1 ==> u.control.re
  {
    u := new Uart(hostStream, fifoDepth, limit);
    reports, log := Play(u, calls);
  }
}
