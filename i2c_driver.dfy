/**
 * lib/soc/stm32l452xx/peripherals/I2C.cpp, the driver objects: the `controllers` table with
 * its master and slave slots, `I2C_base` with its interrupt handlers, `I2C_master` and
 * `I2C_slave` with enable/disable, the polling transfers, callback registration and the
 * dispatcher.
 *
 * The hardware is a finite trace of what successive register reads return; a polling loop's
 * termination, which the source leaves to the bus, is the caller's guarantee that some pass of
 * the trace ends the loop. Write-only registers (CR2 as the driver uses it, TXDR, ICR) are logs
 * of the values written. Callbacks are oracles: their replies are parameters and each call is
 * recorded with its arguments.
 */
module I2cDriver {
  import opened Common
  import opened Bits
  import opened Time
  import opened I2c
  import Wait

  /** The registers of one I2C peripheral that the driver writes. */
  class I2cRegisters {
    var cr1: bv32
    var timingr: bv32
    var oar1: bv32
    var cr2: seq<bv32>
    var txdr: seq<bv8>
    var icr: seq<bv32>

    constructor ()
      ensures cr1 == 0 && timingr == 0 && oar1 == 0 && cr2 == [] && txdr == [] && icr == []
    {
      cr1, timingr, oar1 := 0, 0, 0;
      cr2, txdr, icr := [], [], [];
    }

    /** The registers only `enable` and the transfer setup write. */
    function Setup(): (bv32, bv32, seq<bv32>)
      reads this
    {
      (timingr, oar1, cr2)
    }
  }

  /** One entry of the `controllers` table: the registers and the master or slave bound to them. */
  class Controller {
    const registers: I2cRegisters
    var master: I2cMaster?
    var slave: I2cSlave?

    constructor (regs: I2cRegisters)
      ensures registers == regs && master == null && slave == null
    {
      registers := regs;
      master := null;
      slave := null;
    }

    /** A master and a slave are never bound to the same peripheral at once. */
    predicate Exclusive()
      reads this
    {
      master == null || slave == null
    }
  }

  /** The reply of `I2C_master::Result` / `I2C_slave::Result`: the bus status and the bytes moved. */
  datatype Result = Result(status: BusStatus, words: uint32)

  /** `I2C_master::Config`. */
  datatype MasterConfig = MasterConfig(analogFilter: bool, fastPlus: bool, crcEnable: bool, timings: bv32)

  /** `I2C_slave::Config`: the master's fields and the own address. */
  datatype SlaveConfig = SlaveConfig(analogFilter: bool, fastPlus: bool, crcEnable: bool, timings: bv32, address: bv16)

  /**
   * The reads of one pass of a polling loop, in the order the pass makes them: the stop test of
   * the loop condition (`stop`, and `stopAgain` for the slave transmit loops, which test STOPF
   * twice), the tick counter of the timed loops, the ADDR test of the slave loops, the TXE/RXNE
   * test, RXDR, and the error test. In the slave loops the stop and the slave transmit error
   * reads go to I2C1's ISR whatever the slave's own peripheral is; the model takes every read
   * as a value of its own.
   */
  datatype Poll = Poll(stop: bv32, stopAgain: bv32, counter: Tick, addr: bv32, ready: bv32, rxdr: bv8, error: bv32)

  /**
   * Which polling loop: they differ in their stop test, their error test and their ready flag.
   * `SlaveReceiveStopInIcr` is the slave's timed receive as written, whose stop test reads ICR.
   */
  datatype Transfer = MasterTransmit | MasterReceive | SlaveTransmit | SlaveReceive | SlaveReceiveStopInIcr

  /** A polling loop: which one, whether it has a timeout, and its start tick and timeout. */
  datatype Loop = Loop(transfer: Transfer, timed: bool, start: Tick, timeout: Tick)

  /** The stop test of the loop condition sees the stop. */
  predicate StopSeen(t: Transfer, p: Poll)
  {
    match t
    case SlaveTransmit => IsFlag(p.stop, ISR_STOPF) || IsFlag(p.stopAgain, ISR_STOPF)
    case SlaveReceiveStopInIcr => IsFlag(ICR_READ, ICR_STOPCF)
    case _ => IsFlag(p.stop, ISR_STOPF)
  }

  /** The error test at the end of a pass. */
  predicate ErrorSeen(t: Transfer, p: Poll)
  {
    if t == SlaveTransmit then IsAnyBit(p.error, SLAVE_TX_ERRORS) else IsIsrError(p.error)
  }

  function ReadyFlag(t: Transfer): bv32
  {
    if t == MasterTransmit || t == SlaveTransmit then ISR_TXE else ISR_RXNE
  }

  predicate TimeUp(l: Loop, p: Poll)
  {
    l.timed && l.timeout < Diff(p.counter, l.start)
  }

  /**
   * The loop condition fails at the start of pass `j`: the stop is seen, the previous pass saw
   * an error, or (timed loops) more than `timeout` ticks have gone by.
   */
  predicate Exits(l: Loop, polls: seq<Poll>, j: nat)
    requires j < |polls|
  {
    StopSeen(l.transfer, polls[j]) || (j > 0 && ErrorSeen(l.transfer, polls[j - 1])) || TimeUp(l, polls[j])
  }

  /** Some pass of the trace ends the loop. */
  predicate Ends(l: Loop, polls: seq<Poll>)
  {
    exists j :: 0 <= j < |polls| && Exits(l, polls, j)
  }

  /** Pass `e` is the first that ends the loop. */
  predicate FirstExit(l: Loop, polls: seq<Poll>, e: nat)
  {
    e < |polls| && Exits(l, polls, e) && forall i :: 0 <= i < e ==> !Exits(l, polls, i)
  }

  /** The loop that ended at pass `e` ended on the error its previous pass saw. */
  predicate ExitedOnError(l: Loop, polls: seq<Poll>, e: nat)
    requires e < |polls|
  {
    e > 0 && ErrorSeen(l.transfer, polls[e - 1])
  }

  /** A loop ends at one pass only. */
  lemma FirstExitUnique(l: Loop, polls: seq<Poll>, e1: nat, e2: nat)
    requires FirstExit(l, polls, e1) && FirstExit(l, polls, e2)
    ensures e1 == e2
  {
  }

  /** The number of the first `n` passes whose ready test saw `flag`. */
  function ReadyCount(polls: seq<Poll>, n: nat, flag: bv32): (count: nat)
    requires n <= |polls|
    ensures count <= n
  {
    if n == 0 then 0
    else ReadyCount(polls, n - 1, flag) + (if IsFlag(polls[n - 1].ready, flag) then 1 else 0)
  }

  /** The RXDR values of the first `n` passes whose ready test saw `flag`, in order. */
  function ReadyData(polls: seq<Poll>, n: nat, flag: bv32): seq<bv8>
    requires n <= |polls|
  {
    if n == 0 then []
    else ReadyData(polls, n - 1, flag) + (if IsFlag(polls[n - 1].ready, flag) then [polls[n - 1].rxdr] else [])
  }

  /** There is one received byte per ready pass. */
  lemma {:induction false} ReadyDataLength(polls: seq<Poll>, n: nat, flag: bv32)
    requires n <= |polls|
    ensures |ReadyData(polls, n, flag)| == ReadyCount(polls, n, flag)
  {
    if n > 0 {
      ReadyDataLength(polls, n - 1, flag);
    }
  }

  /** One ADDRCF write for each of the first `n` passes that saw ADDR. */
  function AddrClears(polls: seq<Poll>, n: nat): seq<bv32>
    requires n <= |polls|
  {
    if n == 0 then []
    else AddrClears(polls, n - 1) + (if IsFlag(polls[n - 1].addr, ISR_ADDR) then [ICR_ADDRCF] else [])
  }

  /** The bytes a loop that ended at pass `rounds` moved: one per ready pass before it, at most `size`. */
  function Moved(l: Loop, polls: seq<Poll>, rounds: nat, size: uint32): (n: nat)
    requires rounds <= |polls|
    ensures n <= size as int
  {
    Min(size as int, ReadyCount(polls, rounds, ReadyFlag(l.transfer)))
  }

  /** The status a loop that ended at pass `rounds` reports: decoded from a fresh ISR read after an error exit, `ok` otherwise. */
  function ReportedStatus(l: Loop, polls: seq<Poll>, rounds: nat, statusIsr: bv32): BusStatus
    requires rounds < |polls|
  {
    if ExitedOnError(l, polls, rounds) then BusStatusOf(statusIsr) else BusOk
  }

  /** The error clear written after an error exit. */
  function ErrorClears(l: Loop, polls: seq<Poll>, rounds: nat): seq<bv32>
    requires rounds < |polls|
  {
    if ExitedOnError(l, polls, rounds) then [ICR_ERRORS] else []
  }

  /**
   * A status other than `ok` is reported only after an error exit, and then the six error
   * clears are written; after any other exit the status is `ok` and nothing is cleared.
   */
  lemma ReportedStatusNeedsError(l: Loop, polls: seq<Poll>, rounds: nat, statusIsr: bv32)
    requires rounds < |polls|
    ensures ReportedStatus(l, polls, rounds, statusIsr) != BusOk ==>
      ExitedOnError(l, polls, rounds) && ErrorClears(l, polls, rounds) == [ICR_ERRORS] && IsIsrError(statusIsr)
    ensures !ExitedOnError(l, polls, rounds) ==> ReportedStatus(l, polls, rounds, statusIsr) == BusOk && ErrorClears(l, polls, rounds) == []
  {
    if ReportedStatus(l, polls, rounds, statusIsr) != BusOk {
      BusStatusAndError(statusIsr);
    }
  }

  /** A loop stops on a STOP, on the error of the pass before, or (timed loops only) on the timeout. */
  lemma ExitReason(l: Loop, polls: seq<Poll>, rounds: nat)
    requires FirstExit(l, polls, rounds)
    ensures StopSeen(l.transfer, polls[rounds]) || ExitedOnError(l, polls, rounds) || (l.timed && TimeUp(l, polls[rounds]))
    ensures !ExitedOnError(l, polls, rounds) && !StopSeen(l.transfer, polls[rounds]) ==> l.timed
  {
  }

  /**
   * The slave's timed receive as written never stops on a STOP: its stop test reads ICR, which
   * reads as zero, so only an error or the timeout ends it. A first pass that sees STOPF with
   * no error and time left ends the loop the code evidently intends, but not this one.
   */
  lemma StopInIcrIgnoresStop(polls: seq<Poll>, j: nat, start: Tick, timeout: Tick)
    requires j < |polls|
    ensures Exits(Loop(SlaveReceiveStopInIcr, true, start, timeout), polls, j) <==>
      (j > 0 && IsIsrError(polls[j - 1].error)) || timeout < Diff(polls[j].counter, start)
    ensures IsFlag(polls[j].stop, ISR_STOPF) && j == 0 && timeout >= Diff(polls[0].counter, start) ==>
      !Exits(Loop(SlaveReceiveStopInIcr, true, start, timeout), polls, 0) &&
      Exits(Loop(SlaveReceive, true, start, timeout), polls, 0)
  {
  }

  predicate IsSlave(t: Transfer)
  {
    t == SlaveTransmit || t == SlaveReceive || t == SlaveReceiveStopInIcr
  }

  /** The ADDRCF write of one pass of a slave loop. */
  function PassClears(t: Transfer, p: Poll): seq<bv32>
  {
    if IsSlave(t) && IsFlag(p.addr, ISR_ADDR) then [ICR_ADDRCF] else []
  }

  /** After `rounds` passes the loop is still running: no pass ended it and `error` is the last error test. */
  predicate Running(l: Loop, polls: seq<Poll>, rounds: nat, error: bool)
  {
    rounds < |polls| &&
    (forall i :: 0 <= i < rounds ==> !Exits(l, polls, i)) &&
    error == (rounds > 0 && ErrorSeen(l.transfer, polls[rounds - 1]))
  }

  /** A loop that ends has a first pass. */
  lemma RunningStart(l: Loop, polls: seq<Poll>)
    requires Ends(l, polls)
    ensures Running(l, polls, 0, false)
  {
  }

  /** A pass that does not end a loop which ends is followed by another. */
  lemma RunningStep(l: Loop, polls: seq<Poll>, rounds: nat, error: bool)
    requires Ends(l, polls)
    requires Running(l, polls, rounds, error) && !Exits(l, polls, rounds)
    ensures Running(l, polls, rounds + 1, ErrorSeen(l.transfer, polls[rounds]))
  {
    var e :| 0 <= e < |polls| && Exits(l, polls, e);
    assert e > rounds;
  }

  /** A pass moves one more byte exactly when its ready test saw the flag and `size` is not reached. */
  lemma MovedStep(l: Loop, polls: seq<Poll>, rounds: nat, size: uint32)
    requires rounds < |polls|
    ensures Moved(l, polls, rounds, size) <= ReadyCount(polls, rounds, ReadyFlag(l.transfer))
    ensures Moved(l, polls, rounds + 1, size) ==
      if IsFlag(polls[rounds].ready, ReadyFlag(l.transfer)) && Moved(l, polls, rounds, size) < size as int
      then Moved(l, polls, rounds, size) + 1 else Moved(l, polls, rounds, size)
  {
  }

  /** The clears of one more pass of a slave loop. */
  lemma ClearsStep(l: Loop, polls: seq<Poll>, rounds: nat)
    requires rounds < |polls|
    ensures (if IsSlave(l.transfer) then AddrClears(polls, rounds + 1) else []) ==
      (if IsSlave(l.transfer) then AddrClears(polls, rounds) else []) + PassClears(l.transfer, polls[rounds])
  {
  }

  /**
   * What a transmit loop has done after `rounds` passes: `words` bytes moved, and `sent` and
   * `clears` are what reached TXDR and ICR.
   */
  predicate TransmitProgress(l: Loop, polls: seq<Poll>, data: seq<bv8>, size: uint32, rounds: nat,
                             words: uint32, sent: seq<bv8>, clears: seq<bv32>)
  {
    rounds <= |polls| && size as int <= |data| &&
    words as int == Moved(l, polls, rounds, size) &&
    sent == data[..words] &&
    clears == (if IsSlave(l.transfer) then AddrClears(polls, rounds) else [])
  }

  lemma TransmitStep(l: Loop, polls: seq<Poll>, data: seq<bv8>, size: uint32, rounds: nat,
                     words: uint32, sent: seq<bv8>, clears: seq<bv32>)
    requires l.transfer == MasterTransmit || l.transfer == SlaveTransmit
    requires rounds < |polls|
    requires TransmitProgress(l, polls, data, size, rounds, words, sent, clears)
    ensures var words' := if IsFlag(polls[rounds].ready, ISR_TXE) && words < size then words + 1 else words;
      TransmitProgress(l, polls, data, size, rounds + 1, words',
                       sent + data[words..words'], clears + PassClears(l.transfer, polls[rounds]))
  {
    MovedStep(l, polls, rounds, size);
    ClearsStep(l, polls, rounds);
    var words' := if IsFlag(polls[rounds].ready, ISR_TXE) && words < size then words + 1 else words;
    PrefixSplit(data, words as nat, words' as nat);
  }

  /** One pass of a transmit loop that the loop condition let through keeps both invariants. */
  lemma TransmitIteration(l: Loop, polls: seq<Poll>, data: seq<bv8>, size: uint32, rounds: nat,
                          words: uint32, error: bool, sent: seq<bv8>, clears: seq<bv32>,
                          words': uint32, error': bool, sent': seq<bv8>, clears': seq<bv32>)
    requires l.transfer == MasterTransmit || l.transfer == SlaveTransmit
    requires Ends(l, polls)
    requires Running(l, polls, rounds, error) && !Exits(l, polls, rounds)
    requires TransmitProgress(l, polls, data, size, rounds, words, sent, clears)
    requires words' == if IsFlag(polls[rounds].ready, ISR_TXE) && words < size then words + 1 else words
    requires error' == ErrorSeen(l.transfer, polls[rounds])
    requires sent' == sent + data[words..words'] && clears' == clears + PassClears(l.transfer, polls[rounds])
    ensures Running(l, polls, rounds + 1, error')
    ensures TransmitProgress(l, polls, data, size, rounds + 1, words', sent', clears')
  {
    RunningStep(l, polls, rounds, error);
    TransmitStep(l, polls, data, size, rounds, words, sent, clears);
  }

  /**
   * What a receive loop has done after `rounds` passes: `received` (the stored prefix of the
   * buffer) is the first `words` RXDR values of the ready passes, and `clears` is what reached
   * ICR.
   */
  predicate ReceiveProgress(l: Loop, polls: seq<Poll>, size: uint32, rounds: nat,
                            words: uint32, received: seq<bv8>, clears: seq<bv32>)
  {
    rounds <= |polls| && ReadyFlag(l.transfer) == ISR_RXNE &&
    words as int == Moved(l, polls, rounds, size) &&
    words as int <= |ReadyData(polls, rounds, ISR_RXNE)| &&
    received == ReadyData(polls, rounds, ISR_RXNE)[..words] &&
    clears == (if IsSlave(l.transfer) then AddrClears(polls, rounds) else [])
  }

  lemma ReceiveStart(l: Loop, polls: seq<Poll>, size: uint32)
    requires l.transfer == MasterReceive || l.transfer == SlaveReceive || l.transfer == SlaveReceiveStopInIcr
    ensures ReceiveProgress(l, polls, size, 0, 0, [], [])
  {
  }

  lemma ReceiveStep(l: Loop, polls: seq<Poll>, size: uint32, rounds: nat,
                    words: uint32, received: seq<bv8>, clears: seq<bv32>)
    requires rounds < |polls|
    requires ReceiveProgress(l, polls, size, rounds, words, received, clears)
    ensures var words' := if IsFlag(polls[rounds].ready, ISR_RXNE) && words < size then words + 1 else words;
      ReceiveProgress(l, polls, size, rounds + 1, words',
                      received + (if words' > words then [polls[rounds].rxdr] else []),
                      clears + PassClears(l.transfer, polls[rounds]))
  {
    MovedStep(l, polls, rounds, size);
    ClearsStep(l, polls, rounds);
    ReadyDataLength(polls, rounds, ISR_RXNE);
    ReadyDataLength(polls, rounds + 1, ISR_RXNE);
    var words' := if IsFlag(polls[rounds].ready, ISR_RXNE) && words < size then words + 1 else words;
    var all := ReadyData(polls, rounds, ISR_RXNE);
    var ext := if IsFlag(polls[rounds].ready, ISR_RXNE) then [polls[rounds].rxdr] else [];
    assert ReadyData(polls, rounds + 1, ISR_RXNE) == all + ext;
    if words' > words {
      assert words as int == |all| && ext == [polls[rounds].rxdr];
      assert all[..words] == all;
    } else {
      PrefixOfAppend(all, ext, words as nat);
    }
  }

  /** One pass of a receive loop that the loop condition let through keeps both invariants. */
  lemma ReceiveIteration(l: Loop, polls: seq<Poll>, size: uint32, rounds: nat,
                         words: uint32, error: bool, received: seq<bv8>, clears: seq<bv32>,
                         words': uint32, error': bool, received': seq<bv8>, clears': seq<bv32>)
    requires Ends(l, polls)
    requires Running(l, polls, rounds, error) && !Exits(l, polls, rounds)
    requires ReceiveProgress(l, polls, size, rounds, words, received, clears)
    requires words' == if IsFlag(polls[rounds].ready, ISR_RXNE) && words < size then words + 1 else words
    requires error' == ErrorSeen(l.transfer, polls[rounds])
    requires received' == received + (if words' > words then [polls[rounds].rxdr] else [])
    requires clears' == clears + PassClears(l.transfer, polls[rounds])
    ensures Running(l, polls, rounds + 1, error')
    ensures ReceiveProgress(l, polls, size, rounds + 1, words', received', clears')
  {
    RunningStep(l, polls, rounds, error);
    ReceiveStep(l, polls, size, rounds, words, received, clears);
  }

  /** `I2C_base`: the peripheral id, the registers once enabled, the three callbacks, and the calls made. */
  class I2cBase {
    const id: Id
    /** `p_i2c`. */
    var registers: I2cRegisters?
    var txCallback: Option<Callback>
    var rxCallback: Option<Callback>
    var busStatusCallback: Option<Callback>
    var calls: seq<Call>

    constructor (i: Id)
      ensures id == i && registers == null
      ensures txCallback == None && rxCallback == None && busStatusCallback == None && calls == []
    {
      id := i;
      registers := null;
      txCallback, rxCallback, busStatusCallback := None, None, None;
      calls := [];
    }

    function Snapshot(): Port
      reads this, registers
      requires registers != null
    {
      Port(registers.cr1, registers.txdr, registers.icr, txCallback, rxCallback, busStatusCallback, calls)
    }

    /** `is_enabled()`: PE of the table's registers for this id. */
    predicate IsEnabled(controllers: seq<Controller>)
      requires TableIndex(id) < |controllers|
      reads controllers[TableIndex(id)].registers
    {
      IsFlag(controllers[TableIndex(id)].registers.cr1, CR1_PE)
    }

    /** `bus_status_interrupt_handler(isr)`; `clear` is what the bus-status callback returns. */
    method BusStatusInterrupt(isr: bv32, clear: bool)
      requires registers != null
      modifies this`calls, registers`icr
      ensures Snapshot() == BusStatusStep(old(Snapshot()), isr, clear)
      ensures registers.Setup() == old(registers.Setup())
    {
      if busStatusCallback.Some? {
        var status := BusStatusOf(isr);
        if status != BusOk {
          calls := calls + [BusStatusCall(busStatusCallback.value, status)];
          if clear {
            registers.icr := registers.icr + [ICR_ERRORS];
          }
        }
      }
    }

    /** `rxne_interrupt_handler(isr, cr1)`; `rxdr` is what RXDR returns. */
    method RxneInterrupt(isr: bv32, cr1: bv32, rxdr: bv8)
      requires registers != null
      requires RxneEvent(isr, cr1) ==> rxCallback.Some?
      modifies this`calls
      ensures Snapshot() == RxneStep(old(Snapshot()), isr, cr1, rxdr)
    {
      if IsFlag(isr, ISR_RXNE) && IsFlag(cr1, CR1_RXIE) {
        calls := calls + [RxCall(rxCallback.value, rxdr, false)];
      }
    }

    /** `txe_interrupt_handler(isr, cr1)`; `written` is the byte the callback stores through the TXDR pointer, if any. */
    method TxeInterrupt(isr: bv32, cr1: bv32, written: Option<bv8>)
      requires registers != null
      requires TxeEvent(isr, cr1) ==> txCallback.Some?
      modifies this`calls, registers`txdr
      ensures Snapshot() == TxeStep(old(Snapshot()), isr, cr1, written)
      ensures registers.Setup() == old(registers.Setup())
    {
      if IsFlag(isr, ISR_TXE) && IsFlag(cr1, CR1_TXIE) {
        calls := calls + [TxCall(txCallback.value, false)];
        if written.Some? {
          registers.txdr := registers.txdr + [written.value];
        }
      }
    }

    /** `stopf_interrupt_handler(isr, cr1)`. */
    method StopfInterrupt(isr: bv32, cr1: bv32)
      requires registers != null
      modifies this`txCallback, this`rxCallback, this`calls, registers`cr1, registers`icr
      ensures Snapshot() == StopfStep(old(Snapshot()), isr, cr1)
      ensures registers.Setup() == old(registers.Setup())
    {
      if IsFlag(isr, ISR_STOPF) && IsFlag(cr1, CR1_STOPIE) {
        StopTransmitter();
        StopReceiver();
        registers.icr := registers.icr + [ICR_STOPCF];
      }
    }

    /** The TX half of the STOP handler. */
    method StopTransmitter()
      requires registers != null
      modifies this`txCallback, this`calls, registers`cr1
      ensures Snapshot() == TxTeardown(old(Snapshot()))
    {
      if txCallback.Some? {
        calls := calls + [TxCall(txCallback.value, true)];
        registers.cr1 := ClearFlag(registers.cr1, CR1_TXIE | CR1_STOPIE | CR1_ADDRIE);
        txCallback := None;
      }
    }

    /** The RX half of the STOP handler. */
    method StopReceiver()
      requires registers != null
      modifies this`rxCallback, this`calls, registers`cr1
      ensures Snapshot() == RxTeardown(old(Snapshot()))
    {
      if rxCallback.Some? {
        calls := calls + [RxCall(rxCallback.value, 0, true)];
        registers.cr1 := ClearFlag(registers.cr1, CR1_RXIE | CR1_STOPIE | CR1_ADDRIE);
        rxCallback := None;
      }
    }

    /**
     * The loop of the transmit polling functions, master and slave, timed and untimed: each pass
     * (the slave's first writes ADDRCF when ADDR is up) writes the next byte to TXDR when TXE is
     * up and bytes remain, then takes the error test. It ends at the first pass whose loop
     * condition fails.
     */
    method TransmitLoop(l: Loop, polls: seq<Poll>, data: seq<bv8>, size: uint32) returns (words: uint32, error: bool, rounds: nat)
      requires registers != null
      requires l.transfer == MasterTransmit || l.transfer == SlaveTransmit
      requires size as int <= |data|
      requires Ends(l, polls)
      modifies registers`txdr, registers`icr
      ensures FirstExit(l, polls, rounds)
      ensures error == ExitedOnError(l, polls, rounds)
      ensures words as int == Moved(l, polls, rounds, size)
      ensures registers.txdr == old(registers.txdr) + data[..words]
      ensures registers.icr == old(registers.icr) + (if l.transfer == SlaveTransmit then AddrClears(polls, rounds) else [])
    {
      words, error, rounds := 0, false, 0;
      ghost var txdr0, icr0 := registers.txdr, registers.icr;
      ghost var sent: seq<bv8>, clears: seq<bv32> := [], [];
      RunningStart(l, polls);
      while !StopSeen(l.transfer, polls[rounds]) && !error && !TimeUp(l, polls[rounds])
        invariant TransmitState(l, polls, data, size, rounds, words, error, sent, clears, txdr0, icr0)
        decreases |polls| - rounds
      {
        words, error, rounds, sent, clears := TransmitPass(l, polls, data, size, rounds, words, error, sent, clears, txdr0, icr0);
      }
    }

    /** The loop state of a transmit: running, and what was written to TXDR and ICR so far. */
    ghost predicate TransmitState(l: Loop, polls: seq<Poll>, data: seq<bv8>, size: uint32, rounds: nat, words: uint32, error: bool,
                                  sent: seq<bv8>, clears: seq<bv32>, txdr0: seq<bv8>, icr0: seq<bv32>)
      reads this, registers
    {
      registers != null &&
      Running(l, polls, rounds, error) &&
      TransmitProgress(l, polls, data, size, rounds, words, sent, clears) &&
      registers.txdr == txdr0 + sent &&
      registers.icr == icr0 + clears
    }

    /** One pass of the transmit loop: ADDRCF for the slave when ADDR is up, the next byte when TXE is up and bytes remain, then the error test. */
    method TransmitPass(l: Loop, polls: seq<Poll>, data: seq<bv8>, size: uint32, rounds: nat, words: uint32, error: bool,
                        ghost sent: seq<bv8>, ghost clears: seq<bv32>, ghost txdr0: seq<bv8>, ghost icr0: seq<bv32>)
      returns (words': uint32, error': bool, rounds': nat, ghost sent': seq<bv8>, ghost clears': seq<bv32>)
      requires l.transfer == MasterTransmit || l.transfer == SlaveTransmit
      requires Ends(l, polls)
      requires TransmitState(l, polls, data, size, rounds, words, error, sent, clears, txdr0, icr0)
      requires !StopSeen(l.transfer, polls[rounds]) && !error && !TimeUp(l, polls[rounds])
      modifies registers`txdr, registers`icr
      ensures TransmitState(l, polls, data, size, rounds', words', error', sent', clears', txdr0, icr0)
      ensures rounds' == rounds + 1
    {
      var p := polls[rounds];
      ClearAddr(l.transfer, p);
      words' := SendNext(p, data, size, words);
      error' := ErrorSeen(l.transfer, p);
      rounds' := rounds + 1;
      sent', clears' := sent + data[words..words'], clears + PassClears(l.transfer, p);
      AppendAssoc(txdr0, sent, data[words..words']);
      AppendAssoc(icr0, clears, PassClears(l.transfer, p));
      TransmitIteration(l, polls, data, size, rounds, words, error, sent, clears, words', error', sent', clears');
    }

    /**
     * The loop of the receive polling functions: each pass (the slave's first writes ADDRCF when
     * ADDR is up) reads RXDR when RXNE is up and stores the byte while room remains, then takes
     * the error test. The master reads RXDR only while room remains, the slave on every RXNE;
     * the stored bytes are the same.
     */
    method ReceiveLoop(l: Loop, polls: seq<Poll>, buffer: array<bv8>, size: uint32) returns (words: uint32, error: bool, rounds: nat)
      requires registers != null
      requires l.transfer == MasterReceive || l.transfer == SlaveReceive || l.transfer == SlaveReceiveStopInIcr
      requires size as int <= buffer.Length
      requires Ends(l, polls)
      modifies registers`icr, buffer
      ensures FirstExit(l, polls, rounds)
      ensures error == ExitedOnError(l, polls, rounds)
      ensures words as int == Moved(l, polls, rounds, size)
      ensures words as int <= |ReadyData(polls, rounds, ISR_RXNE)|
      ensures buffer[..words] == ReadyData(polls, rounds, ISR_RXNE)[..words]
      ensures forall k :: words as int <= k < buffer.Length ==> buffer[k] == old(buffer[k])
      ensures registers.icr == old(registers.icr) + (if l.transfer != MasterReceive then AddrClears(polls, rounds) else [])
    {
      words, error, rounds := 0, false, 0;
      ghost var original, icr0 := buffer[..], registers.icr;
      ghost var received: seq<bv8>, clears: seq<bv32> := [], [];
      ReceiveStart(l, polls, size);
      RunningStart(l, polls);
      while !StopSeen(l.transfer, polls[rounds]) && !error && !TimeUp(l, polls[rounds])
        invariant ReceiveState(l, polls, buffer, size, rounds, words, error, received, clears, original, icr0)
        decreases |polls| - rounds
      {
        words, error, rounds, received, clears := ReceivePass(l, polls, buffer, size, rounds, words, error, received, clears, original, icr0);
      }
    }

    /** The loop state of a receive: running, what was received and cleared, and the rest of the buffer untouched. */
    ghost predicate ReceiveState(l: Loop, polls: seq<Poll>, buffer: array<bv8>, size: uint32, rounds: nat, words: uint32, error: bool,
                                 received: seq<bv8>, clears: seq<bv32>, original: seq<bv8>, icr0: seq<bv32>)
      reads this, registers, buffer
    {
      registers != null && words <= size && size as int <= buffer.Length && |original| == buffer.Length &&
      Running(l, polls, rounds, error) &&
      ReceiveProgress(l, polls, size, rounds, words, received, clears) &&
      buffer[..words] == received &&
      (forall k :: words as int <= k < buffer.Length ==> buffer[k] == original[k]) &&
      registers.icr == icr0 + clears
    }

    /**
     * One pass of the receive loop: ADDRCF for the slave when ADDR is up, RXDR stored at `words`
     * when RXNE is up and room remains, then the error test.
     */
    method ReceivePass(l: Loop, polls: seq<Poll>, buffer: array<bv8>, size: uint32, rounds: nat, words: uint32, error: bool,
                       ghost received: seq<bv8>, ghost clears: seq<bv32>, ghost original: seq<bv8>, ghost icr0: seq<bv32>)
      returns (words': uint32, error': bool, rounds': nat, ghost received': seq<bv8>, ghost clears': seq<bv32>)
      requires l.transfer == MasterReceive || l.transfer == SlaveReceive || l.transfer == SlaveReceiveStopInIcr
      requires Ends(l, polls)
      requires ReceiveState(l, polls, buffer, size, rounds, words, error, received, clears, original, icr0)
      requires !StopSeen(l.transfer, polls[rounds]) && !error && !TimeUp(l, polls[rounds])
      modifies registers`icr, buffer
      ensures ReceiveState(l, polls, buffer, size, rounds', words', error', received', clears', original, icr0)
      ensures rounds' == rounds + 1
    {
      var p := polls[rounds];
      ClearAddr(l.transfer, p);
      words' := words;
      if IsFlag(p.ready, ISR_RXNE) && words < size {
        ghost var before := buffer[..];
        buffer[words] := p.rxdr;
        words' := words + 1;
        StoreAt(before, buffer[..], words as nat, p.rxdr);
      }
      error' := ErrorSeen(l.transfer, p);
      rounds' := rounds + 1;
      received' := received + (if words' > words then [p.rxdr] else []);
      clears' := clears + PassClears(l.transfer, p);
      AppendAssoc(icr0, clears, PassClears(l.transfer, p));
      ReceiveIteration(l, polls, size, rounds, words, error, received, clears, words', error', received', clears');
    }

    /** The second step of a transmit pass: the next byte goes to TXDR when TXE is up and bytes remain. */
    method SendNext(p: Poll, data: seq<bv8>, size: uint32, words: uint32) returns (words': uint32)
      requires registers != null
      requires words <= size && size as int <= |data|
      modifies registers`txdr
      ensures words' == if IsFlag(p.ready, ISR_TXE) && words < size then words + 1 else words
      ensures registers.txdr == old(registers.txdr) + data[words..words']
    {
      words' := words;
      if IsFlag(p.ready, ISR_TXE) && words < size {
        registers.txdr := registers.txdr + [data[words]];
        words' := words + 1;
      }
    }

    /** The first step of a slave pass: ADDRCF when ADDR is up. */
    method ClearAddr(t: Transfer, p: Poll)
      requires registers != null
      modifies registers`icr
      ensures registers.icr == old(registers.icr) + PassClears(t, p)
    {
      if IsSlave(t) && IsFlag(p.addr, ISR_ADDR) {
        registers.icr := registers.icr + [ICR_ADDRCF];
      }
    }

    /** The end of every polling transfer: after an error exit, decode a fresh ISR read and clear the errors; then STOPCF. */
    method FinishTransfer(error: bool, statusIsr: bv32) returns (status: BusStatus)
      requires registers != null
      modifies registers
      ensures status == if error then BusStatusOf(statusIsr) else BusOk
      ensures registers.icr == old(registers.icr) + (if error then [ICR_ERRORS] else []) + [ICR_STOPCF]
      ensures registers.txdr == old(registers.txdr)
      ensures registers.cr1 == old(registers.cr1) && registers.Setup() == old(registers.Setup())
    {
      status := BusOk;
      if error {
        status := BusStatusOf(statusIsr);
        registers.icr := registers.icr + [ICR_ERRORS];
      }
      registers.icr := registers.icr + [ICR_STOPCF];
    }
  }

  /** The table entry of an id, when the table has one. */
  predicate InTable(controllers: seq<Controller>, id: Id)
  {
    TableIndex(id) < |controllers|
  }

  /** `I2C_master`. */
  class I2cMaster {
    const base: I2cBase

    constructor (id: Id)
      ensures fresh(base) && base.id == id && base.registers == null
      ensures base.txCallback == None && base.rxCallback == None && base.busStatusCallback == None && base.calls == []
    {
      base := new I2cBase(id);
    }

    /** The driver holds the registers and the table's master slot is bound. */
    predicate Bound(controllers: seq<Controller>)
      reads this, base, if InTable(controllers, base.id) then {controllers[TableIndex(base.id)]} else {}
    {
      base.registers != null && InTable(controllers, base.id) && controllers[TableIndex(base.id)].master != null
    }

    /** `i2c_master_interrupt_handler(this)`: ISR (`isr`) and CR1 are read once, then the four handlers run. */
    method HandleInterrupt(isr: bv32, clear: bool, rxdr: bv8, written: Option<bv8>)
      requires base.registers != null
      requires Callable(base.Snapshot(), isr)
      modifies base`txCallback, base`rxCallback, base`calls, base.registers`cr1, base.registers`txdr, base.registers`icr
      ensures base.Snapshot() == MasterStep(old(base.Snapshot()), isr, clear, rxdr, written)
      ensures base.registers.Setup() == old(base.registers.Setup())
      ensures Armed(old(base.Snapshot())) ==> Armed(base.Snapshot())
    {
      ghost var before := base.Snapshot();
      if Armed(before) {
        MasterStepKeepsArmed(before, isr, clear, rxdr, written);
      }
      var cr1 := base.registers.cr1;
      base.BusStatusInterrupt(isr, clear);
      base.RxneInterrupt(isr, cr1, rxdr);
      base.TxeInterrupt(isr, cr1, written);
      base.StopfInterrupt(isr, cr1);
    }

    /**
     * `enable(config, clock_source, irq_priority)`: needs the peripheral off and both slots of its
     * table entry empty; binds the master, takes the registers, clears CR1, writes TIMINGR and
     * then CR1.
     */
    method Enable(controllers: seq<Controller>, config: MasterConfig)
      requires InTable(controllers, base.id)
      requires !base.IsEnabled(controllers)
      requires controllers[TableIndex(base.id)].master == null && controllers[TableIndex(base.id)].slave == null
      modifies base`registers, controllers[TableIndex(base.id)], controllers[TableIndex(base.id)].registers
      ensures controllers[TableIndex(base.id)].master == this && controllers[TableIndex(base.id)].slave == null
      ensures controllers[TableIndex(base.id)].Exclusive()
      ensures base.registers == controllers[TableIndex(base.id)].registers
      ensures base.registers.cr1 == EnabledCr1(config.analogFilter, config.crcEnable)
      ensures base.registers.timingr == config.timings
      ensures base.registers.oar1 == old(controllers[TableIndex(base.id)].registers.oar1)
      ensures base.registers.cr2 == old(controllers[TableIndex(base.id)].registers.cr2)
      ensures base.registers.txdr == old(controllers[TableIndex(base.id)].registers.txdr)
      ensures base.registers.icr == old(controllers[TableIndex(base.id)].registers.icr)
      ensures Armed(base.Snapshot())
    {
      var entry := controllers[TableIndex(base.id)];
      entry.master := this;
      base.registers := entry.registers;
      base.registers.cr1 := 0;
      base.registers.timingr := config.timings;
      base.registers.cr1 := EnabledCr1(config.analogFilter, config.crcEnable);
      EnabledCr1Bits(config.analogFilter, config.crcEnable);
    }

    /** `diasble()`: clears CR1, unbinds the master and drops the registers. */
    method Disable(controllers: seq<Controller>)
      requires Bound(controllers)
      modifies base`registers, base.registers, controllers[TableIndex(base.id)]
      ensures old(base.registers).cr1 == 0
      ensures old(base.registers).Setup() == old(base.registers.Setup())
      ensures old(base.registers).txdr == old(base.registers.txdr) && old(base.registers).icr == old(base.registers.icr)
      ensures controllers[TableIndex(base.id)].master == null
      ensures controllers[TableIndex(base.id)].slave == old(controllers[TableIndex(base.id)].slave)
      ensures base.registers == null
    {
      base.registers.cr1 := 0;
      controllers[TableIndex(base.id)].master := null;
      base.registers := null;
    }

    /**
     * `transmit_bytes_polling(address, data, size)`: programs CR2 for a write of `size` bytes
     * (the count masked with NBYTES_Msk), runs the transmit loop, finishes the transfer and zeroes
     * CR2. `statusIsr` is the ISR read after an error exit.
     */
    method TransmitBytesPolling(controllers: seq<Controller>, address: bv16, data: seq<bv8>, size: uint32,
                                polls: seq<Poll>, statusIsr: bv32) returns (result: Result, rounds: nat)
      requires Bound(controllers)
      requires 0 < size <= 255 && size as int <= |data|
      requires Ends(Loop(MasterTransmit, false, 0, 0), polls)
      modifies base.registers
      ensures var l := Loop(MasterTransmit, false, 0, 0);
        FirstExit(l, polls, rounds) &&
        result.words as int == Moved(l, polls, rounds, size) &&
        result.status == ReportedStatus(l, polls, rounds, statusIsr) &&
        base.registers.icr == old(base.registers.icr) + ErrorClears(l, polls, rounds) + [ICR_STOPCF]
      ensures base.registers.txdr == old(base.registers.txdr) + data[..result.words]
      ensures base.registers.cr2 == old(base.registers.cr2) + [TransferCr2(address, size as bv32, false), 0]
      ensures base.registers.cr1 == old(base.registers.cr1)
      ensures base.registers.timingr == old(base.registers.timingr) && base.registers.oar1 == old(base.registers.oar1)
    {
      var l := Loop(MasterTransmit, false, 0, 0);
      MaskedTransferCr2Agrees(address, size);
      base.registers.cr2 := base.registers.cr2 + [MaskedTransferCr2(address, size as bv32)];
      var words, error;
      words, error, rounds := base.TransmitLoop(l, polls, data, size);
      var status := base.FinishTransfer(error, statusIsr);
      base.registers.cr2 := base.registers.cr2 + [0];
      result := Result(status, words);
    }

    /** `transmit_bytes_polling(address, data, size, timeout)`: the same, with `start` the tick read on entry. */
    method TransmitBytesPollingTimed(controllers: seq<Controller>, address: bv16, data: seq<bv8>, size: uint32,
                                     timeout: Tick, start: Tick, polls: seq<Poll>, statusIsr: bv32) returns (result: Result, rounds: nat)
      requires Bound(controllers)
      requires 0 < size <= 255 && size as int <= |data|
      requires timeout > 0
      requires Ends(Loop(MasterTransmit, true, start, timeout), polls)
      modifies base.registers
      ensures var l := Loop(MasterTransmit, true, start, timeout);
        FirstExit(l, polls, rounds) &&
        result.words as int == Moved(l, polls, rounds, size) &&
        result.status == ReportedStatus(l, polls, rounds, statusIsr) &&
        base.registers.icr == old(base.registers.icr) + ErrorClears(l, polls, rounds) + [ICR_STOPCF]
      ensures base.registers.txdr == old(base.registers.txdr) + data[..result.words]
      ensures base.registers.cr2 == old(base.registers.cr2) + [TransferCr2(address, size as bv32, false), 0]
      ensures base.registers.cr1 == old(base.registers.cr1)
      ensures base.registers.timingr == old(base.registers.timingr) && base.registers.oar1 == old(base.registers.oar1)
    {
      var l := Loop(MasterTransmit, true, start, timeout);
      base.registers.cr2 := base.registers.cr2 + [TransferCr2(address, size as bv32, false)];
      var words, error;
      words, error, rounds := base.TransmitLoop(l, polls, data, size);
      var status := base.FinishTransfer(error, statusIsr);
      base.registers.cr2 := base.registers.cr2 + [0];
      result := Result(status, words);
    }

    /** `receive_bytes_polling(address, data, size)`: programs CR2 for a read, runs the receive loop, finishes and zeroes CR2. */
    method ReceiveBytesPolling(controllers: seq<Controller>, address: bv16, buffer: array<bv8>, size: uint32,
                               polls: seq<Poll>, statusIsr: bv32) returns (result: Result, rounds: nat)
      requires Bound(controllers)
      requires 0 < size <= 255 && size as int <= buffer.Length
      requires Ends(Loop(MasterReceive, false, 0, 0), polls)
      modifies base.registers, buffer
      ensures var l := Loop(MasterReceive, false, 0, 0);
        FirstExit(l, polls, rounds) &&
        result.words as int == Moved(l, polls, rounds, size) &&
        result.status == ReportedStatus(l, polls, rounds, statusIsr) &&
        base.registers.icr == old(base.registers.icr) + ErrorClears(l, polls, rounds) + [ICR_STOPCF]
      ensures result.words as int <= |ReadyData(polls, rounds, ISR_RXNE)|
      ensures buffer[..result.words] == ReadyData(polls, rounds, ISR_RXNE)[..result.words]
      ensures forall k :: result.words as int <= k < buffer.Length ==> buffer[k] == old(buffer[k])
      ensures base.registers.txdr == old(base.registers.txdr)
      ensures base.registers.cr2 == old(base.registers.cr2) + [TransferCr2(address, size as bv32, true), 0]
      ensures base.registers.cr1 == old(base.registers.cr1)
      ensures base.registers.timingr == old(base.registers.timingr) && base.registers.oar1 == old(base.registers.oar1)
    {
      var l := Loop(MasterReceive, false, 0, 0);
      base.registers.cr2 := base.registers.cr2 + [TransferCr2(address, size as bv32, true)];
      var words, error;
      words, error, rounds := base.ReceiveLoop(l, polls, buffer, size);
      var status := base.FinishTransfer(error, statusIsr);
      base.registers.cr2 := base.registers.cr2 + [0];
      result := Result(status, words);
    }

    /** `receive_bytes_polling(address, data, size, timeout)`. */
    method ReceiveBytesPollingTimed(controllers: seq<Controller>, address: bv16, buffer: array<bv8>, size: uint32,
                                    timeout: Tick, start: Tick, polls: seq<Poll>, statusIsr: bv32) returns (result: Result, rounds: nat)
      requires Bound(controllers)
      requires 0 < size <= 255 && size as int <= buffer.Length
      requires timeout > 0
      requires Ends(Loop(MasterReceive, true, start, timeout), polls)
      modifies base.registers, buffer
      ensures var l := Loop(MasterReceive, true, start, timeout);
        FirstExit(l, polls, rounds) &&
        result.words as int == Moved(l, polls, rounds, size) &&
        result.status == ReportedStatus(l, polls, rounds, statusIsr) &&
        base.registers.icr == old(base.registers.icr) + ErrorClears(l, polls, rounds) + [ICR_STOPCF]
      ensures result.words as int <= |ReadyData(polls, rounds, ISR_RXNE)|
      ensures buffer[..result.words] == ReadyData(polls, rounds, ISR_RXNE)[..result.words]
      ensures forall k :: result.words as int <= k < buffer.Length ==> buffer[k] == old(buffer[k])
      ensures base.registers.txdr == old(base.registers.txdr)
      ensures base.registers.cr2 == old(base.registers.cr2) + [TransferCr2(address, size as bv32, true), 0]
      ensures base.registers.cr1 == old(base.registers.cr1)
      ensures base.registers.timingr == old(base.registers.timingr) && base.registers.oar1 == old(base.registers.oar1)
    {
      var l := Loop(MasterReceive, true, start, timeout);
      base.registers.cr2 := base.registers.cr2 + [TransferCr2(address, size as bv32, true)];
      var words, error;
      words, error, rounds := base.ReceiveLoop(l, polls, buffer, size);
      var status := base.FinishTransfer(error, statusIsr);
      base.registers.cr2 := base.registers.cr2 + [0];
      result := Result(status, words);
    }

    /**
     * `register_transmit_callback(address, callback, size)`: drops the RX callback, sets the TX
     * callback, programs CR2 for a write and enables TXIE and STOPIE. RXIE is left as it was
     * (see `RegistrationSwitchBreaksArmed`).
     */
    method RegisterTransmitCallback(controllers: seq<Controller>, address: bv16, callback: Callback, size: uint32)
      requires Bound(controllers)
      requires 0 < size <= 255
      modifies base`txCallback, base`rxCallback, base.registers
      ensures base.rxCallback == None && base.txCallback == Some(callback)
      ensures base.busStatusCallback == old(base.busStatusCallback) && base.calls == old(base.calls)
      ensures base.registers.cr2 == old(base.registers.cr2) + [TransferCr2(address, size as bv32, false)]
      ensures base.registers.cr1 == SetFlag(old(base.registers.cr1), CR1_TXIE | CR1_STOPIE)
      ensures base.registers.txdr == old(base.registers.txdr) && base.registers.icr == old(base.registers.icr)
      ensures base.registers.timingr == old(base.registers.timingr) && base.registers.oar1 == old(base.registers.oar1)
      ensures base.Snapshot() == RegisterTransmit(old(base.Snapshot()), callback, CR1_TXIE | CR1_STOPIE)
    {
      base.rxCallback := None;
      base.txCallback := Some(callback);
      base.registers.cr2 := base.registers.cr2 + [TransferCr2(address, size as bv32, false)];
      base.registers.cr1 := SetFlag(base.registers.cr1, CR1_TXIE | CR1_STOPIE);
    }

    /** `register_transmit_callback` as evidently intended: RXIE is cleared with the RX callback, so the port is armed. */
    method RegisterTransmitCallbackCorrected(controllers: seq<Controller>, address: bv16, callback: Callback, size: uint32)
      requires Bound(controllers)
      requires 0 < size <= 255
      modifies base`txCallback, base`rxCallback, base.registers
      ensures base.Snapshot() == RegisterTransmitCorrected(old(base.Snapshot()), callback, CR1_TXIE | CR1_STOPIE)
      ensures Armed(base.Snapshot())
      ensures base.registers.cr2 == old(base.registers.cr2) + [TransferCr2(address, size as bv32, false)]
      ensures base.registers.timingr == old(base.registers.timingr) && base.registers.oar1 == old(base.registers.oar1)
    {
      RegisterTransmitCorrectedArms(base.Snapshot(), callback, CR1_TXIE | CR1_STOPIE);
      base.rxCallback := None;
      base.txCallback := Some(callback);
      base.registers.cr2 := base.registers.cr2 + [TransferCr2(address, size as bv32, false)];
      base.registers.cr1 := SetFlag(ClearFlag(base.registers.cr1, CR1_RXIE), CR1_TXIE | CR1_STOPIE);
    }

    /** `register_receive_callback(address, callback, size)`: the mirror image, with RD_WRN and RXIE; TXIE is left as it was. */
    method RegisterReceiveCallback(controllers: seq<Controller>, address: bv16, callback: Callback, size: uint32)
      requires Bound(controllers)
      requires 0 < size <= 255
      modifies base`txCallback, base`rxCallback, base.registers
      ensures base.txCallback == None && base.rxCallback == Some(callback)
      ensures base.busStatusCallback == old(base.busStatusCallback) && base.calls == old(base.calls)
      ensures base.registers.cr2 == old(base.registers.cr2) + [TransferCr2(address, size as bv32, true)]
      ensures base.registers.cr1 == SetFlag(old(base.registers.cr1), CR1_RXIE | CR1_STOPIE)
      ensures base.registers.txdr == old(base.registers.txdr) && base.registers.icr == old(base.registers.icr)
      ensures base.registers.timingr == old(base.registers.timingr) && base.registers.oar1 == old(base.registers.oar1)
      ensures base.Snapshot() == RegisterReceive(old(base.Snapshot()), callback, CR1_RXIE | CR1_STOPIE)
    {
      base.txCallback := None;
      base.rxCallback := Some(callback);
      base.registers.cr2 := base.registers.cr2 + [TransferCr2(address, size as bv32, true)];
      base.registers.cr1 := SetFlag(base.registers.cr1, CR1_RXIE | CR1_STOPIE);
    }

    /** `register_receive_callback` as evidently intended: TXIE is cleared with the TX callback. */
    method RegisterReceiveCallbackCorrected(controllers: seq<Controller>, address: bv16, callback: Callback, size: uint32)
      requires Bound(controllers)
      requires 0 < size <= 255
      modifies base`txCallback, base`rxCallback, base.registers
      ensures base.Snapshot() == RegisterReceiveCorrected(old(base.Snapshot()), callback, CR1_RXIE | CR1_STOPIE)
      ensures Armed(base.Snapshot())
      ensures base.registers.cr2 == old(base.registers.cr2) + [TransferCr2(address, size as bv32, true)]
      ensures base.registers.timingr == old(base.registers.timingr) && base.registers.oar1 == old(base.registers.oar1)
    {
      RegisterReceiveCorrectedArms(base.Snapshot(), callback, CR1_RXIE | CR1_STOPIE);
      base.txCallback := None;
      base.rxCallback := Some(callback);
      base.registers.cr2 := base.registers.cr2 + [TransferCr2(address, size as bv32, true)];
      base.registers.cr1 := SetFlag(ClearFlag(base.registers.cr1, CR1_TXIE), CR1_RXIE | CR1_STOPIE);
    }

    /** `register_bus_status_callback(callback)`: sets the callback and enables NACKIE. */
    method RegisterBusStatusCallback(callback: Callback)
      requires base.registers != null
      modifies base`busStatusCallback, base.registers
      ensures base.busStatusCallback == Some(callback)
      ensures base.registers.cr1 == SetFlag(old(base.registers.cr1), CR1_NACKIE)
      ensures base.registers.cr2 == old(base.registers.cr2) && base.registers.txdr == old(base.registers.txdr)
      ensures base.registers.icr == old(base.registers.icr)
      ensures base.registers.timingr == old(base.registers.timingr) && base.registers.oar1 == old(base.registers.oar1)
    {
      base.busStatusCallback := Some(callback);
      base.registers.cr1 := SetFlag(base.registers.cr1, CR1_NACKIE);
    }

    /** `unregister_bus_status_callback()`: disables NACKIE and drops the callback. */
    method UnregisterBusStatusCallback()
      requires base.registers != null
      modifies base`busStatusCallback, base.registers
      ensures base.busStatusCallback == None
      ensures base.registers.cr1 == ClearFlag(old(base.registers.cr1), CR1_NACKIE)
      ensures base.registers.cr2 == old(base.registers.cr2) && base.registers.txdr == old(base.registers.txdr)
      ensures base.registers.icr == old(base.registers.icr)
      ensures base.registers.timingr == old(base.registers.timingr) && base.registers.oar1 == old(base.registers.oar1)
    {
      base.registers.cr1 := ClearFlag(base.registers.cr1, CR1_NACKIE);
      base.busStatusCallback := None;
    }

    /**
     * `is_slave_connected(address, timeout)`: writes the probe word to CR2, waits (timed, from
     * the tick `start` read on entry) for STOPF, and reports the slave present when the wait
     * succeeded and `nackIsr`, the ISR read after it, has no NACKF; NACKCF is written only then.
     * `consumed` is how many samples the wait took.
     */
    method IsSlaveConnected(address: bv16, timeout: Tick, start: Tick, samples: seq<Wait.Sample>, nackIsr: bv32)
      returns (connected: bool, consumed: nat)
      requires base.registers != null
      requires timeout > 0
      requires exists k :: 0 <= k < |samples| && Wait.Ends(samples[k], ISR_STOPF, false, start, timeout)
      modifies base.registers
      ensures 0 < consumed <= |samples|
      ensures Wait.Ends(samples[consumed - 1], ISR_STOPF, false, start, timeout)
      ensures forall k :: 0 <= k < consumed - 1 ==> !Wait.Ends(samples[k], ISR_STOPF, false, start, timeout)
      ensures var stopped := IsFlag(samples[consumed - 1].register, ISR_STOPF) && !Wait.TimedOut(samples[consumed - 1], start, timeout);
        (connected <==> stopped && !IsFlag(nackIsr, ISR_NACKF)) &&
        base.registers.icr == old(base.registers.icr) + (if stopped && IsFlag(nackIsr, ISR_NACKF) then [ICR_NACKCF] else []) + [ICR_STOPCF]
      ensures base.registers.cr2 == old(base.registers.cr2) + [ProbeCr2(address), 0]
      ensures base.registers.cr1 == old(base.registers.cr1) && base.registers.txdr == old(base.registers.txdr)
      ensures base.registers.timingr == old(base.registers.timingr) && base.registers.oar1 == old(base.registers.oar1)
    {
      base.registers.cr2 := base.registers.cr2 + [ProbeCr2(address)];
      connected, consumed := Wait.UntilTimed(samples, ISR_STOPF, false, start, timeout);
      if connected {
        if IsFlag(nackIsr, ISR_NACKF) {
          base.registers.icr := base.registers.icr + [ICR_NACKCF];
          connected := false;
        }
      }
      base.registers.icr := base.registers.icr + [ICR_STOPCF];
      base.registers.cr2 := base.registers.cr2 + [0];
    }
  }

  /** The guard of the slave's `register_*_callback` as written: the table's master slot is bound. */
  predicate SlaveRegistrationGuardAsWritten(entry: Controller)
    reads entry
  {
    entry.master != null
  }

  /** The guard the slave's registration evidently intends: its own slot is bound. */
  predicate SlaveRegistrationGuard(entry: Controller)
    reads entry
  {
    entry.slave != null
  }

  /**
   * While a slave is bound the master slot is empty (`Exclusive`), so the guard as written
   * rejects every registration on an enabled slave, and the intended guard admits it.
   */
  lemma SlaveRegistrationRejected(entry: Controller)
    requires entry.slave != null && entry.Exclusive()
    ensures !SlaveRegistrationGuardAsWritten(entry) && SlaveRegistrationGuard(entry)
  {
  }

  /** The CR1 bits the slave's registrations enable. */
  const SLAVE_TX_ENABLE: bv32 := CR1_TXIE | CR1_STOPIE | CR1_ADDRIE | CR1_NACKIE
  const SLAVE_RX_ENABLE: bv32 := CR1_RXIE | CR1_STOPIE | CR1_ADDRIE

  /** `I2C_slave`. */
  class I2cSlave {
    const base: I2cBase

    constructor (id: Id)
      ensures fresh(base) && base.id == id && base.registers == null
      ensures base.txCallback == None && base.rxCallback == None && base.busStatusCallback == None && base.calls == []
    {
      base := new I2cBase(id);
    }

    /** The driver holds the registers and the table's slave slot is bound. */
    predicate Bound(controllers: seq<Controller>)
      reads this, base, if InTable(controllers, base.id) then {controllers[TableIndex(base.id)]} else {}
    {
      base.registers != null && InTable(controllers, base.id) && controllers[TableIndex(base.id)].slave != null
    }

    /**
     * `i2c_slave_interrupt_handler(this)`: NACKCF for a NACK while transmitting, otherwise the
     * bus-status handler; then the RX, TX and STOP handlers; then ADDRCF for an enabled ADDR.
     */
    method HandleInterrupt(isr: bv32, clear: bool, rxdr: bv8, written: Option<bv8>)
      requires base.registers != null
      requires Callable(base.Snapshot(), isr)
      modifies base`txCallback, base`rxCallback, base`calls, base.registers`cr1, base.registers`txdr, base.registers`icr
      ensures base.Snapshot() == SlaveStep(old(base.Snapshot()), isr, clear, rxdr, written)
      ensures base.registers.Setup() == old(base.registers.Setup())
      ensures Armed(old(base.Snapshot())) ==> Armed(base.Snapshot())
    {
      ghost var before := base.Snapshot();
      if Armed(before) {
        SlaveStepKeepsArmed(before, isr, clear, rxdr, written);
      }
      var cr1 := base.registers.cr1;
      StatusInterrupt(isr, clear);
      base.RxneInterrupt(isr, cr1, rxdr);
      base.TxeInterrupt(isr, cr1, written);
      base.StopfInterrupt(isr, cr1);
      AddrInterrupt(isr, cr1);
    }

    /** The handler's first step: NACKCF for a NACK while transmitting, otherwise the bus-status handler. */
    method StatusInterrupt(isr: bv32, clear: bool)
      requires base.registers != null
      modifies base`calls, base.registers`icr
      ensures base.Snapshot() == SlaveStatusStep(old(base.Snapshot()), isr, clear)
    {
      if IsFlag(isr, ISR_NACKF) && base.txCallback.Some? {
        base.registers.icr := base.registers.icr + [ICR_NACKCF];
      } else {
        base.BusStatusInterrupt(isr, clear);
      }
    }

    /** The handler's last step: ADDRCF for an enabled ADDR. */
    method AddrInterrupt(isr: bv32, cr1: bv32)
      requires base.registers != null
      modifies base.registers`icr
      ensures base.Snapshot() == AddrStep(old(base.Snapshot()), isr, cr1)
    {
      if IsFlag(isr, ISR_ADDR) && IsFlag(cr1, CR1_ADDRIE) {
        base.registers.icr := base.registers.icr + [ICR_ADDRCF];
      }
    }

    /**
     * `enable(config, clock_source, irq_priority)`: as the master's, with the own address
     * (at most 0x7F) written to OAR1 before CR1.
     */
    method Enable(controllers: seq<Controller>, config: SlaveConfig)
      requires InTable(controllers, base.id)
      requires !base.IsEnabled(controllers)
      requires controllers[TableIndex(base.id)].master == null && controllers[TableIndex(base.id)].slave == null
      requires config.address <= 0x7F
      modifies base`registers, controllers[TableIndex(base.id)], controllers[TableIndex(base.id)].registers
      ensures controllers[TableIndex(base.id)].slave == this && controllers[TableIndex(base.id)].master == null
      ensures controllers[TableIndex(base.id)].Exclusive()
      ensures base.registers == controllers[TableIndex(base.id)].registers
      ensures base.registers.cr1 == EnabledCr1(config.analogFilter, config.crcEnable)
      ensures base.registers.timingr == config.timings
      ensures base.registers.oar1 == OwnAddress(config.address)
      ensures base.registers.cr2 == old(controllers[TableIndex(base.id)].registers.cr2)
      ensures base.registers.txdr == old(controllers[TableIndex(base.id)].registers.txdr)
      ensures base.registers.icr == old(controllers[TableIndex(base.id)].registers.icr)
      ensures Armed(base.Snapshot())
    {
      var entry := controllers[TableIndex(base.id)];
      entry.slave := this;
      base.registers := entry.registers;
      base.registers.cr1 := 0;
      base.registers.timingr := config.timings;
      base.registers.oar1 := OwnAddress(config.address);
      base.registers.cr1 := EnabledCr1(config.analogFilter, config.crcEnable);
      EnabledCr1Bits(config.analogFilter, config.crcEnable);
    }

    /** `diasble()`: clears CR1, unbinds the slave and drops the registers. */
    method Disable(controllers: seq<Controller>)
      requires Bound(controllers)
      modifies base`registers, base.registers, controllers[TableIndex(base.id)]
      ensures old(base.registers).cr1 == 0
      ensures old(base.registers).Setup() == old(base.registers.Setup())
      ensures old(base.registers).txdr == old(base.registers.txdr) && old(base.registers).icr == old(base.registers.icr)
      ensures controllers[TableIndex(base.id)].slave == null
      ensures controllers[TableIndex(base.id)].master == old(controllers[TableIndex(base.id)].master)
      ensures base.registers == null
    {
      base.registers.cr1 := 0;
      controllers[TableIndex(base.id)].slave := null;
      base.registers := null;
    }

    /**
     * The slave transmit epilogue: NACKCF when `stopIsr` has STOPF and `nackIsr` has NACKF (the
     * master's NACK of the last byte), then the common finish.
     */
    method FinishTransmit(error: bool, stopIsr: bv32, nackIsr: bv32, statusIsr: bv32) returns (status: BusStatus)
      requires base.registers != null
      modifies base.registers
      ensures status == if error then BusStatusOf(statusIsr) else BusOk
      ensures base.registers.icr == old(base.registers.icr) +
        (if IsFlag(stopIsr, ISR_STOPF) && IsFlag(nackIsr, ISR_NACKF) then [ICR_NACKCF] else []) +
        (if error then [ICR_ERRORS] else []) + [ICR_STOPCF]
      ensures base.registers.txdr == old(base.registers.txdr)
      ensures base.registers.cr1 == old(base.registers.cr1) && base.registers.Setup() == old(base.registers.Setup())
    {
      if IsFlag(stopIsr, ISR_STOPF) && IsFlag(nackIsr, ISR_NACKF) {
        base.registers.icr := base.registers.icr + [ICR_NACKCF];
      }
      status := base.FinishTransfer(error, statusIsr);
    }

    /**
     * `transmit_bytes_polling(data, size)`: the transmit loop with the slave's stop and error
     * tests (read from I2C1's ISR, see `Poll`), then the slave transmit epilogue. CR2 is not touched.
     */
    method TransmitBytesPolling(controllers: seq<Controller>, data: seq<bv8>, size: uint32, polls: seq<Poll>,
                                stopIsr: bv32, nackIsr: bv32, statusIsr: bv32) returns (result: Result, rounds: nat)
      requires Bound(controllers)
      requires 0 < size <= 255 && size as int <= |data|
      requires Ends(Loop(SlaveTransmit, false, 0, 0), polls)
      modifies base.registers
      ensures var l := Loop(SlaveTransmit, false, 0, 0);
        FirstExit(l, polls, rounds) &&
        result.words as int == Moved(l, polls, rounds, size) &&
        result.status == ReportedStatus(l, polls, rounds, statusIsr) &&
        base.registers.icr == old(base.registers.icr) + AddrClears(polls, rounds) +
          (if IsFlag(stopIsr, ISR_STOPF) && IsFlag(nackIsr, ISR_NACKF) then [ICR_NACKCF] else []) +
          ErrorClears(l, polls, rounds) + [ICR_STOPCF]
      ensures base.registers.txdr == old(base.registers.txdr) + data[..result.words]
      ensures base.registers.cr1 == old(base.registers.cr1) && base.registers.Setup() == old(base.registers.Setup())
    {
      var l := Loop(SlaveTransmit, false, 0, 0);
      var words, error;
      words, error, rounds := base.TransmitLoop(l, polls, data, size);
      var status := FinishTransmit(error, stopIsr, nackIsr, statusIsr);
      result := Result(status, words);
    }

    /** `transmit_bytes_polling(data, size, timeout)`. */
    method TransmitBytesPollingTimed(controllers: seq<Controller>, data: seq<bv8>, size: uint32, timeout: Tick, start: Tick,
                                     polls: seq<Poll>, stopIsr: bv32, nackIsr: bv32, statusIsr: bv32) returns (result: Result, rounds: nat)
      requires Bound(controllers)
      requires 0 < size <= 255 && size as int <= |data|
      requires timeout > 0
      requires Ends(Loop(SlaveTransmit, true, start, timeout), polls)
      modifies base.registers
      ensures var l := Loop(SlaveTransmit, true, start, timeout);
        FirstExit(l, polls, rounds) &&
        result.words as int == Moved(l, polls, rounds, size) &&
        result.status == ReportedStatus(l, polls, rounds, statusIsr) &&
        base.registers.icr == old(base.registers.icr) + AddrClears(polls, rounds) +
          (if IsFlag(stopIsr, ISR_STOPF) && IsFlag(nackIsr, ISR_NACKF) then [ICR_NACKCF] else []) +
          ErrorClears(l, polls, rounds) + [ICR_STOPCF]
      ensures base.registers.txdr == old(base.registers.txdr) + data[..result.words]
      ensures base.registers.cr1 == old(base.registers.cr1) && base.registers.Setup() == old(base.registers.Setup())
    {
      var l := Loop(SlaveTransmit, true, start, timeout);
      var words, error;
      words, error, rounds := base.TransmitLoop(l, polls, data, size);
      var status := FinishTransmit(error, stopIsr, nackIsr, statusIsr);
      result := Result(status, words);
    }

    /** `receive_bytes_polling(data, size)`: the receive loop with the slave's stop test, then the common finish. */
    method ReceiveBytesPolling(controllers: seq<Controller>, buffer: array<bv8>, size: uint32, polls: seq<Poll>,
                               statusIsr: bv32) returns (result: Result, rounds: nat)
      requires Bound(controllers)
      requires 0 < size <= 255 && size as int <= buffer.Length
      requires Ends(Loop(SlaveReceive, false, 0, 0), polls)
      modifies base.registers, buffer
      ensures var l := Loop(SlaveReceive, false, 0, 0);
        FirstExit(l, polls, rounds) &&
        result.words as int == Moved(l, polls, rounds, size) &&
        result.status == ReportedStatus(l, polls, rounds, statusIsr) &&
        base.registers.icr == old(base.registers.icr) + AddrClears(polls, rounds) + ErrorClears(l, polls, rounds) + [ICR_STOPCF]
      ensures result.words as int <= |ReadyData(polls, rounds, ISR_RXNE)|
      ensures buffer[..result.words] == ReadyData(polls, rounds, ISR_RXNE)[..result.words]
      ensures forall k :: result.words as int <= k < buffer.Length ==> buffer[k] == old(buffer[k])
      ensures base.registers.txdr == old(base.registers.txdr)
      ensures base.registers.cr1 == old(base.registers.cr1) && base.registers.Setup() == old(base.registers.Setup())
    {
      var l := Loop(SlaveReceive, false, 0, 0);
      var words, error;
      words, error, rounds := base.ReceiveLoop(l, polls, buffer, size);
      var status := base.FinishTransfer(error, statusIsr);
      result := Result(status, words);
    }

    /**
     * `receive_bytes_polling(data, size, timeout)` as written: its stop test reads STOPCF of ICR,
     * so (see `StopInIcrIgnoresStop`) only an error or the timeout ends it.
     */
    method ReceiveBytesPollingTimedAsWritten(controllers: seq<Controller>, buffer: array<bv8>, size: uint32, timeout: Tick,
                                             start: Tick, polls: seq<Poll>, statusIsr: bv32) returns (result: Result, rounds: nat)
      requires Bound(controllers)
      requires 0 < size <= 255 && size as int <= buffer.Length
      requires timeout > 0
      requires Ends(Loop(SlaveReceiveStopInIcr, true, start, timeout), polls)
      modifies base.registers, buffer
      ensures var l := Loop(SlaveReceiveStopInIcr, true, start, timeout);
        FirstExit(l, polls, rounds) &&
        result.words as int == Moved(l, polls, rounds, size) &&
        result.status == ReportedStatus(l, polls, rounds, statusIsr) &&
        base.registers.icr == old(base.registers.icr) + AddrClears(polls, rounds) + ErrorClears(l, polls, rounds) + [ICR_STOPCF]
      ensures result.words as int <= |ReadyData(polls, rounds, ISR_RXNE)|
      ensures buffer[..result.words] == ReadyData(polls, rounds, ISR_RXNE)[..result.words]
      ensures forall k :: result.words as int <= k < buffer.Length ==> buffer[k] == old(buffer[k])
      ensures base.registers.txdr == old(base.registers.txdr)
      ensures base.registers.cr1 == old(base.registers.cr1) && base.registers.Setup() == old(base.registers.Setup())
    {
      var l := Loop(SlaveReceiveStopInIcr, true, start, timeout);
      var words, error;
      words, error, rounds := base.ReceiveLoop(l, polls, buffer, size);
      var status := base.FinishTransfer(error, statusIsr);
      result := Result(status, words);
    }

    /** `receive_bytes_polling(data, size, timeout)` with the stop test evidently intended: STOPF of ISR, as the untimed loop has it. */
    method ReceiveBytesPollingTimed(controllers: seq<Controller>, buffer: array<bv8>, size: uint32, timeout: Tick,
                                    start: Tick, polls: seq<Poll>, statusIsr: bv32) returns (result: Result, rounds: nat)
      requires Bound(controllers)
      requires 0 < size <= 255 && size as int <= buffer.Length
      requires timeout > 0
      requires Ends(Loop(SlaveReceive, true, start, timeout), polls)
      modifies base.registers, buffer
      ensures var l := Loop(SlaveReceive, true, start, timeout);
        FirstExit(l, polls, rounds) &&
        result.words as int == Moved(l, polls, rounds, size) &&
        result.status == ReportedStatus(l, polls, rounds, statusIsr) &&
        base.registers.icr == old(base.registers.icr) + AddrClears(polls, rounds) + ErrorClears(l, polls, rounds) + [ICR_STOPCF]
      ensures result.words as int <= |ReadyData(polls, rounds, ISR_RXNE)|
      ensures buffer[..result.words] == ReadyData(polls, rounds, ISR_RXNE)[..result.words]
      ensures forall k :: result.words as int <= k < buffer.Length ==> buffer[k] == old(buffer[k])
      ensures base.registers.txdr == old(base.registers.txdr)
      ensures base.registers.cr1 == old(base.registers.cr1) && base.registers.Setup() == old(base.registers.Setup())
    {
      var l := Loop(SlaveReceive, true, start, timeout);
      var words, error;
      words, error, rounds := base.ReceiveLoop(l, polls, buffer, size);
      var status := base.FinishTransfer(error, statusIsr);
      result := Result(status, words);
    }

    /**
     * `register_transmit_callback(callback, size)`, with the guard evidently intended (the slave
     * slot, see `SlaveRegistrationRejected`): drops the RX callback, sets the TX callback and
     * enables TXIE, STOPIE, ADDRIE and NACKIE.
     */
    method RegisterTransmitCallback(controllers: seq<Controller>, callback: Callback, size: uint32)
      requires Bound(controllers) && SlaveRegistrationGuard(controllers[TableIndex(base.id)])
      requires 0 < size <= 255
      modifies base`txCallback, base`rxCallback, base.registers
      ensures base.rxCallback == None && base.txCallback == Some(callback)
      ensures base.busStatusCallback == old(base.busStatusCallback) && base.calls == old(base.calls)
      ensures base.registers.cr1 == SetFlag(old(base.registers.cr1), CR1_TXIE | CR1_STOPIE | CR1_ADDRIE | CR1_NACKIE)
      ensures base.registers.txdr == old(base.registers.txdr) && base.registers.icr == old(base.registers.icr)
      ensures base.registers.Setup() == old(base.registers.Setup())
      ensures base.Snapshot() == RegisterTransmit(old(base.Snapshot()), callback, SLAVE_TX_ENABLE)
    {
      ArmTransmit(callback);
    }

    /**
     * `register_transmit_callback` with the guard as written: it admits the call only when the
     * table's master slot is bound, which `SlaveRegistrationRejected` shows never holds for an
     * enabled slave; the effect is that of the intended version.
     */
    method RegisterTransmitCallbackAsWritten(controllers: seq<Controller>, callback: Callback, size: uint32)
      requires base.registers != null && InTable(controllers, base.id)
      requires SlaveRegistrationGuardAsWritten(controllers[TableIndex(base.id)])
      requires 0 < size <= 255
      modifies base`txCallback, base`rxCallback, base.registers
      ensures base.rxCallback == None && base.txCallback == Some(callback)
      ensures base.busStatusCallback == old(base.busStatusCallback) && base.calls == old(base.calls)
      ensures base.registers.cr1 == SetFlag(old(base.registers.cr1), CR1_TXIE | CR1_STOPIE | CR1_ADDRIE | CR1_NACKIE)
      ensures base.registers.txdr == old(base.registers.txdr) && base.registers.icr == old(base.registers.icr)
      ensures base.registers.Setup() == old(base.registers.Setup())
      ensures base.Snapshot() == RegisterTransmit(old(base.Snapshot()), callback, SLAVE_TX_ENABLE)
    {
      ArmTransmit(callback);
    }

    /** The body both guards lead to: the RX callback dropped, the TX callback set, its interrupts enabled. */
    method ArmTransmit(callback: Callback)
      requires base.registers != null
      modifies base`txCallback, base`rxCallback, base.registers
      ensures base.rxCallback == None && base.txCallback == Some(callback)
      ensures base.busStatusCallback == old(base.busStatusCallback) && base.calls == old(base.calls)
      ensures base.registers.cr1 == SetFlag(old(base.registers.cr1), CR1_TXIE | CR1_STOPIE | CR1_ADDRIE | CR1_NACKIE)
      ensures base.registers.txdr == old(base.registers.txdr) && base.registers.icr == old(base.registers.icr)
      ensures base.registers.Setup() == old(base.registers.Setup())
      ensures base.Snapshot() == RegisterTransmit(old(base.Snapshot()), callback, SLAVE_TX_ENABLE)
    {
      base.rxCallback := None;
      base.txCallback := Some(callback);
      base.registers.cr1 := SetFlag(base.registers.cr1, CR1_TXIE | CR1_STOPIE | CR1_ADDRIE | CR1_NACKIE);
    }

    /** `register_transmit_callback` with the intended guard and RXIE cleared with the RX callback, so the port is armed. */
    method RegisterTransmitCallbackCorrected(controllers: seq<Controller>, callback: Callback, size: uint32)
      requires Bound(controllers) && SlaveRegistrationGuard(controllers[TableIndex(base.id)])
      requires 0 < size <= 255
      modifies base`txCallback, base`rxCallback, base.registers
      ensures base.Snapshot() == RegisterTransmitCorrected(old(base.Snapshot()), callback, SLAVE_TX_ENABLE)
      ensures Armed(base.Snapshot())
      ensures base.registers.Setup() == old(base.registers.Setup())
    {
      RegisterTransmitCorrectedArms(base.Snapshot(), callback, SLAVE_TX_ENABLE);
      base.rxCallback := None;
      base.txCallback := Some(callback);
      base.registers.cr1 := SetFlag(ClearFlag(base.registers.cr1, CR1_RXIE), SLAVE_TX_ENABLE);
    }

    /** `register_receive_callback(callback, size)`, with the intended guard: enables RXIE, STOPIE and ADDRIE. */
    method RegisterReceiveCallback(controllers: seq<Controller>, callback: Callback, size: uint32)
      requires Bound(controllers) && SlaveRegistrationGuard(controllers[TableIndex(base.id)])
      requires 0 < size <= 255
      modifies base`txCallback, base`rxCallback, base.registers
      ensures base.txCallback == None && base.rxCallback == Some(callback)
      ensures base.busStatusCallback == old(base.busStatusCallback) && base.calls == old(base.calls)
      ensures base.registers.cr1 == SetFlag(old(base.registers.cr1), CR1_RXIE | CR1_STOPIE | CR1_ADDRIE)
      ensures base.registers.txdr == old(base.registers.txdr) && base.registers.icr == old(base.registers.icr)
      ensures base.registers.Setup() == old(base.registers.Setup())
      ensures base.Snapshot() == RegisterReceive(old(base.Snapshot()), callback, SLAVE_RX_ENABLE)
    {
      ArmReceive(callback);
    }

    /** `register_receive_callback` with the guard as written (the master slot), as for transmit. */
    method RegisterReceiveCallbackAsWritten(controllers: seq<Controller>, callback: Callback, size: uint32)
      requires base.registers != null && InTable(controllers, base.id)
      requires SlaveRegistrationGuardAsWritten(controllers[TableIndex(base.id)])
      requires 0 < size <= 255
      modifies base`txCallback, base`rxCallback, base.registers
      ensures base.txCallback == None && base.rxCallback == Some(callback)
      ensures base.busStatusCallback == old(base.busStatusCallback) && base.calls == old(base.calls)
      ensures base.registers.cr1 == SetFlag(old(base.registers.cr1), CR1_RXIE | CR1_STOPIE | CR1_ADDRIE)
      ensures base.registers.txdr == old(base.registers.txdr) && base.registers.icr == old(base.registers.icr)
      ensures base.registers.Setup() == old(base.registers.Setup())
      ensures base.Snapshot() == RegisterReceive(old(base.Snapshot()), callback, SLAVE_RX_ENABLE)
    {
      ArmReceive(callback);
    }

    /** The body both guards lead to: the TX callback dropped, the RX callback set, its interrupts enabled. */
    method ArmReceive(callback: Callback)
      requires base.registers != null
      modifies base`txCallback, base`rxCallback, base.registers
      ensures base.txCallback == None && base.rxCallback == Some(callback)
      ensures base.busStatusCallback == old(base.busStatusCallback) && base.calls == old(base.calls)
      ensures base.registers.cr1 == SetFlag(old(base.registers.cr1), CR1_RXIE | CR1_STOPIE | CR1_ADDRIE)
      ensures base.registers.txdr == old(base.registers.txdr) && base.registers.icr == old(base.registers.icr)
      ensures base.registers.Setup() == old(base.registers.Setup())
      ensures base.Snapshot() == RegisterReceive(old(base.Snapshot()), callback, SLAVE_RX_ENABLE)
    {
      base.txCallback := None;
      base.rxCallback := Some(callback);
      base.registers.cr1 := SetFlag(base.registers.cr1, CR1_RXIE | CR1_STOPIE | CR1_ADDRIE);
    }

    /** `register_receive_callback` with the intended guard and TXIE cleared with the TX callback. */
    method RegisterReceiveCallbackCorrected(controllers: seq<Controller>, callback: Callback, size: uint32)
      requires Bound(controllers) && SlaveRegistrationGuard(controllers[TableIndex(base.id)])
      requires 0 < size <= 255
      modifies base`txCallback, base`rxCallback, base.registers
      ensures base.Snapshot() == RegisterReceiveCorrected(old(base.Snapshot()), callback, SLAVE_RX_ENABLE)
      ensures Armed(base.Snapshot())
      ensures base.registers.Setup() == old(base.registers.Setup())
    {
      RegisterReceiveCorrectedArms(base.Snapshot(), callback, SLAVE_RX_ENABLE);
      base.txCallback := None;
      base.rxCallback := Some(callback);
      base.registers.cr1 := SetFlag(ClearFlag(base.registers.cr1, CR1_TXIE), SLAVE_RX_ENABLE);
    }

    /** `register_bus_status_callback(callback)`: sets the callback and enables NACKIE and ADDRIE. */
    method RegisterBusStatusCallback(callback: Callback)
      requires base.registers != null
      modifies base`busStatusCallback, base.registers
      ensures base.busStatusCallback == Some(callback)
      ensures base.registers.cr1 == SetFlag(old(base.registers.cr1), CR1_NACKIE | CR1_ADDRIE)
      ensures base.registers.txdr == old(base.registers.txdr) && base.registers.icr == old(base.registers.icr)
      ensures base.registers.Setup() == old(base.registers.Setup())
    {
      base.busStatusCallback := Some(callback);
      base.registers.cr1 := SetFlag(base.registers.cr1, CR1_NACKIE | CR1_ADDRIE);
    }

    /** `unregister_bus_status_callback()`: disables NACKIE and ADDRIE and drops the callback. */
    method UnregisterBusStatusCallback()
      requires base.registers != null
      modifies base`busStatusCallback, base.registers
      ensures base.busStatusCallback == None
      ensures base.registers.cr1 == ClearFlag(old(base.registers.cr1), CR1_NACKIE | CR1_ADDRIE)
      ensures base.registers.txdr == old(base.registers.txdr) && base.registers.icr == old(base.registers.icr)
      ensures base.registers.Setup() == old(base.registers.Setup())
    {
      base.registers.cr1 := ClearFlag(base.registers.cr1, CR1_NACKIE | CR1_ADDRIE);
      base.busStatusCallback := None;
    }
  }

  /**
   * `interupt_handler(index)`, the body of the four I2Cx_EV_IRQHandler entry points: the master
   * handler when a master is bound to the entry, otherwise the slave handler.
   */
  method InterruptHandler(controllers: seq<Controller>, index: nat, isr: bv32, clear: bool, rxdr: bv8, written: Option<bv8>)
    requires index < |controllers|
    requires controllers[index].master != null || controllers[index].slave != null
    requires controllers[index].master != null ==>
      controllers[index].master.base.registers != null && Callable(controllers[index].master.base.Snapshot(), isr)
    requires controllers[index].master == null ==>
      controllers[index].slave.base.registers != null && Callable(controllers[index].slave.base.Snapshot(), isr)
    modifies if controllers[index].master != null
      then {controllers[index].master.base, controllers[index].master.base.registers}
      else {controllers[index].slave.base, controllers[index].slave.base.registers}
    ensures controllers[index].master != null ==>
      controllers[index].master.base.registers == old(controllers[index].master.base.registers)
    ensures controllers[index].master == null ==>
      controllers[index].slave.base.registers == old(controllers[index].slave.base.registers)
    ensures controllers[index].master != null ==>
      controllers[index].master.base.Snapshot() == MasterStep(old(controllers[index].master.base.Snapshot()), isr, clear, rxdr, written)
    ensures controllers[index].master == null ==>
      controllers[index].slave.base.Snapshot() == SlaveStep(old(controllers[index].slave.base.Snapshot()), isr, clear, rxdr, written)
    ensures controllers[index].master != null ==>
      Armed(old(controllers[index].master.base.Snapshot())) ==> Armed(controllers[index].master.base.Snapshot())
    ensures controllers[index].master == null ==>
      Armed(old(controllers[index].slave.base.Snapshot())) ==> Armed(controllers[index].slave.base.Snapshot())
  {
    var entry := controllers[index];
    if entry.master != null {
      entry.master.HandleInterrupt(isr, clear, rxdr, written);
    } else {
      entry.slave.HandleInterrupt(isr, clear, rxdr, written);
    }
  }
}
