/**
 * lib/hal/stm32l011xx/USART.cpp: the USART driver of the STM32L011. Register bit positions
 * follow the STM32L0x1 reference manual (RM0377); the configuration enumerations carry the
 * register field values that the driver ORs into CR1, CR2 and CR3.
 *
 * Hardware is modelled by what the driver can observe: register fields it writes, logs of the
 * write-only data and clear registers, the values successive reads return, and the results of
 * `wait_until_isr`, whose body is not part of this model and which is therefore an oracle.
 * Callbacks are oracles too: an interrupt handler receives the callback's reply as input and
 * records the call it made in `calls`.
 */
module Usart {
  import opened Common
  import opened Bits
  import opened Time

  // CR1
  const CR1_UE: bv32 := 0x0000_0001
  const CR1_RE: bv32 := 0x0000_0004
  const CR1_TE: bv32 := 0x0000_0008
  const CR1_RXNEIE: bv32 := 0x0000_0020
  const CR1_TXEIE: bv32 := 0x0000_0080
  const CR1_PS: bv32 := 0x0000_0200
  const CR1_PCE: bv32 := 0x0000_0400
  const CR1_M0: bv32 := 0x0000_1000
  const CR1_OVER8: bv32 := 0x0000_8000
  const CR1_M1: bv32 := 0x1000_0000
  // CR2, CR3
  const CR2_STOP: bv32 := 0x0000_3000
  const CR3_RTSE: bv32 := 0x0000_0100
  const CR3_CTSE: bv32 := 0x0000_0200
  // ISR
  const ISR_RXNE: bv32 := 0x0000_0020
  const ISR_TC: bv32 := 0x0000_0040
  const ISR_TXE: bv32 := 0x0000_0080
  const ISR_TEACK: bv32 := 0x0020_0000
  const ISR_REACK: bv32 := 0x0040_0000
  // ICR
  const ICR_TCCF: bv32 := 0x0000_0040

  datatype Oversampling = Oversampling16 | Oversampling8 | OversamplingUnknown
  datatype WordLength = WordLength7 | WordLength8 | WordLength9 | WordLengthUnknown
  datatype Parity = ParityNone | ParityEven | ParityOdd | ParityUnknown
  datatype StopBits = StopBits0_5 | StopBits1 | StopBits1_5 | StopBits2 | StopBitsUnknown
  datatype FlowControl = FlowNone | FlowRts | FlowCts | FlowRtsCts | FlowControlUnknown

  /** A baud rate is a number of bits per second; the source divides by it, so it is never zero. */
  type Rate = r: uint32 | r != 0 witness 115200
  datatype BaudRate = Baud(rate: Rate) | BaudRateUnknown

  datatype ClockSource = ClockPclk | ClockSysclk | ClockHsi16 | ClockSourceUnknown
  datatype Clock = Clock(source: ClockSource, frequencyHz: uint32)

  datatype Config = Config(
    baudRate: BaudRate,
    oversampling: Oversampling,
    wordLength: WordLength,
    stopBits: StopBits,
    flowControl: FlowControl,
    parity: Parity)

  function OversamplingBits(o: Oversampling): bv32
    requires o != OversamplingUnknown
  {
    match o
    case Oversampling16 => 0
    case Oversampling8 => CR1_OVER8
  }

  function WordLengthBits(w: WordLength): bv32
    requires w != WordLengthUnknown
  {
    match w
    case WordLength7 => CR1_M1
    case WordLength8 => 0
    case WordLength9 => CR1_M0
  }

  function ParityBits(p: Parity): bv32
    requires p != ParityUnknown
  {
    match p
    case ParityNone => 0
    case ParityEven => CR1_PCE
    case ParityOdd => CR1_PCE | CR1_PS
  }

  function StopBitsBits(s: StopBits): bv32
    requires s != StopBitsUnknown
  {
    match s
    case StopBits0_5 => 0x1000
    case StopBits1 => 0
    case StopBits1_5 => 0x3000
    case StopBits2 => 0x2000
  }

  function FlowControlBits(f: FlowControl): bv32
    requires f != FlowControlUnknown
  {
    match f
    case FlowNone => 0
    case FlowRts => CR3_RTSE
    case FlowCts => CR3_CTSE
    case FlowRtsCts => CR3_RTSE | CR3_CTSE
  }

  /**
   * BRR for 8-fold oversampling, `((d & 0xFFF0) | ((d & 0xF) >> 1)) & 0xFFFF` written on the
   * bit fields of `d`: USARTDIV[15:4] stays in place, USARTDIV[3:0] is shifted right by one into
   * BRR[2:0], and BRR[3] is left clear, as the reference manual requires.
   */
  function Oversampling8Brr(usartdiv: uint32): (brr: uint32)
    ensures brr < 0x1_0000
    ensures (brr / 8) % 2 == 0
    ensures brr / 16 == (usartdiv / 16) % 0x1000
    ensures brr % 8 == (usartdiv % 16) / 2
  {
    var high, low := (usartdiv / 16) % 0x1000, (usartdiv % 16) / 2;
    FieldsPack(high, low);
    high * 16 + low
  }

  /** Packing a 12-bit field above a 3-bit field with BRR[3] clear, and reading both back. */
  lemma FieldsPack(high: int, low: int)
    requires 0 <= high < 0x1000 && 0 <= low < 8
    ensures high * 16 + low < 0x1_0000
    ensures ((high * 16 + low) / 8) % 2 == 0
    ensures (high * 16 + low) / 16 == high && (high * 16 + low) % 8 == low
  {
    assert (high * 16 + low) / 8 == high * 2;
  }

  /**
   * The BRR value `enable` programs: `f / baud` with 16-fold oversampling; with 8-fold
   * oversampling `usartdiv = 2 * f / baud` in 32-bit arithmetic (so `2 * f` wraps for
   * frequencies of 2^31 Hz and above) and then the 8-fold layout.
   */
  function BaudRateRegister(frequencyHz: uint32, baud: Rate, oversampling: Oversampling): uint32
    requires oversampling != OversamplingUnknown
  {
    match oversampling
    case Oversampling16 =>
      QuotientBound(frequencyHz, baud);
      frequencyHz / baud
    case Oversampling8 =>
      var doubled := (2 * frequencyHz) % UINT32_LIMIT;
      QuotientBound(doubled, baud);
      Oversampling8Brr(doubled / baud)
  }

  /** Dividing by a positive rate never makes a value larger. */
  lemma QuotientBound(a: nat, b: int)
    requires b > 0
    ensures 0 <= a / b <= a
  {
    var q := a / b;
    assert q * b <= a;
    assert q >= 0;
    assert q <= q * b by {
      assert q * b == q + q * (b - 1);
      assert q * (b - 1) >= 0;
    }
  }

  /** CR1 after `enable`: the frame format and oversampling fields, with UE, RE and TE set. */
  function EnabledCr1(config: Config): bv32
    requires config.wordLength != WordLengthUnknown && config.oversampling != OversamplingUnknown
    requires config.parity != ParityUnknown
  {
    WordLengthBits(config.wordLength) | OversamplingBits(config.oversampling) | ParityBits(config.parity)
      | CR1_UE | CR1_RE | CR1_TE
  }

  /**
   * After `enable` the peripheral, receiver and transmitter are on, both interrupts are off,
   * and the word-length, parity and oversampling fields read back as configured.
   */
  lemma EnabledCr1Armed(config: Config)
    requires config.wordLength != WordLengthUnknown && config.oversampling != OversamplingUnknown
    requires config.parity != ParityUnknown
    ensures IsFlag(EnabledCr1(config), CR1_UE | CR1_RE | CR1_TE)
    ensures !IsFlag(EnabledCr1(config), CR1_TXEIE) && !IsFlag(EnabledCr1(config), CR1_RXNEIE)
    ensures EnabledCr1(config) & (CR1_M0 | CR1_M1) == WordLengthBits(config.wordLength)
    ensures EnabledCr1(config) & (CR1_PCE | CR1_PS) == ParityBits(config.parity)
    ensures EnabledCr1(config) & CR1_OVER8 == OversamplingBits(config.oversampling)
  {
  }

  /** A callback: the function pointer (never null here; `None` stands for null) and its user data. */
  datatype Callback = Callback(handler: nat, userData: nat)

  /** `tx_context` / `rx_context`: the armed callback, when it was armed, and its timeout. */
  datatype Context = Context(callback: Option<Callback>, startTimestamp: Tick, timeout: Tick)

  /** The context after a transfer ends: `{ {nullptr, nullptr}, 0, 0 }`. */
  const IdleContext: Context := Context(None, 0, 0)

  /** A call the interrupt handler made to a callback, with the arguments it passed. */
  datatype CallbackCall =
    | TxCall(callback: Callback, inTime: bool)
    | RxCall(callback: Callback, received: bv8, inTime: bool)

  /** What a TX callback returned: whether to go on, and the byte it stored through its pointer. */
  datatype TxReply = TxReply(proceed: bool, data: bv8)

  /** The state the interrupt handler reads and writes. */
  datatype Port = Port(cr1: bv32, tdr: seq<bv8>, tx: Context, rx: Context, calls: seq<CallbackCall>)

  /** An interrupt-enable bit is only ever set while its context holds a callback. */
  predicate PortArmed(p: Port)
  {
    (IsFlag(p.cr1, CR1_TXEIE) ==> p.tx.callback.Some?) &&
    (IsFlag(p.cr1, CR1_RXNEIE) ==> p.rx.callback.Some?)
  }

  predicate TxEvent(isr: bv32, cr1: bv32)
  {
    IsFlag(isr, ISR_TXE) && IsFlag(cr1, CR1_TXEIE)
  }

  predicate RxEvent(isr: bv32, cr1: bv32)
  {
    IsFlag(isr, ISR_RXNE) && IsFlag(cr1, CR1_RXNEIE)
  }

  /** The flag passed to a callback: fewer than `timeout` ticks have elapsed since the context was armed. */
  function InTime(c: Context, counter: Tick): bool
  {
    WrappingSub(counter, c.startTimestamp) < c.timeout
  }

  /**
   * The TX half of `usart_handle_interrupt`: call the callback; if it asks to go on, its byte
   * goes to TDR, otherwise TXEIE is cleared and the context is reset.
   */
  function TxStep(p: Port, counter: Tick, reply: TxReply): (p': Port)
    requires p.tx.callback.Some?
    ensures p'.rx == p.rx
    ensures p'.calls == p.calls + [TxCall(p.tx.callback.value, Diff(counter, p.tx.startTimestamp) < p.tx.timeout)]
    ensures reply.proceed ==> p'.tdr == p.tdr + [reply.data] && p'.tx == p.tx && p'.cr1 == p.cr1
    ensures !reply.proceed ==> p'.tdr == p.tdr && p'.tx == IdleContext && p'.cr1 == ClearFlag(p.cr1, CR1_TXEIE)
  {
    WrappingSubIsDiff(counter, p.tx.startTimestamp);
    var call := TxCall(p.tx.callback.value, InTime(p.tx, counter));
    if reply.proceed then
      p.(tdr := p.tdr + [reply.data], calls := p.calls + [call])
    else
      p.(cr1 := ClearFlag(p.cr1, CR1_TXEIE), tx := IdleContext, calls := p.calls + [call])
  }

  /** The RX half: hand the received byte to the callback; if it declines, RXNEIE is cleared and the context reset. */
  function RxStep(p: Port, counter: Tick, rdr: bv8, proceed: bool): (p': Port)
    requires p.rx.callback.Some?
    ensures p'.tx == p.tx && p'.tdr == p.tdr
    ensures p'.calls == p.calls + [RxCall(p.rx.callback.value, rdr, Diff(counter, p.rx.startTimestamp) < p.rx.timeout)]
    ensures proceed ==> p'.rx == p.rx && p'.cr1 == p.cr1
    ensures !proceed ==> p'.rx == IdleContext && p'.cr1 == ClearFlag(p.cr1, CR1_RXNEIE)
  {
    WrappingSubIsDiff(counter, p.rx.startTimestamp);
    var call := RxCall(p.rx.callback.value, rdr, InTime(p.rx, counter));
    if proceed then
      p.(calls := p.calls + [call])
    else
      p.(cr1 := ClearFlag(p.cr1, CR1_RXNEIE), rx := IdleContext, calls := p.calls + [call])
  }

  /** CR1 without its two interrupt-enable bits: the part the interrupt handler never writes. */
  function Configuration(cr1: bv32): bv32
  {
    cr1 & !(CR1_TXEIE | CR1_RXNEIE)
  }

  /** Clearing one interrupt-enable bit leaves the other one and every other CR1 bit as they were. */
  lemma ClearEnableBit(cr1: bv32, clear: bv32, other: bv32)
    requires (clear == CR1_TXEIE && other == CR1_RXNEIE) || (clear == CR1_RXNEIE && other == CR1_TXEIE)
    ensures !IsFlag(ClearFlag(cr1, clear), clear)
    ensures IsFlag(ClearFlag(cr1, clear), other) == IsFlag(cr1, other)
    ensures Configuration(ClearFlag(cr1, clear)) == Configuration(cr1)
  {
    if clear == CR1_TXEIE {
      ClearTxeie(cr1);
    } else {
      ClearRxneie(cr1);
    }
  }

  lemma ClearTxeie(cr1: bv32)
    ensures !IsFlag(ClearFlag(cr1, CR1_TXEIE), CR1_TXEIE)
    ensures IsFlag(ClearFlag(cr1, CR1_TXEIE), CR1_RXNEIE) == IsFlag(cr1, CR1_RXNEIE)
    ensures Configuration(ClearFlag(cr1, CR1_TXEIE)) == Configuration(cr1)
  {
  }

  lemma ClearRxneie(cr1: bv32)
    ensures !IsFlag(ClearFlag(cr1, CR1_RXNEIE), CR1_RXNEIE)
    ensures IsFlag(ClearFlag(cr1, CR1_RXNEIE), CR1_TXEIE) == IsFlag(cr1, CR1_TXEIE)
    ensures Configuration(ClearFlag(cr1, CR1_RXNEIE)) == Configuration(cr1)
  {
  }

  /**
   * `usart_handle_interrupt` on the state it touches. ISR and CR1 are read once, before either
   * half runs, so the RX half is decided on CR1 as it was on entry; each half reads the tick
   * counter itself (`txCounter`, `rxCounter`).
   */
  function InterruptStep(p: Port, isr: bv32, txCounter: Tick, txReply: TxReply,
                         rxCounter: Tick, rdr: bv8, rxProceed: bool): Port
    requires PortArmed(p)
  {
    var afterTx := if TxEvent(isr, p.cr1) then TxStep(p, txCounter, txReply) else p;
    if RxEvent(isr, p.cr1) then RxStep(afterTx, rxCounter, rdr, rxProceed) else afterTx
  }

  /**
   * What one interrupt does: each half whose event fired either goes on (TX: one more byte in
   * TDR) or ends its transfer (enable bit cleared, context reset); a half whose event did not
   * fire changes nothing; one call is logged per half that fired; no other CR1 bit changes;
   * and the armed invariant is kept.
   */
  lemma InterruptStepEffect(p: Port, isr: bv32, txCounter: Tick, txReply: TxReply,
                            rxCounter: Tick, rdr: bv8, rxProceed: bool)
    requires PortArmed(p)
    ensures var p' := InterruptStep(p, isr, txCounter, txReply, rxCounter, rdr, rxProceed);
      && PortArmed(p')
      && (!TxEvent(isr, p.cr1) && !RxEvent(isr, p.cr1) ==> p' == p)
      && (!TxEvent(isr, p.cr1) ==> p'.tx == p.tx && p'.tdr == p.tdr)
      && (!RxEvent(isr, p.cr1) ==> p'.rx == p.rx)
      && (TxEvent(isr, p.cr1) && txReply.proceed ==> p'.tdr == p.tdr + [txReply.data] && p'.tx == p.tx)
      && (TxEvent(isr, p.cr1) && !txReply.proceed ==> p'.tdr == p.tdr && p'.tx == IdleContext && !IsFlag(p'.cr1, CR1_TXEIE))
      && (RxEvent(isr, p.cr1) && rxProceed ==> p'.rx == p.rx)
      && (RxEvent(isr, p.cr1) && !rxProceed ==> p'.rx == IdleContext && !IsFlag(p'.cr1, CR1_RXNEIE))
  {
    var afterTx := if TxEvent(isr, p.cr1) then TxStep(p, txCounter, txReply) else p;
    if TxEvent(isr, p.cr1) && !txReply.proceed {
      ClearEnableBit(p.cr1, CR1_TXEIE, CR1_RXNEIE);
    }
    assert PortArmed(afterTx);
    if RxEvent(isr, p.cr1) && !rxProceed {
      ClearEnableBit(afterTx.cr1, CR1_RXNEIE, CR1_TXEIE);
    }
  }

  /** An interrupt changes no CR1 bit other than TXEIE and RXNEIE. */
  lemma InterruptStepKeepsConfiguration(p: Port, isr: bv32, txCounter: Tick, txReply: TxReply,
                                        rxCounter: Tick, rdr: bv8, rxProceed: bool)
    requires PortArmed(p)
    ensures var p' := InterruptStep(p, isr, txCounter, txReply, rxCounter, rdr, rxProceed);
      Configuration(p'.cr1) == Configuration(p.cr1)
  {
    var afterTx := if TxEvent(isr, p.cr1) then TxStep(p, txCounter, txReply) else p;
    if TxEvent(isr, p.cr1) {
      StepKeepsConfiguration(p.cr1, afterTx.cr1);
    }
    assert Configuration(afterTx.cr1) == Configuration(p.cr1);
    var p' := InterruptStep(p, isr, txCounter, txReply, rxCounter, rdr, rxProceed);
    if RxEvent(isr, p.cr1) {
      assert p' == RxStep(afterTx, rxCounter, rdr, rxProceed);
      StepKeepsConfiguration(afterTx.cr1, p'.cr1);
    } else {
      assert p' == afterTx;
    }
  }

  lemma StepKeepsConfiguration(before: bv32, after: bv32)
    requires after == before || after == ClearFlag(before, CR1_TXEIE) || after == ClearFlag(before, CR1_RXNEIE)
    ensures Configuration(after) == Configuration(before)
  {
    if after == ClearFlag(before, CR1_TXEIE) {
      ClearTxeie(before);
    } else if after == ClearFlag(before, CR1_RXNEIE) {
      ClearRxneie(before);
    }
  }

  /** One callback call is logged for the TX half, then one for the RX half, each only when its event fired. */
  lemma InterruptStepCalls(p: Port, isr: bv32, txCounter: Tick, txReply: TxReply,
                           rxCounter: Tick, rdr: bv8, rxProceed: bool)
    requires PortArmed(p)
    ensures var p' := InterruptStep(p, isr, txCounter, txReply, rxCounter, rdr, rxProceed);
      p'.calls == p.calls
        + (if TxEvent(isr, p.cr1) then [TxCall(p.tx.callback.value, Diff(txCounter, p.tx.startTimestamp) < p.tx.timeout)] else [])
        + (if RxEvent(isr, p.cr1) then [RxCall(p.rx.callback.value, rdr, Diff(rxCounter, p.rx.startTimestamp) < p.rx.timeout)] else [])
  {
    var afterTx := if TxEvent(isr, p.cr1) then TxStep(p, txCounter, txReply) else p;
    assert afterTx.rx == p.rx;
    if TxEvent(isr, p.cr1) {
      assert afterTx.calls == p.calls + [TxCall(p.tx.callback.value, Diff(txCounter, p.tx.startTimestamp) < p.tx.timeout)];
    } else {
      assert afterTx.calls == p.calls + [];
    }
    if !RxEvent(isr, p.cr1) {
      assert afterTx.calls + [] == afterTx.calls;
    }
  }

  /** The number of leading `false` entries of `s`: the index of its first `true`, or `|s|`. */
  function LeadingFalse(s: seq<bool>): (w: nat)
    ensures w <= |s|
    ensures forall k :: 0 <= k < w ==> !s[k]
    ensures w < |s| ==> s[w]
  {
    if s == [] || s[0] then 0 else 1 + LeadingFalse(s[1..])
  }

  /** The USART registers the driver touches; TDR and ICR are write-only and kept as logs of the values written. */
  class UsartRegisters {
    var cr1: bv32
    var cr2: bv32
    var cr3: bv32
    var brr: uint32
    var tdr: seq<bv8>
    var icr: seq<bv32>

    constructor ()
      ensures cr1 == 0 && cr2 == 0 && cr3 == 0 && brr == 0 && tdr == [] && icr == []
    {
      cr1, cr2, cr3, brr, tdr, icr := 0, 0, 0, 0, [], [];
    }
  }

  /** The register writes of `enable`, from clearing CR1 to CR3 to setting RE and TE. */
  method Configure(registers: UsartRegisters, config: Config, clock: Clock)
    requires config.baudRate != BaudRateUnknown && config.flowControl != FlowControlUnknown
    requires config.parity != ParityUnknown && config.stopBits != StopBitsUnknown
    requires config.wordLength != WordLengthUnknown && config.oversampling != OversamplingUnknown
    modifies registers
    ensures registers.cr1 == EnabledCr1(config)
    ensures registers.cr2 == StopBitsBits(config.stopBits)
    ensures registers.cr3 == FlowControlBits(config.flowControl)
    ensures registers.brr == BaudRateRegister(clock.frequencyHz, config.baudRate.rate, config.oversampling)
    ensures registers.tdr == old(registers.tdr) && registers.icr == old(registers.icr)
  {
    registers.cr1 := 0;
    registers.cr2 := 0;
    registers.cr3 := 0;
    registers.cr2 := StopBitsBits(config.stopBits);
    registers.cr3 := FlowControlBits(config.flowControl);
    registers.brr := BaudRateRegister(clock.frequencyHz, config.baudRate.rate, config.oversampling);
    registers.cr1 := SetFlag(registers.cr1, WordLengthBits(config.wordLength) | OversamplingBits(config.oversampling) | ParityBits(config.parity));
    registers.cr1 := SetFlag(registers.cr1, CR1_UE);
    registers.cr1 := SetFlag(registers.cr1, CR1_RE | CR1_TE);
  }

  /** One entry of the `controllers` table: the peripheral's registers and the driver object bound to it. */
  class Controller {
    const registers: UsartRegisters
    var handle: UsartPort?

    constructor (regs: UsartRegisters)
      ensures registers == regs && handle == null
    {
      registers := regs;
      handle := null;
    }
  }

  /** `hal::stm32l011xx::USART`. */
  class UsartPort {
    /** `to_index(id)`: the position of this peripheral in the `controllers` table. */
    const id: nat
    /** `p_usart`. */
    var registers: UsartRegisters?
    var txContext: Context
    var rxContext: Context
    var baudRate: BaudRate
    var calls: seq<CallbackCall>

    constructor (index: nat)
      ensures id == index && registers == null
      ensures txContext == IdleContext && rxContext == IdleContext
      ensures baudRate == BaudRateUnknown && calls == []
    {
      id := index;
      registers := null;
      txContext, rxContext := IdleContext, IdleContext;
      baudRate := BaudRateUnknown;
      calls := [];
    }

    function Snapshot(): Port
      reads this, registers
      requires registers != null
    {
      Port(registers.cr1, registers.tdr, txContext, rxContext, calls)
    }

    /** No interrupt-enable bit is set while its context is empty. */
    predicate Armed()
      reads this, registers
    {
      registers != null && PortArmed(Snapshot())
    }

    /** `usart_handle_interrupt(this)`. */
    method HandleInterrupt(isr: bv32, txCounter: Tick, txReply: TxReply, rxCounter: Tick, rdr: bv8, rxProceed: bool)
      requires Armed()
      modifies this`calls, this`txContext, this`rxContext, registers`cr1, registers`tdr
      ensures registers == old(registers) && Armed()
      ensures Snapshot() == InterruptStep(old(Snapshot()), isr, txCounter, txReply, rxCounter, rdr, rxProceed)
      ensures registers.cr2 == old(registers.cr2) && registers.cr3 == old(registers.cr3)
      ensures registers.brr == old(registers.brr) && registers.icr == old(registers.icr)
      ensures baudRate == old(baudRate)
    {
      var cr1 := registers.cr1;
      ghost var before := Snapshot();
      InterruptStepEffect(before, isr, txCounter, txReply, rxCounter, rdr, rxProceed);
      TxHalf(isr, cr1, txCounter, txReply);
      RxHalf(isr, cr1, rxCounter, rdr, rxProceed);
    }

    /** The TX half of the handler: on an enabled TXE, the callback's call, then its byte or the end of the transfer. */
    method TxHalf(isr: bv32, cr1: bv32, txCounter: Tick, txReply: TxReply)
      requires registers != null
      requires TxEvent(isr, cr1) ==> txContext.callback.Some?
      modifies this`calls, this`txContext, registers`cr1, registers`tdr
      ensures Snapshot() == if TxEvent(isr, cr1) then TxStep(old(Snapshot()), txCounter, txReply) else old(Snapshot())
    {
      if IsFlag(isr, ISR_TXE) && IsFlag(cr1, CR1_TXEIE) {
        var call := TxCall(txContext.callback.value, WrappingSub(txCounter, txContext.startTimestamp) < txContext.timeout);
        calls := calls + [call];
        if txReply.proceed {
          registers.tdr := registers.tdr + [txReply.data];
        } else {
          registers.cr1 := ClearFlag(registers.cr1, CR1_TXEIE);
          txContext := IdleContext;
        }
      }
    }

    /** The RX half of the handler: on an enabled RXNE, the callback's call with RDR, then the end of the transfer unless it goes on. */
    method RxHalf(isr: bv32, cr1: bv32, rxCounter: Tick, rdr: bv8, rxProceed: bool)
      requires registers != null
      requires RxEvent(isr, cr1) ==> rxContext.callback.Some?
      modifies this`calls, this`rxContext, registers`cr1
      ensures Snapshot() == if RxEvent(isr, cr1) then RxStep(old(Snapshot()), rxCounter, rdr, rxProceed) else old(Snapshot())
    {
      if IsFlag(isr, ISR_RXNE) && IsFlag(cr1, CR1_RXNEIE) {
        var call := RxCall(rxContext.callback.value, rdr, WrappingSub(rxCounter, rxContext.startTimestamp) < rxContext.timeout);
        calls := calls + [call];
        if !rxProceed {
          registers.cr1 := ClearFlag(registers.cr1, CR1_RXNEIE);
          rxContext := IdleContext;
        }
      }
    }

    /**
     * `enable`: binds this driver in the table, programs CR2, CR3, BRR and CR1 from the
     * configuration, enables the peripheral, receiver and transmitter, and returns what
     * `wait_until_isr(REACK | TEACK, false, now, timeout)` returns (`ready`).
     */
    method Enable(controllers: seq<Controller>, config: Config, clock: Clock, timeout: Tick, ready: bool) returns (ok: bool)
      requires id < |controllers|
      requires config.baudRate != BaudRateUnknown && config.flowControl != FlowControlUnknown
      requires config.parity != ParityUnknown && config.stopBits != StopBitsUnknown
      requires config.wordLength != WordLengthUnknown && config.oversampling != OversamplingUnknown
      requires clock.source != ClockSourceUnknown && clock.frequencyHz != 0
      modifies this, controllers[id], controllers[id].registers
      ensures controllers[id].handle == this
      ensures registers == controllers[id].registers
      ensures registers.cr1 == EnabledCr1(config)
      ensures registers.cr2 == StopBitsBits(config.stopBits)
      ensures registers.cr3 == FlowControlBits(config.flowControl)
      ensures registers.brr == BaudRateRegister(clock.frequencyHz, config.baudRate.rate, config.oversampling)
      ensures registers.tdr == old(controllers[id].registers.tdr) && registers.icr == old(controllers[id].registers.icr)
      ensures baudRate == config.baudRate
      ensures txContext == old(txContext) && rxContext == old(rxContext) && calls == old(calls)
      ensures Armed()
      ensures ok == ready
    {
      controllers[id].handle := this;
      registers := controllers[id].registers;
      Configure(registers, config, clock);
      EnabledCr1Armed(config);
      baudRate := config.baudRate;
      ok := ready;
    }

    /** `disable`: clears CR1 to CR3 and unbinds the driver; `p_usart` keeps pointing at the registers. */
    method Disable(controllers: seq<Controller>)
      requires id < |controllers|
      requires registers != null
      modifies registers, controllers[id]
      ensures registers == old(registers)
      ensures registers.cr1 == 0 && registers.cr2 == 0 && registers.cr3 == 0
      ensures registers.brr == old(registers.brr) && registers.tdr == old(registers.tdr) && registers.icr == old(registers.icr)
      ensures controllers[id].handle == null
      ensures Armed()
    {
      registers.cr1 := 0;
      registers.cr2 := 0;
      registers.cr3 := 0;
      controllers[id].handle := null;
    }

    /** `write_bytes_polling(data, size)`: every byte goes to TDR in order, then TC is awaited and TCCF written to ICR. */
    method WriteBytesPolling(data: seq<bv8>, size: uint32)
      requires registers != null
      requires size > 0 && size as int <= |data|
      modifies registers`tdr, registers`icr
      ensures registers.tdr == old(registers.tdr) + data[..size]
      ensures registers.icr == old(registers.icr) + [ICR_TCCF]
      ensures registers.cr1 == old(registers.cr1) && registers.cr2 == old(registers.cr2)
      ensures registers.cr3 == old(registers.cr3) && registers.brr == old(registers.brr)
    {
      var i: uint32 := 0;
      while i < size
        invariant i <= size
        invariant registers.tdr == old(registers.tdr) + data[..i]
        invariant registers.icr == old(registers.icr)
        invariant registers.cr1 == old(registers.cr1) && registers.cr2 == old(registers.cr2)
        invariant registers.cr3 == old(registers.cr3) && registers.brr == old(registers.brr)
      {
        registers.tdr := registers.tdr + [data[i]];
        assert data[..i + 1] == data[..i] + [data[i]];
        i := i + 1;
      }
      registers.icr := registers.icr + [ICR_TCCF];
    }

    /**
     * `write_bytes_polling(data, size, timeout)`: sets TE, then for each byte waits for TXE and
     * writes the byte unless that wait timed out, stopping at the first timeout; finally waits for
     * TC and reports success when that last wait did not time out. `timedOut[k]` is the result of
     * the `k`-th `wait_until_isr` call, read as "timed out".
     */
    method WriteBytesPollingTimed(data: seq<bv8>, size: uint32, timeout: Tick, timedOut: seq<bool>)
      returns (ok: bool)
      requires registers != null
      requires size > 0 && size as int <= |data|
      requires |timedOut| > size as int
      modifies registers`cr1, registers`tdr
      ensures registers.cr1 == SetFlag(old(registers.cr1), CR1_TE)
      ensures registers.tdr == old(registers.tdr) + data[..Min(size as int, LeadingFalse(timedOut))]
      ensures ok == !timedOut[Min(size as int, LeadingFalse(timedOut) + 1)]
      ensures registers.icr == old(registers.icr) && registers.cr2 == old(registers.cr2)
      ensures registers.cr3 == old(registers.cr3) && registers.brr == old(registers.brr)
    {
      var timeoutOccured := false;
      registers.cr1 := SetFlag(registers.cr1, CR1_TE);
      var i: uint32 := 0;
      while i < size && !timeoutOccured
        invariant i <= size
        invariant forall k :: 0 <= k < i as int - 1 ==> !timedOut[k]
        invariant i > 0 ==> timeoutOccured == timedOut[i - 1]
        invariant i == 0 ==> !timeoutOccured
        invariant registers.tdr == old(registers.tdr) + data[..i as int - (if timeoutOccured then 1 else 0)]
        invariant registers.cr1 == SetFlag(old(registers.cr1), CR1_TE)
        invariant registers.icr == old(registers.icr) && registers.cr2 == old(registers.cr2)
        invariant registers.cr3 == old(registers.cr3) && registers.brr == old(registers.brr)
      {
        timeoutOccured := timedOut[i];
        if !timeoutOccured {
          registers.tdr := registers.tdr + [data[i]];
          assert data[..i + 1] == data[..i] + [data[i]];
        }
        i := i + 1;
      }
      assert i as int == Min(size as int, LeadingFalse(timedOut) + 1);
      timeoutOccured := timedOut[i];
      ok := !timeoutOccured;
    }

    /** `read_bytes_polling(data, size)`: waits for RXNE before each byte and stores what RDR returns. */
    method ReadBytesPolling(buffer: array<bv8>, size: uint32, rdr: seq<bv8>)
      requires registers != null
      requires size > 0 && size as int <= buffer.Length
      requires |rdr| >= size as int
      modifies buffer
      ensures buffer[..size] == rdr[..size]
      ensures buffer[size..] == old(buffer[size..])
    {
      var i: uint32 := 0;
      while i < size
        invariant i <= size
        invariant buffer[..i] == rdr[..i]
        invariant buffer[size..] == old(buffer[size..])
      {
        buffer[i] := rdr[i];
        i := i + 1;
      }
    }

    /**
     * `read_bytes_polling(data, size, timeout)`: stops at the first timed-out wait; the bytes read
     * until then fill a prefix of the buffer, and success means every byte arrived.
     */
    method ReadBytesPollingTimed(buffer: array<bv8>, size: uint32, timeout: Tick,
                                 timedOut: seq<bool>, rdr: seq<bv8>) returns (ok: bool)
      requires registers != null
      requires size > 0 && size as int <= buffer.Length
      requires |timedOut| >= size as int && |rdr| >= size as int
      modifies buffer
      ensures buffer[..Min(size as int, LeadingFalse(timedOut))] == rdr[..Min(size as int, LeadingFalse(timedOut))]
      ensures buffer[Min(size as int, LeadingFalse(timedOut))..] == old(buffer[Min(size as int, LeadingFalse(timedOut))..])
      ensures ok <==> LeadingFalse(timedOut) >= size as int
    {
      var timeoutOccured := false;
      var i: uint32 := 0;
      while i < size && !timeoutOccured
        invariant i <= size
        invariant forall k :: 0 <= k < i as int - 1 ==> !timedOut[k]
        invariant i > 0 ==> timeoutOccured == timedOut[i - 1]
        invariant i == 0 ==> !timeoutOccured
        invariant buffer[..i as int - (if timeoutOccured then 1 else 0)] == rdr[..i as int - (if timeoutOccured then 1 else 0)]
        invariant buffer[i as int - (if timeoutOccured then 1 else 0)..] == old(buffer[i as int - (if timeoutOccured then 1 else 0)..])
      {
        timeoutOccured := timedOut[i];
        if !timeoutOccured {
          buffer[i] := rdr[i];
        }
        i := i + 1;
      }
      ok := !timeoutOccured;
    }

    /**
     * `write_bytes_IT(callback, timeout)`: TXEIE is cleared; a callback is stored with the current
     * tick and the timeout and TXEIE is set again, a null callback leaves the context reset.
     */
    method WriteBytesIT(callback: Option<Callback>, timeout: Tick, counter: Tick)
      requires registers != null
      modifies this`txContext, registers`cr1
      ensures callback.Some? ==> txContext == Context(callback, counter, timeout)
      ensures callback.Some? ==> registers.cr1 == SetFlag(ClearFlag(old(registers.cr1), CR1_TXEIE), CR1_TXEIE)
      ensures callback.None? ==> txContext == IdleContext && registers.cr1 == ClearFlag(old(registers.cr1), CR1_TXEIE)
      ensures registers.cr2 == old(registers.cr2) && registers.cr3 == old(registers.cr3) && registers.brr == old(registers.brr)
      ensures registers.tdr == old(registers.tdr) && registers.icr == old(registers.icr)
      ensures old(Armed()) ==> Armed()
    {
      registers.cr1 := ClearFlag(registers.cr1, CR1_TXEIE);
      if callback.Some? {
        txContext := Context(callback, counter, timeout);
        registers.cr1 := SetFlag(registers.cr1, CR1_TXEIE);
      } else {
        txContext := IdleContext;
      }
    }

    /** `read_bytes_IT(callback, timeout)`: the same protocol on RXNEIE and the RX context. */
    method ReadBytesIT(callback: Option<Callback>, timeout: Tick, counter: Tick)
      requires registers != null
      modifies this`rxContext, registers`cr1
      ensures callback.Some? ==> rxContext == Context(callback, counter, timeout)
      ensures callback.Some? ==> registers.cr1 == SetFlag(ClearFlag(old(registers.cr1), CR1_RXNEIE), CR1_RXNEIE)
      ensures callback.None? ==> rxContext == IdleContext && registers.cr1 == ClearFlag(old(registers.cr1), CR1_RXNEIE)
      ensures registers.cr2 == old(registers.cr2) && registers.cr3 == old(registers.cr3) && registers.brr == old(registers.brr)
      ensures registers.tdr == old(registers.tdr) && registers.icr == old(registers.icr)
      ensures old(Armed()) ==> Armed()
    {
      registers.cr1 := ClearFlag(registers.cr1, CR1_RXNEIE);
      if callback.Some? {
        rxContext := Context(callback, counter, timeout);
        registers.cr1 := SetFlag(registers.cr1, CR1_RXNEIE);
      } else {
        rxContext := IdleContext;
      }
    }

    /**
     * `set_baud_rate`: with UE cleared, BRR becomes `SystemCoreClock / baud`; the stored
     * `baud_rate` is not updated and the oversampling mode is not consulted.
     */
    method SetBaudRate(baud: BaudRate, systemCoreClock: uint32)
      requires registers != null
      requires baud != BaudRateUnknown
      modifies registers`cr1, registers`brr
      ensures registers.brr == systemCoreClock / baud.rate
      ensures registers.cr1 == SetFlag(ClearFlag(old(registers.cr1), CR1_UE), CR1_UE)
      ensures registers.cr2 == old(registers.cr2) && registers.cr3 == old(registers.cr3)
      ensures registers.tdr == old(registers.tdr) && registers.icr == old(registers.icr)
    {
      registers.cr1 := ClearFlag(registers.cr1, CR1_UE);
      registers.brr := systemCoreClock / baud.rate;
      registers.cr1 := SetFlag(registers.cr1, CR1_UE);
    }

    /** `set_oversampling`: with UE cleared, the mode's bits are ORed into CR1. */
    method SetOversampling(o: Oversampling)
      requires registers != null
      requires o != OversamplingUnknown
      modifies registers`cr1
      ensures registers.cr1 == SetFlag(SetFlag(ClearFlag(old(registers.cr1), CR1_UE), OversamplingBits(o)), CR1_UE)
      ensures registers.cr2 == old(registers.cr2) && registers.cr3 == old(registers.cr3) && registers.brr == old(registers.brr)
      ensures registers.tdr == old(registers.tdr) && registers.icr == old(registers.icr)
    {
      registers.cr1 := ClearFlag(registers.cr1, CR1_UE);
      registers.cr1 := SetFlag(registers.cr1, OversamplingBits(o));
      registers.cr1 := SetFlag(registers.cr1, CR1_UE);
    }

    /** `set_word_length`: with UE cleared, the length's bits and UE are ORed into CR1. */
    method SetWordLength(w: WordLength)
      requires registers != null
      requires w != WordLengthUnknown
      modifies registers`cr1
      ensures registers.cr1 == SetFlag(ClearFlag(old(registers.cr1), CR1_UE), WordLengthBits(w) | CR1_UE)
      ensures registers.cr2 == old(registers.cr2) && registers.cr3 == old(registers.cr3) && registers.brr == old(registers.brr)
      ensures registers.tdr == old(registers.tdr) && registers.icr == old(registers.icr)
    {
      registers.cr1 := ClearFlag(registers.cr1, CR1_UE);
      registers.cr1 := SetFlag(registers.cr1, WordLengthBits(w) | CR1_UE);
    }

    /** `set_parity`: with UE cleared, the parity's bits and UE are ORed into CR1. */
    method SetParity(p: Parity)
      requires registers != null
      requires p != ParityUnknown
      modifies registers`cr1
      ensures registers.cr1 == SetFlag(ClearFlag(old(registers.cr1), CR1_UE), ParityBits(p) | CR1_UE)
      ensures registers.cr2 == old(registers.cr2) && registers.cr3 == old(registers.cr3) && registers.brr == old(registers.brr)
      ensures registers.tdr == old(registers.tdr) && registers.icr == old(registers.icr)
    {
      registers.cr1 := ClearFlag(registers.cr1, CR1_UE);
      registers.cr1 := SetFlag(registers.cr1, ParityBits(p) | CR1_UE);
    }

    /** `set_stop_bits`: with UE cleared, the stop-bit field value is ORed into CR2. */
    method SetStopBits(s: StopBits)
      requires registers != null
      requires s != StopBitsUnknown
      modifies registers`cr1, registers`cr2
      ensures registers.cr1 == SetFlag(ClearFlag(old(registers.cr1), CR1_UE), CR1_UE)
      ensures registers.cr2 == SetFlag(old(registers.cr2), StopBitsBits(s))
      ensures registers.cr3 == old(registers.cr3) && registers.brr == old(registers.brr)
      ensures registers.tdr == old(registers.tdr) && registers.icr == old(registers.icr)
    {
      registers.cr1 := ClearFlag(registers.cr1, CR1_UE);
      registers.cr2 := SetFlag(registers.cr2, StopBitsBits(s));
      registers.cr1 := SetFlag(registers.cr1, CR1_UE);
    }

    /** `set_flow_control`: with UE cleared, the flow-control bits are ORed into CR3. */
    method SetFlowControl(f: FlowControl)
      requires registers != null
      requires f != FlowControlUnknown
      modifies registers`cr1, registers`cr3
      ensures registers.cr1 == SetFlag(ClearFlag(old(registers.cr1), CR1_UE), CR1_UE)
      ensures registers.cr3 == SetFlag(old(registers.cr3), FlowControlBits(f))
      ensures registers.cr2 == old(registers.cr2) && registers.brr == old(registers.brr)
      ensures registers.tdr == old(registers.tdr) && registers.icr == old(registers.icr)
    {
      registers.cr1 := ClearFlag(registers.cr1, CR1_UE);
      registers.cr3 := SetFlag(registers.cr3, FlowControlBits(f));
      registers.cr1 := SetFlag(registers.cr1, CR1_UE);
    }
  }

  /** `USART2_IRQHandler`: asserts that a driver is bound to the table's only entry and runs its handler. */
  method Usart2IrqHandler(controllers: seq<Controller>, isr: bv32, txCounter: Tick, txReply: TxReply,
                          rxCounter: Tick, rdr: bv8, rxProceed: bool)
    requires |controllers| > 0
    requires controllers[0].handle != null
    requires controllers[0].handle.Armed()
    modifies controllers[0].handle, controllers[0].handle.registers
    ensures controllers[0].handle.registers == old(controllers[0].handle.registers)
    ensures controllers[0].handle.Snapshot()
      == InterruptStep(old(controllers[0].handle.Snapshot()), isr, txCounter, txReply, rxCounter, rdr, rxProceed)
  {
    controllers[0].handle.HandleInterrupt(isr, txCounter, txReply, rxCounter, rdr, rxProceed);
  }
}
