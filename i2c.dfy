/**
 * lib/soc/stm32l452xx/peripherals/I2C.cpp, the parts that only compute: the register layout,
 * the ISR decode into a bus status, the RCC clock-source field, the CR2 transfer word, and the
 * interrupt handlers as steps over a snapshot of the state they read and write.
 *
 * Bit positions follow the STM32L4 reference manual (RM0394), section 37.7 (I2C registers)
 * and section 6.4.27 (RCC_CCIPR).
 */
module I2c {
  import opened Common
  import opened Bits

  // I2C_CR1
  const CR1_PE: bv32 := 0x1
  const CR1_TXIE: bv32 := 0x2
  const CR1_RXIE: bv32 := 0x4
  const CR1_ADDRIE: bv32 := 0x8
  const CR1_NACKIE: bv32 := 0x10
  const CR1_STOPIE: bv32 := 0x20
  const CR1_ANFOFF: bv32 := 0x1000
  const CR1_PECEN: bv32 := 0x80_0000

  // I2C_CR2
  const CR2_SADD: bv32 := 0x3FF
  const CR2_RD_WRN: bv32 := 0x400
  const CR2_START: bv32 := 0x2000
  const CR2_NBYTES_POS: bv32 := 16
  const CR2_NBYTES_MSK: bv32 := 0xFF_0000
  const CR2_AUTOEND: bv32 := 0x200_0000

  // I2C_OAR1
  const OAR1_OA1EN: bv32 := 0x8000

  // I2C_ISR
  const ISR_TXE: bv32 := 0x1
  const ISR_RXNE: bv32 := 0x4
  const ISR_ADDR: bv32 := 0x8
  const ISR_NACKF: bv32 := 0x10
  const ISR_STOPF: bv32 := 0x20
  const ISR_BERR: bv32 := 0x100
  const ISR_ARLO: bv32 := 0x200
  const ISR_OVR: bv32 := 0x400
  const ISR_PECERR: bv32 := 0x800
  const ISR_TIMEOUT: bv32 := 0x1000

  // I2C_ICR
  const ICR_ADDRCF: bv32 := 0x8
  const ICR_NACKCF: bv32 := 0x10
  const ICR_STOPCF: bv32 := 0x20
  const ICR_BERRCF: bv32 := 0x100
  const ICR_ARLOCF: bv32 := 0x200
  const ICR_OVRCF: bv32 := 0x400
  const ICR_PECCF: bv32 := 0x800
  const ICR_TIMOUTCF: bv32 := 0x1000

  /** The ISR flags `is_I2C_ISR_error` looks at. */
  const ISR_ERRORS: bv32 := ISR_TIMEOUT | ISR_PECERR | ISR_OVR | ISR_ARLO | ISR_BERR | ISR_NACKF

  /** The slave transmit loops' `error_mask`: the same flags without NACKF. */
  const SLAVE_TX_ERRORS: bv32 := ISR_TIMEOUT | ISR_PECERR | ISR_OVR | ISR_ARLO | ISR_BERR

  /** What `clear_I2C_ISR_errors` writes to ICR. */
  const ICR_ERRORS: bv32 := ICR_TIMOUTCF | ICR_PECCF | ICR_OVRCF | ICR_ARLOCF | ICR_BERRCF | ICR_NACKCF

  /**
   * What a read of I2C_ICR returns. Its bits are write-only, and RM0394 has write-only bits read
   * back as their reset value, which is zero. So `set_flag(&ICR, f)` writes exactly `f`, and the
   * model keeps ICR as the log of the values written.
   */
  const ICR_READ: bv32 := 0

  /** Position of the I2C1SEL field in RCC_CCIPR; I2C2SEL and I2C3SEL follow two bits apart. */
  const CCIPR_I2C1SEL_POS: bv32 := 12

  /** The I2C4SEL field of RCC_CCIPR2. */
  const CCIPR2_I2C4SEL: bv32 := 0x3

  /** `is_any_bit(r, mask)`: some bit of `mask` is set in `r`. */
  predicate IsAnyBit(r: bv32, mask: bv32)
  {
    r & mask != 0
  }

  /** `is_I2C_ISR_error(isr)`. */
  predicate IsIsrError(isr: bv32)
  {
    IsAnyBit(isr, ISR_ERRORS)
  }

  /** The ISR reports an error exactly when one of its six error flags is set. */
  lemma IsIsrErrorFlags(isr: bv32)
    ensures IsIsrError(isr) <==>
      IsFlag(isr, ISR_TIMEOUT) || IsFlag(isr, ISR_PECERR) || IsFlag(isr, ISR_OVR) ||
      IsFlag(isr, ISR_ARLO) || IsFlag(isr, ISR_BERR) || IsFlag(isr, ISR_NACKF)
  {
  }

  /** `I2C_base::Bus_status_flag`: a set of four independent conditions; `ok` is the empty set. */
  datatype BusStatus = BusStatus(bufferError: bool, arbitrationLost: bool, misplaced: bool, nack: bool)

  const BusOk: BusStatus := BusStatus(false, false, false, false)

  /** `get_bus_status_flag_from_I2C_ISR(isr)`: starts from `ok` and adds one condition per flag. */
  function BusStatusOf(isr: bv32): (s: BusStatus)
    ensures s.bufferError <==> IsFlag(isr, ISR_OVR)
    ensures s.arbitrationLost <==> IsFlag(isr, ISR_ARLO)
    ensures s.misplaced <==> IsFlag(isr, ISR_BERR)
    ensures s.nack <==> IsFlag(isr, ISR_NACKF)
  {
    var s0 := BusOk;
    var s1 := if IsFlag(isr, ISR_OVR) then s0.(bufferError := true) else s0;
    var s2 := if IsFlag(isr, ISR_ARLO) then s1.(arbitrationLost := true) else s1;
    var s3 := if IsFlag(isr, ISR_BERR) then s2.(misplaced := true) else s2;
    if IsFlag(isr, ISR_NACKF) then s3.(nack := true) else s3
  }

  /**
   * The status is `ok` exactly when none of OVR, ARLO, BERR, NACKF is set; a status other than
   * `ok` always comes with an ISR error, and TIMEOUT or PECERR alone are an error whose status
   * is `ok`.
   */
  lemma BusStatusAndError(isr: bv32)
    ensures BusStatusOf(isr) == BusOk <==> isr & (ISR_OVR | ISR_ARLO | ISR_BERR | ISR_NACKF) == 0
    ensures BusStatusOf(isr) != BusOk ==> IsIsrError(isr)
    ensures isr & ISR_ERRORS == ISR_TIMEOUT ==> IsIsrError(isr) && BusStatusOf(isr) == BusOk
    ensures isr & ISR_ERRORS == ISR_PECERR ==> IsIsrError(isr) && BusStatusOf(isr) == BusOk
  {
    var s := BusStatusOf(isr);
    assert s == BusOk <==> !s.bufferError && !s.arbitrationLost && !s.misplaced && !s.nack;
  }

  /** `I2C_base::Id`. */
  datatype Id = I2c1 | I2c2 | I2c3 | I2c4

  /** `static_cast<uint32_t>(id)`: the position in the `controllers` table. */
  function TableIndex(id: Id): (k: nat)
    ensures k < 4
  {
    match id
    case I2c1 => 0
    case I2c2 => 1
    case I2c3 => 2
    case I2c4 => 3
  }

  function IdBits(id: Id): bv32
  {
    match id
    case I2c1 => 0
    case I2c2 => 1
    case I2c3 => 2
    case I2c4 => 3
  }

  /** `I2C_base::Clock_source`, with the I2CxSEL encodings of RM0394. */
  datatype ClockSource = Pclk1 | Sysclk | Hsi16

  function ClockSourceBits(c: ClockSource): (v: bv32)
    ensures v <= 2
  {
    match c
    case Pclk1 => 0
    case Sysclk => 1
    case Hsi16 => 2
  }

  /** The first bit of an id's clock-selection field: in RCC_CCIPR for I2C1 to I2C3, in RCC_CCIPR2 for I2C4. */
  function SelectionPosition(id: Id): (pos: bv32)
    ensures pos < 32
  {
    match id
    case I2c1 => 12
    case I2c2 => 14
    case I2c3 => 16
    case I2c4 => 0
  }

  /** The source computes the position of I2C1SEL to I2C3SEL as the I2C1SEL position plus twice the id. */
  lemma SelectionPositionFormula(id: Id)
    requires id != I2c4
    ensures CCIPR_I2C1SEL_POS + IdBits(id) * 2 == SelectionPosition(id)
  {
    match id
    case I2c1 =>
    case I2c2 =>
    case I2c3 =>
  }

  /**
   * `get_RCC_CCIPR_from_clock_source(source, id)`: the clock source shifted into the id's field
   * of RCC_CCIPR for I2C1 to I2C3, and unshifted (the I2C4SEL field of RCC_CCIPR2) for I2C4.
   */
  function RccCcipr(c: ClockSource, id: Id): bv32
  {
    match id
    case I2c4 => ClockSourceBits(c)
    case _ => ClockSourceBits(c) << (CCIPR_I2C1SEL_POS + IdBits(id) * 2)
  }

  /** The value holds the source's code in the id's two-bit field and nothing outside it. */
  lemma RccCciprField(c: ClockSource, id: Id)
    ensures RccCcipr(c, id) >> SelectionPosition(id) == ClockSourceBits(c)
    ensures RccCcipr(c, id) & !(3 << SelectionPosition(id)) == 0
  {
    if id != I2c4 {
      SelectionPositionFormula(id);
    }
  }

  /**
   * `get_clock_source_from_RCC_CCIPR(id)` as written, given the register holding the id's field
   * (RCC_CCIPR for I2C1 to I2C3, RCC_CCIPR2 for I2C4): for I2C1 to I2C3 it masks the id's field
   * but shifts back by the I2C1SEL position only; for I2C4 it masks I2C4SEL.
   */
  function ClockSourceReadBack(reg: bv32, id: Id): bv32
  {
    match id
    case I2c4 => GetFlag(reg, CCIPR2_I2C4SEL)
    case _ => GetFlag(reg, 3 << (CCIPR_I2C1SEL_POS + IdBits(id) * 2)) >> CCIPR_I2C1SEL_POS
  }

  /** The id's two-bit I2CxSEL field. */
  function SelectionField(id: Id): bv32
  {
    3 << SelectionPosition(id)
  }

  /**
   * The `i2c_x_enable` write, `set_flag(reg, I2CxSEL, RccCcipr(c, id))`, applied to the register
   * holding the id's field.
   */
  function SelectionWrite(c: ClockSource, id: Id, reg: bv32): bv32
  {
    SetFlagMasked(reg, SelectionField(id), RccCcipr(c, id))
  }

  /** A masked `set_flag` whose value lies inside the cleared field puts the value in the field and keeps the rest. */
  lemma MaskedSetField(r: bv32, field: bv32, v: bv32)
    requires v & !field == 0
    ensures SetFlagMasked(r, field, v) & field == v
    ensures SetFlagMasked(r, field, v) & !field == r & !field
  {
  }

  /** Selecting a clock source puts `RccCcipr` in the id's field and leaves every other bit as it was. */
  lemma SelectionWriteFields(c: ClockSource, id: Id, reg: bv32)
    ensures SelectionWrite(c, id, reg) & SelectionField(id) == RccCcipr(c, id)
    ensures SelectionWrite(c, id, reg) & !SelectionField(id) == reg & !SelectionField(id)
  {
    RccCciprField(c, id);
    MaskedSetField(reg, SelectionField(id), RccCcipr(c, id));
  }

  /** Both read-backs see only the id's field. */
  lemma ReadBackOfField(reg: bv32, id: Id)
    ensures ClockSourceReadBack(reg, id) == if id == I2c4 then reg & SelectionField(id) else (reg & SelectionField(id)) >> CCIPR_I2C1SEL_POS
    ensures ClockSourceReadBackCorrected(reg, id) == (reg & SelectionField(id)) >> SelectionPosition(id)
  {
    match id
    case I2c1 => assert SelectionField(id) == 0x3000 && (3 as bv32) << (CCIPR_I2C1SEL_POS + IdBits(id) * 2) == 0x3000;
    case I2c2 => assert SelectionField(id) == 0xC000 && (3 as bv32) << (CCIPR_I2C1SEL_POS + IdBits(id) * 2) == 0xC000;
    case I2c3 => assert SelectionField(id) == 0x3_0000 && (3 as bv32) << (CCIPR_I2C1SEL_POS + IdBits(id) * 2) == 0x3_0000;
    case I2c4 =>
  }

  /** What the two read-backs make of a register whose id field holds the selection of `c`. */
  lemma ReadBackOfSelection(reg: bv32, c: ClockSource, id: Id)
    requires reg & SelectionField(id) == RccCcipr(c, id)
    ensures ClockSourceReadBack(reg, id) == match id
      case I2c2 => ClockSourceBits(c) << 2
      case I2c3 => ClockSourceBits(c) << 4
      case _ => ClockSourceBits(c)
    ensures ClockSourceReadBackCorrected(reg, id) == ClockSourceBits(c)
  {
    ReadBackOfField(reg, id);
    RccCciprField(c, id);
    match id
    case I2c1 => assert RccCcipr(c, id) >> CCIPR_I2C1SEL_POS == ClockSourceBits(c);
    case I2c2 => assert RccCcipr(c, id) >> CCIPR_I2C1SEL_POS == ClockSourceBits(c) << 2;
    case I2c3 => assert RccCcipr(c, id) >> CCIPR_I2C1SEL_POS == ClockSourceBits(c) << 4;
    case I2c4 =>
  }

  /**
   * As written, the read-back undoes the selection only for I2C1 and I2C4: for I2C2 and I2C3 it
   * returns the code shifted left by two or four bits, so SYSCLK on I2C2 reads back as 4.
   */
  lemma ClockSourceReadBackAsWritten(c: ClockSource, id: Id, reg: bv32)
    ensures ClockSourceReadBack(SelectionWrite(c, id, reg), id) == match id
      case I2c2 => ClockSourceBits(c) << 2
      case I2c3 => ClockSourceBits(c) << 4
      case _ => ClockSourceBits(c)
    ensures id == I2c2 && c == Sysclk ==> ClockSourceReadBack(SelectionWrite(c, id, reg), id) == 4
  {
    SelectionWriteFields(c, id, reg);
    ReadBackOfSelection(SelectionWrite(c, id, reg), c, id);
  }

  /** The read-back the code evidently intends: shift back by the id's own field position. */
  function ClockSourceReadBackCorrected(reg: bv32, id: Id): bv32
  {
    match id
    case I2c4 => GetFlag(reg, CCIPR2_I2C4SEL)
    case _ => GetFlag(reg, 3 << (CCIPR_I2C1SEL_POS + IdBits(id) * 2)) >> (CCIPR_I2C1SEL_POS + IdBits(id) * 2)
  }

  /** The corrected read-back returns the source that was selected, for every id and every prior register value. */
  lemma ClockSourceRoundTrip(c: ClockSource, id: Id, reg: bv32)
    ensures ClockSourceReadBackCorrected(SelectionWrite(c, id, reg), id) == ClockSourceBits(c)
  {
    SelectionWriteFields(c, id, reg);
    ReadBackOfSelection(SelectionWrite(c, id, reg), c, id);
  }

  /**
   * The CR2 word that starts a master transfer: the 7-bit address shifted into SADD, the byte
   * count in NBYTES, START and AUTOEND, and RD_WRN for a read.
   */
  function TransferCr2(address: bv16, size: bv32, read: bool): bv32
  {
    (((address as bv32) << 1) & CR2_SADD) | (size << CR2_NBYTES_POS) | CR2_START | CR2_AUTOEND | (if read then CR2_RD_WRN else 0)
  }

  /** The fields of the transfer word decode back to what was asked for when the count fits NBYTES. */
  lemma TransferCr2Fields(address: bv16, size: bv32, read: bool)
    requires 0 < size <= 255
    ensures TransferCr2(address, size, read) & CR2_SADD == ((address as bv32) << 1) & CR2_SADD
    ensures (TransferCr2(address, size, read) & CR2_NBYTES_MSK) >> CR2_NBYTES_POS == size
    ensures IsFlag(TransferCr2(address, size, read), CR2_START | CR2_AUTOEND)
    ensures IsFlag(TransferCr2(address, size, read), CR2_RD_WRN) <==> read
  {
  }

  /** The CR2 word of `is_slave_connected`: the address, AUTOEND and START, with no byte to move. */
  function ProbeCr2(address: bv16): bv32
  {
    (((address as bv32) << 1) & CR2_SADD) | CR2_AUTOEND | CR2_START
  }

  /** The probe addresses the slave for a write of zero bytes. */
  lemma ProbeCr2Fields(address: bv16)
    ensures ProbeCr2(address) & CR2_SADD == ((address as bv32) << 1) & CR2_SADD
    ensures ProbeCr2(address) & CR2_NBYTES_MSK == 0
    ensures IsFlag(ProbeCr2(address), CR2_START | CR2_AUTOEND)
    ensures !IsFlag(ProbeCr2(address), CR2_RD_WRN)
  {
  }

  /** Masking the count with NBYTES_Msk, as one of the transfers does, changes nothing for counts up to 255. */
  lemma CountFitsNbytes(size: uint32)
    requires size <= 255
    ensures ((size as bv32) << CR2_NBYTES_POS) & CR2_NBYTES_MSK == (size as bv32) << CR2_NBYTES_POS
  {
  }

  /** The transfer word as the untimed master transmit builds it, with the count masked to NBYTES. */
  function MaskedTransferCr2(address: bv16, size: bv32): bv32
  {
    (((address as bv32) << 1) & CR2_SADD) | ((size << CR2_NBYTES_POS) & CR2_NBYTES_MSK) | CR2_START | CR2_AUTOEND
  }

  /** For a count that fits NBYTES the mask changes nothing: the word is the plain write word. */
  lemma MaskedTransferCr2Agrees(address: bv16, size: uint32)
    requires size <= 255
    ensures MaskedTransferCr2(address, size as bv32) == TransferCr2(address, size as bv32, false)
  {
    CountFitsNbytes(size);
  }

  /** CR1 after `enable`: the analog filter off when not wanted, PEC when wanted, and PE. */
  function EnabledCr1(analogFilter: bool, crcEnable: bool): bv32
  {
    (if !analogFilter then CR1_ANFOFF else 0) | (if crcEnable then CR1_PECEN else 0) | CR1_PE
  }

  /** The peripheral is on, the two options read back, and no interrupt is enabled. */
  lemma EnabledCr1Bits(analogFilter: bool, crcEnable: bool)
    ensures IsFlag(EnabledCr1(analogFilter, crcEnable), CR1_PE)
    ensures IsFlag(EnabledCr1(analogFilter, crcEnable), CR1_ANFOFF) <==> !analogFilter
    ensures IsFlag(EnabledCr1(analogFilter, crcEnable), CR1_PECEN) <==> crcEnable
    ensures EnabledCr1(analogFilter, crcEnable) & (CR1_TXIE | CR1_RXIE | CR1_ADDRIE | CR1_NACKIE | CR1_STOPIE) == 0
  {
  }

  /** OAR1 after the slave's `enable`: own address 1 enabled, holding the 7-bit address. */
  function OwnAddress(address: bv16): bv32
  {
    OAR1_OA1EN | ((address as bv32) << 1)
  }

  lemma OwnAddressFields(address: bv16)
    requires address <= 0x7F
    ensures IsFlag(OwnAddress(address), OAR1_OA1EN)
    ensures (OwnAddress(address) >> 1) & 0x7F == address as bv32
    ensures OwnAddress(address) & 1 == 0
  {
  }

  /** A callback: the function pointer (`None` stands for null where a field may hold one) and its user data. */
  datatype Callback = Callback(handler: nat, userData: nat)

  /** A call an interrupt handler made, with its arguments; `stop` is the `a_stop` flag. */
  datatype Call =
    | BusStatusCall(callback: Callback, status: BusStatus)
    | RxCall(callback: Callback, data: bv8, stop: bool)
    | TxCall(callback: Callback, stop: bool)

  /**
   * What the interrupt handlers read and write: the live CR1, the TXDR and ICR write logs, the
   * three callbacks of `I2C_base`, and the calls made so far.
   */
  datatype Port = Port(cr1: bv32, txdr: seq<bv8>, icr: seq<bv32>,
                       tx: Option<Callback>, rx: Option<Callback>, busStatus: Option<Callback>,
                       calls: seq<Call>)

  predicate RxneEvent(isr: bv32, cr1: bv32) { IsFlag(isr, ISR_RXNE) && IsFlag(cr1, CR1_RXIE) }

  predicate TxeEvent(isr: bv32, cr1: bv32) { IsFlag(isr, ISR_TXE) && IsFlag(cr1, CR1_TXIE) }

  predicate StopEvent(isr: bv32, cr1: bv32) { IsFlag(isr, ISR_STOPF) && IsFlag(cr1, CR1_STOPIE) }

  predicate AddrEvent(isr: bv32, cr1: bv32) { IsFlag(isr, ISR_ADDR) && IsFlag(cr1, CR1_ADDRIE) }

  /**
   * The RXNE and TXE handlers call their callback without a null check; the source relies on
   * an enabled RX or TX event arriving only while that callback is set.
   */
  predicate Callable(p: Port, isr: bv32)
  {
    (RxneEvent(isr, p.cr1) ==> p.rx.Some?) && (TxeEvent(isr, p.cr1) ==> p.tx.Some?)
  }

  /** The call `bus_status_interrupt_handler` makes, if any. */
  function BusCalls(p: Port, isr: bv32): seq<Call>
  {
    if p.busStatus.Some? && BusStatusOf(isr) != BusOk then [BusStatusCall(p.busStatus.value, BusStatusOf(isr))] else []
  }

  /** `bus_status_interrupt_handler(isr)`; `clear` is what the callback returns. */
  function BusStatusStep(p: Port, isr: bv32, clear: bool): (p': Port)
    ensures p'.cr1 == p.cr1 && p'.txdr == p.txdr && p'.tx == p.tx && p'.rx == p.rx && p'.busStatus == p.busStatus
  {
    if p.busStatus.Some? then
      var status := BusStatusOf(isr);
      if status != BusOk then
        var p1 := p.(calls := p.calls + [BusStatusCall(p.busStatus.value, status)]);
        if clear then p1.(icr := p1.icr + [ICR_ERRORS]) else p1
      else p
    else p
  }

  /**
   * The bus-status callback is called only when one is registered and the status is not `ok`,
   * and then only with an ISR that reports an error; the errors are cleared only when it
   * returned true.
   */
  lemma BusStatusStepEffect(p: Port, isr: bv32, clear: bool)
    ensures BusStatusStep(p, isr, clear).calls == p.calls + BusCalls(p, isr)
    ensures BusStatusStep(p, isr, clear).icr == p.icr + (if BusCalls(p, isr) != [] && clear then [ICR_ERRORS] else [])
    ensures BusCalls(p, isr) != [] ==> IsIsrError(isr)
  {
    if BusCalls(p, isr) != [] {
      BusStatusAndError(isr);
    }
  }

  function RxCalls(p: Port, isr: bv32, cr1: bv32, rxdr: bv8): seq<Call>
    requires RxneEvent(isr, cr1) ==> p.rx.Some?
  {
    if RxneEvent(isr, cr1) then [RxCall(p.rx.value, rxdr, false)] else []
  }

  function TxCalls(p: Port, isr: bv32, cr1: bv32): seq<Call>
    requires TxeEvent(isr, cr1) ==> p.tx.Some?
  {
    if TxeEvent(isr, cr1) then [TxCall(p.tx.value, false)] else []
  }

  function TxWrites(isr: bv32, cr1: bv32, written: Option<bv8>): seq<bv8>
  {
    if TxeEvent(isr, cr1) && written.Some? then [written.value] else []
  }

  /** `rxne_interrupt_handler(isr, cr1)`: hands the RXDR byte to the RX callback. */
  function RxneStep(p: Port, isr: bv32, cr1: bv32, rxdr: bv8): (p': Port)
    requires RxneEvent(isr, cr1) ==> p.rx.Some?
    ensures p'.calls == p.calls + RxCalls(p, isr, cr1, rxdr)
    ensures p'.cr1 == p.cr1 && p'.txdr == p.txdr && p'.icr == p.icr
    ensures p'.tx == p.tx && p'.rx == p.rx && p'.busStatus == p.busStatus
  {
    if RxneEvent(isr, cr1) then p.(calls := p.calls + [RxCall(p.rx.value, rxdr, false)]) else p
  }

  /** `txe_interrupt_handler(isr, cr1)`: the TX callback may store a byte through the TXDR pointer (`written`). */
  function TxeStep(p: Port, isr: bv32, cr1: bv32, written: Option<bv8>): (p': Port)
    requires TxeEvent(isr, cr1) ==> p.tx.Some?
    ensures p'.calls == p.calls + TxCalls(p, isr, cr1)
    ensures p'.txdr == p.txdr + TxWrites(isr, cr1, written)
    ensures p'.cr1 == p.cr1 && p'.icr == p.icr
    ensures p'.tx == p.tx && p'.rx == p.rx && p'.busStatus == p.busStatus
  {
    if TxeEvent(isr, cr1) then
      var p1 := p.(calls := p.calls + [TxCall(p.tx.value, false)]);
      if written.Some? then p1.(txdr := p1.txdr + [written.value]) else p1
    else p
  }

  /** The calls the STOP handler makes: the TX callback first, then the RX callback, each with `stop` set. */
  function FinalCalls(p: Port): seq<Call>
  {
    (if p.tx.Some? then [TxCall(p.tx.value, true)] else []) +
    (if p.rx.Some? then [RxCall(p.rx.value, 0, true)] else [])
  }

  /** The CR1 bits the STOP handler may clear. */
  const CR1_TRANSFER_IE: bv32 := CR1_TXIE | CR1_RXIE | CR1_STOPIE | CR1_ADDRIE

  /** The STOP handler's TX half: a set TX callback gets its final call, loses its enable bits and is reset. */
  function TxTeardown(p: Port): (p': Port)
    ensures p'.tx == None && p'.rx == p.rx
    ensures p'.calls == p.calls + (if p.tx.Some? then [TxCall(p.tx.value, true)] else [])
    ensures p'.cr1 == if p.tx.Some? then ClearFlag(p.cr1, CR1_TXIE | CR1_STOPIE | CR1_ADDRIE) else p.cr1
    ensures p'.icr == p.icr && p'.txdr == p.txdr && p'.busStatus == p.busStatus
  {
    if p.tx.Some? then
      p.(calls := p.calls + [TxCall(p.tx.value, true)], cr1 := ClearFlag(p.cr1, CR1_TXIE | CR1_STOPIE | CR1_ADDRIE), tx := None)
    else p
  }

  /** The STOP handler's RX half, likewise with the RX enable bit. */
  function RxTeardown(p: Port): (p': Port)
    ensures p'.rx == None && p'.tx == p.tx
    ensures p'.calls == p.calls + (if p.rx.Some? then [RxCall(p.rx.value, 0, true)] else [])
    ensures p'.cr1 == if p.rx.Some? then ClearFlag(p.cr1, CR1_RXIE | CR1_STOPIE | CR1_ADDRIE) else p.cr1
    ensures p'.icr == p.icr && p'.txdr == p.txdr && p'.busStatus == p.busStatus
  {
    if p.rx.Some? then
      p.(calls := p.calls + [RxCall(p.rx.value, 0, true)], cr1 := ClearFlag(p.cr1, CR1_RXIE | CR1_STOPIE | CR1_ADDRIE), rx := None)
    else p
  }

  /** `stopf_interrupt_handler(isr, cr1)`: the TX half, the RX half, then STOPCF. */
  function StopfStep(p: Port, isr: bv32, cr1: bv32): Port
  {
    if StopEvent(isr, cr1) then
      var p2 := RxTeardown(TxTeardown(p));
      p2.(icr := p2.icr + [ICR_STOPCF])
    else p
  }

  /** CR1 after the STOP handler's clears, for the callbacks that were armed. */
  function StopCr1(cr1: bv32, txArmed: bool, rxArmed: bool): bv32
  {
    var c1 := if txArmed then ClearFlag(cr1, CR1_TXIE | CR1_STOPIE | CR1_ADDRIE) else cr1;
    if rxArmed then ClearFlag(c1, CR1_RXIE | CR1_STOPIE | CR1_ADDRIE) else c1
  }

  /** The clears remove the armed transfers' enable bits and keep every other bit. */
  lemma StopCr1Bits(cr1: bv32, txArmed: bool, rxArmed: bool)
    ensures StopCr1(cr1, txArmed, rxArmed) & !CR1_TRANSFER_IE == cr1 & !CR1_TRANSFER_IE
    ensures txArmed ==> StopCr1(cr1, txArmed, rxArmed) & (CR1_TXIE | CR1_STOPIE | CR1_ADDRIE) == 0
    ensures rxArmed ==> StopCr1(cr1, txArmed, rxArmed) & (CR1_RXIE | CR1_STOPIE | CR1_ADDRIE) == 0
    ensures !txArmed && !rxArmed ==> StopCr1(cr1, txArmed, rxArmed) == cr1
  {
  }

  /**
   * On an enabled STOP, each armed callback is called once with `stop` set, both callbacks are
   * reset and STOPCF is written, and CR1 loses the armed transfers' enable bits (see
   * `StopCr1Bits`). Without a STOP nothing changes.
   */
  lemma StopfStepEffect(p: Port, isr: bv32, cr1: bv32)
    ensures var p' := StopfStep(p, isr, cr1);
      p'.txdr == p.txdr && p'.busStatus == p.busStatus
    ensures !StopEvent(isr, cr1) ==> StopfStep(p, isr, cr1) == p
    ensures StopEvent(isr, cr1) ==> var p' := StopfStep(p, isr, cr1);
      p'.tx == None && p'.rx == None &&
      p'.calls == p.calls + FinalCalls(p) &&
      p'.icr == p.icr + [ICR_STOPCF] &&
      p'.cr1 == StopCr1(p.cr1, p.tx.Some?, p.rx.Some?)
  {
    if StopEvent(isr, cr1) {
      var p1 := TxTeardown(p);
      var p2 := RxTeardown(p1);
      assert p2.calls == p.calls + FinalCalls(p);
    }
  }

  /** The RXNE, TXE and STOP handlers, run in this order by both the master and the slave handler. */
  function TransferSteps(p: Port, isr: bv32, cr1: bv32, rxdr: bv8, written: Option<bv8>): Port
    requires RxneEvent(isr, cr1) ==> p.rx.Some?
    requires TxeEvent(isr, cr1) ==> p.tx.Some?
  {
    StopfStep(TxeStep(RxneStep(p, isr, cr1, rxdr), isr, cr1, written), isr, cr1)
  }

  /**
   * The three transfer handlers together: the RX call, the TX call, then on a STOP the final
   * calls; what reaches TXDR and ICR; the callbacks torn down exactly on a STOP.
   */
  lemma TransferStepsEffect(p: Port, isr: bv32, cr1: bv32, rxdr: bv8, written: Option<bv8>)
    requires RxneEvent(isr, cr1) ==> p.rx.Some?
    requires TxeEvent(isr, cr1) ==> p.tx.Some?
    ensures var p' := TransferSteps(p, isr, cr1, rxdr, written);
      p'.calls == p.calls + RxCalls(p, isr, cr1, rxdr) + TxCalls(p, isr, cr1) +
                  (if StopEvent(isr, cr1) then FinalCalls(p) else []) &&
      p'.txdr == p.txdr + TxWrites(isr, cr1, written) &&
      p'.icr == p.icr + (if StopEvent(isr, cr1) then [ICR_STOPCF] else []) &&
      p'.busStatus == p.busStatus
    ensures StopEvent(isr, cr1) ==> var p' := TransferSteps(p, isr, cr1, rxdr, written);
      p'.tx == None && p'.rx == None && p'.cr1 == StopCr1(p.cr1, p.tx.Some?, p.rx.Some?)
    ensures !StopEvent(isr, cr1) ==> var p' := TransferSteps(p, isr, cr1, rxdr, written);
      p'.tx == p.tx && p'.rx == p.rx && p'.cr1 == p.cr1
  {
    var p3 := TxeStep(RxneStep(p, isr, cr1, rxdr), isr, cr1, written);
    assert p3.calls == p.calls + RxCalls(p, isr, cr1, rxdr) + TxCalls(p, isr, cr1);
    assert FinalCalls(p3) == FinalCalls(p);
    StopfStepEffect(p3, isr, cr1);
    if StopEvent(isr, cr1) {
      assert TransferSteps(p, isr, cr1, rxdr, written).calls == p3.calls + FinalCalls(p);
    }
  }

  /** `i2c_master_interrupt_handler`: ISR and CR1 are read once, then the four handlers run in turn. */
  function MasterStep(p: Port, isr: bv32, clear: bool, rxdr: bv8, written: Option<bv8>): Port
    requires Callable(p, isr)
  {
    TransferSteps(BusStatusStep(p, isr, clear), isr, p.cr1, rxdr, written)
  }

  /**
   * One master interrupt: the calls made, in order (bus status, RX, TX, then the final calls
   * of a STOP), and what reaches ICR.
   */
  lemma MasterStepEffect(p: Port, isr: bv32, clear: bool, rxdr: bv8, written: Option<bv8>)
    requires Callable(p, isr)
    ensures var p' := MasterStep(p, isr, clear, rxdr, written);
      p'.calls == p.calls + BusCalls(p, isr) + RxCalls(p, isr, p.cr1, rxdr) + TxCalls(p, isr, p.cr1) +
                  (if StopEvent(isr, p.cr1) then FinalCalls(p) else []) &&
      p'.txdr == p.txdr + TxWrites(isr, p.cr1, written) &&
      p'.icr == p.icr + (if BusCalls(p, isr) != [] && clear then [ICR_ERRORS] else []) +
                (if StopEvent(isr, p.cr1) then [ICR_STOPCF] else [])
  {
    var p1 := BusStatusStep(p, isr, clear);
    BusStatusStepEffect(p, isr, clear);
    assert FinalCalls(p1) == FinalCalls(p);
    assert RxCalls(p1, isr, p.cr1, rxdr) == RxCalls(p, isr, p.cr1, rxdr);
    assert TxCalls(p1, isr, p.cr1) == TxCalls(p, isr, p.cr1);
    TransferStepsEffect(p1, isr, p.cr1, rxdr, written);
  }

  /** The slave's NACK case: NACKF while a TX callback is armed. */
  predicate NackWhileTransmitting(p: Port, isr: bv32)
  {
    IsFlag(isr, ISR_NACKF) && p.tx.Some?
  }

  /** The first step of the slave handler: in the NACK case write NACKCF, otherwise run the bus-status handler. */
  function SlaveStatusStep(p: Port, isr: bv32, clear: bool): (p': Port)
    ensures p'.cr1 == p.cr1 && p'.txdr == p.txdr && p'.tx == p.tx && p'.rx == p.rx && p'.busStatus == p.busStatus
  {
    if NackWhileTransmitting(p, isr) then p.(icr := p.icr + [ICR_NACKCF]) else BusStatusStep(p, isr, clear)
  }

  /**
   * `i2c_slave_interrupt_handler`: the NACK case or the bus-status handler, then the RX, TX and
   * STOP handlers, then ADDRCF for an enabled ADDR.
   */
  function SlaveStep(p: Port, isr: bv32, clear: bool, rxdr: bv8, written: Option<bv8>): Port
    requires Callable(p, isr)
  {
    AddrStep(TransferSteps(SlaveStatusStep(p, isr, clear), isr, p.cr1, rxdr, written), isr, p.cr1)
  }

  /** The slave handler's last step: an enabled ADDR writes ADDRCF. */
  function AddrStep(p: Port, isr: bv32, cr1: bv32): (p': Port)
    ensures p'.icr == p.icr + (if AddrEvent(isr, cr1) then [ICR_ADDRCF] else [])
    ensures p'.cr1 == p.cr1 && p'.txdr == p.txdr && p'.calls == p.calls
    ensures p'.tx == p.tx && p'.rx == p.rx && p'.busStatus == p.busStatus
  {
    if AddrEvent(isr, cr1) then p.(icr := p.icr + [ICR_ADDRCF]) else p
  }

  /** The calls and ICR writes of the slave handler's first step. */
  function SlaveStatusCalls(p: Port, isr: bv32): seq<Call>
  {
    if NackWhileTransmitting(p, isr) then [] else BusCalls(p, isr)
  }

  function SlaveStatusClears(p: Port, isr: bv32, clear: bool): seq<bv32>
  {
    if NackWhileTransmitting(p, isr) then [ICR_NACKCF] else if BusCalls(p, isr) != [] && clear then [ICR_ERRORS] else []
  }

  /** What the slave handler's first step adds: the calls and ICR writes above, nothing else. */
  lemma SlaveStatusStepEffect(p: Port, isr: bv32, clear: bool)
    ensures SlaveStatusStep(p, isr, clear).calls == p.calls + SlaveStatusCalls(p, isr)
    ensures SlaveStatusStep(p, isr, clear).icr == p.icr + SlaveStatusClears(p, isr, clear)
    ensures NackWhileTransmitting(p, isr) ==> SlaveStatusCalls(p, isr) == [] && SlaveStatusClears(p, isr, clear) == [ICR_NACKCF]
  {
    BusStatusStepEffect(p, isr, clear);
  }

  /**
   * One slave interrupt. In the NACK case the bus-status callback is not called and NACKCF is
   * the first ICR write (`SlaveStatusStepEffect`); an enabled ADDR makes ADDRCF the last one.
   */
  lemma SlaveStepEffect(p: Port, isr: bv32, clear: bool, rxdr: bv8, written: Option<bv8>)
    requires Callable(p, isr)
    ensures SlaveStep(p, isr, clear, rxdr, written).calls ==
      p.calls + SlaveStatusCalls(p, isr) + RxCalls(p, isr, p.cr1, rxdr) + TxCalls(p, isr, p.cr1) +
      (if StopEvent(isr, p.cr1) then FinalCalls(p) else [])
    ensures SlaveStep(p, isr, clear, rxdr, written).txdr == p.txdr + TxWrites(isr, p.cr1, written)
    ensures SlaveStep(p, isr, clear, rxdr, written).icr ==
      p.icr + SlaveStatusClears(p, isr, clear) +
      (if StopEvent(isr, p.cr1) then [ICR_STOPCF] else []) +
      (if AddrEvent(isr, p.cr1) then [ICR_ADDRCF] else [])
  {
    var p1 := SlaveStatusStep(p, isr, clear);
    SlaveStatusStepEffect(p, isr, clear);
    SlaveTransferAfterStatus(p, isr, clear, rxdr, written);
    TransferStepsEffect(p1, isr, p.cr1, rxdr, written);
  }

  /** The slave's status step leaves the callbacks, so the transfer steps after it log what they would log from `p`. */
  lemma SlaveTransferAfterStatus(p: Port, isr: bv32, clear: bool, rxdr: bv8, written: Option<bv8>)
    requires Callable(p, isr)
    ensures var p1 := SlaveStatusStep(p, isr, clear);
      FinalCalls(p1) == FinalCalls(p) &&
      RxCalls(p1, isr, p.cr1, rxdr) == RxCalls(p, isr, p.cr1, rxdr) &&
      TxCalls(p1, isr, p.cr1) == TxCalls(p, isr, p.cr1)
  {
  }

  // ---------------------------------------------------------------------------------------
  // the callbacks the RXNE and TXE handlers call

  /**
   * A transfer interrupt is enabled only while its direction's callback is set. In an armed port
   * every interrupt finds the callbacks its handlers call (`ArmedCallable`).
   */
  predicate Armed(p: Port)
  {
    (IsFlag(p.cr1, CR1_TXIE) ==> p.tx.Some?) && (IsFlag(p.cr1, CR1_RXIE) ==> p.rx.Some?)
  }

  lemma ArmedCallable(p: Port, isr: bv32)
    requires Armed(p)
    ensures Callable(p, isr)
  {
  }

  /** The STOP clears leave neither transfer enable bit set when each set bit had its callback armed. */
  lemma StopCr1Disarms(cr1: bv32, txArmed: bool, rxArmed: bool)
    requires IsFlag(cr1, CR1_TXIE) ==> txArmed
    requires IsFlag(cr1, CR1_RXIE) ==> rxArmed
    ensures !IsFlag(StopCr1(cr1, txArmed, rxArmed), CR1_TXIE) && !IsFlag(StopCr1(cr1, txArmed, rxArmed), CR1_RXIE)
  {
  }

  /** The transfer handlers keep a port armed: they tear down a callback only together with its enable bit. */
  lemma TransferStepsKeepArmed(p: Port, isr: bv32, cr1: bv32, rxdr: bv8, written: Option<bv8>)
    requires Armed(p) && Callable(p, isr) && cr1 == p.cr1
    ensures Armed(TransferSteps(p, isr, cr1, rxdr, written))
  {
    TransferStepsEffect(p, isr, cr1, rxdr, written);
    if StopEvent(isr, cr1) {
      StopCr1Disarms(p.cr1, p.tx.Some?, p.rx.Some?);
    }
  }

  /** A master interrupt keeps the port armed. */
  lemma MasterStepKeepsArmed(p: Port, isr: bv32, clear: bool, rxdr: bv8, written: Option<bv8>)
    requires Armed(p)
    ensures Callable(p, isr) && Armed(MasterStep(p, isr, clear, rxdr, written))
  {
    var p1 := BusStatusStep(p, isr, clear);
    TransferStepsKeepArmed(p1, isr, p.cr1, rxdr, written);
  }

  /** A slave interrupt keeps the port armed. */
  lemma SlaveStepKeepsArmed(p: Port, isr: bv32, clear: bool, rxdr: bv8, written: Option<bv8>)
    requires Armed(p)
    ensures Callable(p, isr) && Armed(SlaveStep(p, isr, clear, rxdr, written))
  {
    var p1 := SlaveStatusStep(p, isr, clear);
    TransferStepsKeepArmed(p1, isr, p.cr1, rxdr, written);
  }

  /** `register_transmit_callback` on the port, as written: RX callback dropped, TX callback set, `enable` ORed into CR1. */
  function RegisterTransmit(p: Port, callback: Callback, enable: bv32): Port
  {
    p.(rx := None, tx := Some(callback), cr1 := SetFlag(p.cr1, enable))
  }

  /** `register_receive_callback` on the port, as written. */
  function RegisterReceive(p: Port, callback: Callback, enable: bv32): Port
  {
    p.(tx := None, rx := Some(callback), cr1 := SetFlag(p.cr1, enable))
  }

  /**
   * As written, switching direction before the STOP leaves the old direction's enable bit set
   * while its callback is null: after a transmit then a receive registration TXIE is still on
   * (and RXIE in the other order), so a TXE interrupt meets a null TX callback.
   */
  lemma RegistrationSwitchBreaksArmed(p: Port, tx: Callback, rx: Callback, txEnable: bv32, rxEnable: bv32)
    requires IsFlag(txEnable, CR1_TXIE) && IsFlag(rxEnable, CR1_RXIE)
    ensures var q := RegisterReceive(RegisterTransmit(p, tx, txEnable), rx, rxEnable);
      !Armed(q) && !Callable(q, ISR_TXE)
    ensures var q := RegisterTransmit(RegisterReceive(p, rx, rxEnable), tx, txEnable);
      !Armed(q) && !Callable(q, ISR_RXNE)
  {
    EnableSurvives(p.cr1, txEnable, rxEnable, CR1_TXIE);
    EnableSurvives(p.cr1, rxEnable, txEnable, CR1_RXIE);
  }

  /** A flag ORed in stays set when more bits are ORed in after it. */
  lemma EnableSurvives(cr1: bv32, first: bv32, second: bv32, f: bv32)
    requires IsFlag(first, f)
    ensures IsFlag(SetFlag(SetFlag(cr1, first), second), f)
  {
  }

  /** The registration evidently intended: the other direction's enable bit goes with its callback. */
  function RegisterTransmitCorrected(p: Port, callback: Callback, enable: bv32): Port
  {
    p.(rx := None, tx := Some(callback), cr1 := SetFlag(ClearFlag(p.cr1, CR1_RXIE), enable))
  }

  function RegisterReceiveCorrected(p: Port, callback: Callback, enable: bv32): Port
  {
    p.(tx := None, rx := Some(callback), cr1 := SetFlag(ClearFlag(p.cr1, CR1_TXIE), enable))
  }

  /**
   * The corrected transmit registration leaves every port armed, whatever came before, and
   * differs from the one as written only in RXIE.
   */
  lemma RegisterTransmitCorrectedArms(p: Port, callback: Callback, enable: bv32)
    requires !IsFlag(enable, CR1_RXIE)
    ensures Armed(RegisterTransmitCorrected(p, callback, enable))
    ensures RegisterTransmitCorrected(p, callback, enable).cr1 & !CR1_RXIE == RegisterTransmit(p, callback, enable).cr1 & !CR1_RXIE
  {
  }

  /** The corrected receive registration: likewise, with TXIE. */
  lemma RegisterReceiveCorrectedArms(p: Port, callback: Callback, enable: bv32)
    requires !IsFlag(enable, CR1_TXIE)
    ensures Armed(RegisterReceiveCorrected(p, callback, enable))
    ensures RegisterReceiveCorrected(p, callback, enable).cr1 & !CR1_TXIE == RegisterReceive(p, callback, enable).cr1 & !CR1_TXIE
  {
  }
}
