# STM32 HAL core, modelled in Dafny

This project models the computational core of a small C++ hardware-abstraction library for
STM32 microcontrollers and proves properties of it. The modelled parts are:

- the wrap-around tick arithmetic behind every timeout (`time::diff`);
- the bit and flag helpers on 32-bit registers (`bit.hpp`);
- the fixed-capacity `collection::Vector`;
- the number/text conversions and the `Argument` byte packing of `cstring.hpp`;
- the polling primitives `wait::until` and `sleep::ms` / `sleep::until`;
- the STM32L011 USART driver: the controller table, the interrupt handler and its TX/RX
  transfer contexts, the polling and interrupt-driven transfers, BRR arithmetic and the setters;
- the STM32L452 I2C driver: the ISR decode, the RCC clock-source field, the controller table
  with its master/slave slots, the interrupt handlers and the dispatcher, the master and slave
  polling transfers, callback registration and the slave probe.

Registers are `bv32` values. In-place operations are methods of classes with `modifies`
frames: `BitRegister.Register`, `Collection.Vector`, `Usart.UsartPort`, and the I2C
`I2cBase`, `I2cMaster` and `I2cSlave`. Write-only registers (TDR, TXDR, ICR, and CR2 as the I2C
driver uses it) are logs of the values written. The hardware is given as finite traces of what
successive reads return. A polling loop's termination, which the C++ leaves to the bus, is the
caller's guarantee ("the trace contains a sample that ends the loop"). Callbacks are oracles: a
handler takes the callback's reply as a parameter and records the call, with its arguments, in
a `calls` log.

Files: `common.dfy` (shared integer types, `Option`, sequence lemmas), `time.dfy`, `bit.dfy`,
`vector.dfy`, `cstring.dfy`, `wait.dfy`, `sleep.dfy`, `usart.dfy`, `i2c.dfy` (the pure part
of the I2C driver) and `i2c_driver.dfy` (its objects).

Register bit positions follow the STM32L4 reference manual (RM0394) for I2C and the STM32L0x1
reference manual (RM0377) for USART, because the vendor headers are not part of this model. No
property depends on the exact positions, with one exception noted under "## Left out": the
I2C clock-source codes.

The timed loops in `wait.hpp` and `sleep.hpp` measure elapsed time with
`common::time_tick_diff`, whose header `time_tick.hpp` is not part of this model; it is taken
to be `time::diff` of `time.hpp` (`Time.Diff`), the wrapping 32-bit difference.

## Model

| member | source | states |
|---|---|---|
| Time.Diff | lib/common/time.hpp:23-33 | the elapsed ticks are `(left - right) mod 2^32`; `left - right` when `left >= right`, otherwise `2^32 - (right - left)`; the result type proves the wrap branch `(infinity - right) + 1 + left` never overflows 32 bits |
| Time.WrappingSubIsDiff | lib/common/time.hpp:23-33 | the plain wrapping `uint32` subtraction used for elapsed time agrees with `diff` on every pair of ticks |
| Time.DiffSelf | lib/common/time.hpp:23-33 | `diff(a, a) == 0` |
| Time.DiffAfterAdvance | lib/common/time.hpp:23-33 | advancing a tick by `d` (wrapping) is measured as exactly `d`, for every `d < 2^32` |
| Bits.GetBit | lib/common/bit.hpp:16-21 | `get_bit(r, i)` holds iff bit `i` of `r` (shifted down to bit 0) is 1 |
| Bits.IsFlagBits | lib/common/bit.hpp:23-28 | `is_flag(r, f)` holds iff every bit set in `f` is set in `r` |
| Bits.EmptyFlagIsSet | lib/common/bit.hpp:23-28 | `is_flag(r, 0)` is always true |
| Bits.GetBitIsSingleBitFlag | lib/common/bit.hpp:16-28 | `get_bit(r, i)` equals `is_flag(r, 1 << i)` |
| Bits.GetFlagBits | lib/common/bit.hpp:30-35 | `get_flag(r, m)` has exactly the bits that are set in both `r` and `m`, so none outside `m` |
| Bits.BitwiseExtensional | lib/common/bit.hpp:16-21 | two register values that agree on every bit are equal, which turns the per-bit statements into value equalities |
| Bits.SetBitBits | lib/common/bit.hpp:37-41 | after `set_bit`, bit `i` is 1 and every other bit keeps its value |
| Bits.SetFlagBits | lib/common/bit.hpp:43-48 | after `set_flag`, a bit is 1 iff it was 1 or is in `f`, so no bit is cleared and `is_flag(result, f)` holds |
| Bits.SetFlagIdempotent | lib/common/bit.hpp:43-48 | setting a flag twice equals setting it once |
| Bits.SetFlagMaskedBits | lib/common/bit.hpp:50-57 | after the masked `set_flag`, a bit is 1 iff it is in `set`, or it was 1 and is not in `clear`, i.e. `(old & ~clear) \| set`; bits outside `clear \| set` are untouched |
| Bits.SetFlagMaskedSetsFlag | lib/common/bit.hpp:50-57 | after the masked `set_flag`, `is_flag(result, set)` holds |
| Bits.ClearBitBits | lib/common/bit.hpp:60-64 | after `clear_bit`, bit `i` is 0 and every other bit keeps its value |
| Bits.ClearBitAt | lib/common/bit.hpp:60-64 | bit `j` after `clear_bit(r, i)` is 1 iff it was 1 and `j != i` |
| Bits.ClearFlagBits | lib/common/bit.hpp:66-70 | after `clear_flag`, a bit is 1 iff it was 1 and is not in `f`; `result & f == 0` |
| Bits.ClearFlagIdempotent | lib/common/bit.hpp:66-70 | clearing a flag twice equals clearing it once |
| Bits.ClearedFlagIsNotSet | lib/common/bit.hpp:66-70 | a non-empty flag never reads as set right after it was cleared |
| Bits.ToggleBitBits | lib/common/bit.hpp:72-76 | after `toggle_bit`, bit `i` is inverted and every other bit keeps its value |
| Bits.ToggleBitInvolution | lib/common/bit.hpp:72-76 | toggling the same bit twice restores the register |
| BitRegister.Register.SetBit | lib/common/bit.hpp:37-41 | the register's new value is `set_bit` of its old value (see `Bits.SetBitBits`) |
| BitRegister.Register.SetFlag | lib/common/bit.hpp:43-48 | the register's new value is `set_flag` of its old value (see `Bits.SetFlagBits`) |
| BitRegister.Register.SetFlagMasked | lib/common/bit.hpp:50-57 | the register's new value is the masked `set_flag` of its old value (see `Bits.SetFlagMaskedBits`) |
| BitRegister.Register.ClearBit | lib/common/bit.hpp:60-64 | the register's new value is `clear_bit` of its old value (see `Bits.ClearBitBits`) |
| BitRegister.Register.ClearFlag | lib/common/bit.hpp:66-70 | the register's new value is `clear_flag` of its old value (see `Bits.ClearFlagBits`) |
| BitRegister.Register.ToggleBit | lib/common/bit.hpp:72-76 | the register's new value is `toggle_bit` of its old value (see `Bits.ToggleBitBits`) |
| Collection.Vector.constructor | lib/collection/Vector.hpp:22-29 | needs `capacity != 0` and a buffer of at least `capacity` cells; starts valid and empty |
| Collection.Vector.PushBack | lib/collection/Vector.hpp:39-49 | succeeds iff `length < capacity`; on success the element is appended (stored at the old `length`); on failure contents and buffer are unchanged; no other cell is written; validity (`length <= capacity`) is kept |
| Collection.Vector.PopBack | lib/collection/Vector.hpp:51-61 | succeeds iff `length > 0`; on success the last element is dropped; on failure the vector was and stays empty; the buffer cells are not written |
| Collection.Vector.Clear | lib/collection/Vector.hpp:63-66 | the vector becomes empty and stays valid |
| Collection.Vector.Get | lib/collection/Vector.hpp:68-78 | needs `index < length`; returns the element stored at `index` |
| Collection.Vector.Set | lib/collection/Vector.hpp:68-78 | writing through `operator[]` (needs `index < length`) replaces exactly that element; cells past `length` are kept |
| Collection.Vector.Length | lib/collection/Vector.hpp:80-83 | the length is the number of elements and at most the capacity |
| Collection.Vector.Capacity | lib/collection/Vector.hpp:85-88 | the capacity given at construction, never zero |
| Collection.Vector.IsEmpty | lib/collection/Vector.hpp:90-93 | true iff there is no element |
| Collection.Vector.IsFull | lib/collection/Vector.hpp:95-98 | true iff the number of elements equals the capacity |
| CString.Reverse | lib/cml/common/cstring.hpp:34-42 | as written (the loop runs to `n - 1`): the first `n` characters become `EndsSwapped` of the old ones, i.e. only the first and last trade places; the rest of the buffer is kept |
| CString.EndsSwappedShape | lib/cml/common/cstring.hpp:34-42 | what `reverse` as written leaves: the last character, the untouched inner part, then the first character |
| CString.EndsSwappedIsPermutation | lib/cml/common/cstring.hpp:34-42 | `reverse` as written only permutes: the result's multiset equals the input's |
| CString.EndsSwappedReversesIff | lib/cml/common/cstring.hpp:34-42 | `reverse` as written equals true reversal iff the inner part (without the two ends) is a palindrome, both directions |
| CString.EndsSwappedReversesShort | lib/cml/common/cstring.hpp:34-42 | for lengths 1 to 3 `reverse` as written is the exact reversal |
| CString.EndsSwappedCounterexample | lib/cml/common/cstring.hpp:34-42 | "abcd" becomes "dbca", not "dcba" |
| CString.ReverseCorrected | lib/cml/common/cstring.hpp:34-42 | the intended reversal (loop to the middle): the first `n` characters become their exact reversal; the rest is kept |
| CString.DigitsAreRadixDigits | lib/cml/common/cstring.hpp:100-110 | every character the conversion loop writes is a digit of the radix (`'0'..'9'`, `'a'..'f'`, below the base) |
| CString.DigitCountBounds | lib/cml/common/cstring.hpp:100-110 | a positive value has `k` digits with `base^(k-1) <= v < base^k`, i.e. the loop writes the number of base-radix digits |
| CString.DigitsOf32BitValue | lib/cml/common/cstring.hpp:84-111 | a 32-bit value has at most 32/11/10/8 digits in binary/octal/decimal/hexadecimal, so any non-binary radix plus NUL fits `format_number_buffer_capacity` |
| CString.ToUnsignedInteger | lib/cml/common/cstring.hpp:68-82 | the loop from the last character to the first computes the exact sum of `(s[i] - '0') * 10^(n-1-i)` over `i < n`, non-digits included, and the `uint32` instance's result (32-bit accumulator and multiplier) is that sum modulo 2^32 |
| CString.ParseNonDigit | lib/cml/common/cstring.hpp:68-82 | with no character check, "/" parses to -1 exactly and to 0xFFFFFFFF in the `uint32` instance |
| CString.WeightedDigitSumAppend | lib/cml/common/cstring.hpp:68-82 | appending a digit multiplies the positional value by ten and adds the digit |
| CString.ToSignedInteger | lib/cml/common/cstring.hpp:49-66 | needs every parsed character (after a leading '-') to be a digit; with a leading '-' the exact result is minus the value of `s[1..n)`, otherwise the value of `s[0..n)`; the `int32` instance's result is congruent to it modulo 2^32 |
| CString.DecimalDigitsRoundTrip | lib/cml/common/cstring.hpp:68-82 | reading back the reversed least-significant-first decimal digits of `v` gives `v` |
| CString.WriteDigitsLsbFirst | lib/cml/common/cstring.hpp:100-106 | the conversion loop writes the base-radix digits of the value, least significant first, returns their count, and writes nothing else |
| CString.FromUnsignedInteger | lib/cml/common/cstring.hpp:84-111 | as written: 0 gives "0", NUL and returns 1; otherwise returns the digit count, the buffer holds the digits as `reverse` as written leaves them, NUL at `ret`, the rest kept |
| CString.FromUnsignedIntegerCounterexample | lib/cml/common/cstring.hpp:84-111 | 1234 is written as "1324" where "1234" is intended |
| CString.FromUnsignedIntegerCorrected | lib/cml/common/cstring.hpp:84-111 | with the intended reversal: 0 gives "0"; otherwise the most-significant-first digits, in decimal exactly `DecimalText(value)`; NUL at `ret`; the rest kept |
| CString.DecimalTextRoundTrip | lib/cml/common/cstring.hpp:68-82 | the decimal text of `v` is non-empty, made of decimal digits, and parses back to `v` |
| CString.FormatThenParseUnsigned | lib/cml/common/cstring.hpp:68-111 | formatting any 32-bit value in decimal (corrected) and parsing the text with `to_unsigned_integer` gives the value back, for the exact and the `uint32` result alike |
| CString.TruncRem | lib/cml/common/cstring.hpp:132-133 | C++ `%` on a signed value: the remainder of the magnitude, with the sign of the dividend |
| CString.TruncDivAbs | lib/cml/common/cstring.hpp:132-136 | the truncated quotient and remainder have the magnitudes of `|v| / b` and `|v| % b`; a negative dividend gives a remainder of at most 0 |
| CString.WriteSignedDigitsLsbFirst | lib/cml/common/cstring.hpp:128-137 | the signed conversion loop writes `'0' + v % radix` (C++ truncating `%`) for each step of `v /= radix`, returns the count, writes nothing else |
| CString.FromSignedInteger | lib/cml/common/cstring.hpp:113-146 | as written: 0 gives "0"; otherwise the loop's characters, then one '-' for a negative value (so the count is digits + 1), as `reverse` as written leaves them; NUL at `ret` |
| CString.FromSignedIntegerCounterexample | lib/cml/common/cstring.hpp:128-146 | as written, -5 is formatted as "-+" and -3 as "--" |
| CString.CounterexampleDigit | lib/cml/common/cstring.hpp:128-140 | a single-digit negative value yields one character below '0' followed by the sign |
| CString.FromSignedIntegerCorrected | lib/cml/common/cstring.hpp:113-146 | with the magnitude's digits and the intended reversal: '-' first for negative values, then the most-significant-first digits; in decimal exactly `SignedDecimalText(value)`; NUL at `ret` |
| CString.SignedTextReversed | lib/cml/common/cstring.hpp:138-145 | reversing the magnitude's digits followed by the sign puts the sign first and the digits most significant first |
| CString.SignedDecimalTextParses | lib/cml/common/cstring.hpp:49-66 | the signed decimal text is an optional '-' followed by digits, and `to_signed_integer`'s reading of it is the value |
| CString.FormatThenParseSigned | lib/cml/common/cstring.hpp:49-66 | formatting any 32-bit signed value in decimal (corrected) and parsing it with `to_signed_integer` gives the value back, for the exact and the `int32` result alike |
| CString.BigEndianBytes | lib/cml/common/cstring.hpp:198-204 | the four bytes `(x >> 24) & 0xFF` ... `x & 0xFF`, most significant first, recompose `x` |
| CString.FromUInt32 | lib/cml/common/cstring.hpp:198-204 | a valid argument typed unsigned |
| CString.FromInt32 | lib/cml/common/cstring.hpp:206-212 | a valid argument typed signed, holding the two's-complement bytes |
| CString.FromUInt16 | lib/cml/common/cstring.hpp:214-220 | a valid argument typed unsigned |
| CString.FromInt16 | lib/cml/common/cstring.hpp:222-228 | as written: a valid argument typed signed with zero upper bytes |
| CString.FromUInt8 | lib/cml/common/cstring.hpp:230-233 | a valid argument typed unsigned |
| CString.FromInt8 | lib/cml/common/cstring.hpp:235-238 | a valid argument typed character, the character in the last byte |
| CString.FromCString | lib/cml/common/cstring.hpp:240-246 | a valid argument typed string, holding the 32-bit address |
| CString.DefaultArgumentHasNoGetter | lib/cml/common/cstring.hpp:304-305 | the defaulted constructor (line 180) with the member initialisers `data = {0}` and `type = unknown` gives four zero bytes and a type none of the four getters accepts |
| CString.GetUInt32 | lib/cml/common/cstring.hpp:264-268 | the type assertion becomes the requires; the result is the value whose big-endian bytes are the stored bytes |
| CString.GetInt32 | lib/cml/common/cstring.hpp:270-274 | the result is the `int32` whose two's-complement bytes are the stored bytes |
| CString.GetChar | lib/cml/common/cstring.hpp:276-280 | as written, the result is the most significant byte of the stored word |
| CString.GetCharCorrected | lib/cml/common/cstring.hpp:276-280 | the intended reading: the least significant byte of the stored word, where the `int8` constructor writes |
| CString.GetCString | lib/cml/common/cstring.hpp:282-289 | the result is the address whose big-endian bytes are the stored bytes |
| CString.UnsignedArgumentRoundTrip | lib/cml/common/cstring.hpp:264-268 | `get_uint32` returns `v` for the `uint32`, `uint16` and `uint8` constructors (the latter two zero-fill the top bytes) |
| CString.SignedArgumentRoundTrip | lib/cml/common/cstring.hpp:270-274 | `get_int32` returns `v` for the `int32` constructor |
| CString.CStringArgumentRoundTrip | lib/cml/common/cstring.hpp:282-289 | `get_cstring` returns the address the string constructor stored |
| CString.BigEndianBytesOf16Bits | lib/cml/common/cstring.hpp:214-228 | a value below 2^16 has two zero upper bytes |
| CString.Int16ArgumentAsWritten | lib/cml/common/cstring.hpp:222-228 | as written, `get_int32` of an `int16` argument returns `v mod 65536`, which differs from `v` for every negative `v` (-1 reads as 65535) |
| CString.FromInt16Corrected | lib/cml/common/cstring.hpp:222-228 | the sign-extending `int16` constructor, defined as the `int32` one: a valid argument typed signed |
| CString.Int16ArgumentCorrectedRoundTrip | lib/cml/common/cstring.hpp:222-228 | with sign extension `get_int32` returns `v`; for non-negative `v` it is the constructor as written |
| CString.CharArgumentAsWritten | lib/cml/common/cstring.hpp:276-280 | as written, `get_char` of an `int8` argument returns 0 for every character ('A' is not read back) |
| CString.CharArgumentCorrectedRoundTrip | lib/cml/common/cstring.hpp:276-280 | reading the last byte returns the character's code (`c mod 256`, `c` itself when non-negative) |
| Wait.Until | lib/utils/wait.hpp:31-35 | returns after the first read where `is_flag(reg, flag) != status`; every earlier read still showed `status`; reads no clock and writes nothing |
| Wait.UntilTimed | lib/utils/wait.hpp:37-54 | runs at least one pass and stops at the first pass that saw the flag changed or `diff(now, start) >= timeout`; returns true iff that pass saw the flag changed and no timeout; a timeout in the same pass gives false; timeout 0 gives false after one pass |
| Sleep.Ms | lib/utils/sleep.hpp:25-31 | returns at the first counter read after `start` with `diff(now, start) > time`, every earlier read being within `time` |
| Sleep.Until | lib/utils/sleep.hpp:58-62 | spins while `is_flag == status` and returns at the first read where it differs; it writes nothing |
| Sleep.UntilTimed | lib/utils/sleep.hpp:64-81 | returns true iff the last pass saw the flag leave `status` before `diff(now, start) >= timeout`; with timeout 0 always false, after one pass |
| Usart.Oversampling8Brr | lib/hal/stm32l011xx/USART.cpp:153-157 | the 8-fold BRR: below 0x10000, BRR[3] clear, BRR[15:4] = USARTDIV[15:4], BRR[2:0] = USARTDIV[3:0] >> 1 |
| Usart.FieldsPack | lib/hal/stm32l011xx/USART.cpp:153-157 | a 12-bit field above a 3-bit field packs below 0x10000 with bit 3 clear and both fields read back |
| Usart.EnabledCr1Armed | lib/hal/stm32l011xx/USART.cpp:137-172 | CR1 after `enable` has UE, RE and TE set, both interrupt enables clear, and the word-length, parity and oversampling fields as configured |
| Usart.Configure | lib/hal/stm32l011xx/USART.cpp:137-172 | the register writes of `enable`: CR2 and CR3 hold the stop-bit and flow-control values, BRR is `f / baud` (16-fold) or the 8-fold layout of `2f / baud` (32-bit arithmetic), CR1 is the enabled value; TDR and ICR untouched |
| Usart.Controller.constructor | lib/hal/stm32l011xx/USART.cpp:40-52 | a table entry holds its registers and no bound driver |
| Usart.UsartPort.Enable | lib/hal/stm32l011xx/USART.cpp:122-179 | binds `controllers[id]` to this driver, takes its registers, programs them as `Configure` states, keeps the contexts and the armed invariant, and returns the `wait_until_isr` result read as success |
| Usart.UsartPort.Disable | lib/hal/stm32l011xx/USART.cpp:181-191 | zeroes CR1 to CR3, clears the table binding, keeps BRR and the registers pointer |
| Usart.TxStep | lib/hal/stm32l011xx/USART.cpp:80-101 | TX half: the callback is called once with `elapsed < timeout`; if it returns true its byte reaches TDR and context and CR1 are unchanged; otherwise TXEIE is cleared and the context becomes `{null, 0, 0}`; RX is untouched |
| Usart.RxStep | lib/hal/stm32l011xx/USART.cpp:103-119 | RX half: the callback is called once with RDR and `elapsed < timeout`; if it returns false RXNEIE is cleared and the context reset; otherwise nothing changes; TX and TDR are untouched |
| Usart.ClearEnableBit | lib/hal/stm32l011xx/USART.cpp:95-113 | clearing one interrupt-enable bit clears it and keeps the other enable bit and the rest of CR1 |
| Usart.InterruptStepEffect | lib/hal/stm32l011xx/USART.cpp:73-120 | one interrupt: each half acts only when its event (TXE & TXEIE, RXNE & RXNEIE on entry CR1) fired; it then goes on or tears down; the halves act independently; with no event nothing changes; the armed invariant (an enable bit only with a callback) is kept |
| Usart.InterruptStepKeepsConfiguration | lib/hal/stm32l011xx/USART.cpp:73-120 | an interrupt changes no CR1 bit other than TXEIE and RXNEIE |
| Usart.InterruptStepCalls | lib/hal/stm32l011xx/USART.cpp:73-120 | an interrupt logs one TX call, then one RX call, each exactly when its event fired, with the arguments passed |
| Usart.UsartPort.HandleInterrupt | lib/hal/stm32l011xx/USART.cpp:73-120 | `usart_handle_interrupt` changes the port state exactly as `InterruptStep`, keeps CR2, CR3, BRR, ICR and the armed invariant |
| Usart.UsartPort.TxHalf | lib/hal/stm32l011xx/USART.cpp:80-101 | performs `TxStep` when the TX event fired, otherwise nothing |
| Usart.UsartPort.RxHalf | lib/hal/stm32l011xx/USART.cpp:103-119 | performs `RxStep` when the RX event fired, otherwise nothing |
| Usart.Usart2IrqHandler | lib/hal/stm32l011xx/USART.cpp:59-63 | needs a driver bound to the table's entry and runs its interrupt handler |
| Usart.LeadingFalse | lib/hal/stm32l011xx/USART.cpp:208-266 | the index of the first timed-out wait: all earlier waits succeeded and this one timed out |
| Usart.UsartPort.WriteBytesPolling | lib/hal/stm32l011xx/USART.cpp:193-206 | exactly `data[0..size)` is written to TDR in order, then TCCF to ICR; no configuration register changes |
| Usart.UsartPort.WriteBytesPollingTimed | lib/hal/stm32l011xx/USART.cpp:208-232 | sets TE; writes the bytes before the first timed-out wait (wait result read as "timed out"); returns the negation of the final TC wait's result |
| Usart.UsartPort.ReadBytesPolling | lib/hal/stm32l011xx/USART.cpp:234-244 | stores the first `size` RDR values in order and nothing past `size` |
| Usart.UsartPort.ReadBytesPollingTimed | lib/hal/stm32l011xx/USART.cpp:246-266 | stops at the first timed-out wait; only that prefix of the buffer is filled, the rest is untouched; succeeds iff no wait timed out, so a success fills all `size` bytes |
| Usart.UsartPort.WriteBytesIT | lib/hal/stm32l011xx/USART.cpp:268-288 | a null callback leaves TXEIE clear and the context zeroed; otherwise the context holds callback, counter and timeout and TXEIE is set after it; other registers kept; the armed invariant kept |
| Usart.UsartPort.ReadBytesIT | lib/hal/stm32l011xx/USART.cpp:290-310 | the same protocol on RXNEIE and the RX context |
| Usart.UsartPort.SetBaudRate | lib/hal/stm32l011xx/USART.cpp:312-319 | with UE cleared then set again, BRR becomes `SystemCoreClock / baud`; CR2, CR3 kept |
| Usart.UsartPort.SetOversampling | lib/hal/stm32l011xx/USART.cpp:321-328 | with UE cleared, the mode's bits are ORed into CR1, then UE set; other registers kept |
| Usart.UsartPort.SetWordLength | lib/hal/stm32l011xx/USART.cpp:330-336 | with UE cleared, the length's bits and UE are ORed into CR1; other registers kept |
| Usart.UsartPort.SetParity | lib/hal/stm32l011xx/USART.cpp:338-344 | with UE cleared, the parity's bits and UE are ORed into CR1; other registers kept |
| Usart.UsartPort.SetStopBits | lib/hal/stm32l011xx/USART.cpp:346-353 | with UE cleared and set, the stop-bit value is ORed into CR2; other registers kept |
| Usart.UsartPort.SetFlowControl | lib/hal/stm32l011xx/USART.cpp:355-362 | with UE cleared and set, the flow-control bits are ORed into CR3; other registers kept |
| I2c.IsIsrErrorFlags | lib/soc/stm32l452xx/peripherals/I2C.cpp:108-116 | `is_I2C_ISR_error` holds iff one of TIMEOUT, PECERR, OVR, ARLO, BERR, NACKF is set |
| I2c.BusStatusOf | lib/soc/stm32l452xx/peripherals/I2C.cpp:128-153 | the bus status has `buffer_error` iff OVR, `arbitration_lost` iff ARLO, `misplaced` iff BERR, `nack` iff NACKF |
| I2c.BusStatusAndError | lib/soc/stm32l452xx/peripherals/I2C.cpp:108-153 | the status is `ok` iff none of OVR/ARLO/BERR/NACKF is set; a non-`ok` status implies an ISR error; TIMEOUT or PECERR alone is an error with status `ok` |
| I2c.TableIndex | lib/soc/stm32l452xx/peripherals/I2C.cpp:198-204 | an id's table position is one of the four entries |
| I2c.SelectionPositionFormula | lib/soc/stm32l452xx/peripherals/I2C.cpp:176-196 | the computed shift `I2C1SEL_Pos + 2 * id` is the position of the id's I2CxSEL field |
| I2c.RccCciprField | lib/soc/stm32l452xx/peripherals/I2C.cpp:176-196 | `get_RCC_CCIPR_from_clock_source` puts the source's code in the id's two-bit field and nothing outside it |
| I2c.SelectionWriteFields | lib/soc/stm32l452xx/peripherals/I2C.cpp:40-100 | the `i2c_x_enable` masked write puts that value in the id's field and keeps every other RCC bit |
| I2c.ClockSourceReadBackAsWritten | lib/soc/stm32l452xx/peripherals/I2C.cpp:155-174 | as written, the read-back after selecting `c` returns `c` for I2C1 and I2C4 but `c << 2` for I2C2 and `c << 4` for I2C3 (SYSCLK on I2C2 reads as 4) |
| I2c.ClockSourceRoundTrip | lib/soc/stm32l452xx/peripherals/I2C.cpp:155-196 | the read-back shifted by the id's own field position returns the selected source for every id and prior register value |
| I2c.TransferCr2Fields | lib/soc/stm32l452xx/peripherals/I2C.cpp:417-420 | the transfer CR2 word (also of the reads, with RD_WRN, and of callback registration) holds `(addr << 1) & SADD`, NBYTES = size, START and AUTOEND, and RD_WRN iff reading |
| I2c.MaskedTransferCr2Agrees | lib/soc/stm32l452xx/peripherals/I2C.cpp:417-420 | masking the count with NBYTES_Msk changes nothing for counts up to 255 |
| I2c.ProbeCr2Fields | lib/soc/stm32l452xx/peripherals/I2C.cpp:651-653 | the probe word addresses the slave for a zero-byte write with START and AUTOEND |
| I2c.EnabledCr1Bits | lib/soc/stm32l452xx/peripherals/I2C.cpp:378-380 | CR1 after `enable` has PE, ANFOFF iff no analog filter, PECEN iff CRC, and no interrupt enable |
| I2c.OwnAddressFields | lib/soc/stm32l452xx/peripherals/I2C.cpp:688 | OAR1 holds OA1EN and the 7-bit address in bits 7:1 |
| I2c.BusStatusStep | lib/soc/stm32l452xx/peripherals/I2C.cpp:259-271 | the bus-status handler changes only the call log and ICR |
| I2c.BusStatusStepEffect | lib/soc/stm32l452xx/peripherals/I2C.cpp:259-271 | it calls the bus-status callback only when one is set and the status is not `ok` (so only on an ISR error), and writes the six error clears iff the callback returned true |
| I2c.RxneStep | lib/soc/stm32l452xx/peripherals/I2C.cpp:278-284 | on RXNE & RXIE the RX callback is called with RXDR and `stop = false`; nothing else changes |
| I2c.TxeStep | lib/soc/stm32l452xx/peripherals/I2C.cpp:286-294 | on TXE & TXIE the TX callback is called with `stop = false`; the byte it stores reaches TXDR; nothing else changes |
| I2c.TxTeardown | lib/soc/stm32l452xx/peripherals/I2C.cpp:300-307 | an armed TX callback gets its final call, loses TXIE, STOPIE and ADDRIE, and is reset to null |
| I2c.RxTeardown | lib/soc/stm32l452xx/peripherals/I2C.cpp:309-316 | the same for the RX callback, with RXIE |
| I2c.StopCr1Bits | lib/soc/stm32l452xx/peripherals/I2C.cpp:296-320 | the STOP clears remove the armed transfers' enable bits and keep every other CR1 bit |
| I2c.StopfStepEffect | lib/soc/stm32l452xx/peripherals/I2C.cpp:296-320 | on STOPF & STOPIE each armed callback is called once with `stop = true`, both are reset, STOPCF is written; without the event nothing changes |
| I2c.TransferStepsEffect | lib/soc/stm32l452xx/peripherals/I2C.cpp:278-320 | the RXNE, TXE and STOP handlers together: the calls in order, TXDR and ICR writes, teardown exactly on a STOP |
| I2c.MasterStepEffect | lib/soc/stm32l452xx/peripherals/I2C.cpp:322-331 | the master handler's calls in order (bus status, RX, TX, final) and its ICR writes, all decided on the ISR and CR1 read on entry |
| I2c.SlaveStatusStep | lib/soc/stm32l452xx/peripherals/I2C.cpp:338-346 | the slave's first step changes only the call log and ICR |
| I2c.SlaveStatusStepEffect | lib/soc/stm32l452xx/peripherals/I2C.cpp:338-346 | NACKF while a TX callback is armed writes only NACKCF and skips the bus-status callback; otherwise the bus-status handler runs |
| I2c.AddrStep | lib/soc/stm32l452xx/peripherals/I2C.cpp:352-355 | ADDR & ADDRIE writes ADDRCF and nothing else |
| I2c.SlaveStepEffect | lib/soc/stm32l452xx/peripherals/I2C.cpp:333-356 | the slave handler's calls in order, its TXDR writes, and its ICR writes (NACKCF or error clears, STOPCF, ADDRCF) |
| I2c.ArmedCallable | lib/soc/stm32l452xx/peripherals/I2C.cpp:278-294 | a port whose TXIE implies a TX callback and whose RXIE implies an RX callback (`Armed`) never reaches a null callback in the RXNE or TXE handler (`Callable`) |
| I2c.StopCr1Disarms | lib/soc/stm32l452xx/peripherals/I2C.cpp:296-320 | when each set enable bit has its callback, the STOP clears leave neither TXIE nor RXIE set |
| I2c.TransferStepsKeepArmed | lib/soc/stm32l452xx/peripherals/I2C.cpp:278-320 | the RXNE, TXE and STOP handlers keep `Armed` |
| I2c.MasterStepKeepsArmed | lib/soc/stm32l452xx/peripherals/I2C.cpp:322-331 | an `Armed` port is `Callable` for every ISR, and the master handler keeps it `Armed` |
| I2c.SlaveStepKeepsArmed | lib/soc/stm32l452xx/peripherals/I2C.cpp:333-356 | the same for the slave handler |
| I2c.RegistrationSwitchBreaksArmed | lib/soc/stm32l452xx/peripherals/I2C.cpp:580-620 | as written, registering a receive callback after a transmit callback (or the reverse) leaves a port that is not `Armed` and not `Callable` on TXE (on RXNE) |
| I2c.RegisterTransmitCorrectedArms | lib/soc/stm32l452xx/peripherals/I2C.cpp:580-599 | a transmit registration that also clears RXIE leaves the port `Armed`, and differs from the one as written only in RXIE |
| I2c.RegisterReceiveCorrectedArms | lib/soc/stm32l452xx/peripherals/I2C.cpp:601-620 | the same for a receive registration that also clears TXIE |
| I2cDriver.Controller.constructor | lib/soc/stm32l452xx/peripherals/I2C.cpp:198-204 | a table entry holds its registers with both slots empty |
| I2cDriver.FirstExitUnique | lib/soc/stm32l452xx/peripherals/I2C.cpp:426-434 | a polling loop ends at one pass only |
| I2cDriver.ReadyDataLength | lib/soc/stm32l452xx/peripherals/I2C.cpp:512-520 | one received RXDR value per ready pass |
| I2cDriver.Moved | lib/soc/stm32l452xx/peripherals/I2C.cpp:408-578 | the bytes a loop moves are never more than `size` |
| I2cDriver.ReportedStatusNeedsError | lib/soc/stm32l452xx/peripherals/I2C.cpp:436-440 | a non-`ok` status is reported only after an error exit and then the six error clears are written; after any other exit the status is `ok` and nothing is cleared |
| I2cDriver.ExitReason | lib/soc/stm32l452xx/peripherals/I2C.cpp:556-567 | a loop ends on a STOP, on the previous pass's error, or (timed loops only) on the timeout |
| I2cDriver.StopInIcrIgnoresStop | lib/soc/stm32l452xx/peripherals/I2C.cpp:874-876 | the slave's timed receive as written ends only on an error or the timeout, never on STOPF; a first pass seeing STOPF with time left ends the intended loop but not this one |
| I2cDriver.I2cBase.BusStatusInterrupt | lib/soc/stm32l452xx/peripherals/I2C.cpp:259-271 | changes the driver's state as `BusStatusStep`, nothing else |
| I2cDriver.I2cBase.RxneInterrupt | lib/soc/stm32l452xx/peripherals/I2C.cpp:278-284 | changes the driver's state as `RxneStep` |
| I2cDriver.I2cBase.TxeInterrupt | lib/soc/stm32l452xx/peripherals/I2C.cpp:286-294 | changes the driver's state as `TxeStep` |
| I2cDriver.I2cBase.StopfInterrupt | lib/soc/stm32l452xx/peripherals/I2C.cpp:296-320 | changes the driver's state as `StopfStep` |
| I2cDriver.I2cBase.TransmitLoop | lib/soc/stm32l452xx/peripherals/I2C.cpp:426-434 | the transmit loop (master here, slave at I2C.cpp lines 732-746) ends at the first exiting pass; `words` is the number of ready passes (at most `size`); TXDR receives `data[0..words)` in order; the slave's ICR gets one ADDRCF per ADDR pass; `error` iff the exit was on an error |
| I2cDriver.I2cBase.ReceiveLoop | lib/soc/stm32l452xx/peripherals/I2C.cpp:512-520 | the receive loop (master here, slave at I2C.cpp lines 828-846) ends at the first exiting pass; the buffer's first `words` cells hold the RXDR values of the ready passes in order, the rest untouched; the slave's ICR gets its ADDRCF writes |
| I2cDriver.I2cBase.FinishTransfer | lib/soc/stm32l452xx/peripherals/I2C.cpp:436-442 | after an error exit the status is decoded from a fresh ISR read and the errors cleared; otherwise `ok`; STOPCF is always written |
| I2cDriver.I2cMaster.HandleInterrupt | lib/soc/stm32l452xx/peripherals/I2C.cpp:322-331 | needs `Callable` (the RXNE and TXE handlers call the callbacks without a null check); changes the driver's state as `MasterStep` and keeps `Armed` |
| I2cDriver.I2cMaster.Enable | lib/soc/stm32l452xx/peripherals/I2C.cpp:363-388 | needs the peripheral off and both slots empty; binds the master (the entry stays exclusive), takes the registers, writes TIMINGR and the enabled CR1; the port is `Armed` (no interrupt enabled) |
| I2cDriver.I2cMaster.Disable | lib/soc/stm32l452xx/peripherals/I2C.cpp:390-406 | clears CR1, unbinds the master (the slave slot kept) and drops the registers |
| I2cDriver.I2cMaster.TransmitBytesPolling | lib/soc/stm32l452xx/peripherals/I2C.cpp:408-446 | CR2 gets the write word then 0; TXDR gets `data[0..words)`; `words <= size`; the status is `ReportedStatus`; ICR gets the error clears (after an error exit) then STOPCF; CR1 kept |
| I2cDriver.I2cMaster.TransmitBytesPollingTimed | lib/soc/stm32l452xx/peripherals/I2C.cpp:448-492 | the same, with the loop also ending when more than `timeout` ticks have passed |
| I2cDriver.I2cMaster.ReceiveBytesPolling | lib/soc/stm32l452xx/peripherals/I2C.cpp:494-532 | CR2 gets the read word then 0; the buffer's first `words` cells hold the ready RXDR values; status and ICR as for transmit |
| I2cDriver.I2cMaster.ReceiveBytesPollingTimed | lib/soc/stm32l452xx/peripherals/I2C.cpp:534-578 | the same, with the timeout |
| I2cDriver.I2cMaster.RegisterTransmitCallback | lib/soc/stm32l452xx/peripherals/I2C.cpp:580-599 | drops the RX callback, sets the TX callback, writes the transfer word to CR2 and sets TXIE and STOPIE: the port becomes `RegisterTransmit` of the old one, RXIE left as it was |
| I2cDriver.I2cMaster.RegisterReceiveCallback | lib/soc/stm32l452xx/peripherals/I2C.cpp:601-620 | drops the TX callback, sets the RX callback, writes the read word to CR2 and sets RXIE and STOPIE: the port becomes `RegisterReceive` of the old one, TXIE left as it was |
| I2cDriver.I2cMaster.RegisterTransmitCallbackCorrected | lib/soc/stm32l452xx/peripherals/I2C.cpp:580-599 | the transmit registration that also clears RXIE: the port becomes `RegisterTransmitCorrected` of the old one and is `Armed`; CR2 gets the transfer word; TIMINGR and OAR1 kept |
| I2cDriver.I2cMaster.RegisterReceiveCallbackCorrected | lib/soc/stm32l452xx/peripherals/I2C.cpp:601-620 | the receive registration that also clears TXIE: `RegisterReceiveCorrected`, `Armed`, the read word in CR2 |
| I2cDriver.I2cMaster.RegisterBusStatusCallback | lib/soc/stm32l452xx/peripherals/I2C.cpp:622-631 | sets the callback and NACKIE |
| I2cDriver.I2cMaster.UnregisterBusStatusCallback | lib/soc/stm32l452xx/peripherals/I2C.cpp:633-642 | clears NACKIE and drops the callback |
| I2cDriver.I2cMaster.IsSlaveConnected | lib/soc/stm32l452xx/peripherals/I2C.cpp:644-670 | writes the probe word, waits (timed) for STOPF, reports present iff the wait succeeded and the next ISR has no NACKF (NACKCF written only when NACKF is seen), then STOPCF and CR2 = 0 |
| I2cDriver.SlaveRegistrationRejected | lib/soc/stm32l452xx/peripherals/I2C.cpp:907-935 | with a slave bound (and the entry exclusive) the guard as written fails and the intended guard holds |
| I2cDriver.I2cSlave.HandleInterrupt | lib/soc/stm32l452xx/peripherals/I2C.cpp:333-356 | needs `Callable`, as the master's; changes the driver's state as `SlaveStep` and keeps `Armed` |
| I2cDriver.I2cSlave.StatusInterrupt | lib/soc/stm32l452xx/peripherals/I2C.cpp:338-346 | changes the driver's state as `SlaveStatusStep` |
| I2cDriver.I2cSlave.AddrInterrupt | lib/soc/stm32l452xx/peripherals/I2C.cpp:352-355 | changes the driver's state as `AddrStep` |
| I2cDriver.I2cSlave.Enable | lib/soc/stm32l452xx/peripherals/I2C.cpp:672-699 | needs the peripheral off, both slots empty and an address up to 0x7F; binds the slave (entry exclusive), writes TIMINGR, OAR1 and the enabled CR1; the port is `Armed` |
| I2cDriver.I2cSlave.Disable | lib/soc/stm32l452xx/peripherals/I2C.cpp:701-717 | clears CR1, unbinds the slave (the master slot kept) and drops the registers |
| I2cDriver.I2cSlave.FinishTransmit | lib/soc/stm32l452xx/peripherals/I2C.cpp:748-760 | NACKCF when STOPF and NACKF are both seen, then the common finish |
| I2cDriver.I2cSlave.TransmitBytesPolling | lib/soc/stm32l452xx/peripherals/I2C.cpp:719-763 | the slave transmit loop and epilogue: TXDR gets `data[0..words)`, ICR gets the ADDRCF, NACKCF, error and STOPCF writes; CR1 and CR2 kept |
| I2cDriver.I2cSlave.TransmitBytesPollingTimed | lib/soc/stm32l452xx/peripherals/I2C.cpp:765-815 | the same, with the timeout |
| I2cDriver.I2cSlave.ReceiveBytesPolling | lib/soc/stm32l452xx/peripherals/I2C.cpp:817-858 | the slave receive loop: the buffer's first `words` cells hold the ready RXDR values; ICR gets ADDRCF, error and STOPCF writes |
| I2cDriver.I2cSlave.ReceiveBytesPollingTimedAsWritten | lib/soc/stm32l452xx/peripherals/I2C.cpp:860-905 | as written, with the stop test on ICR's STOPCF: same results, for a loop that only an error or the timeout ends |
| I2cDriver.I2cSlave.ReceiveBytesPollingTimed | lib/soc/stm32l452xx/peripherals/I2C.cpp:860-905 | with the intended stop test (ISR STOPF, as in the untimed loop) and the timeout |
| I2cDriver.I2cSlave.RegisterTransmitCallback | lib/soc/stm32l452xx/peripherals/I2C.cpp:907-920 | with the intended guard: drops the RX callback, sets the TX callback and TXIE, STOPIE, ADDRIE, NACKIE (`RegisterTransmit`, RXIE left as it was) |
| I2cDriver.I2cSlave.RegisterReceiveCallback | lib/soc/stm32l452xx/peripherals/I2C.cpp:922-935 | with the intended guard: drops the TX callback, sets the RX callback and RXIE, STOPIE, ADDRIE (`RegisterReceive`, TXIE left as it was) |
| I2cDriver.I2cSlave.RegisterTransmitCallbackAsWritten | lib/soc/stm32l452xx/peripherals/I2C.cpp:907-920 | with the guard as written (the table's master slot bound): the same effect as the intended version |
| I2cDriver.I2cSlave.RegisterReceiveCallbackAsWritten | lib/soc/stm32l452xx/peripherals/I2C.cpp:922-935 | with the guard as written: the same effect as the intended version |
| I2cDriver.I2cSlave.RegisterTransmitCallbackCorrected | lib/soc/stm32l452xx/peripherals/I2C.cpp:907-920 | with the intended guard, the slave transmit registration that also clears RXIE: `RegisterTransmitCorrected` of the old port, `Armed`, the rest of the setup kept |
| I2cDriver.I2cSlave.RegisterReceiveCallbackCorrected | lib/soc/stm32l452xx/peripherals/I2C.cpp:922-935 | the same for the receive registration, clearing TXIE |
| I2cDriver.I2cSlave.RegisterBusStatusCallback | lib/soc/stm32l452xx/peripherals/I2C.cpp:937-946 | sets the callback and NACKIE, ADDRIE |
| I2cDriver.I2cSlave.UnregisterBusStatusCallback | lib/soc/stm32l452xx/peripherals/I2C.cpp:948-957 | clears NACKIE, ADDRIE and drops the callback |
| I2cDriver.InterruptHandler | lib/soc/stm32l452xx/peripherals/I2C.cpp:211-228 | needs a master or slave bound to the entry and `Callable` of its port; runs the master handler when a master is bound, otherwise the slave handler; either keeps `Armed` |

## Left out

- `sleep::us`: inline assembly over the DWT cycle counter.
- `cstring::length`, `equals`, `join`, `format` and `format_raw`: only declared in cstring.hpp; their bodies are not part of this model.
- The `Argument` copy and move constructors and the `int` / `unsigned` overloads (cstring.hpp lines 186-196 and 248-262): they copy fields or forward to the 32-bit constructors, which are modelled.
- CString.ToUnsignedInteger, CString.ToSignedInteger: besides the exact integer, only the 32-bit instances (`uint32`, `int32`) are modelled. For a narrower `Type_t` the C++ value is the exact integer modulo 2^(width of `Type_t`), and it differs from the exact one whenever the text's value, including the negative weight of a non-digit, lies outside `Type_t` ("256" for `uint8`, "2147483648" for `int32`). For a wider `Type_t` the products are still reduced modulo 2^32, because `m` is a `uint32`.
- CString.ToSignedInteger: `retval * -1` overflows `int` when `retval` is the most negative `int32`; the model takes the two's-complement wrap there.
- CString.FromUnsignedInteger, CString.FromSignedInteger: the model requires the buffer to hold the text and its NUL, where the C++ only asserts `capacity > 1` and trusts the caller.
- The USART `get_*` getters (USART.cpp:364-387): register-to-enum casts whose enum encodings are in headers that are not part of this model.
- `usart_2_enable` / `usart_2_disable` and the I2C `i2c_x_enable` / `i2c_x_disable` RCC and NVIC writes: foreign hardware effects. Of the I2C ones only the clock-selection field write is modelled, as `I2c.SelectionWrite`.
- The SYSCFG fast-plus bits, the `clock_source` and `irq_priority` parameters, and `is_enabled`'s reads beyond CR1.PE.
- The I2C `Clock_source` codes: the header defining the enumeration is not part of this model, so the codes are taken to be RM0394's I2CxSEL values (PCLK1 = 0, SYSCLK = 1, HSI16 = 2). `I2c.ClockSourceReadBackAsWritten`'s concrete "SYSCLK on I2C2 reads as 4" depends on that; the mismatch itself (a shift by 2·id on the mask but not on the value) holds for every nonzero code.
- `Interrupt_guard` and every interleaving of an interrupt with application code: each handler is one atomic step.
- `wait_until_isr` (USART): its body is not part of this model. Each call is an oracle result, read as success by `enable` and as "timed out" by the timed transfers.
- Callback bodies: each call is recorded, and its reply is a parameter.
- The slave polling loops read some flags from I2C1's ISR instead of their own peripheral. Every read is an independent value of the trace, so the model does not tie those reads to the slave's own ISR.
- Usart.UsartPort.Enable and Usart.UsartPort.Disable: the model does not include the rest of the USART class (`to_index`, the header's constructor). `id` is simply the table index.
- Collection.Vector: the defaulted members of Vector.hpp lines 31-37 are not modelled: `Vector() = default` (a vector with no buffer and capacity 0; the model's constructor always takes a buffer of nonzero capacity), the copy and move constructors, and the copy and move assignment operators.
- Sleep.Ms, Usart.UsartPort.WriteBytesPollingTimed, Usart.UsartPort.ReadBytesPollingTimed, Usart.UsartPort.WriteBytesIT, Usart.UsartPort.ReadBytesIT: the assertion that the Systick counter is enabled (sleep.hpp line 27, USART.cpp lines 212, 250, 270 and 292) is not modelled, because the Systick's state is not part of this model; the tick readings are a trace given as a parameter.
- I2cDriver.I2cMaster.HandleInterrupt, I2cDriver.I2cSlave.HandleInterrupt, I2cDriver.InterruptHandler: require `Callable`, because the RXNE and TXE handlers call the callbacks without a null check. `Armed` implies it (I2c.ArmedCallable); `enable`, both handlers and the corrected registrations keep `Armed`, but the registrations as written do not (see Findings), so a caller that switches direction before the STOP must not take an interrupt.
- lib/hal/Systick.cpp, lib/cml/utils/Command_line.hpp, lib/cml/utils/config.hpp, lib/common/cc_attributes.hpp and the sample programs: register setup, console I/O or constants only.

## Findings

| source | as written | input that shows it | evidently intended | confidence | as-written member | corrected member |
|---|---|---|---|---|---|---|
| lib/cml/common/cstring.hpp:38-41 | `reverse` loops `i < length - 1`, past the middle, so only the first and last characters end up exchanged | `from_unsigned_integer(1234, ...)` writes "1324"; "abcd" becomes "dbca" | loop to the middle, an exact reversal | not executed | CString.Reverse, CString.FromUnsignedIntegerCounterexample, CString.EndsSwappedCounterexample | CString.ReverseCorrected, CString.FromUnsignedIntegerCorrected, CString.FormatThenParseUnsigned |
| lib/cml/common/cstring.hpp:132-133 | the digit of a negative value is `'0' + v % radix` with C++'s truncating `%`, a character below '0' | -5 is written as "-+", -3 as "--" | the digits of the magnitude | not executed | CString.FromSignedInteger, CString.FromSignedIntegerCounterexample | CString.FromSignedIntegerCorrected, CString.FormatThenParseSigned |
| lib/cml/common/cstring.hpp:222-228 | the `int16` constructor stores the value without sign extension, so the upper bytes are always 0 | `Argument(int16(-1)).get_int32()` is 65535 | sign extension to 32 bits | not executed | CString.FromInt16, CString.Int16ArgumentAsWritten | CString.FromInt16Corrected, CString.Int16ArgumentCorrectedRoundTrip |
| lib/cml/common/cstring.hpp:276-280 | the `int8` constructor stores the character in `data[3]`, but `get_char` reads `data[0]` | `Argument(int8('A')).get_char()` is 0 | read the byte that was written | not executed | CString.GetChar, CString.CharArgumentAsWritten | CString.GetCharCorrected, CString.CharArgumentCorrectedRoundTrip |
| lib/soc/stm32l452xx/peripherals/I2C.cpp:163-164 | the clock-source read-back masks the id's field but shifts back by the I2C1SEL position only | SYSCLK selected for I2C2 reads back as 4 | shift back by the id's own field position | not executed | I2c.ClockSourceReadBack, I2c.ClockSourceReadBackAsWritten | I2c.ClockSourceReadBackCorrected, I2c.ClockSourceRoundTrip |
| lib/soc/stm32l452xx/peripherals/I2C.cpp:874 | the slave's timed receive tests STOPCF in ICR, a clear register that is zero on a read, so STOPF never ends the loop | a first pass that sees STOPF, no error and time left does not end the loop | test STOPF in ISR as the untimed loop does | not executed | I2cDriver.I2cSlave.ReceiveBytesPollingTimedAsWritten, I2cDriver.StopInIcrIgnoresStop | I2cDriver.I2cSlave.ReceiveBytesPollingTimed |
| lib/soc/stm32l452xx/peripherals/I2C.cpp:907-935 | the slave's `register_transmit_callback` / `register_receive_callback` assert that the master slot is bound | any call on an enabled slave: its entry's master slot is empty, so the assertion fails | assert the slave slot | not executed | I2cDriver.I2cSlave.RegisterTransmitCallbackAsWritten, I2cDriver.I2cSlave.RegisterReceiveCallbackAsWritten, I2cDriver.SlaveRegistrationRejected | I2cDriver.I2cSlave.RegisterTransmitCallback, I2cDriver.I2cSlave.RegisterReceiveCallback |
| lib/soc/stm32l452xx/peripherals/I2C.cpp:580-620 | a registration drops the other direction's callback but leaves that direction's enable bit (TXIE or RXIE) set, and the STOP handler only clears the bits of callbacks that are set | `register_transmit_callback` then `register_receive_callback` before the STOP, then a TXE interrupt: the TXE handler calls the null TX callback; the slave pair (lines 907-935) likewise | clear the other direction's enable bit when registering | not executed | I2c.RegistrationSwitchBreaksArmed, I2cDriver.I2cMaster.RegisterTransmitCallback, I2cDriver.I2cMaster.RegisterReceiveCallback | I2c.RegisterTransmitCorrectedArms, I2c.RegisterReceiveCorrectedArms, I2cDriver.I2cMaster.RegisterTransmitCallbackCorrected, I2cDriver.I2cMaster.RegisterReceiveCallbackCorrected |
