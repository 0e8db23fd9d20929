# Verified models of the board support package's driver algorithms

Most of the board support package is register plumbing. This project models the drivers that hold
real algorithms, with the hardware registers they use as plain fields, and proves what those
algorithms promise. `dafny verify dfyconfig.toml` checks everything.

| module | source | what it models |
|---|---|---|
| `EthRing` | `libraries/HAL_Drivers/drv_eth.c` | gathering a pbuf chain into the circular chain of DMA buffers, and scattering a received frame |
| `AtomicAdd` | `rt-thread/include/rtatomic.h` | the conditional add as a compare-exchange loop, alone and under every interleaving |
| `ReverseBits`, `CrcUnit` | `libraries/HAL_Drivers/drv_crypto.c` | one CRC unit shared by many contexts, with a cached configuration |
| `LcdLine`, `LcdGlyph` | `board/port/drv_spi_ili9488.c` | line drawing, and the two ways of showing a character |
| `UartDma` | `libraries/HAL_Drivers/drv_usart.c` | receive accounting over a circular DMA buffer |
| `Base64`, `WifiConfig` | `board/port/wifi_config.c` | Base64 (section 4 of RFC 4648) and the WLAN configuration store |
| `CanFilter` | `libraries/HAL_Drivers/drv_can.c` | acceptance filters packed into registers |
| `GpioIrq` | `libraries/HAL_Drivers/drv_gpio.c` | pins sharing sixteen interrupt lines |
| `PwmTimer` | `libraries/HAL_Drivers/drv_pwm.c` | scaling periods and pulses to timer registers and back |
| `PmTick` | `libraries/HAL_Drivers/drv_pm.c` | tick conversion with a carried remainder |
| `UsDelay` | `libraries/HAL_Drivers/drv_common.c` | the busy wait on a counter that runs down |
| `SpiSplit` | `libraries/HAL_Drivers/drv_spi.c` | splitting a transfer into chunks |

`Bytes`, `Words` and `DivMod` hold what several modules share: concatenation, machine integers and
powers of two, quotients and remainders.

The drivers' state is kept in classes whose methods follow the source's loops and branches; each
method's contract ties its result to a function or predicate on values, and the lemmas say what
those mean. What the hardware decides is a parameter or nondeterministic: when the DMA releases a
descriptor, what one byte does to the CRC register, when the SysTick counter is read, which SPI
chunks succeed, in which order threads run.

Where the code does not keep a property for every input, the exact condition under which it does is
proved, in both directions:

- A frame longer than the ring wraps onto itself (`EthRing.RingCapacity`, `EthRing.OversizeWraps`).
- A context that was never initialised, and whose configuration equals the cached one, has its
  data dropped (`CrcUnit.DroppedExactly`, `CrcUnit.DropExample`). With reversed output the running
  value survives only at the full register width (`CrcUnit.ReversedOutputExactly`,
  `CrcUnit.NarrowExample`): a narrow context is right until the first cache miss
  (`CrcUnit.UninterruptedResult`, `CrcUnit.MissRestartsShifted`). A single reversal flag leaves the
  other mode as it was (`CrcUnit.SingleFlagExactly`, `CrcUnit.SingleFlagExample`).
- The line loop counts in 16 bits and ends exactly for distances up to 65533
  (`LcdLine.CounterStopsExactly`); the end point is missing exactly from horizontal lines
  (`LcdLine.EndDrawnExactly`).
- Reception loses or invents bytes exactly when a byte finds a full buffer pending or a
  transfer-complete interrupt finds nothing (`UartDma.NothingLost`, `UartDma.SpuriousExactly`,
  `UartDma.SpuriousExample`).
- A PWM pulse as long as its period fills it exactly when it lasts three clock ticks
  (`PwmTimer.FullDutyExactly`, `PwmTimer.FullDutyMissed`). With an undivided clock a period is read
  back closely exactly when its next nanosecond is beyond three ticks and it is shorter than 4295016
  (`PwmTimer.PeriodCloseExactly`, `PwmTimer.ShortPeriodExample`, `PwmTimer.LongPeriodExample`); a
  divided one reads back too much (`PwmTimer.DividedReading`, `PwmTimer.DividedPulse`).
- Tick conversion is free of drift exactly when no step leaves 32 bits (`PmTick.NoDriftExactly`,
  `PmTick.DriftExample`).
- The busy wait never returns before its target, but the target is too short for every wait but the
  empty one (`UsDelay.TargetExactly`, `UsDelay.LongTargetWraps`). A wait can return early exactly when
  the counter runs and the wait is longer than one decrement (`UsDelay.EarlyExactly`,
  `UsDelay.ReturnsEarly`).
- A detach leaves an enabled line without a handler exactly when it succeeds on an enabled line, and
  takes away another pin's attachment exactly when the slot is that pin's; a disable switches a line
  off for another pin under the like condition (`GpioIrq.PinIrq.DetachIrq`,
  `GpioIrq.PinIrq.EnableIrq`, `GpioIrq.DetachedByAnother`).

The comment above the CAN packing leaves IDE and RTR out of the low halves; the model follows the
code, which puts them there.

## Model

| member | source | states |
|---|---|---|
| EthRing.Transmit | libraries/HAL_Drivers/drv_eth.c:194-287 | for any chain of segments: success reports the sum of the segment lengths, uses max(1, ceil(length / size)) buffers, all full but the last, whose contents in chain order are the concatenated payloads; a frame that fits is readable whole from the ring; on ERR_USE the walk stopped at a descriptor that the DMA owns, those before it belong to the CPU and their buffers hold full blocks, a prefix of the frame; buffers of the DMA and of descriptors not reached are never written, and no OWN bit is set |
| EthRing.GatherChain | libraries/HAL_Drivers/drv_eth.c:210-253 | the loop over the segments keeps the cursors in step with the bytes copied so far, or stops with the buffers already filled in the ring |
| EthRing.GatherStep | libraries/HAL_Drivers/drv_eth.c:210-253 | one round moves a segment from the bytes to go to the bytes done, or stops at a descriptor of the DMA with a prefix of the frame in the full buffers before it |
| EthRing.SendSegment | libraries/HAL_Drivers/drv_eth.c:213-252 | one segment: the ownership test comes first, then its bytes follow those already gathered; stopped, the full buffers so far are in the ring |
| EthRing.FillBuffers | libraries/HAL_Drivers/drv_eth.c:225-247 | the inner loop leaves a rest that fits the current buffer, or stops at a descriptor of the DMA with the whole buffers done in the ring |
| EthRing.FillAndAdvance | libraries/HAL_Drivers/drv_eth.c:228-246 | a buffer filled to its end becomes one more block, and the next descriptor is tested before use |
| EthRing.PutRest | libraries/HAL_Drivers/drv_eth.c:250-252 | the rest of the segment goes behind what the buffer holds |
| EthRing.BlocksAreFrame | libraries/HAL_Drivers/drv_eth.c:224-252 | buffers that hold the blocks in chain order hold their concatenation as one frame |
| EthRing.BlockCount | libraries/HAL_Drivers/drv_eth.c:225-247 | all blocks but the last full means exactly max(1, ceil(total / size)) of them |
| EthRing.BlocksFit | libraries/HAL_Drivers/drv_eth.c:206-253 | a frame needs no more than all the buffers exactly when it is no longer than count * size |
| EthRing.RingCapacity | libraries/HAL_Drivers/drv_eth.c:231-241 | the ring can hold every frame of a length if and only if the length is at most count * size |
| EthRing.OversizeWraps | libraries/HAL_Drivers/drv_eth.c:231-241 | in a longer frame read from any ring, byte count * size is byte 0 again |
| EthRing.WalkInjective | libraries/HAL_Drivers/drv_eth.c:231 | following next-pointers meets no descriptor twice within one lap |
| EthRing.Scatter | libraries/HAL_Drivers/drv_eth.c:328-355 | the segments, concatenated, are the frame found by following the descriptors from the first one |
| EthRing.FillSegment | libraries/HAL_Drivers/drv_eth.c:334-353 | one segment takes exactly the next len bytes of the frame, and the cursor stands behind them |
| EthRing.TakeBuffers | libraries/HAL_Drivers/drv_eth.c:338-350 | the inner loop takes whole buffers until the rest of the segment fits the current one |
| EthRing.GiveBack | libraries/HAL_Drivers/drv_eth.c:357-365 | exactly the SegCount descriptors from FSRxDesc on, in chain order, go back to the DMA |
| EthRing.SpanSize | libraries/HAL_Drivers/drv_eth.c:361-365 | within one lap these are SegCount different descriptors |
| EthRing.Receive | libraries/HAL_Drivers/drv_eth.c:290-368 | the received chain holds the frame, its length kept in 16 bits; the descriptors are given back also when no chain could be allocated; SegCount becomes 0; a failed receive changes nothing |
| EthRing.TransmitThenReceive | libraries/HAL_Drivers/drv_eth.c:194-368 | round trip: what is sent and received through the same buffers comes out unchanged, however both chains are segmented |
| AtomicAdd.AtomicCell.CompareExchange | rt-thread/include/rtatomic.h:190-208 | succeeds exactly when the cell holds the expected value, stores only then, and always reports what it saw |
| AtomicAdd.AtomicCell.FetchAddUnless | rt-thread/include/rtatomic.h:216-228 | alone, the loop returns the old value and adds, with wraparound, unless the value is the forbidden one |
| AtomicAdd.AtomicCell.AddUnless | rt-thread/include/rtatomic.h:230-233 | reports exactly whether it added |
| AtomicAdd.AtomicCell.IncNotZero | rt-thread/include/rtatomic.h:235-238 | a count at zero stays at zero |
| AtomicAdd.AtomicCell.Advance | rt-thread/include/rtatomic.h:216-228 | one access of the cell by the code is one step of the interleaving model |
| AtomicAdd.TakesEffectOnReturn | rt-thread/include/rtatomic.h:218-227 | the only step that changes the cell or logs a call is that call's own returning step, which acts like the indivisible operation on the value it finds |
| AtomicAdd.CompletesAlone | rt-thread/include/rtatomic.h:216-228 | a call run alone from any state takes three steps, adds with wraparound unless the cell holds the forbidden value, returns the old value, and disturbs no other thread |
| AtomicAdd.TryExactly | rt-thread/include/rtatomic.h:190-208 | an exchange wins, stores the sum and returns exactly when the cell still holds what the thread saw; otherwise it fails, sees the cell's value, and retries or returns the forbidden one |
| AtomicAdd.EndsWithEntry | rt-thread/include/rtatomic.h:220-227 | a thread becomes idle only by its own step and with an entry for its call |
| AtomicAdd.EveryCallCounted | rt-thread/include/rtatomic.h:216-228 | in every interleaving each call that starts has returned exactly once or is pending, each exchange has won or failed, and the winners are as many as the returned calls that added |
| AtomicAdd.Linearizable | rt-thread/include/rtatomic.h:216-233 | in every interleaving of any number of threads the returned calls form a legal one-at-a-time history ending in the cell's value |
| AtomicAdd.Conservation | rt-thread/include/rtatomic.h:216-233 | the cell is its first value plus the addends of exactly the calls that did not return the forbidden value |
| AtomicAdd.NeverRevived | rt-thread/include/rtatomic.h:230-238 | once the cell holds the value that all callers forbid, no interleaving changes it |
| AtomicAdd.FailuresBounded | rt-thread/include/rtatomic.h:220-225 | lock freedom: with n threads at most n - 1 failed exchanges for each successful one |
| AtomicAdd.RunPaid | rt-thread/include/rtatomic.h:220-225 | the invariant behind it: failures so far and failures already certain are paid for by successes |
| ReverseBits.MirrorsBits | libraries/HAL_Drivers/drv_crypto.c:34-43 | bit i of the result is bit 31 - i of the argument |
| ReverseBits.Involution | libraries/HAL_Drivers/drv_crypto.c:34-43 | reversing twice is the identity |
| ReverseBits.FullReading | libraries/HAL_Drivers/drv_crypto.c:141-144 | reversing a full-width reversed reading undoes it |
| ReverseBits.MirrorsLow7 | libraries/HAL_Drivers/drv_crypto.c:141-144 | a reading reversed within 7 bits has bit i from bit 6 - i |
| ReverseBits.MirrorsLow8 | libraries/HAL_Drivers/drv_crypto.c:141-144 | and within 8 bits from bit 7 - i |
| ReverseBits.MirrorsLow16 | libraries/HAL_Drivers/drv_crypto.c:141-144 | and within 16 bits from bit 15 - i |
| CrcUnit.ReversedAgain | libraries/HAL_Drivers/drv_crypto.c:141-144 | reversing all 32 bits of a reading reversed within the width shifts a narrow one to the top, and undoes it exactly when the width is 32 or the value 0 |
| CrcUnit.CrcDevice.Update | libraries/HAL_Drivers/drv_crypto.c:46-151 | the whole update, with cache test, set-up, early exits, byte loop and read-back, does to unit, cache and context what the value model says |
| CrcUnit.UpdateAsConfigured | libraries/HAL_Drivers/drv_crypto.c:57-150 | after an update that was not dropped the unit has the polynomial, width and reversals asked for; the result with another final xor is the reading, and 0 for a reading of 0 |
| CrcUnit.FinishXors | libraries/HAL_Drivers/drv_crypto.c:150 | the final xor is undone by another; 0 stays 0 |
| CrcUnit.XorExample | rt-thread/components/drivers/hwcrypto/hw_crc.h:55-62 | the DNP preset turns a reading of 0x1234 into 0xEDCB |
| CrcUnit.FoldSteps | libraries/HAL_Drivers/drv_crypto.c:138 | the register changes with every byte, in order, as the unit says |
| CrcUnit.FlagBits | libraries/HAL_Drivers/drv_crypto.c:68-86 | bit 0 of the flags asks for reversed input and bit 1 for reversed output, and the set-up never clears what is asked for |
| CrcUnit.GivesUpExactly | libraries/HAL_Drivers/drv_crypto.c:84-122 | the set-up gives up exactly on unknown flags or widths and on polynomials that the unit does not take, and what it has changed by then |
| CrcUnit.PolyAcceptedExactly | libraries/STM32H7xx_HAL/STM32H7xx_HAL_Driver/Src/stm32h7xx_hal_crc_ex.c:89-146 | a narrow polynomial is taken exactly when some bit below 31 is set and none of them from the width on |
| CrcUnit.Presets | rt-thread/components/drivers/hwcrypto/hw_crc.h:19-62 | the presets CRC-8, CRC-16 and CRC-32 are supported, CCITT and DNP are reversed and narrow |
| CrcUnit.UpdateIsPrivate | libraries/HAL_Drivers/drv_crypto.c:57-150 | cache hit or miss, an update gives the result and running value of a private unit and keeps the cache truthful |
| CrcUnit.Transparent | libraries/HAL_Drivers/drv_crypto.c:57-149 | over every interleaving of updates of any contexts, an initialised context's running value is that of its own input in one piece on a private unit |
| CrcUnit.EveryResultIsPrivate | libraries/HAL_Drivers/drv_crypto.c:138-150 | each call returns what one uninterrupted private call on all of the context's input so far would return |
| CrcUnit.StepSound | libraries/HAL_Drivers/drv_crypto.c:57-129 | every update, also of an unsupported or fresh context, keeps the cache truthful |
| CrcUnit.FoldConcat | libraries/HAL_Drivers/drv_crypto.c:138 | the unit's register after two strings is that after their concatenation |
| CrcUnit.DroppedExactly | libraries/HAL_Drivers/drv_crypto.c:57-129 | result and running value are those of a private unit if and only if the context was initialised or its configuration differs from the cache, or a private unit would return 0 and keep its value; otherwise the data is dropped and nothing changes |
| CrcUnit.CreatedSound | libraries/HAL_Drivers/drv_crypto.c:32-437 | new contexts and the empty cached configuration meet the invariant |
| CrcUnit.RunPrivateExactly | libraries/HAL_Drivers/drv_crypto.c:57-150 | over every run of supported contexts from their creation on, each update acts as on a private unit if and only if none is dropped noticeably |
| CrcUnit.RunValues | libraries/HAL_Drivers/drv_crypto.c:57-149 | and then every running value is that of the context's own input on a private unit |
| CrcUnit.DropExample | libraries/HAL_Drivers/drv_crypto.c:57-129 | two fresh contexts with the same settings reach that state, whatever the data |
| CrcUnit.ReversedUpdate | libraries/HAL_Drivers/drv_crypto.c:57-150 | with both reversals, at any width, an update folds its bytes into the register that a hit left alone or a miss loaded, and keeps the reversed reading |
| CrcUnit.ReversedOutputExactly | libraries/HAL_Drivers/drv_crypto.c:141-149 | after a hit or a miss, the running value kept is the register exactly for width 32 or value 0 |
| CrcUnit.NarrowExample | rt-thread/components/drivers/hwcrypto/hw_crc.h:46-53 | the CCITT preset keeps a register of 0x1234 as 0x12340000 |
| CrcUnit.MissRestartsShifted | libraries/HAL_Drivers/drv_crypto.c:114-149 | after a miss such a context goes on from its register shifted to the top, which is another one unless the width is full or the register 0 |
| CrcUnit.Uninterrupted | libraries/HAL_Drivers/drv_crypto.c:57-149 | over any run of its own updates, at any width, a context with both reversals goes on from the register of all its input |
| CrcUnit.UninterruptedResult | libraries/HAL_Drivers/drv_crypto.c:138-150 | each result of such a run is that of one private call on all its input so far |
| CrcUnit.SingleFlagExactly | libraries/HAL_Drivers/drv_crypto.c:68-86 | a single reversal flag sets the unit as asked exactly when the handle's other mode was already right |
| CrcUnit.SingleFlagExample | libraries/HAL_Drivers/drv_crypto.c:435-436 | a new context that asks for reversed input alone gets its output reversed too |
| LcdLine.DrawLine | board/port/drv_spi_ili9488.c:519-582 | the pixels of both paths, in drawing order: a horizontal line from its first end to just before its second, any other from its first end to its second |
| LcdLine.DrawSlanted | board/port/drv_spi_ili9488.c:546-581 | the general path draws distance + 2 points, point t where both accumulators put it |
| LcdLine.Rasterise | board/port/drv_spi_ili9488.c:566-581 | the loop draws its trace and terminates |
| LcdLine.SideAdvance | board/port/drv_spi_ili9488.c:569-580 | a side's error accumulator and coordinate in closed form |
| LcdLine.CounterStopsExactly | board/port/drv_spi_ili9488.c:521-566 | some value of the 16-bit counter ends the loop if and only if the distance is at most 65533 |
| LcdLine.LineShape | board/port/drv_spi_ili9488.c:546-581 | the line starts at its first end, ends at its second, stays in the bounding box and never jumps by more than one pixel |
| LcdLine.LineNearIdeal | board/port/drv_spi_ili9488.c:569-580 | every point is strictly less than one pixel from the ideal line along the minor axis, for every direction |
| LcdLine.EndDrawnExactly | board/port/drv_spi_ili9488.c:526-544 | the second end is drawn if and only if the line is not horizontal |
| LcdGlyph.ShowChar | board/port/drv_spi_ili9488.c:641-813 | for every size, glyph and colours both paths send the same bytes, the glyph's picture; off-screen or unknown sizes send nothing, and on a screen as large as a character exactly those that reach over its edge |
| LcdGlyph.Index | board/port/drv_spi_ili9488.c:651 | the fonts start at the space character, in 8 bits |
| LcdGlyph.Latest | board/port/drv_spi_ili9488.c:649 | the last place for a character that the screen has room for |
| LcdGlyph.SendPixels | board/port/drv_spi_ili9488.c:705-724 | the pixel-by-pixel path sends the glyph's picture, row by row |
| LcdGlyph.FillBuffer | board/port/drv_spi_ili9488.c:728-758 | the buffered path writes every index exactly once, in ascending order, and ends with the same picture |
| LcdGlyph.WireIsColour | board/port/drv_spi_ili9488.c:682-684 | a pixel's three bytes are the colour's red, green and blue, in this order |
| LcdGlyph.PixelOnWire | board/port/drv_spi_ili9488.c:661-671 | for every size, row and column the three bytes at the pixel's place are the colour in front where the font's bit is set, most significant bit leftmost, else the colour behind |
| LcdGlyph.TopAfterShifts | board/port/drv_spi_ili9488.c:719-722 | the top bit after t left shifts is the byte's bit t |
| LcdGlyph.NextBits | board/port/drv_spi_ili9488.c:708-724 | the bits taken from a byte are the picture's next pixels, with 8 and 4 alternating in the 24-pixel font |
| LcdGlyph.SentIsAllBits | board/port/drv_spi_ili9488.c:705-724 | what the font bytes so far put on the wire is the colours of their bits, in order |
| LcdGlyph.AllBitsArePicture | board/port/drv_spi_ili9488.c:705-724 | the bits of the font bytes so far are the beginning of the picture, row by row |
| UartDma.UartRx.Isr | libraries/HAL_Drivers/drv_usart.c:378-420 | the handler does to the receiver's whole state what the interrupt step says |
| UartDma.UartRx.Take | rt-thread/components/drivers/serial/serial.c:453-491 | the serial layer's index moves on by the reported length, going round at the end |
| UartDma.RemainingCongruent | libraries/HAL_Drivers/drv_usart.c:222-225 | after every run of arrivals and interrupts, with no assumption, remaining_cnt is in 1..bufsz and is bufsz minus the total reported modulo bufsz |
| UartDma.ArriveKeeps | libraries/HAL_Drivers/drv_usart.c:387-389 | a byte stored by the DMA keeps counter and ring in agreement with everything received |
| UartDma.IdleExactly | libraries/HAL_Drivers/drv_usart.c:393-398 | an idle event reports exactly what is pending if and only if less than a buffer is |
| UartDma.HalfTransferExactly | libraries/HAL_Drivers/drv_usart.c:400-403 | a half-transfer event reports all that is pending unless the DMA has gone round, and then nothing |
| UartDma.TransferCompleteExactly | libraries/HAL_Drivers/drv_usart.c:405-407 | a transfer-complete event reports all that is pending once the DMA has gone round, else nothing |
| UartDma.SpuriousExactly | libraries/HAL_Drivers/drv_usart.c:405-407 | it reports bytes that never came if and only if nothing is pending, and then a full buffer |
| UartDma.SlotsAreNext | libraries/HAL_Drivers/drv_usart.c:413-417 | the slots handed on are the next bytes received, also round the end of the ring |
| UartDma.StepFaithfulExactly | libraries/HAL_Drivers/drv_usart.c:378-420 | one event keeps what is delivered a prefix of what was received, with at most a buffer pending, if and only if no byte finds a full buffer pending and no transfer-complete event finds nothing |
| UartDma.NothingLost | libraries/HAL_Drivers/drv_usart.c:378-420 | so over whole runs: nothing is ever lost, invented or reordered if and only if every event comes in time |
| UartDma.IdleDeliversExactly | libraries/HAL_Drivers/drv_usart.c:393-398 | after such a run an idle event leaves everything delivered if and only if less than a buffer was pending |
| UartDma.SpuriousExample | libraries/HAL_Drivers/drv_usart.c:405-407 | a transfer-complete event right after opening reports a whole buffer although no byte has come |
| Base64.EncodeInto | board/port/wifi_config.c:68-110 | the two-pointer loop writes the encoding and its terminator, and nothing else |
| Base64.DecodeInto | board/port/wifi_config.c:115-145 | the loop writes the decoding and returns its length; a length that is no multiple of four gives 0 and writes nothing |
| Base64.DecodeEncode | board/port/wifi_config.c:68-145 | decoding the encoding of any non-empty byte string returns it |
| Base64.EncodeDecode | board/port/wifi_config.c:68-145 | re-encoding the decoding of any canonical padded text returns that text |
| Base64.EncodeCanonical | board/port/wifi_config.c:81-106 | every encoding of a non-empty byte string is canonical: alphabet characters, pads only at the end, unused bits zero |
| Base64.ImageExactly | board/port/wifi_config.c:68-145 | bijection: the canonical texts are exactly the encodings of non-empty byte strings |
| Base64.DigitsInOrder | board/port/wifi_config.c:45-46 | the 64 digits are the alphabet of section 4 of RFC 4648, in order |
| Base64.ValuesInOrder | board/port/wifi_config.c:48-66 | a character of the alphabet has its place as its value, and every other character 0 |
| Base64.KnownEncodings | board/port/wifi_config.c:68-110 | known encodings of one, two and three bytes, with pads and with the last digits |
| Base64.AlphabetRoundTrip | board/port/wifi_config.c:45-66 | the two tables are inverse to each other on the alphabet |
| Base64.EncodedLength | board/port/wifi_config.c:81-106 | four characters for every three bytes or part of three |
| Base64.DecodedLength | board/port/wifi_config.c:122-125 | the length computed from the pads is the length decoded |
| Base64.EncodeNoNul | board/port/wifi_config.c:83-105 | an encoding holds no terminator, so it survives as a C string |
| Base64.CodeDigits | board/port/wifi_config.c:83-86 | the encoder's shifts and masks are the digits of the 24-bit group |
| WifiConfig.Store.WriteCfg | board/port/wifi_config.c:181-204 | stores decimal length and encoding and reports the length, or stores nothing without memory |
| WifiConfig.Store.ReadCfg | board/port/wifi_config.c:147-161 | decodes what is stored into the buffer's beginning and returns the length it was given, or 0 |
| WifiConfig.Store.Persist | board/port/wifi_config.c:147-204 | after a write of at least one byte, length and bytes come back |
| WifiConfig.AllocationFits | board/port/wifi_config.c:186 | the allocation always holds text and terminator, with no byte to spare exactly when the length is 1 modulo 3 |
| WifiConfig.NumberDecimal | board/port/wifi_config.c:175-194 | reading back a printed length gives that length |
| WifiConfig.DecimalDigits | board/port/wifi_config.c:194 | the printed length has the decimal digits, most significant first |
| CanFilter.AcceptsExactlyWanted | libraries/HAL_Drivers/drv_can.c:369-402 | for every in-range item and frame, register matching accepts exactly the frames the item asks for: equal IDE and RTR, and identifiers that agree under the mask or are one of the two listed |
| CanFilter.ConfiguredAcceptsWanted | libraries/HAL_Drivers/drv_can.c:332-406 | so does every bank that is programmed for an item, whatever was programmed before |
| CanFilter.IdRegister | libraries/HAL_Drivers/drv_can.c:382-394 | the identifier register is the word of the frame with the item's identifier and flags, standard or extended |
| CanFilter.IdLayout | libraries/HAL_Drivers/drv_can.c:380-397 | bit by bit: a zero, RTR and IDE at the bottom of the low half, the identifier from bit 3 or bit 21 to the top of the high half |
| CanFilter.HalvesFit | libraries/HAL_Drivers/drv_can.c:382-396 | all four halves fit 16 bits |
| CanFilter.Ranges | libraries/HAL_Drivers/drv_can.c:355-368 | the largest identifiers of 11 and 29 bits |
| CanFilter.ListRegister | libraries/HAL_Drivers/drv_can.c:374-396 | in list mode the mask register is a second such word, for the mask field read as an identifier |
| CanFilter.MaskRegister | libraries/HAL_Drivers/drv_can.c:369-396 | in mask mode it selects IDE, RTR and the mask's bits within the identifier, and no others |
| CanFilter.MaskedFrames | libraries/HAL_Drivers/drv_can.c:369-402 | the comparison under the mask register is the application's comparison |
| CanFilter.ProgramsAcceptWanted | libraries/HAL_Drivers/drv_can.c:332-408 | in the settings programmed for a list, the k-th accepts exactly the frames that the k-th item asks for, in its mode and for its FIFO, in the bank it names, the controller's own k-th, or the one kept from before |
| CanFilter.CanDriver.SetFilter | libraries/HAL_Drivers/drv_can.c:317-410 | the controller is given one setting for each item, in order, and the last is kept; without a list it is given the kept one again |
| GpioIrq.BitNo | libraries/HAL_Drivers/drv_gpio.c:285-296 | returns the position of the only set bit, or -1 when there is none such |
| GpioIrq.PinNumber | libraries/HAL_Drivers/drv_gpio.c:20-22 | a pin's number gives back its port and its place in it |
| GpioIrq.IrqMap | libraries/HAL_Drivers/drv_gpio.c:121-138 | the interrupt of each line, and which lines share one |
| GpioIrq.PinIrq.constructor | libraries/HAL_Drivers/drv_gpio.c:141-160 | at start all slots are free and no line is enabled |
| GpioIrq.PinIrq.AttachIrq | libraries/HAL_Drivers/drv_gpio.c:308-346 | succeeds exactly for a free slot or the very same attachment; a busy slot or an unknown port changes nothing, and other pins never lose theirs; keeps table, mask and interrupts what the log of calls says |
| GpioIrq.PinIrq.DetachIrq | libraries/HAL_Drivers/drv_gpio.c:348-377 | frees the line's slot for any of its pins; where every enabled line had a handler, they still have one if and only if the call failed or the line was not enabled; other pins keep their attachments if and only if the call failed or the slot was free or the pin's own |
| GpioIrq.DetachExactly | libraries/HAL_Drivers/drv_gpio.c:365-373 | the same for the table and the mask alone |
| GpioIrq.DetachedByAnother | libraries/HAL_Drivers/drv_gpio.c:308-377 | pin 1 attached and enabled, then pin 17 detached: line 1 is on and has no handler |
| GpioIrq.PinIrq.EnableIrq | libraries/HAL_Drivers/drv_gpio.c:379-504 | adds or removes the line, refusing unknown ports, free slots and other commands; other pins' lines stay on if and only if the call failed or enabled, or the line was off, or its slot free or the pin's own; keeps the same invariant |
| GpioIrq.PinIrq.SwitchOff | libraries/HAL_Drivers/drv_gpio.c:448-494 | a shared interrupt goes off exactly with its last enabled line |
| GpioIrq.IrqsWithout | libraries/HAL_Drivers/drv_gpio.c:477-494 | without one line, the enabled interrupts lose its own exactly when no other enabled line shares it |
| GpioIrq.TableNext | libraries/HAL_Drivers/drv_gpio.c:326-373 | after each kind of call, slot i holds exactly what was attached to line i and not detached since, a pin numbered i, and free slots hold no handler |
| GpioIrq.MaskNext | libraries/HAL_Drivers/drv_gpio.c:432-448 | a line is in the mask exactly when it was switched on and not switched off since |
| GpioIrq.HeldNext | libraries/HAL_Drivers/drv_gpio.c:326-373 | how one more call changes what a line holds |
| GpioIrq.OnNext | libraries/HAL_Drivers/drv_gpio.c:432-448 | how one more call changes whether a line is on |
| GpioIrq.PinIrq.Dispatch | libraries/HAL_Drivers/drv_gpio.c:516-538 | the interrupt of a line calls the handler last attached and not detached, with its argument, and nothing else |
| PwmTimer.Timer.Set | libraries/HAL_Drivers/drv_pwm.c:246-277 | the three registers, the reload value within 16 bits and the compare value at most one above it, for every request and clock |
| PwmTimer.DividedMhzIs | libraries/HAL_Drivers/drv_pwm.c:228-239 | dividing first by the clock division and then to MHz is dividing by both |
| PwmTimer.CountsFit | libraries/HAL_Drivers/drv_pwm.c:257-265 | with the chosen prescaler the reload value and one more always fit 16 bits |
| PwmTimer.FastestClock | libraries/HAL_Drivers/drv_pwm.c:255-259 | all requests are scaled without truncation and with a 16-bit prescaler if and only if the clock is at most 999 MHz |
| PwmTimer.NoTruncation | libraries/HAL_Drivers/drv_pwm.c:256-267 | under such a clock ticks, prescaler and pulse are exact, and dividing by the prescaler before or after the thousand is the same |
| PwmTimer.ClampedExactly | libraries/HAL_Drivers/drv_pwm.c:257-264 | the minimum period applies exactly to periods under three ticks |
| PwmTimer.FullDutyExactly | libraries/HAL_Drivers/drv_pwm.c:261-277 | a pulse not shorter than the period fills it if and only if the pulse lasts three clock ticks |
| PwmTimer.FullDutyMissed | libraries/HAL_Drivers/drv_pwm.c:261-277 | a request of 20 ns for both at 100 MHz fills one count of three |
| PwmTimer.CloseExactly | libraries/HAL_Drivers/drv_pwm.c:240-241 | a time is read back at most as requested, and short by less than one count and one nanosecond, if and only if the 32-bit product does not overflow |
| PwmTimer.PeriodCloseExactly | libraries/HAL_Drivers/drv_pwm.c:240-264 | any period is read back closely with an undivided clock if and only if its next nanosecond is beyond the minimum of three ticks and it is shorter than 4295016 ticks |
| PwmTimer.ShortPeriodExample | libraries/HAL_Drivers/drv_pwm.c:240-264 | a period of 20 ns at 100 MHz is read back as one of 30 ns |
| PwmTimer.PulseCloseExactly | libraries/HAL_Drivers/drv_pwm.c:241-277 | a pulse shorter than its period is read back closely if and only if, raised to the minimum, its next nanosecond is beyond it, and otherwise its 32-bit product does not overflow |
| PwmTimer.FullPulseLonger | libraries/HAL_Drivers/drv_pwm.c:273-277 | a pulse that fills its period is read back as longer than the period |
| PwmTimer.LongestPeriod | libraries/HAL_Drivers/drv_pwm.c:240-258 | the 32-bit product of a period does not overflow exactly up to 4295015 ticks |
| PwmTimer.LongPeriodExample | libraries/HAL_Drivers/drv_pwm.c:240-258 | a period of 50 ms at 100 MHz is read back as one of 7 ms |
| PwmTimer.DividedReading | libraries/HAL_Drivers/drv_pwm.c:229-240 | with a clock at most half as fast for reading, a period is read back as more than was set, unless the product overflows |
| PwmTimer.DividedPulse | libraries/HAL_Drivers/drv_pwm.c:229-241 | and so is a pulse shorter than its period |
| PwmTimer.SetThenGet | libraries/HAL_Drivers/drv_pwm.c:222-277 | all of this through the registers, under conditions on the request and the clock alone: periods and pulses raised to their minimum, plain, filling the period, and read with a divided clock |
| PmTick.PmClock.OsTickFromPmTick | libraries/HAL_Drivers/drv_pm.c:152-164 | report and remainder together account for all ticks and the old remainder if and only if the sum fits 32 bits; the remainder stays below the frequency |
| PmTick.Balance | libraries/HAL_Drivers/drv_pm.c:158-161 | over any run, reports, remainder and whole 32-bit overflows account for all ticks converted |
| PmTick.PmShare | libraries/HAL_Drivers/drv_pm.c:138-143 | the PM ticks are the largest number whose share does not exceed the product kept in 32 bits |
| PmTick.NoDriftExactly | libraries/HAL_Drivers/drv_pm.c:158-161 | over any run, the ticks reported sum to the exact quotient of all ticks if and only if every step fits 32 bits |
| PmTick.DriftExample | libraries/HAL_Drivers/drv_pm.c:158-161 | a single conversion of 4294968 ticks at equal rates reports none |
| PmTick.RoundTripNeverMore | libraries/HAL_Drivers/drv_pm.c:138-164 | OS ticks converted to PM ticks and back are never more than before, whatever is carried and whatever overflows |
| PmTick.RoundTripLoss | libraries/HAL_Drivers/drv_pm.c:138-164 | without overflow the loss is less than one tick and the share of one PM tick |
| UsDelay.Delay | libraries/HAL_Drivers/drv_common.c:134-162 | returns at the first reading whose count suffices, and never before its ticks have passed, for any schedule of readings |
| UsDelay.Poll | libraries/HAL_Drivers/drv_common.c:142-161 | the loop ends at the first reading that differs from the one before with the target reached |
| UsDelay.NeverAhead | libraries/HAL_Drivers/drv_common.c:147-154 | the 32-bit count never exceeds the time passed |
| UsDelay.CountedExactly | libraries/HAL_Drivers/drv_common.c:147-154 | with readings less than a period apart, the time passed is the count plus the number of restarts seen |
| UsDelay.CountedStep | libraries/HAL_Drivers/drv_common.c:147-154 | the same between two readings |
| UsDelay.TargetExactly | libraries/HAL_Drivers/drv_common.c:138-140 | for every wait the target is one decrement short for each microsecond if and only if it fits 32 bits, and long enough if and only if the wait is empty |
| UsDelay.EarlyExactly | libraries/HAL_Drivers/drv_common.c:134-162 | a wait can return before its microseconds have passed, at some readings, if and only if the counter runs and the wait is longer than a single decrement |
| UsDelay.EarlyWait | libraries/HAL_Drivers/drv_common.c:134-162 | read at such moments, the loop does return early |
| UsDelay.SlowestCount | libraries/HAL_Drivers/drv_common.c:147-154 | every target can be reached with the number of decrements counted plus one for each restart |
| UsDelay.ReturnsEarly | libraries/HAL_Drivers/drv_common.c:134-162 | a wait of one microsecond at 4 MHz returns after three of four decrements |
| UsDelay.LongTargetWraps | libraries/HAL_Drivers/drv_common.c:140 | a wait of eighteen seconds at 240 MHz has a target that passes in 30 ms |
| SpiSplit.Transfer | libraries/HAL_Drivers/drv_spi.c:312-493 | chunks of 1 to 65535 bytes concatenate to the message, in ceil(length / 65535) rounds when all succeed; otherwise an error, with all before the failing chunk exchanged; the rest of the receive buffer stays |
| SpiSplit.Exchange | libraries/HAL_Drivers/drv_spi.c:375-432 | one polled chunk in the directions that have a buffer; without any buffer it fails; a receiver alone that fails is left with the ones it sent |

## Left out

- EthRing.Transmit: records the frame handed to the HAL but not what HAL_ETH_TransmitFrame does with it; interrupts, underflow restart and PHY handling are not modelled.
- EthRing.Receive: the frame's buffer pointer is taken to be the first descriptor's buffer; what the DMA does to descriptors while a frame is copied out is not modelled.
- AtomicAdd.Linearizable: covers the software compare-exchange as one atomic step; the variants by compiler built-ins, the other atomic operations and rt_atomic_dec_and_test, which compares the old value, are not modelled.
- CrcUnit.CrcDevice.Update: the effect of one byte on the register is a parameter; memcmp is equality of fields, without padding bytes; reset, destruction and reconfiguration of a context are not modelled.
- CrcUnit.ReversedOutputExactly: takes the register of a narrow unit to lie within its width, as the hardware keeps it.
- LcdLine.DrawLine: horizontal lines running left or over more than 320 pixels, which overrun the driver's line buffer, are excluded, and so are distances from 65534 on, for which the loop does not end.
- LcdLine.DrawSlanted: distances from 65534 on are excluded, because the loop does not end.
- LcdGlyph.ShowChar: the address window is not modelled; the bytes are those sent into it. Characters outside the font table, for which the driver reads past its end, are excluded.
- UartDma.UartRx.Take: the get index and the full flag of the serial layer, and with them its dropping of old data, are not modelled.
- UartDma.NothingLost: assumes the serial layer has room; its drop of old data on overflow and the transmit side are not modelled.
- Base64.DecodeInto: the empty text is excluded, because the code reads before its beginning.
- WifiConfig.Store.ReadCfg: an empty stored text is excluded for the same reason.
- WifiConfig.Store.Persist: covers EasyFlash before version 4; the later branch stores the bytes themselves. A configuration of length 0 is excluded.
- CanFilter.CanDriver.SetFilter: baud rates, the interrupt handlers and the controller's own filter numbering are not modelled; identifiers must fit 11 or 29 bits.
- GpioIrq.PinIrq.EnableIrq: the pull and edge settings handed to HAL_GPIO_Init are not modelled; the grouping of lines is that of the default branch, not that of the F0, L0, G0 or MP1 series. The mask is the set of its bit numbers.
- PwmTimer.SetThenGet: the divided clock must be at least 1 MHz, because get divides by it; what a pulse that fills its period is read back as under a divided clock, and setting period or pulse alone, are not modelled.
- PmTick.RoundTripLoss: only for a first product that does not overflow.
- UsDelay.Delay: the readings are given as a finite list of moments.
- SpiSplit.Transfer: chip select, DMA branches, cache maintenance and what a failing chunk may already have exchanged are not modelled.
- The USB host's pipe-index search, the SPI display's fill and circle routines, and the rectangle gather would only add easy members or have no exact specification.
- Clock trees, SDRAM, display controllers, converters, watchdogs, flash, SD cards, pin toggling, real-time clock, file systems, fonts and configuration headers.
