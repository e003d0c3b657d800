# HDMI2USB: verified models of the gateware state machines and dense firmware routines

The gateware of this repository is a set of clocked state machines (encoder front end, I2C slave, SPI masters); the firmware
around it contains a handful of routines whose correctness is not obvious from reading them (clock synthesis search, FX2
boot, HDMI buffer rotation, bit-banged I2C, Etherbone framing, EDID generation, console input).  This project models them in
Dafny and proves what they are for: what every step of a protocol keeps, what holds over every run, that what goes over a
wire decodes back to what was meant, and where that fails, exactly when.

    dafny verify dfyconfig.toml

## How the models are built

* A gateware module is a datatype of its registers and a function `Next`, one clock edge.  Everything it does not decide
  (handshakes, bus lines, processor accesses) is a free input of every edge, and theorems quantify over all input sequences.
  A class with the same registers updates them in place, statement by statement as the source does, and its `Clock` method
  is proved to move the registers exactly as `Next` says.
* A firmware routine is a method (or a class holding its static variables) with the source's loops and in-place updates,
  proved against a function; the lemmas beside it say what that function is good for.
* Observers (`I2cBus`, `SpiMaster`, `SpiFlash`, the terminal of `LineEditor`), decoders (`Edid`) and reference definitions
  (`Tokenizer.Words`, `Telnet.Logged`, `Etherbone.Frame`) share no definition with the routine they judge.  For the line
  editor only the splitting into lines (`SerialLines`, `TelnetLines`) is independent; what one key does to a line is `Typed`
  on both sides.

| file | models |
|---|---|
| `EncoderReader.dfy` | the address generator that walks a raster in 8x8 block order |
| `EncoderBuffer.dfy` | the two-bank ping-pong buffer with its concurrent write and read machines |
| `EncoderPipeline.dfy` | both, with memory and the clock-crossing FIFO between them |
| `ClockSearch.dfy` | the search for the best multiplier and divider, in 32-bit arithmetic |
| `I2cShiftReg.dfy`, `Fx2Loader.dfy` | the clock-stretching I2C slave, and the firmware feeding it, as one interleaved system |
| `I2cMaster.dfy`, `Fx2Reboot.dfy` | a bus master that can always read the next byte, and when exactly the firmware is delivered in order |
| `HdmiCapture.dfy` | the buffer rotation of the capture interrupt |
| `I2cBus.dfy` | bit-banged I2C waveforms and an observer of the bus |
| `SpiMaster.dfy`, `SpiFlash.dfy` | the display's SPI master and the flash readers, cycle by cycle |
| `Etherbone.dfy` | the resynchronising packet framer |
| `Edid.dfy` | packing, checksum and the whole 128-byte block |
| `Telnet.dfy`, `LineEditor.dfy`, `Console.dfy` | ring buffer and line editor of the console, and the two joined |
| `Tokenizer.dfy` | the in-place tokenizer of the console |
| `Types.dfy`, `DivMod.dfy` | bytes and options; division facts with variable divisors |

## Results that differ from what one would expect

* `HdmiCapture.SafeExactlyWhenAllowed`: slot and displayed indices are distinct after every interrupt of a run exactly when
  three armings of one slot in a row are followed by another only if they are slot 1's and the next interrupt finds both
  slots full (which arms slot 0 first).  Were every completion an interrupt of its own, the condition would be that three
  in a row are followed by none (`SafeExactlyWhenPaced`); it is sufficient for
  all runs (`PacedRunIsSafe`) but not necessary (`UnpacedRunIsAllowed`).
* `HdmiCapture.SafeInsideRun`: between arming a slot and moving the display at its end, the interrupt may arm a slot with
  the buffer that is still displayed.  Even when the slots take turns, an interrupt that finds both full does so
  (`AlternatingInterruptIsSafe`).
* `SpiMaster.ExactPulsesIffWideEnough`: a divider of 2 (the default) or 3 adds one clock pulse to every transfer; from 4 on
  every transfer is exact.  The display uses 16.
* `Etherbone.PacketsAreDelivered`: a stream of packets arrives whole if and only if every chunk fits behind what is kept and
  no chunk ends one byte into a packet with a wrong stale byte behind it.  The copy into the buffer is not bounded:
  `OverrunOfTwoPackets` is a stream of two ordinary packets that overruns it, and a packet longer than the buffer, which the
  header can announce, is never received at all (`LongPacketsAreNeverReceived`).
* `Fx2Reboot.InOrderExactlyWhenEmpty`: delivery in order is certain if and only if `fx2_load_init` finds the shift register
  empty, or the image consists of the byte found there and nothing else.  Every boot leaves the register armed
  (`BootRearms`), and `fx2_reboot` lets the FX2 out of reset before it loads, so a reboot depends on no byte leaving before
  the loader has armed the register anew, and none being on its way when it replaces the old one (`RebootDelivery`).
* `ClockSearch.OptimalExactlyUpToLast`: the 32-bit search finds the optimum if and only if the pixel clock is at most
  9028627 (Spartan 6) or 16841223 (Artix 7).  Differences leave the range in which `abs` is exact a little earlier, at
  8388647 and 16777231 (`LimitIsWidest`).  At 2^31 the search returns the worst pair instead of the best (`HalfRangeFails`).
  On Artix 7 the source multiplies the clock by ten (firmware/processor.c:477), but only after the value
  was taken (line 465), so that this has no effect; the model follows the code.

## Model

| member | source | states |
|---|---|---|
| `EncoderBuffer.BufferRefinesUnpackingFifo` | gateware/encoder/core.py:118-232 | over every run from reset the pixels emitted are a prefix of the accepted rows unpacked most significant lane first with `last` on every 64th, at most 16 rows are outstanding, and whenever both sides are active they use different banks |
| `EncoderBuffer.StepKeepsInv` | gateware/encoder/core.py:131-232 | one clock edge with any handshake keeps the invariant behind this: the two machines in step, both outstanding blocks held in their banks, emitted pixels a prefix |
| `EncoderBuffer.RunKeepsInv` | gateware/encoder/core.py:131-232 | every run, of any length and with any handshakes, keeps that invariant |
| `EncoderBuffer.TakeIsNextBeat` | gateware/encoder/core.py:202-219 | the pixel offered in a reachable state is the next one of the unpacked stream |
| `EncoderBuffer.NeverStallsItself` | gateware/encoder/core.py:131-142 | no run has two consecutive cycles in which neither side is ready |
| `EncoderBuffer.DrainsIfConsumerReady` | gateware/encoder/core.py:208-232 | with a willing consumer any number of completed blocks is emitted within a computed number of cycles |
| `EncoderBuffer.CompletedBlocksLeaveInTime` | gateware/encoder/core.py:162-232 | 129 willing cycles after any run, every block completed so far has left |
| `EncoderBuffer.Buffer.Clock` | gateware/encoder/core.py:125-232 | registers and memory updated in place move as one edge of the model, with the handshake outputs of the old state |
| `EncoderBuffer.Buffer.ClockWritePath` | gateware/encoder/core.py:144-179 | write machine, write pointer and memory after one edge |
| `EncoderBuffer.Buffer.ClockReadPath` | gateware/encoder/core.py:181-232 | read machine and pointers after one edge |
| `EncoderReader.Traversal` | gateware/encoder/core.py:70-107 | under any pattern of stalls the reader issues the burst addresses in closed-form order, one per ready cycle, and is idle again exactly after (width/burst)*height of them |
| `EncoderReader.AcceptFollowsPlaces` | gateware/encoder/core.py:82-106 | one accept moves the counters from the place of burst k to that of burst k+1, or ends the frame |
| `EncoderReader.IndexOfPlace` | gateware/encoder/core.py:83-105 | burst number to (block row, block column, line, sub-burst) and back is the identity on numbers |
| `EncoderReader.PlaceOfIndex` | gateware/encoder/core.py:83-105 | place to burst number and back is the identity on places, so the numbering is a bijection |
| `EncoderReader.NextPlace` | gateware/encoder/core.py:83-105 | consecutive numbers are consecutive places of the block order |
| `EncoderReader.LastPlaceEndsFrame` | gateware/encoder/core.py:88-94 | in the block order the last place has the last number, and no other place has |
| `EncoderReader.ColumnTests` | gateware/encoder/core.py:84-88 | at any place of a frame the horizontal tests of the state machine hold exactly at the last burst of a block line and at the last block of a row, and no counter wraps |
| `EncoderReader.RowTests` | gateware/encoder/core.py:86-92 | the vertical tests hold exactly at the last line of a block and at the last block row, and no counter wraps |
| `EncoderReader.EachBurstOnce` | gateware/encoder/core.py:109-115 | the offsets of a frame are a permutation of all its bursts |
| `EncoderReader.OffsetIsInjective` | gateware/encoder/core.py:109-115 | the raster offset of a burst determines its place |
| `EncoderReader.OffsetIsSurjective` | gateware/encoder/core.py:109-115 | every raster offset is the offset of a place in the frame |
| `EncoderReader.CircuitAddressIsExact` | gateware/encoder/core.py:109-115 | the truncation of the pixel number to `read_address` never shows in the address |
| `EncoderReader.AddressIsExact` | gateware/encoder/core.py:112-115 | with the frame inside the address space the sum gives base plus offset without wrap-around |
| `EncoderReader.StartedIsOnTrack` | gateware/encoder/core.py:39-79 | a start pulse puts the reader, done with whatever frame, on the first burst of the next with the stored base |
| `EncoderReader.DmaReader.Clock` | gateware/encoder/core.py:37-115 | registers updated in place move as one edge of the model, and the address offered is the model's |
| `EncoderPipeline.EndToEnd` | targets/atlys/hdmi2usb.py:26-45 | from reset, for any sequence of frames of positive multiples of 8, each started whenever the reader is done, and every pattern of stalls anywhere: what left the buffer is a prefix of the frames' pixels, frame after frame, each in 8x8 block order with `last` on every 64th |
| `EncoderPipeline.CompleteIsWholeFrame` | gateware/encoder/core.py:41-232 | reader idle, FIFO and buffer empty if and only if all started frames came out whole |
| `EncoderPipeline.WillingCycleProgresses` | gateware/encoder/core.py:71-232 | in every reachable state a cycle with all peers willing brings all started frames strictly nearer their end |
| `EncoderPipeline.FrameCompletesInTime` | gateware/encoder/core.py:41-232 | with willing peers a frame started at any moment of any run is out, with all that was on its way before it, after 20 cycles per burst, 18 per word waiting in the FIFO, and 257 |
| `EncoderPipeline.StepKeepsInv` | targets/atlys/hdmi2usb.py:39-45 | over requests and starts no word is lost, repeated or reordered between requests, FIFO and buffer |
| `EncoderPipeline.UnpackFrames` | gateware/encoder/core.py:202-219 | the words of any frames, unpacked by the buffer, are the frames' pixels in block order |
| `EncoderPipeline.BurstHoldsPixel` | gateware/encoder/core.py:109-115 | the lane of a fetched word is the pixel of the framebuffer at the expected coordinates |
| `EncoderPipeline.BurstIsEightBeats` | gateware/encoder/core.py:202-206 | beat k of the frame is lane 7 - k % 8 of burst k / 8 |
| `ClockSearch.GetClockMd` | firmware/processor.c:455-497 | for every 32-bit clock the pair of the 32-bit search, in [2,max_m]x[1,max_d]; it is the closest to the ideal ratio of all pairs in that box, and the earliest of equals, if and only if the clock is at most `Last` |
| `ClockSearch.OptimalExactlyUpToLast` | firmware/processor.c:486-495 | the search finds the optimum for exactly the clocks up to 9028627 on Spartan 6 and 16841223 on Artix 7 |
| `ClockSearch.SearchIsBest` | firmware/processor.c:486-495 | up to the limit the search holds, at every step, the best pair scanned so far and the first of its ratio |
| `ClockSearch.LaterRowsKeep` | firmware/processor.c:489-495 | for clocks beyond the box and up to `Last` no later divider displaces max_m/1, although differences may wrap round |
| `ClockSearch.LostBeyondLast` | firmware/processor.c:489-495 | above `Last` wrapped differences always displace max_m/1, and the search never comes back to it |
| `ClockSearch.FarOptimum` | firmware/processor.c:486-495 | beyond the box max_m/1 is the optimum |
| `ClockSearch.CurrentDifference` | firmware/processor.c:489 | the wrapped 32-bit product difference equals the ideal one during the search |
| `ClockSearch.TestedDifference` | firmware/processor.c:490 | the wrapped 32-bit difference of the tested pair equals the ideal one during the search |
| `ClockSearch.DifferencesFit` | firmware/processor.c:486-491 | every difference the search can form stays below 2^31 |
| `ClockSearch.LimitIsWidest` | firmware/processor.c:489-490 | beyond the limit some pair of the box has a difference outside that range |
| `ClockSearch.HalfRangeFails` | firmware/processor.c:486-495 | at a clock of 2^31 the search returns the smallest ratio of the box, which is not optimal |
| `ClockSearch.CloserIsTransitive` | firmware/processor.c:491 | the cross-multiplied comparison is transitive although each pair is compared under its own denominator |
| `ClockSearch.OptimalIsUnique` | firmware/processor.c:486-495 | there is one optimal earliest pair, so the method's contract determines its result |
| `ClockSearch.LowestTerms` | firmware/processor.c:486-495 | the result is in lowest terms except possibly bm = 2 with common factor 2 |
| `I2cShiftReg.StepKeepsInv` | gateware/opsis_i2c.py:99-236 | over read transactions every edge keeps the slave's invariant, and a byte counts as sent only with its eight bits sampled from the shift register |
| `I2cShiftReg.ReadBitsKept` | gateware/opsis_i2c.py:129-136 | while a byte goes out, each rising SCL finds the next bit of the register driven on SDA |
| `I2cShiftReg.ShiftRegister.Clock` | gateware/opsis_i2c.py:69-236 | registers updated in place move as one edge of the model, processor writes included |
| `I2cShiftReg.ShiftRegister.Decide` | gateware/opsis_i2c.py:138-236 | next state and control signals of the state machine, a start condition and an address write overriding |
| `I2cShiftReg.ShiftRegister.Receive` | gateware/opsis_i2c.py:96-119 | bit counter, received bits and direction after one edge |
| `I2cShiftReg.ShiftRegister.WriteRegisters` | gateware/opsis_i2c.py:26-28 | the three registers when processor and hardware write at one edge |
| `Fx2Loader.Delivery` | firmware/fx2.c:49-113 | for every interleaving of polls, separate register writes and read-only bus activity the bytes shifted out are bytes 0,1,2,... of the image in order, none lost or repeated, and the loader reports success only after the whole image was read |
| `Fx2Loader.StepKeepsSystemInv` | firmware/fx2.c:92-113 | one edge with any processor access keeps processor and slave in agreement about the byte in flight |
| `Fx2Loader.RunKeepsSystemInv` | firmware/fx2.c:68-113 | every run that honours clock stretching keeps that agreement, from power-on through any number of bytes |
| `Fx2Loader.ByteLeavesInOrder` | gateware/opsis_i2c.py:178-189 | a byte that completes is the next one of the image |
| `Fx2Loader.PowerOnIsReady` | gateware/opsis_i2c.py:27 | the reset state meets the condition of delivery |
| `Fx2Loader.StaleByteEscapes` | firmware/fx2.c:63-65 | entered at the end of a byte, the initialisation lets that byte out first |
| `Fx2Reboot.InOrderExactlyWhenEmpty` | firmware/fx2.c:49-113 | for a slave found armed or empty in any state of read transactions: all honouring runs deliver in order if and only if it is empty or the image is that one byte throughout |
| `Fx2Reboot.OldByteIsRead` | firmware/fx2.c:63-65 | for every other image a run from the armed slave that is out of order |
| `Fx2Reboot.RebootDelivery` | firmware/fx2.c:115-127 | from an armed slave in any state of a read transaction the image is delivered whole and in order if no byte leaves before the loader has armed the register and none is on its way when it replaces the old one |
| `Fx2Reboot.IdleBusIsQuiet` | gateware/opsis_i2c.py:138-145 | that holds on a bus with no transaction under way and no start condition until then |
| `Fx2Reboot.BootRearms` | firmware/fx2.c:104-108 | the step that completes a boot leaves the register armed with byte 0 |
| `Fx2Reboot.BytesCanBeRead` | firmware/fx2.c:92-113 | loader and slave never block each other: from every reachable state any number of further bytes can be read |
| `I2cMaster.MoveHelps` | gateware/opsis_i2c.py:138-236 | from every state of an armed slave there are bus levels that honour the protocol and bring the byte's end nearer |
| `Fx2Loader.Loader.StepProcessor` | firmware/fx2.c:49-113 | the firmware's variables in place, one register access at a time |
| `Fx2Loader.Loader.PollStatus` | firmware/fx2.c:74-90 | the polling loop: counter, restart on success, exit by break or timeout |
| `Fx2Loader.Loader.FinishService` | firmware/fx2.c:76-80 | what the loop does after a served read |
| `HdmiCapture.SafeExactlyWhenPaced` | firmware/hdmi_in0.c:67-98 | when every completion is an interrupt of its own, slot and displayed indices stay pairwise distinct if and only if no slot is armed three times in a row with another arming following |
| `HdmiCapture.SafeExactlyWhenAllowed` | firmware/hdmi_in0.c:35-100 | over every run of interrupts since enable the three indices are distinct after each if and only if three armings of one slot in a row are followed by another only if they are slot 1's and the next interrupt finds both slots full |
| `HdmiCapture.InterruptIsSafe` | firmware/hdmi_in0.c:67-98 | one interrupt behind an allowed run leaves the indices distinct exactly when it is allowed in turn |
| `HdmiCapture.PacedRunIsSafe` | firmware/hdmi_in0.c:35-100 | a run of interrupts with a history paced as if completions came one by one is allowed, and leaves the three indices distinct |
| `HdmiCapture.UnpacedRunIsAllowed` | firmware/hdmi_in0.c:68-98 | slot 1 may be armed three times in a row and both slots after it by one interrupt |
| `HdmiCapture.AlternationIsPermutation` | firmware/hdmi_in0.c:67-98 | with strict alternation the four indices are a permutation of 0..3 |
| `HdmiCapture.SafeInsideExactly` | firmware/hdmi_in0.c:72-98 | behind a settled history an allowed interrupt arms no slot with the buffer still displayed, except exactly when the slots have just changed over after two armings of one, or it finds both full while they take turns |
| `HdmiCapture.SafeInsideRun` | firmware/hdmi_in0.c:72-98 | in an allowed run an interrupt arms no slot with the buffer still displayed, except exactly when the slots have just changed over after two armings of one, or it finds both full while they take turns |
| `HdmiCapture.AlternatingInterruptIsSafe` | firmware/hdmi_in0.c:72-98 | with strict alternation an interrupt is safe inside if and only if it does not find both slots full |
| `HdmiCapture.DisplayedFramesAreWhole` | firmware/hdmi_in0.c:67-98 | after the first good capture the displayed buffer's last fill was a whole frame, throughout an allowed run |
| `HdmiCapture.ArmedBytesAreNotDisplayed` | firmware/framebuffer.h:57-64 | after any allowed run no byte of the displayed buffer lies in an armed one, and none in both armed ones |
| `HdmiCapture.IsrIsCompletions` | firmware/hdmi_in0.c:68-98 | one interrupt with any two slots pending is its good completions one after the other |
| `HdmiCapture.CompletionsExtendHistory` | firmware/hdmi_in0.c:71-73 | the indices are a function of the history of armings alone |
| `HdmiCapture.RunFollowsHistory` | firmware/hdmi_in0.c:35-137 | the state after any run of interrupts since enable is that of its history of armings |
| `HdmiCapture.HdmiIn0.Enable` | firmware/hdmi_in0.c:112-138 | indices after enabling |
| `HdmiCapture.HdmiIn0.ServeSlot` | firmware/hdmi_in0.c:68-81 | a good frame frees its buffer and takes the next, any other changes nothing |
| `HdmiCapture.HdmiIn0.Interrupt` | firmware/hdmi_in0.c:35-100 | the static variables in place move as one interrupt of the model |
| `I2cBus.WaveformRoundTrip` | firmware/i2c.c:26-108 | for every well-bracketed list of start, repeated start, write, read and stop an observer following sections 3.1.3 to 3.1.5 of UM10204 decodes the waveform to that list, bytes and acknowledges included, with no violation seen |
| `I2cBus.SeeOp` | firmware/i2c.c:55-108 | each operation shows the observer exactly its start, stop or bits, so SDA moves under high SCL only for start and stop |
| `I2cBus.ParseOps` | firmware/i2c.c:84-108 | the bits of any operations group back into them uniquely |
| `I2cBus.I2c.WriteBit` | firmware/i2c.c:41-53 | pin writes put the bit's waveform on the bus |
| `I2cBus.I2c.ReadBit` | firmware/i2c.c:26-39 | SDA is let go, and the value returned is the slave's bit |
| `I2cBus.I2c.StartCond` | firmware/i2c.c:55-69 | start or, when started, repeated start |
| `I2cBus.I2c.StopCond` | firmware/i2c.c:71-82 | stop, with both lines left high |
| `I2cBus.I2c.Write` | firmware/i2c.c:84-95 | eight bits most significant first, then the slave's acknowledge |
| `I2cBus.I2c.Read` | firmware/i2c.c:97-108 | the byte returned is the byte the slave drove, and the acknowledge follows |
| `I2cBus.I2c.Transfer` | firmware/i2c.c:26-108 | any bracketed list of operations, performed on the pins one after the other: the acknowledges and bytes it returns are the slave's, and on a fresh bus the observer decodes the lines to the list |
| `SpiFlash.ReadIsExact` | gateware/spi_flash.py:107-153 | for every divider from 2, every number of dummy periods and any bus behaviour one read presents the command and the address on the bus most significant first, samples the lines at the rises, acknowledges for exactly one cycle with the samples of the last word, and is idle again |
| `SpiFlash.AddressInBytes` | gateware/spi_flash.py:129-136 | the 24 bits loaded are four times the word address, modulo the size of the flash |
| `SpiFlash.Position` | gateware/spi_flash.py:221-261 | where the shift register, the clock and the timeline are in every cycle of a read |
| `SpiFlash.TimelineActs` | gateware/spi_flash.py:240-261 | the timeline acts at ends of clock periods only, one action at its own |
| `SpiFlash.ShiftKeepsRegister` | gateware/spi_flash.py:120-124 | the shift at the end of a period, or the address load over it, leaves what is to be sent at the top and the samples at the bottom |
| `SpiFlash.Sampled` | gateware/spi_flash.py:116-119 | sample k is what the lines carried at the rise of period k |
| `SpiFlash.IdleUntilTriggered` | gateware/spi_flash.py:153 | between reads the chip is not selected, and a read starts at the end of a divider period with a request pending |
| `SpiFlash.FormatCmd` | gateware/spi_flash.py:15-27 | the eight groups sent carry the command on lane 0, most significant bit first, and all other lanes are high, for every width |
| `SpiFlash.CommandThenAddress` | gateware/spi_flash.py:55-83 | a read by a reader with such groups presents the command on lane 0 at the first eight rises, other lanes high, and then the byte address with its top bit first and on the highest lane |
| `SpiFlash.Reader.Clock` | gateware/spi_flash.py:113-153 | registers updated in place move as one edge of the model, the timeline's assignments winning over the divider's |
| `SpiMaster.TransferIsExact` | gateware/oled.py:37-98 | for every divider from 4, every phase at the start, both clock phases and every length: exactly `length` pulses with the chip selected, steady data at the sampling edges showing the top bits of the register in order, idle again after a computed number of cycles and not before |
| `SpiMaster.ExactPulsesIffWideEnough` | gateware/oled.py:53-56 | the number of pulses is right if and only if the divider is at least 4 |
| `SpiMaster.SendingStep` | gateware/oled.py:69-98 | every cycle continues the transfer and brings its end exactly one cycle nearer |
| `SpiMaster.RisingPeriodStep` | gateware/oled.py:144-152 | data changes at falling and is sampled at rising edges without cpha |
| `SpiMaster.FallingPeriodStep` | gateware/oled.py:132-140 | with cpha data changes at rising and is sampled at falling edges |
| `SpiMaster.ReadyUntilStarted` | gateware/oled.py:71-77 | without a start pulse the clock pin stays low |
| `SpiMaster.Master.Clock` | gateware/oled.py:37-155 | registers updated in place move as one edge of the model |
| `SpiMaster.Master.ClockFsm` | gateware/oled.py:58-98 | state machine and counter after one edge |
| `Etherbone.ChunksDoNotMatter` | firmware/etherbone.c:39-80 | a byte stream cut in any way, with no lone first magic byte dropped, yields the packets and rest that framing it at once yields if every chunk fits behind what is kept, and overruns the buffer if one does not |
| `Etherbone.PacketsAreDelivered` | firmware/etherbone.c:39-80 | a stream of packets: each arrived packet is processed once and in order and exactly the unfinished rest is kept, if and only if every chunk fits and none ends one byte into a packet with a stale byte other than the second magic byte |
| `Etherbone.BadCutIsDrop` | firmware/etherbone.c:51-53 | in a stream of packets a byte is dropped exactly at such a cut |
| `Etherbone.NothingLost` | firmware/etherbone.c:44-70 | a connection that accounts for every byte never dropped one, and every chunk fitted |
| `Etherbone.LongPacketsAreNeverReceived` | firmware/etherbone.c:44-66 | no connection hands on a packet longer than the buffer |
| `Etherbone.OverrunOfTwoPackets` | firmware/etherbone.c:44 | two well-formed packets of 1036 bytes, cut as 1000 and 1072, overrun it |
| `Etherbone.ProcessIsFrame` | firmware/etherbone.c:49-53 | one callback frames its data, and loses a lone first magic byte exactly when the stale byte is not the second |
| `Etherbone.CutInTwo` | firmware/etherbone.c:44-53 | one packet cut in two gets through if and only if the buffer holds it and the cut is not behind its first byte, or the stale byte helps |
| `Etherbone.FrameResumes` | firmware/etherbone.c:44-46 | framing interrupted anywhere and resumed is framing at once |
| `Etherbone.FrameOfPrefix` | firmware/etherbone.c:56-76 | any prefix of a stream of packets frames to its complete packets and the unfinished rest |
| `Etherbone.NothingInvented` | firmware/etherbone.c:66-70 | packets and kept bytes together are no longer than the data |
| `Etherbone.Receiver.Callback` | firmware/etherbone.c:39-80 | the buffer in place, for every content and chunk: packets handed on and bytes kept as one callback of the model, or an overrun |
| `Etherbone.Receiver.Serve` | firmware/etherbone.c:39-80 | the callbacks of a connection are a session of the model with the stale bytes of the buffer |
| `Etherbone.Receiver.HandOn` | firmware/etherbone.c:48-79 | the loop terminates for any bytes, and moves what it keeps to the front |
| `Edid.TimingRoundTrip` | firmware/edid.c:144-189 | decoding the packed descriptor gives the timing back if and only if every field fits its bits |
| `Edid.FieldsDecode` | firmware/edid.c:149-177 | each field comes back modulo its range; an active size, whose byte the blanking shares, if the blanking fits its bits |
| `Edid.NibblesDecode` | firmware/edid.c:158-164 | two 12-bit values sharing a byte by bitwise or |
| `Edid.ManufacturerRoundTrip` | firmware/edid.c:261-265 | the three letters come back from their fifteen bits |
| `Edid.NameRoundTrip` | firmware/edid.c:206-220 | the monitor name, cut to 13 characters, comes back if and only if these have no line feed |
| `Edid.GeneratedIsValid` | firmware/edid.c:250-308 | validation accepts every generated block, with and without a secondary timing |
| `Edid.GeneratedDecodes` | firmware/edid.c:250-308 | in the whole block the manufacturer decodes, the year if and only if it lies in 1990..2245, and each timing if and only if its fields fit |
| `Edid.ChecksumCompletes` | firmware/edid.c:121-131 | the checksum is the one byte that makes the sum a multiple of 256 |
| `Edid.GenerateEdid` | firmware/edid.c:250-308 | all 128 bytes are a function of the parameters, whatever the buffer held |
| `Edid.ValidateEdid` | firmware/edid.c:133-142 | accepts exactly blocks with the header whose bytes add up to a multiple of 256 |
| `Edid.ComputeChecksum` | firmware/edid.c:121-131 | the loop in 8-bit arithmetic |
| `Edid.WriteTiming` | firmware/edid.c:144-189 | writes its 18 bytes and no others |
| `Edid.WritePadding` | firmware/edid.c:197-204 | completes a descriptor of any length up to 13 |
| `Edid.WriteMonitorName` | firmware/edid.c:206-220 | a name of any length |
| `Edid.WriteMonitorRange` | firmware/edid.c:222-240 | the range descriptor |
| `Edid.WriteUnused` | firmware/edid.c:242-248 | the filler descriptor |
| `Telnet.RingIsLog` | firmware/telnet.c:49-74 | over any interleaving of arrivals and reads the ring is a log with a read position: characters come out in order, each once, and are refused only when 127 are pending |
| `Telnet.NothingLost` | firmware/telnet.c:54-60 | delivered and pending characters are exactly those that arrived if and only if none was refused |
| `Telnet.Ring.DataCallback` | firmware/telnet.c:49-62 | a callback appends as much of its data as fits |
| `Telnet.Ring.ReadChar` | firmware/telnet.c:64-74 | the oldest character, or 0 when nothing is pending |
| `Telnet.Ring.ReadCharNonblock` | firmware/telnet.c:76-79 | whether anything is pending |
| `Telnet.Ring.Store` | firmware/telnet.c:55-59 | one character, wrapping round, or dropped when 127 are pending |
| `LineEditor.TelnetReturnsLines` | firmware/ci.c:236-262 | the lines returned over telnet are the segments of the input between line feeds, each edited by itself |
| `LineEditor.SerialReturnsLines` | firmware/ci.c:263-304 | on the serial line the same for line ends CR, LF, CRLF and LFCR, for input without NUL |
| `LineEditor.OneLineEachEnd` | firmware/ci.c:268-295 | each of the four line ends completes exactly one line |
| `LineEditor.PlainTextIsKept` | firmware/ci.c:254-260 | text without control characters is kept up to 127 characters |
| `LineEditor.DeleteUndoes` | firmware/ci.c:277-283 | a deletion undoes the character before it if and only if the line was not full |
| `LineEditor.EchoShowsLine` | firmware/ci.c:277-304 | a key keeps the terminal showing the line if and only if it is not a NUL that gets into the line |
| `LineEditor.TerminalShowsLine` | firmware/ci.c:265-304 | behind every prefix of what is typed, deleted or entered on the serial line the terminal shows the line being edited, if and only if no NUL gets into a line |
| `LineEditor.Editor.ReadStr` | firmware/ci.c:229-308 | the static variables in place move as one key of the model, the echo is the model's, and a completed line stands terminated in the buffer |
| `Console.EditorSeesDelivered` | firmware/ci.c:236-262 | over any interleaving of arrivals and calls of `readstr` the editor gets exactly the characters the ring delivers |
| `Console.LinesOfTheLog` | firmware/ci.c:236-262 | the lines returned so far are the edited lines of what the ring accepted and the console read, and the rest of that is being edited |
| `Console.LinesOfAllArrivals` | firmware/telnet.c:49-79 | when none was refused and none is pending, these are the lines of all characters that arrived |
| `Console.Run` | firmware/ci.c:229-262 | ring and editor in place, through any run, return those lines |
| `Tokenizer.TokensAreWords` | firmware/ci.c:326-336 | taking tokens one by one yields the maximal runs of non-space characters |
| `Tokenizer.TokenByToken` | firmware/ci.c:326-336 | token k is word k, and empty from the last word on |
| `Tokenizer.Cursor.GetToken` | firmware/ci.c:326-336 | the loop terminates with the first word and the pointer behind it, writing only between pointer and terminator |
| `Tokenizer.Cursor.GetTokenGeneric` | firmware/ci.c:310-324 | the string up to the delimiter, or all of it, terminated in place |
| `Tokenizer.Cursor.GetTokens` | firmware/ci.c:326-336 | repeated calls return all words in order and then empty strings, each still in place after the calls that follow it |

## Left out

Assumptions about code that is not part of this model:

- LiteDRAM's reader and the asynchronous FIFO keep the order of words; the migen `timeline` acts exactly t cycles after its
  trigger; a processor write to a LiteX register wins over a hardware write at the same edge; the Wishbone bus holds the
  address until the acknowledge.
- `start` is pulsed only while the encoder reader is done, and width, height and the memory read hold still until it is done again; the length
  register of the SPI master holds still during a transfer, and no start pulse comes in one.
- The bus master honours clock stretching: SCL is low while the slave holds it and in the cycle after.

Stated with less than the source does:

- Fx2Loader.Delivery: read transactions only; writes by the bus master overwrite the shift register and the firmware has no
  handler for them.  The polling counter is unbounded instead of 64 bits wide.
- I2cBus.WaveformRoundTrip: a slave that stretches the clock is outside it, since the firmware does not wait for one;
  `i2c_init`'s polling and the delays between pin writes are left out.
- SpiFlash.ReadIsExact: the bitbang mode and the little-endian byte order are left out.
- SpiMaster.TransferIsExact: the receiving side (`miso`) is left out, as the display has none.
- Etherbone.Receiver.Callback: what an overrun destroys is not modelled, only that it happens; reading the byte behind a full
  buffer gives an arbitrary constant; that a packed structure is read at any alignment is taken for granted.
- HdmiCapture.DisplayedFramesAreWhole: the DMA fills whole buffers and is not modelled byte by byte, and the interrupt is one
  step of it; `SafeInsideRun` looks inside.
- LineEditor.TerminalShowsLine: every echoed character is taken to fill one cell of the terminal.
- Console.Run: a NUL received over telnet stays in the line; that it ends the line for those who read it as a C string is
  left out.

Not modelled:

- The JPEG encoder, the USB streamer, litevideo, LiteDRAM, LiteEth and uIP; clock-domain crossing, metastability and analogue
  timing (the I2C slave is modelled on sampled lines).
- Pin tables, target classes, build and flashing scripts, firmware images and bitmaps; configuration, help, status, version
  and uptime output; command dispatch.
- `video_mode_custom` (it derives the sync offset from the total width and goes on after a failed range check), the borders
  of the test pattern (indexed past the frame), `encoder_set_fps` (tests the old value): the claims one would make are false.
- `etherbone_process`: with both writes and reads in a packet both loops start at the first record, so only framing is stated.
- The check of the resulting frequency and the register writes after the clock search; `processor_update` beyond the index it
  takes over from the capture; refresh rate calculation; MDIO, PWM, frequency measurement: simpler than what is here.
