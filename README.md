# WS2812B bit-banging driver, modelled in Dafny

This project models the WS2812B LED-strip driver of `src/ws2812b.c` and the
two port macros of `include/utils.h`, and proves properties of the model.

The driver sends a byte buffer to a chain of WS2812B pixels over one data
pin. Each bit becomes one fixed-length *cell*:

- the pin goes high (`sbi`) and stays high for a base phase;
- for a 0 bit it is pulled low at once (`sbrs`/`cbi`);
- after a delta phase it is driven low whatever the bit (`cbi`);
- it then stays low for a final phase.

Bytes go out most-significant bit first. The whole transfer runs with the
global interrupt flag cleared, and the flag is restored afterwards.
`showColor` sends one colour to all 12 pixels in green, red, blue order and
then holds the line for the 50 us reset time, which latches the colours.

The model has four modules:

- **Utils** (`utils.dfy`): `high` and `low` as pure bit functions on an 8-bit
  register (`SetBit`, `ClearBit`) and as methods of a `Port` class that
  updates its register in place. It also covers sequences of macro uses
  (`Run`, `LastWrite`).
- **Timing** (`timing.dfy`): `NS_PER_CYCLE`, `NS_TO_CYCLES` and the three
  cycle constants, as functions of the clock rate `F_CPU`. It also models the
  preprocessor's selection of padding blocks (`nop`, and 1, 2, 4 or 8
  `brid .+0`) from the low five bits of each constant, including negative
  constants. `brid .+0` costs 2 cycles when interrupts are disabled and 1
  cycle when they are enabled.
- **Waveform** (`waveform.dfy`): the pin as a trace of events. An event is
  `Drive(level)`, `Wait(cycles)` or `DelayUs(us)`.
  - `Cell` is one bit cell; `Encode` is the trace of a buffer; `Frame` is the
    trace of `showColor`.
  - A receiver (`DecodeBits`, `DecodeBytes`, `DecodeFrame`) classifies each
    cell by its high time. It is the reference that `Encode` is proved
    against. It knows the profile and never takes a `Wait` for a reset.
  - `Dur` is the length of a trace in cycles: every cell lasts one cell
    period whatever its bit.
- **Driver** (`driver.dfy`): class `Strip`. Its fields are:
  - the data pin's port register `PIXEL_PORT`;
  - `SREG`;
  - the pin trace;
  - the compile-time cycle constants.

  `sendBytes` is split along its own structure:
  - `SendBytes`: the SREG save, clear and restore, with `Cli` for `cli()`;
  - `SendLoop`: the `while (num_bytes--)` loop over the buffer;
  - `SendByte`: the inline-assembly loop over the eight bits;
  - `SendBit`: one pass of that loop;
  - `Rise`, `Fall` and `Hold`: `sbi`, `cbi` and the padding.

  Each method is proved against the specification functions of Waveform.

Where the code and its comments or design notes disagree, the model follows
the code:

- The comments of `low` and `high` in `include/utils.h` describe the two
  macros the wrong way round. The model follows the macro bodies: `low`
  clears the bit and `high` sets it.
- The cycle constants are not always non-negative. At 8 MHz `DELTA_CYCLES`
  is -1 and `FINAL_CYCLES` is -5. At 16 MHz `FINAL_CYCLES` is -1. The
  preprocessor's bit tests then see the two's-complement value, so the
  padding is `C & 31` cycles: 31, 27 and 31 cycles, not none. The model keeps
  this wrap-around, and `ConstantsAt8MHz` and `ConstantsAt16MHz` state the
  resulting phase lengths.

Inputs that stand for hardware or for the build:

- the clock rate `F_CPU` is a parameter of the `Strip` constructor;
- the initial values of `PIXEL_PORT` and `SREG` are constructor parameters;
- the 50 us `_delay_us` is one `DelayUs(50)` event.

## Model

| member | source | states |
|---|---|---|
| Utils.SetBit | include/utils.h:7 | `high(port, index)`: bit `index` is set and every other bit of the 8-bit register keeps its value; an index from 8 to 14 leaves the register unchanged |
| Utils.ClearBit | include/utils.h:5 | `low(port, index)`: bit `index` is cleared and every other bit keeps its value |
| Utils.ClearAfterSet | include/utils.h:5 | `low` after `high` on the same bit, or `low` twice, gives the same register as one `low` |
| Utils.ApplyIdempotent | include/utils.h:5 | applying either macro twice with the same index equals applying it once |
| Utils.ApplyCommutes | include/utils.h:7 | two macro uses on different bits give the same register in either order |
| Utils.LastWriteWins | include/utils.h:5-7 | after any sequence of `high`/`low` uses, bit `i` is the level written by the last use naming `i`, or its initial value if none does |
| Utils.Port.constructor | include/utils.h:5-7 | a register the macros act on, holding the given value |
| Utils.Port.High | include/utils.h:7 | the in-place `port \|= (1 << index)`: the register becomes `SetBit` of its old value, bit `index` is now set and no other bit changes |
| Utils.Port.Low | include/utils.h:5 | the in-place `port &= ~(1 << index)`: the register becomes `ClearBit` of its old value, bit `index` is now clear and no other bit changes |
| Timing.NsPerCycle | src/ws2812b.c:22-24 | `NS_PER_CYCLE` is the floor of 10^9 / `F_CPU`: the largest whole number of nanoseconds whose `F_CPU` multiples fit in one second |
| Timing.NsToCycles | src/ws2812b.c:25 | `NS_TO_CYCLES(n)` rounds down: the result's cycles fit in `n` ns and one more cycle would not |
| Timing.LowBits | src/ws2812b.c:93-107 | a constant is 32 times its value shifted right by five plus the cycles of the blocks its five low bits select (brid at 2 cycles) |
| Timing.BlockDelayMasked | src/ws2812b.c:93-147 | with interrupts disabled, the padding for constant C lasts `C & 31` cycles, also for negative C, and this equals C exactly when 0 <= C < 32 |
| Timing.BlockDelayUnmasked | src/ws2812b.c:31 | with interrupts enabled every `brid .+0` takes one cycle, so the padding is never longer and is shorter as soon as `C & 31` >= 2 |
| Timing.BaseCycles | src/ws2812b.c:67 | `BASE_CYCLES` plus its 2 cycles of overhead is the number of whole cycles in 400 ns: those cycles fit in 400 ns and one more would not |
| Timing.DeltaCycles | src/ws2812b.c:68 | `DELTA_CYCLES` plus its 4 cycles of overhead is the number of whole cycles in 400 ns |
| Timing.FinalCycles | src/ws2812b.c:69 | `FINAL_CYCLES` plus its 8 cycles of overhead is the number of whole cycles in 450 ns |
| Timing.CyclesOf | src/ws2812b.c:67-69 | the three constants for one clock rate; `BASE_CYCLES` is always `DELTA_CYCLES` + 2, since both come from the same 400 ns |
| Timing.HasBlock | src/ws2812b.c:93 | the preprocessor test `#if (C & 2^k)` on the two's-complement value of C, as bit k of C shifted right by k; what the five tests add up to is stated by `LowBits` |
| Timing.BlockDelay | src/ws2812b.c:93-147 | the cycles of the padding blocks selected for C (one `nop` for bit 0, 1, 2, 4 or 8 `brid .+0` for bits 1 to 4): never more than 31 cycles, and never more than 16 with interrupts enabled; its exact length is `BlockDelayMasked` |
| Timing.ProfileFor | src/ws2812b.c:67-69 | each phase lasts the overhead the code subtracts from it (2, 4 and 8 cycles) plus `C & 31` cycles of padding for its constant C |
| Timing.PhasesMatchDesign | src/ws2812b.c:63-69 | when all three constants lie in 0..31, the phases last `NS_TO_CYCLES(400)`, `NS_TO_CYCLES(400)` and `NS_TO_CYCLES(450)` cycles, and the whole cell, counted at `NS_PER_CYCLE` ns per cycle, falls short of 1250 ns by less than three cycles |
| Timing.CellRealTime | src/ws2812b.c:47-69 | in real time, one cycle lasting 10^9 / `F_CPU` ns, a cell with the constants in range lasts more than 1250 ns less three cycles and less than 1250 ns plus 1 ns per cycle, so it can be longer than the 1250 ns pulse |
| Timing.CellOverrun | src/ws2812b.c:22-25 | at 19.61 MHz the constants are in range, `NS_PER_CYCLE` is 50 and the cell is 25 cycles: 1250 ns counted, more than 1250 ns in real time |
| Timing.ConstantsAt8MHz | src/ws2812b.c:67-69 | at 8 MHz: `NS_PER_CYCLE` 125, constants 1, -1 and -5, phases of 3, 35 and 35 cycles; the constants are out of range |
| Timing.ConstantsAt16MHz | src/ws2812b.c:67-69 | at 16 MHz: `NS_PER_CYCLE` 62, constants 4, 2 and -1, phases of 6, 6 and 39 cycles; the constants are out of range |
| Waveform.ByteBits | src/ws2812b.c:109-111 | the eight bits of a byte in the order the assembly loop sends them, bit 7 first; `MsbFirst` ties this order to test-then-shift and `PackByteBits` shows the bits rebuild the byte |
| Waveform.PackByteBits | src/ws2812b.c:109-111 | the eight bits, shifted back in top bit first, give back the byte |
| Waveform.ShiftedTail | src/ws2812b.c:111 | after `lsl` the seven bits still to send, top first, are the top seven bits of the shifted register |
| Waveform.MsbFirst | src/ws2812b.c:109-111 | testing bit 7 and then shifting left sends bits most-significant first: the top `i` bits of a register are bit 7 followed by the top `i - 1` bits of the shifted register |
| Waveform.ShiftStep | src/ws2812b.c:109-111 | the inner loop's invariant: the bits already sent followed by the top `i` bits of the shifted register are the bits of the byte, before and after one pass |
| Waveform.Cell | src/ws2812b.c:91-130 | one bit cell: rise, base hold, an early fall for a 0 bit, delta hold, fall, final hold; `CellShape` and `CellHighTime` state its shape and high time |
| Waveform.CellShape | src/ws2812b.c:91-130 | every cell starts with the pin driven high and ends with it driven low and held for the final phase; five events for a 1 bit, six for a 0 bit |
| Waveform.Cells | src/ws2812b.c:89-150 | the cells of a bit sequence back to back, with no gap between them; `DecodeCells` and `CellsEndLow` are its properties |
| Waveform.Encode | src/ws2812b.c:85-158 | the trace `sendBytes` must produce: for each byte in buffer order, its eight cells; `DecodeEncode`, `CellCount` and `EncodeAppend` are its properties |
| Waveform.CellHighTime | src/ws2812b.c:91-130 | a cell is high for the base phase for a 0 bit and for base plus delta for a 1 bit |
| Waveform.CellDur | src/ws2812b.c:91-147 | every cell lasts base + delta + final cycles, the same whether it sends a 0 or a 1 (the fixed 1250 ns data pulse of lines 47-48) |
| Waveform.CellsDur | src/ws2812b.c:88-150 | the cells of n bits last exactly n cell periods |
| Waveform.NoDrift | src/ws2812b.c:88-150 | whatever the bits, cell k starts exactly k cell periods after the first: the trace splits at cell k and what precedes it lasts k periods |
| Waveform.EncodeDur | src/ws2812b.c:85-158 | `sendBytes` of n bytes holds the line for exactly 8·n cell periods |
| Waveform.DecodeCell | src/ws2812b.c:109-130 | a receiver reads one cell as its bit and goes on at the next rising edge |
| Waveform.DecodeCells | src/ws2812b.c:88-150 | decoding the cells of any bit sequence gives back those bits, provided the delta phase is at least one cycle |
| Waveform.DecodeEncode | src/ws2812b.c:85-158 | round trip: decoding the trace of any buffer gives back its bits, 8 per byte, and regrouping them gives back the buffer |
| Waveform.EncodeAppend | src/ws2812b.c:85-158 | the trace of two buffers sent one after the other is the trace of their concatenation |
| Waveform.EncodePrefix | src/ws2812b.c:153-157 | sending byte `k` extends the trace of the first `k` bytes to that of the first `k + 1` |
| Waveform.CellCount | src/ws2812b.c:85-150 | a buffer of n bytes gives exactly 8·n rising edges, one per cell, and none for an empty buffer |
| Waveform.CellsEndLow | src/ws2812b.c:130 | every cell ends with the pin low, so after any non-empty transfer the line is low whatever its level before |
| Waveform.Repeat | src/ws2812b.c:180-183 | `k` copies of a block one after the other, the bytes of `k` passes of `showColor`'s loop; `RepeatAt` gives its length and elements |
| Waveform.RepeatAt | src/ws2812b.c:180-183 | `k` copies of a 3-byte block have length 3k, and element j is element j mod 3 of the block |
| Waveform.FrameBytes | src/ws2812b.c:179-183 | the bytes of a frame: [g, r, b] for each of the 12 pixels; `FrameRoundTrip` gives its length and elements |
| Waveform.Frame | src/ws2812b.c:175-186 | the trace of `showColor`: the cells of the frame's bytes, then one 50 us hold; `FrameRoundTrip` states its edge count and that a receiver reads the bytes back |
| Waveform.EncodeRepeat | src/ws2812b.c:180-183 | one more pass of `showColor`'s loop appends the trace of the three colour bytes |
| Waveform.FrameRoundTrip | src/ws2812b.c:175-186 | `showColor(r, g, b)` sends 36 bytes, byte j being [g, r, b][j mod 3], in 288 cells followed by one reset hold; a receiver that latches on the hold reads back exactly those bytes |
| Waveform.LowBelowReset | src/ws2812b.c:163-169 | with the constants in range, the longest low stretch of a cell (delta plus final, for a 0 bit) lasts in real time less than the 50 us reset time |
| Waveform.LowPastResetAt1MHz | src/ws2812b.c:67-69 | at 1 MHz every phase wraps to 32 cycles, so a 0 bit is low for 64 us, past the reset time, yet the reference receiver still reads the byte back |
| Driver.Strip.InterruptsEnabled | src/ws2812b.c:82 | the I flag that `SREG & (1 << 7)` tests is bit 7 of the register |
| Driver.Strip.Cli | src/ws2812b.c:84 | `cli()`: afterwards interrupts are disabled; SREG loses bit 7 and keeps every other bit; the port and the trace do not change |
| Driver.Strip.constructor | src/ws2812b.c:67-69 | the driver's cycle constants are those for `F_CPU`, its phase lengths are `ProfileOf(F_CPU)`, and the trace is empty |
| Driver.Strip.Rise | src/ws2812b.c:91 | `sbi`: the pin bit of the port is set, and a rising edge is appended to the trace |
| Driver.Strip.Fall | src/ws2812b.c:110 | `cbi`: the pin bit of the port is cleared, and a falling edge is appended to the trace |
| Driver.Strip.Hold | src/ws2812b.c:93-107 | padding: one hold of the given cycles is appended, and the port and SREG do not change |
| Driver.Strip.SendBit | src/ws2812b.c:90-150 | with interrupts disabled, one pass of the assembly loop appends exactly the cell of bit 7 of the data register, returns the register shifted left by one, leaves the pin low and every other port bit and SREG as they were |
| Driver.Strip.SendByte | src/ws2812b.c:88-155 | with interrupts disabled, the assembly block appends the eight cells of the byte, most-significant bit first, leaves the pin low and SREG unchanged |
| Driver.Strip.SendLoop | src/ws2812b.c:85-158 | with interrupts disabled, the byte loop appends the trace of `data[0..n)` in buffer order, changes nothing but the strip's own state (the buffer is only read), and leaves the pin low unless n = 0 |
| Driver.Strip.SendBytes | src/ws2812b.c:75-161 | `sendBytes(data, n)` appends `Encode(data[0..n))`, the cells whose count and round trip `CellCount` and `DecodeEncode` state; bit 7 of SREG is saved, cleared by `Cli` for the whole loop, and OR-ed back, so SREG, interrupt flag included, is as before the call; the pin ends low unless n = 0 |
| Driver.Strip.Show | src/ws2812b.c:166-170 | `show()` appends one 50 us hold and makes no pin transition |
| Driver.Strip.ShowColor | src/ws2812b.c:175-186 | `showColor(r, g, b)` appends exactly `Frame(r, g, b)`, the 12 passes of [g, r, b] then one reset hold; SREG is unchanged and the pin ends low |

## Left out

- Instruction-level AVR timing is not modelled. The cycles of `sbi`, `cbi`, `sbrs`, `lsl`, `dec` and `brne` are charged as the fixed overheads the code subtracts (2, 4 and 8 cycles). Only the padding blocks are timed from their instructions.
- `_delay_us` is one `DelayUs(50)` event. Its library internals and its floating-point arithmetic are not part of this model.
- Driver.Strip.SendBytes: the arithmetic flags of SREG that `lsl` and `dec` change are not modelled. In the model the assembly touches only the port, so SREG comes back whole; the code itself promises only bit 7.
- The inline-assembly operand constraints, register allocation and the `_SFR_IO_ADDR` translation are not modelled. `PIXEL_PORT` is the `port` field, and `PIXEL_PIN` is bit 3 of it.
- After the loop, the `uint8_t` counter `num_bytes` wraps to 255. Nothing reads it afterwards, so the model counts down a natural number instead.
- Driver.Strip.SendLoop: the model shows that the buffer is never written and that its bytes go out in order. It does not count how many times each element is read.
- Timing.PhasesMatchDesign: its nanosecond bound counts every cycle as `NS_PER_CYCLE` ns, the rounded-down quotient. A real cycle lasts 10^9 / `F_CPU` ns, so in real time the cell can last longer than 1250 ns. `CellRealTime` bounds the real length, and `CellOverrun` gives a clock where it exceeds 1250 ns.
- Waveform.DecodeEncode: the reference receiver knows the profile and thresholds at its midpoint. It never reads a `Wait`, however long, as a reset. So the round trip, like `FrameRoundTrip`, shows that the encoding can be decoded, not that a WS2812B reads the line at a given `F_CPU`. `LowBelowReset` shows that no low stretch reaches the reset time when the constants are in range. `LowPastResetAt1MHz` shows a clock where one does, and the round trip still holds there.
- Timing.PhasesMatchDesign: the datasheet's tolerance bands of ±150 ns for each symbol are not stated. The lemma relates the phases to the nanosecond constants the code uses.
- `main` (`src/ws2812b.c:188-207`) is pin-direction setup and an endless loop with one-second delays. `src/led.c` and `src/led_button_polling.c` are demonstration programs of pure pin I/O. None of them is part of this model.
- Interrupts are not modelled as events. Inside one `sendBytes` call the flag is clear, so no interrupt can occur there. `BlockDelayUnmasked` gives the timing the padding would have if the flag were set.
- Driver.Strip.ShowColor: the trace has no event for the time between bytes (the `while (num_bytes--)` test and `cur++`, lines 85, 153 and 157) or between the 12 calls of `sendBytes` (the `for` loop and the call, lines 180-182). During that time the line stays low. SREG is restored at line 160 before the next `cli()` at line 84, so when the caller has interrupts enabled, an interrupt can run between two calls and stretch that low time without bound. If the gap reaches the 50 us reset time, the pixels latch early. `Frame` and the round trip describe the line only when every such gap is short.
