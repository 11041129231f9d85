/**
 * The WS2812B driver of src/ws2812b.c as a state machine: the data pin's
 * port register, the status register whose bit 7 is the global interrupt
 * enable, and the trace of what the pin did.
 */
module Driver {

  import opened Utils
  import opened Timing
  import opened Waveform

  /** `PIXEL_PIN`: the strip's data line is bit 3 of `PIXEL_PORT`. */
  const PIXEL_PIN: nat := 3

  /** The global interrupt enable is bit 7 of SREG. */
  const GIE_BIT: nat := 7
  const GIEB: bv8 := 0x80

  /** Or-ing the saved interrupt bit back into the cleared register gives the register as it was. */
  lemma RestoreAfterClear(s: bv8)
    ensures ClearBit(s, GIE_BIT) | (s & GIEB) == s
  {
  }

  class Strip {
    /** `BASE_CYCLES`, `DELTA_CYCLES` and `FINAL_CYCLES`, fixed when the driver is compiled. */
    const cycles: Cycles
    /** `PIXEL_PORT`. */
    var port: bv8
    /** `SREG`. */
    var sreg: bv8
    /** Everything the data pin has done so far. */
    var trace: seq<Event>

    /** A driver compiled for clock rate `fCpu`, with the pin and SREG as found. */
    constructor (fCpu: int, port: bv8, sreg: bv8)
      requires ValidClock(fCpu)
      ensures cycles == CyclesOf(fCpu) && ProfileFor(cycles) == ProfileOf(fCpu)
      ensures this.port == port && this.sreg == sreg && trace == []
    {
      cycles := CyclesOf(fCpu);
      this.port := port;
      this.sreg := sreg;
      trace := [];
    }

    /** The I flag, tested as `SREG & (1 << 7)`. */
    function InterruptsEnabled(): (on: bool)
      reads this
      ensures on <==> Bit(sreg, GIE_BIT)
    {
      sreg & GIEB != 0
    }

    /** `cli()`: the interrupt flag is cleared and nothing else changes. */
    method Cli()
      modifies this
      ensures !InterruptsEnabled()
      ensures sreg == ClearBit(old(sreg), GIE_BIT)
      ensures port == old(port) && trace == old(trace)
    {
      sreg := sreg & !GIEB;
    }

    /** `sbi`: the data pin goes high. */
    method Rise()
      modifies this
      ensures port == SetBit(old(port), PIXEL_PIN)
      ensures trace == old(trace) + [Drive(true)]
      ensures sreg == old(sreg)
    {
      port := SetBit(port, PIXEL_PIN);
      trace := trace + [Drive(true)];
    }

    /** `cbi`: the data pin goes low. */
    method Fall()
      modifies this
      ensures port == ClearBit(old(port), PIXEL_PIN)
      ensures trace == old(trace) + [Drive(false)]
      ensures sreg == old(sreg)
    {
      port := ClearBit(port, PIXEL_PIN);
      trace := trace + [Drive(false)];
    }

    /** The pin keeps its level for `n` cycles. */
    method Hold(n: nat)
      modifies this
      ensures trace == old(trace) + [Wait(n)]
      ensures port == old(port) && sreg == old(sreg)
    {
      trace := trace + [Wait(n)];
    }

    /**
     * One pass of the inline assembly loop of `sendBytes`: the cell for bit 7
     * of the data register, which is then shifted left.
     */
    method SendBit(d: bv8) returns (next: bv8)
      requires !InterruptsEnabled()
      modifies this
      ensures next == d << 1
      ensures trace == old(trace) + Cell(Bit(d, 7), ProfileFor(cycles))
      ensures port == ClearBit(old(port), PIXEL_PIN)
      ensures sreg == old(sreg)
    {
      ClearAfterSet(old(port), PIXEL_PIN);
      ghost var p := ProfileFor(cycles);
      ghost var t0 := trace;
      ghost var bit := Bit(d, 7);
      Rise();
      var base := BASE_OVERHEAD + BlockDelay(cycles.base, InterruptsEnabled());
      Hold(base);
      if !Bit(d, 7) {
        Fall();
      }
      next := d << 1;  // lsl
      var delta := DELTA_OVERHEAD + BlockDelay(cycles.delta, InterruptsEnabled());
      Hold(delta);
      Fall();
      var final := FINAL_OVERHEAD + BlockDelay(cycles.final, InterruptsEnabled());
      Hold(final);
      assert base == p.base && delta == p.delta && final == p.final;
      assert trace == t0 + Cell(bit, p);
    }

    /**
     * The inline assembly block of `sendBytes` for one byte: eight bit
     * cells, the register tested at bit 7 and shifted left after each.
     */
    method SendByte(data: bv8)
      requires !InterruptsEnabled()
      modifies this
      ensures trace == old(trace) + Cells(ByteBits(data), ProfileFor(cycles))
      ensures port == ClearBit(old(port), PIXEL_PIN)
      ensures sreg == old(sreg)
    {
      ghost var p, t0, s0, p0 := ProfileFor(cycles), trace, sreg, port;
      ghost var low := ClearBit(p0, PIXEL_PIN);
      ClearAfterSet(p0, PIXEL_PIN);
      ghost var sent: seq<bool> := [];
      var d := data;
      var i: nat := 8;  // ldi %[i], 8
      while i != 0
        invariant i <= 8
        invariant sent + ByteBits(d)[..i] == ByteBits(data)
        invariant trace == t0 + Cells(sent, p)
        invariant sreg == s0
        invariant port == if i == 8 then p0 else low
      {
        ShiftStep(data, sent, d, i);
        CellsSnoc(sent, Bit(d, 7), p);
        AppendAssoc(t0, Cells(sent, p), Cell(Bit(d, 7), p));
        sent := sent + [Bit(d, 7)];
        d := SendBit(d);
        i := i - 1;  // dec / brne
      }
      assert ByteBits(d)[..0] == [];
      assert sent + [] == sent;
      assert sent == ByteBits(data);
    }

    /**
     * The `while (num_bytes--)` loop of `sendBytes`, run with interrupts
     * disabled: each byte in buffer order, then the next one.
     */
    method SendLoop(data: array<bv8>, numBytes: nat)
      requires numBytes <= data.Length
      requires !InterruptsEnabled()
      modifies this
      ensures trace == old(trace) + Encode(data[..numBytes], ProfileFor(cycles))
      ensures sreg == old(sreg)
      ensures port == if numBytes == 0 then old(port) else ClearBit(old(port), PIXEL_PIN)
    {
      ghost var p, t0, s0, p0 := ProfileFor(cycles), trace, sreg, port;
      ghost var low := ClearBit(p0, PIXEL_PIN);
      ClearAfterSet(p0, PIXEL_PIN);
      ghost var bytes := data[..numBytes];
      var cur: nat := 0;
      var remaining: nat := numBytes;
      while remaining != 0
        invariant cur + remaining == numBytes
        invariant sreg == s0
        invariant trace == t0 + Encode(bytes[..cur], p)
        invariant port == if cur == 0 then p0 else low
      {
        remaining := remaining - 1;  // num_bytes--
        SendByte(data[cur]);
        EncodePrefix(bytes, cur, p);
        AppendAssoc(t0, Encode(bytes[..cur], p), Cells(ByteBits(bytes[cur]), p));
        cur := cur + 1;  // cur++
      }
      assert bytes[..cur] == bytes;
    }

    /**
     * `sendBytes(data, numBytes)`: interrupts off, then for each byte in
     * order eight bit cells, most-significant bit first, then the interrupt
     * flag back as it was. The buffer is only read.
     */
    method SendBytes(data: array<bv8>, numBytes: nat)
      requires numBytes < 256 && numBytes <= data.Length
      modifies this
      ensures trace == old(trace) + Encode(data[..numBytes], ProfileFor(cycles))
      ensures sreg == old(sreg)
      ensures port == if numBytes == 0 then old(port) else ClearBit(old(port), PIXEL_PIN)
    {
      var giebPrev := sreg & GIEB;
      Cli();
      SendLoop(data, numBytes);
      sreg := sreg | giebPrev;
      RestoreAfterClear(old(sreg));
    }

    /** `show()`: the 50 us reset hold; the pin is not touched. */
    method Show()
      modifies this
      ensures trace == old(trace) + [DelayUs(RESET_US)]
      ensures port == old(port) && sreg == old(sreg)
    {
      trace := trace + [DelayUs(RESET_US)];
    }

    /** `showColor(r, g, b)`: every pixel set to one colour, then the reset hold. */
    method ShowColor(r: bv8, g: bv8, b: bv8)
      modifies this
      ensures trace == old(trace) + Frame(r, g, b, ProfileFor(cycles))
      ensures sreg == old(sreg)
      ensures port == ClearBit(old(port), PIXEL_PIN)
    {
      ghost var p, t0, s0, p0 := ProfileFor(cycles), trace, sreg, port;
      ghost var low := ClearBit(p0, PIXEL_PIN);
      ClearAfterSet(p0, PIXEL_PIN);
      ghost var block := [g, r, b];
      var data := new bv8[3] [g, r, b];
      for i := 0 to PIXEL_NUM
        invariant data[..] == block
        invariant trace == t0 + Encode(Repeat(block, i), p)
        invariant sreg == s0
        invariant port == if i == 0 then p0 else low
      {
        assert data[..3] == block;
        SendBytes(data, 3);
        EncodeRepeat(block, i, p);
        AppendAssoc(t0, Encode(Repeat(block, i), p), Encode(block, p));
      }
      Show();
      AppendAssoc(t0, Encode(Repeat(block, PIXEL_NUM), p), [DelayUs(RESET_US)]);
    }
  }
}
