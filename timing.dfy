/**
 * Compile-time timing of one WS2812B bit cell (src/ws2812b.c).
 *
 * Nanosecond durations become cycle counts through integer division by the
 * length of one clock cycle. The padding placed in each phase of a cell is
 * chosen by the preprocessor from the low five bits of the phase's cycle
 * constant: a `nop` (1 cycle) and `brid .+0` blocks of 1, 2, 4 and 8
 * instructions. `brid .+0` branches to the next instruction when the global
 * interrupt flag is clear, which costs 2 cycles; with the flag set it falls
 * through in 1 cycle.
 */
module Timing {

  const NS_PER_SECOND: int := 1_000_000_000

  /** Nominal durations of the three phases of a cell, in nanoseconds. */
  const BASE_NS: nat := 400
  const DELTA_NS: nat := 400
  const FINAL_NS: nat := 450

  /** The cycles of the driver's own instructions charged to each phase. */
  const BASE_OVERHEAD: nat := 2
  const DELTA_OVERHEAD: nat := 4
  const FINAL_OVERHEAD: nat := 8

  /** A clock rate for which `NS_PER_CYCLE` is a positive integer. */
  predicate ValidClock(fCpu: int)
  {
    0 < fCpu <= NS_PER_SECOND
  }

  /** `NS_PER_CYCLE`: nanoseconds per clock cycle, rounded down. */
  function NsPerCycle(fCpu: int): (r: int)
    requires ValidClock(fCpu)
    ensures 1 <= r
    ensures r * fCpu <= NS_PER_SECOND < (r + 1) * fCpu
  {
    NS_PER_SECOND / fCpu
  }

  /** `NS_TO_CYCLES(ns)`: the whole cycles that fit in `ns` nanoseconds. */
  function NsToCycles(fCpu: int, ns: nat): (r: nat)
    requires ValidClock(fCpu)
    ensures r * NsPerCycle(fCpu) <= ns < (r + 1) * NsPerCycle(fCpu)
  {
    ns / NsPerCycle(fCpu)
  }

  /** `BASE_CYCLES`, `DELTA_CYCLES` and `FINAL_CYCLES`; each may be negative. */
  function BaseCycles(fCpu: int): (c: int)
    requires ValidClock(fCpu)
    ensures (c + BASE_OVERHEAD) * NsPerCycle(fCpu) <= BASE_NS < (c + BASE_OVERHEAD + 1) * NsPerCycle(fCpu)
  {
    NsToCycles(fCpu, BASE_NS) - BASE_OVERHEAD
  }

  function DeltaCycles(fCpu: int): (c: int)
    requires ValidClock(fCpu)
    ensures (c + DELTA_OVERHEAD) * NsPerCycle(fCpu) <= DELTA_NS < (c + DELTA_OVERHEAD + 1) * NsPerCycle(fCpu)
  {
    NsToCycles(fCpu, DELTA_NS) - DELTA_OVERHEAD
  }

  function FinalCycles(fCpu: int): (c: int)
    requires ValidClock(fCpu)
    ensures (c + FINAL_OVERHEAD) * NsPerCycle(fCpu) <= FINAL_NS < (c + FINAL_OVERHEAD + 1) * NsPerCycle(fCpu)
  {
    NsToCycles(fCpu, FINAL_NS) - FINAL_OVERHEAD
  }

  /** `c >> k` on a two's-complement value: division by 2^k rounded down. */
  function Shr(c: int, k: nat): int
    decreases k
  {
    if k == 0 then c else Shr(c / 2, k - 1)
  }

  /** `#if (c & (1 << k))`: the preprocessor's bit test, also for negative `c`. */
  predicate HasBlock(c: int, k: nat)
  {
    Shr(c, k) % 2 == 1
  }

  /**
   * The cycles spent in the padding selected for constant `c`: one `nop`
   * for bit 0, and 1, 2, 4 or 8 `brid .+0` for bits 1 to 4, each `brid`
   * costing 2 cycles with interrupts disabled and 1 otherwise.
   */
  function BlockDelay(c: int, interruptsEnabled: bool): (n: nat)
    ensures n <= 31
    ensures interruptsEnabled ==> n <= 16
  {
    var brid := if interruptsEnabled then 1 else 2;
    (if HasBlock(c, 0) then 1 else 0)
    + brid * ((if HasBlock(c, 1) then 1 else 0) + (if HasBlock(c, 2) then 2 else 0)
              + (if HasBlock(c, 3) then 4 else 0) + (if HasBlock(c, 4) then 8 else 0))
  }

  lemma Halve(c: int)
    ensures c == 2 * (c / 2) + (if c % 2 == 1 then 1 else 0)
  {
  }

  lemma ModUnique32(c: int, q: int, s: int)
    requires c == 32 * q + s && 0 <= s < 32
    ensures c % 32 == s
  {
  }

  /** `c` is 32 times `c >> 5` plus its five low bits, one per block. */
  lemma {:induction false} LowBits(c: int)
    ensures c == 32 * Shr(c, 5) + BlockDelay(c, false)
  {
    var c1 := c / 2;
    var c2 := c1 / 2;
    var c3 := c2 / 2;
    var c4 := c3 / 2;
    Halve(c); Halve(c1); Halve(c2); Halve(c3); Halve(c4);
    assert Shr(c, 1) == Shr(c1, 0) == c1;
    assert Shr(c, 2) == Shr(c1, 1) == Shr(c2, 0) == c2;
    assert Shr(c, 3) == Shr(c1, 2) == Shr(c2, 1) == Shr(c3, 0) == c3;
    assert Shr(c, 4) == Shr(c1, 3) == Shr(c2, 2) == Shr(c3, 1) == Shr(c4, 0) == c4;
    assert Shr(c, 5) == Shr(c1, 4) == Shr(c2, 3) == Shr(c3, 2) == Shr(c4, 1) == Shr(c4 / 2, 0);
  }

  /** With interrupts disabled the padding lasts `c & 31` cycles; exactly `c` iff 0 <= c < 32. */
  lemma BlockDelayMasked(c: int)
    ensures BlockDelay(c, false) == c % 32
    ensures BlockDelay(c, false) == c <==> 0 <= c < 32
  {
    LowBits(c);
    ModUnique32(c, Shr(c, 5), BlockDelay(c, false));
  }

  /**
   * With interrupts enabled every `brid` falls through in one cycle, so the
   * padding is too short as soon as it contains a `brid`, that is as soon
   * as `c & 31` is 2 or more.
   */
  lemma BlockDelayUnmasked(c: int)
    ensures BlockDelay(c, true) <= BlockDelay(c, false)
    ensures BlockDelay(c, true) == BlockDelay(c, false) <==> c % 32 < 2
  {
    BlockDelayMasked(c);
  }

  /** `BASE_CYCLES`, `DELTA_CYCLES` and `FINAL_CYCLES`: the padding each phase asks for. */
  datatype Cycles = Cycles(base: int, delta: int, final: int)

  /** The constants the preprocessor derives for clock rate `fCpu`. */
  function CyclesOf(fCpu: int): (c: Cycles)
    requires ValidClock(fCpu)
    ensures c.base == c.delta + DELTA_OVERHEAD - BASE_OVERHEAD
  {
    Cycles(BaseCycles(fCpu), DeltaCycles(fCpu), FinalCycles(fCpu))
  }

  /** The cycles the pin spends in the base, delta and final phases of a cell. */
  datatype Profile = Profile(base: nat, delta: nat, final: nat)

  /**
   * Each phase lasts its fixed instruction overhead plus the padding selected
   * for its constant, run with interrupts disabled.
   */
  function ProfileFor(c: Cycles): (p: Profile)
    ensures p.base == BASE_OVERHEAD + c.base % 32
    ensures p.delta == DELTA_OVERHEAD + c.delta % 32
    ensures p.final == FINAL_OVERHEAD + c.final % 32
  {
    BlockDelayMasked(c.base);
    BlockDelayMasked(c.delta);
    BlockDelayMasked(c.final);
    Profile(BASE_OVERHEAD + BlockDelay(c.base, false),
            DELTA_OVERHEAD + BlockDelay(c.delta, false),
            FINAL_OVERHEAD + BlockDelay(c.final, false))
  }

  /** The profile the driver produces for clock rate `fCpu`. */
  function ProfileOf(fCpu: int): Profile
    requires ValidClock(fCpu)
  {
    ProfileFor(CyclesOf(fCpu))
  }

  /** All three constants can be padded exactly. */
  predicate InRange(fCpu: int)
    requires ValidClock(fCpu)
  {
    0 <= BaseCycles(fCpu) < 32 && 0 <= DeltaCycles(fCpu) < 32 && 0 <= FinalCycles(fCpu) < 32
  }

  /**
   * When the constants are in range, the phases last `NS_TO_CYCLES(400)`,
   * `NS_TO_CYCLES(400)` and `NS_TO_CYCLES(450)` cycles; counted at
   * `NS_PER_CYCLE` ns per cycle, the cell falls short of 1250 ns by less than
   * three cycles. Real time is the subject of `CellRealTime`.
   */
  lemma PhasesMatchDesign(fCpu: int)
    requires ValidClock(fCpu) && InRange(fCpu)
    ensures ProfileOf(fCpu).base == NsToCycles(fCpu, BASE_NS)
    ensures ProfileOf(fCpu).delta == NsToCycles(fCpu, DELTA_NS)
    ensures ProfileOf(fCpu).final == NsToCycles(fCpu, FINAL_NS)
    ensures var ns, cell := NsPerCycle(fCpu), ProfileOf(fCpu).base + ProfileOf(fCpu).delta + ProfileOf(fCpu).final;
      cell * ns <= BASE_NS + DELTA_NS + FINAL_NS < cell * ns + 3 * ns
  {
    BlockDelayMasked(BaseCycles(fCpu));
    BlockDelayMasked(DeltaCycles(fCpu));
    BlockDelayMasked(FinalCycles(fCpu));
    SumOfFloors(NsPerCycle(fCpu), ProfileOf(fCpu).base, ProfileOf(fCpu).delta, ProfileOf(fCpu).final, BASE_NS, DELTA_NS, FINAL_NS);
  }

  /**
   * A real cycle lasts 10^9 / F_CPU ns, longer than `NS_PER_CYCLE` when F_CPU
   * does not divide 10^9. In real time a cell with the constants in range
   * lasts more than 1250 ns less three cycles, and less than 1250 ns plus
   * 1 ns per cycle, so it may exceed 1250 ns (see `CellOverrun`).
   */
  lemma CellRealTime(fCpu: int)
    requires ValidClock(fCpu) && InRange(fCpu)
    ensures var cell := ProfileOf(fCpu).base + ProfileOf(fCpu).delta + ProfileOf(fCpu).final;
      (BASE_NS + DELTA_NS + FINAL_NS) * fCpu < (cell + 3) * NS_PER_SECOND
      && cell * NS_PER_SECOND < (BASE_NS + DELTA_NS + FINAL_NS + cell) * fCpu
  {
    PhasesMatchDesign(fCpu);
    var p := ProfileOf(fCpu);
    RealTime(NS_PER_SECOND, fCpu, NsPerCycle(fCpu), p.base + p.delta + p.final, BASE_NS + DELTA_NS + FINAL_NS);
  }

  /**
   * `n` cycles of `ns` ns, `ns` being `second / f` rounded down, that fall
   * short of `t` by less than three cycles: in real time, where a cycle
   * lasts `second / f` ns, they still reach past `t` less three cycles and
   * overshoot `t` by less than 1 ns per cycle.
   */
  lemma RealTime(second: int, f: int, ns: int, n: nat, t: int)
    requires 0 < f && 0 < ns && ns * f <= second < (ns + 1) * f
    requires 0 < n && n * ns <= t < n * ns + 3 * ns
    ensures t * f < (n + 3) * second
    ensures n * second < (t + n) * f
  {
    var m := n + 3;
    assert t < m * ns;
    MulStrict(f, t, m * ns);
    MulMono(m, ns * f, second);
    MulShuffle(f, m, ns);
    RealTimeUpper(second, f, ns, n, t);
  }

  /** `n` cycles of `ns` ns that fit in `t` last less than `t + n` ns in real time. */
  lemma RealTimeUpper(second: int, f: int, ns: int, n: nat, t: int)
    requires 0 < f && second < (ns + 1) * f
    requires 0 < n && n * ns <= t
    ensures n * second < (t + n) * f
  {
    MulStrict(n, second, (ns + 1) * f);
    MulMono(f, n * ns, t);
    MulShuffle(n, ns + 1, f);
  }

  /**
   * Two phases of whole cycles of `ns` ns, `ns` being `second / f` rounded
   * down, that fit in `x` and `y` ns, last less than `limit` ns in real time
   * when `limit` is at least twice `x + y`.
   */
  lemma PhasesRealTime(second: int, f: int, ns: int, d: nat, e: nat, x: int, y: int, limit: int)
    requires 0 < f && 0 < ns && second < (ns + 1) * f
    requires 0 < d + e && d * ns <= x && e * ns <= y && 2 * (x + y) <= limit
    ensures (d + e) * second < limit * f
  {
    MulMono(d, 1, ns);
    MulMono(e, 1, ns);
    assert (d + e) * ns == d * ns + e * ns;
    RealTimeUpper(second, f, ns, d + e, x + y);
    MulMono(f, x + y + d + e, limit);
  }

  lemma MulSucc(k: int, c: int)
    ensures (k + 1) * c == c + k * c
  {
  }

  lemma MulMono(a: int, x: int, y: int)
    requires 0 <= a && x <= y
    ensures a * x <= a * y
  {
  }

  lemma MulStrict(a: int, x: int, y: int)
    requires 0 < a && x < y
    ensures a * x < a * y
  {
  }

  lemma MulShuffle(a: int, b: int, c: int)
    ensures a * (b * c) == b * (c * a)
    ensures a * ((b + 1) * c) == (a * b) * c + a * c
  {
  }

  /**
   * At 19.61 MHz the constants are in range, `NS_PER_CYCLE` is 50 and the
   * cell is 25 cycles: 1250 ns counted, but more than 1250 ns in real time.
   */
  lemma CellOverrun()
    ensures InRange(19_610_000) && NsPerCycle(19_610_000) == 50
    ensures var p := ProfileOf(19_610_000);
      p.base + p.delta + p.final == 25
      && (p.base + p.delta + p.final) * NS_PER_SECOND > (BASE_NS + DELTA_NS + FINAL_NS) * 19_610_000
  {
    BlockDelayMasked(6);
    BlockDelayMasked(4);
    BlockDelayMasked(1);
  }

  /** Three durations each rounded down to whole cycles lose less than three cycles together. */
  lemma SumOfFloors(ns: int, b: int, d: int, f: int, x: int, y: int, z: int)
    requires b * ns <= x < (b + 1) * ns
    requires d * ns <= y < (d + 1) * ns
    requires f * ns <= z < (f + 1) * ns
    ensures (b + d + f) * ns <= x + y + z < (b + d + f) * ns + 3 * ns
  {
    assert (b + d + f) * ns == b * ns + d * ns + f * ns;
    assert (b + 1) * ns == b * ns + ns && (d + 1) * ns == d * ns + ns && (f + 1) * ns == f * ns + ns;
  }

  /** At 8 MHz the delta and final constants are negative and wrap to 31 and 27 cycles. */
  lemma ConstantsAt8MHz()
    ensures NsPerCycle(8_000_000) == 125
    ensures BaseCycles(8_000_000) == 1 && DeltaCycles(8_000_000) == -1 && FinalCycles(8_000_000) == -5
    ensures ProfileOf(8_000_000).base == 3 && ProfileOf(8_000_000).delta == 35 && ProfileOf(8_000_000).final == 35
    ensures !InRange(8_000_000)
  {
    BlockDelayMasked(1);
    BlockDelayMasked(-1);
    BlockDelayMasked(-5);
  }

  /** At 16 MHz only the final constant is negative; it wraps to 31 cycles. */
  lemma ConstantsAt16MHz()
    ensures NsPerCycle(16_000_000) == 62
    ensures BaseCycles(16_000_000) == 4 && DeltaCycles(16_000_000) == 2 && FinalCycles(16_000_000) == -1
    ensures ProfileOf(16_000_000).base == 6 && ProfileOf(16_000_000).delta == 6 && ProfileOf(16_000_000).final == 39
    ensures !InRange(16_000_000)
  {
    BlockDelayMasked(4);
    BlockDelayMasked(2);
    BlockDelayMasked(-1);
  }
}
