/**
 * What the WS2812B driver of src/ws2812b.c does to its output pin, as a
 * trace of events: pin writes, cycle-counted holds and microsecond delays.
 * `Encode` is the trace `sendBytes` produces for a buffer, `DecodeBytes` a
 * receiver that measures each cell's high time, and `Frame` the trace of
 * `showColor`. The phase lengths come in a `Profile` (see module Timing).
 */
module Waveform {

  import opened Options
  import opened Utils
  import opened Timing

  datatype Event =
    | Drive(high: bool)   // `sbi` (true) or `cbi` (false) on the data pin
    | Wait(cycles: nat)   // the pin keeps its level for this many cycles
    | DelayUs(us: nat)    // `_delay_us(us)`: a hold measured in microseconds

  /** The eight bits of byte `d`, most-significant first. */
  function ByteBits(d: bv8): (bits: seq<bool>)
    ensures |bits| == 8
  {
    seq(8, k requires 0 <= k < 8 => Bit(d, 7 - k))
  }

  /** A left shift moves bit `m - 1` to bit `m`. */
  lemma ShiftLeftBit(d: bv8, m: nat)
    requires 1 <= m < 8
    ensures Bit(d << 1, m) == Bit(d, m - 1)
  {
  }

  /** After `lsl`, the bits still to send are those of the shifted register. */
  lemma ShiftedTail(d: bv8)
    ensures ByteBits(d)[1..] == ByteBits(d << 1)[..7]
  {
    ShiftLeftBit(d, 7); ShiftLeftBit(d, 6); ShiftLeftBit(d, 5); ShiftLeftBit(d, 4);
    ShiftLeftBit(d, 3); ShiftLeftBit(d, 2); ShiftLeftBit(d, 1);
  }

  /**
   * Testing bit 7 and shifting left sends bits most-significant first: the
   * top `i` bits of `d` are bit 7 followed by the top `i - 1` bits of `d << 1`.
   */
  lemma MsbFirst(d: bv8, i: nat)
    requires 1 <= i <= 8
    ensures ByteBits(d)[..i] == [Bit(d, 7)] + ByteBits(d << 1)[..i - 1]
  {
    var s := ByteBits(d);
    ShiftedTail(d);
    assert s[..i] == [s[0]] + s[1..i];
    assert s[1..i] == s[1..][..i - 1];
  }

  /**
   * The loop of `sendBytes` keeps this: the bits already sent followed by
   * the top `i` bits of the shifted register are the bits of the byte.
   */
  lemma ShiftStep(data: bv8, sent: seq<bool>, d: bv8, i: nat)
    requires 1 <= i <= 8
    requires sent + ByteBits(d)[..i] == ByteBits(data)
    ensures (sent + [Bit(d, 7)]) + ByteBits(d << 1)[..i - 1] == ByteBits(data)
  {
    MsbFirst(d, i);
  }

  /**
   * One bit cell: the pin goes high, holds for the base phase, drops at once
   * for a 0 bit, holds for the delta phase, is driven low whatever the bit,
   * and holds low for the final phase.
   */
  function Cell(bit: bool, p: Profile): seq<Event>
  {
    [Drive(true), Wait(p.base)]
    + (if bit then [] else [Drive(false)])
    + [Wait(p.delta), Drive(false), Wait(p.final)]
  }

  /** The cells of `bits`, one after the other with no gap. */
  function Cells(bits: seq<bool>, p: Profile): seq<Event>
  {
    if bits == [] then [] else Cell(bits[0], p) + Cells(bits[1..], p)
  }

  /** The trace of `sendBytes` for the buffer `bytes`. */
  function Encode(bytes: seq<bv8>, p: Profile): seq<Event>
  {
    if bytes == [] then [] else Cells(ByteBits(bytes[0]), p) + Encode(bytes[1..], p)
  }

  /** The bits of a buffer, byte after byte. */
  function BitsOf(bytes: seq<bv8>): seq<bool>
  {
    if bytes == [] then [] else ByteBits(bytes[0]) + BitsOf(bytes[1..])
  }

  // ---------------------------------------------------------------- decoder

  /** How many events after a rising edge belong to the same cell. */
  function CellRest(ev: seq<Event>): (n: nat)
    ensures n <= |ev|
  {
    if ev == [] || ev[0] == Drive(true) || ev[0].DelayUs? then 0 else 1 + CellRest(ev[1..])
  }

  /** The cycles the pin stays high at the start of a cell body. */
  function HighTime(body: seq<Event>): nat
  {
    if body == [] then 0
    else match body[0]
      case Drive(high) => if high then HighTime(body[1..]) else 0
      case Wait(c) => c + HighTime(body[1..])
      case DelayUs(_) => 0
  }

  /** The midpoint between the high times of the two symbols. */
  function Threshold(p: Profile): nat
  {
    p.base + p.delta / 2
  }

  /** Reads one bit per cell: 1 when the cell's high time exceeds the threshold. */
  function DecodeBits(ev: seq<Event>, p: Profile): Option<seq<bool>>
    decreases |ev|
  {
    if ev == [] then Some([])
    else if ev[0] != Drive(true) then None
    else
      var n := 1 + CellRest(ev[1..]);
      match DecodeBits(ev[n..], p)
      case None => None
      case Some(rest) => Some([HighTime(ev[1..n]) > Threshold(p)] + rest)
  }

  /** Shifts a received bit into the low end of a register. */
  function ShiftIn(x: bv8, bit: bool): bv8
  {
    (x << 1) | (if bit then 1 else 0)
  }

  /** Assembles bits, most-significant first, into a byte. */
  function PackBits(bits: seq<bool>): bv8
  {
    if bits == [] then 0 else ShiftIn(PackBits(bits[..|bits| - 1]), bits[|bits| - 1])
  }

  /** Cuts a bit stream into bytes; a trailing partial byte is an error. */
  function Group(bits: seq<bool>): Option<seq<bv8>>
  {
    if bits == [] then Some([])
    else if |bits| < 8 then None
    else match Group(bits[8..])
      case None => None
      case Some(rest) => Some([PackBits(bits[..8])] + rest)
  }

  /** The bytes a receiver reads from a trace of whole cells. */
  function DecodeBytes(ev: seq<Event>, p: Profile): Option<seq<bv8>>
  {
    match DecodeBits(ev, p)
    case None => None
    case Some(bits) => Group(bits)
  }

  // ----------------------------------------------------------------- lemmas

  /** Appending to a trace in two steps is appending the two parts at once. */
  lemma AppendAssoc<T>(a: seq<T>, b: seq<T>, c: seq<T>)
    ensures (a + b) + c == a + (b + c)
  {
  }

  lemma {:induction false} CellsAppend(a: seq<bool>, b: seq<bool>, p: Profile)
    ensures Cells(a + b, p) == Cells(a, p) + Cells(b, p)
  {
    if a != [] {
      assert (a + b)[0] == a[0];
      assert (a + b)[1..] == a[1..] + b;
      CellsAppend(a[1..], b, p);
      AppendAssoc(Cell(a[0], p), Cells(a[1..], p), Cells(b, p));
    } else {
      assert a + b == b;
    }
  }

  /** The trace of a buffer is the trace of its bits, 8 per byte. */
  lemma {:induction false} EncodeIsCells(bytes: seq<bv8>, p: Profile)
    ensures Encode(bytes, p) == Cells(BitsOf(bytes), p)
    ensures |BitsOf(bytes)| == 8 * |bytes|
  {
    if bytes != [] {
      EncodeIsCells(bytes[1..], p);
      CellsAppend(ByteBits(bytes[0]), BitsOf(bytes[1..]), p);
    }
  }

  lemma {:induction false} EncodeAppend(a: seq<bv8>, b: seq<bv8>, p: Profile)
    ensures Encode(a + b, p) == Encode(a, p) + Encode(b, p)
  {
    if a != [] {
      assert (a + b)[0] == a[0];
      assert (a + b)[1..] == a[1..] + b;
      EncodeAppend(a[1..], b, p);
      AppendAssoc(Cells(ByteBits(a[0]), p), Encode(a[1..], p), Encode(b, p));
    } else {
      assert a + b == b;
    }
  }

  /**
   * Every cell starts with the pin driven high and ends with it driven low
   * and held for the final phase: five events for a 1 bit, six for a 0 bit.
   */
  lemma CellShape(bit: bool, p: Profile)
    ensures |Cell(bit, p)| == if bit then 5 else 6
    ensures Cell(bit, p)[0] == Drive(true)
    ensures Cell(bit, p)[|Cell(bit, p)| - 2] == Drive(false)
    ensures Cell(bit, p)[|Cell(bit, p)| - 1] == Wait(p.final)
  {
  }

  /** Sending one more bit appends its cell. */
  lemma CellsSnoc(bits: seq<bool>, bit: bool, p: Profile)
    ensures Cells(bits + [bit], p) == Cells(bits, p) + Cell(bit, p)
  {
    CellsAppend(bits, [bit], p);
    assert [bit][1..] == [];
  }

  /** Sending one more byte appends its eight cells. */
  lemma EncodeSnoc(bytes: seq<bv8>, x: bv8, p: Profile)
    ensures Encode(bytes + [x], p) == Encode(bytes, p) + Cells(ByteBits(x), p)
  {
    EncodeAppend(bytes, [x], p);
    assert [x][1..] == [];
  }

  /** The trace of the first `k + 1` bytes extends that of the first `k` by byte `k`. */
  lemma EncodePrefix(bytes: seq<bv8>, k: nat, p: Profile)
    requires k < |bytes|
    ensures Encode(bytes[..k + 1], p) == Encode(bytes[..k], p) + Cells(ByteBits(bytes[k]), p)
  {
    assert bytes[..k + 1] == bytes[..k] + [bytes[k]];
    EncodeSnoc(bytes[..k], bytes[k], p);
  }

  /** Within a cell no event starts a new cell, so the decoder takes the whole cell. */
  lemma {:induction false} CellRestSkipsBody(body: seq<Event>, rest: seq<Event>)
    requires forall k :: 0 <= k < |body| ==> body[k] != Drive(true) && !body[k].DelayUs?
    requires rest == [] || rest[0] == Drive(true)
    ensures CellRest(body + rest) == |body|
  {
    if body != [] {
      assert (body + rest)[0] == body[0];
      assert (body + rest)[1..] == body[1..] + rest;
      CellRestSkipsBody(body[1..], rest);
    } else {
      assert body + rest == rest;
    }
  }

  /** A cell is high for the base phase, plus the delta phase for a 1 bit. */
  lemma CellHighTime(bit: bool, p: Profile)
    ensures HighTime(Cell(bit, p)[1..]) == if bit then p.base + p.delta else p.base
  {
    var body := Cell(bit, p)[1..];
    if bit {
      assert body == [Wait(p.base), Wait(p.delta), Drive(false), Wait(p.final)];
      assert body[1..][1..] == [Drive(false), Wait(p.final)];
      assert HighTime(body[1..][1..]) == 0;
      assert HighTime(body[1..]) == p.delta;
    } else {
      assert body == [Wait(p.base), Drive(false), Wait(p.delta), Drive(false), Wait(p.final)];
    }
  }

  /** The decoder reads one cell as its bit and goes on at the next rising edge. */
  lemma DecodeCell(bit: bool, tail: seq<Event>, p: Profile)
    requires p.delta >= 1
    requires tail == [] || tail[0] == Drive(true)
    ensures DecodeBits(Cell(bit, p) + tail, p) ==
      match DecodeBits(tail, p)
      case None => None
      case Some(rest) => Some([bit] + rest)
  {
    var cell := Cell(bit, p);
    var ev := cell + tail;
    CellRestSkipsBody(cell[1..], tail);
    assert ev[1..] == cell[1..] + tail;
    var n := 1 + CellRest(ev[1..]);
    assert ev[n..] == tail;
    assert ev[1..n] == cell[1..];
    CellHighTime(bit, p);
  }

  /** A receiver reads back exactly the bits the cells were made from. */
  lemma {:induction false} DecodeCells(bits: seq<bool>, p: Profile)
    requires p.delta >= 1
    ensures DecodeBits(Cells(bits, p), p) == Some(bits)
  {
    if bits != [] {
      var tail := Cells(bits[1..], p);
      assert tail != [] ==> tail[0] == Drive(true);
      DecodeCell(bits[0], tail, p);
      DecodeCells(bits[1..], p);
      assert [bits[0]] + bits[1..] == bits;
    }
  }

  /** Packing one more bit shifts the packed prefix left and adds the bit. */
  lemma PackSnoc(s: seq<bool>, k: nat)
    requires 1 <= k <= |s|
    ensures PackBits(s[..k]) == ShiftIn(PackBits(s[..k - 1]), s[k - 1])
  {
    assert s[..k][..k - 1] == s[..k - 1];
  }

  /** Shifting in the eight bits of `d`, top bit first, rebuilds `d`. */
  lemma ShiftInByte(d: bv8)
    ensures ShiftIn(ShiftIn(ShiftIn(ShiftIn(ShiftIn(ShiftIn(ShiftIn(ShiftIn(0,
              Bit(d, 7)), Bit(d, 6)), Bit(d, 5)), Bit(d, 4)), Bit(d, 3)), Bit(d, 2)), Bit(d, 1)), Bit(d, 0)) == d
  {
  }

  lemma PackByteBits(d: bv8)
    ensures PackBits(ByteBits(d)) == d
  {
    var s := ByteBits(d);
    assert s[..0] == [];
    PackSnoc(s, 1); PackSnoc(s, 2); PackSnoc(s, 3); PackSnoc(s, 4);
    PackSnoc(s, 5); PackSnoc(s, 6); PackSnoc(s, 7); PackSnoc(s, 8);
    assert s[..8] == s;
    ShiftInByte(d);
  }

  lemma {:induction false} GroupBitsOf(bytes: seq<bv8>)
    ensures |BitsOf(bytes)| == 8 * |bytes|
    ensures Group(BitsOf(bytes)) == Some(bytes)
  {
    if bytes != [] {
      var s, rest := ByteBits(bytes[0]), BitsOf(bytes[1..]);
      GroupBitsOf(bytes[1..]);
      assert (s + rest)[..8] == s;
      assert (s + rest)[8..] == rest;
      PackByteBits(bytes[0]);
      assert [bytes[0]] + bytes[1..] == bytes;
    }
  }

  /** Round trip: decoding the trace of a buffer gives back the buffer, 8 bits per byte. */
  lemma DecodeEncode(bytes: seq<bv8>, p: Profile)
    requires p.delta >= 1
    ensures DecodeBits(Encode(bytes, p), p) == Some(BitsOf(bytes))
    ensures |BitsOf(bytes)| == 8 * |bytes|
    ensures DecodeBytes(Encode(bytes, p), p) == Some(bytes)
  {
    var bits := BitsOf(bytes);
    EncodeIsCells(bytes, p);
    DecodeCells(bits, p);
    GroupBitsOf(bytes);
  }

  // ------------------------------------------------------- edges and levels

  /** The number of rising edges, one per cell. */
  function Rises(ev: seq<Event>): nat
  {
    if ev == [] then 0 else (if ev[0] == Drive(true) then 1 else 0) + Rises(ev[1..])
  }

  lemma {:induction false} RisesAppend(a: seq<Event>, b: seq<Event>)
    ensures Rises(a + b) == Rises(a) + Rises(b)
  {
    if a != [] {
      assert (a + b)[0] == a[0];
      assert (a + b)[1..] == a[1..] + b;
      RisesAppend(a[1..], b);
    } else {
      assert a + b == b;
    }
  }

  lemma {:induction false} NoRises(ev: seq<Event>)
    requires forall k :: 0 <= k < |ev| ==> ev[k] != Drive(true)
    ensures Rises(ev) == 0
  {
    if ev != [] {
      NoRises(ev[1..]);
    }
  }

  lemma {:induction false} RisesOfCells(bits: seq<bool>, p: Profile)
    ensures Rises(Cells(bits, p)) == |bits|
  {
    if bits != [] {
      var c := Cell(bits[0], p);
      NoRises(c[1..]);
      assert Rises(c) == 1;
      RisesAppend(c, Cells(bits[1..], p));
      RisesOfCells(bits[1..], p);
    }
  }

  /** `sendBytes` emits exactly 8 cells per byte, none for an empty buffer. */
  lemma CellCount(bytes: seq<bv8>, p: Profile)
    ensures Rises(Encode(bytes, p)) == 8 * |bytes|
  {
    EncodeIsCells(bytes, p);
    RisesOfCells(BitsOf(bytes), p);
  }

  // -------------------------------------------------------------- durations

  /** The cycles of the `Wait` holds of a trace; `DelayUs` holds are not cycle-timed. */
  function Dur(ev: seq<Event>): nat
  {
    if ev == [] then 0 else (if ev[0].Wait? then ev[0].cycles else 0) + Dur(ev[1..])
  }

  lemma {:induction false} DurAppend(a: seq<Event>, b: seq<Event>)
    ensures Dur(a + b) == Dur(a) + Dur(b)
  {
    if a != [] {
      assert (a + b)[0] == a[0];
      assert (a + b)[1..] == a[1..] + b;
      DurAppend(a[1..], b);
    } else {
      assert a + b == b;
    }
  }

  /** A cell lasts base + delta + final cycles, the same for either bit. */
  lemma CellDur(bit: bool, p: Profile)
    ensures Dur(Cell(bit, p)) == p.base + p.delta + p.final
  {
    var head := [Drive(true), Wait(p.base)] + (if bit then [] else [Drive(false)]);
    var tail := [Wait(p.delta), Drive(false), Wait(p.final)];
    assert Dur(tail[2..]) == p.final;
    assert Dur(tail[1..]) == p.final;
    assert Dur(head[1..]) == p.base;
    DurAppend(head, tail);
  }

  lemma {:induction false} CellsDur(bits: seq<bool>, p: Profile)
    ensures Dur(Cells(bits, p)) == |bits| * (p.base + p.delta + p.final)
  {
    if bits != [] {
      var period := p.base + p.delta + p.final;
      CellDur(bits[0], p);
      DurAppend(Cell(bits[0], p), Cells(bits[1..], p));
      CellsDur(bits[1..], p);
      assert |bits| == |bits[1..]| + 1;
      MulSucc(|bits[1..]|, period);
    }
  }

  /**
   * No drift: whatever the bits, cell `k` starts exactly `k` cell periods
   * after the first.
   */
  lemma NoDrift(bits: seq<bool>, k: nat, p: Profile)
    requires k <= |bits|
    ensures Cells(bits, p) == Cells(bits[..k], p) + Cells(bits[k..], p)
    ensures Dur(Cells(bits[..k], p)) == k * (p.base + p.delta + p.final)
  {
    assert bits == bits[..k] + bits[k..];
    CellsAppend(bits[..k], bits[k..], p);
    CellsDur(bits[..k], p);
  }

  /** `sendBytes` holds the line for 8 cell periods per byte. */
  lemma EncodeDur(bytes: seq<bv8>, p: Profile)
    ensures Dur(Encode(bytes, p)) == 8 * |bytes| * (p.base + p.delta + p.final)
  {
    EncodeIsCells(bytes, p);
    CellsDur(BitsOf(bytes), p);
  }

  /** The pin level after the events, starting from `init`. */
  function Level(ev: seq<Event>, init: bool): bool
  {
    if ev == [] then init
    else match ev[|ev| - 1]
      case Drive(high) => high
      case _ => Level(ev[..|ev| - 1], init)
  }

  lemma {:induction false} LevelAppend(a: seq<Event>, b: seq<Event>, init: bool)
    ensures Level(a + b, init) == Level(b, Level(a, init))
  {
    if b != [] {
      assert (a + b)[|a + b| - 1] == b[|b| - 1];
      assert (a + b)[..|a + b| - 1] == a + b[..|b| - 1];
      LevelAppend(a, b[..|b| - 1], init);
    } else {
      assert a + b == a;
    }
  }

  /** Every cell ends with the pin low, so a non-empty trace leaves the line low. */
  lemma {:induction false} CellsEndLow(bits: seq<bool>, p: Profile, init: bool)
    ensures Level(Cells(bits, p), init) == (if bits == [] then init else false)
  {
    if bits != [] {
      var c := Cell(bits[0], p);
      assert c[..|c| - 1][..|c| - 2] == c[..|c| - 2];
      assert Level(c, init) == false;
      LevelAppend(c, Cells(bits[1..], p), init);
      CellsEndLow(bits[1..], p, false);
    }
  }

  // ------------------------------------------------------------------ frame

  const PIXEL_NUM: nat := 12
  const RESET_US: nat := 50

  /** `k` copies of `s`, one after the other. */
  function Repeat<T>(s: seq<T>, k: nat): seq<T>
  {
    if k == 0 then [] else Repeat(s, k - 1) + s
  }

  /** Sending the block once more appends its cells. */
  lemma EncodeRepeat(s: seq<bv8>, k: nat, p: Profile)
    ensures Encode(Repeat(s, k + 1), p) == Encode(Repeat(s, k), p) + Encode(s, p)
  {
    EncodeAppend(Repeat(s, k), s, p);
  }

  /** The bytes of one frame: every pixel sent as green, red, blue. */
  function FrameBytes(r: bv8, g: bv8, b: bv8): seq<bv8>
  {
    Repeat([g, r, b], PIXEL_NUM)
  }

  /** The trace of `showColor(r, g, b)`: the pixels' cells, then one reset hold. */
  function Frame(r: bv8, g: bv8, b: bv8, p: Profile): seq<Event>
  {
    Encode(FrameBytes(r, g, b), p) + [DelayUs(RESET_US)]
  }

  /** A receiver that latches on a final hold of at least the reset time. */
  function DecodeFrame(ev: seq<Event>, p: Profile): Option<seq<bv8>>
  {
    if ev != [] && ev[|ev| - 1].DelayUs? && ev[|ev| - 1].us >= RESET_US
    then DecodeBytes(ev[..|ev| - 1], p)
    else None
  }

  /**
   * With the constants in range, the longest low stretch of a cell, delta
   * plus final for a 0 bit, lasts in real time less than the reset time, so
   * no cell reads as a reset.
   */
  lemma LowBelowReset(fCpu: int)
    requires ValidClock(fCpu) && InRange(fCpu)
    ensures var p := ProfileOf(fCpu);
      (p.delta + p.final) * NS_PER_SECOND < RESET_US * 1000 * fCpu
  {
    PhasesMatchDesign(fCpu);
    var p := ProfileOf(fCpu);
    PhasesRealTime(NS_PER_SECOND, fCpu, NsPerCycle(fCpu), p.delta, p.final, DELTA_NS, FINAL_NS, RESET_US * 1000);
  }

  /**
   * At 1 MHz every constant wraps and every phase lasts 32 cycles: a 0 bit
   * is low for 64 us, past the reset time, yet the reference receiver,
   * which knows the profile and takes no `Wait` for a reset, reads it back.
   */
  lemma LowPastResetAt1MHz()
    ensures ProfileOf(1_000_000) == Profile(32, 32, 32)
    ensures var p := ProfileOf(1_000_000);
      (p.delta + p.final) * NS_PER_SECOND > RESET_US * 1000 * 1_000_000
      && DecodeBytes(Encode([0x00], p), p) == Some([0x00])
  {
    BlockDelayMasked(-2);
    BlockDelayMasked(-4);
    BlockDelayMasked(-8);
    assert ProfileOf(1_000_000) == Profile(32, 32, 32);
    DecodeEncode([0x00], Profile(32, 32, 32));
  }

  lemma {:induction false} RepeatAt(s: seq<bv8>, k: nat, j: nat)
    requires |s| == 3 && j < 3 * k
    ensures |Repeat(s, k)| == 3 * k
    ensures Repeat(s, k)[j] == s[j % 3]
  {
    if j < 3 * (k - 1) {
      RepeatAt(s, k - 1, j);
    } else if k > 1 {
      RepeatAt(s, k - 1, 0);
    }
  }

  /**
   * `showColor(r, g, b)` sends [g, r, b] for each of the 12 pixels, that is
   * 36 bytes in 288 cells, then latches; a receiver reads those bytes back.
   */
  lemma FrameRoundTrip(r: bv8, g: bv8, b: bv8, p: Profile)
    requires p.delta >= 1
    ensures |FrameBytes(r, g, b)| == 36
    ensures forall j :: 0 <= j < 36 ==> FrameBytes(r, g, b)[j] == [g, r, b][j % 3]
    ensures Rises(Frame(r, g, b, p)) == 288
    ensures DecodeFrame(Frame(r, g, b, p), p) == Some(FrameBytes(r, g, b))
  {
    var bytes := FrameBytes(r, g, b);
    RepeatAt([g, r, b], PIXEL_NUM, 0);
    forall j | 0 <= j < 36 ensures bytes[j] == [g, r, b][j % 3] {
      RepeatAt([g, r, b], PIXEL_NUM, j);
    }
    var ev := Frame(r, g, b, p);
    assert ev[..|ev| - 1] == Encode(bytes, p);
    DecodeEncode(bytes, p);
    CellCount(bytes, p);
    RisesAppend(Encode(bytes, p), [DelayUs(RESET_US)]);
  }
}
