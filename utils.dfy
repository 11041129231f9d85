/**
 * The single-bit port helpers `low(port, index)` and `high(port, index)`.
 *
 * On the AVR target `int` is 16 bits wide, so `1 << index` is a 16-bit
 * signed value: it is defined for `index < 15` (at 15 it overflows), and
 * the 8-bit port register keeps only the low 8 bits of the result of the
 * compound assignment. An index from 8 to 14 therefore leaves the port as
 * it was.
 */
module Utils {

  import opened Options

  /** `1 << j` for a bit position of an 8-bit register. */
  function BitMask(j: nat): bv8
    requires j < 8
  {
    match j
    case 0 => 0x01 case 1 => 0x02 case 2 => 0x04 case 3 => 0x08
    case 4 => 0x10 case 5 => 0x20 case 6 => 0x40 case _ => 0x80
  }

  /** Bit `j` of an 8-bit register. */
  predicate Bit(p: bv8, j: nat)
    requires j < 8
  {
    p & BitMask(j) != 0
  }

  /**
   * `high(port, index)`, that is `port |= (1 << index)`. The 16-bit mask
   * has no bit in the low byte when `index >= 8`, so the register keeps
   * its value then.
   */
  function SetBit(p: bv8, index: nat): (r: bv8)
    requires index < 15
    ensures forall j :: 0 <= j < 8 ==> (Bit(r, j) <==> j == index || Bit(p, j))
  {
    if index < 8 then p | BitMask(index) else p
  }

  /**
   * `low(port, index)`, that is `port &= ~(1 << index)`. The complemented
   * 16-bit mask has every bit of the low byte set when `index >= 8`.
   */
  function ClearBit(p: bv8, index: nat): (r: bv8)
    requires index < 15
    ensures forall j :: 0 <= j < 8 ==> (Bit(r, j) <==> j != index && Bit(p, j))
  {
    if index < 8 then p & !BitMask(index) else p
  }

  /** Two registers with the same eight bits are equal. */
  lemma BitsDetermine(p: bv8, q: bv8)
    requires forall j :: 0 <= j < 8 ==> (Bit(p, j) <==> Bit(q, j))
    ensures p == q
  {
    assert Bit(p, 0) == Bit(q, 0) && Bit(p, 1) == Bit(q, 1);
    assert Bit(p, 2) == Bit(q, 2) && Bit(p, 3) == Bit(q, 3);
    assert Bit(p, 4) == Bit(q, 4) && Bit(p, 5) == Bit(q, 5);
    assert Bit(p, 6) == Bit(q, 6) && Bit(p, 7) == Bit(q, 7);
  }

  /** Clearing a bit undoes setting it: the other bits are what they were. */
  lemma ClearAfterSet(p: bv8, index: nat)
    requires index < 15
    ensures ClearBit(SetBit(p, index), index) == ClearBit(p, index)
    ensures ClearBit(ClearBit(p, index), index) == ClearBit(p, index)
  {
    var x, y, z := ClearBit(SetBit(p, index), index), ClearBit(p, index), ClearBit(ClearBit(p, index), index);
    forall j | 0 <= j < 8 ensures (Bit(x, j) <==> Bit(y, j)) && (Bit(z, j) <==> Bit(y, j)) { }
    BitsDetermine(x, y);
    BitsDetermine(z, y);
  }

  /** One use of either macro. */
  datatype PortOp = High(index: nat) | Low(index: nat)

  predicate WellFormed(ops: seq<PortOp>)
  {
    forall k :: 0 <= k < |ops| ==> ops[k].index < 15
  }

  function Apply(p: bv8, op: PortOp): bv8
    requires op.index < 15
  {
    match op
    case High(i) => SetBit(p, i)
    case Low(i) => ClearBit(p, i)
  }

  /** The register after the macro uses `ops`, in order, starting from `p`. */
  function Run(p: bv8, ops: seq<PortOp>): bv8
    requires WellFormed(ops)
  {
    if ops == [] then p else Apply(Run(p, ops[..|ops| - 1]), ops[|ops| - 1])
  }

  /** The level written by the last use in `ops` that names bit `i`, if any. */
  function LastWrite(ops: seq<PortOp>, i: nat): Option<bool>
  {
    if ops == [] then None
    else if ops[|ops| - 1].index == i then Some(ops[|ops| - 1].High?)
    else LastWrite(ops[..|ops| - 1], i)
  }

  /** What one use does to bit `j`. */
  lemma ApplyBit(p: bv8, op: PortOp, j: nat)
    requires op.index < 15 && j < 8
    ensures Bit(Apply(p, op), j) <==> if j == op.index then op.High? else Bit(p, j)
  {
  }

  /** Each macro is idempotent. */
  lemma ApplyIdempotent(p: bv8, op: PortOp)
    requires op.index < 15
    ensures Apply(Apply(p, op), op) == Apply(p, op)
  {
    var q := Apply(p, op);
    forall j | 0 <= j < 8 ensures Bit(Apply(q, op), j) <==> Bit(q, j) { }
    BitsDetermine(Apply(q, op), q);
  }

  /** Uses of the macros on different bits commute. */
  lemma ApplyCommutes(p: bv8, a: PortOp, b: PortOp)
    requires a.index < 15 && b.index < 15 && a.index != b.index
    ensures Apply(Apply(p, a), b) == Apply(Apply(p, b), a)
  {
    var q, r := Apply(p, a), Apply(p, b);
    var x, y := Apply(q, b), Apply(r, a);
    forall j | 0 <= j < 8 ensures Bit(x, j) <==> Bit(y, j) {
      ApplyBit(p, a, j);
      ApplyBit(p, b, j);
      ApplyBit(q, b, j);
      ApplyBit(r, a, j);
    }
    BitsDetermine(x, y);
  }

  /** After any sequence of uses, bit `i` is what the last use on `i` wrote, or its first value. */
  lemma {:induction false} LastWriteWins(p: bv8, ops: seq<PortOp>, i: nat)
    requires WellFormed(ops) && i < 8
    ensures Bit(Run(p, ops), i) == match LastWrite(ops, i) case Some(v) => v case None => Bit(p, i)
  {
    if ops != [] {
      var init := ops[..|ops| - 1];
      assert WellFormed(init);
      LastWriteWins(p, init, i);
    }
  }

  /** The port register as the macros change it in place. */
  class Port {
    var value: bv8

    constructor (initial: bv8)
      ensures value == initial
    {
      value := initial;
    }

    /** `high(value, index)` */
    method High(index: nat)
      requires index < 15
      modifies this
      ensures value == SetBit(old(value), index)
      ensures index < 8 ==> Bit(value, index)
      ensures forall j :: 0 <= j < 8 && j != index ==> (Bit(value, j) <==> Bit(old(value), j))
    {
      value := SetBit(value, index);
    }

    /** `low(value, index)` */
    method Low(index: nat)
      requires index < 15
      modifies this
      ensures value == ClearBit(old(value), index)
      ensures index < 8 ==> !Bit(value, index)
      ensures forall j :: 0 <= j < 8 && j != index ==> (Bit(value, j) <==> Bit(old(value), j))
    {
      value := ClearBit(value, index);
    }
  }
}
