/** The part of a trace that the checker reads: frames, their operands and the operand
    sizes that every loop of the checker relies on. */
module Trace {
  import opened BitVectors

  /** A protobuf bytes field holds less than 2 GiB. */
  type Bytes = s: seq<Byte> | |s| < 0x8000_0000

  /** An operand names a register, a memory address, both or neither: the two fields of
      operand_info_specific are optional independently of each other. */
  datatype Operand = Operand(reg: Option<string>, mem: Option<U64>, bitLength: int, value: Bytes)

  /** The execution modes that an adapter tells apart, and every other mode by its name. */
  datatype Mode = ArmT32 | Ppc64 | OtherMode(name: string)

  datatype StdFrame = StdFrame(address: U64, code: Bytes, pre: seq<Operand>, post: seq<Operand>, mode: Option<Mode>)

  datatype Frame = Std(sf: StdFrame) | NonStd

  /** Bit i is one of the operand: a bit of its value, and below its bit length if it has one. */
  predicate HasBit(o: Operand, i: int) {
    0 <= i < 8 * |o.value| && (o.bitLength <= 0 || i < o.bitLength)
  }

  /** Bit i of the operand, zero behind its end. The bits of a value count from the lowest one of
      the first byte on. */
  predicate OperandBit(o: Operand, i: int) {
    HasBit(o, i) && o.value[i / 8].Bits()[i % 8]
  }

  /** Byte k is one of the operand: all of its bits are. */
  predicate HasByte(o: Operand, k: int) {
    0 <= k && HasBit(o, 8 * k + 7)
  }

  function OperandSizeBits(o: Operand): (r: nat)
    ensures r <= 8 * |o.value|
    ensures forall i {:trigger HasBit(o, i)} :: HasBit(o, i) <==> 0 <= i < r
  {
    var r := |o.value| * 8;
    if o.bitLength > 0 && o.bitLength < r then o.bitLength else r
  }

  function MemOperandSizeBytes(o: Operand): (r: nat)
    ensures r <= |o.value|
    ensures 8 * r <= OperandSizeBits(o) < 8 * r + 8
    ensures forall k {:trigger HasByte(o, k)} :: HasByte(o, k) <==> 0 <= k < r
  {
    OperandSizeBits(o) / 8
  }

  /** The operand's value as the checker reads it for a register. */
  function RegOperandValue(o: Operand): (v: Bits)
    ensures |v| == OperandSizeBits(o)
  {
    FromBytesLE(o.value, OperandSizeBits(o))
  }

  lemma RegOperandBits(o: Operand)
    ensures forall i :: 0 <= i < |RegOperandValue(o)| ==> RegOperandValue(o)[i] == OperandBit(o, i)
    ensures forall i :: OperandBit(o, i) ==> 0 <= i < |RegOperandValue(o)|
  {
    forall i | 0 <= i < |RegOperandValue(o)| ensures RegOperandValue(o)[i] == OperandBit(o, i) {
      assert HasBit(o, i);
    }
  }

  /** The operand's value as the checker reads it for memory: its bytes, in their order. */
  function MemOperandValue(o: Operand): (v: seq<Byte>)
    ensures |v| == MemOperandSizeBytes(o)
    ensures forall k :: 0 <= k < |v| ==> v[k] == o.value[k]
  {
    o.value[..MemOperandSizeBytes(o)]
  }

  /** An operand that names neither a register nor memory ends the check of its frame. */
  predicate IsKnown(o: Operand) {
    o.reg.Some? || o.mem.Some?
  }

  /** How many operands come before the first one that is not known. */
  function KnownPrefix(ops: seq<Operand>): (n: nat)
    ensures n <= |ops|
    ensures forall k :: 0 <= k < n ==> IsKnown(ops[k])
    ensures n < |ops| ==> !IsKnown(ops[n])
  {
    if ops == [] || !IsKnown(ops[0]) then 0 else 1 + KnownPrefix(ops[1..])
  }
}
