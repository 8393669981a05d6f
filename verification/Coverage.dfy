/** MemAccessJustifiedByOperands: is a memory access of the VM explained by the memory operands
    of a frame? All sums and differences are those of 64-bit unsigned integers. */
module Coverage {
  import opened BitVectors
  import opened Trace

  /** The number of bytes of an access of val bits, rounded up. The sum is one of 32-bit integers. */
  function AccessSize(val: U32): (size: nat)
    ensures size < 0x2000_0000
    ensures val <= 0xffff_fff8 ==> 8 * size - 8 < val <= 8 * size
    ensures val > 0xffff_fff8 ==> size == 0
  {
    (val + 7) % TWO_TO_THE_32 / 8
  }

  function Add64(x: U64, y: U64): U64 {
    (x + y) % TWO_TO_THE_64
  }

  function Sub64(x: U64, y: U64): U64 {
    (x - y) % TWO_TO_THE_64
  }

  /** The end of a memory operand as the code computes it. */
  function End(o: Operand): U64
    requires o.mem.Some?
  {
    Add64(o.mem.value, MemOperandSizeBytes(o))
  }

  /** Byte b lies in memory operand o. An operand that reaches the top of the address
      space or wraps around has no bytes in this sense, see WrappingOperandIsDropped. */
  predicate Holds(o: Operand, b: int) {
    && o.mem.Some?
    && o.mem.value + MemOperandSizeBytes(o) < TWO_TO_THE_64
    && o.mem.value <= b < o.mem.value + MemOperandSizeBytes(o)
  }

  predicate SomeHolds(ops: seq<Operand>, b: int) {
    exists i :: 0 <= i < |ops| && Holds(ops[i], b)
  }

  ghost predicate AllHeld(ops: seq<Operand>, from: int, to: int) {
    forall b :: from <= b < to ==> SomeHolds(ops, b)
  }

  /** The code's test for full containment, for an access at addr that ends at end. */
  predicate Contains(o: Operand, addr: U64, end: U64) {
    o.mem.Some? && o.mem.value <= addr && end <= End(o)
  }

  predicate SomeContains(ops: seq<Operand>, addr: U64, end: U64) {
    exists i :: 0 <= i < |ops| && Contains(ops[i], addr, end)
  }

  /** An access that is not empty and stays below the top of the address space. */
  predicate Plain(addr: U64, size: U64) {
    0 < size && addr + size < TWO_TO_THE_64
  }

  /** What the algorithm decides, on every input: coverage by the operands for a plain access,
      and the containment test alone for one that is empty or wraps around. */
  ghost predicate AccessJustified(ops: seq<Operand>, addr: U64, size: U64) {
    if Plain(addr, size) then AllHeld(ops, addr, addr + size)
    else SomeContains(ops, addr, Add64(addr, size))
  }

  /** The code's test for an access that begins inside o. */
  predicate BeginsInside(o: Operand, addr: U64) {
    o.mem.Some? && o.mem.value <= addr < End(o)
  }

  /** The code's test for an access that ends inside o, or just before it. */
  predicate EndsInside(o: Operand, end: U64) {
    o.mem.Some? && o.mem.value <= end < End(o)
  }

  // ----- One improvement keeps the answer

  lemma ContainedIsJustified(ops: seq<Operand>, k: nat, addr: U64, size: U64)
    requires k < |ops| && Contains(ops[k], addr, Add64(addr, size))
    ensures AccessJustified(ops, addr, size)
  {
    if Plain(addr, size) {
      forall b | addr <= b < addr + size ensures SomeHolds(ops, b) {
        assert Holds(ops[k], b);
      }
    }
  }

  /** Only a plain access can be improved: its first or last part is cut at the operand's end. */
  lemma OnlyPlainImproves(o: Operand, addr: U64, size: U64)
    requires !Contains(o, addr, Add64(addr, size))
    requires BeginsInside(o, addr) || EndsInside(o, Add64(addr, size))
    ensures Plain(addr, size)
    ensures forall b :: o.mem.value <= b < End(o) ==> Holds(o, b)
  {
  }

  lemma HeadKeepsAnswer(ops: seq<Operand>, k: nat, addr: U64, size: U64)
    requires k < |ops| && !Contains(ops[k], addr, Add64(addr, size)) && BeginsInside(ops[k], addr)
    ensures var size' := Sub64(Add64(addr, size), End(ops[k]));
            && AccessJustified(ops, End(ops[k]), size') == AccessJustified(ops, addr, size)
            && Plain(End(ops[k]), size') && size' < size
            && Add64(End(ops[k]), size') == Add64(addr, size)
  {
    OnlyPlainImproves(ops[k], addr, size);
    var end := End(ops[k]);
    assert addr < end < addr + size;
    assert AllHeld(ops, addr, end) by {
      forall b | addr <= b < end ensures SomeHolds(ops, b) { assert Holds(ops[k], b); }
    }
  }

  lemma TailKeepsAnswer(ops: seq<Operand>, k: nat, addr: U64, size: U64)
    requires k < |ops| && !Contains(ops[k], addr, Add64(addr, size)) && EndsInside(ops[k], Add64(addr, size))
    ensures var size' := Sub64(End(ops[k]), addr);
            && AccessJustified(ops, addr, size') == AccessJustified(ops, addr, size)
            && Plain(addr, size')
            && Add64(addr, size') == End(ops[k])
  {
    OnlyPlainImproves(ops[k], addr, size);
    var end := End(ops[k]);
    assert addr < addr + size < end;
    assert AllHeld(ops, addr + size, end) by {
      forall b | addr + size <= b < end ensures SomeHolds(ops, b) { assert Holds(ops[k], b); }
    }
  }

  /** A pass over all operands that neither finds the access contained nor improves it refutes it. */
  lemma StuckIsUnjustified(ops: seq<Operand>, addr: U64, size: U64)
    requires !SomeContains(ops, addr, Add64(addr, size))
    requires forall k :: 0 <= k < |ops| ==> !BeginsInside(ops[k], addr)
    ensures !AccessJustified(ops, addr, size)
  {
    if Plain(addr, size) {
      assert !SomeHolds(ops, addr);
    }
  }

  // ----- Each improvement uses up one operand end

  /** How many memory operands of ops there are. */
  function MemCount(ops: seq<Operand>): (n: nat)
    ensures n <= |ops|
  {
    if ops == [] then 0 else (if ops[0].mem.Some? then 1 else 0) + MemCount(ops[1..])
  }

  /** How many memory operands of ops end above x. */
  function EndsAbove(ops: seq<Operand>, x: int): (n: nat)
    ensures n <= MemCount(ops)
  {
    if ops == [] then 0
    else (if ops[0].mem.Some? && End(ops[0]) > x then 1 else 0) + EndsAbove(ops[1..], x)
  }

  lemma {:induction false} EndsAboveAntitone(ops: seq<Operand>, x: int, y: int)
    requires x <= y
    ensures EndsAbove(ops, y) <= EndsAbove(ops, x)
  {
    if ops != [] {
      EndsAboveAntitone(ops[1..], x, y);
    }
  }

  /** Moving up to the end of one operand leaves fewer operand ends above. */
  lemma {:induction false} EndsAboveDrops(ops: seq<Operand>, k: nat, x: int)
    requires k < |ops| && ops[k].mem.Some? && x < End(ops[k])
    ensures EndsAbove(ops, End(ops[k])) < EndsAbove(ops, x)
  {
    if k == 0 {
      EndsAboveAntitone(ops[1..], x, End(ops[k]));
    } else {
      EndsAboveDrops(ops[1..], k - 1, x);
    }
  }

  /** How many improvements are still possible. */
  function Potential(ops: seq<Operand>, addr: U64, size: U64): (p: nat)
    ensures p <= 2 * MemCount(ops)
  {
    EndsAbove(ops, addr) + EndsAbove(ops, Add64(addr, size))
  }

  method MemAccessJustifiedByOperands(address: U64, val: U32, operands: seq<Operand>)
    returns (justified: bool, ghost passes: nat, ghost improvements: nat)
    ensures justified <==> AccessJustified(operands, address, AccessSize(val))
    ensures improvements <= 2 * MemCount(operands)
    ensures 1 <= passes <= 2 * MemCount(operands) + 1
  {
    var addr: U64, size: U64 := address, AccessSize(val);
    var improved := true;
    passes, improvements := 0, 0;
    while improved
      invariant AccessJustified(operands, addr, size) == AccessJustified(operands, address, AccessSize(val))
      invariant improvements + Potential(operands, addr, size) <= 2 * MemCount(operands)
      invariant passes <= improvements + (if improved then 0 else 1)
      invariant passes == 0 ==> improved
      invariant !improved ==> !AccessJustified(operands, addr, size)
      decreases improved, Potential(operands, addr, size)
    {
      improved := false;
      passes := passes + 1;
      ghost var potential := Potential(operands, addr, size);
      ghost var before := improvements;
      for k := 0 to |operands|
        invariant AccessJustified(operands, addr, size) == AccessJustified(operands, address, AccessSize(val))
        invariant improvements + Potential(operands, addr, size) <= 2 * MemCount(operands)
        invariant improved ==> Potential(operands, addr, size) < potential && before < improvements
        invariant !improved ==> Potential(operands, addr, size) == potential && before == improvements
        invariant !improved ==> forall j :: 0 <= j < k ==>
                    !Contains(operands[j], addr, Add64(addr, size)) && !BeginsInside(operands[j], addr)
      {
        var o := operands[k];
        if o.mem.None? { continue; }
        var oaddr: U64, osize: U64 := o.mem.value, MemOperandSizeBytes(o);
        if addr >= oaddr && Add64(addr, size) <= Add64(oaddr, osize) {
          ContainedIsJustified(operands, k, addr, size);
          return true, passes, improvements;
        }
        if addr >= oaddr && addr < Add64(oaddr, osize) {
          HeadKeepsAnswer(operands, k, addr, size);
          EndsAboveDrops(operands, k, addr);
          size := Sub64(Add64(addr, size), Add64(oaddr, osize));
          addr := Add64(oaddr, osize);
          improved := true;
          improvements := improvements + 1;
        } else if Add64(addr, size) >= oaddr && Add64(addr, size) < Add64(oaddr, osize) {
          TailKeepsAnswer(operands, k, addr, size);
          EndsAboveDrops(operands, k, Add64(addr, size));
          size := Sub64(Add64(oaddr, osize), addr);
          improved := true;
          improvements := improvements + 1;
        }
      }
      if !improved {
        StuckIsUnjustified(operands, addr, size);
      }
    }
    return false, passes, improvements;
  }

  /** The rule that the comment on the tail case describes: the justified tail is cut off, so the
      access ends where the operand begins. The answer is the same as the one of the code. */
  method MemAccessJustifiedByChopping(address: U64, val: U32, operands: seq<Operand>) returns (justified: bool)
    ensures justified <==> AccessJustified(operands, address, AccessSize(val))
  {
    var addr: U64, size: U64 := address, AccessSize(val);
    var improved := true;
    while improved
      invariant AccessJustified(operands, addr, size) == AccessJustified(operands, address, AccessSize(val))
      invariant !improved ==> !AccessJustified(operands, addr, size)
      decreases improved, size
    {
      improved := false;
      ghost var size0 := size;
      for k := 0 to |operands|
        invariant AccessJustified(operands, addr, size) == AccessJustified(operands, address, AccessSize(val))
        invariant if improved then size < size0 else size == size0
        invariant !improved ==> forall j :: 0 <= j < k ==>
                    !Contains(operands[j], addr, Add64(addr, size)) && !BeginsInside(operands[j], addr)
      {
        var o := operands[k];
        if o.mem.None? { continue; }
        var oaddr := o.mem.value;
        if addr >= oaddr && Add64(addr, size) <= End(o) {
          ContainedIsJustified(operands, k, addr, size);
          return true;
        }
        if addr >= oaddr && addr < End(o) {
          HeadKeepsAnswer(operands, k, addr, size);
          size := Sub64(Add64(addr, size), End(o));
          addr := End(o);
          improved := true;
        } else if Add64(addr, size) > oaddr && Add64(addr, size) <= End(o) {
          ChoppedTailKeepsAnswer(operands, k, addr, size);
          size := Sub64(oaddr, addr);
          improved := true;
        }
      }
      if !improved {
        StuckIsUnjustified(operands, addr, size);
      }
    }
    return false;
  }

  lemma ChoppedTailKeepsAnswer(ops: seq<Operand>, k: nat, addr: U64, size: U64)
    requires k < |ops| && ops[k].mem.Some? && !Contains(ops[k], addr, Add64(addr, size))
    requires ops[k].mem.value < Add64(addr, size) <= End(ops[k])
    ensures var size' := Sub64(ops[k].mem.value, addr);
            && AccessJustified(ops, addr, size') == AccessJustified(ops, addr, size)
            && Plain(addr, size') && size' < size
  {
    var start := ops[k].mem.value;
    assert addr < start;
    assert addr + size < TWO_TO_THE_64;
    assert Sub64(start, addr) == start - addr;
    assert AllHeld(ops, start, addr + size) by {
      forall b | start <= b < addr + size ensures SomeHolds(ops, b) { assert Holds(ops[k], b); }
    }
  }

  // ----- What the answer means

  /** Byte b, counted modulo 2^64, is one of the bytes of o. */
  predicate Touches(o: Operand, b: int) {
    o.mem.Some? && (b - o.mem.value) % TWO_TO_THE_64 < MemOperandSizeBytes(o)
  }

  predicate SomeTouches(ops: seq<Operand>, b: int) {
    exists k :: 0 <= k < |ops| && Touches(ops[k], b)
  }

  /** What the answer is meant to say: each byte of the access is a byte of some operand. */
  ghost predicate Covered(ops: seq<Operand>, addr: U64, size: U64) {
    forall b :: addr <= b < addr + size ==> SomeTouches(ops, b)
  }

  /** The operand's end does not reach the top of the address space. */
  predicate BelowTop(o: Operand) {
    o.mem.Some? ==> o.mem.value + MemOperandSizeBytes(o) < TWO_TO_THE_64
  }

  predicate AllBelowTop(ops: seq<Operand>) {
    forall k :: 0 <= k < |ops| ==> BelowTop(ops[k])
  }

  lemma TouchesIsHolds(o: Operand, b: int)
    requires 0 <= b < TWO_TO_THE_64
    ensures BelowTop(o) ==> (Touches(o, b) <==> Holds(o, b))
    ensures Holds(o, b) ==> Touches(o, b)
  {
    if o.mem.Some? && b < o.mem.value {
      assert (b - o.mem.value) % TWO_TO_THE_64 == b - o.mem.value + TWO_TO_THE_64;
    }
  }

  lemma SomeTouchesIsSomeHolds(ops: seq<Operand>, b: int)
    requires 0 <= b < TWO_TO_THE_64
    ensures SomeHolds(ops, b) ==> SomeTouches(ops, b)
    ensures AllBelowTop(ops) && SomeTouches(ops, b) ==> SomeHolds(ops, b)
  {
    forall k | 0 <= k < |ops|
      ensures Holds(ops[k], b) ==> Touches(ops[k], b)
      ensures BelowTop(ops[k]) && Touches(ops[k], b) ==> Holds(ops[k], b)
    {
      TouchesIsHolds(ops[k], b);
    }
  }

  /** A plain access is only ever justified when all its bytes are covered, whatever the operands. */
  lemma JustifiedIsCovered(ops: seq<Operand>, addr: U64, size: U64)
    requires Plain(addr, size) && AccessJustified(ops, addr, size)
    ensures Covered(ops, addr, size)
  {
    forall b | addr <= b < addr + size ensures SomeTouches(ops, b) {
      assert SomeHolds(ops, b);
      SomeTouchesIsSomeHolds(ops, b);
    }
  }

  lemma CoveredIsJustified(ops: seq<Operand>, addr: U64, size: U64)
    requires Plain(addr, size) && AllBelowTop(ops) && Covered(ops, addr, size)
    ensures AccessJustified(ops, addr, size)
  {
    forall b | addr <= b < addr + size ensures SomeHolds(ops, b) {
      assert SomeTouches(ops, b);
      SomeTouchesIsSomeHolds(ops, b);
    }
  }

  function MemOperand(address: U64, size: nat): (o: Operand)
    requires size < 0x8000_0000
    ensures o.reg.None? && o.mem == Some(address) && MemOperandSizeBytes(o) == size
  {
    Operand(None, Some(address), 0, seq(size, i => ZERO_BYTE))
  }

  /** For operands below the top of the address space, the answer is coverage exactly for the
      accesses that have at least one byte and do not reach the top themselves. */
  lemma ExactIffPlain(addr: U64, val: U32)
    ensures Plain(addr, AccessSize(val)) <==>
            forall ops :: AllBelowTop(ops) ==>
              (AccessJustified(ops, addr, AccessSize(val)) <==> Covered(ops, addr, AccessSize(val)))
  {
    var size := AccessSize(val);
    if Plain(addr, size) {
      forall ops | AllBelowTop(ops)
        ensures AccessJustified(ops, addr, size) <==> Covered(ops, addr, size)
      {
        if AccessJustified(ops, addr, size) { JustifiedIsCovered(ops, addr, size); }
        if Covered(ops, addr, size) { CoveredIsJustified(ops, addr, size); }
      }
    } else if size == 0 {
      assert !AccessJustified([], addr, size) && Covered([], addr, size);
    } else {
      var ops := [MemOperand(0, Add64(addr, size))];
      assert Contains(ops[0], addr, Add64(addr, size));
      assert AccessJustified(ops, addr, size);
      assert !SomeTouches(ops, addr) by { TouchesIsHolds(ops[0], addr); }
      assert AllBelowTop(ops) && !Covered(ops, addr, size);
    }
  }

  /** For plain accesses, the answer is coverage exactly for the operand lists in which each byte
      of an operand that reaches the top is also a byte of one that does not. */
  lemma ExactIffTopIsRedundant(ops: seq<Operand>)
    ensures (forall addr: U64, val: U32 :: Plain(addr, AccessSize(val)) ==>
              (AccessJustified(ops, addr, AccessSize(val)) <==> Covered(ops, addr, AccessSize(val))))
       <==> (forall b :: 0 <= b < TWO_TO_THE_64 - 1 && SomeTouches(ops, b) ==> SomeHolds(ops, b))
  {
    if forall b :: 0 <= b < TWO_TO_THE_64 - 1 && SomeTouches(ops, b) ==> SomeHolds(ops, b) {
      forall addr: U64, val: U32 | Plain(addr, AccessSize(val))
        ensures AccessJustified(ops, addr, AccessSize(val)) <==> Covered(ops, addr, AccessSize(val))
      {
        if AccessJustified(ops, addr, AccessSize(val)) { JustifiedIsCovered(ops, addr, AccessSize(val)); }
      }
    }
    if forall addr: U64, val: U32 :: Plain(addr, AccessSize(val)) ==>
         (AccessJustified(ops, addr, AccessSize(val)) <==> Covered(ops, addr, AccessSize(val))) {
      forall b | 0 <= b < TWO_TO_THE_64 - 1 && SomeTouches(ops, b) ensures SomeHolds(ops, b) {
        assert Plain(b, AccessSize(8)) && Covered(ops, b, AccessSize(8));
      }
    }
  }

  /** An operand that wraps around takes part in no decision on a plain access. */
  lemma WrappingOperandIsDropped(ops: seq<Operand>, k: nat, addr: U64, size: U64)
    requires Plain(addr, size) && k < |ops| && !BelowTop(ops[k])
    ensures AccessJustified(ops[..k] + ops[k + 1..], addr, size) <==> AccessJustified(ops, addr, size)
  {
    var rest := ops[..k] + ops[k + 1..];
    forall b ensures SomeHolds(rest, b) <==> SomeHolds(ops, b) {
      if SomeHolds(ops, b) {
        var j :| 0 <= j < |ops| && Holds(ops[j], b);
        assert rest[if j < k then j else j - 1] == ops[j];
      }
    }
  }

  /** An access that wraps around can have all its bytes in operands and still be refused. */
  lemma WrappingAccessRefused()
    ensures var ops := [MemOperand(TWO_TO_THE_64 - 4, 5), MemOperand(TWO_TO_THE_64 - 1, 5)];
            Covered(ops, TWO_TO_THE_64 - 4, 8) && !AccessJustified(ops, TWO_TO_THE_64 - 4, 8)
  {
    var ops := [MemOperand(TWO_TO_THE_64 - 4, 5), MemOperand(TWO_TO_THE_64 - 1, 5)];
    forall b | TWO_TO_THE_64 - 4 <= b < TWO_TO_THE_64 + 4 ensures SomeTouches(ops, b) {
      assert Touches(ops[if b < TWO_TO_THE_64 then 0 else 1], b);
    }
  }

  /** The answer depends only on which operands are listed, not on their order or number. */
  lemma OrderAndRepetitionIrrelevant(xs: seq<Operand>, ys: seq<Operand>, addr: U64, size: U64)
    requires forall o :: o in xs <==> o in ys
    ensures AccessJustified(xs, addr, size) <==> AccessJustified(ys, addr, size)
  {
    MoreOperandsJustifyMore(xs, ys, addr, size);
    MoreOperandsJustifyMore(ys, xs, addr, size);
  }

  lemma MoreOperandsJustifyMore(xs: seq<Operand>, ys: seq<Operand>, addr: U64, size: U64)
    requires forall o :: o in xs ==> o in ys
    ensures AccessJustified(xs, addr, size) ==> AccessJustified(ys, addr, size)
  {
    forall b | SomeHolds(xs, b) ensures SomeHolds(ys, b) {
      var i :| 0 <= i < |xs| && Holds(xs[i], b);
      assert xs[i] in ys;
    }
    var end := Add64(addr, size);
    if SomeContains(xs, addr, end) {
      var i :| 0 <= i < |xs| && Contains(xs[i], addr, end);
      assert xs[i] in ys;
    }
  }
}
