/** What the set-up pre-state contains: with the cache reset, only what the frame gives. */
module PreStateMeaning {
  import opened BitVectors
  import opened Trace
  import opened Registers
  import opened Memory
  import opened Adapters
  import opened AdapterMeaning
  import opened FrameCheck
  import opened Soundness

  /** Operand i is the last one of the list to set byte b of memory. */
  predicate SetsByteLast(ops: seq<Operand>, i: nat, b: int)
    requires i < |ops|
  {
    IsMem(ops[i]) && ListsByte(ops[i], b) && forall j :: i < j < |ops| && IsMem(ops[j]) ==> !ListsByte(ops[j], b)
  }

  predicate SetsNoByte(ops: seq<Operand>, b: int) {
    forall i :: 0 <= i < |ops| && IsMem(ops[i]) ==> !ListsByte(ops[i], b)
  }

  lemma ByteOfOperand(base: Base, m: Overlay, o: Operand, b: int)
    requires IsMem(o)
    ensures ByteAt(base, WriteBytes(m, o.mem.value, MemOperandValue(o)), b) ==
            if ListsByte(o, b) then o.value[b - o.mem.value] else ByteAt(base, m, b)
  {
    ByteAfterWrite(base, m, o.mem.value, MemOperandValue(o), b);
  }

  /** Operands from number n on that do not have byte b leave it as it is. */
  lemma {:induction false} ByteStays(base: Base, ops: seq<Operand>, m: Overlay, n: nat, b: int)
    requires n <= |ops| && forall j :: n <= j < |ops| && IsMem(ops[j]) ==> !ListsByte(ops[j], b)
    ensures ByteAt(base, ApplyMemWrites(m, AllPreMemWrites(ops)), b) ==
            ByteAt(base, ApplyMemWrites(m, AllPreMemWrites(ops[..n])), b)
    decreases |ops| - n
  {
    if n == |ops| {
      assert ops[..n] == ops;
    } else {
      ByteStays(base, ops, m, n + 1, b);
      SetupMemOneMore(ops, n, m);
      if IsMem(ops[n]) { ByteOfOperand(base, ApplyMemWrites(m, AllPreMemWrites(ops[..n])), ops[n], b); }
    }
  }

  lemma ByteOutsideOfOperands(base: Base, ops: seq<Operand>, m: Overlay, b: int)
    requires SetsNoByte(ops, b)
    ensures ByteAt(base, ApplyMemWrites(m, AllPreMemWrites(ops)), b) == ByteAt(base, m, b)
  {
    ByteStays(base, ops, m, 0, b);
    assert ops[..0] == [];
  }

  lemma ByteOfLastOperand(base: Base, ops: seq<Operand>, m: Overlay, i: nat, b: int)
    requires i < |ops| && SetsByteLast(ops, i, b)
    ensures ByteAt(base, ApplyMemWrites(m, AllPreMemWrites(ops)), b) == ops[i].value[b - ops[i].mem.value]
  {
    ByteStays(base, ops, m, i + 1, b);
    SetupMemOneMore(ops, i, m);
    ByteOfOperand(base, ApplyMemWrites(m, AllPreMemWrites(ops[..i])), ops[i], b);
  }

  lemma OverlayOfPreState(t: Target, m: Machine, sf: StdFrame, cacheReset: bool)
    ensures PreState(t, m, sf, cacheReset).overlay ==
            ApplyMemWrites(EntryMemory(m, sf, cacheReset), AllPreMemWrites(sf.pre))
  {
    assert sf.pre[..|sf.pre|] == sf.pre;
  }

  /** Operand o has byte x for address b. */
  predicate GivesByte(o: Operand, b: int, x: Byte) {
    ListsByte(o, b) && o.value[b - o.mem.value] == x
  }

  /** Operand i is the last one of the list to set its byte k. */
  predicate SetsOwnByteLast(ops: seq<Operand>, i: nat, k: nat)
    requires i < |ops|
  {
    && IsMem(ops[i])
    && HasByte(ops[i], k)
    && forall j :: i < j < |ops| && IsMem(ops[j]) ==> !ListsByte(ops[j], ops[i].mem.value + k)
  }

  lemma OwnByteIsListed(ops: seq<Operand>, i: nat, k: nat, b: int)
    requires i < |ops| && SetsOwnByteLast(ops, i, k) && b == ops[i].mem.value + k
    ensures SetsByteLast(ops, i, b)
  {
  }

  lemma LastOperandGivesByte(base: Base, ov: Overlay, ops: seq<Operand>, m: Overlay, i: nat, b: int)
    requires ov == ApplyMemWrites(m, AllPreMemWrites(ops)) && i < |ops| && SetsByteLast(ops, i, b)
    ensures GivesByte(ops[i], b, ByteAt(base, ov, b))
  {
    ByteOfLastOperand(base, ops, m, i, b);
  }

  lemma OwnByteOfLastOperand(base: Base, ov: Overlay, ops: seq<Operand>, m: Overlay, i: nat, k: nat, b: int)
    requires ov == ApplyMemWrites(m, AllPreMemWrites(ops)) && i < |ops| && SetsOwnByteLast(ops, i, k)
    requires b == ops[i].mem.value + k
    ensures ByteAt(base, ov, b) == ops[i].value[k]
  {
    OwnByteIsListed(ops, i, k, b);
    LastOperandGivesByte(base, ov, ops, m, i, b);
    assert b - ops[i].mem.value == k;
  }

  /** Byte k of a memory pre-operand is at its address b, unless a later one sets that byte. */
  lemma OperandBytesOfPreState(t: Target, m: Machine, sf: StdFrame, cacheReset: bool, i: nat, k: nat, b: int)
    requires i < |sf.pre| && SetsOwnByteLast(sf.pre, i, k) && b == sf.pre[i].mem.value + k
    ensures ByteAt(t.rz.base, PreState(t, m, sf, cacheReset).overlay, b) == sf.pre[i].value[k]
  {
    OverlayOfPreState(t, m, sf, cacheReset);
    OwnByteOfLastOperand(t.rz.base, PreState(t, m, sf, cacheReset).overlay, sf.pre, EntryMemory(m, sf, cacheReset), i, k, b);
  }

  /** A byte that no pre-operand sets is the one that memory held on entry. */
  lemma EntryBytesOfPreState(t: Target, m: Machine, sf: StdFrame, cacheReset: bool, b: int)
    requires SetsNoByte(sf.pre, b)
    ensures ByteAt(t.rz.base, PreState(t, m, sf, cacheReset).overlay, b) ==
            ByteAt(t.rz.base, EntryMemory(m, sf, cacheReset), b)
  {
    OverlayOfPreState(t, m, sf, cacheReset);
    ByteOutsideOfOperands(t.rz.base, sf.pre, EntryMemory(m, sf, cacheReset), b);
  }

  /** With the cache reset, a byte that no pre-operand sets is that of the frame's code, else that
      of the base; nothing of an earlier frame is left. */
  lemma OtherBytesOfPreState(t: Target, m: Machine, sf: StdFrame, b: int)
    requires SetsNoByte(sf.pre, b)
    ensures ByteAt(t.rz.base, PreState(t, m, sf, true).overlay, b) ==
            if Spans(sf.address, |sf.code|, b) then sf.code[b - sf.address] else t.rz.base(b)
  {
    EntryBytesOfPreState(t, m, sf, true, b);
    CodeByte(t.rz.base, sf, b);
  }

  lemma CodeByte(base: Base, sf: StdFrame, b: int)
    ensures ByteAt(base, WriteBytes(map[], sf.address, sf.code), b) ==
            if Spans(sf.address, |sf.code|, b) then sf.code[b - sf.address] else base(b)
  {
    ByteAfterWrite(base, map[], sf.address, sf.code, b);
  }

  /** The bit that the fields of a packed register give for cell c; the last one for it wins. */
  function FieldBit(p: Profile, fields: seq<SubField>, v: Bits, c: Cell): Option<bool> {
    if fields == [] then None
    else
      var f := fields[|fields| - 1];
      if f.name in p.items && Inside(c, p.items[f.name]) then
        var i := c.bit - p.items[f.name].offset;
        Some(i < 64 && i < f.width && f.shift + i < 64 && f.shift + i < |v| && v[f.shift + i])
      else FieldBit(p, fields[..|fields| - 1], v, c)
  }

  /** The bit that an operand gives for cell c: a bit of the operand's own value, or of a flag. */
  function GivenBit(t: Target, o: Operand, c: Cell): Option<bool> {
    if IsCustomReg(t, o) then FieldBit(t.rz.profile, SubFields(t.kind), RegOperandValue(o), c)
    else if IsPlainReg(t, o) && Inside(c, ItemOf(t, o)) then
      Some(TraceBit(t.kind, o.reg.value, o, None, c.bit - ItemOf(t, o).offset))
    else None
  }

  lemma {:induction false} CellAfterFields(p: Profile, fields: seq<SubField>, v: Bits, a: Arena, c: Cell)
    requires c in a
    ensures ApplyWrites(a, FieldWrites(p, fields, v))[c] ==
            if FieldBit(p, fields, v, c).Some? then FieldBit(p, fields, v, c).value else a[c]
  {
    if fields != [] {
      var init, f := fields[..|fields| - 1], fields[|fields| - 1];
      CellAfterFields(p, init, v, a, c);
      ApplyWritesConcat(a, FieldWrites(p, init, v), FieldWrite(p, f, v));
      CellAfterField(p, f, v, ApplyWrites(a, FieldWrites(p, init, v)), c);
    }
  }

  lemma CellAfterField(p: Profile, f: SubField, v: Bits, a: Arena, c: Cell)
    requires c in a
    ensures ApplyWrites(a, FieldWrite(p, f, v))[c] ==
            if FieldBit(p, [f], v, c).Some? then FieldBit(p, [f], v, c).value else a[c]
  {
    assert [f][..0] == [];
    if f.name in p.items {
      CellAfterWrite(a, p.items[f.name], Field(Resize(v, 64), f.shift, f.width), c);
    }
  }

  lemma CellAfterWrite(a: Arena, ri: RegItem, v: Bits, c: Cell)
    requires c in a
    ensures ApplyWrites(a, [RegWrite(ri, v)])[c] ==
            if Inside(c, ri) then c.bit - ri.offset < |v| && v[c.bit - ri.offset] else a[c]
  {
    SingleWrite(a, RegWrite(ri, v));
    if Inside(c, ri) { WrittenBit(a, ri, v, c); }
  }

  lemma CellAfterPlainReg(t: Target, a: Arena, o: Operand, c: Cell)
    requires c in a && IsPlainReg(t, o)
    ensures ApplyWrites(a, PreWrites(t, o))[c] == if GivenBit(t, o, c).Some? then GivenBit(t, o, c).value else a[c]
  {
    var ri, v := ItemOf(t, o), AdjustFromTrace(t.kind, o.reg.value, RegOperandValue(o), None);
    assert PreWrites(t, o) == [RegWrite(ri, v)];
    CellAfterWrite(a, ri, v, c);
    if Inside(c, ri) { AdjustedBit(t.kind, o.reg.value, o, None, c.bit - ri.offset); }
  }

  lemma CellAfterOperand(t: Target, a: Arena, o: Operand, c: Cell)
    requires c in a
    ensures ApplyWrites(a, PreWrites(t, o))[c] == if GivenBit(t, o, c).Some? then GivenBit(t, o, c).value else a[c]
  {
    if IsCustomReg(t, o) {
      CellAfterFields(t.rz.profile, SubFields(t.kind), RegOperandValue(o), a, c);
    } else if IsPlainReg(t, o) {
      CellAfterPlainReg(t, a, o, c);
    }
  }

  /** What the last operand of a list does to cell c. */
  lemma CellAfterLast(t: Target, ops: seq<Operand>, a: Arena, c: Cell)
    requires c in a && ops != []
    ensures var o := ops[|ops| - 1];
            ApplyWrites(a, AllPreWrites(t, ops))[c] ==
            if GivenBit(t, o, c).Some? then GivenBit(t, o, c).value
            else ApplyWrites(a, AllPreWrites(t, ops[..|ops| - 1]))[c]
  {
    var init, o := ops[..|ops| - 1], ops[|ops| - 1];
    ApplyWritesConcat(a, AllPreWrites(t, init), PreWrites(t, o));
    CellAfterOperand(t, ApplyWrites(a, AllPreWrites(t, init)), o, c);
  }

  predicate SetsNoCell(t: Target, ops: seq<Operand>, c: Cell) {
    forall i :: 0 <= i < |ops| ==> GivenBit(t, ops[i], c) == None
  }

  /** Operand i is the last one of the list to set cell c. */
  predicate SetsCellLast(t: Target, ops: seq<Operand>, i: nat, c: Cell)
    requires i < |ops|
  {
    GivenBit(t, ops[i], c).Some? && forall j :: i < j < |ops| ==> GivenBit(t, ops[j], c) == None
  }

  lemma {:induction false} CellAfterOperands(t: Target, ops: seq<Operand>, a: Arena, i: nat, c: Cell)
    requires c in a && (SetsNoCell(t, ops, c) || (i < |ops| && SetsCellLast(t, ops, i, c)))
    ensures ApplyWrites(a, AllPreWrites(t, ops))[c] ==
            if SetsNoCell(t, ops, c) then a[c] else GivenBit(t, ops[i], c).value
  {
    if ops != [] {
      CellAfterLast(t, ops, a, c);
      if GivenBit(t, ops[|ops| - 1], c) == None {
        SetsCellInPrefix(t, ops, c);
        CellAfterOperands(t, ops[..|ops| - 1], a, i, c);
      }
    }
  }

  /** A last operand that does not set cell c can be left out. */
  lemma SetsCellInPrefix(t: Target, ops: seq<Operand>, c: Cell)
    requires ops != [] && GivenBit(t, ops[|ops| - 1], c) == None
    ensures SetsNoCell(t, ops[..|ops| - 1], c) <==> SetsNoCell(t, ops, c)
    ensures forall i :: 0 <= i < |ops| && SetsCellLast(t, ops, i, c) ==>
              i < |ops| - 1 && SetsCellLast(t, ops[..|ops| - 1], i, c)
  {
    var init := ops[..|ops| - 1];
    assert forall j :: 0 <= j < |init| ==> init[j] == ops[j];
  }

  /** Each register bit outside of the program counter is that of the last pre-operand for it,
      plain or packed, else zero. */
  lemma RegistersOfPreState(t: Target, m: Machine, sf: StdFrame, cacheReset: bool, c: Cell)
    requires c in t.rz.profile.cells && !InPc(t.rz.profile, c)
    ensures var a := PreState(t, m, sf, cacheReset).arena;
            && a.Keys == t.rz.profile.cells
            && (SetsNoCell(t, sf.pre, c) ==> !a[c])
            && forall i :: 0 <= i < |sf.pre| && SetsCellLast(t, sf.pre, i, c) ==> a[c] == GivenBit(t, sf.pre[i], c).value
  {
    assert sf.pre[..|sf.pre|] == sf.pre;
    var zero := ZeroArena(t.rz.profile);
    if SetsNoCell(t, sf.pre, c) { CellAfterOperands(t, sf.pre, zero, 0, c); }
    forall i | 0 <= i < |sf.pre| && SetsCellLast(t, sf.pre, i, c)
      ensures ApplyWrites(zero, AllPreWrites(t, sf.pre))[c] == GivenBit(t, sf.pre[i], c).value
    {
      CellAfterOperands(t, sf.pre, zero, i, c);
    }
  }

  /** The program counter register holds the address of the frame, as much of it as fits. */
  lemma PcOfPreState(t: Target, m: Machine, sf: StdFrame, cacheReset: bool)
    requires t.rz.profile.pc.Some? && InRange(t.rz.profile, t.rz.profile.pc.value)
    ensures ToU64(ReadReg(PreState(t, m, sf, cacheReset).arena, t.rz.profile.pc.value)) ==
            sf.address % Pow2(t.rz.profile.pc.value.size)
  {
    var p := t.rz.profile;
    var s := PartialSetup(t, WithBits(t, m, sf), sf, cacheReset, |sf.pre|);
    ReadAfterWrite(p, s.arena, p.pc.value, FromNat(sf.address, 64));
    StoredNumber(sf.address, p.pc.value.size);
  }
}
