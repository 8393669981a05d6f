/** How far a Success verdict determines the state: for each byte of memory and each register bit,
    the exact condition under which no step that passes can change it unnoticed. */
module Exactness {
  import opened BitVectors
  import opened Trace
  import opened Coverage
  import opened Registers
  import opened Memory
  import opened Vm
  import opened Adapters
  import opened FrameCheck
  import opened Soundness

  /** Step r with one more event at its end. */
  function WithEvent(r: StepResult, e: Event): StepResult
    requires r.StepOk?
  {
    StepOk(r.events + [e], r.pc)
  }

  lemma JustifiedWithEvent(t: Target, sf: StdFrame, events: seq<Event>, e: Event)
    requires AllJustified(t, sf, events) && EventJustified(t, sf, e)
    ensures AllJustified(t, sf, events + [e])
  {
  }

  // ----- One more store

  /** A value whose store writes the given bytes. */
  function ValueOfBytes(bigEndian: bool, data: seq<Byte>): (v: Bits)
    ensures |v| == 8 * |data|
  {
    FromBytesLE(if bigEndian then Reverse(data) else data, 8 * |data|)
  }

  lemma BitOfData(data: seq<Byte>, j: nat, i: nat)
    requires j < |data| && i < 8
    ensures FromBytesLE(data, 8 * |data|)[8 * j + i] == data[j].Bits()[i]
  {
    assert (8 * j + i) / 8 == j && (8 * j + i) % 8 == i;
  }

  lemma ByteOfData(data: seq<Byte>, j: nat)
    requires j < |data|
    ensures ByteOf(FromBytesLE(data, 8 * |data|), 8 * j) == data[j]
  {
    var v := FromBytesLE(data, 8 * |data|);
    var w := Resize(v[8 * j..], 8);
    forall i | 0 <= i < 8 ensures w[i] == data[j].Bits()[i] {
      BitOfData(data, j, i);
      assert v[8 * j..][i] == v[8 * j + i];
    }
  }

  lemma BytesOfValue(data: seq<Byte>)
    ensures ToBytesLE(FromBytesLE(data, 8 * |data|)) == data
  {
    var v := FromBytesLE(data, 8 * |data|);
    forall j | 0 <= j < |data| ensures ToBytesLE(v)[j] == data[j] {
      ByteOfData(data, j);
    }
  }

  lemma ReverseTwice(data: seq<Byte>)
    ensures Reverse(Reverse(data)) == data
  {
  }

  lemma StoredBytesOfValue(bigEndian: bool, data: seq<Byte>)
    ensures StoredBytes(bigEndian, ValueOfBytes(bigEndian, data)) == data
  {
    if bigEndian {
      BytesOfValue(Reverse(data));
      ReverseTwice(data);
    } else {
      BytesOfValue(data);
    }
  }

  /** A store that puts x at address b and rewrites the n-1 bytes behind it. */
  function StoreAt(t: Target, m: Overlay, b: U64, n: nat, x: Byte): Event
    requires 0 < n < 0x2000_0000
  {
    MemStore(0, b, ValueOfBytes(t.rz.bigEndian, [x] + ReadBytes(t.rz.base, m, b + 1, n - 1)))
  }

  lemma EffectOfStoreAt(t: Target, m: Overlay, b: U64, n: nat, x: Byte, b': int)
    requires 0 < n < 0x2000_0000
    ensures ByteAt(t.rz.base, MemEffect(t.rz.bigEndian, m, StoreAt(t, m, b, n, x)), b') ==
            if b' == b then x else ByteAt(t.rz.base, m, b')
  {
    var rest := ReadBytes(t.rz.base, m, b + 1, n - 1);
    var data := [x] + rest;
    StoredBytesOfValue(t.rz.bigEndian, data);
    assert MemEffect(t.rz.bigEndian, m, StoreAt(t, m, b, n, x)) == WriteBytes(m, b, data);
    forall k | 0 <= k < n ensures data[k] == if k == 0 then x else ByteAt(t.rz.base, m, b + k) {
      ByteOfRewrite(t.rz.base, m, b, n, x, k);
    }
    WriteOneByte(t.rz.base, m, b, data, x, b');
  }

  /** Writing bytes that are there already, but for the first one. */
  lemma WriteOneByte(base: Base, m: Overlay, b: int, data: seq<Byte>, x: Byte, b': int)
    requires data != [] && forall k :: 0 <= k < |data| ==> data[k] == if k == 0 then x else ByteAt(base, m, b + k)
    ensures ByteAt(base, WriteBytes(m, b, data), b') == if b' == b then x else ByteAt(base, m, b')
  {
    ByteAfterWrite(base, m, b, data, b');
    if Spans(b, |data|, b') { assert data[b' - b] == if b' == b then x else ByteAt(base, m, b'); }
  }

  lemma ByteOfRewrite(base: Base, m: Overlay, b: int, n: nat, x: Byte, k: nat)
    requires k < n
    ensures ([x] + ReadBytes(base, m, b + 1, n - 1))[k] == if k == 0 then x else ByteAt(base, m, b + k)
  {
    if k > 0 {
      assert b + 1 + (k - 1) == b + k;
      assert ReadBytes(base, m, b + 1, n - 1)[k - 1] == ByteAt(base, m, b + k);
    }
  }

  lemma StateWithStore(t: Target, s: Machine, r: StepResult, e: Event)
    requires r.StepOk? && e.MemStore?
    ensures AfterStep(t, s, WithEvent(r, e)).arena == AfterStep(t, s, r).arena
    ensures AfterStep(t, s, WithEvent(r, e)).overlay == MemEffect(t.rz.bigEndian, AfterStep(t, s, r).overlay, e)
  {
    assert (r.events + [e])[..|r.events|] == r.events;
  }

  /** Memory comparison does not see a byte that is not compared. */
  lemma MemsMatchElsewhere(t: Target, m: Overlay, m': Overlay, ops: seq<Operand>, b: int)
    requires MemsMatch(t, m, ops) && !IsComparedByte(t, ops, b)
    requires forall b' :: b' != b ==> ByteAt(t.rz.base, m', b') == ByteAt(t.rz.base, m, b')
    ensures MemsMatch(t, m', ops)
  {
    if !IgnoreCompareMemMismatch(t.kind) {
      forall i | 0 <= i < |ops| && IsMem(ops[i]) ensures MemMatches(t, m', ops[i]) {
        var addr, n := ops[i].mem.value, MemOperandSizeBytes(ops[i]);
        assert MemMatches(t, m, ops[i]) && !ComparesByte(t, ops[i], b);
        forall k | 0 <= k < n ensures ReadBytes(t.rz.base, m', addr, n)[k] == ReadBytes(t.rz.base, m, addr, n)[k] {
          assert Spans(addr, n, addr + k);
        }
      }
    }
  }

  /** After a step that passes, any byte that is not compared can be overwritten with any value by
      one more justified store, and the step still passes. */
  lemma UncomparedByteCanBeOverwritten(t: Target, s: Machine, sf: StdFrame, nextPc: Option<U64>, r: StepResult,
                                       mnemonic: Option<string>, b: U64, n: nat, x: Byte)
    requires Passes(t, s, sf, nextPc, r, mnemonic) && !IsComparedByte(t, sf.post, b)
    requires 0 < n < 0x2000_0000 && AccessJustified(sf.post, b, n)
    ensures var e := StoreAt(t, AfterStep(t, s, r).overlay, b, n, x);
            && Passes(t, s, sf, nextPc, WithEvent(r, e), mnemonic)
            && ByteAt(t.rz.base, AfterStep(t, s, WithEvent(r, e)).overlay, b) == x
            && IsSizedStore(e)
            && (Plain(b, n) ==> IsPlainStore(e))
  {
    var m := AfterStep(t, s, r);
    var e := StoreAt(t, m.overlay, b, n, x);
    var m' := AfterStep(t, s, WithEvent(r, e));
    StateWithStore(t, s, r, e);
    forall b' ensures ByteAt(t.rz.base, m'.overlay, b') == if b' == b then x else ByteAt(t.rz.base, m.overlay, b') {
      EffectOfStoreAt(t, m.overlay, b, n, x, b');
    }
    MemsMatchElsewhere(t, m.overlay, m'.overlay, sf.post, b);
    assert AccessSize(|e.newValue|) == n;
    JustifiedWithEvent(t, sf, r.events, e);
  }

  // ----- Exactly which bytes are determined

  /** Byte b is unchanged by the step or has a value that the trace gives and that is compared. */
  ghost predicate UnchangedOrListed(t: Target, s: Machine, sf: StdFrame, r: StepResult, b: int) {
    var y := ByteAt(t.rz.base, AfterStep(t, s, r).overlay, b);
    || y == ByteAt(t.rz.base, s.overlay, b)
    || exists i :: 0 <= i < |sf.post| && ComparesByte(t, sf.post[i], b) && y == sf.post[i].value[b - sf.post[i].mem.value]
  }

  /** Stores of 32-bit size, or only those of them that end below the top of the address space. */
  predicate StoresAdmitted(plainOnly: bool, events: seq<Event>) {
    if plainOnly then PlainStores(events) else SizedStores(events)
  }

  /** A justified store reaches byte b. */
  predicate IsReached(plainOnly: bool, ops: seq<Operand>, b: int) {
    SomeHolds(ops, b) || (!plainOnly && IsOpenAtTop(ops, b))
  }

  /** Every step with admitted stores that passes leaves byte b unchanged or as the trace says. */
  ghost predicate IsPinned(t: Target, s: Machine, sf: StdFrame, nextPc: Option<U64>, mnemonic: Option<string>, plainOnly: bool, b: int) {
    forall r :: Passes(t, s, sf, nextPc, r, mnemonic) && StoresAdmitted(plainOnly, r.events) ==> UnchangedOrListed(t, s, sf, r, b)
  }

  lemma PassingPins(t: Target, s: Machine, sf: StdFrame, nextPc: Option<U64>, r: StepResult, mnemonic: Option<string>, plainOnly: bool, b: U64)
    requires Passes(t, s, sf, nextPc, r, mnemonic) && StoresAdmitted(plainOnly, r.events)
    requires IsComparedByte(t, sf.post, b) || !IsReached(plainOnly, sf.post, b)
    ensures UnchangedOrListed(t, s, sf, r, b)
  {
    MemoryAfterPassing(t, s, sf, nextPc, r, mnemonic, b);
    if IsComparedByte(t, sf.post, b) {
      var i :| 0 <= i < |sf.post| && ComparesByte(t, sf.post[i], b);
      assert ByteAt(t.rz.base, AfterStep(t, s, r).overlay, b) == sf.post[i].value[b - sf.post[i].mem.value];
    }
  }

  /** A byte other than the one that is there. */
  function OtherByte(y: Byte): (x: Byte)
    ensures x != y
  {
    y.(b0 := !y.b0)
  }

  lemma ChangedAndUncompared(t: Target, s: Machine, sf: StdFrame, r: StepResult, b: int)
    requires !IsComparedByte(t, sf.post, b)
    requires ByteAt(t.rz.base, AfterStep(t, s, r).overlay, b) != ByteAt(t.rz.base, s.overlay, b)
    ensures !UnchangedOrListed(t, s, sf, r, b)
  {
  }

  lemma StoresWithEvent(plainOnly: bool, r: StepResult, e: Event)
    requires r.StepOk? && StoresAdmitted(plainOnly, r.events)
    requires IsSizedStore(e) && (plainOnly ==> IsPlainStore(e))
    ensures StoresAdmitted(plainOnly, WithEvent(r, e).events)
  {
  }

  /** One step that passes and leaves byte b changed and unlisted. */
  lemma OverwritingUnpins(t: Target, s: Machine, sf: StdFrame, nextPc: Option<U64>, r: StepResult,
                          mnemonic: Option<string>, plainOnly: bool, b: U64, n: nat)
    returns (r': StepResult)
    requires Passes(t, s, sf, nextPc, r, mnemonic) && StoresAdmitted(plainOnly, r.events) && !IsComparedByte(t, sf.post, b)
    requires 0 < n < 0x2000_0000 && AccessJustified(sf.post, b, n) && (plainOnly ==> Plain(b, n))
    ensures Passes(t, s, sf, nextPc, r', mnemonic) && StoresAdmitted(plainOnly, r'.events)
    ensures !UnchangedOrListed(t, s, sf, r', b)
  {
    var x := OtherByte(ByteAt(t.rz.base, s.overlay, b));
    var e := StoreAt(t, AfterStep(t, s, r).overlay, b, n, x);
    UncomparedByteCanBeOverwritten(t, s, sf, nextPc, r, mnemonic, b, n, x);
    r' := WithEvent(r, e);
    StoresWithEvent(plainOnly, r, e);
    ChangedAndUncompared(t, s, sf, r', b);
  }

  lemma HeldByteCanBeStored(ops: seq<Operand>, b: int)
    requires SomeHolds(ops, b)
    ensures 0 <= b && Plain(b, 1) && AccessJustified(ops, b, 1)
  {
    var i :| 0 <= i < |ops| && Holds(ops[i], b);
  }

  lemma OpenByteCanBeStored(ops: seq<Operand>, b: U64)
    requires IsOpenAtTop(ops, b)
    ensures 0 < TWO_TO_THE_64 - b < 0x2000_0000 && AccessJustified(ops, b, TWO_TO_THE_64 - b)
  {
    var i :| 0 <= i < |ops| && BeginsBy(ops[i], b);
    assert Contains(ops[i], b, 0);
  }

  /** A byte is pinned exactly when it is compared or no justified store reaches it. The bytes that
      are not pinned are those that only operands with both a register and a memory part have, for
      the adapter that compares no memory all listed ones, and, for stores that may run into the top
      of the address space, the last ones if some operand begins below. */
  lemma BytePinnedExactly(t: Target, s: Machine, sf: StdFrame, nextPc: Option<U64>, r: StepResult,
                          mnemonic: Option<string>, plainOnly: bool, b: U64)
    requires Passes(t, s, sf, nextPc, r, mnemonic) && StoresAdmitted(plainOnly, r.events)
    ensures IsPinned(t, s, sf, nextPc, mnemonic, plainOnly, b) <==>
            IsComparedByte(t, sf.post, b) || !IsReached(plainOnly, sf.post, b)
  {
    if IsComparedByte(t, sf.post, b) || !IsReached(plainOnly, sf.post, b) {
      forall r' | Passes(t, s, sf, nextPc, r', mnemonic) && StoresAdmitted(plainOnly, r'.events)
        ensures UnchangedOrListed(t, s, sf, r', b)
      {
        PassingPins(t, s, sf, nextPc, r', mnemonic, plainOnly, b);
      }
    } else if SomeHolds(sf.post, b) {
      HeldByteCanBeStored(sf.post, b);
      var r' := OverwritingUnpins(t, s, sf, nextPc, r, mnemonic, plainOnly, b, 1);
    } else {
      OpenByteCanBeStored(sf.post, b);
      var r' := OverwritingUnpins(t, s, sf, nextPc, r, mnemonic, plainOnly, b, TWO_TO_THE_64 - b);
    }
  }

  // ----- One more write to a variable

  lemma BitOfReg(a: Arena, ri: RegItem, c: Cell)
    requires Inside(c, ri)
    ensures ReadReg(a, ri)[c.bit - ri.offset] == BitAt(a, c)
  {
    assert Cell(ri.kind, ri.offset + (c.bit - ri.offset)) == c;
  }

  lemma FlipCell(a: Arena, ri: RegItem, c: Cell, x: bool)
    requires c in a && Inside(c, ri)
    ensures WriteReg(a, ri, ReadReg(a, ri)[c.bit - ri.offset := x]) == a[c := x]
  {
    var v := ReadReg(a, ri)[c.bit - ri.offset := x];
    forall c' | c' in a ensures WriteReg(a, ri, v)[c'] == if c' == c then x else a[c'] {
      if Inside(c', ri) {
        WrittenBit(a, ri, v, c');
        BitOfReg(a, ri, c');
      }
    }
  }

  lemma ReadElsewhere(a: Arena, ri: RegItem, c: Cell, x: bool)
    requires !Inside(c, ri)
    ensures ReadReg(a[c := x], ri) == ReadReg(a, ri)
  {
    forall i | 0 <= i < ri.size ensures ReadReg(a[c := x], ri)[i] == ReadReg(a, ri)[i] {
      assert Inside(Cell(ri.kind, ri.offset + i), ri);
    }
  }

  lemma SetPcElsewhere(p: Profile, a: Arena, pc: U64, c: Cell, x: bool)
    requires c in a && !InPc(p, c)
    ensures SetPc(p, a[c := x], pc) == SetPc(p, a, pc)[c := x]
  {
  }

  /** Register comparison does not see a cell of no listed register. */
  lemma RegsMatchElsewhere(t: Target, a: Arena, ops: seq<Operand>, mnemonic: Option<string>, c: Cell, x: bool)
    requires RegsMatch(t, a, ops, mnemonic) && !IsListedCell(t, ops, c)
    ensures RegsMatch(t, a[c := x], ops, mnemonic)
  {
    forall i | 0 <= i < |ops| && IsPlainReg(t, ops[i]) && IsLastOfName(t, ops, i)
      ensures ValueMatches(t, a[c := x], ops[i], mnemonic) || IgnorePostMismatchReg(t.kind, ItemOf(t, ops[i]).name)
    {
      assert !Inside(c, ItemOf(t, ops[i]));
      ReadElsewhere(a, ItemOf(t, ops[i]), c, x);
    }
  }

  /** A write to variable v, by which cell c gets bit x and nothing else changes. */
  function WriteOfCell(p: Profile, a: Arena, v: string, c: Cell, x: bool): Event
    requires v in p.items && Inside(c, p.items[v]) && p.items[v].size < TWO_TO_THE_32
  {
    var y := ReadReg(a, p.items[v]);
    VarWrite(v, y, y[c.bit - p.items[v].offset := x])
  }

  lemma StateWithWrite(t: Target, s: Machine, r: StepResult, v: string, c: Cell, x: bool)
    requires r.StepOk? && v in t.rz.profile.bound && v in t.rz.profile.items && Inside(c, t.rz.profile.items[v])
    requires t.rz.profile.items[v].size < TWO_TO_THE_32
    requires c in s.arena && !InPc(t.rz.profile, c)
    ensures var e := WriteOfCell(t.rz.profile, ReplayVars(t.rz.profile, s.arena, r.events), v, c, x);
            && AfterStep(t, s, WithEvent(r, e)).arena == AfterStep(t, s, r).arena[c := x]
            && AfterStep(t, s, WithEvent(r, e)).overlay == AfterStep(t, s, r).overlay
  {
    var p := t.rz.profile;
    var a := ReplayVars(p, s.arena, r.events);
    ReplayWithWrite(p, s.arena, r.events, v, c, x);
    assert (r.events + [WriteOfCell(p, a, v, c, x)])[..|r.events|] == r.events;
    SetPcElsewhere(p, a, r.pc, c, x);
  }

  lemma ReplayWithWrite(p: Profile, a: Arena, events: seq<Event>, v: string, c: Cell, x: bool)
    requires v in p.bound && v in p.items && Inside(c, p.items[v]) && p.items[v].size < TWO_TO_THE_32 && c in a
    ensures ReplayVars(p, a, events + [WriteOfCell(p, ReplayVars(p, a, events), v, c, x)]) == ReplayVars(p, a, events)[c := x]
  {
    var a' := ReplayVars(p, a, events);
    var e := WriteOfCell(p, a', v, c, x);
    assert (events + [e])[..|events|] == events;
    EffectOfWrite(p, a', v, c, x);
  }

  lemma EffectOfWrite(p: Profile, a: Arena, v: string, c: Cell, x: bool)
    requires v in p.bound && v in p.items && Inside(c, p.items[v]) && p.items[v].size < TWO_TO_THE_32 && c in a
    ensures VarEffect(p, a, WriteOfCell(p, a, v, c, x)) == a[c := x]
  {
    FlipCell(a, p.items[v], c, x);
  }

  lemma TruthfulWithWrite(p: Profile, a: Arena, events: seq<Event>, v: string, c: Cell, x: bool)
    requires Truthful(p, a, events) && v in p.items && Inside(c, p.items[v]) && p.items[v].size < TWO_TO_THE_32
    ensures Truthful(p, a, events + [WriteOfCell(p, ReplayVars(p, a, events), v, c, x)])
  {
    var events' := events + [WriteOfCell(p, ReplayVars(p, a, events), v, c, x)];
    forall k | 0 <= k < |events'| ensures TruthfulAt(p, a, events', k) {
      assert events'[..k] == events[..k];
      if k < |events| { assert TruthfulAt(p, a, events, k); } else { assert events[..k] == events; }
    }
  }

  /** Cell c of listed variable v belongs to no listed register and not to the program counter. */
  predicate IsLoose(t: Target, ops: seq<Operand>, v: string, c: Cell) {
    && VarListed(t, ops, v)
    && v in t.rz.profile.items
    && Inside(c, t.rz.profile.items[v])
    && !IsListedCell(t, ops, c)
    && !InPc(t.rz.profile, c)
  }

  /** After a step that passes, a cell of a listed variable that no listed register has can be set
      to any bit by one more justified write, and the step still passes. */
  lemma UnlistedCellCanBeOverwritten(t: Target, s: Machine, sf: StdFrame, nextPc: Option<U64>, r: StepResult,
                                     mnemonic: Option<string>, v: string, c: Cell, x: bool)
    requires NeverWaives(t.kind) && c in s.arena && IsLoose(t, sf.post, v, c) && t.rz.profile.items[v].size < TWO_TO_THE_32
    requires Passes(t, s, sf, nextPc, r, mnemonic) && Truthful(t.rz.profile, s.arena, r.events)
    ensures var r' := WithEvent(r, WriteOfCell(t.rz.profile, ReplayVars(t.rz.profile, s.arena, r.events), v, c, x));
            && Passes(t, s, sf, nextPc, r', mnemonic)
            && Truthful(t.rz.profile, s.arena, r'.events)
            && AfterStep(t, s, r').arena[c] == x
  {
    var p := t.rz.profile;
    var e := WriteOfCell(p, ReplayVars(p, s.arena, r.events), v, c, x);
    var m, m' := AfterStep(t, s, r), AfterStep(t, s, WithEvent(r, e));
    StateWithWrite(t, s, r, v, c, x);
    TruthfulWithWrite(p, s.arena, r.events, v, c, x);
    RegsMatchElsewhere(t, m.arena, sf.post, mnemonic, c, x);
    ReadElsewhere(m.arena, p.pc.value, c, x);
    assert forall i :: 0 <= i < |sf.post| ==> !IsCustomReg(t, sf.post[i]);
    JustifiedWithEvent(t, sf, r.events, e);
  }

  // ----- Exactly when unlisted registers are safe

  /** Every truthful step that passes keeps all register bits outside of the listed registers and
      the program counter. */
  ghost predicate UnlistedCellsKept(t: Target, s: Machine, sf: StdFrame, nextPc: Option<U64>, mnemonic: Option<string>) {
    forall r, c :: Passes(t, s, sf, nextPc, r, mnemonic) && Truthful(t.rz.profile, s.arena, r.events)
                   && c in s.arena && !IsListedCell(t, sf.post, c) && !InPc(t.rz.profile, c)
                   ==> AfterStep(t, s, r).arena[c] == s.arena[c]
  }

  /** Registers have less than 2^32 bits. */
  predicate SmallItems(p: Profile) {
    forall n :: n in p.items ==> p.items[n].size < TWO_TO_THE_32
  }

  lemma CellOfItem(p: Profile, n: string, c: Cell)
    requires WellFormed(p) && n in p.items && Inside(c, p.items[n])
    ensures c in p.cells
  {
    assert InRange(p, p.items[n]);
    assert Cell(p.items[n].kind, c.bit) == c;
  }

  /** The overlap test keeps unlisted registers safe exactly when it is a containment test for the
      frame at hand: every listed variable lies inside the listed registers and the program counter. */
  lemma ContainmentIsNecessary(t: Target, s: Machine, sf: StdFrame, nextPc: Option<U64>, r: StepResult, mnemonic: Option<string>)
    requires NeverWaives(t.kind) && WellFormed(t.rz.profile) && SmallItems(t.rz.profile)
    requires s.arena.Keys == t.rz.profile.cells
    requires Passes(t, s, sf, nextPc, r, mnemonic) && Truthful(t.rz.profile, s.arena, r.events)
    ensures UnlistedCellsKept(t, s, sf, nextPc, mnemonic) <==> VarsContained(t, sf.post)
  {
    var p := t.rz.profile;
    if VarsContained(t, sf.post) {
      forall r', c | Passes(t, s, sf, nextPc, r', mnemonic) && Truthful(p, s.arena, r'.events)
                     && c in s.arena && !IsListedCell(t, sf.post, c) && !InPc(p, c)
        ensures AfterStep(t, s, r').arena[c] == s.arena[c]
      {
        RegistersAfterPassing(t, s, sf, nextPc, r', mnemonic, c);
      }
    } else {
      var v, c :| VarListed(t, sf.post, v) && v in p.items && Inside(c, p.items[v])
                  && !IsListedCell(t, sf.post, c) && !InPc(p, c);
      assert IsLoose(t, sf.post, v, c);
      CellOfItem(p, v, c);
      UnlistedCellCanBeOverwritten(t, s, sf, nextPc, r, mnemonic, v, c, !s.arena[c]);
    }
  }

  // ----- At the level of the verdict

  /** The same Rizin, but for a step that always yields r. */
  function WithStep(t: Target, r: StepResult): Target {
    t.(rz := t.rz.(step := (bits: int, arena: Arena, overlay: Overlay) => r))
  }

  lemma {:induction false} SameWrites(t: Target, r: StepResult, ops: seq<Operand>)
    ensures AllPreWrites(WithStep(t, r), ops) == AllPreWrites(t, ops)
  {
    if ops != [] {
      SameWrites(t, r, ops[..|ops| - 1]);
    }
  }

  lemma SamePreState(t: Target, r: StepResult, m: Machine, sf: StdFrame, cacheReset: bool)
    ensures PreState(WithStep(t, r), m, sf, cacheReset) == PreState(t, m, sf, cacheReset)
  {
    SameWrites(t, r, sf.pre[..|sf.pre|]);
  }

  lemma {:induction false} SameResolvedPc(t: Target, r: StepResult, ops: seq<Operand>, mnemonic: Option<string>, fallback: U64)
    ensures ResolvedPc(WithStep(t, r), ops, mnemonic, fallback) == ResolvedPc(t, ops, mnemonic, fallback)
  {
    if ops != [] {
      SameResolvedPc(t, r, ops[..|ops| - 1], mnemonic, fallback);
    }
  }

  lemma SameOperand(t: Target, r: StepResult, a: Arena, ops: seq<Operand>, i: nat, mnemonic: Option<string>)
    requires i < |ops|
    ensures IsPlainReg(WithStep(t, r), ops[i]) == IsPlainReg(t, ops[i])
    ensures IsCustomReg(WithStep(t, r), ops[i]) == IsCustomReg(t, ops[i])
    ensures IsPlainReg(t, ops[i]) ==>
              && IsLastOfName(WithStep(t, r), ops, i) == IsLastOfName(t, ops, i)
              && ValueMatches(WithStep(t, r), a, ops[i], mnemonic) == ValueMatches(t, a, ops[i], mnemonic)
              && ItemOf(WithStep(t, r), ops[i]) == ItemOf(t, ops[i])
  {
    if IsPlainReg(t, ops[i]) {
      assert forall j :: 0 <= j < |ops| && ops[j].reg.Some? ==> RizinName(WithStep(t, r), ops[j]) == RizinName(t, ops[j]);
    }
  }

  lemma SameComparison(t: Target, r: StepResult, m: Machine, ops: seq<Operand>, mnemonic: Option<string>)
    ensures RegsMatch(WithStep(t, r), m.arena, ops, mnemonic) == RegsMatch(t, m.arena, ops, mnemonic)
    ensures CustomsMatch(WithStep(t, r), m.arena, ops) == CustomsMatch(t, m.arena, ops)
    ensures MemsMatch(WithStep(t, r), m.overlay, ops) == MemsMatch(t, m.overlay, ops)
  {
    forall i | 0 <= i < |ops|
      ensures IsPlainReg(WithStep(t, r), ops[i]) == IsPlainReg(t, ops[i])
      ensures IsCustomReg(WithStep(t, r), ops[i]) == IsCustomReg(t, ops[i])
      ensures IsPlainReg(t, ops[i]) ==>
                && IsLastOfName(WithStep(t, r), ops, i) == IsLastOfName(t, ops, i)
                && ValueMatches(WithStep(t, r), m.arena, ops[i], mnemonic) == ValueMatches(t, m.arena, ops[i], mnemonic)
                && ItemOf(WithStep(t, r), ops[i]) == ItemOf(t, ops[i])
      ensures IsMem(ops[i]) ==> MemMatches(WithStep(t, r), m.overlay, ops[i]) == MemMatches(t, m.overlay, ops[i])
    {
      SameOperand(t, r, m.arena, ops, i, mnemonic);
    }
  }

  lemma SameVarListed(t: Target, r: StepResult, ops: seq<Operand>, v: string)
    ensures VarListed(WithStep(t, r), ops, v) == VarListed(t, ops, v)
  {
    forall i | 0 <= i < |ops| && ops[i].reg.Some?
      ensures TraceRegOverlapsILVar(WithStep(t, r), ops[i].reg.value, v) == TraceRegOverlapsILVar(t, ops[i].reg.value, v)
    {
    }
  }

  lemma SameJustification(t: Target, r: StepResult, sf: StdFrame, e: Event)
    ensures EventJustified(WithStep(t, r), sf, e) == EventJustified(t, sf, e)
  {
    if e.VarRead? || e.VarWrite? {
      SameVarListed(t, r, sf.pre, e.variable);
      SameVarListed(t, r, sf.post, e.variable);
    }
  }

  lemma SamePassing(t: Target, s: Machine, sf: StdFrame, nextPc: Option<U64>, r: StepResult, mnemonic: Option<string>)
    ensures Passes(WithStep(t, r), s, sf, nextPc, r, mnemonic) == Passes(t, s, sf, nextPc, r, mnemonic)
  {
    if t.rz.profile.pc.Some? && r.StepOk? {
      var m := AfterStep(t, s, r);
      assert AfterStep(WithStep(t, r), s, r) == m;
      SameComparison(t, r, m, sf.post, mnemonic);
      SameResolvedPc(t, r, sf.post, mnemonic, FallbackPc(sf, nextPc));
      forall k | 0 <= k < |r.events| ensures EventJustified(WithStep(t, r), sf, r.events[k]) == EventJustified(t, sf, r.events[k]) {
        SameJustification(t, r, sf, r.events[k]);
      }
    }
  }

  /** Once the frame gets Success with some step, it does so with exactly those that pass. */
  lemma SuccessWithStep(t: Target, m: Machine, f: Frame, nextPc: Option<U64>, skip: SkipRule, cacheReset: bool, r: StepResult)
    ensures FrameOutcome(t, m, f, nextPc, skip, cacheReset).verdict == Success ==>
              && f.Std?
              && var s := PreState(t, m, f.sf, cacheReset);
                 && (FrameOutcome(WithStep(t, r), m, f, nextPc, skip, cacheReset).verdict == Success <==>
                     Passes(t, s, f.sf, nextPc, r, MnemonicOf(t, s, f.sf)))
                 && Passes(t, s, f.sf, nextPc, StepOf(t, s), MnemonicOf(t, s, f.sf))
  {
    SuccessExactly(t, m, f, nextPc, skip, cacheReset);
    if FrameOutcome(t, m, f, nextPc, skip, cacheReset).verdict == Success {
      SuccessExactly(WithStep(t, r), m, f, nextPc, skip, cacheReset);
      var s := PreState(t, m, f.sf, cacheReset);
      SamePreState(t, r, m, f.sf, cacheReset);
      SamePassing(t, s, f.sf, nextPc, r, MnemonicOf(t, s, f.sf));
    }
  }

  /** Whatever the step, if its stores are admitted and the frame gets Success, then byte b is
      unchanged or as the trace says. */
  ghost predicate SuccessDeterminesByte(t: Target, m: Machine, f: Frame, nextPc: Option<U64>, skip: SkipRule, cacheReset: bool,
                                        plainOnly: bool, b: int)
    requires f.Std?
  {
    forall r :: FrameOutcome(WithStep(t, r), m, f, nextPc, skip, cacheReset).verdict == Success && StoresAdmitted(plainOnly, r.events)
                ==> UnchangedOrListed(t, PreState(t, m, f.sf, cacheReset), f.sf, r, b)
  }

  /** The exact memory meaning of Success: it determines a byte exactly when the byte is compared or
      no justified store reaches it. */
  lemma SuccessDeterminesByteExactly(t: Target, m: Machine, f: Frame, nextPc: Option<U64>, skip: SkipRule, cacheReset: bool,
                                     plainOnly: bool, b: U64)
    requires f.Std?
    ensures FrameOutcome(t, m, f, nextPc, skip, cacheReset).verdict == Success
            && StoresAdmitted(plainOnly, StepOf(t, PreState(t, m, f.sf, cacheReset)).events) ==>
              (SuccessDeterminesByte(t, m, f, nextPc, skip, cacheReset, plainOnly, b) <==>
               IsComparedByte(t, f.sf.post, b) || !IsReached(plainOnly, f.sf.post, b))
  {
    var s := PreState(t, m, f.sf, cacheReset);
    if FrameOutcome(t, m, f, nextPc, skip, cacheReset).verdict == Success && StoresAdmitted(plainOnly, StepOf(t, s).events) {
      forall r ensures FrameOutcome(WithStep(t, r), m, f, nextPc, skip, cacheReset).verdict == Success <==>
                       Passes(t, s, f.sf, nextPc, r, MnemonicOf(t, s, f.sf))
      {
        SuccessWithStep(t, m, f, nextPc, skip, cacheReset, r);
      }
      SuccessWithStep(t, m, f, nextPc, skip, cacheReset, StepOf(t, s));
      BytePinnedExactly(t, s, f.sf, nextPc, StepOf(t, s), MnemonicOf(t, s, f.sf), plainOnly, b);
    }
  }

  /** Whatever the step, if it is truthful and the frame gets Success, then every register bit
      outside of the listed registers and the program counter is unchanged. */
  ghost predicate SuccessKeepsUnlistedCells(t: Target, m: Machine, f: Frame, nextPc: Option<U64>, skip: SkipRule, cacheReset: bool)
    requires f.Std?
  {
    var s := PreState(t, m, f.sf, cacheReset);
    forall r, c :: FrameOutcome(WithStep(t, r), m, f, nextPc, skip, cacheReset).verdict == Success
                   && Truthful(t.rz.profile, s.arena, r.events)
                   && c in s.arena && !IsListedCell(t, f.sf.post, c) && !InPc(t.rz.profile, c)
                   ==> AfterStep(t, s, r).arena[c] == s.arena[c]
  }

  /** The exact register meaning of Success: unlisted registers are safe exactly when every listed
      variable lies inside the listed registers and the program counter. */
  lemma SuccessKeepsUnlistedCellsExactly(t: Target, m: Machine, f: Frame, nextPc: Option<U64>, skip: SkipRule, cacheReset: bool)
    requires f.Std? && FrameOutcome(t, m, f, nextPc, skip, cacheReset).verdict == Success
    requires NeverWaives(t.kind) && WellFormed(t.rz.profile) && SmallItems(t.rz.profile)
    requires var s := PreState(t, m, f.sf, cacheReset); Truthful(t.rz.profile, s.arena, StepOf(t, s).events)
    ensures SuccessKeepsUnlistedCells(t, m, f, nextPc, skip, cacheReset) <==> VarsContained(t, f.sf.post)
  {
    var s := PreState(t, m, f.sf, cacheReset);
    var mnemonic := MnemonicOf(t, s, f.sf);
    forall r ensures FrameOutcome(WithStep(t, r), m, f, nextPc, skip, cacheReset).verdict == Success <==>
                     Passes(t, s, f.sf, nextPc, r, mnemonic)
    {
      SuccessWithStep(t, m, f, nextPc, skip, cacheReset, r);
    }
    SuccessWithStep(t, m, f, nextPc, skip, cacheReset, StepOf(t, s));
    PreStateArena(t, m, f.sf, cacheReset);
    ContainmentIsNecessary(t, s, f.sf, nextPc, StepOf(t, s), mnemonic);
  }

  // ----- A witness

  const ONE_BYTE := Byte(true, true, true, true, true, true, true, true)

  /** An operand that names both a register and the byte at address 16, which it says is zero. */
  const DOUBLE_OPERAND := Operand(Some("x"), Some(16), 0, [ZERO_BYTE])

  const DOUBLE_FRAME := StdFrame(0, [ZERO_BYTE], [], [DOUBLE_OPERAND], None)

  const STORE_OF_ONES: Event := MemStore(0, 16, [true, true, true, true, true, true, true, true])

  /** A Rizin in which every operation stores ones at address 16. */
  function StoringRizin(): Rizin {
    var pc := RegItem("pc", 0, 0, 64);
    Rizin(Profile({}, map["pc" := pc], Some(pc), {}), b => ZERO_BYTE, false, 16,
          (bits, address, code) => None,
          (bits, overlay, address, code) => Lifted(1, true, None),
          (bits, arena, overlay) => StepOk([STORE_OF_ONES], 1))
  }

  lemma StoredOnes()
    ensures StoredBytes(false, STORE_OF_ONES.newValue) == [ONE_BYTE]
  {
    var v := STORE_OF_ONES.newValue;
    assert v[0..] == v;
    assert ByteOf(v, 0) == ONE_BYTE;
  }

  lemma StoreOfOnesIsJustified(t: Target)
    ensures EventJustified(t, DOUBLE_FRAME, STORE_OF_ONES)
  {
    assert MemOperandSizeBytes(DOUBLE_OPERAND) == 1;
    assert Holds(DOUBLE_FRAME.post[0], 16);
    assert AllHeld(DOUBLE_FRAME.post, 16, 17);
  }

  lemma NoPcInDoubleFrame(t: Target)
    requires t == Target(I8051, 0, StoringRizin())
    ensures ResolvedPc(t, DOUBLE_FRAME.post, None, 1) == 1
  {
    assert !IsPlainReg(t, DOUBLE_OPERAND);
    assert DOUBLE_FRAME.post[..0] == [];
  }

  lemma DoubleFramePasses(t: Target, s: Machine, r: StepResult)
    requires t == Target(I8051, 0, StoringRizin()) && r == StepOk([STORE_OF_ONES], 1)
    ensures Passes(t, s, DOUBLE_FRAME, None, r, None)
  {
    StoreOfOnesIsJustified(t);
    NoPcInDoubleFrame(t);
    assert !IsPlainReg(t, DOUBLE_OPERAND) && !IsCustomReg(t, DOUBLE_OPERAND) && !IsMem(DOUBLE_OPERAND);
  }

  lemma MemoryOfDoubleFrame(t: Target, s: Machine, r: StepResult)
    requires t == Target(I8051, 0, StoringRizin()) && r == StepOk([STORE_OF_ONES], 1)
    ensures ByteAt(t.rz.base, AfterStep(t, s, r).overlay, 16) == ONE_BYTE
  {
    assert r.events[..0] == [];
    StoredOnes();
    ByteAfterWrite(t.rz.base, s.overlay, 16, [ONE_BYTE], 16);
  }

  /** The memory part of an operand that also names a register explains a store but is never
      compared: the step passes although the byte has neither its old value nor the operand's. */
  lemma DoubleOperandIsNotCompared(m: Machine)
    ensures var t := Target(I8051, 0, StoringRizin());
            var o := FrameOutcome(t, m, Std(DOUBLE_FRAME), None, None, true);
            && o.verdict == Success
            && ByteAt(t.rz.base, PreState(t, m, DOUBLE_FRAME, true).overlay, 16) == ZERO_BYTE
            && DOUBLE_OPERAND.value[16 - DOUBLE_OPERAND.mem.value] == ZERO_BYTE
            && ByteAt(t.rz.base, o.machine.overlay, 16) == ONE_BYTE
  {
    var t := Target(I8051, 0, StoringRizin());
    var s := PreState(t, m, DOUBLE_FRAME, true);
    assert DOUBLE_FRAME.pre[..0] == [];
    DoubleFramePasses(t, s, StepOf(t, s));
    MemoryOfDoubleFrame(t, s, StepOf(t, s));
    SuccessExactly(t, m, Std(DOUBLE_FRAME), None, None, true);
  }
}
