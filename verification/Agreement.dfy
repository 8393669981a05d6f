/** The comparison in both directions, in terms of the operands' own bytes: what it means that the
    state after a step agrees with a frame. */
module Agreement {
  import opened BitVectors
  import opened Trace
  import opened Registers
  import opened Memory
  import opened Vm
  import opened Adapters
  import opened AdapterMeaning
  import opened SparcPacked
  import opened FrameCheck
  import opened Soundness
  import opened EventMeaning
  import opened VerdictMeaning

  // ----- Registers

  /** Operand i names a register for the last time. */
  predicate IsLastForRegister(t: Target, ops: seq<Operand>, i: nat)
    requires i < |ops| && ops[i].reg.Some?
  {
    forall j :: i < j < |ops| && ops[j].reg.Some? ==>
      TraceRegToRizin(t.kind, ops[j].reg.value) != TraceRegToRizin(t.kind, ops[i].reg.value)
  }

  /** The register of each last operand has the bits of the operand. */
  ghost predicate RegistersAgree(t: Target, a: Arena, ops: seq<Operand>, mnemonic: Option<string>) {
    forall i :: 0 <= i < |ops| && IsPlainReg(t, ops[i]) && IsLastForRegister(t, ops, i) ==>
      || IgnorePostMismatchReg(t.kind, ItemOf(t, ops[i]).name)
      || BitsAgree(t.kind, ops[i].reg.value, ops[i], mnemonic, ReadReg(a, ItemOf(t, ops[i])))
  }

  lemma RegsMatchExactly(t: Target, a: Arena, ops: seq<Operand>, mnemonic: Option<string>)
    ensures RegsMatch(t, a, ops, mnemonic) <==> RegistersAgree(t, a, ops, mnemonic)
  {
    forall i | 0 <= i < |ops| && IsPlainReg(t, ops[i])
      ensures IsLastOfName(t, ops, i) <==> IsLastForRegister(t, ops, i)
      ensures ValueMatches(t, a, ops[i], mnemonic) <==>
              BitsAgree(t.kind, ops[i].reg.value, ops[i], mnemonic, ReadReg(a, ItemOf(t, ops[i])))
    {
      ComparisonIsBitwise(t.kind, ops[i].reg.value, ops[i], mnemonic, ReadReg(a, ItemOf(t, ops[i])));
    }
  }

  /** The sub-registers of a packed register have the fields of number n. */
  predicate PackedAgrees(t: Target, a: Arena, n: nat) {
    var p := t.rz.profile;
    match t.kind
    case Sparc64 => HasStateRegs(p) && HoldsState(p, a, n)
    case Sparc32 =>
      && "cwp" in p.items && "ccr" in p.items
      && NumberIn(p, a, "cwp") == Room(p, "cwp", n % 0x20)
      && p.items["ccr"].size == 8
      && NumberIn(p, a, "ccr") % 0x10 == n / 0x10_0000 % 0x10
    case _ => true
  }

  predicate IsPackedReg(t: Target, o: Operand) {
    o.reg.Some? && ((t.kind.Sparc64? && o.reg.value == "state") || (t.kind.Sparc32? && o.reg.value == "psr"))
  }

  predicate PackedRegistersAgree(t: Target, a: Arena, ops: seq<Operand>) {
    forall i :: 0 <= i < |ops| && IsPackedReg(t, ops[i]) ==> PackedAgrees(t, a, OperandNumber(ops[i]))
  }

  lemma PackedMatchesExactly(t: Target, a: Arena, o: Operand)
    requires SubregsExist(t.kind, t.rz.profile) && IsPackedReg(t, o)
    ensures CustomMatches(t.kind, t.rz.profile, a, RegOperandValue(o)) <==> PackedAgrees(t, a, OperandNumber(o))
  {
    RegOperandNumber(o);
    if t.kind.Sparc64? {
      StateComparison(t.rz.profile, a, RegOperandValue(o));
    } else {
      PsrComparison(t.rz.profile, a, RegOperandValue(o));
    }
  }

  lemma CustomsMatchExactly(t: Target, a: Arena, ops: seq<Operand>)
    requires SubregsExist(t.kind, t.rz.profile)
    ensures CustomsMatch(t, a, ops) <==> PackedRegistersAgree(t, a, ops)
  {
    forall i | 0 <= i < |ops|
      ensures IsPackedReg(t, ops[i]) <==> IsCustomReg(t, ops[i])
      ensures IsPackedReg(t, ops[i]) ==>
        (CustomMatches(t.kind, t.rz.profile, a, RegOperandValue(ops[i])) <==> PackedAgrees(t, a, OperandNumber(ops[i])))
    {
      if IsPackedReg(t, ops[i]) { PackedMatchesExactly(t, a, ops[i]); }
    }
  }

  // ----- Memory

  /** Byte k of each memory operand is at its address, and Hexagon compares no memory. */
  predicate MemoryAgrees(t: Target, m: Overlay, ops: seq<Operand>) {
    t.kind.Hexagon? ||
    forall i, k :: 0 <= i < |ops| && ops[i].reg.None? && ops[i].mem.Some? && 0 <= k < |ops[i].value| && HasByte(ops[i], k) ==>
      ByteAt(t.rz.base, m, ops[i].mem.value + k) == ops[i].value[k]
  }

  lemma MemMatchesExactly(t: Target, m: Overlay, o: Operand)
    requires IsMem(o)
    ensures MemMatches(t, m, o) <==>
            forall k :: 0 <= k < |o.value| && HasByte(o, k) ==> ByteAt(t.rz.base, m, o.mem.value + k) == o.value[k]
  {
    var actual := ReadBytes(t.rz.base, m, o.mem.value, MemOperandSizeBytes(o));
    if actual == MemOperandValue(o) {
      forall k | 0 <= k < |o.value| && HasByte(o, k) ensures ByteAt(t.rz.base, m, o.mem.value + k) == o.value[k] {
        assert actual[k] == MemOperandValue(o)[k];
      }
    }
    if forall k :: 0 <= k < |o.value| && HasByte(o, k) ==> ByteAt(t.rz.base, m, o.mem.value + k) == o.value[k] {
      forall k | 0 <= k < |actual| ensures actual[k] == MemOperandValue(o)[k] {
        assert HasByte(o, k);
      }
    }
  }

  lemma MemsMatchExactly(t: Target, m: Overlay, ops: seq<Operand>)
    ensures MemsMatch(t, m, ops) <==> MemoryAgrees(t, m, ops)
  {
    forall i | 0 <= i < |ops| && IsMem(ops[i])
      ensures MemMatches(t, m, ops[i]) <==>
              forall k :: 0 <= k < |ops[i].value| && HasByte(ops[i], k) ==>
                ByteAt(t.rz.base, m, ops[i].mem.value + k) == ops[i].value[k]
    {
      MemMatchesExactly(t, m, ops[i]);
    }
  }

  // ----- Program counter

  /** Operand o is for the register in the role of the program counter. */
  predicate IsForPc(t: Target, o: Operand) {
    IsPlainReg(t, o) && t.rz.profile.pc == Some(ItemOf(t, o))
  }

  /** Operand i is the last one for the program counter. */
  predicate IsLastForPc(t: Target, ops: seq<Operand>, i: nat)
    requires i < |ops|
  {
    IsForPc(t, ops[i]) && forall j :: i < j < |ops| ==> !IsForPc(t, ops[j])
  }

  predicate NoneForPc(t: Target, ops: seq<Operand>) {
    forall i :: 0 <= i < |ops| ==> !IsForPc(t, ops[i])
  }

  /** The bits that operand o gives, as a number of 64 bits. */
  function TraceNumber(kind: AdapterKind, o: Operand, mnemonic: Option<string>): U64
    requires o.reg.Some?
  {
    ToU64(seq(64, i requires 0 <= i => TraceBit(kind, o.reg.value, o, mnemonic, i)))
  }

  lemma TraceNumberIsAdjusted(kind: AdapterKind, o: Operand, mnemonic: Option<string>)
    requires o.reg.Some?
    ensures ToU64(AdjustFromTrace(kind, o.reg.value, RegOperandValue(o), mnemonic)) == TraceNumber(kind, o, mnemonic)
  {
    var r := AdjustFromTrace(kind, o.reg.value, RegOperandValue(o), mnemonic);
    var bits := seq(64, i requires 0 <= i => TraceBit(kind, o.reg.value, o, mnemonic, i));
    forall i: nat | i < 64 ensures Resize(r, 64)[i] == bits[i] {
      AdjustedBit(kind, o.reg.value, o, mnemonic, i);
    }
    assert Resize(r, 64) == bits == Resize(bits, 64);
  }

  /** The adapter has no rule for the contents of this register. */
  predicate IsTakenAsIs(kind: AdapterKind, name: string) {
    !kind.Arm32? && !IsFlagName(kind, name) && CutOf(kind, name).None? && !IsMasked(kind, name)
  }

  /** Without a rule the number is that of the operand's bytes. */
  lemma NumberTakenAsIs(kind: AdapterKind, o: Operand, mnemonic: Option<string>)
    requires o.reg.Some? && IsTakenAsIs(kind, o.reg.value)
    ensures TraceNumber(kind, o, mnemonic) == OperandNumber(o) % TWO_TO_THE_64
  {
    TraceNumberIsAdjusted(kind, o, mnemonic);
    KeptValue(kind, o.reg.value, RegOperandValue(o), mnemonic);
    NumberModU64(RegOperandValue(o));
    RegOperandNumber(o);
  }

  /** The program counter of the GameBoy has sixteen bits of it. */
  lemma NumberOfGameBoyPc(o: Operand, mnemonic: Option<string>)
    requires o.reg == Some("pc")
    ensures TraceNumber(GameBoy, o, mnemonic) == OperandNumber(o) % 0x1_0000
  {
    var r := AdjustFromTrace(GameBoy, "pc", RegOperandValue(o), mnemonic);
    assert ToNat(r) == OperandNumber(o) % 0x1_0000 by {
      CutValue(GameBoy, "pc", RegOperandValue(o), mnemonic);
      RegOperandNumber(o);
      assert Pow2(16) == 0x1_0000;
    }
    assert ToU64(r) == ToNat(r) by {
      NumberModU64(r);
      SmallNumber(ToNat(r), TWO_TO_THE_64);
    }
    TraceNumberIsAdjusted(GameBoy, o, mnemonic);
  }

  /** The program counter after the frame: of its own operand, else the address of the next frame,
      else behind the code. */
  ghost predicate IsExpectedPc(t: Target, sf: StdFrame, nextPc: Option<U64>, mnemonic: Option<string>, pc: U64) {
    if NoneForPc(t, sf.post) then
      match nextPc
      case Some(next) => pc == next
      case None => pc == (sf.address + |sf.code|) % TWO_TO_THE_64
    else
      exists i :: 0 <= i < |sf.post| && IsLastForPc(t, sf.post, i) && pc == TraceNumber(t.kind, sf.post[i], mnemonic)
  }

  lemma {:induction false} ResolvedPcOfLast(t: Target, ops: seq<Operand>, mnemonic: Option<string>, fallback: U64, i: nat)
    requires i < |ops| && IsLastForPc(t, ops, i)
    ensures ResolvedPc(t, ops, mnemonic, fallback) == TraceNumber(t.kind, ops[i], mnemonic)
  {
    var n := |ops| - 1;
    if i == n {
      TraceNumberIsAdjusted(t.kind, ops[n], mnemonic);
    } else {
      assert !IsForPc(t, ops[n]);
      assert forall j :: 0 <= j < n ==> ops[..n][j] == ops[j];
      ResolvedPcOfLast(t, ops[..n], mnemonic, fallback, i);
    }
  }

  lemma {:induction false} ResolvedPcWithoutOperand(t: Target, ops: seq<Operand>, mnemonic: Option<string>, fallback: U64)
    requires NoneForPc(t, ops)
    ensures ResolvedPc(t, ops, mnemonic, fallback) == fallback
  {
    if ops != [] {
      var n := |ops| - 1;
      assert forall j :: 0 <= j < n ==> ops[..n][j] == ops[j];
      assert !IsForPc(t, ops[n]);
      ResolvedPcWithoutOperand(t, ops[..n], mnemonic, fallback);
    }
  }

  lemma SomeIsLastForPc(t: Target, ops: seq<Operand>, i: nat) returns (k: nat)
    requires i < |ops| && IsForPc(t, ops[i])
    ensures k < |ops| && IsLastForPc(t, ops, k)
    decreases |ops| - i
  {
    if IsLastForPc(t, ops, i) {
      k := i;
    } else {
      var j :| i < j < |ops| && IsForPc(t, ops[j]);
      k := SomeIsLastForPc(t, ops, j);
    }
  }

  lemma ExpectedPcIsResolved(t: Target, sf: StdFrame, nextPc: Option<U64>, mnemonic: Option<string>, pc: U64)
    ensures IsExpectedPc(t, sf, nextPc, mnemonic, pc) <==> pc == ResolvedPc(t, sf.post, mnemonic, FallbackPc(sf, nextPc))
  {
    if NoneForPc(t, sf.post) {
      ResolvedPcWithoutOperand(t, sf.post, mnemonic, FallbackPc(sf, nextPc));
    } else {
      var j :| 0 <= j < |sf.post| && IsForPc(t, sf.post[j]);
      var k := SomeIsLastForPc(t, sf.post, j);
      forall i | 0 <= i < |sf.post| && IsLastForPc(t, sf.post, i)
        ensures ResolvedPc(t, sf.post, mnemonic, FallbackPc(sf, nextPc)) == TraceNumber(t.kind, sf.post[i], mnemonic)
      {
        ResolvedPcOfLast(t, sf.post, mnemonic, FallbackPc(sf, nextPc), i);
      }
    }
  }

  /** The VM's program counter or the register has the expected value, or one that the adapter
      accepts in its place. */
  ghost predicate PcAgrees(t: Target, a: Arena, vmPc: U64, sf: StdFrame, nextPc: Option<U64>, mnemonic: Option<string>)
    requires t.rz.profile.pc.Some?
  {
    var actual := ToU64(ReadReg(a, t.rz.profile.pc.value));
    || IsExpectedPc(t, sf, nextPc, mnemonic, vmPc)
    || IsExpectedPc(t, sf, nextPc, mnemonic, actual)
    || exists expected: U64 :: IsExpectedPc(t, sf, nextPc, mnemonic, expected) && IgnorePCMismatch(t.kind, actual, expected)
  }

  lemma PcMatchesExactly(t: Target, a: Arena, vmPc: U64, sf: StdFrame, nextPc: Option<U64>, mnemonic: Option<string>)
    requires t.rz.profile.pc.Some?
    ensures PcMatches(t, a, vmPc, ResolvedPc(t, sf.post, mnemonic, FallbackPc(sf, nextPc))) <==>
            PcAgrees(t, a, vmPc, sf, nextPc, mnemonic)
  {
    var resolved := ResolvedPc(t, sf.post, mnemonic, FallbackPc(sf, nextPc));
    forall pc: U64 ensures IsExpectedPc(t, sf, nextPc, mnemonic, pc) <==> pc == resolved {
      ExpectedPcIsResolved(t, sf, nextPc, mnemonic, pc);
    }
  }

  /** The adapters that accept no deviation of the program counter. */
  predicate ChecksPcExactly(kind: AdapterKind) {
    !IsSparc(kind) && !kind.Arm32?
  }

  /** Register value `actual` is the expected program counter, as much of it as fits. */
  ghost predicate PcIsExpected(t: Target, sf: StdFrame, nextPc: Option<U64>, mnemonic: Option<string>, actual: U64)
    requires t.rz.profile.pc.Some?
  {
    exists pc: U64 :: IsExpectedPc(t, sf, nextPc, mnemonic, pc) && actual == pc % Pow2(t.rz.profile.pc.value.size)
  }

  /** When a step passes, the program counter register holds the expected value, as much of it as
      fits, whether the comparison was met by the register or by the VM's program counter, or a
      value that the adapter accepts in its place. */
  lemma PcAfterPassing(t: Target, s: Machine, sf: StdFrame, nextPc: Option<U64>, r: StepResult, mnemonic: Option<string>)
    requires WellFormed(t.rz.profile) && s.arena.Keys == t.rz.profile.cells
    requires Passes(t, s, sf, nextPc, r, mnemonic)
    ensures var actual := ToU64(ReadReg(AfterStep(t, s, r).arena, t.rz.profile.pc.value));
            || PcIsExpected(t, sf, nextPc, mnemonic, actual)
            || exists pc: U64 :: IsExpectedPc(t, sf, nextPc, mnemonic, pc) && IgnorePCMismatch(t.kind, actual, pc)
  {
    var resolved := ResolvedPc(t, sf.post, mnemonic, FallbackPc(sf, nextPc));
    ExpectedPcIsResolved(t, sf, nextPc, mnemonic, resolved);
    PcAfterStep(t, s, r);
    RemainderTwice(r.pc, Pow2(t.rz.profile.pc.value.size));
  }

  lemma RemainderTwice(x: nat, d: nat)
    requires d > 0
    ensures x % d % d == x % d
  {
    SmallNumber(x % d, d);
  }

  /** The program counter meaning of a Success verdict. */
  lemma PcMeaningOfSuccess(t: Target, m: Machine, f: Frame, nextPc: Option<U64>, skip: SkipRule, cacheReset: bool)
    requires WellFormed(t.rz.profile)
    ensures var o := FrameOutcome(t, m, f, nextPc, skip, cacheReset);
            o.verdict == Success ==>
              && f.Std? && t.rz.profile.pc.Some?
              && var mnemonic := MnemonicOf(t, PreState(t, m, f.sf, cacheReset), f.sf);
                 var actual := ToU64(ReadReg(o.machine.arena, t.rz.profile.pc.value));
                 && (ChecksPcExactly(t.kind) ==> PcIsExpected(t, f.sf, nextPc, mnemonic, actual))
                 && (t.kind.Arm32? ==>
                       || PcIsExpected(t, f.sf, nextPc, mnemonic, actual)
                       || actual in {0xffff0f60, 0xffff0fa0, 0xffff0fc0, 0xffff0fe0, 0xffff0ffc}
                       || exists pc: U64 :: IsExpectedPc(t, f.sf, nextPc, mnemonic, pc) && pc - pc % 2 == actual - actual % 2)
  {
    SuccessExactly(t, m, f, nextPc, skip, cacheReset);
    if FrameOutcome(t, m, f, nextPc, skip, cacheReset).verdict == Success {
      var s := PreState(t, m, f.sf, cacheReset);
      var mnemonic := MnemonicOf(t, s, f.sf);
      PreStateArena(t, m, f.sf, cacheReset);
      PcAfterPassing(t, s, f.sf, nextPc, StepOf(t, s), mnemonic);
      var actual := ToU64(ReadReg(AfterStep(t, s, StepOf(t, s)).arena, t.rz.profile.pc.value));
      if !PcIsExpected(t, f.sf, nextPc, mnemonic, actual) {
        var pc: U64 :| IsExpectedPc(t, f.sf, nextPc, mnemonic, pc) && IgnorePCMismatch(t.kind, actual, pc);
        WaivedProgramCounters(t.kind, actual, pc);
      }
    }
  }

  // ----- Both directions

  /** The state after step r agrees with the frame, and the frame explains the step. */
  ghost predicate Agrees(t: Target, m: Machine, sf: StdFrame, nextPc: Option<U64>, r: StepResult, mnemonic: Option<string>)
    requires t.rz.profile.pc.Some? && r.StepOk?
  {
    && RegistersAgree(t, m.arena, sf.post, mnemonic)
    && PackedRegistersAgree(t, m.arena, sf.post)
    && MemoryAgrees(t, m.overlay, sf.post)
    && PcAgrees(t, m.arena, r.pc, sf, nextPc, mnemonic)
    && forall e :: e in r.events ==> IsAssumed(t.kind, e) || Explained(t, sf, e)
  }

  lemma EventsMatchExactly(t: Target, sf: StdFrame, events: seq<Event>)
    requires WellFormed(t.rz.profile)
    ensures AllJustified(t, sf, events) <==> forall e :: e in events ==> IsAssumed(t.kind, e) || Explained(t, sf, e)
  {
    forall e ensures EventJustified(t, sf, e) <==> IsAssumed(t.kind, e) || Explained(t, sf, e) {
      JustifiedExactly(t, sf, e);
    }
    if AllJustified(t, sf, events) {
      forall e | e in events ensures EventJustified(t, sf, e) {
        var k :| 0 <= k < |events| && events[k] == e;
      }
    }
    if forall e :: e in events ==> IsAssumed(t.kind, e) || Explained(t, sf, e) {
      forall k | 0 <= k < |events| ensures EventJustified(t, sf, events[k]) {
        assert events[k] in events;
      }
    }
  }

  lemma ComparisonExactly(t: Target, m: Machine, sf: StdFrame, nextPc: Option<U64>, r: StepResult, mnemonic: Option<string>)
    requires WellFormed(t.rz.profile) && SubregsExist(t.kind, t.rz.profile) && t.rz.profile.pc.Some? && r.StepOk?
    ensures PostStateMatches(t, m, r, sf, nextPc, mnemonic) <==> Agrees(t, m, sf, nextPc, r, mnemonic)
  {
    RegsMatchExactly(t, m.arena, sf.post, mnemonic);
    CustomsMatchExactly(t, m.arena, sf.post);
    MemsMatchExactly(t, m.overlay, sf.post);
    PcMatchesExactly(t, m.arena, r.pc, sf, nextPc, mnemonic);
    EventsMatchExactly(t, sf, r.events);
  }

  /** Success is the verdict of exactly those frames whose step succeeds, with operands that all
      name something, and whose state then agrees with the frame. */
  lemma SuccessIsAgreement(t: Target, m: Machine, f: Frame, nextPc: Option<U64>, skip: SkipRule, cacheReset: bool)
    requires WellFormed(t.rz.profile) && SubregsExist(t.kind, t.rz.profile)
    ensures var o := FrameOutcome(t, m, f, nextPc, skip, cacheReset);
            o.verdict == Success <==>
              && IsCompared(t, m, f, skip, cacheReset)
              && (forall i :: 0 <= i < |f.sf.post| ==> !NamesNothing(f.sf.post[i]))
              && Agrees(t, o.machine, f.sf, nextPc, StepFrom(t, m, f, cacheReset), AnalysisOf(t, m, f, cacheReset).mnemonic)
  {
    VerdictExactly(t, m, f, nextPc, skip, cacheReset);
    if IsCompared(t, m, f, skip, cacheReset) {
      SteppedVerdict(t, m, f, nextPc, skip, cacheReset);
      KnownPrefixIsAll(f.sf.post);
      var s, r := PreState(t, m, f.sf, cacheReset), StepFrom(t, m, f, cacheReset);
      ComparisonExactly(t, AfterStep(t, s, r), f.sf, nextPc, r, AnalysisOf(t, m, f, cacheReset).mnemonic);
    }
  }
}
