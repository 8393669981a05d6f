/** No false alarm: a frame whose post-operands repeat its pre-operands passes when the VM step
    changes nothing but the program counter. */
module NullStep {
  import opened BitVectors
  import opened Trace
  import opened Registers
  import opened Memory
  import opened Vm
  import opened Adapters
  import opened SparcPacked
  import opened FrameCheck
  import opened Soundness
  import opened Agreement

  lemma PreWritesStep(t: Target, ops: seq<Operand>, k: nat)
    requires k < |ops|
    ensures AllPreWrites(t, ops[..k + 1]) == AllPreWrites(t, ops[..k]) + PreWrites(t, ops[k])
  {
    assert ops[..k + 1][..k] == ops[..k];
  }

  /** The writes of the first operands are among those of all. */
  lemma {:induction false} EarlierPreWrites(t: Target, ops: seq<Operand>, k: nat, w: RegWrite)
    requires k <= |ops| && w in AllPreWrites(t, ops[..k])
    ensures w in AllPreWrites(t, ops)
    decreases |ops| - k
  {
    if k == |ops| {
      assert ops[..k] == ops;
    } else {
      PreWritesStep(t, ops, k);
      EarlierPreWrites(t, ops, k + 1, w);
    }
  }

  lemma PreWriteOccurs(t: Target, ops: seq<Operand>, k: nat, w: RegWrite)
    requires k < |ops| && w in PreWrites(t, ops[k])
    ensures w in AllPreWrites(t, ops)
  {
    PreWritesStep(t, ops, k);
    EarlierPreWrites(t, ops, k + 1, w);
  }

  lemma {:induction false} PreMemWriteOccurs(ops: seq<Operand>, k: nat, w: MemWrite)
    requires k < |ops| && w in PreMemWrite(ops[k])
    ensures w in AllPreMemWrites(ops)
  {
    var n := |ops| - 1;
    if k < n {
      PreMemWriteOccurs(ops[..n], k, w);
    }
  }

  /** The conditions on the operands of a frame that only restates its pre-state. */
  ghost predicate RestatesPreState(t: Target, sf: StdFrame, mnemonic: Option<string>)
    requires t.rz.profile.pc.Some?
  {
    && KnownPrefix(sf.pre) == |sf.pre|
    && (forall o :: o in sf.post ==> o in sf.pre)
    // operands agree on what they share
    && AllAgree(AllPreWrites(t, sf.pre))
    && AllMemAgree(AllPreMemWrites(sf.pre))
    // register values fit, and none is a program counter or the result of mrs
    && (forall w :: w in AllPreWrites(t, sf.pre) ==> InRange(t.rz.profile, w.ri) && Disjoint(w.ri, t.rz.profile.pc.value))
    && (forall o :: o in sf.post && IsPlainReg(t, o) ==> ValueFits(t, o, mnemonic))
    && (t.kind.Sparc32? ==> "ccr" in t.rz.profile.items && t.rz.profile.items["ccr"].size == 8)
  }

  predicate ValueFits(t: Target, o: Operand, mnemonic: Option<string>)
    requires IsPlainReg(t, o)
  {
    var v := AdjustFromTrace(t.kind, o.reg.value, RegOperandValue(o), None);
    |v| == ItemOf(t, o).size && !(t.kind.Arm32? && IsMrs(v, mnemonic))
  }

  /** Writes to the program counter leave what the pre-operands wrote. */
  lemma PreWriteReadsBack(t: Target, m: Machine, sf: StdFrame, cacheReset: bool, pc: U64, w: RegWrite)
    requires t.rz.profile.pc.Some? && AllAgree(AllPreWrites(t, sf.pre)) && w in AllPreWrites(t, sf.pre)
    requires InRange(t.rz.profile, w.ri) && Disjoint(w.ri, t.rz.profile.pc.value)
    ensures ReadReg(SetPc(t.rz.profile, PreState(t, m, sf, cacheReset).arena, pc), w.ri) == Resize(w.v, w.ri.size)
  {
    var p, ws := t.rz.profile, AllPreWrites(t, sf.pre);
    assert sf.pre[..|sf.pre|] == sf.pre;
    var a := ApplyWrites(ZeroArena(p), ws);
    var k :| 0 <= k < |ws| && ws[k] == w;
    AgreeingWritesReadBack(p, ZeroArena(p), ws, k);
    ReadAfterDisjointWrite(a, w.ri, p.pc.value, FromNat(sf.address, 64));
    ReadAfterDisjointWrite(SetPc(p, a, sf.address), w.ri, p.pc.value, FromNat(pc, 64));
  }

  lemma PlainRegPasses(t: Target, m: Machine, sf: StdFrame, cacheReset: bool, pc: U64, mnemonic: Option<string>, o: Operand)
    requires t.rz.profile.pc.Some? && RestatesPreState(t, sf, mnemonic)
    requires o in sf.post && IsPlainReg(t, o)
    ensures ValueMatches(t, SetPc(t.rz.profile, PreState(t, m, sf, cacheReset).arena, pc), o, mnemonic)
  {
    var v := AdjustFromTrace(t.kind, o.reg.value, RegOperandValue(o), None);
    var w := RegWrite(ItemOf(t, o), v);
    var k :| 0 <= k < |sf.pre| && sf.pre[k] == o;
    assert w in PreWrites(t, o);
    PreWriteOccurs(t, sf.pre, k, w);
    PreWriteReadsBack(t, m, sf, cacheReset, pc, w);
    ResizeSame(v);
    SetupAndComparisonAgree(t.kind, o.reg.value, RegOperandValue(o), mnemonic);
  }

  /** One field of a packed register, after setup and the step. */
  lemma SubregPasses(t: Target, m: Machine, sf: StdFrame, cacheReset: bool, pc: U64, mnemonic: Option<string>, o: Operand, i: nat)
    requires t.rz.profile.pc.Some? && RestatesPreState(t, sf, mnemonic)
    requires SubregsExist(t.kind, t.rz.profile)
    requires o in sf.post && IsCustomReg(t, o) && i < |SubFields(t.kind)|
    ensures var f := SubFields(t.kind)[i];
            f.name in t.rz.profile.items &&
            ReadReg(SetPc(t.rz.profile, PreState(t, m, sf, cacheReset).arena, pc), t.rz.profile.items[f.name]) ==
            StoredField(RegOperandValue(o), f, t.rz.profile.items[f.name].size)
  {
    var p, fields, v := t.rz.profile, SubFields(t.kind), RegOperandValue(o);
    var k :| 0 <= k < |sf.pre| && sf.pre[k] == o;
    assert FieldsExist(p, fields);
    var w := RegWrite(p.items[fields[i].name], Field(Resize(v, 64), fields[i].shift, fields[i].width));
    FieldWriteAt(p, fields, v, i);
    assert CustomWrites(t.kind, p, v)[i] == w;
    assert w in PreWrites(t, o);
    PreWriteOccurs(t, sf.pre, k, w);
    PreWriteReadsBack(t, m, sf, cacheReset, pc, w);
  }

  /** A register that holds its field matches; on Sparc32 ccr has eight bits. */
  lemma HeldFieldMatches(kind: AdapterKind, p: Profile, a: Arena, v: Bits, i: nat)
    requires i < |SubFields(kind)| && SubFields(kind)[i].name in p.items
    requires kind.Sparc32? ==> "ccr" in p.items && p.items["ccr"].size == 8
    requires var f := SubFields(kind)[i]; ReadReg(a, p.items[f.name]) == StoredField(v, f, p.items[f.name].size)
    ensures var f := SubFields(kind)[i]; SubregMatches(kind, p, a, f.name, Field(Resize(v, 64), f.shift, f.width))
  {
    if kind.Sparc32? && SubFields(kind)[i].name == "ccr" { ObservedIcc(v); }
  }

  lemma CustomRegPasses(t: Target, m: Machine, sf: StdFrame, cacheReset: bool, pc: U64, mnemonic: Option<string>, o: Operand)
    requires t.rz.profile.pc.Some? && RestatesPreState(t, sf, mnemonic)
    requires SubregsExist(t.kind, t.rz.profile)
    requires o in sf.post && IsCustomReg(t, o)
    ensures CustomMatches(t.kind, t.rz.profile, SetPc(t.rz.profile, PreState(t, m, sf, cacheReset).arena, pc), RegOperandValue(o))
  {
    var a := SetPc(t.rz.profile, PreState(t, m, sf, cacheReset).arena, pc);
    forall i | 0 <= i < |SubFields(t.kind)|
      ensures var f := SubFields(t.kind)[i];
              SubregMatches(t.kind, t.rz.profile, a, f.name, Field(Resize(RegOperandValue(o), 64), f.shift, f.width))
    {
      SubregPasses(t, m, sf, cacheReset, pc, mnemonic, o, i);
      HeldFieldMatches(t.kind, t.rz.profile, a, RegOperandValue(o), i);
    }
  }

  lemma MemPasses(t: Target, m: Machine, sf: StdFrame, cacheReset: bool, mnemonic: Option<string>, o: Operand)
    requires t.rz.profile.pc.Some? && RestatesPreState(t, sf, mnemonic)
    requires o in sf.post && IsMem(o)
    ensures MemMatches(t, PreState(t, m, sf, cacheReset).overlay, o)
  {
    var w, ws := MemWrite(o.mem.value, MemOperandValue(o)), AllPreMemWrites(sf.pre);
    var k :| 0 <= k < |sf.pre| && sf.pre[k] == o;
    assert w in PreMemWrite(o);
    PreMemWriteOccurs(sf.pre, k, w);
    assert sf.pre[..|sf.pre|] == sf.pre;
    var j :| 0 <= j < |ws| && ws[j] == w;
    AgreeingBytesReadBack(t.rz.base, EntryMemory(WithBits(t, m, sf), sf, cacheReset), ws, j);
  }

  lemma PlainRegIsNotPc(t: Target, sf: StdFrame, mnemonic: Option<string>, o: Operand)
    requires t.rz.profile.pc.Some? && RestatesPreState(t, sf, mnemonic)
    requires o in sf.post && IsPlainReg(t, o)
    ensures ItemOf(t, o) != t.rz.profile.pc.value
  {
    var ri := ItemOf(t, o);
    var w := RegWrite(ri, AdjustFromTrace(t.kind, o.reg.value, RegOperandValue(o), None));
    var k :| 0 <= k < |sf.pre| && sf.pre[k] == o;
    assert w in PreWrites(t, o);
    PreWriteOccurs(t, sf.pre, k, w);
    assert InRange(t.rz.profile, ri) && Disjoint(ri, t.rz.profile.pc.value);
    assert Inside(Cell(ri.kind, ri.offset), ri);
  }

  lemma AllKnown(ops: seq<Operand>)
    requires forall o :: o in ops ==> IsKnown(o)
    ensures KnownPrefix(ops) == |ops|
  {
    if KnownPrefix(ops) < |ops| {
      assert ops[KnownPrefix(ops)] in ops;
    }
  }

  /** The step leaves everything as it is but for the program counter, which it moves as expected,
      and each of its events is justified. */
  ghost predicate IsNullStep(t: Target, s: Machine, sf: StdFrame, nextPc: Option<U64>, r: StepResult) {
    && r.StepOk?
    && r.pc == (if nextPc.Some? then nextPc.value else (sf.address + |sf.code|) % TWO_TO_THE_64)
    && AfterStep(t, s, r) == s.(arena := SetPc(t.rz.profile, s.arena, r.pc))
    && AllJustified(t, sf, r.events)
  }

  lemma NullStepPasses(t: Target, m: Machine, f: Frame, nextPc: Option<U64>, skip: SkipRule, cacheReset: bool)
    requires ReachesSetup(t, m, f, skip) && SubregsExist(t.kind, t.rz.profile)
    requires var s := PreState(t, m, f.sf, cacheReset);
             var analysis := t.rz.analyze(s.bits, s.overlay, f.sf.address, f.sf.code);
             && analysis.Lifted? && analysis.valid
             && RestatesPreState(t, f.sf, analysis.mnemonic)
             && IsNullStep(t, s, f.sf, nextPc, StepOf(t, s))
    ensures FrameOutcome(t, m, f, nextPc, skip, cacheReset).verdict == Success
  {
    var sf, s := f.sf, PreState(t, m, f.sf, cacheReset);
    var r, mnemonic := StepOf(t, s), MnemonicOf(t, s, f.sf);
    var after := AfterStep(t, s, r);
    forall o | o in sf.post ensures IsKnown(o) {
      var k :| 0 <= k < |sf.pre| && sf.pre[k] == o;
    }
    AllKnown(sf.post);
    forall i | 0 <= i < |sf.post|
      ensures IsPlainReg(t, sf.post[i]) ==> ValueMatches(t, after.arena, sf.post[i], mnemonic)
      ensures IsPlainReg(t, sf.post[i]) ==> ItemOf(t, sf.post[i]) != t.rz.profile.pc.value
      ensures IsCustomReg(t, sf.post[i]) ==> CustomMatches(t.kind, t.rz.profile, after.arena, RegOperandValue(sf.post[i]))
      ensures IsMem(sf.post[i]) ==> MemMatches(t, after.overlay, sf.post[i])
    {
      var o := sf.post[i];
      assert o in sf.post;
      if IsPlainReg(t, o) {
        PlainRegPasses(t, m, sf, cacheReset, r.pc, mnemonic, o);
        PlainRegIsNotPc(t, sf, mnemonic, o);
      }
      if IsCustomReg(t, o) { CustomRegPasses(t, m, sf, cacheReset, r.pc, mnemonic, o); }
      if IsMem(o) { MemPasses(t, m, sf, cacheReset, mnemonic, o); }
    }
    ResolvedPcWithoutOperand(t, sf.post, mnemonic, FallbackPc(sf, nextPc));
    assert Passes(t, s, sf, nextPc, r, mnemonic);
    SuccessExactly(t, m, f, nextPc, skip, cacheReset);
  }
}
