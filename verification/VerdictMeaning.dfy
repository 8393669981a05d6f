/** Which verdict, instruction id and state each exit of the check of a frame leaves, by the
    condition that leads to it. */
module VerdictMeaning {
  import opened BitVectors
  import opened Trace
  import opened Vm
  import opened Adapters
  import opened FrameCheck
  import opened Soundness

  predicate NamesNothing(o: Operand) {
    o.reg.None? && o.mem.None?
  }

  lemma KnownPrefixIsAll(ops: seq<Operand>)
    ensures KnownPrefix(ops) == |ops| <==> !exists i :: 0 <= i < |ops| && NamesNothing(ops[i])
  {
    if KnownPrefix(ops) < |ops| {
      assert NamesNothing(ops[KnownPrefix(ops)]);
    }
  }

  /** The frame has code whose disassembly, with the bits that the frame needs, is to be skipped. */
  predicate IsMatched(t: Target, m: Machine, f: Frame, skip: SkipRule) {
    && f.Std?
    && f.sf.code != []
    && skip.Some?
    && var need := RizinBits(t.kind, f.sf.mode, t.machine);
       var text := t.rz.disassemble(if need == 0 then m.bits else need, f.sf.address, f.sf.code);
       text.Some? && skip.value(text.value)
  }

  /** The frame has code and is not to be skipped. */
  predicate IsTried(t: Target, m: Machine, f: Frame, skip: SkipRule) {
    f.Std? && f.sf.code != [] && !IsMatched(t, m, f, skip)
  }

  /** The pre-state can be set up: there is a program counter and each pre-operand names something. */
  predicate IsSetUp(t: Target, m: Machine, f: Frame, skip: SkipRule) {
    && IsTried(t, m, f, skip)
    && t.rz.profile.pc.Some?
    && !exists i :: 0 <= i < |f.sf.pre| && NamesNothing(f.sf.pre[i])
  }

  function AnalysisOf(t: Target, m: Machine, f: Frame, cacheReset: bool): Analysis
    requires f.Std?
  {
    var s := PreState(t, m, f.sf, cacheReset);
    t.rz.analyze(s.bits, s.overlay, f.sf.address, f.sf.code)
  }

  /** The operation is lifted to valid IL, so that a step is taken. */
  predicate IsStepped(t: Target, m: Machine, f: Frame, skip: SkipRule, cacheReset: bool) {
    && IsSetUp(t, m, f, skip)
    && var analysis := AnalysisOf(t, m, f, cacheReset);
       analysis.Lifted? && analysis.valid
  }

  /** The step that is taken. */
  function StepFrom(t: Target, m: Machine, f: Frame, cacheReset: bool): StepResult
    requires f.Std?
  {
    StepOf(t, PreState(t, m, f.sf, cacheReset))
  }

  predicate StepFailsWith(t: Target, m: Machine, f: Frame, skip: SkipRule, cacheReset: bool, statuses: set<StepStatus>) {
    && IsStepped(t, m, f, skip, cacheReset)
    && StepFrom(t, m, f, cacheReset).StepFailed?
    && StepFrom(t, m, f, cacheReset).status in statuses
  }

  /** The step succeeds, and so there is something to compare. */
  predicate IsCompared(t: Target, m: Machine, f: Frame, skip: SkipRule, cacheReset: bool) {
    IsStepped(t, m, f, skip, cacheReset) && StepFrom(t, m, f, cacheReset).StepOk?
  }

  lemma SetUpIsReached(t: Target, m: Machine, f: Frame, skip: SkipRule)
    ensures IsSetUp(t, m, f, skip) <==> ReachesSetup(t, m, f, skip) && KnownPrefix(f.sf.pre) == |f.sf.pre|
  {
    if f.Std? { KnownPrefixIsAll(f.sf.pre); }
  }

  /** Frames whose pre-state is not set up. */
  lemma EarlyVerdict(t: Target, m: Machine, f: Frame, nextPc: Option<U64>, skip: SkipRule, cacheReset: bool)
    requires !IsSetUp(t, m, f, skip)
    ensures var o := FrameOutcome(t, m, f, nextPc, skip, cacheReset);
            && o.testedId == None
            && o.verdict == (if f.NonStd? then Unimplemented
                             else if f.sf.code == [] then InvalidOperation
                             else if IsMatched(t, m, f, skip) then Skipped
                             else Unimplemented)
            && (!IsTried(t, m, f, skip) || t.rz.profile.pc.None? ==> o.machine.arena == m.arena && o.machine.overlay == m.overlay)
  {
    SetUpIsReached(t, m, f, skip);
  }

  /** Frames whose pre-state is set up: the rest of the check. */
  lemma OutcomeAfterSetup(t: Target, m: Machine, f: Frame, nextPc: Option<U64>, skip: SkipRule, cacheReset: bool)
    requires IsSetUp(t, m, f, skip)
    ensures FrameOutcome(t, m, f, nextPc, skip, cacheReset) == Execute(t, PreState(t, m, f.sf, cacheReset), f.sf, nextPc)
  {
    SetUpIsReached(t, m, f, skip);
  }

  /** Frames for which no step is taken. */
  lemma UnsteppedVerdict(t: Target, m: Machine, f: Frame, nextPc: Option<U64>, skip: SkipRule, cacheReset: bool)
    requires IsSetUp(t, m, f, skip) && !IsStepped(t, m, f, skip, cacheReset)
    ensures var o := FrameOutcome(t, m, f, nextPc, skip, cacheReset);
            var analysis := AnalysisOf(t, m, f, cacheReset);
            && o.verdict == (if analysis.NotLifted? then Unimplemented else InvalidOperation)
            && o.testedId == (if analysis.Lifted? then Some(analysis.id) else None)
            && o.machine == PreState(t, m, f.sf, cacheReset)
  {
    OutcomeAfterSetup(t, m, f, nextPc, skip, cacheReset);
  }

  /** Frames for which a step is taken. */
  lemma SteppedVerdict(t: Target, m: Machine, f: Frame, nextPc: Option<U64>, skip: SkipRule, cacheReset: bool)
    requires IsStepped(t, m, f, skip, cacheReset)
    ensures var o := FrameOutcome(t, m, f, nextPc, skip, cacheReset);
            var s := PreState(t, m, f.sf, cacheReset);
            var r := StepFrom(t, m, f, cacheReset);
            && o.testedId == Some(AnalysisOf(t, m, f, cacheReset).id)
            && o.machine == AfterStep(t, s, r)
            && (r.StepFailed? ==>
                  && (o.verdict == VMRuntimeError <==> r.status in {RuntimeError, NotSetUp})
                  && (o.verdict == InvalidOperation <==> r.status == InvalidOp)
                  && (o.verdict == Unimplemented <==> r.status == UnimplementedIl)
                  && (o.verdict == InvalidIL <==> r.status == OtherFailure))
            && (r.StepOk? ==>
                  && o.verdict in {Success, PostStateMismatch, Unimplemented}
                  && (o.verdict == Unimplemented <==> exists i :: 0 <= i < |f.sf.post| && NamesNothing(f.sf.post[i]))
                  && (o.verdict == Success <==> Passes(t, s, f.sf, nextPc, r, MnemonicOf(t, s, f.sf))))
  {
    OutcomeAfterSetup(t, m, f, nextPc, skip, cacheReset);
    KnownPrefixIsAll(f.sf.post);
  }

  /** For each verdict, exactly the frames that get it. */
  lemma VerdictExactly(t: Target, m: Machine, f: Frame, nextPc: Option<U64>, skip: SkipRule, cacheReset: bool)
    ensures var v := FrameOutcome(t, m, f, nextPc, skip, cacheReset).verdict;
            && (v == Skipped <==> IsMatched(t, m, f, skip))
            && (v == VMRuntimeError <==> StepFailsWith(t, m, f, skip, cacheReset, {RuntimeError, NotSetUp}))
            && (v == InvalidIL <==> StepFailsWith(t, m, f, skip, cacheReset, {OtherFailure}))
            && (v == InvalidOperation <==>
                  || (f.Std? && f.sf.code == [])
                  || (IsSetUp(t, m, f, skip) && !IsStepped(t, m, f, skip, cacheReset) && !AnalysisOf(t, m, f, cacheReset).NotLifted?)
                  || StepFailsWith(t, m, f, skip, cacheReset, {InvalidOp}))
            && (v == Unimplemented <==>
                  || f.NonStd?
                  || (IsTried(t, m, f, skip) && !IsSetUp(t, m, f, skip))
                  || (IsSetUp(t, m, f, skip) && AnalysisOf(t, m, f, cacheReset).NotLifted?)
                  || StepFailsWith(t, m, f, skip, cacheReset, {UnimplementedIl})
                  || (IsCompared(t, m, f, skip, cacheReset) && exists i :: 0 <= i < |f.sf.post| && NamesNothing(f.sf.post[i])))
            && (v in {Success, PostStateMismatch} <==>
                  IsCompared(t, m, f, skip, cacheReset) && !exists i :: 0 <= i < |f.sf.post| && NamesNothing(f.sf.post[i]))
  {
    if !IsSetUp(t, m, f, skip) {
      EarlyVerdict(t, m, f, nextPc, skip, cacheReset);
    } else if !IsStepped(t, m, f, skip, cacheReset) {
      UnsteppedVerdict(t, m, f, nextPc, skip, cacheReset);
    } else {
      SteppedVerdict(t, m, f, nextPc, skip, cacheReset);
    }
  }

  /** An instruction id is reported exactly for a frame that is lifted, valid or not. */
  lemma IdExactly(t: Target, m: Machine, f: Frame, nextPc: Option<U64>, skip: SkipRule, cacheReset: bool, id: U64)
    ensures FrameOutcome(t, m, f, nextPc, skip, cacheReset).testedId == Some(id) <==>
              && IsSetUp(t, m, f, skip)
              && var analysis := AnalysisOf(t, m, f, cacheReset);
                 analysis.Lifted? && analysis.id == id
  {
    if !IsSetUp(t, m, f, skip) {
      EarlyVerdict(t, m, f, nextPc, skip, cacheReset);
    } else if !IsStepped(t, m, f, skip, cacheReset) {
      UnsteppedVerdict(t, m, f, nextPc, skip, cacheReset);
    } else {
      SteppedVerdict(t, m, f, nextPc, skip, cacheReset);
    }
  }
}
