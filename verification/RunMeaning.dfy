/** What a run over a trace means for each of its frames. */
module RunMeaning {
  import opened BitVectors
  import opened Trace
  import opened Registers
  import opened Adapters
  import opened AdapterMeaning
  import opened FrameCheck
  import opened Soundness
  import opened VerdictMeaning
  import opened Agreement
  import opened History
  import opened Driver

  /** The state in which frame k of a run is checked: the one that the frame before it left. */
  function StateBefore(m: Machine, outs: seq<Outcome>, k: nat): Machine
    requires k < |outs|
  {
    if k == 0 then m else outs[k - 1].machine
  }

  /** The address of the next frame, if there is one and it is a standard frame. */
  function NextAddress(trace: seq<Frame>, i: nat): Option<U64> {
    if i + 1 < |trace| then
      match trace[i + 1]
      case Std(sf) => Some(sf.address)
      case NonStd => None
    else None
  }

  /** Each outcome of a run is that of its frame, with the next frame of the trace in view. */
  lemma OutcomeInRun(t: Target, trace: seq<Frame>, opts: Options, m: Machine, i: nat, count: nat, outs: seq<Outcome>, k: nat)
    requires IsRun(TraceCheck(t, trace, opts), m, |trace|, i, count, opts.flags, outs) && k < |outs|
    ensures i + k < |trace|
    ensures outs[k] == FrameOutcome(t, StateBefore(m, outs, k), trace[i + k], NextAddress(trace, i + k), opts.skip, opts.cacheReset)
  {
    var check := TraceCheck(t, trace, opts);
    OutcomeOfFrame(check, m, i, k, |outs|);
    assert check(StateBefore(m, outs, k), i + k) == FrameCheckOf(t, trace, opts, StateBefore(m, outs, k), i + k);
  }

  /** A frame of a run got Success exactly when its step was taken, its post-operands all name
      something and the state that it left agrees with the frame. */
  lemma SuccessInRun(t: Target, trace: seq<Frame>, opts: Options, m: Machine, i: nat, count: nat, outs: seq<Outcome>, k: nat)
    requires IsRun(TraceCheck(t, trace, opts), m, |trace|, i, count, opts.flags, outs) && k < |outs|
    requires WellFormed(t.rz.profile) && SubregsExist(t.kind, t.rz.profile)
    ensures i + k < |trace|
    ensures var before, f := StateBefore(m, outs, k), trace[i + k];
            outs[k].verdict == Success <==>
              && IsCompared(t, before, f, opts.skip, opts.cacheReset)
              && (forall j :: 0 <= j < |f.sf.post| ==> !NamesNothing(f.sf.post[j]))
              && Agrees(t, outs[k].machine, f.sf, NextAddress(trace, i + k),
                        StepFrom(t, before, f, opts.cacheReset), AnalysisOf(t, before, f, opts.cacheReset).mnemonic)
  {
    OutcomeInRun(t, trace, opts, m, i, count, outs, k);
    SuccessIsAgreement(t, StateBefore(m, outs, k), trace[i + k], NextAddress(trace, i + k), opts.skip, opts.cacheReset);
  }

  /** After a frame without an operand for the program counter that got Success, execution is at
      the next frame of the trace; behind its own code if the trace ends there or goes on with
      another kind of frame. With such an operand it is where the last of them says. */
  lemma PcInRun(t: Target, trace: seq<Frame>, opts: Options, m: Machine, i: nat, count: nat, outs: seq<Outcome>, k: nat)
    requires IsRun(TraceCheck(t, trace, opts), m, |trace|, i, count, opts.flags, outs) && k < |outs|
    requires WellFormed(t.rz.profile) && ChecksPcExactly(t.kind) && outs[k].verdict == Success
    ensures i + k < |trace| && trace[i + k].Std? && t.rz.profile.pc.Some?
    ensures var sf := trace[i + k].sf;
            var room := Pow2(t.rz.profile.pc.value.size);
            var pc := ToU64(ReadReg(outs[k].machine.arena, t.rz.profile.pc.value));
            && (NoneForPc(t, sf.post) ==>
                  if i + k + 1 < |trace| && trace[i + k + 1].Std? then pc == trace[i + k + 1].sf.address % room
                  else pc == (sf.address + |sf.code|) % TWO_TO_THE_64 % room)
            && forall j :: 0 <= j < |sf.post| && IsLastForPc(t, sf.post, j) ==>
                 && (IsTakenAsIs(t.kind, sf.post[j].reg.value) ==> pc == OperandNumber(sf.post[j]) % TWO_TO_THE_64 % room)
                 && (t.kind.GameBoy? && sf.post[j].reg.value == "pc" ==> pc == OperandNumber(sf.post[j]) % 0x1_0000 % room)
  {
    OutcomeInRun(t, trace, opts, m, i, count, outs, k);
    var before, f, next := StateBefore(m, outs, k), trace[i + k], NextAddress(trace, i + k);
    PcMeaningOfSuccess(t, before, f, next, opts.skip, opts.cacheReset);
    var mnemonic := MnemonicOf(t, PreState(t, before, f.sf, opts.cacheReset), f.sf);
    forall j | 0 <= j < |f.sf.post| && IsLastForPc(t, f.sf.post, j) ensures NumberAsSaid(t.kind, f.sf.post[j], mnemonic)
    {
      NumberOfPcOperand(t.kind, f.sf.post[j], mnemonic);
    }
    forall j, j' | 0 <= j < |f.sf.post| && IsLastForPc(t, f.sf.post, j) && 0 <= j' < |f.sf.post| && IsLastForPc(t, f.sf.post, j')
      ensures j == j'
    {
    }
  }

  /** The number of an operand is that of its bytes, where the adapter has no rule for it. */
  predicate NumberAsSaid(kind: AdapterKind, o: Operand, mnemonic: Option<string>)
    requires o.reg.Some?
  {
    && (IsTakenAsIs(kind, o.reg.value) ==> TraceNumber(kind, o, mnemonic) == OperandNumber(o) % TWO_TO_THE_64)
    && (kind.GameBoy? && o.reg.value == "pc" ==> TraceNumber(kind, o, mnemonic) == OperandNumber(o) % 0x1_0000)
  }

  lemma NumberOfPcOperand(kind: AdapterKind, o: Operand, mnemonic: Option<string>)
    requires o.reg.Some?
    ensures NumberAsSaid(kind, o, mnemonic)
  {
    if IsTakenAsIs(kind, o.reg.value) { NumberTakenAsIs(kind, o, mnemonic); }
    if kind.GameBoy? && o.reg.value == "pc" { NumberOfGameBoyPc(o, mnemonic); }
  }

  // ----- The bits setting

  /** Frame f requests a setting. */
  predicate Requests(t: Target, f: Frame) {
    f.Std? && RizinBits(t.kind, f.sf.mode, t.machine) != 0
  }

  lemma BitsAfterOutcome(t: Target, trace: seq<Frame>, opts: Options, m: Machine, i: nat, count: nat, outs: seq<Outcome>, k: nat)
    requires IsRun(TraceCheck(t, trace, opts), m, |trace|, i, count, opts.flags, outs) && k < |outs|
    ensures i + k < |trace|
    ensures outs[k].machine.bits == if Requests(t, trace[i + k]) then RizinBits(t.kind, trace[i + k].sf.mode, t.machine)
                                    else StateBefore(m, outs, k).bits
  {
    OutcomeInRun(t, trace, opts, m, i, count, outs, k);
    BitsAfterFrame(t, StateBefore(m, outs, k), trace[i + k], NextAddress(trace, i + k), opts.skip, opts.cacheReset);
  }

  lemma {:induction false} BitsStay(t: Target, trace: seq<Frame>, opts: Options, m: Machine, i: nat, count: nat, outs: seq<Outcome>, j: nat, k: nat)
    requires IsRun(TraceCheck(t, trace, opts), m, |trace|, i, count, opts.flags, outs) && j <= k < |outs|
    requires forall l :: i + j < l <= i + k ==> !Requests(t, trace[l])
    ensures outs[k].machine.bits == outs[j].machine.bits
  {
    if j < k {
      BitsAfterOutcome(t, trace, opts, m, i, count, outs, k);
      BitsStay(t, trace, opts, m, i, count, outs, j, k - 1);
    }
  }

  /** The setting after frame k is the one that the latest frame with a request asked for; here j is
      that frame. */
  lemma BitsInRun(t: Target, trace: seq<Frame>, opts: Options, m: Machine, i: nat, count: nat, outs: seq<Outcome>, j: nat, k: nat)
    requires IsRun(TraceCheck(t, trace, opts), m, |trace|, i, count, opts.flags, outs) && j <= k < |outs|
    requires Requests(t, trace[i + j]) && forall l :: i + j < l <= i + k ==> !Requests(t, trace[l])
    ensures outs[k].machine.bits == RizinBits(t.kind, trace[i + j].sf.mode, t.machine)
  {
    BitsStay(t, trace, opts, m, i, count, outs, j, k);
    BitsAfterOutcome(t, trace, opts, m, i, count, outs, j);
  }

  /** Without a request it is the one from before the run; for a new emulator that is the one of the
      machine number, else the default. */
  lemma BitsWithoutRequest(t: Target, trace: seq<Frame>, opts: Options, i: nat, count: nat, outs: seq<Outcome>, k: nat)
    requires IsRun(TraceCheck(t, trace, opts), InitialMachine(t), |trace|, i, count, opts.flags, outs) && k < |outs|
    requires forall l :: i <= l <= i + k ==> !Requests(t, trace[l])
    ensures outs[k].machine.bits ==
            if RizinBits(t.kind, None, t.machine) == 0 then t.rz.defaultBits else RizinBits(t.kind, None, t.machine)
  {
    BitsStay(t, trace, opts, InitialMachine(t), i, count, outs, 0, k);
    BitsAfterOutcome(t, trace, opts, InitialMachine(t), i, count, outs, 0);
  }
}
