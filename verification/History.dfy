/** With the cache reset, a verdict depends on the frame and not on the frames before it. */
module History {
  import opened BitVectors
  import opened Trace
  import opened Registers
  import opened Vm
  import opened Adapters
  import opened FrameCheck

  datatype Job = Job(frame: Frame, nextPc: Option<U64>, skip: SkipRule)

  ghost function JobOutcome(t: Target, m: Machine, j: Job): Outcome {
    FrameOutcome(t, m, j.frame, j.nextPc, j.skip, true)
  }

  /** The state after checking some frames one after the other, whatever their verdicts. */
  ghost function After(t: Target, m: Machine, jobs: seq<Job>): Machine {
    if jobs == [] then m else JobOutcome(t, After(t, m, jobs[..|jobs| - 1]), jobs[|jobs| - 1]).machine
  }

  lemma ExecuteKeepsBits(t: Target, s: Machine, sf: StdFrame, nextPc: Option<U64>)
    requires t.rz.profile.pc.Some?
    ensures Execute(t, s, sf, nextPc).machine.bits == s.bits
  {
  }

  lemma StdOutcomeKeepsBits(t: Target, m: Machine, sf: StdFrame, nextPc: Option<U64>, skip: SkipRule, cacheReset: bool)
    ensures StdOutcome(t, m, sf, nextPc, skip, cacheReset).machine.bits == m.bits
  {
    if t.rz.profile.pc.Some? { ExecuteKeepsBits(t, Setup(t, m, sf, cacheReset), sf, nextPc); }
  }

  /** A frame changes the bits setting only by what it needs. */
  lemma BitsAfterFrame(t: Target, m: Machine, f: Frame, nextPc: Option<U64>, skip: SkipRule, cacheReset: bool)
    ensures FrameOutcome(t, m, f, nextPc, skip, cacheReset).machine.bits ==
            if f.NonStd? then m.bits else EffectiveBits(t, m.bits, f.sf)
  {
    if f.Std? { StdOutcomeKeepsBits(t, WithBits(t, m, f.sf), f.sf, nextPc, skip, cacheReset); }
  }

  lemma {:induction false} BitsNeverChange(t: Target, m: Machine, jobs: seq<Job>)
    requires forall mode :: RizinBits(t.kind, mode, t.machine) == 0
    ensures After(t, m, jobs).bits == m.bits
  {
    if jobs != [] {
      var n := |jobs| - 1;
      BitsNeverChange(t, m, jobs[..n]);
      BitsAfterFrame(t, After(t, m, jobs[..n]), jobs[n].frame, jobs[n].nextPc, jobs[n].skip, true);
    }
  }

  /** The bits setting is the only part of the state that survives the reset. */
  lemma OnlyBitsMatter(t: Target, m: Machine, m': Machine, f: Frame, nextPc: Option<U64>, skip: SkipRule)
    requires f.Std? ==> EffectiveBits(t, m.bits, f.sf) == EffectiveBits(t, m'.bits, f.sf)
    ensures var o, o' := FrameOutcome(t, m, f, nextPc, skip, true), FrameOutcome(t, m', f, nextPc, skip, true);
            && o.verdict == o'.verdict
            && o.testedId == o'.testedId
            && (ReachesSetup(t, m, f, skip) ==> o.machine == o'.machine)
  {
  }

  /** Any two histories give the same verdict, instruction id and, for a frame that gets as far
      as its setup, the same state. */
  lemma HistoryIndependence(t: Target, h: seq<Job>, h': seq<Job>, j: Job)
    requires BitsSettled(t.kind, t.machine)
    ensures var o := JobOutcome(t, After(t, InitialMachine(t), h), j);
            var o' := JobOutcome(t, After(t, InitialMachine(t), h'), j);
            && o.verdict == o'.verdict
            && o.testedId == o'.testedId
            && (ReachesSetup(t, After(t, InitialMachine(t), h), j.frame, j.skip) ==> o.machine == o'.machine)
  {
    if forall mode :: RizinBits(t.kind, mode, t.machine) == 0 {
      BitsNeverChange(t, InitialMachine(t), h);
      BitsNeverChange(t, InitialMachine(t), h');
    }
    OnlyBitsMatter(t, After(t, InitialMachine(t), h), After(t, InitialMachine(t), h'), j.frame, j.nextPc, j.skip);
  }

  /** A Rizin whose analysis plugin handles 64-bit code only, and whose default is 32 bits. */
  function Only64Bits(): Rizin {
    var pc := RegItem("pc", 0, 0, 1);
    Rizin(Profile({Cell(0, 0)}, map["pc" := pc], Some(pc), {}), b => ZERO_BYTE,
          true, 32, (bits, address, code) => None,
          (bits, overlay, address, code) => if bits == 64 then NotLifted else AnalysisFailed,
          (bits, arena, overlay) => StepFailed(NotSetUp, []))
  }

  function PlainFrame(mode: Option<Mode>): StdFrame {
    StdFrame(0, [ZERO_BYTE], [], [], mode)
  }

  lemma Only64BitsVerdict(t: Target, m: Machine, mode: Option<Mode>, nextPc: Option<U64>)
    requires t.rz == Only64Bits()
    ensures var o := FrameOutcome(t, m, Std(PlainFrame(mode)), nextPc, None, true);
            && o.verdict == (if EffectiveBits(t, m.bits, PlainFrame(mode)) == 64 then Unimplemented else InvalidOperation)
            && o.machine.bits == EffectiveBits(t, m.bits, PlainFrame(mode))
  {
  }

  /** When the bits are not settled, which is the case for PowerPC traces without a machine number,
      the verdict on a frame can depend on an earlier one. */
  lemma HistoryCanMatter(t: Target) returns (h: seq<Job>, j: Job)
    requires !BitsSettled(t.kind, t.machine) && t.rz == Only64Bits()
    ensures JobOutcome(t, After(t, InitialMachine(t), []), j).verdict != JobOutcome(t, After(t, InitialMachine(t), h), j).verdict
  {
    BitsSettledExactly(t.kind, t.machine);
    var earlier := Job(Std(PlainFrame(Some(Ppc64))), None, None);
    j := Job(Std(PlainFrame(None)), None, None);
    h := [earlier];
    assert h[..0] == [];
    var m := InitialMachine(t);
    Only64BitsVerdict(t, m, Some(Ppc64), None);
    Only64BitsVerdict(t, After(t, m, h), None, None);
    Only64BitsVerdict(t, m, None, None);
  }

  /** Verdicts do not depend on history, for every Rizin, exactly when the trace is not one of
      PowerPC without a machine number. */
  lemma IndependenceExactly(kind: AdapterKind, machine: U64)
    ensures !(kind.Ppc? && machine % TWO_TO_THE_32 == 0) <==>
            forall rz: Rizin, h, h', j :: VerdictsAgree(Target(kind, machine, rz), h, h', j)
  {
    BitsSettledExactly(kind, machine);
    if BitsSettled(kind, machine) {
      forall rz: Rizin, h, h', j ensures VerdictsAgree(Target(kind, machine, rz), h, h', j) {
        HistoryIndependence(Target(kind, machine, rz), h, h', j);
      }
    } else {
      var t := Target(kind, machine, Only64Bits());
      var h, j := HistoryCanMatter(t);
      assert !VerdictsAgree(Target(kind, machine, Only64Bits()), [], h, j);
    }
  }

  ghost predicate VerdictsAgree(t: Target, h: seq<Job>, h': seq<Job>, j: Job) {
    JobOutcome(t, After(t, InitialMachine(t), h), j).verdict == JobOutcome(t, After(t, InitialMachine(t), h'), j).verdict
  }
}
