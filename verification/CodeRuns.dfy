/** Runs without cache reset: the code of the trace stays visible to every frame, except where
    operands or stores overwrite it. */
module CodeRuns {
  import opened BitVectors
  import opened Trace
  import opened Memory
  import opened CodeMemory
  import opened Vm
  import opened FrameCheck
  import opened Soundness
  import opened PreStateMeaning
  import opened Driver

  ghost predicate NoStoreTo(events: seq<Event>, b: int) {
    forall k :: 0 <= k < |events| ==> !StoresTo(events[k], b)
  }

  /** Checking frame f in state m does not set byte b: no pre-operand has it and the step does not
      store to it. */
  ghost predicate Spares(t: Target, m: Machine, f: Frame, b: int) {
    f.Std? ==>
      SetsNoByte(f.sf.pre, b) && NoStoreTo(StepOf(t, PreState(t, m, f.sf, false)).events, b)
  }

  lemma SparedByPartialSetup(t: Target, m: Machine, sf: StdFrame, n: nat, b: int)
    requires n <= |sf.pre| && SetsNoByte(sf.pre, b)
    ensures ByteAt(t.rz.base, PartialSetup(t, m, sf, false, n).overlay, b) == ByteAt(t.rz.base, m.overlay, b)
  {
    assert forall j :: 0 <= j < n ==> sf.pre[..n][j] == sf.pre[j];
    ByteOutsideOfOperands(t.rz.base, sf.pre[..n], m.overlay, b);
  }

  lemma SparedByStep(t: Target, s: Machine, sf: StdFrame, nextPc: Option<U64>, b: int)
    requires t.rz.profile.pc.Some? && NoStoreTo(StepOf(t, s).events, b)
    ensures ByteAt(t.rz.base, Execute(t, s, sf, nextPc).machine.overlay, b) == ByteAt(t.rz.base, s.overlay, b)
  {
    UnstoredByteStays(t, s.overlay, StepOf(t, s).events, b);
  }

  lemma SparedByStdFrame(t: Target, m: Machine, sf: StdFrame, nextPc: Option<U64>, skip: SkipRule, b: int)
    requires SetsNoByte(sf.pre, b) && NoStoreTo(StepOf(t, Setup(t, m, sf, false)).events, b)
    ensures ByteAt(t.rz.base, StdOutcome(t, m, sf, nextPc, skip, false).machine.overlay, b) == ByteAt(t.rz.base, m.overlay, b)
  {
    if sf.code != [] && !IsSkipped(t, m.bits, sf, skip) && t.rz.profile.pc.Some? {
      SparedByPartialSetup(t, m, sf, KnownPrefix(sf.pre), b);
      if KnownPrefix(sf.pre) == |sf.pre| {
        var s := Setup(t, m, sf, false);
        assert s.overlay == PartialSetup(t, m, sf, false, |sf.pre|).overlay;
        SparedByStep(t, s, sf, nextPc, b);
      }
    }
  }

  /** A spared byte survives the check of a frame, on every path. */
  lemma SparedByFrame(t: Target, m: Machine, f: Frame, nextPc: Option<U64>, skip: SkipRule, b: int)
    requires Spares(t, m, f, b)
    ensures ByteAt(t.rz.base, FrameOutcome(t, m, f, nextPc, skip, false).machine.overlay, b) == ByteAt(t.rz.base, m.overlay, b)
  {
    if f.Std? { SparedByStdFrame(t, WithBits(t, m, f.sf), f.sf, nextPc, skip, b); }
  }

  /** The first k frames of a run spare byte b, each in the state that it is checked in. */
  ghost predicate RunSpares(t: Target, check: Check, trace: seq<Frame>, m: Machine, i: nat, k: nat, b: int)
    requires i + k <= |trace|
  {
    forall j :: 0 <= j < k ==> Spares(t, FinalMachine(m, Outcomes(check, m, i, j)), trace[i + j], b)
  }

  lemma {:induction false} SparedByRun(t: Target, check: Check, trace: seq<Frame>, opts: Options, m: Machine, i: nat, k: nat, b: int)
    requires ChecksFrames(check, t, trace, opts) && !opts.cacheReset
    requires i + k <= |trace| && RunSpares(t, check, trace, m, i, k, b)
    ensures ByteAt(t.rz.base, FinalMachine(m, Outcomes(check, m, i, k)).overlay, b) == ByteAt(t.rz.base, m.overlay, b)
  {
    if k > 0 {
      SparedByRun(t, check, trace, opts, m, i, k - 1, b);
      var m', j := FinalMachine(m, Outcomes(check, m, i, k - 1)), i + k - 1;
      assert Spares(t, m', trace[j], b);
      assert check(m', j) == FrameCheckOf(t, trace, opts, m', j);
      SparedByFrame(t, m', trace[j], NextPc(trace, j), opts.skip, b);
    }
  }

  lemma CodeAtStart(base: Base, trace: seq<Frame>, w: MemWrite, b: int)
    requires CodeIsReadable(trace) && w in AllWrites(trace) && Within(w, b)
    ensures ByteAt(base, ApplyMemWrites(map[], FirstWrites(trace)), b) == w.data[b - w.addr]
  {
    CodeReadsBackExactly(trace);
    assert IsStored(ApplyMemWrites(map[], FirstWrites(trace)), w);
  }

  /** The state in which frame i+k of a run is checked. */
  ghost function MachineAt(check: Check, m: Machine, i: nat, k: nat): Machine {
    FinalMachine(m, Outcomes(check, m, i, k))
  }

  /** In a run without cache reset, frame i+k is executed in a memory that holds the code of every
      frame of the trace, byte by byte, where its own pre-operands and the frames before it spare
      it; this needs the conditions under which the code can be read back at all. */
  lemma CodeVisibleToFrame(t: Target, check: Check, trace: seq<Frame>, opts: Options, m: Machine, i: nat, k: nat, w: MemWrite, b: int)
    requires ChecksFrames(check, t, trace, opts) && !opts.cacheReset && CodeIsReadable(trace)
    requires i + k < |trace| && trace[i + k].Std? && SetsNoByte(trace[i + k].sf.pre, b)
    requires RunSpares(t, check, trace, StartMachine(m, trace, opts), i, k, b)
    requires w in AllWrites(trace) && Within(w, b)
    ensures var m' := MachineAt(check, StartMachine(m, trace, opts), i, k);
            ByteAt(t.rz.base, PreState(t, m', trace[i + k].sf, false).overlay, b) == w.data[b - w.addr]
  {
    var start := StartMachine(m, trace, opts);
    var m' := MachineAt(check, start, i, k);
    CodeAtStart(t.rz.base, trace, w, b);
    SparedByRun(t, check, trace, opts, start, i, k, b);
    EntryBytesOfPreState(t, m', trace[i + k].sf, false, b);
    assert EntryMemory(m', trace[i + k].sf, false) == m'.overlay;
  }
}
