/** The emulator that checks one frame at a time: it rewrites the register arena and the memory
    cache for each frame, takes one VM step and compares in loops. */
module Emulator {
  import opened BitVectors
  import opened Trace
  import opened Coverage
  import opened Registers
  import opened Memory
  import opened Vm
  import opened Adapters
  import opened FrameCheck
  import opened CodeMemory
  import opened AdapterMeaning
  import opened EventMeaning
  import opened Agreement

  // ----- Setup

  /** What one pre-operand does to the state. */
  function AfterPreOperand(t: Target, s: Machine, o: Operand): Machine {
    Machine(s.bits, ApplyWrites(s.arena, PreWrites(t, o)),
            if IsMem(o) then WriteBytes(s.overlay, o.mem.value, MemOperandValue(o)) else s.overlay)
  }

  lemma PartialSetupStep(t: Target, m: Machine, sf: StdFrame, cacheReset: bool, k: nat)
    requires k < |sf.pre|
    ensures PartialSetup(t, m, sf, cacheReset, k + 1) == AfterPreOperand(t, PartialSetup(t, m, sf, cacheReset, k), sf.pre[k])
  {
    SetupRegsOneMore(t, sf.pre, k, ZeroArena(t.rz.profile));
    SetupMemOneMore(sf.pre, k, EntryMemory(m, sf, cacheReset));
  }

  lemma KnownPrefixEndsAt(ops: seq<Operand>, k: nat)
    requires k < |ops| && k <= KnownPrefix(ops)
    ensures IsKnown(ops[k]) <==> k < KnownPrefix(ops)
  {
  }

  // ----- Occurrences of register names

  predicate HasName(t: Target, o: Operand, name: string) {
    o.reg.Some? && RizinName(t, o) == name
  }

  function Occurrences(t: Target, ops: seq<Operand>, name: string): (n: nat)
    ensures n <= |ops|
  {
    if ops == [] then 0 else (if HasName(t, ops[0], name) then 1 else 0) + Occurrences(t, ops[1..], name)
  }

  lemma OccurrencesStep(t: Target, ops: seq<Operand>, k: nat, name: string)
    requires k < |ops|
    ensures Occurrences(t, ops[k..], name) ==
            (if HasName(t, ops[k], name) then 1 else 0) + Occurrences(t, ops[k + 1..], name)
  {
    assert ops[k..][1..] == ops[k + 1..];
  }

  lemma {:induction false} OccursSomewhere(t: Target, ops: seq<Operand>, name: string)
    ensures Occurrences(t, ops, name) > 0 <==> exists j :: 0 <= j < |ops| && HasName(t, ops[j], name)
  {
    if ops != [] {
      OccursSomewhere(t, ops[1..], name);
      if exists j :: 0 <= j < |ops| && HasName(t, ops[j], name) {
        var j :| 0 <= j < |ops| && HasName(t, ops[j], name);
        assert j > 0 ==> HasName(t, ops[1..][j - 1], name);
      }
      if Occurrences(t, ops[1..], name) > 0 {
        var j :| 0 <= j < |ops[1..]| && HasName(t, ops[1..][j], name);
        assert HasName(t, ops[j + 1], name);
      }
    }
  }

  /** An operand is the last one of its name exactly when none of its name remains. */
  lemma LastHasNoneRemaining(t: Target, ops: seq<Operand>, k: nat)
    requires k < |ops| && ops[k].reg.Some?
    ensures IsLastOfName(t, ops, k) <==> Occurrences(t, ops[k + 1..], RizinName(t, ops[k])) == 0
  {
    var name, rest := RizinName(t, ops[k]), ops[k + 1..];
    OccursSomewhere(t, rest, name);
    if !IsLastOfName(t, ops, k) {
      var j :| k < j < |ops| && ops[j].reg.Some? && RizinName(t, ops[j]) == name;
      assert HasName(t, rest[j - k - 1], name);
    }
    if exists j :: 0 <= j < |rest| && HasName(t, rest[j], name) {
      var j :| 0 <= j < |rest| && HasName(t, rest[j], name);
      assert rest[j] == ops[k + 1 + j];
    }
  }

  /** The counters hold, for each register that is still to be compared, how often it remains. */
  ghost predicate CountersExact(t: Target, ops: seq<Operand>, k: nat, counters: map<string, int>)
    requires k <= |ops|
  {
    forall j :: k <= j < |ops| && IsPlainReg(t, ops[j]) ==>
      && RizinName(t, ops[j]) in counters
      && counters[RizinName(t, ops[j])] == Occurrences(t, ops[k..], RizinName(t, ops[j]))
  }

  lemma CountersAtStart(t: Target, ops: seq<Operand>, counters: map<string, int>)
    requires forall name :: name != "" ==> (name in counters <==> Occurrences(t, ops, name) > 0)
    requires forall name :: name in counters ==> counters[name] == Occurrences(t, ops, name)
    ensures CountersExact(t, ops, 0, counters)
  {
    assert ops[0..] == ops;
    forall j | 0 <= j < |ops| && IsPlainReg(t, ops[j]) ensures RizinName(t, ops[j]) in counters {
      OccursSomewhere(t, ops, RizinName(t, ops[j]));
      assert HasName(t, ops[j], RizinName(t, ops[j]));
    }
  }

  /** An operand that is not compared shares its name with none that is. */
  lemma CountersSkip(t: Target, ops: seq<Operand>, k: nat, counters: map<string, int>)
    requires k < |ops| && CountersExact(t, ops, k, counters) && !IsPlainReg(t, ops[k])
    ensures CountersExact(t, ops, k + 1, counters)
  {
    forall j | k + 1 <= j < |ops| && IsPlainReg(t, ops[j])
      ensures counters[RizinName(t, ops[j])] == Occurrences(t, ops[k + 1..], RizinName(t, ops[j]))
    {
      OccurrencesStep(t, ops, k, RizinName(t, ops[j]));
      if HasName(t, ops[k], RizinName(t, ops[j])) {
        CustomHandlingByRizinName(t.kind, ops[k].reg.value, ops[j].reg.value);
        assert false;
      }
    }
  }

  lemma CountersCompared(t: Target, ops: seq<Operand>, k: nat, counters: map<string, int>)
    requires k < |ops| && CountersExact(t, ops, k, counters) && IsPlainReg(t, ops[k])
    ensures var name := RizinName(t, ops[k]);
            && name in counters
            && (counters[name] <= 1 <==> IsLastOfName(t, ops, k))
            && CountersExact(t, ops, k + 1, counters[name := counters[name] - 1])
            && (IsLastOfName(t, ops, k) ==> CountersExact(t, ops, k + 1, counters))
  {
    var name := RizinName(t, ops[k]);
    OccurrencesStep(t, ops, k, name);
    LastHasNoneRemaining(t, ops, k);
    forall j | k + 1 <= j < |ops| && IsPlainReg(t, ops[j])
      ensures RizinName(t, ops[j]) != name ==>
        counters[RizinName(t, ops[j])] == Occurrences(t, ops[k + 1..], RizinName(t, ops[j]))
    {
      OccurrencesStep(t, ops, k, RizinName(t, ops[j]));
    }
  }

  // ----- Comparison, one operand at a time

  /** Post-operand number i is a reason for a mismatch. */
  predicate OperandMismatches(t: Target, m: Machine, ops: seq<Operand>, i: nat, mnemonic: Option<string>)
    requires i < |ops|
  {
    var o := ops[i];
    || (IsPlainReg(t, o) && IsLastOfName(t, ops, i) && !ValueMatches(t, m.arena, o, mnemonic)
        && !IgnorePostMismatchReg(t.kind, ItemOf(t, o).name))
    || (IsCustomReg(t, o) && !CustomMatches(t.kind, t.rz.profile, m.arena, RegOperandValue(o)))
    || (IsMem(o) && !IgnoreCompareMemMismatch(t.kind) && !MemMatches(t, m.overlay, o))
  }

  /** One of the first n post-operands is a reason for a mismatch. */
  predicate SomeMismatch(t: Target, m: Machine, ops: seq<Operand>, n: nat, mnemonic: Option<string>)
    requires n <= |ops|
  {
    exists i :: 0 <= i < n && OperandMismatches(t, m, ops, i, mnemonic)
  }

  lemma SomeMismatchStep(t: Target, m: Machine, ops: seq<Operand>, k: nat, mnemonic: Option<string>)
    requires k < |ops|
    ensures SomeMismatch(t, m, ops, k + 1, mnemonic) <==>
            SomeMismatch(t, m, ops, k, mnemonic) || OperandMismatches(t, m, ops, k, mnemonic)
  {
  }

  lemma NoMismatchIsMatch(t: Target, m: Machine, ops: seq<Operand>, mnemonic: Option<string>)
    ensures !SomeMismatch(t, m, ops, |ops|, mnemonic) <==>
            RegsMatch(t, m.arena, ops, mnemonic) && CustomsMatch(t, m.arena, ops) && MemsMatch(t, m.overlay, ops)
  {
    if !SomeMismatch(t, m, ops, |ops|, mnemonic) {
      forall i | 0 <= i < |ops|
        ensures IsPlainReg(t, ops[i]) && IsLastOfName(t, ops, i) ==>
                  ValueMatches(t, m.arena, ops[i], mnemonic) || IgnorePostMismatchReg(t.kind, ItemOf(t, ops[i]).name)
        ensures IsCustomReg(t, ops[i]) ==> CustomMatches(t.kind, t.rz.profile, m.arena, RegOperandValue(ops[i]))
        ensures IsMem(ops[i]) && !IgnoreCompareMemMismatch(t.kind) ==> MemMatches(t, m.overlay, ops[i])
      {
        assert !OperandMismatches(t, m, ops, i, mnemonic);
      }
    }
  }

  lemma ResolvedPcStep(t: Target, ops: seq<Operand>, k: nat, mnemonic: Option<string>, fallback: U64)
    requires k < |ops|
    ensures ResolvedPc(t, ops[..k + 1], mnemonic, fallback) ==
            if IsPlainReg(t, ops[k]) && t.rz.profile.pc == Some(ItemOf(t, ops[k]))
            then ToU64(AdjustFromTrace(t.kind, ops[k].reg.value, RegOperandValue(ops[k]), mnemonic))
            else ResolvedPc(t, ops[..k], mnemonic, fallback)
  {
    assert ops[..k + 1][..k] == ops[..k];
  }

  class RizinEmulator {
    const rz: Rizin
    const adapter: TraceAdapter
    const reg: RzReg
    var bits: int
    var overlay: Overlay

    ghost predicate Valid() {
      reg.profile == rz.profile && SubregsExist(adapter.kind, rz.profile)
    }

    function T(): Target {
      Target(adapter.kind, adapter.machine, rz)
    }

    function Snapshot(): Machine
      reads this, reg
    {
      Machine(bits, reg.arena, overlay)
    }

    constructor (rz: Rizin, adapter: TraceAdapter)
      requires SubregsExist(adapter.kind, rz.profile)
      ensures Valid() && this.rz == rz && this.adapter == adapter && fresh(reg)
      ensures Snapshot() == InitialMachine(T())
    {
      this.rz, this.adapter := rz, adapter;
      var need := RizinBits(adapter.kind, None, adapter.machine);
      bits := if need != 0 then need else rz.defaultBits;
      overlay := map[];
      reg := new RzReg(rz.profile);
    }

    /** Used when the cache is not reset for each frame. */
    method SetMem(trace: seq<Frame>) returns (totalWritten: nat)
      modifies this`overlay
      ensures overlay == ApplyMemWrites(map[], FirstWrites(trace))
      ensures totalWritten == TotalSize(FirstWrites(trace))
    {
      overlay, totalWritten := map[], 0;
      var written: set<int> := {};
      for k := 0 to |trace|
        invariant forall a :: a in written <==> SeenBefore(trace, k, a)
        invariant overlay == ApplyMemWrites(map[], FirstWrites(trace[..k]))
        invariant totalWritten == TotalSize(FirstWrites(trace[..k]))
      {
        FirstWritesStep(trace, k);
        SeenBeforeStep(trace, k);
        if trace[k].NonStd? { continue; }
        var sf := trace[k].sf;
        if sf.address in written { continue; }
        written := written + {sf.address};
        overlay := WriteBytes(overlay, sf.address, sf.code);
        totalWritten := totalWritten + |sf.code|;
      }
      assert trace[..|trace|] == trace;
    }

    method GetPostOpMap(ops: seq<Operand>) returns (counters: map<string, int>)
      ensures forall name :: name != "" ==> (name in counters <==> Occurrences(T(), ops, name) > 0)
      ensures forall name :: name in counters ==> name != "" && counters[name] == Occurrences(T(), ops, name)
    {
      counters := map[];
      for k := 0 to |ops|
        invariant "" !in counters
        invariant forall name :: name in counters ==>
                    counters[name] > 0 && counters[name] + Occurrences(T(), ops[k..], name) == Occurrences(T(), ops, name)
        invariant forall name :: name != "" && name !in counters ==>
                    Occurrences(T(), ops[k..], name) == Occurrences(T(), ops, name)
      {
        forall name ensures Occurrences(T(), ops[k..], name) ==
            (if HasName(T(), ops[k], name) then 1 else 0) + Occurrences(T(), ops[k + 1..], name)
        {
          OccurrencesStep(T(), ops, k, name);
        }
        if ops[k].reg.None? { continue; }
        var name := TraceRegToRizin(adapter.kind, ops[k].reg.value);
        if name == "" { continue; }
        if name in counters {
          counters := counters[name := counters[name] + 1];
        } else {
          counters := counters[name := 1];
        }
      }
    }

    /** The body of the setup loop. */
    method ApplyPreOperand(o: Operand)
      requires Valid() && IsKnown(o)
      modifies this`overlay, reg
      ensures Snapshot() == AfterPreOperand(T(), old(Snapshot()), o)
    {
      if o.reg.Some? {
        var name := TraceRegToRizin(adapter.kind, o.reg.value);
        if name == "" { return; }
        if RegNeedsCustomHandling(adapter.kind, o.reg.value) {
          adapter.CustomRegSetup(reg, o.reg.value, RegOperandValue(o));
          return;
        }
        if name !in reg.profile.items { return; }
        var ri := reg.profile.items[name];
        var v := AdjustFromTrace(adapter.kind, o.reg.value, RegOperandValue(o), None);
        SingleWrite(reg.arena, RegWrite(ri, v));
        reg.SetBv(ri, v);
      } else {
        overlay := WriteBytes(overlay, o.mem.value, MemOperandValue(o));
      }
    }

    /** Memory and registers before the pre-operands are applied. */
    method ResetState(sf: StdFrame, cacheReset: bool)
      requires Valid()
      modifies this`overlay, reg
      ensures Snapshot() == PartialSetup(T(), old(Snapshot()), sf, cacheReset, 0)
    {
      if cacheReset {
        overlay := map[];
        overlay := WriteBytes(overlay, sf.address, sf.code);
      }
      reg.arena := ZeroArena(reg.profile);
    }

    /** The setup loop. */
    method ApplyPreOperands(sf: StdFrame, ghost m: Machine, ghost cacheReset: bool) returns (known: bool)
      requires Valid() && Snapshot() == PartialSetup(T(), m, sf, cacheReset, 0)
      modifies this`overlay, reg
      ensures known <==> KnownPrefix(sf.pre) == |sf.pre|
      ensures Snapshot() == PartialSetup(T(), m, sf, cacheReset, KnownPrefix(sf.pre))
    {
      for k := 0 to |sf.pre|
        invariant k <= KnownPrefix(sf.pre)
        invariant Snapshot() == PartialSetup(T(), m, sf, cacheReset, k)
      {
        KnownPrefixEndsAt(sf.pre, k);
        if sf.pre[k].reg.None? && sf.pre[k].mem.None? {
          return false;
        }
        PartialSetupStep(T(), m, sf, cacheReset, k);
        ApplyPreOperand(sf.pre[k]);
      }
      return true;
    }

    method SetupPreState(sf: StdFrame, cacheReset: bool) returns (known: bool)
      requires Valid()
      modifies this`overlay, reg
      ensures known <==> KnownPrefix(sf.pre) == |sf.pre|
      ensures Snapshot() ==
        if known then Setup(T(), old(Snapshot()), sf, cacheReset)
        else PartialSetup(T(), old(Snapshot()), sf, cacheReset, KnownPrefix(sf.pre))
    {
      ghost var m := Snapshot();
      ResetState(sf, cacheReset);
      known := ApplyPreOperands(sf, m, cacheReset);
      if known {
        reg.arena := SetPc(reg.profile, reg.arena, sf.address);
      }
    }

    /** The body of the first comparison loop, for post-operand number k. */
    method ComparePostOperand(ops: seq<Operand>, k: nat, mnemonic: Option<string>, counters: map<string, int>, pc: U64)
      returns (mismatch: bool, counters': map<string, int>, pcExpect: U64)
      requires Valid() && k < |ops| && IsKnown(ops[k]) && CountersExact(T(), ops, k, counters)
      modifies adapter
      ensures mismatch <==> OperandMismatches(T(), Snapshot(), ops, k, mnemonic)
      ensures CountersExact(T(), ops, k + 1, counters')
      ensures pcExpect == if IsPlainReg(T(), ops[k]) && rz.profile.pc == Some(ItemOf(T(), ops[k]))
                          then ToU64(AdjustFromTrace(adapter.kind, ops[k].reg.value, RegOperandValue(ops[k]), mnemonic))
                          else pc
    {
      mismatch, counters', pcExpect := false, counters, pc;
      var o := ops[k];
      if !IsPlainReg(T(), o) { CountersSkip(T(), ops, k, counters); }
      if o.reg.Some? {
        var name := TraceRegToRizin(adapter.kind, o.reg.value);
        if name == "" { return; }
        if RegNeedsCustomHandling(adapter.kind, o.reg.value) {
          var matches := adapter.CustomRegCompare(reg, o.reg.value, RegOperandValue(o));
          mismatch := !matches;
          return;
        }
        if name !in reg.profile.items { return; }
        var ri := reg.profile.items[name];
        var tbv := AdjustFromTrace(adapter.kind, o.reg.value, RegOperandValue(o), mnemonic);
        var rbv := AdjustFromRizin(adapter.kind, o.reg.value, ReadReg(reg.arena, ri));
        if Some(ri) == reg.profile.pc {
          pcExpect := ToU64(tbv);
        }
        CountersCompared(T(), ops, k, counters);
        if tbv != rbv && counters[name] <= 1 && !IgnorePostMismatchReg(adapter.kind, ri.name) {
          mismatch := true;
        } else {
          counters' := counters[name := counters[name] - 1];
        }
      } else {
        if IgnoreCompareMemMismatch(adapter.kind) { return; }
        var actual := ReadBytes(rz.base, overlay, o.mem.value, MemOperandSizeBytes(o));
        mismatch := actual != MemOperandValue(o);
      }
    }

    /** The first comparison loop. */
    method ComparisonLoop(ops: seq<Operand>, mnemonic: Option<string>, counters: map<string, int>, fallback: U64)
      returns (known: bool, mismatch: bool, pcExpect: U64)
      requires Valid() && CountersExact(T(), ops, 0, counters)
      modifies adapter
      ensures known <==> KnownPrefix(ops) == |ops|
      ensures known ==> (mismatch <==> SomeMismatch(T(), Snapshot(), ops, |ops|, mnemonic))
      ensures known ==> pcExpect == ResolvedPc(T(), ops, mnemonic, fallback)
    {
      ghost var m := Snapshot();
      var remaining := counters;
      mismatch, pcExpect := false, fallback;
      for k := 0 to |ops|
        invariant k <= KnownPrefix(ops)
        invariant CountersExact(T(), ops, k, remaining)
        invariant mismatch <==> SomeMismatch(T(), m, ops, k, mnemonic)
        invariant pcExpect == ResolvedPc(T(), ops[..k], mnemonic, fallback)
      {
        KnownPrefixEndsAt(ops, k);
        if ops[k].reg.None? && ops[k].mem.None? {
          return false, mismatch, pcExpect;
        }
        ResolvedPcStep(T(), ops, k, mnemonic, fallback);
        SomeMismatchStep(T(), m, ops, k, mnemonic);
        var mismatched;
        mismatched, remaining, pcExpect := ComparePostOperand(ops, k, mnemonic, remaining, pcExpect);
        mismatch := mismatch || mismatched;
      }
      assert ops[..|ops|] == ops;
      return true, mismatch, pcExpect;
    }

    /** From the trace to the VM: every post-operand is found in the VM's state. */
    method ComparePostOperands(sf: StdFrame, nextPc: Option<U64>, mnemonic: Option<string>)
      returns (known: bool, mismatch: bool, pcExpect: U64)
      requires Valid()
      modifies adapter
      ensures known <==> KnownPrefix(sf.post) == |sf.post|
      ensures known ==> (mismatch <==>
        !(&& RegsMatch(T(), reg.arena, sf.post, mnemonic)
          && CustomsMatch(T(), reg.arena, sf.post)
          && MemsMatch(T(), overlay, sf.post)))
      ensures known ==> pcExpect == ResolvedPc(T(), sf.post, mnemonic, FallbackPc(sf, nextPc))
      ensures known ==> IsExpectedPc(T(), sf, nextPc, mnemonic, pcExpect)
    {
      var fallback := if nextPc.Some? then nextPc.value else Add64(sf.address, |sf.code|);
      var counters := GetPostOpMap(sf.post);
      CountersAtStart(T(), sf.post, counters);
      known, mismatch, pcExpect := ComparisonLoop(sf.post, mnemonic, counters, fallback);
      NoMismatchIsMatch(T(), Snapshot(), sf.post, mnemonic);
      ExpectedPcIsResolved(T(), sf, nextPc, mnemonic, pcExpect);
    }

    method IsVarListed(ops: seq<Operand>, variable: string) returns (listed: bool)
      ensures listed <==> VarListed(T(), ops, variable)
    {
      for k := 0 to |ops|
        invariant forall i :: 0 <= i < k && ops[i].reg.Some? ==> !TraceRegOverlapsILVar(T(), ops[i].reg.value, variable)
      {
        if ops[k].reg.None? { continue; }
        if TraceRegOverlapsILVar(T(), ops[k].reg.value, variable) { return true; }
      }
      return false;
    }

    /** The second comparison loop: every event is explained by the frame. */
    method CheckEvents(sf: StdFrame, events: seq<Event>) returns (unjustified: bool)
      ensures unjustified <==> !AllJustified(T(), sf, events)
      ensures WellFormed(rz.profile) ==>
                (unjustified <==> exists e :: e in events && !IsAssumed(adapter.kind, e) && !Explained(T(), sf, e))
    {
      unjustified := false;
      for k := 0 to |events|
        invariant unjustified <==> exists i :: 0 <= i < k && !EventJustified(T(), sf, events[i])
      {
        var e := events[k];
        var justified := false;
        if AssumeEventIsJustified(adapter.kind, e) { continue; }
        match e {
          case VarRead(variable, _) =>
            justified := IsVarListed(sf.pre, variable);
            if !justified {
              justified := IsVarListed(sf.post, variable);
            }
          case VarWrite(variable, oldValue, newValue) =>
            if AllowNoOperandSameValueAssignment(adapter.kind) && oldValue == newValue {
              justified := true;
            } else {
              justified := IsVarListed(sf.post, variable);
            }
          case MemRead(_, address, value) =>
            ghost var passes, improvements;
            justified, passes, improvements := MemAccessJustifiedByOperands(address, |value|, sf.pre);
          case MemStore(_, address, newValue) =>
            ghost var passes, improvements;
            justified, passes, improvements := MemAccessJustifiedByOperands(address, |newValue|, sf.post);
          case _ =>
            justified := true;
        }
        assert justified <==> EventJustified(T(), sf, e);
        if !justified {
          unjustified := true;
        }
      }
      if WellFormed(rz.profile) { EventsMatchExactly(T(), sf, events); }
    }

    method RunFrame(f: Frame, nextPc: Option<U64>, skip: SkipRule, testedIn: U64, cacheReset: bool)
      returns (verdict: Verdict, testedOut: U64)
      requires Valid()
      modifies this, reg, adapter
      ensures var o := FrameOutcome(T(), old(Snapshot()), f, nextPc, skip, cacheReset);
              && verdict == o.verdict
              && testedOut == (if o.testedId.Some? then o.testedId.value else testedIn)
              && Snapshot() == o.machine
    {
      testedOut := testedIn;
      if f.NonStd? {
        return Unimplemented, testedOut;
      }
      var sf := f.sf;
      var need := RizinBits(adapter.kind, sf.mode, adapter.machine);
      if need != 0 && need != bits {
        bits := need;
      }
      verdict, testedOut := RunStdFrame(sf, nextPc, skip, testedIn, cacheReset);
    }

    method RunStdFrame(sf: StdFrame, nextPc: Option<U64>, skip: SkipRule, testedIn: U64, cacheReset: bool)
      returns (verdict: Verdict, testedOut: U64)
      requires Valid()
      modifies this`overlay, reg, adapter
      ensures var o := StdOutcome(T(), old(Snapshot()), sf, nextPc, skip, cacheReset);
              && verdict == o.verdict
              && testedOut == (if o.testedId.Some? then o.testedId.value else testedIn)
              && Snapshot() == o.machine
    {
      testedOut := testedIn;
      if |sf.code| == 0 {
        return InvalidOperation, testedOut;
      }
      if skip.Some? {
        var text := rz.disassemble(bits, sf.address, sf.code);
        if text.Some? && skip.value(text.value) {
          return Skipped, testedOut;
        }
      }
      if reg.profile.pc.None? {
        return Unimplemented, testedOut;
      }
      var known := SetupPreState(sf, cacheReset);
      if !known {
        return Unimplemented, testedOut;
      }
      verdict, testedOut := LiftAndExecute(sf, nextPc, testedIn);
    }

    method LiftAndExecute(sf: StdFrame, nextPc: Option<U64>, testedIn: U64) returns (verdict: Verdict, testedOut: U64)
      requires Valid() && rz.profile.pc.Some?
      modifies this`overlay, reg, adapter
      ensures var o := Execute(T(), old(Snapshot()), sf, nextPc);
              && verdict == o.verdict
              && testedOut == (if o.testedId.Some? then o.testedId.value else testedIn)
              && Snapshot() == o.machine
    {
      testedOut := testedIn;
      var analysis := rz.analyze(bits, overlay, sf.address, sf.code);
      if analysis.AnalysisFailed? {
        return InvalidOperation, testedOut;
      }
      if analysis.NotLifted? {
        return Unimplemented, testedOut;
      }
      testedOut := analysis.id;
      if !analysis.valid {
        return InvalidOperation, testedOut;
      }
      verdict := StepAndCompare(sf, nextPc, analysis.mnemonic);
    }

    method StepAndCompare(sf: StdFrame, nextPc: Option<U64>, mnemonic: Option<string>) returns (verdict: Verdict)
      requires Valid() && rz.profile.pc.Some?
      modifies this`overlay, reg, adapter
      ensures var r := rz.step(bits, old(reg.arena), old(overlay));
              && Snapshot() == AfterStep(T(), old(Snapshot()), r)
              && verdict == if r.StepFailed? then StepVerdict(r.status)
                            else CompareVerdict(T(), Snapshot(), r, sf, nextPc, mnemonic)
    {
      var result := rz.step(bits, reg.arena, overlay);
      var after := AfterStep(T(), Snapshot(), result);
      reg.arena, overlay := after.arena, after.overlay;
      if result.StepFailed? {
        return StepVerdict(result.status);
      }
      var known, mismatch, pcExpect := ComparePostOperands(sf, nextPc, mnemonic);
      if !known {
        return Unimplemented;
      }
      var pcActual := ToU64(ReadReg(reg.arena, reg.profile.pc.value));
      if result.pc != pcExpect && pcActual != pcExpect && !IgnorePCMismatch(adapter.kind, pcActual, pcExpect) {
        mismatch := true;
      }
      var unjustified := CheckEvents(sf, result.events);
      if unjustified {
        mismatch := true;
      }
      return if mismatch then PostStateMismatch else Success;
    }
  }
}
