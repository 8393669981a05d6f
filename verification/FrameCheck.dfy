/** What the check of one frame decides, stated declaratively: the pre-state a frame sets up,
    when the state and the event log of a VM step agree with the frame, and the outcome. */
module FrameCheck {
  import opened BitVectors
  import opened Trace
  import opened Coverage
  import opened Registers
  import opened Memory
  import opened Vm
  import opened Adapters

  datatype Verdict =
    | Success
    | Skipped
    | InvalidOperation
    | InvalidIL
    | VMRuntimeError
    | PostStateMismatch
    | Unimplemented
    | Unknown

  datatype Target = Target(kind: AdapterKind, machine: U64, rz: Rizin)

  /** What the emulator carries from one frame to the next. */
  datatype Machine = Machine(bits: int, arena: Arena, overlay: Overlay)

  datatype Outcome = Outcome(verdict: Verdict, testedId: Option<U64>, machine: Machine)

  /** The state of a new emulator. */
  function InitialMachine(t: Target): Machine {
    var need := RizinBits(t.kind, None, t.machine);
    Machine(if need != 0 then need else t.rz.defaultBits, ZeroArena(t.rz.profile), map[])
  }

  type SkipRule = Option<string -> bool>

  // ----- Operands

  function RizinName(t: Target, o: Operand): string
    requires o.reg.Some?
  {
    TraceRegToRizin(t.kind, o.reg.value)
  }

  predicate IsNamedReg(t: Target, o: Operand) {
    o.reg.Some? && RizinName(t, o) != ""
  }

  predicate IsCustomReg(t: Target, o: Operand) {
    IsNamedReg(t, o) && RegNeedsCustomHandling(t.kind, o.reg.value)
  }

  /** A register operand that is applied and compared as a single Rizin register. */
  predicate IsPlainReg(t: Target, o: Operand) {
    IsNamedReg(t, o) && !IsCustomReg(t, o) && RizinName(t, o) in t.rz.profile.items
  }

  function ItemOf(t: Target, o: Operand): RegItem
    requires IsPlainReg(t, o)
  {
    t.rz.profile.items[RizinName(t, o)]
  }

  /** The register part of an operand comes first; only without one is it a memory operand. */
  predicate IsMem(o: Operand) {
    o.reg.None? && o.mem.Some?
  }

  /** Address b is that of a byte of operand o. */
  predicate ListsByte(o: Operand, b: int) {
    o.mem.Some? && HasByte(o, b - o.mem.value)
  }

  // ----- Pre-state

  function PreWrites(t: Target, o: Operand): seq<RegWrite> {
    if IsCustomReg(t, o) then CustomWrites(t.kind, t.rz.profile, RegOperandValue(o))
    else if IsPlainReg(t, o) then
      [RegWrite(ItemOf(t, o), AdjustFromTrace(t.kind, o.reg.value, RegOperandValue(o), None))]
    else []
  }

  function AllPreWrites(t: Target, ops: seq<Operand>): seq<RegWrite> {
    if ops == [] then [] else AllPreWrites(t, ops[..|ops| - 1]) + PreWrites(t, ops[|ops| - 1])
  }

  function PreMemWrite(o: Operand): seq<MemWrite> {
    if IsMem(o) then [MemWrite(o.mem.value, MemOperandValue(o))] else []
  }

  function AllPreMemWrites(ops: seq<Operand>): seq<MemWrite> {
    if ops == [] then [] else AllPreMemWrites(ops[..|ops| - 1]) + PreMemWrite(ops[|ops| - 1])
  }

  function EffectiveBits(t: Target, bits: int, sf: StdFrame): int {
    var need := RizinBits(t.kind, sf.mode, t.machine);
    if need != 0 then need else bits
  }

  /** With the cache reset, memory holds the frame's code and nothing else on top of the base. */
  function EntryMemory(m: Machine, sf: StdFrame, cacheReset: bool): Overlay {
    if cacheReset then WriteBytes(map[], sf.address, sf.code) else m.overlay
  }

  /** The state after the first n pre-operands. */
  function PartialSetup(t: Target, m: Machine, sf: StdFrame, cacheReset: bool, n: nat): Machine
    requires n <= |sf.pre|
  {
    Machine(m.bits,
            ApplyWrites(ZeroArena(t.rz.profile), AllPreWrites(t, sf.pre[..n])),
            ApplyMemWrites(EntryMemory(m, sf, cacheReset), AllPreMemWrites(sf.pre[..n])))
  }

  /** The state in which the operation is executed. */
  function Setup(t: Target, m: Machine, sf: StdFrame, cacheReset: bool): Machine {
    var s := PartialSetup(t, m, sf, cacheReset, |sf.pre|);
    s.(arena := SetPc(t.rz.profile, s.arena, sf.address))
  }

  // ----- Setup, one operand at a time

  lemma SetupRegsOneMore(t: Target, ops: seq<Operand>, k: nat, a: Arena)
    requires k < |ops|
    ensures ApplyWrites(a, AllPreWrites(t, ops[..k + 1])) ==
            ApplyWrites(ApplyWrites(a, AllPreWrites(t, ops[..k])), PreWrites(t, ops[k]))
  {
    assert ops[..k + 1][..k] == ops[..k];
    ApplyWritesConcat(a, AllPreWrites(t, ops[..k]), PreWrites(t, ops[k]));
  }

  lemma SetupMemOneMore(ops: seq<Operand>, k: nat, m: Overlay)
    requires k < |ops|
    ensures ApplyMemWrites(m, AllPreMemWrites(ops[..k + 1])) ==
            if IsMem(ops[k])
            then WriteBytes(ApplyMemWrites(m, AllPreMemWrites(ops[..k])), ops[k].mem.value, MemOperandValue(ops[k]))
            else ApplyMemWrites(m, AllPreMemWrites(ops[..k]))
  {
    assert ops[..k + 1][..k] == ops[..k];
    var before, after := AllPreMemWrites(ops[..k]), AllPreMemWrites(ops[..k + 1]);
    if IsMem(ops[k]) {
      assert after[..|after| - 1] == before;
    } else {
      assert after == before;
    }
  }

  // ----- Step

  /** A successful step leaves the VM's program counter in the register file. */
  function AfterStep(t: Target, s: Machine, r: StepResult): Machine {
    var arena := ReplayVars(t.rz.profile, s.arena, r.events);
    Machine(s.bits,
            if r.StepOk? then SetPc(t.rz.profile, arena, r.pc) else arena,
            ReplayMemory(t.rz.bigEndian, s.overlay, r.events))
  }

  function StepVerdict(status: StepStatus): Verdict {
    match status
    case RuntimeError => VMRuntimeError
    case InvalidOp => InvalidOperation
    case UnimplementedIl => Unimplemented
    case NotSetUp => VMRuntimeError
    case OtherFailure => InvalidIL
  }

  // ----- Trace to VM

  /** No later operand of the list names the same Rizin register. */
  predicate IsLastOfName(t: Target, ops: seq<Operand>, i: nat)
    requires i < |ops| && ops[i].reg.Some?
  {
    forall j :: i < j < |ops| && ops[j].reg.Some? ==> RizinName(t, ops[j]) != RizinName(t, ops[i])
  }

  predicate ValueMatches(t: Target, a: Arena, o: Operand, mnemonic: Option<string>)
    requires IsPlainReg(t, o)
  {
    AdjustFromTrace(t.kind, o.reg.value, RegOperandValue(o), mnemonic) ==
    AdjustFromRizin(t.kind, o.reg.value, ReadReg(a, ItemOf(t, o)))
  }

  /** Of each register name, the last post-operand has the value that the register has. */
  predicate RegsMatch(t: Target, a: Arena, ops: seq<Operand>, mnemonic: Option<string>) {
    forall i :: 0 <= i < |ops| && IsPlainReg(t, ops[i]) && IsLastOfName(t, ops, i) ==>
      ValueMatches(t, a, ops[i], mnemonic) || IgnorePostMismatchReg(t.kind, ItemOf(t, ops[i]).name)
  }

  /** Packed registers have to match at every occurrence. */
  predicate CustomsMatch(t: Target, a: Arena, ops: seq<Operand>) {
    forall i :: 0 <= i < |ops| && IsCustomReg(t, ops[i]) ==>
      CustomMatches(t.kind, t.rz.profile, a, RegOperandValue(ops[i]))
  }

  predicate MemMatches(t: Target, m: Overlay, o: Operand)
    requires IsMem(o)
  {
    ReadBytes(t.rz.base, m, o.mem.value, MemOperandSizeBytes(o)) == MemOperandValue(o)
  }

  predicate MemsMatch(t: Target, m: Overlay, ops: seq<Operand>) {
    !IgnoreCompareMemMismatch(t.kind) ==>
      forall i :: 0 <= i < |ops| && IsMem(ops[i]) ==> MemMatches(t, m, ops[i])
  }

  /** The expected program counter: that of the last post-operand for it, if there is one. */
  function ResolvedPc(t: Target, ops: seq<Operand>, mnemonic: Option<string>, fallback: U64): U64 {
    if ops == [] then fallback
    else
      var o := ops[|ops| - 1];
      if IsPlainReg(t, o) && t.rz.profile.pc == Some(ItemOf(t, o))
      then ToU64(AdjustFromTrace(t.kind, o.reg.value, RegOperandValue(o), mnemonic))
      else ResolvedPc(t, ops[..|ops| - 1], mnemonic, fallback)
  }

  function FallbackPc(sf: StdFrame, nextPc: Option<U64>): U64 {
    if nextPc.Some? then nextPc.value else Add64(sf.address, |sf.code|)
  }

  predicate PcMatches(t: Target, a: Arena, vmPc: U64, expected: U64)
    requires t.rz.profile.pc.Some?
  {
    var actual := ToU64(ReadReg(a, t.rz.profile.pc.value));
    vmPc == expected || actual == expected || IgnorePCMismatch(t.kind, actual, expected)
  }

  // ----- VM to trace

  predicate TraceRegOverlapsILVar(t: Target, traceReg: string, variable: string) {
    var name := TraceRegToRizin(t.kind, traceReg);
    var items := t.rz.profile.items;
    && name != ""
    && name in items
    && variable in t.rz.profile.bound
    && (|| name == variable
        || (&& variable in items
            && items[name].kind == items[variable].kind
            && !(|| items[variable].offset >= items[name].offset + items[name].size
                 || items[variable].offset + items[variable].size <= items[name].offset)))
  }

  predicate VarListed(t: Target, ops: seq<Operand>, variable: string) {
    exists i :: 0 <= i < |ops| && ops[i].reg.Some? && TraceRegOverlapsILVar(t, ops[i].reg.value, variable)
  }

  ghost predicate EventJustified(t: Target, sf: StdFrame, e: Event) {
    AssumeEventIsJustified(t.kind, e) ||
    match e
    case VarRead(variable, _) => VarListed(t, sf.pre, variable) || VarListed(t, sf.post, variable)
    case VarWrite(variable, oldValue, newValue) =>
      || (AllowNoOperandSameValueAssignment(t.kind) && oldValue == newValue)
      || VarListed(t, sf.post, variable)
    case MemRead(_, address, value) => AccessJustified(sf.pre, address, AccessSize(|value|))
    case MemStore(_, address, newValue) => AccessJustified(sf.post, address, AccessSize(|newValue|))
    case PcWrite(_) => true
    case OtherEvent => true
  }

  ghost predicate AllJustified(t: Target, sf: StdFrame, events: seq<Event>) {
    forall k :: 0 <= k < |events| ==> EventJustified(t, sf, events[k])
  }

  // ----- Verdict

  ghost predicate PostStateMatches(t: Target, m: Machine, r: StepResult, sf: StdFrame, nextPc: Option<U64>, mnemonic: Option<string>)
    requires t.rz.profile.pc.Some? && r.StepOk?
  {
    && RegsMatch(t, m.arena, sf.post, mnemonic)
    && CustomsMatch(t, m.arena, sf.post)
    && MemsMatch(t, m.overlay, sf.post)
    && PcMatches(t, m.arena, r.pc, ResolvedPc(t, sf.post, mnemonic, FallbackPc(sf, nextPc)))
    && AllJustified(t, sf, r.events)
  }

  ghost function CompareVerdict(t: Target, m: Machine, r: StepResult, sf: StdFrame, nextPc: Option<U64>, mnemonic: Option<string>): Verdict
    requires t.rz.profile.pc.Some? && r.StepOk?
  {
    if KnownPrefix(sf.post) < |sf.post| then Unimplemented
    else if PostStateMatches(t, m, r, sf, nextPc, mnemonic) then Success
    else PostStateMismatch
  }

  /** The verdict and the state from the pre-state on. */
  ghost function Execute(t: Target, s: Machine, sf: StdFrame, nextPc: Option<U64>): Outcome
    requires t.rz.profile.pc.Some?
  {
    match t.rz.analyze(s.bits, s.overlay, sf.address, sf.code)
    case AnalysisFailed => Outcome(InvalidOperation, None, s)
    case NotLifted => Outcome(Unimplemented, None, s)
    case Lifted(id, valid, mnemonic) =>
      if !valid then Outcome(InvalidOperation, Some(id), s)
      else
        var r := t.rz.step(s.bits, s.arena, s.overlay);
        var m := AfterStep(t, s, r);
        if r.StepFailed? then Outcome(StepVerdict(r.status), Some(id), m)
        else Outcome(CompareVerdict(t, m, r, sf, nextPc, mnemonic), Some(id), m)
  }

  predicate IsSkipped(t: Target, bits: int, sf: StdFrame, skip: SkipRule) {
    skip.Some? &&
    var text := t.rz.disassemble(bits, sf.address, sf.code);
    text.Some? && skip.value(text.value)
  }

  /** The frame gets as far as the setup of its pre-state. */
  predicate ReachesSetup(t: Target, m: Machine, f: Frame, skip: SkipRule) {
    && f.Std?
    && f.sf.code != []
    && !IsSkipped(t, EffectiveBits(t, m.bits, f.sf), f.sf, skip)
    && t.rz.profile.pc.Some?
  }

  /** A frame first sets the bits that it needs. */
  function WithBits(t: Target, m: Machine, sf: StdFrame): Machine {
    m.(bits := EffectiveBits(t, m.bits, sf))
  }

  ghost function FrameOutcome(t: Target, m: Machine, f: Frame, nextPc: Option<U64>, skip: SkipRule, cacheReset: bool): Outcome {
    if f.NonStd? then Outcome(Unimplemented, None, m)
    else StdOutcome(t, WithBits(t, m, f.sf), f.sf, nextPc, skip, cacheReset)
  }

  ghost function StdOutcome(t: Target, m: Machine, sf: StdFrame, nextPc: Option<U64>, skip: SkipRule, cacheReset: bool): Outcome {
    if sf.code == [] then Outcome(InvalidOperation, None, m)
    else if IsSkipped(t, m.bits, sf, skip) then Outcome(Skipped, None, m)
    else if t.rz.profile.pc.None? then Outcome(Unimplemented, None, m)
    else if KnownPrefix(sf.pre) < |sf.pre| then
      Outcome(Unimplemented, None, PartialSetup(t, m, sf, cacheReset, KnownPrefix(sf.pre)))
    else Execute(t, Setup(t, m, sf, cacheReset), sf, nextPc)
  }

  // ----- Register overlap is bit sharing

  /** The two-sided test on offsets says that a bound variable shares an arena bit with the register. */
  lemma OverlapIsBitSharing(t: Target, traceReg: string, variable: string)
    requires WellFormed(t.rz.profile)
    ensures TraceRegOverlapsILVar(t, traceReg, variable) <==>
            && TraceRegToRizin(t.kind, traceReg) != ""
            && TraceRegToRizin(t.kind, traceReg) in t.rz.profile.items
            && variable in t.rz.profile.bound
            && exists c :: Inside(c, t.rz.profile.items[TraceRegToRizin(t.kind, traceReg)])
                           && Inside(c, t.rz.profile.items[variable])
  {
    var name, items := TraceRegToRizin(t.kind, traceReg), t.rz.profile.items;
    if name in items && variable in t.rz.profile.bound {
      var ri, vi := items[name], items[variable];
      assert InRange(t.rz.profile, ri) && InRange(t.rz.profile, vi);
      var first := Cell(ri.kind, if ri.offset < vi.offset then vi.offset else ri.offset);
      assert TraceRegOverlapsILVar(t, traceReg, variable) ==> Inside(first, ri) && Inside(first, vi);
    }
  }
}
