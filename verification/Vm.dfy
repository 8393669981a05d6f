/** What the checker uses of Rizin, as an abstract deterministic machine: disassembly, lifting
    and one VM step that yields an event log. The state after a step is the replay of its log. */
module Vm {
  import opened BitVectors
  import opened Trace
  import opened Registers
  import opened Memory

  /** An IL value; the length of its bit vector is a 32-bit integer. */
  type Value = v: Bits | |v| < TWO_TO_THE_32

  datatype Event =
    | VarRead(variable: string, value: Value)
    | VarWrite(variable: string, oldValue: Value, newValue: Value)
    | MemRead(index: nat, address: U64, value: Value)
    | MemStore(index: nat, address: U64, newValue: Value)
    | PcWrite(newPc: Value)
    | OtherEvent

  datatype StepStatus = RuntimeError | InvalidOp | UnimplementedIl | NotSetUp | OtherFailure

  datatype StepResult =
    | StepOk(events: seq<Event>, pc: U64)
    | StepFailed(status: StepStatus, events: seq<Event>)

  datatype Analysis = AnalysisFailed | NotLifted | Lifted(id: U64, valid: bool, mnemonic: Option<string>)

  datatype Rizin = Rizin(
    profile: Profile,
    base: Base,
    bigEndian: bool,
    defaultBits: int,
    disassemble: (int, U64, Bytes) -> Option<string>,
    analyze: (int, Overlay, U64, Bytes) -> Analysis,
    step: (int, Arena, Overlay) -> StepResult)

  /** The bytes that a store of v writes, in address order. */
  function StoredBytes(bigEndian: bool, v: Bits): (r: seq<Byte>)
    ensures |r| == (|v| + 7) / 8
  {
    if bigEndian then Reverse(ToBytesLE(v)) else ToBytesLE(v)
  }

  /** Only memory region 0 is the memory that the checker reads. */
  function MemEffect(bigEndian: bool, m: Overlay, e: Event): Overlay {
    if e.MemStore? && e.index == 0 then WriteBytes(m, e.address, StoredBytes(bigEndian, e.newValue)) else m
  }

  /** Only variables bound to a register reach the register file. */
  function VarEffect(p: Profile, a: Arena, e: Event): (a': Arena)
    ensures a'.Keys == a.Keys
  {
    if e.VarWrite? && e.variable in p.bound && e.variable in p.items
    then WriteReg(a, p.items[e.variable], e.newValue) else a
  }

  function ReplayMemory(bigEndian: bool, m: Overlay, events: seq<Event>): Overlay {
    if events == [] then m
    else MemEffect(bigEndian, ReplayMemory(bigEndian, m, events[..|events| - 1]), events[|events| - 1])
  }

  function ReplayVars(p: Profile, a: Arena, events: seq<Event>): (a': Arena)
    ensures a'.Keys == a.Keys
  {
    if events == [] then a
    else VarEffect(p, ReplayVars(p, a, events[..|events| - 1]), events[|events| - 1])
  }

  /** The program counter register holds a number. */
  function SetPc(p: Profile, a: Arena, pc: U64): (a': Arena)
    ensures a'.Keys == a.Keys
  {
    if p.pc.None? then a else WriteReg(a, p.pc.value, FromNat(pc, 64))
  }

  /** The log is truthful about old values: a bound variable's old value is what its register held. */
  ghost predicate Truthful(p: Profile, a: Arena, events: seq<Event>) {
    forall k :: 0 <= k < |events| ==> TruthfulAt(p, a, events, k)
  }

  ghost predicate TruthfulAt(p: Profile, a: Arena, events: seq<Event>, k: nat)
    requires k < |events|
  {
    var e := events[k];
    e.VarWrite? && e.variable in p.bound && e.variable in p.items ==>
      e.oldValue == ReadReg(ReplayVars(p, a, events[..k]), p.items[e.variable])
  }
}
