/** The trace adapters: what each supported trace source and architecture changes about names,
    register contents and the checks. */
module Adapters {
  import opened BitVectors
  import opened Trace
  import opened Registers
  import opened Vm

  /** The adapters. The register table of Hexagon and the machine number of x86-64 are parameters. */
  datatype AdapterKind =
    | Vice
    | Arm32
    | Arm64
    | Sparc32
    | Sparc64
    | Ppc
    | I8051
    | Mips
    | GameBoy
    | Hexagon(names: map<string, string>)
    | X86(machX86_64: U64)
    | TriCore

  predicate IsSparc(kind: AdapterKind) {
    kind.Sparc32? || kind.Sparc64?
  }

  // ----- Bits

  /** A 64-bit number converted to a 32-bit signed integer. */
  function ToInt32(n: U64): (r: int)
    ensures -0x8000_0000 <= r < 0x8000_0000
    ensures (r - n) % TWO_TO_THE_32 == 0
  {
    (n + 0x8000_0000) % TWO_TO_THE_32 - 0x8000_0000
  }

  /** The value for asm.bits, or 0 to leave the setting alone. */
  function RizinBits(kind: AdapterKind, mode: Option<Mode>, machine: U64): int {
    match kind
    case Vice => 0
    case GameBoy => 0
    case Arm32 => if mode == Some(ArmT32) then 16 else 32
    case Arm64 => 64
    case Sparc32 => 32
    case Sparc64 => 64
    case Ppc => if mode.Some? then (if mode.value == Ppc64 then 64 else 32) else ToInt32(machine)
    case I8051 => 16
    case Mips => ToInt32(machine)
    case Hexagon(_) => 32
    case X86(machX86_64) => if machine == machX86_64 then 64 else 32
    case TriCore => 32
  }

  /** Whether the bits requested by a frame ever leave the setting of an earlier frame in place
      although some frame changes it. */
  ghost predicate BitsSettled(kind: AdapterKind, machine: U64) {
    || (forall mode :: RizinBits(kind, mode, machine) != 0)
    || (forall mode :: RizinBits(kind, mode, machine) == 0)
  }

  lemma BitsSettledExactly(kind: AdapterKind, machine: U64)
    ensures BitsSettled(kind, machine) <==> !(kind.Ppc? && machine % TWO_TO_THE_32 == 0)
  {
    if kind.Ppc? {
      assert RizinBits(kind, Some(Ppc64), machine) == 64;
      assert RizinBits(kind, None, machine) == 0 <==> machine % TWO_TO_THE_32 == 0;
    }
  }

  // ----- Names

  function ToLower(s: string): (r: string)
    ensures |r| == |s|
  {
    seq(|s|, i requires 0 <= i < |s| => if 'A' <= s[i] <= 'Z' then (s[i] as int + 32) as char else s[i])
  }

  function ToUpper(s: string): (r: string)
    ensures |r| == |s|
  {
    seq(|s|, i requires 0 <= i < |s| => if 'a' <= s[i] <= 'z' then (s[i] as int - 32) as char else s[i])
  }

  predicate HasPrefix(s: string, prefix: string) {
    prefix <= s
  }

  predicate HasSubstring(s: string, sub: string) {
    exists i :: 0 <= i <= |s| && sub <= s[i..]
  }

  /** The register name in Rizin, empty for a register that is to be ignored. */
  function TraceRegToRizin(kind: AdapterKind, name: string): string {
    match kind
    case Vice => if name == "sr" then "flags" else name
    case Arm32 => if name == "GE" then "gef" else ToLower(name)
    case Arm64 =>
      if name == "R31" then "sp"
      else if |name| >= 1 && name[0] == 'R' then "x" + name[1..]
      else ToLower(name)
    case Ppc =>
      if HasPrefix(name, "crf") then name[..2] + (if |name| > 3 then [name[3]] else "") else ToLower(name)
    case GameBoy => if name == "pc" then "mpc" else name
    case Hexagon(names) => ToUpper(if name in names then names[name] else name)
    case X86(_) => ToLower(name)
    case TriCore =>
      if |name| > 1 && (name[0] == 'a' || name[0] == 'd') && (forall i :: 1 <= i < |name| ==> '0' <= name[i] <= '9')
      then name else ToUpper(name)
    case _ => name
  }

  predicate RegNeedsCustomHandling(kind: AdapterKind, name: string) {
    match kind
    case Sparc32 => name == "psr"
    case Sparc64 => name == "state"
    case _ => false
  }

  /** Custom handling is a matter of the Rizin register: names that mean the same one agree on it. */
  lemma CustomHandlingByRizinName(kind: AdapterKind, x: string, y: string)
    requires TraceRegToRizin(kind, x) == TraceRegToRizin(kind, y)
    ensures RegNeedsCustomHandling(kind, x) <==> RegNeedsCustomHandling(kind, y)
  {
  }

  // ----- Register contents

  predicate IsOneBitFlag(name: string) {
    name == "ca" || name == "ca32" || name == "ov" || name == "ov32" || name == "so"
  }

  function FlagBit(v: Bits): (r: Bits)
    ensures |r| == 1
  {
    [!IsZero(v)]
  }

  predicate IsMrs(v: Bits, mnemonic: Option<string>) {
    mnemonic.Some? && |v| == 32 && HasPrefix(mnemonic.value, "mrs ")
  }

  /** The exception fields are the low ten bits; the value is set from a 64-bit number. */
  function WithoutFsrExceptions(v: Bits): (r: Bits)
    ensures |r| == |v|
  {
    Resize(ClearRange(Resize(v, 64), 0, 10), |v|)
  }

  /** A register value of the trace before it is applied or compared. The mnemonic is that of
      the operation, given for post-operands only. */
  function AdjustFromTrace(kind: AdapterKind, name: string, v: Bits, mnemonic: Option<string>): Bits {
    match kind
    case Vice => if name == "sr" then ClearRange(v, 4, 6) else v
    case Arm32 =>
      var w :=
        if name == "NF" || name == "ZF" || name == "CF" || name == "VF" || name == "QF" then FlagBit(v)
        else if name == "GE" then Resize(v, 4)
        else v;
      // the mask 0xf80f0000 of the 32-bit value
      if IsMrs(w, mnemonic) then ClearRange(ClearRange(w, 0, 16), 20, 27) else w
    case Arm64 =>
      if name == "NF" || name == "ZF" || name == "CF" || name == "VF" then FlagBit(v) else v
    case Sparc32 => if name == "fsr" then WithoutFsrExceptions(v) else v
    case Sparc64 =>
      if name == "fprs" then Resize(v, 3) else if name == "fsr" then WithoutFsrExceptions(v) else v
    case Ppc =>
      if HasPrefix(name, "crf") then Resize(v, 4)
      else if IsOneBitFlag(name) then FlagBit(v)
      else if name == "VRSAVE" then Resize(v, 32)
      else if name == "XER" then ClearRange(Resize(v, 64), 18, 20)
      else v
    case GameBoy => if name == "pc" then Resize(Resize(v, 16), 32) else v
    case _ => v
  }

  /** A register value of Rizin before it is compared. */
  function AdjustFromRizin(kind: AdapterKind, name: string, v: Bits): Bits {
    match kind
    case Vice => if name == "sr" then ClearRange(v, 4, 6) else v
    case Sparc32 => if name == "fsr" then WithoutFsrExceptions(v) else v
    case Sparc64 => if name == "fsr" then WithoutFsrExceptions(v) else v
    case Ppc => if name == "XER" then ClearRange(Resize(v, 64), 18, 20) else v
    case _ => v
  }

  /** A value applied to a register passes the comparison with itself, except for what the
      32-bit ARM adapter masks out of the results of mrs. */
  lemma SetupAndComparisonAgree(kind: AdapterKind, name: string, v: Bits, mnemonic: Option<string>)
    requires !(kind.Arm32? && IsMrs(AdjustFromTrace(kind, name, v, None), mnemonic))
    ensures AdjustFromRizin(kind, name, AdjustFromTrace(kind, name, v, None)) ==
            AdjustFromTrace(kind, name, v, mnemonic)
  {
    match kind
    case Sparc32 => FsrIdempotent(v);
    case Sparc64 => FsrIdempotent(v);
    case Ppc =>
      var w := ClearRange(Resize(v, 64), 18, 20);
      assert ClearRange(Resize(w, 64), 18, 20) == w;
      if name == "XER" { XerIsNoCrField(name); }
    case _ =>
  }

  lemma XerIsNoCrField(name: string)
    requires name == "XER"
    ensures !HasPrefix(name, "crf")
  {
    assert "crf"[0] != name[0];
  }

  lemma FsrIdempotent(v: Bits)
    ensures WithoutFsrExceptions(WithoutFsrExceptions(v)) == WithoutFsrExceptions(v)
  {
  }

  /** The result of mrs is where setup and comparison differ: the comparison ignores more bits. */
  lemma MrsMasksMore(v: Bits, name: string, mnemonic: Option<string>)
    requires IsMrs(AdjustFromTrace(Arm32, name, v, None), mnemonic)
    ensures AdjustFromRizin(Arm32, name, AdjustFromTrace(Arm32, name, v, None)) ==
            AdjustFromTrace(Arm32, name, v, mnemonic)
       <==> forall i :: 0 <= i < 16 || 20 <= i < 27 ==> !AdjustFromTrace(Arm32, name, v, None)[i]
  {
    var w := AdjustFromTrace(Arm32, name, v, None);
    var u := AdjustFromTrace(Arm32, name, v, mnemonic);
    assert u == ClearRange(ClearRange(w, 0, 16), 20, 27);
    if forall i :: 0 <= i < 16 || 20 <= i < 27 ==> !w[i] {
      assert forall i :: 0 <= i < 32 ==> u[i] == w[i];
    }
    if w == u {
      forall i | 0 <= i < 16 || 20 <= i < 27 ensures !w[i] {
        assert w[i] == u[i];
      }
    }
  }

  /** Bit i of register `name` plays no role in the comparison. */
  predicate IsIgnoredBit(kind: AdapterKind, name: string, i: nat) {
    match kind
    case Vice => name == "sr" && 4 <= i < 6
    case Sparc32 => name == "fsr" && (i < 10 || 64 <= i)
    case Sparc64 => name == "fsr" && (i < 10 || 64 <= i)
    case Ppc => name == "XER" && (18 <= i < 20 || 64 <= i)
    case _ => false
  }

  /** The registers that both sides mask. */
  predicate IsMasked(kind: AdapterKind, name: string) {
    (kind.Vice? && name == "sr") || (IsSparc(kind) && name == "fsr") || (kind.Ppc? && name == "XER")
  }

  /** The size of a masked value: XER always becomes 64 bits wide. */
  function MaskedSize(kind: AdapterKind, v: Bits): nat {
    if kind.Ppc? then 64 else |v|
  }

  lemma MaskedBits(kind: AdapterKind, name: string, v: Bits)
    requires IsMasked(kind, name)
    ensures AdjustFromTrace(kind, name, v, None) == AdjustFromRizin(kind, name, v)
    ensures |AdjustFromRizin(kind, name, v)| == MaskedSize(kind, v)
    ensures forall i :: 0 <= i < MaskedSize(kind, v) ==>
              AdjustFromRizin(kind, name, v)[i] == (i < |v| && v[i] && !IsIgnoredBit(kind, name, i))
  {
    if kind.Ppc? { XerIsNoCrField(name); }
  }

  /** Where both sides are masked, the comparison succeeds exactly when the values have the same
      size, unless it is XER, and agree on all bits that are not ignored. */
  lemma MaskedComparison(kind: AdapterKind, name: string, v: Bits, w: Bits)
    requires IsMasked(kind, name)
    ensures AdjustFromTrace(kind, name, v, None) == AdjustFromRizin(kind, name, w)
       <==> (kind.Ppc? || |v| == |w|) && forall i: nat :: !IsIgnoredBit(kind, name, i) ==> SameBit(v, w, i)
  {
    var tv, rw := AdjustFromTrace(kind, name, v, None), AdjustFromRizin(kind, name, w);
    MaskedBits(kind, name, v);
    MaskedBits(kind, name, w);
    if tv == rw {
      forall i: nat | !IsIgnoredBit(kind, name, i) ensures SameBit(v, w, i) {
        if i < |tv| { assert tv[i] == rw[i]; }
      }
    }
    if (kind.Ppc? || |v| == |w|) && forall i: nat :: !IsIgnoredBit(kind, name, i) ==> SameBit(v, w, i) {
      forall i | 0 <= i < |tv| ensures tv[i] == rw[i] {
        assert !IsIgnoredBit(kind, name, i) ==> SameBit(v, w, i);
      }
    }
  }

  // ----- Waived checks

  predicate IgnorePCMismatch(kind: AdapterKind, actual: U64, expected: U64) {
    match kind
    case Arm32 =>
      actual / 2 == expected / 2 ||
      actual in {0xffff0ffc, 0xffff0fe0, 0xffff0fc0, 0xffff0fa0, 0xffff0f60}
    case Sparc32 => true
    case Sparc64 => true
    case _ => false
  }

  predicate IgnoreCompareMemMismatch(kind: AdapterKind) {
    kind.Hexagon?
  }

  predicate IgnorePostMismatchReg(kind: AdapterKind, name: string) {
    match kind
    case Sparc32 => name == "pc" || name == "npc" || name == "fprs"
    case Sparc64 => name == "pc" || name == "npc"
    case TriCore => ToLower(name) == "cpu_id" || ToLower(name) == "syscon"
    case _ => false
  }

  predicate AllowNoOperandSameValueAssignment(kind: AdapterKind) {
    kind.Vice? || IsSparc(kind) || kind.GameBoy?
  }

  predicate IsSparcOnlyReg(kind: AdapterKind, name: string) {
    name == "cwp" || name == "ccr" || name == "pstate" || name == "asi" || (kind.Sparc32? && name == "fprs")
  }

  predicate AssumeEventIsJustified(kind: AdapterKind, e: Event) {
    match kind
    case Sparc32 => AssumedBySparc(kind, e)
    case Sparc64 => AssumedBySparc(kind, e)
    case Hexagon(_) =>
      (match e
       case VarRead(variable, _) => HasSubstring(variable, "_tmp")
       case VarWrite(variable, oldValue, newValue) =>
         || HasSubstring(variable, "_tmp")
         || HasSubstring(variable, "C4")
         || (HasSubstring(variable, "C1") && oldValue == newValue)
       case _ => false)
    case TriCore => e.VarWrite? && e.oldValue == e.newValue
    case _ => false
  }

  predicate AssumedBySparc(kind: AdapterKind, e: Event)
    requires IsSparc(kind)
  {
    match e
    case VarRead(variable, _) => IsSparcOnlyReg(kind, variable)
    case VarWrite(variable, _, _) => IsSparcOnlyReg(kind, variable)
    case MemRead(index, _, _) => index == 1
    case MemStore(index, _, _) => index == 1
    case _ => false
  }

  // ----- Packed registers of Sparc

  /** A Rizin register that holds the bits shift, ..., shift+width-1 of a packed trace register. */
  datatype SubField = SubField(name: string, shift: nat, width: nat)

  function SubFields(kind: AdapterKind): seq<SubField> {
    match kind
    case Sparc32 => [SubField("cwp", 0, 5), SubField("ccr", 20, 4)]
    case Sparc64 => [SubField("cwp", 0, 8), SubField("asi", 24, 8), SubField("pstate", 8, 12), SubField("ccr", 32, 8)]
    case _ => []
  }

  /** The adapters assert that these registers exist. */
  predicate SubregsExist(kind: AdapterKind, p: Profile) {
    forall i :: 0 <= i < |SubFields(kind)| ==> SubFields(kind)[i].name in p.items
  }

  function FieldWrite(p: Profile, f: SubField, v: Bits): seq<RegWrite> {
    if f.name in p.items then [RegWrite(p.items[f.name], Field(Resize(v, 64), f.shift, f.width))] else []
  }

  function FieldWrites(p: Profile, fields: seq<SubField>, v: Bits): seq<RegWrite> {
    if fields == [] then []
    else FieldWrites(p, fields[..|fields| - 1], v) + FieldWrite(p, fields[|fields| - 1], v)
  }

  /** The register writes by which a packed trace register is set up. */
  function CustomWrites(kind: AdapterKind, p: Profile, v: Bits): seq<RegWrite> {
    FieldWrites(p, SubFields(kind), v)
  }

  /** Setting up field number k after the fields before it. */
  lemma SetupStep(p: Profile, a: Arena, fields: seq<SubField>, k: nat, v: Bits)
    requires k < |fields| && fields[k].name in p.items
    ensures var f := fields[k];
            var ri := p.items[f.name];
            ApplyWrites(a, FieldWrites(p, fields[..k + 1], v)) ==
            WriteReg(ApplyWrites(a, FieldWrites(p, fields[..k], v)), ri, Resize(Field(Resize(v, 64), f.shift, f.width), ri.size))
  {
    var f := fields[k];
    var w := RegWrite(p.items[f.name], Field(Resize(v, 64), f.shift, f.width));
    assert fields[..k + 1][..k] == fields[..k];
    assert FieldWrites(p, fields[..k + 1], v) == FieldWrites(p, fields[..k], v) + [w];
    ApplyOneMore(a, FieldWrites(p, fields[..k], v), w);
    WriteResized(ApplyWrites(a, FieldWrites(p, fields[..k], v)), w.ri, w.v);
  }

  /** The value of a sub-register as it is compared: of ccr on Sparc32 only the icc bits, in eight bits. */
  function ObservedSubreg(kind: AdapterKind, name: string, v: Bits): Bits {
    if kind.Sparc32? && name == "ccr" then Resize(Field(Resize(v, 64), 0, 4), 8) else v
  }

  predicate SubregMatches(kind: AdapterKind, p: Profile, a: Arena, name: string, expected: Bits) {
    name in p.items &&
    var ri := p.items[name];
    || ObservedSubreg(kind, name, ReadReg(a, ri)) == Resize(expected, ri.size)
    || IgnorePostMismatchReg(kind, name)
  }

  predicate CustomMatches(kind: AdapterKind, p: Profile, a: Arena, v: Bits) {
    forall i :: 0 <= i < |SubFields(kind)| ==>
      var f := SubFields(kind)[i];
      SubregMatches(kind, p, a, f.name, Field(Resize(v, 64), f.shift, f.width))
  }

  class RzReg {
    const profile: Profile
    var arena: Arena

    constructor (profile: Profile)
      ensures this.profile == profile && arena == ZeroArena(profile)
    {
      this.profile := profile;
      arena := ZeroArena(profile);
    }

    method SetBv(ri: RegItem, v: Bits)
      modifies this
      ensures arena == WriteReg(old(arena), ri, v)
    {
      arena := WriteReg(arena, ri, v);
    }
  }

  class TraceAdapter {
    const kind: AdapterKind
    const machine: U64
    var failedCustomCompare: bool

    constructor (kind: AdapterKind, machine: U64)
      ensures this.kind == kind && this.machine == machine
    {
      this.kind, this.machine, failedCustomCompare := kind, machine, false;
    }

    method CustomRegSetup(reg: RzReg, name: string, v: Bits)
      requires SubregsExist(kind, reg.profile)
      modifies reg
      ensures reg.arena == ApplyWrites(old(reg.arena),
                if RegNeedsCustomHandling(kind, name) then CustomWrites(kind, reg.profile, v) else [])
    {
      if !RegNeedsCustomHandling(kind, name) {
        return;
      }
      var word := Resize(v, 64);
      ghost var a := reg.arena;
      if kind.Sparc32? {
        SetSubreg(reg, "cwp", Field(word, 0, 5), a, 0, v);
        SetSubreg(reg, "ccr", Field(word, 20, 4), a, 1, v);
      } else {
        SetSubreg(reg, "cwp", Field(word, 0, 8), a, 0, v);
        SetSubreg(reg, "asi", Field(word, 24, 8), a, 1, v);
        SetSubreg(reg, "pstate", Field(word, 8, 12), a, 2, v);
        SetSubreg(reg, "ccr", Field(word, 32, 8), a, 3, v);
      }
      assert SubFields(kind)[..|SubFields(kind)|] == SubFields(kind);
    }

    /** Sets one sub-register; it is number k of those that make up v. */
    method SetSubreg(reg: RzReg, name: string, value: Bits, ghost a: Arena, ghost k: nat, ghost v: Bits)
      requires SubregsExist(kind, reg.profile) && k < |SubFields(kind)|
      requires name == SubFields(kind)[k].name
      requires value == Field(Resize(v, 64), SubFields(kind)[k].shift, SubFields(kind)[k].width)
      requires reg.arena == ApplyWrites(a, FieldWrites(reg.profile, SubFields(kind)[..k], v))
      modifies reg
      ensures reg.arena == ApplyWrites(a, FieldWrites(reg.profile, SubFields(kind)[..k + 1], v))
    {
      var ri := reg.profile.items[name];
      reg.SetBv(ri, Resize(value, ri.size));
      SetupStep(reg.profile, a, SubFields(kind), k, v);
    }

    method CompareSubreg(reg: RzReg, name: string, expected: Bits)
      requires name in reg.profile.items
      modifies this
      ensures failedCustomCompare ==
                (old(failedCustomCompare) || !SubregMatches(kind, reg.profile, reg.arena, name, expected))
    {
      var ri := reg.profile.items[name];
      var actual := ReadReg(reg.arena, ri);
      if kind.Sparc32? && name == "ccr" {
        actual := Resize(Field(Resize(actual, 64), 0, 4), 8);
      }
      if actual != Resize(expected, ri.size) && !IgnorePostMismatchReg(kind, name) {
        failedCustomCompare := true;
      }
    }

    /** The result does not depend on what an earlier comparison left in failedCustomCompare. */
    method CustomRegCompare(reg: RzReg, name: string, v: Bits) returns (matches: bool)
      requires SubregsExist(kind, reg.profile) && RegNeedsCustomHandling(kind, name)
      modifies this
      ensures matches == CustomMatches(kind, reg.profile, reg.arena, v)
      ensures failedCustomCompare == !matches
    {
      var word := Resize(v, 64);
      ghost var fields := SubFields(kind);
      failedCustomCompare := false;
      if kind.Sparc32? {
        assert fields[0].name in reg.profile.items && fields[1].name in reg.profile.items;
        CompareSubreg(reg, "cwp", Field(word, 0, 5));
        CompareSubreg(reg, "ccr", Field(word, 20, 4));
      } else {
        assert fields[0].name in reg.profile.items && fields[1].name in reg.profile.items
            && fields[2].name in reg.profile.items && fields[3].name in reg.profile.items;
        CompareSubreg(reg, "cwp", Field(word, 0, 8));
        CompareSubreg(reg, "asi", Field(word, 24, 8));
        CompareSubreg(reg, "pstate", Field(word, 8, 12));
        CompareSubreg(reg, "ccr", Field(word, 32, 8));
      }
      return !failedCustomCompare;
    }
  }
}
