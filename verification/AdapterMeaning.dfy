/** What the adapters do, in terms of names, bits and numbers: the value that an operand gives for
    a register, the checks that are waived and the bits setting that a frame requests. */
module AdapterMeaning {
  import opened BitVectors
  import opened Trace
  import opened Vm
  import opened Adapters

  // ----- Values

  /** The registers that hold a single bit, whatever the size of the value in the trace. */
  predicate IsFlagName(kind: AdapterKind, name: string) {
    || (kind.Arm32? && name in {"NF", "ZF", "CF", "VF", "QF"})
    || (kind.Arm64? && name in {"NF", "ZF", "CF", "VF"})
    || (kind.Ppc? && name in {"ca", "ca32", "ov", "ov32", "so"})
  }

  /** A value is cut to its lowest bits and stored in a given size. */
  datatype Cut = Cut(width: nat, size: nat)

  function CutOf(kind: AdapterKind, name: string): Option<Cut> {
    if kind.Arm32? && name == "GE" then Some(Cut(4, 4))
    else if kind.Sparc64? && name == "fprs" then Some(Cut(3, 3))
    else if kind.Ppc? && "crf" <= name then Some(Cut(4, 4))
    else if kind.Ppc? && name == "VRSAVE" then Some(Cut(32, 32))
    else if kind.GameBoy? && name == "pc" then Some(Cut(16, 32))
    else None
  }

  /** A flag is set exactly when the value is not zero. */
  lemma FlagValue(kind: AdapterKind, name: string, v: Bits, mnemonic: Option<string>)
    requires IsFlagName(kind, name)
    ensures var r := AdjustFromTrace(kind, name, v, mnemonic);
            |r| == 1 && (r[0] <==> ToNat(v) != 0)
  {
    ZeroHasNoBits(v);
    if kind.Ppc? { NoCrField(name); }
  }

  lemma NoCrField(name: string)
    requires IsFlagName(Ppc, name) || name == "XER" || name == "VRSAVE"
    ensures !("crf" <= name)
  {
    assert "crf"[0] == 'c' && "crf"[1] == 'r';
  }

  /** A value that is cut keeps its number modulo the power of two of its width. */
  lemma CutValue(kind: AdapterKind, name: string, v: Bits, mnemonic: Option<string>)
    requires CutOf(kind, name).Some?
    ensures var r := AdjustFromTrace(kind, name, v, mnemonic);
            |r| == CutOf(kind, name).value.size && ToNat(r) == ToNat(v) % Pow2(CutOf(kind, name).value.width)
  {
    var width, size := CutOf(kind, name).value.width, CutOf(kind, name).value.size;
    if kind.Ppc? && name == "VRSAVE" { NoCrField(name); }
    NumberOfResize(v, width);
    ResizeUp(Resize(v, width), size);
    ResizeSame(Resize(v, width));
  }

  /** Every other value that neither side masks is used as it is, except for results of mrs. */
  lemma KeptValue(kind: AdapterKind, name: string, v: Bits, mnemonic: Option<string>)
    requires !IsFlagName(kind, name) && CutOf(kind, name).None? && !IsMasked(kind, name)
    requires !(kind.Arm32? && IsMrs(v, mnemonic))
    ensures AdjustFromTrace(kind, name, v, mnemonic) == v
  {
  }

  /** Values of Rizin are used as they are where they are not masked. */
  lemma RizinValue(kind: AdapterKind, name: string, v: Bits)
    requires !IsMasked(kind, name)
    ensures AdjustFromRizin(kind, name, v) == v
  {
  }

  /** The operation is an mrs of 32-bit ARM, and bit i of its result is not compared: the mask
      leaves the flags and the GE bits. */
  predicate IsMrsMasked(kind: AdapterKind, size: nat, mnemonic: Option<string>, i: nat) {
    && kind.Arm32?
    && size == 32
    && mnemonic.Some? && "mrs " <= mnemonic.value
    && !(16 <= i < 20 || 27 <= i < 32)
  }

  /** The size of the value that operand o gives. */
  function TraceSize(kind: AdapterKind, name: string, o: Operand): nat {
    if IsFlagName(kind, name) then 1
    else if CutOf(kind, name).Some? then CutOf(kind, name).value.size
    else if kind.Ppc? && name == "XER" then 64
    else OperandSizeBits(o)
  }

  predicate SomeOperandBit(o: Operand) {
    exists j :: 0 <= j < 8 * |o.value| && OperandBit(o, j)
  }

  /** Bit i of the value that operand o gives, in terms of the operand's own bits. The mnemonic is
      given for post-operands only. */
  predicate TraceBit(kind: AdapterKind, name: string, o: Operand, mnemonic: Option<string>, i: nat) {
    if IsFlagName(kind, name) then i == 0 && SomeOperandBit(o)
    else if CutOf(kind, name).Some? then i < CutOf(kind, name).value.width && OperandBit(o, i)
    else OperandBit(o, i) && !IsIgnoredBit(kind, name, i) && !IsMrsMasked(kind, OperandSizeBits(o), mnemonic, i)
  }

  lemma MrsBits(v: Bits, mnemonic: Option<string>, name: string)
    requires !IsFlagName(Arm32, name) && name != "GE"
    ensures var r := AdjustFromTrace(Arm32, name, v, mnemonic);
            |r| == |v| && forall i :: 0 <= i < |v| ==> r[i] == (v[i] && !IsMrsMasked(Arm32, |v|, mnemonic, i))
  {
    var r := AdjustFromTrace(Arm32, name, v, mnemonic);
    if IsMrs(v, mnemonic) { assert r == ClearRange(ClearRange(v, 0, 16), 20, 27); }
  }

  lemma FlagBits(kind: AdapterKind, name: string, o: Operand, mnemonic: Option<string>)
    requires IsFlagName(kind, name)
    ensures AdjustFromTrace(kind, name, RegOperandValue(o), mnemonic) == [SomeOperandBit(o)]
  {
    var v := RegOperandValue(o);
    RegOperandBits(o);
    FlagValue(kind, name, v, mnemonic);
    ZeroHasNoBits(v);
    if SomeOperandBit(o) {
      var j :| 0 <= j < 8 * |o.value| && OperandBit(o, j);
      assert HasBit(o, j) && v[j];
    }
  }

  lemma CutBits(kind: AdapterKind, name: string, o: Operand, mnemonic: Option<string>)
    requires CutOf(kind, name).Some?
    ensures var r, cut := AdjustFromTrace(kind, name, RegOperandValue(o), mnemonic), CutOf(kind, name).value;
            |r| == cut.size && forall i :: 0 <= i < cut.size ==> r[i] == (i < cut.width && OperandBit(o, i))
  {
    var v, cut := RegOperandValue(o), CutOf(kind, name).value;
    RegOperandBits(o);
    if kind.Ppc? && name == "VRSAVE" { NoCrField(name); }
    forall i | 0 <= i < cut.size ensures Resize(Resize(v, cut.width), cut.size)[i] == (i < cut.width && OperandBit(o, i)) {
      assert OperandBit(o, i) ==> HasBit(o, i);
    }
    assert Resize(v, 4) == Resize(Resize(v, 4), 4) && Resize(v, 3) == Resize(Resize(v, 3), 3)
        && Resize(v, 32) == Resize(Resize(v, 32), 32);
  }

  lemma MaskedOperandBits(kind: AdapterKind, name: string, o: Operand, mnemonic: Option<string>)
    requires IsMasked(kind, name)
    ensures var r := AdjustFromTrace(kind, name, RegOperandValue(o), mnemonic);
            && |r| == TraceSize(kind, name, o)
            && forall i :: 0 <= i < |r| ==> r[i] == (OperandBit(o, i) && !IsIgnoredBit(kind, name, i))
  {
    MaskedBits(kind, name, RegOperandValue(o));
    RegOperandBits(o);
    if kind.Ppc? { NoCrField(name); }
  }

  /** What the checker makes of an operand for a register, bit by bit. */
  lemma AdjustedBits(kind: AdapterKind, name: string, o: Operand, mnemonic: Option<string>)
    ensures var r := AdjustFromTrace(kind, name, RegOperandValue(o), mnemonic);
            |r| == TraceSize(kind, name, o) && forall i :: 0 <= i < |r| ==> r[i] == TraceBit(kind, name, o, mnemonic, i)
  {
    var v := RegOperandValue(o);
    RegOperandBits(o);
    if IsFlagName(kind, name) {
      FlagBits(kind, name, o, mnemonic);
    } else if CutOf(kind, name).Some? {
      CutBits(kind, name, o, mnemonic);
    } else if IsMasked(kind, name) {
      MaskedOperandBits(kind, name, o, mnemonic);
    } else if kind.Arm32? {
      MrsBits(v, mnemonic, name);
    } else {
      KeptValue(kind, name, v, mnemonic);
    }
  }

  /** A bit behind the end of the given value is zero. */
  lemma TraceBitInSize(kind: AdapterKind, name: string, o: Operand, mnemonic: Option<string>, i: nat)
    requires TraceBit(kind, name, o, mnemonic, i)
    ensures i < TraceSize(kind, name, o)
  {
    assert OperandBit(o, i) ==> HasBit(o, i);
  }

  lemma AdjustedBit(kind: AdapterKind, name: string, o: Operand, mnemonic: Option<string>, i: nat)
    ensures var r := AdjustFromTrace(kind, name, RegOperandValue(o), mnemonic);
            TraceBit(kind, name, o, mnemonic, i) <==> i < |r| && r[i]
  {
    AdjustedBits(kind, name, o, mnemonic);
    if TraceBit(kind, name, o, mnemonic, i) { TraceBitInSize(kind, name, o, mnemonic, i); }
  }

  /** The number that an operand spells: its bytes, the first one counting least, as far as its
      bit length goes. */
  function OperandNumber(o: Operand): nat {
    LittleEndian(o.value) % Pow2(OperandSizeBits(o))
  }

  lemma RegOperandNumber(o: Operand)
    ensures ToNat(RegOperandValue(o)) == OperandNumber(o)
  {
    NumberOfBytesLE(o.value, OperandSizeBits(o));
  }

  // ----- Comparison of a register

  /** The size in which values of n bits are compared. */
  function ComparedSize(kind: AdapterKind, name: string, n: nat): nat {
    if kind.Ppc? && name == "XER" then 64 else n
  }

  /** A register with bits v agrees with an operand. Registers that both sides mask are compared in
      what the mask leaves. */
  ghost predicate BitsAgree(kind: AdapterKind, name: string, o: Operand, mnemonic: Option<string>, v: Bits) {
    && TraceSize(kind, name, o) == ComparedSize(kind, name, |v|)
    && forall i: nat :: i < TraceSize(kind, name, o) ==>
         (TraceBit(kind, name, o, mnemonic, i) <==> i < |v| && v[i] && !IsIgnoredBit(kind, name, i))
  }

  lemma ComparedBits(kind: AdapterKind, name: string, v: Bits)
    ensures var r := AdjustFromRizin(kind, name, v);
            && |r| == ComparedSize(kind, name, |v|)
            && forall i :: 0 <= i < |r| ==> r[i] == (i < |v| && v[i] && !IsIgnoredBit(kind, name, i))
  {
    if IsMasked(kind, name) { MaskedBits(kind, name, v); } else { RizinValue(kind, name, v); }
  }

  /** The comparison of a register succeeds exactly when its bits agree with those of the operand. */
  lemma ComparisonIsBitwise(kind: AdapterKind, name: string, o: Operand, mnemonic: Option<string>, v: Bits)
    ensures AdjustFromTrace(kind, name, RegOperandValue(o), mnemonic) == AdjustFromRizin(kind, name, v)
       <==> BitsAgree(kind, name, o, mnemonic, v)
  {
    AdjustedBits(kind, name, o, mnemonic);
    ComparedBits(kind, name, v);
  }

  // ----- Waived checks

  predicate EqualsIgnoringCase(s: string, lower: string) {
    |s| == |lower| && forall i :: 0 <= i < |s| ==> s[i] == lower[i] || ('A' <= s[i] <= 'Z' && s[i] as int + 32 == lower[i] as int)
  }

  lemma SameLower(s: string, lower: string)
    requires forall i :: 0 <= i < |lower| ==> !('A' <= lower[i] <= 'Z')
    ensures ToLower(s) == lower <==> EqualsIgnoringCase(s, lower)
  {
    if ToLower(s) == lower {
      forall i | 0 <= i < |s| ensures s[i] == lower[i] || ('A' <= s[i] <= 'Z' && s[i] as int + 32 == lower[i] as int) {
        assert ToLower(s)[i] == lower[i];
      }
    }
    if EqualsIgnoringCase(s, lower) {
      forall i | 0 <= i < |s| ensures ToLower(s)[i] == lower[i] {
      }
    }
  }

  /** The registers whose values need not match. */
  lemma WaivedRegisters(kind: AdapterKind, name: string)
    ensures IgnorePostMismatchReg(kind, name) <==>
            || (IsSparc(kind) && name in {"pc", "npc"})
            || (kind.Sparc32? && name == "fprs")
            || (kind.TriCore? && (EqualsIgnoringCase(name, "cpu_id") || EqualsIgnoringCase(name, "syscon")))
  {
    SameLower(name, "cpu_id");
    SameLower(name, "syscon");
  }

  /** The program counters that are accepted in place of the expected one: any on Sparc; on 32-bit
      ARM the other one of the same halfword and five entries of the kernel. */
  lemma WaivedProgramCounters(kind: AdapterKind, actual: U64, expected: U64)
    ensures IgnorePCMismatch(kind, actual, expected) <==>
            || IsSparc(kind)
            || (kind.Arm32? && (|| actual - actual % 2 == expected - expected % 2
                                || (0xffff0f60 <= actual <= 0xffff0ffc && actual - 0xffff0f00 in {0x60, 0xa0, 0xc0, 0xe0, 0xfc})))
  {
  }

  ghost predicate Mentions(s: string, sub: string) {
    exists x, y :: s == x + sub + y
  }

  lemma SubstringIsMention(s: string, sub: string)
    ensures HasSubstring(s, sub) <==> Mentions(s, sub)
  {
    if HasSubstring(s, sub) {
      var i :| 0 <= i <= |s| && sub <= s[i..];
      assert s == s[..i] + sub + s[i + |sub|..];
    }
    if Mentions(s, sub) {
      var x, y :| s == x + sub + y;
      assert s[|x|..] == sub + y;
    }
  }

  /** The events that need no explanation. */
  ghost predicate IsAssumed(kind: AdapterKind, e: Event) {
    || (IsSparc(kind) && (e.VarRead? || e.VarWrite?)
        && (e.variable in {"cwp", "ccr", "pstate", "asi"} || (kind.Sparc32? && e.variable == "fprs")))
    || (IsSparc(kind) && (e.MemRead? || e.MemStore?) && e.index == 1)
    || (kind.Hexagon? && (e.VarRead? || e.VarWrite?) && Mentions(e.variable, "_tmp"))
    || (kind.Hexagon? && e.VarWrite? && Mentions(e.variable, "C4"))
    || (kind.Hexagon? && e.VarWrite? && Mentions(e.variable, "C1") && e.oldValue == e.newValue)
    || (kind.TriCore? && e.VarWrite? && e.oldValue == e.newValue)
  }

  lemma AssumedExactly(kind: AdapterKind, e: Event)
    ensures AssumeEventIsJustified(kind, e) <==> IsAssumed(kind, e)
  {
    if e.VarRead? || e.VarWrite? {
      SubstringIsMention(e.variable, "_tmp");
      SubstringIsMention(e.variable, "C4");
      SubstringIsMention(e.variable, "C1");
    }
  }

  // ----- The bits setting

  /** The number as a signed one of 32 bits. */
  ghost predicate IsSigned32(n: U64, r: int) {
    -0x8000_0000 <= r < 0x8000_0000 && exists k: int :: n == r + k * TWO_TO_THE_32
  }

  lemma ToInt32IsSigned32(n: U64)
    ensures forall r :: IsSigned32(n, r) <==> r == ToInt32(n)
  {
    var k := (n + 0x8000_0000) / TWO_TO_THE_32;
    assert n == ToInt32(n) + k * TWO_TO_THE_32;
    forall r | IsSigned32(n, r) ensures r == ToInt32(n) {
      var j: int :| n == r + j * TWO_TO_THE_32;
      assert r + 0x8000_0000 == (n + 0x8000_0000) - j * TWO_TO_THE_32;
    }
  }

  /** The adapters that take the setting from the machine number, for a frame in this mode. */
  predicate TakesMachine(kind: AdapterKind, mode: Option<Mode>) {
    kind.Mips? || (kind.Ppc? && mode.None?)
  }

  /** Which frames request which setting, by the setting. */
  lemma RequestedBits(kind: AdapterKind, mode: Option<Mode>, machine: U64)
    ensures var bits := RizinBits(kind, mode, machine);
            if TakesMachine(kind, mode) then IsSigned32(machine, bits)
            else
              && bits in {0, 16, 32, 64}
              && (bits == 0 <==> kind.Vice? || kind.GameBoy?)
              && (bits == 16 <==> kind.I8051? || (kind.Arm32? && mode == Some(ArmT32)))
              && (bits == 64 <==> || kind.Arm64? || kind.Sparc64?
                                  || (kind.Ppc? && mode == Some(Ppc64))
                                  || (kind.X86? && machine == kind.machX86_64))
  {
    ToInt32IsSigned32(machine);
  }

  // ----- Names

  predicate NoCapitals(s: string) {
    forall i :: 0 <= i < |s| ==> !('A' <= s[i] <= 'Z')
  }

  predicate NoSmallLetters(s: string) {
    forall i :: 0 <= i < |s| ==> !('a' <= s[i] <= 'z')
  }

  /** r is the name s in small letters. */
  predicate IsSmall(s: string, r: string) {
    NoCapitals(r) && EqualsIgnoringCase(s, r)
  }

  /** r is the name s in capitals. */
  predicate IsCapital(s: string, r: string) {
    NoSmallLetters(r) && |r| == |s| && forall i :: 0 <= i < |s| ==> EqualsIgnoringCase([r[i]], ToLower([s[i]]))
  }

  predicate IsDataOrAddressRegister(name: string) {
    |name| > 1 && name[0] in {'a', 'd'} && forall i :: 1 <= i < |name| ==> name[i] in "0123456789"
  }

  /** The adapters that use names in small letters, with few exceptions. */
  lemma SmallNames(kind: AdapterKind, name: string)
    ensures var r := TraceRegToRizin(kind, name);
            && (kind.X86? ==> IsSmall(name, r))
            && (kind.Arm32? ==> (if name == "GE" then r == "gef" else IsSmall(name, r)))
            && (kind.Arm64? && !("R" <= name) ==> IsSmall(name, r))
            && (kind.Arm64? && "R" <= name ==> (if name == "R31" then r == "sp" else "x" <= r && r[1..] == name[1..]))
            && (kind.Ppc? && !("crf" <= name) ==> IsSmall(name, r))
            && (kind.Ppc? && "crf" <= name && |name| == 4 ==> |r| == 3 && "cr" <= r && r[2] == name[3])
  {
    SmallName(name);
    if kind.Arm64? && |name| >= 1 { assert "R" <= name <==> name[0] == 'R'; }
    if kind.Ppc? && "crf" <= name { assert name[..2] == "cr"; }
  }

  /** The adapters that use capitals. */
  lemma CapitalNames(kind: AdapterKind, name: string)
    ensures var r := TraceRegToRizin(kind, name);
            && (kind.TriCore? ==> (if IsDataOrAddressRegister(name) then r == name else IsCapital(name, r)))
            && (kind.Hexagon? ==> IsCapital(if name in kind.names then kind.names[name] else name, r))
  {
    CapitalName(name);
    if kind.Hexagon? && name in kind.names { CapitalName(kind.names[name]); }
    assert forall d: char :: d in "0123456789" <==> '0' <= d <= '9';
  }

  /** The adapters that keep names, but for one. */
  lemma KeptNames(kind: AdapterKind, name: string)
    ensures var r := TraceRegToRizin(kind, name);
            && (IsSparc(kind) || kind.I8051? || kind.Mips? ==> r == name)
            && (kind.Vice? ==> (if name == "sr" then r == "flags" else r == name))
            && (kind.GameBoy? ==> (if name == "pc" then r == "mpc" else r == name))
  {
  }

  lemma SmallName(name: string)
    ensures IsSmall(name, ToLower(name))
  {
  }

  lemma CapitalName(name: string)
    ensures IsCapital(name, ToUpper(name))
  {
  }
}
