/** The packed status registers of Sparc: setting up from one value and comparing with another
    is a comparison of exactly the decoded bits. */
module SparcPacked {
  import opened BitVectors
  import opened Registers
  import opened Adapters

  ghost predicate SubregsDisjoint(kind: AdapterKind, p: Profile)
    requires SubregsExist(kind, p)
  {
    forall i, j :: 0 <= i < j < |SubFields(kind)| ==>
      Disjoint(p.items[SubFields(kind)[i].name], p.items[SubFields(kind)[j].name])
  }

  predicate FieldsExist(p: Profile, fields: seq<SubField>) {
    forall i :: 0 <= i < |fields| ==> fields[i].name in p.items
  }

  lemma {:induction false} FieldWriteAt(p: Profile, fields: seq<SubField>, v: Bits, k: nat)
    requires FieldsExist(p, fields)
    ensures |FieldWrites(p, fields, v)| == |fields|
    ensures k < |fields| ==>
      FieldWrites(p, fields, v)[k] == RegWrite(p.items[fields[k].name], Field(Resize(v, 64), fields[k].shift, fields[k].width))
  {
    if fields != [] {
      var n := |fields| - 1;
      assert FieldsExist(p, fields[..n]);
      FieldWriteAt(p, fields[..n], v, k);
      assert k < n ==> fields[..n][k] == fields[k];
    }
  }

  lemma SubregAfterSetup(kind: AdapterKind, p: Profile, a: Arena, v: Bits, k: nat)
    requires SubregsExist(kind, p) && SubregsDisjoint(kind, p) && WellFormed(p) && a.Keys == p.cells
    requires k < |SubFields(kind)|
    ensures var f := SubFields(kind)[k];
            ReadReg(ApplyWrites(a, CustomWrites(kind, p, v)), p.items[f.name]) ==
            Resize(Field(Resize(v, 64), f.shift, f.width), p.items[f.name].size)
  {
    var fields, ws := SubFields(kind), CustomWrites(kind, p, v);
    assert FieldsExist(p, fields);
    forall i | 0 <= i < |fields|
      ensures |ws| == |fields|
      ensures ws[i] == RegWrite(p.items[fields[i].name], Field(Resize(v, 64), fields[i].shift, fields[i].width))
    {
      FieldWriteAt(p, fields, v, i);
    }
    forall i, j | 0 <= i < j < |ws| ensures Agree(ws[i], ws[j]) {
      assert Disjoint(p.items[fields[i].name], p.items[fields[j].name]);
    }
    AgreeingWritesReadBack(p, a, ws, k);
  }

  /** Bit b of a packed register is a bit of field f that a sub-register of the given size has room for. */
  predicate IsStored(f: SubField, size: nat, b: int) {
    f.shift <= b < f.shift + f.width && b < f.shift + size
  }

  ghost predicate AgreeOnField(s: Bits, t: Bits, f: SubField, size: nat) {
    forall b :: IsStored(f, size, b) ==> SameBit(s, t, b)
  }

  function StoredField(v: Bits, f: SubField, size: nat): (r: Bits)
    ensures |r| == size
  {
    Resize(Field(Resize(v, 64), f.shift, f.width), size)
  }

  lemma StoredFieldBit(v: Bits, f: SubField, size: nat, i: nat)
    requires f.shift + f.width <= 64 && i < size
    ensures StoredField(v, f, size)[i] <==> i < f.width && f.shift + i < |v| && v[f.shift + i]
  {
  }

  /** A field that is stored in `size` bits compares equal exactly when its stored bits do. */
  lemma StoredFieldComparison(s: Bits, t: Bits, f: SubField, size: nat)
    requires f.shift + f.width <= 64
    ensures StoredField(s, f, size) == StoredField(t, f, size) <==> AgreeOnField(s, t, f, size)
  {
    if StoredField(s, f, size) == StoredField(t, f, size) {
      forall b | IsStored(f, size, b) ensures SameBit(s, t, b) {
        StoredFieldBit(s, f, size, b - f.shift);
        StoredFieldBit(t, f, size, b - f.shift);
      }
    }
    if AgreeOnField(s, t, f, size) {
      forall i | 0 <= i < size ensures StoredField(s, f, size)[i] == StoredField(t, f, size)[i] {
        StoredFieldBit(s, f, size, i);
        StoredFieldBit(t, f, size, i);
        assert i < f.width ==> IsStored(f, size, f.shift + i);
      }
    }
  }

  /** The icc bits are compared in eight bits, whatever the size of ccr. */
  lemma ObservedIcc(v: Bits)
    ensures var r := StoredField(v, SubField("ccr", 20, 4), 8); ObservedSubreg(Sparc32, "ccr", r) == r
  {
    var r := StoredField(v, SubField("ccr", 20, 4), 8);
    forall i | 0 <= i < 8 ensures ObservedSubreg(Sparc32, "ccr", r)[i] == r[i] {
    }
  }

  lemma SubregComparison(kind: AdapterKind, p: Profile, a: Arena, s: Bits, t: Bits, k: nat)
    requires IsSparc(kind) && SubregsExist(kind, p) && SubregsDisjoint(kind, p) && WellFormed(p) && a.Keys == p.cells
    requires k < |SubFields(kind)|
    ensures var f := SubFields(kind)[k];
            var size := p.items[f.name].size;
            SubregMatches(kind, p, ApplyWrites(a, CustomWrites(kind, p, s)), f.name, Field(Resize(t, 64), f.shift, f.width))
            <==> (kind.Sparc32? && f.name == "ccr" ==> size == 8) && AgreeOnField(s, t, f, size)
  {
    var f := SubFields(kind)[k];
    var size := p.items[f.name].size;
    SubregAfterSetup(kind, p, a, s, k);
    StoredFieldComparison(s, t, f, size);
    assert !IgnorePostMismatchReg(kind, f.name);
    if kind.Sparc32? && f.name == "ccr" {
      ObservedIcc(s);
      assert |ObservedSubreg(kind, f.name, StoredField(s, f, size))| == 8;
      assert |StoredField(t, f, size)| == size;
    }
  }

  /** Setup from s and comparison with t succeed exactly when s and t agree on every decoded bit
      that its sub-register has room for and, on Sparc32, ccr has eight bits. */
  lemma PackedComparison(kind: AdapterKind, p: Profile, a: Arena, s: Bits, t: Bits)
    requires IsSparc(kind) && SubregsExist(kind, p) && SubregsDisjoint(kind, p) && WellFormed(p) && a.Keys == p.cells
    ensures CustomMatches(kind, p, ApplyWrites(a, CustomWrites(kind, p, s)), t)
       <==> && (kind.Sparc32? ==> "ccr" in p.items && p.items["ccr"].size == 8)
            && forall k :: 0 <= k < |SubFields(kind)| ==>
                 AgreeOnField(s, t, SubFields(kind)[k], p.items[SubFields(kind)[k].name].size)
  {
    var fields := SubFields(kind);
    forall k | 0 <= k < |fields|
      ensures SubregMatches(kind, p, ApplyWrites(a, CustomWrites(kind, p, s)), fields[k].name,
                            Field(Resize(t, 64), fields[k].shift, fields[k].width))
         <==> && (kind.Sparc32? && fields[k].name == "ccr" ==> p.items[fields[k].name].size == 8)
              && AgreeOnField(s, t, fields[k], p.items[fields[k].name].size)
    {
      SubregComparison(kind, p, a, s, t, k);
    }
    if kind.Sparc32? {
      assert fields[1].name == "ccr" && fields[1].name in p.items;
    }
  }

  /** The bits of a packed register that are decoded. */
  predicate IsDecoded(kind: AdapterKind, b: int) {
    match kind
    case Sparc32 => 0 <= b < 5 || 20 <= b < 24
    case Sparc64 => 0 <= b < 20 || 24 <= b < 40
    case _ => false
  }

  /** Every sub-register has room for its field. */
  predicate HasRoom(kind: AdapterKind, p: Profile)
    requires SubregsExist(kind, p)
  {
    forall k :: 0 <= k < |SubFields(kind)| ==> SubFields(kind)[k].width <= p.items[SubFields(kind)[k].name].size
  }

  /** The field that bit b of a packed register belongs to. */
  function FieldOfBit(kind: AdapterKind, b: int): (k: nat)
    requires IsDecoded(kind, b)
    ensures k < |SubFields(kind)| && SubFields(kind)[k].shift <= b < SubFields(kind)[k].shift + SubFields(kind)[k].width
  {
    if kind.Sparc32? then (if b < 5 then 0 else 1)
    else if b < 8 then 0 else if b < 20 then 2 else if b < 32 then 1 else 3
  }

  lemma FieldsAreDecoded(kind: AdapterKind, f: SubField, b: int)
    requires f in SubFields(kind) && f.shift <= b < f.shift + f.width
    ensures IsDecoded(kind, b)
  {
  }

  /** Agreement on all fields that have room is agreement on all decoded bits. */
  lemma AgreementOnDecodedBits(kind: AdapterKind, p: Profile, s: Bits, t: Bits)
    requires SubregsExist(kind, p) && HasRoom(kind, p)
    ensures (forall k :: 0 <= k < |SubFields(kind)| ==>
               AgreeOnField(s, t, SubFields(kind)[k], p.items[SubFields(kind)[k].name].size))
       <==> forall b :: IsDecoded(kind, b) ==> SameBit(s, t, b)
  {
    var fields := SubFields(kind);
    if forall k :: 0 <= k < |fields| ==> AgreeOnField(s, t, fields[k], p.items[fields[k].name].size) {
      forall b | IsDecoded(kind, b) ensures SameBit(s, t, b) {
        var f := fields[FieldOfBit(kind, b)];
        assert IsStored(f, p.items[f.name].size, b);
      }
    }
    if forall b :: IsDecoded(kind, b) ==> SameBit(s, t, b) {
      forall k | 0 <= k < |fields| ensures AgreeOnField(s, t, fields[k], p.items[fields[k].name].size) {
        forall b | IsStored(fields[k], p.items[fields[k].name].size, b) ensures SameBit(s, t, b) {
          FieldsAreDecoded(kind, fields[k], b);
        }
      }
    }
  }

  /** With sub-registers that have room for their fields, no other bit plays a role. */
  lemma PackedComparisonOfDecodedBits(kind: AdapterKind, p: Profile, a: Arena, s: Bits, t: Bits)
    requires IsSparc(kind) && SubregsExist(kind, p) && SubregsDisjoint(kind, p) && WellFormed(p) && a.Keys == p.cells
    requires HasRoom(kind, p)
    requires kind.Sparc32? ==> "ccr" in p.items && p.items["ccr"].size == 8
    ensures CustomMatches(kind, p, ApplyWrites(a, CustomWrites(kind, p, s)), t)
       <==> forall b :: IsDecoded(kind, b) ==> SameBit(s, t, b)
  {
    PackedComparison(kind, p, a, s, t);
    AgreementOnDecodedBits(kind, p, s, t);
  }

  // ----- Which bits go to which register

  /** The number of a field, as far as it fits into n bits. */
  lemma NumberOfStoredField(v: Bits, f: SubField, n: nat)
    requires f.shift + f.width <= 64
    ensures ToNat(StoredField(v, f, n)) == ToNat(v) / Pow2(f.shift) % Pow2(f.width) % Pow2(n)
  {
    assert Field(Resize(v, 64), f.shift, f.width) == Field(v, f.shift, f.width);
    NumberOfField(v, f.shift, f.width);
    NumberOfResize(Field(v, f.shift, f.width), n);
  }

  lemma SmallPowers()
    ensures Pow2(0) == 1 && Pow2(4) == 0x10 && Pow2(5) == 0x20 && Pow2(8) == 0x100 && Pow2(12) == 0x1000
    ensures Pow2(20) == 0x10_0000 && Pow2(24) == 0x100_0000 && Pow2(32) == 0x1_0000_0000
  {
    assert Pow2(16) == 0x1_0000;
  }

  /** The number in register `name`, which has to be in the profile. */
  function NumberIn(p: Profile, a: Arena, name: string): nat
    requires name in p.items
  {
    ToNat(ReadReg(a, p.items[name]))
  }

  /** As much of n as register `name` has room for. */
  function Room(p: Profile, name: string, n: nat): nat
    requires name in p.items
  {
    n % Pow2(p.items[name].size)
  }

  /** The registers hold what the trace value n of `state` says. */
  predicate HoldsState(p: Profile, a: Arena, n: nat)
    requires "cwp" in p.items && "asi" in p.items && "pstate" in p.items && "ccr" in p.items
  {
    && NumberIn(p, a, "cwp") == Room(p, "cwp", n % 0x100)
    && NumberIn(p, a, "pstate") == Room(p, "pstate", n / 0x100 % 0x1000)
    && NumberIn(p, a, "asi") == Room(p, "asi", n / 0x100_0000 % 0x100)
    && NumberIn(p, a, "ccr") == Room(p, "ccr", n / 0x1_0000_0000 % 0x100)
  }

  predicate HasStateRegs(p: Profile) {
    "cwp" in p.items && "asi" in p.items && "pstate" in p.items && "ccr" in p.items
  }

  lemma StateRegsExist(kind: AdapterKind, p: Profile)
    requires SubregsExist(kind, p)
    ensures kind.Sparc64? ==> HasStateRegs(p)
    ensures kind.Sparc32? ==> "cwp" in p.items && "ccr" in p.items
  {
    var fields := SubFields(kind);
    if kind.Sparc64? {
      assert fields[0].name in p.items && fields[1].name in p.items && fields[2].name in p.items && fields[3].name in p.items;
    } else if kind.Sparc32? {
      assert fields[0].name in p.items && fields[1].name in p.items;
    }
  }

  /** After setup each field is in the register of its name. */
  lemma StateAfterSetup(p: Profile, a: Arena, v: Bits)
    requires SubregsExist(Sparc64, p) && SubregsDisjoint(Sparc64, p) && WellFormed(p) && a.Keys == p.cells
    ensures HasStateRegs(p) && HoldsState(p, ApplyWrites(a, CustomWrites(Sparc64, p, v)), ToNat(v))
  {
    StateRegsExist(Sparc64, p);
    forall k | 0 <= k < 4
      ensures var f := SubFields(Sparc64)[k];
              NumberIn(p, ApplyWrites(a, CustomWrites(Sparc64, p, v)), f.name) ==
              Room(p, f.name, ToNat(v) / Pow2(f.shift) % Pow2(f.width))
    {
      var f := SubFields(Sparc64)[k];
      SubregAfterSetup(Sparc64, p, a, v, k);
      NumberOfStoredField(v, f, p.items[f.name].size);
    }
    StateFields(p, ApplyWrites(a, CustomWrites(Sparc64, p, v)), ToNat(v));
  }

  /** A register compares equal with a field exactly when it holds the field's number. */
  lemma FieldComparison(p: Profile, a: Arena, v: Bits, f: SubField)
    requires f.name in p.items && f.shift + f.width <= 64
    ensures ReadReg(a, p.items[f.name]) == StoredField(v, f, p.items[f.name].size) <==>
            NumberIn(p, a, f.name) == Room(p, f.name, ToNat(v) / Pow2(f.shift) % Pow2(f.width))
  {
    NumberOfStoredField(v, f, p.items[f.name].size);
    SameNumberSameBits(ReadReg(a, p.items[f.name]), StoredField(v, f, p.items[f.name].size));
  }

  lemma StateFieldMatches(p: Profile, a: Arena, v: Bits, f: SubField)
    requires f in SubFields(Sparc64) && f.name in p.items
    ensures SubregMatches(Sparc64, p, a, f.name, Field(Resize(v, 64), f.shift, f.width)) <==>
            NumberIn(p, a, f.name) == Room(p, f.name, ToNat(v) / Pow2(f.shift) % Pow2(f.width))
  {
    FieldComparison(p, a, v, f);
    assert !IgnorePostMismatchReg(Sparc64, f.name);
  }

  /** The comparison of `state` succeeds exactly when each register holds its field. */
  lemma StateComparison(p: Profile, a: Arena, v: Bits)
    requires SubregsExist(Sparc64, p)
    ensures HasStateRegs(p) && (CustomMatches(Sparc64, p, a, v) <==> HoldsState(p, a, ToNat(v)))
  {
    StateRegsExist(Sparc64, p);
    var fields := SubFields(Sparc64);
    forall k | 0 <= k < 4
      ensures var f := fields[k];
              SubregMatches(Sparc64, p, a, f.name, Field(Resize(v, 64), f.shift, f.width)) <==>
              NumberIn(p, a, f.name) == Room(p, f.name, ToNat(v) / Pow2(f.shift) % Pow2(f.width))
    {
      StateFieldMatches(p, a, v, fields[k]);
    }
    StateFields(p, a, ToNat(v));
    assert CustomMatches(Sparc64, p, a, v) <==>
           forall k :: 0 <= k < 4 ==>
             SubregMatches(Sparc64, p, a, fields[k].name, Field(Resize(v, 64), fields[k].shift, fields[k].width));
  }

  lemma StateFields(p: Profile, a: Arena, n: nat)
    requires HasStateRegs(p) && SubregsExist(Sparc64, p)
    ensures HoldsState(p, a, n) <==>
            forall k :: 0 <= k < 4 ==>
              var f := SubFields(Sparc64)[k];
              NumberIn(p, a, f.name) == Room(p, f.name, n / Pow2(f.shift) % Pow2(f.width))
  {
    SmallPowers();
    var fields := SubFields(Sparc64);
    assert fields[0] == SubField("cwp", 0, 8) && fields[1] == SubField("asi", 24, 8);
    assert fields[2] == SubField("pstate", 8, 12) && fields[3] == SubField("ccr", 32, 8);
  }

  /** After setup of `psr` the window pointer and the icc bits are in their registers. */
  lemma PsrAfterSetup(p: Profile, a: Arena, v: Bits)
    requires SubregsExist(Sparc32, p) && SubregsDisjoint(Sparc32, p) && WellFormed(p) && a.Keys == p.cells
    ensures "cwp" in p.items && "ccr" in p.items
    ensures var a' := ApplyWrites(a, CustomWrites(Sparc32, p, v));
            && NumberIn(p, a', "cwp") == Room(p, "cwp", ToNat(v) % 0x20)
            && NumberIn(p, a', "ccr") == Room(p, "ccr", ToNat(v) / 0x10_0000 % 0x10)
  {
    StateRegsExist(Sparc32, p);
    SmallPowers();
    var fields := SubFields(Sparc32);
    assert fields[0] == SubField("cwp", 0, 5) && fields[1] == SubField("ccr", 20, 4);
    SubregAfterSetup(Sparc32, p, a, v, 0);
    SubregAfterSetup(Sparc32, p, a, v, 1);
    NumberOfStoredField(v, fields[0], p.items["cwp"].size);
    NumberOfStoredField(v, fields[1], p.items["ccr"].size);
  }

  /** The comparison of `psr` succeeds exactly when ccr has eight bits, of which the lowest four are
      the icc bits, and the window pointer is in its register. */
  lemma PsrComparison(p: Profile, a: Arena, v: Bits)
    requires SubregsExist(Sparc32, p)
    ensures "cwp" in p.items && "ccr" in p.items
    ensures CustomMatches(Sparc32, p, a, v) <==>
              && NumberIn(p, a, "cwp") == Room(p, "cwp", ToNat(v) % 0x20)
              && p.items["ccr"].size == 8
              && NumberIn(p, a, "ccr") % 0x10 == ToNat(v) / 0x10_0000 % 0x10
  {
    StateRegsExist(Sparc32, p);
    SmallPowers();
    var fields := SubFields(Sparc32);
    assert fields[0] == SubField("cwp", 0, 5) && fields[1] == SubField("ccr", 20, 4);
    FieldComparison(p, a, v, fields[0]);
    IccComparison(p, a, v);
    assert !IgnorePostMismatchReg(Sparc32, "cwp") && !IgnorePostMismatchReg(Sparc32, "ccr");
    assert CustomMatches(Sparc32, p, a, v) <==>
           && SubregMatches(Sparc32, p, a, fields[0].name, Field(Resize(v, 64), 0, 5))
           && SubregMatches(Sparc32, p, a, fields[1].name, Field(Resize(v, 64), 20, 4));
  }

  lemma IccComparison(p: Profile, a: Arena, v: Bits)
    requires "ccr" in p.items
    ensures var ri := p.items["ccr"];
            ObservedSubreg(Sparc32, "ccr", ReadReg(a, ri)) == StoredField(v, SubField("ccr", 20, 4), ri.size) <==>
            ri.size == 8 && NumberIn(p, a, "ccr") % 0x10 == ToNat(v) / 0x10_0000 % 0x10
  {
    var ri := p.items["ccr"];
    var x, y := ObservedSubreg(Sparc32, "ccr", ReadReg(a, ri)), StoredField(v, SubField("ccr", 20, 4), ri.size);
    assert |x| == 8 && |y| == ri.size;
    if ri.size == 8 {
      ObservedNumber(ReadReg(a, ri));
      ExpectedIcc(v);
      SameNumberSameBits(x, y);
    }
  }

  lemma ObservedNumber(v: Bits)
    ensures ToNat(ObservedSubreg(Sparc32, "ccr", v)) == ToNat(v) % 0x10
  {
    assert ObservedSubreg(Sparc32, "ccr", v) == Resize(Resize(v, 4), 8);
    NumberOfResize(v, 4);
    ResizeUp(Resize(v, 4), 8);
    SmallPowers();
  }

  lemma ExpectedIcc(v: Bits)
    ensures ToNat(StoredField(v, SubField("ccr", 20, 4), 8)) == ToNat(v) / 0x10_0000 % 0x10
  {
    SmallPowers();
    NumberOfStoredField(v, SubField("ccr", 20, 4), 8);
    SmallNumber(ToNat(v) / 0x10_0000 % 0x10, 0x100);
  }
}
