/** What a Success verdict means: memory and registers after the step are those of the trace. */
module Soundness {
  import opened BitVectors
  import opened Trace
  import opened Coverage
  import opened Registers
  import opened Memory
  import opened Vm
  import opened Adapters
  import opened AdapterMeaning
  import opened FrameCheck

  // ----- The parts of a successful check

  /** The state in which the operation of a frame is executed. */
  function PreState(t: Target, m: Machine, sf: StdFrame, cacheReset: bool): Machine {
    Setup(t, WithBits(t, m, sf), sf, cacheReset)
  }

  function StepOf(t: Target, s: Machine): StepResult {
    t.rz.step(s.bits, s.arena, s.overlay)
  }

  function MnemonicOf(t: Target, s: Machine, sf: StdFrame): Option<string> {
    var analysis := t.rz.analyze(s.bits, s.overlay, sf.address, sf.code);
    if analysis.Lifted? then analysis.mnemonic else None
  }

  /** Step r, taken in state s, passes the comparison with the frame. */
  ghost predicate Passes(t: Target, s: Machine, sf: StdFrame, nextPc: Option<U64>, r: StepResult, mnemonic: Option<string>) {
    && t.rz.profile.pc.Some?
    && r.StepOk?
    && KnownPrefix(sf.post) == |sf.post|
    && PostStateMatches(t, AfterStep(t, s, r), r, sf, nextPc, mnemonic)
  }

  lemma ExecuteSuccess(t: Target, s: Machine, sf: StdFrame, nextPc: Option<U64>)
    requires t.rz.profile.pc.Some?
    ensures var o := Execute(t, s, sf, nextPc);
            var analysis := t.rz.analyze(s.bits, s.overlay, sf.address, sf.code);
            && (o.verdict == Success <==>
                analysis.Lifted? && analysis.valid && Passes(t, s, sf, nextPc, StepOf(t, s), analysis.mnemonic))
            && (o.verdict == Success ==> o.machine == AfterStep(t, s, StepOf(t, s)))
  {
  }

  /** Success is returned exactly when the frame is lifted and the step passes; the comparison
      is the last thing that can fail. */
  lemma SuccessExactly(t: Target, m: Machine, f: Frame, nextPc: Option<U64>, skip: SkipRule, cacheReset: bool)
    ensures FrameOutcome(t, m, f, nextPc, skip, cacheReset).verdict == Success <==>
            && ReachesSetup(t, m, f, skip)
            && KnownPrefix(f.sf.pre) == |f.sf.pre|
            && var s := PreState(t, m, f.sf, cacheReset);
               var analysis := t.rz.analyze(s.bits, s.overlay, f.sf.address, f.sf.code);
               && analysis.Lifted? && analysis.valid
               && Passes(t, s, f.sf, nextPc, StepOf(t, s), analysis.mnemonic)
    ensures FrameOutcome(t, m, f, nextPc, skip, cacheReset).verdict == Success ==>
              var s := PreState(t, m, f.sf, cacheReset);
              FrameOutcome(t, m, f, nextPc, skip, cacheReset).machine == AfterStep(t, s, StepOf(t, s))
  {
    if ReachesSetup(t, m, f, skip) {
      ExecuteSuccess(t, PreState(t, m, f.sf, cacheReset), f.sf, nextPc);
    }
  }

  // ----- Memory

  /** Event e writes to byte b of the memory that the checker reads. */
  predicate StoresTo(e: Event, b: int) {
    e.MemStore? && e.index == 0 && Spans(e.address, (|e.newValue| + 7) / 8, b)
  }

  lemma {:induction false} UnstoredByteStays(t: Target, m: Overlay, events: seq<Event>, b: int)
    requires forall k :: 0 <= k < |events| ==> !StoresTo(events[k], b)
    ensures ByteAt(t.rz.base, ReplayMemory(t.rz.bigEndian, m, events), b) == ByteAt(t.rz.base, m, b)
  {
    if events != [] {
      var n := |events| - 1;
      forall k | 0 <= k < n ensures !StoresTo(events[..n][k], b) {
        assert !StoresTo(events[k], b);
      }
      UnstoredByteStays(t, m, events[..n], b);
      assert !StoresTo(events[n], b);
    }
  }

  /** The size of the stored value in bits plus seven fits in 32 bits. */
  predicate IsSizedStore(e: Event) {
    e.MemStore? ==> |e.newValue| <= 0xffff_fff8
  }

  predicate SizedStores(events: seq<Event>) {
    forall k :: 0 <= k < |events| ==> IsSizedStore(events[k])
  }

  /** A sized store that ends below the top of the address space. */
  predicate IsPlainStore(e: Event) {
    IsSizedStore(e) && (e.MemStore? ==> e.address + AccessSize(|e.newValue|) < TWO_TO_THE_64)
  }

  predicate PlainStores(events: seq<Event>) {
    forall k :: 0 <= k < |events| ==> IsPlainStore(events[k])
  }

  /** An adapter never assumes a store to the main memory to be justified. */
  lemma AssumedStoresAreElsewhere(kind: AdapterKind, e: Event)
    requires AssumeEventIsJustified(kind, e) && e.MemStore?
    ensures e.index != 0
  {
  }

  /** A store may begin at byte b and run into the top of the address space: the code then counts
      it as explained by any memory operand that begins at b or below. */
  predicate IsOpenAtTop(ops: seq<Operand>, b: int) {
    TWO_TO_THE_64 - 0x1fff_ffff <= b < TWO_TO_THE_64 && exists i :: 0 <= i < |ops| && BeginsBy(ops[i], b)
  }

  predicate BeginsBy(o: Operand, b: int) {
    o.mem.Some? && o.mem.value <= b
  }

  /** A justified store below the top reaches only bytes of post-operands. */
  lemma JustifiedStoreIsListed(t: Target, sf: StdFrame, e: Event, b: int)
    requires EventJustified(t, sf, e) && StoresTo(e, b) && IsPlainStore(e)
    ensures SomeHolds(sf.post, b)
  {
    if AssumeEventIsJustified(t.kind, e) {
      AssumedStoresAreElsewhere(t.kind, e);
    }
    assert AllHeld(sf.post, e.address, e.address + AccessSize(|e.newValue|));
  }

  /** Any other justified store reaches the top from one of the last addresses. */
  lemma JustifiedStoreAtTop(t: Target, sf: StdFrame, e: Event, b: int)
    requires EventJustified(t, sf, e) && StoresTo(e, b) && IsSizedStore(e) && !IsPlainStore(e) && b < TWO_TO_THE_64
    ensures IsOpenAtTop(sf.post, b)
  {
    if AssumeEventIsJustified(t.kind, e) {
      AssumedStoresAreElsewhere(t.kind, e);
    }
    var end := Add64(e.address, AccessSize(|e.newValue|));
    assert SomeContains(sf.post, e.address, end);
    var i :| 0 <= i < |sf.post| && Contains(sf.post[i], e.address, end);
    assert BeginsBy(sf.post[i], b);
  }

  /** When a step passes, every byte that it reads from memory is a byte of some pre-operand. */
  lemma LoadsAreListed(t: Target, s: Machine, sf: StdFrame, nextPc: Option<U64>, r: StepResult, mnemonic: Option<string>, k: nat, b: int)
    requires Passes(t, s, sf, nextPc, r, mnemonic) && k < |r.events| && r.events[k].MemRead?
    requires var e := r.events[k];
             && !AssumeEventIsJustified(t.kind, e)
             && Plain(e.address, AccessSize(|e.value|))
             && Spans(e.address, AccessSize(|e.value|), b)
    ensures SomeHolds(sf.pre, b)
  {
    assert EventJustified(t, sf, r.events[k]);
  }

  /** Operand o has byte b, and its memory is compared. */
  predicate ComparesByte(t: Target, o: Operand, b: int) {
    !IgnoreCompareMemMismatch(t.kind) && IsMem(o) && ListsByte(o, b)
  }

  predicate IsComparedByte(t: Target, ops: seq<Operand>, b: int) {
    exists i :: 0 <= i < |ops| && ComparesByte(t, ops[i], b)
  }

  /** Passing leaves byte b alone when no justified store reaches it. */
  lemma UnreachedByteStays(t: Target, s: Machine, sf: StdFrame, nextPc: Option<U64>, r: StepResult, mnemonic: Option<string>, b: int)
    requires Passes(t, s, sf, nextPc, r, mnemonic) && !SomeHolds(sf.post, b)
    requires PlainStores(r.events) || (SizedStores(r.events) && b < TWO_TO_THE_64 && !IsOpenAtTop(sf.post, b))
    ensures ByteAt(t.rz.base, AfterStep(t, s, r).overlay, b) == ByteAt(t.rz.base, s.overlay, b)
  {
    forall k | 0 <= k < |r.events| ensures !StoresTo(r.events[k], b) {
      var e := r.events[k];
      assert EventJustified(t, sf, e);
      if StoresTo(e, b) {
        if IsPlainStore(e) { JustifiedStoreIsListed(t, sf, e, b); } else { JustifiedStoreAtTop(t, sf, e, b); }
      }
    }
    UnstoredByteStays(t, s.overlay, r.events, b);
  }

  lemma ComparedByteIsListed(t: Target, m: Machine, sf: StdFrame, i: nat, b: int)
    requires MemsMatch(t, m.overlay, sf.post) && i < |sf.post| && ComparesByte(t, sf.post[i], b)
    ensures ByteAt(t.rz.base, m.overlay, b) == sf.post[i].value[b - sf.post[i].mem.value]
  {
    var o := sf.post[i];
    assert MemMatches(t, m.overlay, o);
    assert ReadBytes(t.rz.base, m.overlay, o.mem.value, MemOperandSizeBytes(o))[b - o.mem.value]
        == ByteAt(t.rz.base, m.overlay, b);
  }

  /** When a step passes, a byte that no justified store reaches is unchanged and a byte that is
      compared has the value that the trace gives. */
  lemma MemoryAfterPassing(t: Target, s: Machine, sf: StdFrame, nextPc: Option<U64>, r: StepResult, mnemonic: Option<string>, b: int)
    requires Passes(t, s, sf, nextPc, r, mnemonic)
    ensures PlainStores(r.events) && !SomeHolds(sf.post, b) ==>
              ByteAt(t.rz.base, AfterStep(t, s, r).overlay, b) == ByteAt(t.rz.base, s.overlay, b)
    ensures SizedStores(r.events) && b < TWO_TO_THE_64 && !SomeHolds(sf.post, b) && !IsOpenAtTop(sf.post, b) ==>
              ByteAt(t.rz.base, AfterStep(t, s, r).overlay, b) == ByteAt(t.rz.base, s.overlay, b)
    ensures forall i :: 0 <= i < |sf.post| && ComparesByte(t, sf.post[i], b) ==>
              ByteAt(t.rz.base, AfterStep(t, s, r).overlay, b) == sf.post[i].value[b - sf.post[i].mem.value]
  {
    if !SomeHolds(sf.post, b) {
      if PlainStores(r.events) || (SizedStores(r.events) && b < TWO_TO_THE_64 && !IsOpenAtTop(sf.post, b)) {
        UnreachedByteStays(t, s, sf, nextPc, r, mnemonic, b);
      }
    }
    forall i | 0 <= i < |sf.post| && ComparesByte(t, sf.post[i], b)
      ensures ByteAt(t.rz.base, AfterStep(t, s, r).overlay, b) == sf.post[i].value[b - sf.post[i].mem.value]
    {
      ComparedByteIsListed(t, AfterStep(t, s, r), sf, i, b);
    }
  }

  /** The memory meaning of a Success verdict, for every address. */
  lemma MemoryMeaningOfSuccess(t: Target, m: Machine, f: Frame, nextPc: Option<U64>, skip: SkipRule, cacheReset: bool, b: U64)
    ensures var o := FrameOutcome(t, m, f, nextPc, skip, cacheReset);
            o.verdict == Success ==>
              && f.Std?
              && var s := PreState(t, m, f.sf, cacheReset);
                 && (!SomeHolds(f.sf.post, b) && !IsOpenAtTop(f.sf.post, b) && SizedStores(StepOf(t, s).events) ==>
                       ByteAt(t.rz.base, o.machine.overlay, b) == ByteAt(t.rz.base, s.overlay, b))
                 && forall i :: 0 <= i < |f.sf.post| && ComparesByte(t, f.sf.post[i], b) ==>
                      ByteAt(t.rz.base, o.machine.overlay, b) == f.sf.post[i].value[b - f.sf.post[i].mem.value]
  {
    SuccessExactly(t, m, f, nextPc, skip, cacheReset);
    if FrameOutcome(t, m, f, nextPc, skip, cacheReset).verdict == Success {
      var s := PreState(t, m, f.sf, cacheReset);
      MemoryAfterPassing(t, s, f.sf, nextPc, StepOf(t, s), MnemonicOf(t, s, f.sf), b);
    }
  }

  // ----- Registers

  /** Cell c belongs to a register that some operand of the list names. */
  predicate IsListedCell(t: Target, ops: seq<Operand>, c: Cell) {
    exists i :: 0 <= i < |ops| && IsNamedReg(t, ops[i]) && RizinName(t, ops[i]) in t.rz.profile.items
             && Inside(c, t.rz.profile.items[RizinName(t, ops[i])])
  }

  predicate InPc(p: Profile, c: Cell) {
    p.pc.Some? && Inside(c, p.pc.value)
  }

  /** Each variable that the list justifies lies inside the registers of the list and the program
      counter. The code tests for overlap only. */
  ghost predicate VarsContained(t: Target, ops: seq<Operand>) {
    forall v, c :: VarListed(t, ops, v) && v in t.rz.profile.items && Inside(c, t.rz.profile.items[v]) ==>
      IsListedCell(t, ops, c) || InPc(t.rz.profile, c)
  }

  /** Event e writes to cell c and possibly changes it. */
  predicate ChangesCell(p: Profile, e: Event, c: Cell) {
    && e.VarWrite?
    && e.variable in p.bound
    && e.variable in p.items
    && Inside(c, p.items[e.variable])
    && e.oldValue != e.newValue
  }

  lemma TruthfulPrefix(p: Profile, a: Arena, events: seq<Event>, n: nat)
    requires Truthful(p, a, events) && n <= |events|
    ensures Truthful(p, a, events[..n])
  {
    forall k | 0 <= k < n ensures TruthfulAt(p, a, events[..n], k) {
      assert TruthfulAt(p, a, events, k);
      assert events[..n][..k] == events[..k];
    }
  }

  lemma {:induction false} UnchangedCellStays(p: Profile, a: Arena, events: seq<Event>, c: Cell)
    requires Truthful(p, a, events) && c in a
    requires forall k :: 0 <= k < |events| ==> !ChangesCell(p, events[k], c)
    ensures ReplayVars(p, a, events)[c] == a[c]
  {
    if events != [] {
      var n := |events| - 1;
      TruthfulPrefix(p, a, events, n);
      forall k | 0 <= k < n ensures !ChangesCell(p, events[..n][k], c) {
        assert !ChangesCell(p, events[k], c);
      }
      UnchangedCellStays(p, a, events[..n], c);
      assert !ChangesCell(p, events[n], c) && TruthfulAt(p, a, events, n);
      var e := events[n];
      if e.VarWrite? && e.variable in p.bound && e.variable in p.items && e.oldValue == e.newValue {
        RewriteIsNoop(ReplayVars(p, a, events[..n]), p.items[e.variable]);
      }
    }
  }

  /** The adapters that never waive the justification of an event that changes a variable. */
  predicate NeverWaives(kind: AdapterKind) {
    !IsSparc(kind) && !kind.Hexagon?
  }

  lemma AssumedWritesChangeNothing(kind: AdapterKind, e: Event)
    requires NeverWaives(kind) && AssumeEventIsJustified(kind, e)
    ensures e.VarWrite? && e.oldValue == e.newValue
  {
  }

  /** A justified event changes only cells of listed registers and the program counter. */
  lemma JustifiedWriteIsListed(t: Target, sf: StdFrame, e: Event, c: Cell)
    requires NeverWaives(t.kind) && VarsContained(t, sf.post)
    requires EventJustified(t, sf, e) && ChangesCell(t.rz.profile, e, c)
    ensures IsListedCell(t, sf.post, c) || InPc(t.rz.profile, c)
  {
    if AssumeEventIsJustified(t.kind, e) {
      AssumedWritesChangeNothing(t.kind, e);
    }
    assert VarListed(t, sf.post, e.variable);
  }

  /** When a step passes, a register bit outside of all post-operands and the program counter is
      unchanged, whether or not writes of the same value are exempt. */
  lemma RegistersAfterPassing(t: Target, s: Machine, sf: StdFrame, nextPc: Option<U64>, r: StepResult, mnemonic: Option<string>, c: Cell)
    requires NeverWaives(t.kind) && VarsContained(t, sf.post)
    requires Passes(t, s, sf, nextPc, r, mnemonic) && Truthful(t.rz.profile, s.arena, r.events)
    requires c in s.arena && !IsListedCell(t, sf.post, c) && !InPc(t.rz.profile, c)
    ensures AfterStep(t, s, r).arena[c] == s.arena[c]
  {
    forall k | 0 <= k < |r.events| ensures !ChangesCell(t.rz.profile, r.events[k], c) {
      assert EventJustified(t, sf, r.events[k]);
      if ChangesCell(t.rz.profile, r.events[k], c) { JustifiedWriteIsListed(t, sf, r.events[k], c); }
    }
    UnchangedCellStays(t.rz.profile, s.arena, r.events, c);
  }

  lemma PreStateArena(t: Target, m: Machine, sf: StdFrame, cacheReset: bool)
    ensures PreState(t, m, sf, cacheReset).arena.Keys == t.rz.profile.cells
  {
  }

  lemma LastRegistersAgree(t: Target, a: Arena, ops: seq<Operand>, mnemonic: Option<string>, i: nat)
    requires RegsMatch(t, a, ops, mnemonic) && i < |ops| && IsPlainReg(t, ops[i]) && IsLastOfName(t, ops, i)
    ensures || BitsAgree(t.kind, ops[i].reg.value, ops[i], mnemonic, ReadReg(a, ItemOf(t, ops[i])))
            || IgnorePostMismatchReg(t.kind, ItemOf(t, ops[i]).name)
  {
    ComparisonIsBitwise(t.kind, ops[i].reg.value, ops[i], mnemonic, ReadReg(a, ItemOf(t, ops[i])));
  }

  /** Every register bit outside of the post-operands and the program counter is unchanged. */
  ghost predicate UnlistedCellsStay(t: Target, s: Machine, ops: seq<Operand>, after: Arena) {
    forall c :: c in s.arena && c in after && !IsListedCell(t, ops, c) && !InPc(t.rz.profile, c) ==> after[c] == s.arena[c]
  }

  /** The register meaning of a Success verdict: under containment, bits outside of the post-operands
      and the program counter are unchanged, and each register has the bits of its last post-operand. */
  lemma RegisterMeaningOfSuccess(t: Target, m: Machine, f: Frame, nextPc: Option<U64>, skip: SkipRule, cacheReset: bool)
    ensures var o := FrameOutcome(t, m, f, nextPc, skip, cacheReset);
            o.verdict == Success ==>
              && f.Std?
              && var s := PreState(t, m, f.sf, cacheReset);
                 && s.arena.Keys == o.machine.arena.Keys == t.rz.profile.cells
                 && (NeverWaives(t.kind) && VarsContained(t, f.sf.post) && Truthful(t.rz.profile, s.arena, StepOf(t, s).events) ==>
                       UnlistedCellsStay(t, s, f.sf.post, o.machine.arena))
                 && forall i :: 0 <= i < |f.sf.post| && IsPlainReg(t, f.sf.post[i]) && IsLastOfName(t, f.sf.post, i) ==>
                      || BitsAgree(t.kind, f.sf.post[i].reg.value, f.sf.post[i], MnemonicOf(t, s, f.sf),
                                   ReadReg(o.machine.arena, ItemOf(t, f.sf.post[i])))
                      || IgnorePostMismatchReg(t.kind, ItemOf(t, f.sf.post[i]).name)
  {
    SuccessExactly(t, m, f, nextPc, skip, cacheReset);
    if FrameOutcome(t, m, f, nextPc, skip, cacheReset).verdict == Success {
      var s := PreState(t, m, f.sf, cacheReset);
      var mnemonic, after := MnemonicOf(t, s, f.sf), AfterStep(t, s, StepOf(t, s)).arena;
      PreStateArena(t, m, f.sf, cacheReset);
      if NeverWaives(t.kind) && VarsContained(t, f.sf.post) && Truthful(t.rz.profile, s.arena, StepOf(t, s).events) {
        forall c | c in after && !IsListedCell(t, f.sf.post, c) && !InPc(t.rz.profile, c) ensures after[c] == s.arena[c] {
          RegistersAfterPassing(t, s, f.sf, nextPc, StepOf(t, s), mnemonic, c);
        }
      }
      forall i | 0 <= i < |f.sf.post| && IsPlainReg(t, f.sf.post[i]) && IsLastOfName(t, f.sf.post, i)
        ensures || BitsAgree(t.kind, f.sf.post[i].reg.value, f.sf.post[i], mnemonic, ReadReg(after, ItemOf(t, f.sf.post[i])))
                || IgnorePostMismatchReg(t.kind, ItemOf(t, f.sf.post[i]).name)
      {
        LastRegistersAgree(t, after, f.sf.post, mnemonic, i);
      }
    }
  }

  // ----- Program counter

  /** After a successful step, the program counter register holds the VM's program counter, as
      much of it as fits. */
  lemma PcAfterStep(t: Target, s: Machine, r: StepResult)
    requires r.StepOk? && t.rz.profile.pc.Some? && InRange(t.rz.profile, t.rz.profile.pc.value)
    requires s.arena.Keys == t.rz.profile.cells
    ensures ToU64(ReadReg(AfterStep(t, s, r).arena, t.rz.profile.pc.value)) == r.pc % Pow2(t.rz.profile.pc.value.size)
  {
    var p := t.rz.profile;
    ReadAfterWrite(p, ReplayVars(p, s.arena, r.events), p.pc.value, FromNat(r.pc, 64));
    StoredNumber(r.pc, p.pc.value.size);
  }

  // ----- Two steps that pass end in the same state

  /** Register values of Rizin are compared as they are, and no register is exempt. */
  predicate ComparesExactly(kind: AdapterKind) {
    kind.Arm32? || kind.Arm64? || kind.I8051? || kind.Mips? || kind.GameBoy? || kind.X86?
  }

  /** The last operand with the name of operand i. */
  lemma LastOfSameName(t: Target, ops: seq<Operand>, i: nat) returns (k: nat)
    requires i < |ops| && ops[i].reg.Some?
    ensures i <= k < |ops| && ops[k].reg.Some? && RizinName(t, ops[k]) == RizinName(t, ops[i]) && IsLastOfName(t, ops, k)
    decreases |ops| - i
  {
    if IsLastOfName(t, ops, i) {
      k := i;
    } else {
      var j :| i < j < |ops| && ops[j].reg.Some? && RizinName(t, ops[j]) == RizinName(t, ops[i]);
      k := LastOfSameName(t, ops, j);
    }
  }

  lemma SameValueSameBits(a: Arena, a': Arena, ri: RegItem, c: Cell)
    requires ReadReg(a, ri) == ReadReg(a', ri) && Inside(c, ri)
    ensures BitAt(a, c) == BitAt(a', c)
  {
    var i := c.bit - ri.offset;
    assert Cell(ri.kind, ri.offset + i) == c;
    assert ReadReg(a, ri)[i] == BitAt(a, c) && ReadReg(a', ri)[i] == BitAt(a', c);
  }

  lemma ListedCellIsDetermined(t: Target, a: Arena, a': Arena, ops: seq<Operand>, mnemonic: Option<string>, c: Cell)
    requires ComparesExactly(t.kind) && IsListedCell(t, ops, c)
    requires RegsMatch(t, a, ops, mnemonic) && RegsMatch(t, a', ops, mnemonic)
    ensures BitAt(a, c) == BitAt(a', c)
  {
    var i :| 0 <= i < |ops| && IsNamedReg(t, ops[i]) && RizinName(t, ops[i]) in t.rz.profile.items
             && Inside(c, t.rz.profile.items[RizinName(t, ops[i])]);
    var k := LastOfSameName(t, ops, i);
    assert IsPlainReg(t, ops[k]);
    assert ValueMatches(t, a, ops[k], mnemonic) && ValueMatches(t, a', ops[k], mnemonic);
    SameValueSameBits(a, a', ItemOf(t, ops[k]), c);
  }

  /** With an adapter that compares exactly, any two steps that pass from the same state leave the
      same registers, except for the program counter, and the same memory, except where justified
      stores reach bytes that are not compared. */
  lemma PassingDeterminesState(t: Target, s: Machine, sf: StdFrame, nextPc: Option<U64>,
                               r: StepResult, r': StepResult, mnemonic: Option<string>)
    requires ComparesExactly(t.kind) && VarsContained(t, sf.post) && s.arena.Keys == t.rz.profile.cells
    requires Passes(t, s, sf, nextPc, r, mnemonic) && Truthful(t.rz.profile, s.arena, r.events) && SizedStores(r.events)
    requires Passes(t, s, sf, nextPc, r', mnemonic) && Truthful(t.rz.profile, s.arena, r'.events) && SizedStores(r'.events)
    ensures forall c :: c in t.rz.profile.cells && !InPc(t.rz.profile, c) ==>
              AfterStep(t, s, r).arena[c] == AfterStep(t, s, r').arena[c]
    ensures forall b: U64 :: IsComparedByte(t, sf.post, b) || (!SomeHolds(sf.post, b) && !IsOpenAtTop(sf.post, b)) ==>
              ByteAt(t.rz.base, AfterStep(t, s, r).overlay, b) == ByteAt(t.rz.base, AfterStep(t, s, r').overlay, b)
  {
    var m, m' := AfterStep(t, s, r), AfterStep(t, s, r');
    forall c | c in t.rz.profile.cells && !InPc(t.rz.profile, c) ensures m.arena[c] == m'.arena[c] {
      if IsListedCell(t, sf.post, c) {
        ListedCellIsDetermined(t, m.arena, m'.arena, sf.post, mnemonic, c);
      } else {
        RegistersAfterPassing(t, s, sf, nextPc, r, mnemonic, c);
        RegistersAfterPassing(t, s, sf, nextPc, r', mnemonic, c);
      }
    }
    forall b: U64 | IsComparedByte(t, sf.post, b) || (!SomeHolds(sf.post, b) && !IsOpenAtTop(sf.post, b))
      ensures ByteAt(t.rz.base, m.overlay, b) == ByteAt(t.rz.base, m'.overlay, b)
    {
      MemoryAfterPassing(t, s, sf, nextPc, r, mnemonic, b);
      MemoryAfterPassing(t, s, sf, nextPc, r', mnemonic, b);
      if IsComparedByte(t, sf.post, b) {
        var i :| 0 <= i < |sf.post| && ComparesByte(t, sf.post[i], b);
      }
    }
  }
}
