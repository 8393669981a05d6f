/** Which events of a step the frame explains: exactly those that touch its registers and memory. */
module EventMeaning {
  import opened BitVectors
  import opened Trace
  import opened Coverage
  import opened Registers
  import opened Vm
  import opened Adapters
  import opened AdapterMeaning
  import opened FrameCheck
  import opened Soundness
  import opened Exactness

  /** Operand o names a register that shares a bit with the bound variable. */
  ghost predicate Touches(t: Target, o: Operand, variable: string) {
    && o.reg.Some?
    && variable in t.rz.profile.bound
    && variable in t.rz.profile.items
    && var name := TraceRegToRizin(t.kind, o.reg.value);
       && name != ""
       && name in t.rz.profile.items
       && exists c :: Inside(c, t.rz.profile.items[name]) && Inside(c, t.rz.profile.items[variable])
  }

  ghost predicate SomeTouches(t: Target, ops: seq<Operand>, variable: string) {
    exists o :: o in ops && Touches(t, o, variable)
  }

  lemma ListedIsTouched(t: Target, ops: seq<Operand>, variable: string)
    requires WellFormed(t.rz.profile)
    ensures VarListed(t, ops, variable) <==> SomeTouches(t, ops, variable)
  {
    forall i | 0 <= i < |ops| && ops[i].reg.Some?
      ensures TraceRegOverlapsILVar(t, ops[i].reg.value, variable) <==> Touches(t, ops[i], variable)
    {
      OverlapIsBitSharing(t, ops[i].reg.value, variable);
    }
    if SomeTouches(t, ops, variable) {
      var o :| o in ops && Touches(t, o, variable);
      var i :| 0 <= i < |ops| && ops[i] == o;
      assert TraceRegOverlapsILVar(t, ops[i].reg.value, variable);
    }
  }

  /** The frame explains event e. A variable that is read may be that of a pre- or a post-operand,
      one that is written that of a post-operand; memory that is read is that of pre-operands and
      memory that is written that of post-operands. */
  ghost predicate Explained(t: Target, sf: StdFrame, e: Event) {
    match e
    case VarRead(variable, _) => SomeTouches(t, sf.pre, variable) || SomeTouches(t, sf.post, variable)
    case VarWrite(variable, oldValue, newValue) =>
      || SomeTouches(t, sf.post, variable)
      || (oldValue == newValue && (t.kind.Vice? || t.kind.Sparc32? || t.kind.Sparc64? || t.kind.GameBoy?))
    case MemRead(_, address, value) => AccessJustified(sf.pre, address, AccessSize(|value|))
    case MemStore(_, address, newValue) => AccessJustified(sf.post, address, AccessSize(|newValue|))
    case PcWrite(_) => true
    case OtherEvent => true
  }

  lemma JustifiedExactly(t: Target, sf: StdFrame, e: Event)
    requires WellFormed(t.rz.profile)
    ensures EventJustified(t, sf, e) <==> IsAssumed(t.kind, e) || Explained(t, sf, e)
  {
    AssumedExactly(t.kind, e);
    if e.VarRead? || e.VarWrite? {
      ListedIsTouched(t, sf.pre, e.variable);
      ListedIsTouched(t, sf.post, e.variable);
    }
  }

  /** When a step passes, every event is explained or assumed. */
  lemma EventsAreExplained(t: Target, s: Machine, sf: StdFrame, nextPc: Option<U64>, r: StepResult, mnemonic: Option<string>, k: nat)
    requires Passes(t, s, sf, nextPc, r, mnemonic) && WellFormed(t.rz.profile) && k < |r.events|
    ensures IsAssumed(t.kind, r.events[k]) || Explained(t, sf, r.events[k])
  {
    assert EventJustified(t, sf, r.events[k]);
    JustifiedExactly(t, sf, r.events[k]);
  }

  /** When a step passes, every variable that it reads is bound and shares a bit with the register
      of a pre- or post-operand, unless the adapter assumes the read. */
  lemma ReadsAreListed(t: Target, s: Machine, sf: StdFrame, nextPc: Option<U64>, r: StepResult, mnemonic: Option<string>, k: nat)
    requires Passes(t, s, sf, nextPc, r, mnemonic) && WellFormed(t.rz.profile)
    requires k < |r.events| && r.events[k].VarRead? && !IsAssumed(t.kind, r.events[k])
    ensures r.events[k].variable in t.rz.profile.bound
    ensures exists o :: (o in sf.pre || o in sf.post) && Touches(t, o, r.events[k].variable)
  {
    EventsAreExplained(t, s, sf, nextPc, r, mnemonic, k);
  }

  /** Where one more event changes nothing, the step still passes exactly when the event is explained
      or assumed. */
  lemma OneMoreEventExactly(t: Target, s: Machine, sf: StdFrame, nextPc: Option<U64>, r: StepResult, mnemonic: Option<string>, e: Event)
    requires Passes(t, s, sf, nextPc, r, mnemonic) && WellFormed(t.rz.profile)
    requires AfterStep(t, s, WithEvent(r, e)) == AfterStep(t, s, r)
    ensures Passes(t, s, sf, nextPc, WithEvent(r, e), mnemonic) <==> IsAssumed(t.kind, e) || Explained(t, sf, e)
  {
    JustifiedExactly(t, sf, e);
    var events := WithEvent(r, e).events;
    assert events[|r.events|] == e;
    if EventJustified(t, sf, e) { JustifiedWithEvent(t, sf, r.events, e); }
  }

  lemma ReadChangesNothing(t: Target, s: Machine, r: StepResult, e: Event)
    requires r.StepOk? && !e.VarWrite? && !e.MemStore?
    ensures AfterStep(t, s, WithEvent(r, e)) == AfterStep(t, s, r)
  {
    assert (r.events + [e])[..|r.events|] == r.events;
  }

  /** The read of a variable that an operand touches, or of memory that pre-operands have, can be
      added to a step that passes; any other read makes it fail. */
  lemma OneMoreReadExactly(t: Target, s: Machine, sf: StdFrame, nextPc: Option<U64>, r: StepResult, mnemonic: Option<string>, e: Event)
    requires Passes(t, s, sf, nextPc, r, mnemonic) && WellFormed(t.rz.profile)
    requires e.VarRead? || e.MemRead?
    ensures Passes(t, s, sf, nextPc, WithEvent(r, e), mnemonic) <==>
            || IsAssumed(t.kind, e)
            || (e.VarRead? && exists o :: (o in sf.pre || o in sf.post) && Touches(t, o, e.variable))
            || (e.MemRead? && AccessJustified(sf.pre, e.address, AccessSize(|e.value|)))
  {
    ReadChangesNothing(t, s, r, e);
    OneMoreEventExactly(t, s, sf, nextPc, r, mnemonic, e);
  }

  /** The same for the verdict: with one more read a frame that got Success gets it again exactly
      when the read is explained or assumed, and a mismatch otherwise. */
  lemma VerdictWithReadExactly(t: Target, m: Machine, f: Frame, nextPc: Option<U64>, skip: SkipRule, cacheReset: bool, e: Event)
    requires f.Std? && FrameOutcome(t, m, f, nextPc, skip, cacheReset).verdict == Success
    requires WellFormed(t.rz.profile) && (e.VarRead? || e.MemRead?)
    ensures var r := StepOf(t, PreState(t, m, f.sf, cacheReset));
            && r.StepOk?
            && FrameOutcome(WithStep(t, WithEvent(r, e)), m, f, nextPc, skip, cacheReset).verdict ==
               if IsAssumed(t.kind, e) || Explained(t, f.sf, e) then Success else PostStateMismatch
  {
    var s := PreState(t, m, f.sf, cacheReset);
    var r, mnemonic := StepOf(t, s), MnemonicOf(t, s, f.sf);
    SuccessExactly(t, m, f, nextPc, skip, cacheReset);
    ReadChangesNothing(t, s, r, e);
    OneMoreEventExactly(t, s, f.sf, nextPc, r, mnemonic, e);
    SuccessWithStep(t, m, f, nextPc, skip, cacheReset, WithEvent(r, e));
    OnlyComparisonFails(t, m, f, nextPc, skip, cacheReset, WithEvent(r, e));
  }

  /** After Success, another step that succeeds can only fail the comparison. */
  lemma OnlyComparisonFails(t: Target, m: Machine, f: Frame, nextPc: Option<U64>, skip: SkipRule, cacheReset: bool, r: StepResult)
    requires f.Std? && FrameOutcome(t, m, f, nextPc, skip, cacheReset).verdict == Success && r.StepOk?
    ensures FrameOutcome(WithStep(t, r), m, f, nextPc, skip, cacheReset).verdict in {Success, PostStateMismatch}
  {
    SuccessExactly(t, m, f, nextPc, skip, cacheReset);
    SamePreState(t, r, m, f.sf, cacheReset);
  }
}
