/** The driver loop over a trace: lookahead, stop flags, statistics and instruction coverage. */
module Driver {
  import opened BitVectors
  import opened Trace
  import opened Vm
  import opened Adapters
  import opened FrameCheck
  import opened History
  import opened Memory
  import opened CodeMemory
  import opened Emulator

  datatype StopFlags = StopFlags(early: bool, unlifted: bool, runtime: bool, misexec: bool)

  const NO_STOP := StopFlags(false, false, false, false)

  datatype Options = Options(flags: StopFlags, skip: SkipRule, cacheReset: bool)

  predicate Stops(flags: StopFlags, v: Verdict) {
    || (flags.early && v != Success && v != Skipped)
    || (flags.unlifted && v == InvalidOperation)
    || (flags.runtime && v == VMRuntimeError)
    || (flags.misexec && v == PostStateMismatch)
  }

  /** The address of the frame after frame i, if there is one and it is a standard frame. */
  function NextPc(trace: seq<Frame>, i: nat): Option<U64> {
    if i + 1 < |trace| && trace[i + 1].Std? then Some(trace[i + 1].sf.address) else None
  }

  /** The check of the frame with a given index, in a given state. */
  type Check = (Machine, nat) -> Outcome

  ghost function FrameCheckOf(t: Target, trace: seq<Frame>, opts: Options, m: Machine, i: nat): Outcome
    requires i < |trace|
  {
    FrameOutcome(t, m, trace[i], NextPc(trace, i), opts.skip, opts.cacheReset)
  }

  ghost predicate ChecksFrames(check: Check, t: Target, trace: seq<Frame>, opts: Options) {
    forall m, i {:trigger FrameCheckOf(t, trace, opts, m, i)} ::
      0 <= i < |trace| ==> check(m, i) == FrameCheckOf(t, trace, opts, m, i)
  }

  /** The check of each frame of a trace, by the emulator, with lookahead to its successor. */
  ghost function TraceCheck(t: Target, trace: seq<Frame>, opts: Options): (check: Check)
    ensures ChecksFrames(check, t, trace, opts)
  {
    (m: Machine, i: nat) => if i < |trace| then FrameCheckOf(t, trace, opts, m, i) else Outcome(Unknown, None, m)
  }

  function FinalMachine(m: Machine, outs: seq<Outcome>): Machine {
    if outs == [] then m else outs[|outs| - 1].machine
  }

  /** The outcomes of k frames from frame i on, each checked in the state that the one before left. */
  ghost function Outcomes(check: Check, m: Machine, i: nat, k: nat): (outs: seq<Outcome>)
    ensures |outs| == k
  {
    if k == 0 then []
    else
      var done := Outcomes(check, m, i, k - 1);
      done + [check(FinalMachine(m, done), i + k - 1)]
  }

  /** The frames that are left, or the count if that is less. */
  function Limit(n: nat, i: nat, count: nat): nat {
    if n <= i then 0 else if count < n - i then count else n - i
  }

  /** The outcomes of a run over at most count of n frames, from frame i on: frames are processed
      in order, only the last one can trigger a stop flag, and without that the run ends with the
      frames or the count. */
  ghost predicate IsRun(check: Check, m: Machine, n: nat, i: nat, count: nat, flags: StopFlags, outs: seq<Outcome>) {
    && outs == Outcomes(check, m, i, |outs|)
    && |outs| <= count
    && (outs != [] ==> i + |outs| <= n)
    && (forall k :: 0 <= k < |outs| - 1 ==> !Stops(flags, outs[k].verdict))
    && (|outs| < count && i + |outs| < n ==> outs != [] && Stops(flags, outs[|outs| - 1].verdict))
  }

  // ----- Statistics

  function IndexOf(v: Verdict): (i: nat)
    ensures i < 8
  {
    match v
    case Success => 0
    case Skipped => 1
    case InvalidOperation => 2
    case InvalidIL => 3
    case VMRuntimeError => 4
    case PostStateMismatch => 5
    case Unimplemented => 6
    case Unknown => 7
  }

  function CountOf(outs: seq<Outcome>, i: nat): (n: nat)
    ensures n <= |outs|
  {
    if outs == [] then 0
    else CountOf(outs[..|outs| - 1], i) + if IndexOf(outs[|outs| - 1].verdict) == i then 1 else 0
  }

  function Stats(outs: seq<Outcome>): (stats: seq<nat>)
    ensures |stats| == 8
  {
    seq(8, i requires 0 <= i => CountOf(outs, i))
  }

  /** The non-zero instruction ids that were reported. */
  function CoveredIds(outs: seq<Outcome>): set<U64> {
    if outs == [] then {}
    else
      var o := outs[|outs| - 1];
      CoveredIds(outs[..|outs| - 1]) + if o.testedId.Some? && o.testedId.value != 0 then {o.testedId.value} else {}
  }

  function SumTo(stats: seq<nat>, n: nat): nat
    requires n <= |stats|
  {
    if n == 0 then 0 else SumTo(stats, n - 1) + stats[n - 1]
  }

  lemma {:induction false} SumOfIncrement(stats: seq<nat>, i: nat, n: nat)
    requires i < |stats| && n <= |stats|
    ensures SumTo(stats[i := stats[i] + 1], n) == SumTo(stats, n) + if i < n then 1 else 0
  {
    if n > 0 {
      SumOfIncrement(stats, i, n - 1);
    }
  }

  lemma StatsStep(outs: seq<Outcome>, o: Outcome)
    ensures var i := IndexOf(o.verdict); Stats(outs + [o]) == Stats(outs)[i := Stats(outs)[i] + 1]
  {
    assert (outs + [o])[..|outs + [o]| - 1] == outs;
  }

  lemma CoveredIdsStep(outs: seq<Outcome>, o: Outcome)
    ensures CoveredIds(outs + [o]) == CoveredIds(outs) + if o.testedId.Some? && o.testedId.value != 0 then {o.testedId.value} else {}
  {
    assert (outs + [o])[..|outs + [o]| - 1] == outs;
  }

  /** No frame is lost and none is counted twice. */
  lemma {:induction false} StatsSumToTotal(outs: seq<Outcome>)
    ensures SumTo(Stats(outs), 8) == |outs|
  {
    if outs == [] {
      assert forall i :: 0 <= i < 8 ==> Stats(outs)[i] == 0;
      SumOfZeros(Stats(outs), 8);
    } else {
      var n := |outs| - 1;
      StatsSumToTotal(outs[..n]);
      assert outs == outs[..n] + [outs[n]];
      StatsStep(outs[..n], outs[n]);
      SumOfIncrement(Stats(outs[..n]), IndexOf(outs[n].verdict), 8);
    }
  }

  lemma {:induction false} SumOfZeros(stats: seq<nat>, n: nat)
    requires n <= |stats| && forall i :: 0 <= i < n ==> stats[i] == 0
    ensures SumTo(stats, n) == 0
  {
    if n > 0 { SumOfZeros(stats, n - 1); }
  }

  /** The frames with a given verdict. */
  function WithVerdict(outs: seq<Outcome>, v: Verdict): set<nat> {
    set k: nat | 0 <= k < |outs| && outs[k].verdict == v
  }

  /** How many frames got each verdict, in the order in which the verdicts are declared. */
  function Counters(outs: seq<Outcome>): seq<nat> {
    [|WithVerdict(outs, Success)|, |WithVerdict(outs, Skipped)|, |WithVerdict(outs, InvalidOperation)|,
     |WithVerdict(outs, InvalidIL)|, |WithVerdict(outs, VMRuntimeError)|, |WithVerdict(outs, PostStateMismatch)|,
     |WithVerdict(outs, Unimplemented)|, |WithVerdict(outs, Unknown)|]
  }

  lemma WithVerdictStep(outs: seq<Outcome>, v: Verdict)
    requires outs != []
    ensures var n := |outs| - 1;
            |WithVerdict(outs, v)| == |WithVerdict(outs[..n], v)| + if outs[n].verdict == v then 1 else 0
  {
    var n := |outs| - 1;
    assert WithVerdict(outs, v) == WithVerdict(outs[..n], v) + if outs[n].verdict == v then {n} else {};
  }

  lemma {:induction false} CountsFrames(outs: seq<Outcome>, v: Verdict)
    ensures CountOf(outs, IndexOf(v)) == |WithVerdict(outs, v)|
  {
    if outs == [] {
      assert WithVerdict(outs, v) == {};
    } else {
      CountsFrames(outs[..|outs| - 1], v);
      WithVerdictStep(outs, v);
    }
  }

  /** Each counter is the number of frames with the verdict of its position. */
  lemma StatsAreCounters(outs: seq<Outcome>)
    ensures Stats(outs) == Counters(outs)
  {
    CountsFrames(outs, Success);
    CountsFrames(outs, Skipped);
    CountsFrames(outs, InvalidOperation);
    CountsFrames(outs, InvalidIL);
    CountsFrames(outs, VMRuntimeError);
    CountsFrames(outs, PostStateMismatch);
    CountsFrames(outs, Unimplemented);
    CountsFrames(outs, Unknown);
  }

  /** Overall success means that every frame that was processed got Success. */
  lemma {:induction false} AllSucceededMeansSuccess(outs: seq<Outcome>)
    ensures Stats(outs)[0] == |outs| <==> forall k :: 0 <= k < |outs| ==> outs[k].verdict == Success
  {
    if outs != [] {
      var n := |outs| - 1;
      AllSucceededMeansSuccess(outs[..n]);
      assert Stats(outs)[0] == Stats(outs[..n])[0] + if outs[n].verdict == Success then 1 else 0;
      assert forall k :: 0 <= k < n ==> outs[..n][k] == outs[k];
    }
  }

  /** The test for overall success looks at the other counters only; it says that the counter of
      successes is the number of frames, and that each of them got Success. */
  lemma AllSucceededExactly(outs: seq<Outcome>)
    ensures (forall i :: 0 < i < 8 ==> Stats(outs)[i] == 0) <==> Stats(outs)[0] == |outs|
    ensures Stats(outs)[0] == |outs| <==> forall k :: 0 <= k < |outs| ==> outs[k].verdict == Success
  {
    AllSucceededMeansSuccess(outs);
    StatsSumToTotal(outs);
    var s := Stats(outs);
    assert SumTo(s, 1) == s[0];
    assert SumTo(s, 2) == s[0] + s[1];
    assert SumTo(s, 3) == s[0] + s[1] + s[2];
    assert SumTo(s, 4) == s[0] + s[1] + s[2] + s[3];
    assert SumTo(s, 5) == s[0] + s[1] + s[2] + s[3] + s[4];
    assert SumTo(s, 6) == s[0] + s[1] + s[2] + s[3] + s[4] + s[5];
    assert SumTo(s, 7) == s[0] + s[1] + s[2] + s[3] + s[4] + s[5] + s[6];
    assert SumTo(s, 8) == s[0] + s[1] + s[2] + s[3] + s[4] + s[5] + s[6] + s[7];
  }

  /** The coverage set holds exactly the non-zero ids of frames that got one, although the loop
      looks at a variable that frames without one leave as it was. */
  lemma {:induction false} CoverageExactly(outs: seq<Outcome>, id: U64)
    ensures id in CoveredIds(outs) <==> id != 0 && exists k :: 0 <= k < |outs| && outs[k].testedId == Some(id)
  {
    if outs != [] {
      var n := |outs| - 1;
      CoverageExactly(outs[..n], id);
      assert forall k :: 0 <= k < n ==> outs[..n][k] == outs[k];
    }
  }

  // ----- The loop

  /** Checks one frame and reports its outcome. */
  method CheckFrame(emulator: RizinEmulator, ghost check: Check, trace: seq<Frame>, i: nat, nextPc: Option<U64>, opts: Options, testedIn: U64)
    returns (verdict: Verdict, testedOut: U64, ghost o: Outcome)
    requires emulator.Valid() && i < |trace| && nextPc == NextPc(trace, i)
    requires ChecksFrames(check, emulator.T(), trace, opts)
    modifies emulator, emulator.reg, emulator.adapter
    ensures o == check(old(emulator.Snapshot()), i)
    ensures verdict == o.verdict && emulator.Snapshot() == o.machine
    ensures testedOut == if o.testedId.Some? then o.testedId.value else testedIn
  {
    o := FrameCheckOf(emulator.T(), trace, opts, emulator.Snapshot(), i);
    verdict, testedOut := emulator.RunFrame(trace[i], nextPc, opts.skip, testedIn, opts.cacheReset);
  }

  /** One iteration of the loop: checks the current frame and counts its verdict and its id. */
  method CheckAndCount(emulator: RizinEmulator, ghost check: Check, trace: seq<Frame>, i: nat, next: Option<Frame>, opts: Options,
                       stats: array<nat>, covered: set<U64>, testedId: U64, ghost outs: seq<Outcome>)
    returns (verdict: Verdict, covered': set<U64>, testedId': U64, ghost o: Outcome)
    requires emulator.Valid() && ChecksFrames(check, emulator.T(), trace, opts)
    requires i < |trace| && next == if i + 1 < |trace| then Some(trace[i + 1]) else None
    requires IsCounted(stats, covered, testedId, outs)
    modifies emulator, emulator.reg, emulator.adapter, stats
    ensures o == check(old(emulator.Snapshot()), i) && verdict == o.verdict && emulator.Snapshot() == o.machine
    ensures IsCounted(stats, covered', testedId', outs + [o])
  {
    var nextPc: Option<U64> := None;
    if next.Some? && next.value.Std? {
      nextPc := Some(next.value.sf.address);
    }
    verdict, testedId', o := CheckFrame(emulator, check, trace, i, nextPc, opts, testedId);
    covered' := covered;
    if testedId' != 0 {
      covered' := covered' + {testedId'};
    }
    CoveredIdsStep(outs, o);
    StatsStep(outs, o);
    assert stats[..] == Stats(outs);
    stats[IndexOf(verdict)] := stats[IndexOf(verdict)] + 1;
    assert stats[..] == Stats(outs)[IndexOf(verdict) := Stats(outs)[IndexOf(verdict)] + 1];
  }

  /** The tests at the end of an iteration that leave the loop. */
  method ShouldStop(flags: StopFlags, verdict: Verdict) returns (stop: bool)
    ensures stop <==> Stops(flags, verdict)
  {
    if flags.early && verdict != Success && verdict != Skipped {
      return true;
    }
    if flags.unlifted && verdict == InvalidOperation {
      return true;
    }
    if flags.runtime && verdict == VMRuntimeError {
      return true;
    }
    if flags.misexec && verdict == PostStateMismatch {
      return true;
    }
    return false;
  }

  /** The statistics, the coverage and the variable for the id after some outcomes. */
  ghost predicate IsCounted(stats: array<nat>, covered: set<U64>, testedId: U64, outs: seq<Outcome>)
    reads stats
  {
    stats[..] == Stats(outs) && covered == CoveredIds(outs) && (testedId == 0 || testedId in covered)
  }

  /** The loop over the frames. */
  method CheckFrames(emulator: RizinEmulator, ghost check: Check, trace: seq<Frame>, offset: nat, count: U64, opts: Options, stats: array<nat>)
    returns (covered: set<U64>, total: nat, ghost outs: seq<Outcome>)
    requires emulator.Valid() && ChecksFrames(check, emulator.T(), trace, opts)
    requires stats[..] == Stats([])
    modifies emulator, emulator.reg, emulator.adapter, stats
    ensures IsRun(check, old(emulator.Snapshot()), |trace|, offset, count, opts.flags, outs)
    ensures emulator.Snapshot() == FinalMachine(old(emulator.Snapshot()), outs)
    ensures stats[..] == Stats(outs) && covered == CoveredIds(outs) && total == |outs|
  {
    ghost var m := emulator.Snapshot();
    covered, total, outs := {}, 0, [];
    var testedId: U64 := 0;
    // the cursor is behind the frame that was read last
    var cursor := offset;
    var current: Option<Frame> := None;
    if cursor < |trace| {
      current := Some(trace[cursor]);
      cursor := cursor + 1;
    }
    var remaining: nat := count;
    var stopped := false;
    while current.Some? && remaining != 0 && !stopped
      invariant total == |outs| && remaining + total == count
      invariant current == if offset + total < |trace| then Some(trace[offset + total]) else None
      invariant current.Some? ==> cursor == offset + total + 1
      invariant emulator.Snapshot() == FinalMachine(m, outs)
      invariant IsRunSoFar(check, m, |trace|, offset, opts.flags, outs, stopped)
      invariant IsCounted(stats, covered, testedId, outs)
      decreases remaining
    {
      var next: Option<Frame> := None;
      if cursor < |trace| {
        next := Some(trace[cursor]);
        cursor := cursor + 1;
      }
      var verdict;
      ghost var o;
      verdict, covered, testedId, o := CheckAndCount(emulator, check, trace, offset + total, next, opts, stats, covered, testedId, outs);
      RunGoesOn(check, m, |trace|, offset, opts.flags, outs, o);
      remaining := remaining - 1;
      total := total + 1;
      outs := outs + [o];
      current := next;
      stopped := ShouldStop(opts.flags, verdict);
    }
    RunEnds(check, m, |trace|, offset, count, opts.flags, outs, stopped);
  }

  /** A run without the condition on its end. */
  ghost predicate IsRunSoFar(check: Check, m: Machine, n: nat, i: nat, flags: StopFlags, outs: seq<Outcome>, stopped: bool) {
    && outs == Outcomes(check, m, i, |outs|)
    && (outs != [] ==> i + |outs| <= n)
    && (forall k :: 0 <= k < |outs| - (if stopped then 1 else 0) ==> !Stops(flags, outs[k].verdict))
    && (stopped ==> outs != [] && Stops(flags, outs[|outs| - 1].verdict))
  }

  lemma RunGoesOn(check: Check, m: Machine, n: nat, i: nat, flags: StopFlags, outs: seq<Outcome>, o: Outcome)
    requires IsRunSoFar(check, m, n, i, flags, outs, false)
    requires i + |outs| < n && o == check(FinalMachine(m, outs), i + |outs|)
    ensures IsRunSoFar(check, m, n, i, flags, outs + [o], Stops(flags, o.verdict))
  {
  }

  lemma RunEnds(check: Check, m: Machine, n: nat, i: nat, count: nat, flags: StopFlags, outs: seq<Outcome>, stopped: bool)
    requires IsRunSoFar(check, m, n, i, flags, outs, stopped) && |outs| <= count
    requires stopped || |outs| == count || i + |outs| >= n
    ensures IsRun(check, m, n, i, count, flags, outs)
  {
  }

  method CheckTrace(emulator: RizinEmulator, ghost check: Check, trace: seq<Frame>, offset: nat, count: U64, opts: Options)
    returns (stats: array<nat>, covered: set<U64>, total: nat, allSucceeded: bool, ghost outs: seq<Outcome>)
    requires emulator.Valid() && ChecksFrames(check, emulator.T(), trace, opts)
    modifies emulator, emulator.reg, emulator.adapter
    ensures IsRun(check, old(emulator.Snapshot()), |trace|, offset, count, opts.flags, outs)
    ensures emulator.Snapshot() == FinalMachine(old(emulator.Snapshot()), outs)
    ensures fresh(stats) && stats[..] == Stats(outs)
    ensures stats[..] == Counters(outs)
    ensures covered == CoveredIds(outs)
    ensures total == |outs|
    ensures allSucceeded <==> Stats(outs)[0] == total
    ensures allSucceeded <==> forall k :: 0 <= k < |outs| ==> outs[k].verdict == Success
  {
    stats := new nat[8](_ => 0);
    assert stats[..] == Stats([]);
    covered, total, outs := CheckFrames(emulator, check, trace, offset, count, opts, stats);
    allSucceeded := AllSucceeded(stats);
    AllSucceededExactly(outs);
    StatsAreCounters(outs);
  }

  /** The state before the first frame: without cache reset, memory holds the code of the trace. */
  function StartMachine(m: Machine, trace: seq<Frame>, opts: Options): Machine {
    if opts.cacheReset then m else m.(overlay := ApplyMemWrites(map[], FirstWrites(trace)))
  }

  /** The whole program after its options: memory is filled if it is not reset for each frame, then
      the trace is checked. */
  method RunTrace(emulator: RizinEmulator, ghost check: Check, trace: seq<Frame>, offset: nat, count: U64, opts: Options)
    returns (stats: array<nat>, covered: set<U64>, total: nat, allSucceeded: bool, ghost outs: seq<Outcome>)
    requires emulator.Valid() && ChecksFrames(check, emulator.T(), trace, opts)
    modifies emulator, emulator.reg, emulator.adapter
    ensures IsRun(check, StartMachine(old(emulator.Snapshot()), trace, opts), |trace|, offset, count, opts.flags, outs)
    ensures fresh(stats) && stats[..] == Counters(outs) && covered == CoveredIds(outs) && total == |outs|
    ensures allSucceeded <==> forall k :: 0 <= k < |outs| ==> outs[k].verdict == Success
  {
    if !opts.cacheReset {
      var written := emulator.SetMem(trace);
    }
    stats, covered, total, allSucceeded, outs := CheckTrace(emulator, check, trace, offset, count, opts);
  }

  method AllSucceeded(stats: array<nat>) returns (all: bool)
    requires stats.Length == 8
    ensures all <==> forall i :: 0 < i < 8 ==> stats[..][i] == 0
  {
    all := true;
    for i := 0 to 8
      invariant all
      invariant forall j :: 0 < j < i ==> stats[j] == 0
    {
      if i == IndexOf(Success) { continue; }
      if stats[i] > 0 {
        assert stats[..][i] == stats[i];
        return false;
      }
    }
  }

  // ----- What a run processes

  lemma {:induction false} OutcomesPrefix(check: Check, m: Machine, i: nat, k: nat, j: nat)
    requires j <= k
    ensures Outcomes(check, m, i, k)[..j] == Outcomes(check, m, i, j)
  {
    if j < k {
      OutcomesPrefix(check, m, i, k - 1, j);
    }
  }

  /** Each outcome is that of its frame, in the state that the one before it left. */
  lemma OutcomeOfFrame(check: Check, m: Machine, i: nat, k: nat, n: nat)
    requires k < n
    ensures var outs := Outcomes(check, m, i, n);
            outs[k] == check(if k == 0 then m else outs[k - 1].machine, i + k)
  {
    OutcomesAgree(check, m, i, n, k + 1);
  }

  /** Flag by flag: the verdicts that end a run are those of the last frame only, and a run that
      ends before the frames and the count do has one of them. */
  lemma RunEndsAtVerdict(check: Check, m: Machine, n: nat, i: nat, count: nat, flags: StopFlags, outs: seq<Outcome>)
    requires IsRun(check, m, n, i, count, flags, outs)
    ensures forall k :: 0 <= k < |outs| - 1 ==>
              && (flags.early ==> outs[k].verdict in {Success, Skipped})
              && (flags.unlifted ==> outs[k].verdict != InvalidOperation)
              && (flags.runtime ==> outs[k].verdict != VMRuntimeError)
              && (flags.misexec ==> outs[k].verdict != PostStateMismatch)
    ensures |outs| < count && i + |outs| < n ==>
              && outs != []
              && var last := outs[|outs| - 1].verdict;
                 || (flags.early && last !in {Success, Skipped})
                 || (flags.unlifted && last == InvalidOperation)
                 || (flags.runtime && last == VMRuntimeError)
                 || (flags.misexec && last == PostStateMismatch)
    ensures |outs| <= count && (outs != [] ==> i + |outs| <= n)
  {
    forall k | 0 <= k < |outs| - 1 ensures !Stops(flags, outs[k].verdict) {
    }
  }

  /** How many outcomes there are up to and including the first one that triggers a stop flag. */
  function StopsAfter(flags: StopFlags, outs: seq<Outcome>): (r: nat)
    ensures r <= |outs|
    ensures forall k :: 0 <= k < r - 1 ==> !Stops(flags, outs[k].verdict)
    ensures r < |outs| ==> 0 < r && Stops(flags, outs[r - 1].verdict)
  {
    if outs == [] then 0
    else if Stops(flags, outs[0].verdict) then 1
    else
      var r := StopsAfter(flags, outs[1..]);
      assert forall k :: 0 < k < r ==> outs[k] == outs[1..][k - 1];
      1 + r
  }

  /** The length of a run: of the frames within the count, those up to and including the first one
      that triggers a stop flag. */
  lemma RunLength(check: Check, m: Machine, n: nat, i: nat, count: nat, flags: StopFlags, outs: seq<Outcome>)
    requires IsRun(check, m, n, i, count, flags, outs)
    ensures |outs| == StopsAfter(flags, Outcomes(check, m, i, Limit(n, i, count)))
  {
    var all := Outcomes(check, m, i, Limit(n, i, count));
    assert |outs| <= |all|;
    OutcomesAgree(check, m, i, |all|, |outs|);
    if |outs| < |all| {
      assert Stops(flags, all[|outs| - 1].verdict);
    }
  }

  /** There is only one run. */
  lemma RunIsUnique(check: Check, m: Machine, n: nat, i: nat, count: nat, flags: StopFlags, xs: seq<Outcome>, ys: seq<Outcome>)
    requires IsRun(check, m, n, i, count, flags, xs) && IsRun(check, m, n, i, count, flags, ys)
    ensures xs == ys
  {
    if |xs| < |ys| {
      ShorterRun(check, m, n, i, count, flags, xs, ys);
    } else if |ys| < |xs| {
      ShorterRun(check, m, n, i, count, flags, ys, xs);
    }
  }

  lemma OutcomesAgree(check: Check, m: Machine, i: nat, k: nat, j: nat)
    requires j <= k
    ensures forall l :: 0 <= l < j ==> Outcomes(check, m, i, k)[l] == Outcomes(check, m, i, j)[l]
  {
    OutcomesPrefix(check, m, i, k, j);
    assert forall l :: 0 <= l < j ==> Outcomes(check, m, i, k)[l] == Outcomes(check, m, i, k)[..j][l];
  }

  /** A run is not a proper prefix of another one. */
  lemma ShorterRun(check: Check, m: Machine, n: nat, i: nat, count: nat, flags: StopFlags, xs: seq<Outcome>, ys: seq<Outcome>)
    requires IsRun(check, m, n, i, count, flags, xs) && IsRun(check, m, n, i, count, flags, ys)
    ensures |ys| <= |xs|
  {
    if |xs| <= |ys| {
      OutcomesAgree(check, m, i, |ys|, |xs|);
    }
  }

  // ----- Splitting a run

  lemma FinalMachineOfConcat(m: Machine, xs: seq<Outcome>, ys: seq<Outcome>)
    ensures FinalMachine(m, xs + ys) == FinalMachine(FinalMachine(m, xs), ys)
  {
  }

  lemma {:induction false} OutcomesSplit(check: Check, m: Machine, i: nat, j: nat, k: nat)
    ensures Outcomes(check, m, i, j + k) ==
            Outcomes(check, m, i, j) + Outcomes(check, FinalMachine(m, Outcomes(check, m, i, j)), i + j, k)
  {
    if k > 0 {
      OutcomesSplit(check, m, i, j, k - 1);
      var first := Outcomes(check, m, i, j);
      FinalMachineOfConcat(m, first, Outcomes(check, FinalMachine(m, first), i + j, k - 1));
    }
  }

  /** Without stop flags a run ends with the frames or the count. */
  lemma LengthWithoutStops(check: Check, m: Machine, n: nat, i: nat, count: nat, outs: seq<Outcome>)
    requires IsRun(check, m, n, i, count, NO_STOP, outs)
    ensures |outs| == Limit(n, i, count)
  {
  }

  ghost predicate SameResults(xs: seq<Outcome>, ys: seq<Outcome>) {
    |xs| == |ys| && forall k :: 0 <= k < |xs| ==> xs[k].verdict == ys[k].verdict && xs[k].testedId == ys[k].testedId
  }

  /** A bits setting of a reachable state, for an adapter whose bits are settled. */
  predicate BitsReachable(t: Target, bits: int) {
    RizinBits(t.kind, None, t.machine) == 0 ==> bits == t.rz.defaultBits
  }

  /** A check does not tell reachable states apart and leads to reachable states only. */
  ghost predicate IsHistoryFree(check: Check, t: Target, n: nat) {
    forall m: Machine, m': Machine, i :: BitsReachable(t, m.bits) && BitsReachable(t, m'.bits) && 0 <= i < n ==>
      && check(m, i).verdict == check(m', i).verdict
      && check(m, i).testedId == check(m', i).testedId
      && BitsReachable(t, check(m, i).machine.bits)
  }

  lemma TraceCheckIsHistoryFree(t: Target, trace: seq<Frame>, opts: Options)
    requires BitsSettled(t.kind, t.machine) && opts.cacheReset
    ensures IsHistoryFree(TraceCheck(t, trace, opts), t, |trace|)
  {
    var check := TraceCheck(t, trace, opts);
    forall m: Machine, m': Machine, i | BitsReachable(t, m.bits) && BitsReachable(t, m'.bits) && 0 <= i < |trace|
      ensures check(m, i).verdict == check(m', i).verdict
      ensures check(m, i).testedId == check(m', i).testedId
      ensures BitsReachable(t, check(m, i).machine.bits)
    {
      FrameIsHistoryFree(t, trace, opts, m, m', i);
      assert check(m, i) == FrameCheckOf(t, trace, opts, m, i);
      assert check(m', i) == FrameCheckOf(t, trace, opts, m', i);
    }
  }

  lemma FrameIsHistoryFree(t: Target, trace: seq<Frame>, opts: Options, m: Machine, m': Machine, i: nat)
    requires BitsSettled(t.kind, t.machine) && opts.cacheReset && i < |trace|
    requires BitsReachable(t, m.bits) && BitsReachable(t, m'.bits)
    ensures FrameCheckOf(t, trace, opts, m, i).verdict == FrameCheckOf(t, trace, opts, m', i).verdict
    ensures FrameCheckOf(t, trace, opts, m, i).testedId == FrameCheckOf(t, trace, opts, m', i).testedId
    ensures BitsReachable(t, FrameCheckOf(t, trace, opts, m, i).machine.bits)
  {
    OnlyBitsMatter(t, m, m', trace[i], NextPc(trace, i), opts.skip);
    BitsAfterFrame(t, m, trace[i], NextPc(trace, i), opts.skip, true);
  }

  lemma {:induction false} FinalBitsReachable(check: Check, t: Target, m: Machine, n: nat, i: nat, k: nat)
    requires IsHistoryFree(check, t, n) && BitsReachable(t, m.bits) && (k > 0 ==> i + k <= n)
    ensures BitsReachable(t, FinalMachine(m, Outcomes(check, m, i, k)).bits)
  {
    if k > 0 {
      FinalBitsReachable(check, t, m, n, i, k - 1);
    }
  }

  /** The same frames give the same results, whatever reachable state the checks start in. */
  lemma {:induction false} OutcomesIndependence(check: Check, t: Target, m: Machine, m': Machine, n: nat, i: nat, k: nat)
    requires IsHistoryFree(check, t, n) && BitsReachable(t, m.bits) && BitsReachable(t, m'.bits) && (k > 0 ==> i + k <= n)
    ensures SameResults(Outcomes(check, m, i, k), Outcomes(check, m', i, k))
  {
    if k > 0 {
      OutcomesIndependence(check, t, m, m', n, i, k - 1);
      FinalBitsReachable(check, t, m, n, i, k - 1);
      FinalBitsReachable(check, t, m', n, i, k - 1);
    }
  }

  lemma {:induction false} CountOfConcat(xs: seq<Outcome>, ys: seq<Outcome>, i: nat)
    ensures CountOf(xs + ys, i) == CountOf(xs, i) + CountOf(ys, i)
  {
    if ys == [] {
      assert xs + ys == xs;
    } else {
      assert (xs + ys)[..|xs + ys| - 1] == xs + ys[..|ys| - 1];
      CountOfConcat(xs, ys[..|ys| - 1], i);
    }
  }

  lemma {:induction false} CoveredIdsConcat(xs: seq<Outcome>, ys: seq<Outcome>)
    ensures CoveredIds(xs + ys) == CoveredIds(xs) + CoveredIds(ys)
  {
    if ys == [] {
      assert xs + ys == xs;
    } else {
      assert (xs + ys)[..|xs + ys| - 1] == xs + ys[..|ys| - 1];
      CoveredIdsConcat(xs, ys[..|ys| - 1]);
    }
  }

  lemma {:induction false} SameResultsCountSame(xs: seq<Outcome>, ys: seq<Outcome>, i: nat)
    requires SameResults(xs, ys)
    ensures CountOf(xs, i) == CountOf(ys, i) && CoveredIds(xs) == CoveredIds(ys)
  {
    if xs != [] {
      var n := |xs| - 1;
      assert SameResults(xs[..n], ys[..n]);
      SameResultsCountSame(xs[..n], ys[..n], i);
    }
  }

  /** The results of two batches add up to those of the whole. */
  ghost predicate AddsUp(whole: seq<Outcome>, first: seq<Outcome>, second: seq<Outcome>) {
    && (forall i :: 0 <= i < 8 ==> Stats(whole)[i] == Stats(first)[i] + Stats(second)[i])
    && CoveredIds(whole) == CoveredIds(first) + CoveredIds(second)
  }

  lemma ConcatAddsUp(first: seq<Outcome>, cont: seq<Outcome>, second: seq<Outcome>)
    requires SameResults(cont, second)
    ensures AddsUp(first + cont, first, second)
  {
    forall i | 0 <= i < 8 ensures Stats(first + cont)[i] == Stats(first)[i] + Stats(second)[i] {
      CountOfConcat(first, cont, i);
      SameResultsCountSame(cont, second, i);
    }
    CoveredIdsConcat(first, cont);
    SameResultsCountSame(cont, second, 0);
  }

  /** Checking a trace in two batches, each with a new emulator, gives the statistics and the
      coverage of checking it in one: the sums and the union of those of the batches. */
  lemma BatchesAddUp(t: Target, trace: seq<Frame>, offset: nat, c1: nat, c2: nat, opts: Options,
                     whole: seq<Outcome>, first: seq<Outcome>, second: seq<Outcome>)
    requires BitsSettled(t.kind, t.machine) && opts.flags == NO_STOP && opts.cacheReset
    requires IsRun(TraceCheck(t, trace, opts), InitialMachine(t), |trace|, offset, c1 + c2, opts.flags, whole)
    requires IsRun(TraceCheck(t, trace, opts), InitialMachine(t), |trace|, offset, c1, opts.flags, first)
    requires IsRun(TraceCheck(t, trace, opts), InitialMachine(t), |trace|, offset + c1, c2, opts.flags, second)
    ensures AddsUp(whole, first, second)
  {
    TraceCheckIsHistoryFree(t, trace, opts);
    HistoryFreeBatchesAddUp(TraceCheck(t, trace, opts), t, InitialMachine(t), |trace|, offset, c1, c2, whole, first, second);
  }

  lemma HistoryFreeBatchesAddUp(check: Check, t: Target, m: Machine, n: nat, i: nat, c1: nat, c2: nat,
                                whole: seq<Outcome>, first: seq<Outcome>, second: seq<Outcome>)
    requires IsHistoryFree(check, t, n) && BitsReachable(t, m.bits)
    requires IsRun(check, m, n, i, c1 + c2, NO_STOP, whole)
    requires IsRun(check, m, n, i, c1, NO_STOP, first)
    requires IsRun(check, m, n, i + c1, c2, NO_STOP, second)
    ensures AddsUp(whole, first, second)
  {
    if i + c1 <= n {
      WholeContinuesFirst(check, m, n, i, c1, c2, whole, first, |second|, second);
      ContinuationAddsUp(check, t, m, n, i, c1, |second|);
    } else {
      FirstIsWhole(check, m, n, i, c1, c2, whole, first, second);
      ConcatAddsUp(first, [], []);
      assert first + [] == first;
    }
  }

  /** A first batch that would go past the end leaves nothing for the second. */
  lemma FirstIsWhole(check: Check, m: Machine, n: nat, i: nat, c1: nat, c2: nat,
                     whole: seq<Outcome>, first: seq<Outcome>, second: seq<Outcome>)
    requires n < i + c1
    requires IsRun(check, m, n, i, c1 + c2, NO_STOP, whole)
    requires IsRun(check, m, n, i, c1, NO_STOP, first)
    requires IsRun(check, m, n, i + c1, c2, NO_STOP, second)
    ensures whole == first && second == []
  {
    LengthWithoutStops(check, m, n, i, c1 + c2, whole);
    LengthWithoutStops(check, m, n, i, c1, first);
    LengthWithoutStops(check, m, n, i + c1, c2, second);
  }

  /** Frames that are checked after others count as they do in a new emulator. */
  lemma ContinuationAddsUp(check: Check, t: Target, m: Machine, n: nat, i: nat, c1: nat, k: nat)
    requires IsHistoryFree(check, t, n) && BitsReachable(t, m.bits) && i + c1 <= n && (k > 0 ==> i + c1 + k <= n)
    ensures var first := Outcomes(check, m, i, c1);
            AddsUp(first + Outcomes(check, FinalMachine(m, first), i + c1, k), first, Outcomes(check, m, i + c1, k))
  {
    var first := Outcomes(check, m, i, c1);
    FinalBitsReachable(check, t, m, n, i, c1);
    OutcomesIndependence(check, t, FinalMachine(m, first), m, n, i + c1, k);
    ConcatAddsUp(first, Outcomes(check, FinalMachine(m, first), i + c1, k), Outcomes(check, m, i + c1, k));
  }

  lemma WholeContinuesFirst(check: Check, m: Machine, n: nat, i: nat, c1: nat, c2: nat,
                            whole: seq<Outcome>, first: seq<Outcome>, k: nat, second: seq<Outcome>)
    requires i + c1 <= n && k == |second|
    requires IsRun(check, m, n, i, c1 + c2, NO_STOP, whole)
    requires IsRun(check, m, n, i, c1, NO_STOP, first)
    requires IsRun(check, m, n, i + c1, c2, NO_STOP, second)
    ensures first == Outcomes(check, m, i, c1)
    ensures k > 0 ==> i + c1 + k <= n
    ensures whole == first + Outcomes(check, FinalMachine(m, first), i + c1, k)
  {
    LengthWithoutStops(check, m, n, i, c1 + c2, whole);
    LengthWithoutStops(check, m, n, i, c1, first);
    LengthWithoutStops(check, m, n, i + c1, c2, second);
    OutcomesSplit(check, m, i, c1, k);
  }

  lemma TwoOutcomes(check: Check, m: Machine, i: nat)
    ensures Outcomes(check, m, i, 1) == [check(m, i)]
    ensures Outcomes(check, m, i, 2) == [check(m, i), check(check(m, i).machine, i + 1)]
  {
    assert Outcomes(check, m, i, 0) == [];
  }

  /** When the bits are not settled, the batches need not add up: a frame without a mode is then
      checked with the bits of the frame before it, or with the default in a batch of its own. */
  lemma BatchesCanDiffer(t: Target)
    returns (trace: seq<Frame>, opts: Options, whole: seq<Outcome>, first: seq<Outcome>, second: seq<Outcome>)
    requires !BitsSettled(t.kind, t.machine) && t.rz == Only64Bits()
    ensures opts.flags == NO_STOP && opts.cacheReset && |trace| == 2
    ensures IsRun(TraceCheck(t, trace, opts), InitialMachine(t), 2, 0, 2, NO_STOP, whole)
    ensures IsRun(TraceCheck(t, trace, opts), InitialMachine(t), 2, 0, 1, NO_STOP, first)
    ensures IsRun(TraceCheck(t, trace, opts), InitialMachine(t), 2, 1, 1, NO_STOP, second)
    ensures !AddsUp(whole, first, second)
  {
    BitsSettledExactly(t.kind, t.machine);
    trace := [Std(PlainFrame(Some(Ppc64))), Std(PlainFrame(None))];
    opts := Options(NO_STOP, None, true);
    var check, m := TraceCheck(t, trace, opts), InitialMachine(t);
    var o := FrameCheckOf(t, trace, opts, m, 0);
    Only64BitsVerdict(t, m, Some(Ppc64), NextPc(trace, 0));
    var o' := FrameCheckOf(t, trace, opts, o.machine, 1);
    Only64BitsVerdict(t, o.machine, None, NextPc(trace, 1));
    var o'' := FrameCheckOf(t, trace, opts, m, 1);
    Only64BitsVerdict(t, m, None, NextPc(trace, 1));
    TwoOutcomes(check, m, 0);
    TwoOutcomes(check, m, 1);
    whole, first, second := [o, o'], [o], [o''];
    assert CountOf(second, IndexOf(InvalidOperation)) == 1 by { assert second[..0] == []; }
    assert CountOf(whole, IndexOf(InvalidOperation)) == 0 by { assert whole[..1] == [o] && [o][..0] == []; }
    assert Stats(whole)[2] != Stats(first)[2] + Stats(second)[2];
  }

  /** If these are the runs of the whole and of two batches, then they add up. */
  ghost predicate BatchesAgree(t: Target, trace: seq<Frame>, offset: nat, c1: nat, c2: nat, opts: Options,
                               whole: seq<Outcome>, first: seq<Outcome>, second: seq<Outcome>)
  {
    && opts.flags == NO_STOP && opts.cacheReset
    && IsRun(TraceCheck(t, trace, opts), InitialMachine(t), |trace|, offset, c1 + c2, NO_STOP, whole)
    && IsRun(TraceCheck(t, trace, opts), InitialMachine(t), |trace|, offset, c1, NO_STOP, first)
    && IsRun(TraceCheck(t, trace, opts), InitialMachine(t), |trace|, offset + c1, c2, NO_STOP, second)
    ==> AddsUp(whole, first, second)
  }

  /** Batches add up, for every Rizin and trace, exactly when the trace is not one of PowerPC
      without a machine number. */
  lemma BatchesAddUpExactly(kind: AdapterKind, machine: U64)
    ensures !(kind.Ppc? && machine % TWO_TO_THE_32 == 0) <==>
            forall rz: Rizin, trace, offset, c1, c2, opts, whole, first, second ::
              BatchesAgree(Target(kind, machine, rz), trace, offset, c1, c2, opts, whole, first, second)
  {
    BitsSettledExactly(kind, machine);
    if BitsSettled(kind, machine) {
      forall rz: Rizin, trace, offset: nat, c1: nat, c2: nat, opts: Options, whole, first, second
        ensures BatchesAgree(Target(kind, machine, rz), trace, offset, c1, c2, opts, whole, first, second)
      {
        var t := Target(kind, machine, rz);
        if && opts.flags == NO_STOP && opts.cacheReset
           && IsRun(TraceCheck(t, trace, opts), InitialMachine(t), |trace|, offset, c1 + c2, NO_STOP, whole)
           && IsRun(TraceCheck(t, trace, opts), InitialMachine(t), |trace|, offset, c1, NO_STOP, first)
           && IsRun(TraceCheck(t, trace, opts), InitialMachine(t), |trace|, offset + c1, c2, NO_STOP, second)
        {
          BatchesAddUp(t, trace, offset, c1, c2, opts, whole, first, second);
        }
      }
    } else {
      var trace, opts, whole, first, second := BatchesCanDiffer(Target(kind, machine, Only64Bits()));
      assert !BatchesAgree(Target(kind, machine, Only64Bits()), trace, 0, 1, 1, opts, whole, first, second);
    }
  }
}
