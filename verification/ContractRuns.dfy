/** What every run of the contract keeps. A run is any sequence of calls by anyone, in
    any order; the only assumption, where it is needed, is that the ledger clock
    does not go back. */
module ContractRuns {
  import opened Ints
  import opened SlaTypes
  import opened SlaMath
  import opened ContractState

  /** A state together with what an observer of the run would have written down:
      every result recorded since the last `initialize`, and the largest retention
      limit that has been in force. */
  datatype Trace = Trace(state: State, log: seq<SLAResult>, peak: nat)

  function Advance(t: Trace, call: Call, digest: Digest): Trace
  {
    var s' := Step(t.state, call, digest);
    var log' :=
      if call.op.Initialize? && t.state.admin.None? then []
      else if Recorded(t.state, call, digest).Some? then t.log + [Recorded(t.state, call, digest).value]
      else t.log;
    Trace(s', log', Max(t.peak, RetentionLimit(s')))
  }

  /** The trace after the first `k` calls. */
  function RunTo(calls: seq<Call>, k: nat, digest: Digest): Trace
    requires k <= |calls|
  {
    if k == 0 then Trace(EMPTY_STATE, [], MAX_HISTORY_SIZE)
    else Advance(RunTo(calls, k - 1, digest), calls[k - 1], digest)
  }

  /** The state after the first `k` calls. */
  function StateAt(calls: seq<Call>, k: nat, digest: Digest): State
    requires k <= |calls|
  {
    RunTo(calls, k, digest).state
  }

  lemma {:induction false} StateSteps(calls: seq<Call>, k: nat, digest: Digest)
    requires k < |calls|
    ensures StateAt(calls, k + 1, digest) == Step(StateAt(calls, k, digest), calls[k], digest)
  {
  }

  /** The states that a run goes through, the first one empty. */
  ghost predicate IsRun(calls: seq<Call>, states: seq<State>, digest: Digest)
  {
    && |states| == |calls| + 1 && states[0] == EMPTY_STATE
    && forall k: nat | k < |calls| :: states[k + 1] == Step(states[k], calls[k], digest)
  }

  function StatesAlong(calls: seq<Call>, digest: Digest): (states: seq<State>)
    ensures |states| == |calls| + 1
    ensures forall k: nat | k <= |calls| :: states[k] == StateAt(calls, k, digest)
  {
    seq(|calls| + 1, k requires 0 <= k <= |calls| => StateAt(calls, k, digest))
  }

  lemma {:induction false} StartsEmpty(calls: seq<Call>, digest: Digest)
    ensures StateAt(calls, 0, digest) == EMPTY_STATE
  {
  }

  /** Every sequence of calls has such states. */
  lemma {:induction false} StatesAlongAreARun(calls: seq<Call>, digest: Digest)
    ensures IsRun(calls, StatesAlong(calls, digest), digest)
  {
    var states := StatesAlong(calls, digest);
    StartsEmpty(calls, digest);
    forall k: nat | k < |calls| ensures states[k + 1] == Step(states[k], calls[k], digest) {
      StateSteps(calls, k, digest);
    }
  }

  ghost predicate Clocked(calls: seq<Call>)
  {
    forall i, j | 0 <= i <= j < |calls| :: calls[i].now <= calls[j].now
  }

  /** The statistics that a log of results adds up to, saturation included. */
  function FoldStats(log: seq<SLAResult>): SLAStats
  {
    if |log| == 0 then ZERO_STATS else Bump(FoldStats(log[..|log| - 1]), log[|log| - 1])
  }

  // ------------------------------------------------- history, statistics, bounds

  ghost predicate Initialized(s: State)
  {
    && (s.version.Some? ==> s.version.value in {STORAGE_VERSION, STORAGE_VERSION + 1} && s.configs.Some?)
    && (s.version.None? ==> s == EMPTY_STATE)
  }

  ghost predicate HistoryInvariant(t: Trace, clock: nat)
  {
    && Initialized(t.state)
    && IsSuffix(t.state.history, t.log)
    && t.state.stats == FoldStats(t.log)
    && TimeSorted(t.log)
    && (forall i | 0 <= i < |t.log| :: t.log[i].recordedAt <= clock)
    && DistinctIds(t.state.history)
    && |t.state.history| <= t.peak <= MAX_RETENTION
    && RetentionLimit(t.state) <= t.peak
    && (t.state.retention.Some? ==> t.state.retention.value >= MIN_RETENTION)
  }

  lemma {:induction false} SuffixOfSuffix(a: seq<SLAResult>, b: seq<SLAResult>, c: seq<SLAResult>)
    requires IsSuffix(a, b) && IsSuffix(b, c)
    ensures IsSuffix(a, c)
  {
  }

  lemma {:induction false} SuffixDistinct(a: seq<SLAResult>, b: seq<SLAResult>)
    requires IsSuffix(a, b) && DistinctIds(b)
    ensures DistinctIds(a)
  {
  }

  lemma {:induction false} SuffixSorted(a: seq<SLAResult>, b: seq<SLAResult>)
    requires IsSuffix(a, b) && TimeSorted(b)
    ensures TimeSorted(a)
  {
  }

  /** Anything that only shortens the history to a suffix of itself is harmless. */
  lemma {:induction false} ShrinkKeeps(t: Trace, clock: nat, h: seq<SLAResult>)
    requires HistoryInvariant(t, clock) && IsSuffix(h, t.state.history) && t.state.version.Some?
    ensures HistoryInvariant(t.(state := t.state.(history := h)), clock)
  {
    SuffixOfSuffix(h, t.state.history, t.log);
    SuffixDistinct(h, t.state.history);
  }

  lemma {:induction false} ComputedResult(s: State, digest: Digest, now: u64, id: Symbol, severity: Symbol, mttr: u32)
    requires Compute(s, digest, now, id, severity, mttr).Ok?
    ensures var r := Compute(s, digest, now, id, severity, mttr).value;
            r.outageId == id && r.recordedAt == now && r.mttr == Min(mttr, DurationCap(s))
            && severity in s.configs.value && r.threshold == s.configs.value[severity].threshold
  {
  }

  lemma {:induction false} SuffixAppend(h: seq<SLAResult>, log: seq<SLAResult>, r: SLAResult)
    requires IsSuffix(h, log)
    ensures IsSuffix(h + [r], log + [r])
  {
  }

  lemma {:induction false} DistinctAppend(h: seq<SLAResult>, r: SLAResult)
    requires DistinctIds(h) && Lookup(h, r.outageId).None?
    ensures DistinctIds(h + [r])
  {
    LookupFinds(h, r.outageId);
  }

  lemma {:induction false} SortedAppend(log: seq<SLAResult>, r: SLAResult, clock: nat)
    requires TimeSorted(log) && r.recordedAt >= clock
    requires forall i | 0 <= i < |log| :: log[i].recordedAt <= clock
    ensures TimeSorted(log + [r])
    ensures forall i | 0 <= i < |log| + 1 :: (log + [r])[i].recordedAt <= r.recordedAt
  {
  }

  lemma {:induction false} FoldAppend(log: seq<SLAResult>, r: SLAResult)
    ensures FoldStats(log + [r]) == Bump(FoldStats(log), r)
  {
    assert (log + [r])[..|log|] == log;
  }

  lemma {:induction false} RecordSuffix(s: State, log: seq<SLAResult>, r: SLAResult)
    requires IsSuffix(s.history, log) && DistinctIds(s.history) && Lookup(s.history, r.outageId).None?
    ensures IsSuffix(Record(s, r).history, log + [r]) && DistinctIds(Record(s, r).history)
  {
    var h, h' := s.history + [r], Record(s, r).history;
    SuffixAppend(s.history, log, r);
    DistinctAppend(s.history, r);
    assert IsSuffix(h', h);
    SuffixOfSuffix(h', h, log + [r]);
    SuffixDistinct(h', h);
  }

  lemma {:induction false} RecordKeeps(t: Trace, clock: nat, r: SLAResult)
    requires HistoryInvariant(t, clock) && t.state.version.Some?
    requires Lookup(t.state.history, r.outageId).None? && r.recordedAt >= clock
    ensures HistoryInvariant(Trace(Record(t.state, r), t.log + [r], t.peak), r.recordedAt)
  {
    RecordSuffix(t.state, t.log, r);
    SortedAppend(t.log, r, clock);
    FoldAppend(t.log, r);
    RecordingDropsAtMostOne(t.state, r);
  }

  predicate IsPruning(op: Op)
  {
    op.PruneHistory? || op.PruneHistoryByAge? || op.PruneHistoryQueue?
  }

  /** The calls about who holds which role, the pause flag and the storage version. */
  predicate IsRoleOp(op: Op)
  {
    op.Initialize? || op.SetOperator? || op.RevokeOperator? || op.ProposeAdmin? || op.AcceptAdmin?
    || op.CancelAdminProposal? || op.GetPendingAdmin? || op.RenounceAdmin? || op.SetPaused?
    || op.RenounceOperator? || op.ProposeOperator? || op.AcceptOperator? || op.CancelOperatorProposal?
    || op.GetPendingOperator? || op.Migrate? || op.SetMigrationKey? || op.ExecuteMigration?
  }

  /** An `initialize` that succeeds. */
  predicate Restarts(s: State, call: Call)
  {
    call.op.Initialize? && s.admin.None?
  }

  /** A role call touches nothing but roles, unless it restarts the contract. */
  lemma {:induction false} RoleCallsFrame(s: State, call: Call, digest: Digest)
    requires IsRoleOp(call.op) && !Restarts(s, call)
    ensures var s' := Step(s, call, digest);
            s' == s.(admin := s'.admin, operator := s'.operator, pendingAdmin := s'.pendingAdmin,
                     pendingOperator := s'.pendingOperator, migrationKey := s'.migrationKey, paused := s'.paused,
                     version := s'.version)
    ensures s.version.None? && s.admin.None? ==> Step(s, call, digest) == s
    ensures s.version.Some? ==> Step(s, call, digest).version.Some?
  {
  }

  /** No other call touches a role. */
  lemma {:induction false} WorkCallsFrame(s: State, call: Call, digest: Digest)
    requires !IsRoleOp(call.op)
    ensures var s' := Step(s, call, digest);
            s' == s.(configs := s'.configs, history := s'.history, stats := s'.stats,
                     retention := s'.retention, maxDuration := s'.maxDuration)
    ensures VersionFault(s).Some? ==> Step(s, call, digest) == s
  {
  }

  /** Calls that neither calculate nor prune nor restart leave history and
      statistics alone, and any new limit they set is in range. */
  lemma {:induction false} OtherCallsFrame(s: State, call: Call, digest: Digest)
    requires Initialized(s)
    requires !call.op.CalculateSla? && !IsPruning(call.op) && !Restarts(s, call)
    ensures var s' := Step(s, call, digest);
            && Initialized(s') && s'.history == s.history && s'.stats == s.stats
            && (s'.retention == s.retention
                || (s'.retention.Some? && MIN_RETENTION <= s'.retention.value <= MAX_RETENTION))
  {
    if IsRoleOp(call.op) {
      RoleCallsFrame(s, call, digest);
    } else {
      WorkCallsFrame(s, call, digest);
      SettingsFrame(s, call, digest);
    }
  }

  lemma {:induction false} SettingsFrame(s: State, call: Call, digest: Digest)
    requires !IsRoleOp(call.op) && !call.op.CalculateSla? && !IsPruning(call.op)
    ensures var s' := Step(s, call, digest);
            && s'.history == s.history && s'.stats == s.stats && (s.configs.Some? ==> s'.configs.Some?)
            && (s'.retention == s.retention
                || (s'.retention.Some? && MIN_RETENTION <= s'.retention.value <= MAX_RETENTION))
  {
  }

  lemma {:induction false} StepKeepsHistory(t: Trace, clock: nat, call: Call, digest: Digest)
    requires HistoryInvariant(t, clock) && call.now >= clock
    ensures HistoryInvariant(Advance(t, call, digest), call.now)
  {
    var s := t.state;
    if call.op.CalculateSla? {
      CalculateKeepsHistory(t, clock, call, digest);
    } else if IsPruning(call.op) {
      PruneKeepsHistory(t, clock, call, digest);
    } else if !Restarts(s, call) {
      OtherCallsFrame(s, call, digest);
    }
  }

  lemma {:induction false} CalculateKeepsHistory(t: Trace, clock: nat, call: Call, digest: Digest)
    requires HistoryInvariant(t, clock) && call.now >= clock && call.op.CalculateSla?
    ensures HistoryInvariant(Advance(t, call, digest), call.now)
  {
    if Recorded(t.state, call, digest).Some? {
      var r := Recorded(t.state, call, digest).value;
      ComputedResult(t.state, digest, call.now, call.op.id, call.op.severity, call.op.mttr);
      RecordKeeps(t, clock, r);
      assert Step(t.state, call, digest) == Record(t.state, r);
    } else {
      assert Step(t.state, call, digest) == t.state;
    }
  }

  lemma {:induction false} PruneKeepsHistory(t: Trace, clock: nat, call: Call, digest: Digest)
    requires HistoryInvariant(t, clock) && call.now >= clock
    requires IsPruning(call.op)
    ensures HistoryInvariant(Advance(t, call, digest), call.now)
  {
    PruningTakesSuffix(t.state, t.log, call, digest);
    PruningAdvances(t, call, digest);
    if AdminFault(t.state, call.caller).None? {
      ShrinkKeeps(t, clock, Step(t.state, call, digest).history);
      LaterClock(Advance(t, call, digest), clock, call.now);
    } else {
      LaterClock(t, clock, call.now);
    }
  }

  lemma {:induction false} LaterClock(t: Trace, clock: nat, later: nat)
    requires HistoryInvariant(t, clock) && clock <= later
    ensures HistoryInvariant(t, later)
  {
  }

  lemma {:induction false} PruningAdvances(t: Trace, call: Call, digest: Digest)
    requires RetentionLimit(t.state) <= t.peak
    requires IsPruning(call.op)
    ensures Advance(t, call, digest) == t.(state := t.state.(history := Step(t.state, call, digest).history))
    ensures AdminFault(t.state, call.caller).Some? ==> Advance(t, call, digest) == t
  {
  }

  lemma {:induction false} PruningTakesSuffix(s: State, log: seq<SLAResult>, call: Call, digest: Digest)
    requires IsSuffix(s.history, log) && TimeSorted(log)
    requires IsPruning(call.op)
    ensures Step(s, call, digest) == s.(history := Step(s, call, digest).history)
    ensures IsSuffix(Step(s, call, digest).history, s.history)
    ensures AdminFault(s, call.caller).Some? ==> Step(s, call, digest) == s
  {
    match call.op {
      case PruneHistory(keep) => LatestIsSuffix(s.history, keep);
      case PruneHistoryQueue => LatestIsSuffix(s.history, RetentionLimit(s));
      case PruneHistoryByAge(age) =>
        SuffixSorted(s.history, log);
        KeepSinceIsSuffix(s.history, Cutoff(call.now, age));
    }
    PruningSteps(s, call, digest);
  }

  lemma {:induction false} LatestIsSuffix(history: seq<SLAResult>, keep: nat)
    ensures IsSuffix(KeepLatest(history, keep), history)
  {
  }

  /** What a pruning call leaves of the history. */
  function Pruned(s: State, call: Call): seq<SLAResult>
    requires IsPruning(call.op)
  {
    match call.op
    case PruneHistory(keep) => KeepLatest(s.history, keep)
    case PruneHistoryQueue => KeepLatest(s.history, RetentionLimit(s))
    case PruneHistoryByAge(age) => KeepSince(s.history, Cutoff(call.now, age))
  }

  lemma {:induction false} PruningSteps(s: State, call: Call, digest: Digest)
    requires IsPruning(call.op)
    ensures Step(s, call, digest) == if AdminFault(s, call.caller).Some? then s else s.(history := Pruned(s, call))
  {
  }

  lemma {:induction false} RunKeepsHistory(calls: seq<Call>, k: nat, digest: Digest)
    requires Clocked(calls) && k <= |calls|
    ensures HistoryInvariant(RunTo(calls, k, digest), if k == 0 then 0 else calls[k - 1].now)
  {
    if k > 0 {
      RunKeepsHistory(calls, k - 1, digest);
      StepKeepsHistory(RunTo(calls, k - 1, digest), if k == 1 then 0 else calls[k - 2].now, calls[k - 1], digest);
    }
  }

  /** After any run the stored history is a contiguous suffix of everything recorded
      since the last `initialize`, its outage ids are pairwise distinct, it is no
      longer than the largest retention limit ever in force (so at most 5000), and
      the statistics are the fold of the whole log, pruned part included. */
  lemma {:induction false} HistoryIsSuffixOfLog(calls: seq<Call>, k: nat, digest: Digest)
    requires Clocked(calls) && k <= |calls|
    ensures var t := RunTo(calls, k, digest);
            && IsSuffix(t.state.history, t.log)
            && t.state.stats == FoldStats(t.log)
            && DistinctIds(t.state.history)
            && |t.state.history| <= t.peak <= MAX_RETENTION
            && TimeSorted(t.state.history)
  {
    RunKeepsHistory(calls, k, digest);
    SuffixSorted(RunTo(calls, k, digest).state.history, RunTo(calls, k, digest).log);
  }

  /** A calculation appends at most its result, and drops at most the oldest entry. */
  lemma {:induction false} CalculationMovesHistory(s: State, call: Call, digest: Digest)
      returns (m: nat, more: seq<SLAResult>)
    requires call.op.CalculateSla? && RetentionLimit(s) > 0
    ensures m <= |s.history| && |more| <= 1
    ensures Step(s, call, digest).history == s.history[m..] + more
  {
    m, more := 0, [];
    if Recorded(s, call, digest).Some? {
      more := [Recorded(s, call, digest).value];
      assert Step(s, call, digest) == Record(s, more[0]);
      if |s.history| + 1 > RetentionLimit(s) {
        m := 1;
        assert (s.history + more)[1..] == s.history[1..] + more;
      }
    } else {
      assert Step(s, call, digest) == s;
    }
  }

  lemma {:induction false} PruningMovesHistory(s: State, log: seq<SLAResult>, call: Call, digest: Digest)
      returns (m: nat)
    requires IsSuffix(s.history, log) && TimeSorted(log) && IsPruning(call.op)
    ensures m <= |s.history| && Step(s, call, digest).history == s.history[m..] + []
  {
    PruningTakesSuffix(s, log, call, digest);
    m := |s.history| - |Step(s, call, digest).history|;
  }

  /** One call other than a restart drops the oldest `m` entries and appends at most one. */
  lemma {:induction false} StepMovesHistory(t: Trace, clock: nat, call: Call, digest: Digest)
      returns (m: nat, more: seq<SLAResult>)
    requires HistoryInvariant(t, clock) && !Restarts(t.state, call)
    ensures m <= |t.state.history| && |more| <= 1
    ensures Step(t.state, call, digest).history == t.state.history[m..] + more
  {
    if IsPruning(call.op) {
      m := PruningMovesHistory(t.state, t.log, call, digest);
      more := [];
    } else if call.op.CalculateSla? {
      m, more := CalculationMovesHistory(t.state, call, digest);
    } else {
      OtherCallsFrame(t.state, call, digest);
      m, more := 0, [];
    }
  }

  ghost predicate NoRestart(calls: seq<Call>, i: nat, j: nat, digest: Digest)
    requires i <= j <= |calls|
  {
    forall k: nat | i <= k < j :: !Restarts(StateAt(calls, k, digest), calls[k])
  }

  /** Between two points of a run without a restart the history has lost its `n` oldest
      entries and gained `later` at the end, and nothing else. */
  lemma {:induction false} HistoryMovesOn(calls: seq<Call>, i: nat, j: nat, digest: Digest)
      returns (n: nat, later: seq<SLAResult>)
    requires Clocked(calls) && i <= j <= |calls| && NoRestart(calls, i, j, digest)
    ensures n <= |StateAt(calls, i, digest).history|
    ensures StateAt(calls, j, digest).history == StateAt(calls, i, digest).history[n..] + later
  {
    if i == j {
      n, later := 0, [];
    } else {
      n, later := HistoryMovesOn(calls, i, j - 1, digest);
      RunKeepsHistory(calls, j - 1, digest);
      var clock := if j == 1 then 0 else calls[j - 2].now;
      var m, more := StepMovesHistory(RunTo(calls, j - 1, digest), clock, calls[j - 1], digest);
      n, later := MovesCompose(RunTo(calls, i, digest).state.history, n, later, m, more);
    }
  }

  lemma {:induction false} MovesCompose(h: seq<SLAResult>, n: nat, later: seq<SLAResult>, m: nat, more: seq<SLAResult>)
    returns (n': nat, later': seq<SLAResult>)
    requires n <= |h| && m <= |h[n..] + later|
    ensures n' <= |h| && (h[n..] + later)[m..] + more == h[n'..] + later'
  {
    if n + m <= |h| {
      n', later' := n + m, later + more;
      assert h[n..][m..] == h[n + m..];
    } else {
      n', later' := |h|, later[n + m - |h|..] + more;
    }
  }

  // ------------------------------------------- what needs no assumption on the clock

  /** The part of the invariant that holds whatever the clock does. */
  ghost predicate TallyInvariant(t: Trace)
  {
    && Initialized(t.state)
    && t.state.stats == FoldStats(t.log)
    && DistinctIds(t.state.history)
    && (t.state.retention.Some? ==> t.state.retention.value >= MIN_RETENTION)
  }

  lemma {:induction false} KeptDistinct(history: seq<SLAResult>, cutoff: int)
    requires DistinctIds(history)
    ensures DistinctIds(KeepSince(history, cutoff))
  {
    if |history| > 0 {
      var n := |history| - 1;
      KeptDistinct(history[..n], cutoff);
      KeptExactly(history[..n], cutoff);
    }
  }

  lemma {:induction false} PrunedDistinct(s: State, call: Call)
    requires IsPruning(call.op) && DistinctIds(s.history)
    ensures DistinctIds(Pruned(s, call))
  {
    match call.op {
      case PruneHistory(keep) => SuffixDistinct(KeepLatest(s.history, keep), s.history);
      case PruneHistoryQueue => SuffixDistinct(KeepLatest(s.history, RetentionLimit(s)), s.history);
      case PruneHistoryByAge(age) => KeptDistinct(s.history, Cutoff(call.now, age));
    }
  }

  lemma {:induction false} CalculateKeepsTally(t: Trace, call: Call, digest: Digest)
    requires TallyInvariant(t) && call.op.CalculateSla?
    ensures TallyInvariant(Advance(t, call, digest))
  {
    if Recorded(t.state, call, digest).Some? {
      var r := Recorded(t.state, call, digest).value;
      ComputedResult(t.state, digest, call.now, call.op.id, call.op.severity, call.op.mttr);
      RecordSuffix(t.state, t.state.history, r);
      FoldAppend(t.log, r);
      assert Step(t.state, call, digest) == Record(t.state, r);
    } else {
      assert Step(t.state, call, digest) == t.state;
    }
  }

  lemma {:induction false} StepKeepsTally(t: Trace, call: Call, digest: Digest)
    requires TallyInvariant(t)
    ensures TallyInvariant(Advance(t, call, digest))
  {
    if call.op.CalculateSla? {
      CalculateKeepsTally(t, call, digest);
    } else if IsPruning(call.op) {
      PruningSteps(t.state, call, digest);
      PrunedDistinct(t.state, call);
    } else if !Restarts(t.state, call) {
      OtherCallsFrame(t.state, call, digest);
    }
  }

  /** In every run, whatever its clock, stored ids are distinct and the statistics are the
      fold of the log. */
  lemma {:induction false} RunKeepsTally(calls: seq<Call>, k: nat, digest: Digest)
    requires k <= |calls|
    ensures TallyInvariant(RunTo(calls, k, digest))
  {
    if k > 0 {
      RunKeepsTally(calls, k - 1, digest);
      StepKeepsTally(RunTo(calls, k - 1, digest), calls[k - 1], digest);
    }
  }

  /** Pruning by count keeps exactly the newest entries, and the queue call reports how
      many it removed. */
  lemma {:induction false} PruningKeepsNewest(s: State, caller: Address, keep: u32)
    requires AdminFault(s, caller).None?
    ensures var pruned := DoPruneHistory(s, caller, keep).0.history;
            IsSuffix(pruned, s.history) && |pruned| == Min(|s.history|, keep)
    ensures var queue := DoPruneHistoryQueue(s, caller);
            IsSuffix(queue.0.history, s.history) && |queue.0.history| == Min(|s.history|, RetentionLimit(s))
            && queue.1 == Ok(|s.history| - |queue.0.history|)
  {
  }

  lemma {:induction false} KeptExactly(history: seq<SLAResult>, cutoff: int)
    ensures forall r :: r in KeepSince(history, cutoff) <==> r in history && r.recordedAt >= cutoff
  {
    if |history| > 0 {
      KeptExactly(history[..|history| - 1], cutoff);
    }
  }

  /** Pruning by age keeps an entry exactly when it was recorded at or after the cutoff,
      in any history, sorted or not. An entry recorded at 0 is no exception: it stays
      exactly when the cutoff is 0. */
  lemma {:induction false} AgePruningExactly(s: State, caller: Address, now: u64, minAge: u64, r: SLAResult)
    requires AdminFault(s, caller).None? && r in s.history
    ensures r in DoPruneHistoryByAge(s, now, caller, minAge).0.history <==> r.recordedAt + minAge >= now
    ensures r.recordedAt == 0 ==> (r in DoPruneHistoryByAge(s, now, caller, minAge).0.history <==> minAge >= now)
  {
    KeptExactly(s.history, Cutoff(now, minAge));
  }

  /** Retention shortens lazily: a recording call drops at most one entry, so the history is
      within the limit after it exactly when it was before, and under a lowered limit it
      keeps its excess length until a pruning call. */
  lemma {:induction false} RecordingDropsAtMostOne(s: State, r: SLAResult)
    ensures |Record(s, r).history| == if |s.history| + 1 > RetentionLimit(s) then |s.history| else |s.history| + 1
    ensures |Record(s, r).history| <= RetentionLimit(s) <==> |s.history| <= RetentionLimit(s)
    ensures RetentionLimit(s) > 0 ==> r in Record(s, r).history
  {
    var h := s.history + [r];
    assert h[|h| - 1] == r;
    if |h| > 1 { assert h[1..][|h| - 2] == r; }
  }

  predicate WithinLimit(s: State)
  {
    |s.history| <= RetentionLimit(s)
  }

  /** A limit that is accepted although more entries than that are stored. */
  predicate UndercutsHistory(s: State, call: Call)
  {
    && call.op.SetRetentionLimit? && AdminFault(s, call.caller).None?
    && MIN_RETENTION <= call.op.limit <= MAX_RETENTION && call.op.limit < |s.history|
  }

  /** How each call treats the limit. */
  lemma {:induction false} LimitAfter(s: State, call: Call, digest: Digest)
    ensures Step(s, call, digest).retention ==
            if call.op.SetRetentionLimit? && AdminFault(s, call.caller).None?
               && MIN_RETENTION <= call.op.limit <= MAX_RETENTION
            then Some(call.op.limit) else s.retention
  {
    if IsRoleOp(call.op) && !Restarts(s, call) {
      RoleCallsFrame(s, call, digest);
    } else if IsPruning(call.op) {
      PruningSteps(s, call, digest);
    } else if call.op.CalculateSla? {
      CalculationKeepsSettings(s, call, digest);
    }
  }

  lemma {:induction false} PrunedIsNoLonger(s: State, call: Call)
    requires IsPruning(call.op)
    ensures |Pruned(s, call)| <= |s.history|
  {
    if call.op.PruneHistoryByAge? {
      KeptIsNoLonger(s.history, Cutoff(call.now, call.op.minAge));
    }
  }

  lemma {:induction false} KeptIsNoLonger(history: seq<SLAResult>, cutoff: int)
    ensures |KeepSince(history, cutoff)| <= |history|
  {
    if |history| > 0 {
      KeptIsNoLonger(history[..|history| - 1], cutoff);
    }
  }

  /** From a history within its limit, every call but an undercutting limit ends within it. */
  lemma {:induction false} LimitStepExactly(s: State, call: Call, digest: Digest)
    requires Initialized(s) && WithinLimit(s)
    ensures WithinLimit(Step(s, call, digest)) <==> !UndercutsHistory(s, call)
  {
    LimitAfter(s, call, digest);
    if call.op.CalculateSla? {
      CalculationWithinLimit(s, call, digest);
    } else if IsPruning(call.op) {
      PruningSteps(s, call, digest);
      PrunedIsNoLonger(s, call);
    } else if !Restarts(s, call) {
      OtherCallsFrame(s, call, digest);
    }
  }

  lemma {:induction false} CalculationWithinLimit(s: State, call: Call, digest: Digest)
    requires call.op.CalculateSla? && WithinLimit(s)
    ensures WithinLimit(Step(s, call, digest))
  {
    if Recorded(s, call, digest).Some? {
      RecordingDropsAtMostOne(s, Recorded(s, call, digest).value);
      assert Step(s, call, digest) == Record(s, Recorded(s, call, digest).value);
    } else {
      assert Step(s, call, digest) == s;
    }
  }

  ghost predicate WithinLimitAt(calls: seq<Call>, k: nat, digest: Digest)
    requires k <= |calls|
  {
    WithinLimit(StateAt(calls, k, digest))
  }

  ghost predicate UndercutsAt(calls: seq<Call>, i: nat, digest: Digest)
    requires i < |calls|
  {
    UndercutsHistory(StateAt(calls, i, digest), calls[i])
  }

  lemma {:induction false} LimitStepAt(calls: seq<Call>, k: nat, digest: Digest)
    requires k < |calls| && WithinLimitAt(calls, k, digest)
    ensures WithinLimitAt(calls, k + 1, digest) <==> !UndercutsAt(calls, k, digest)
  {
    RunKeepsTally(calls, k, digest);
    StateSteps(calls, k, digest);
    LimitStepExactly(StateAt(calls, k, digest), calls[k], digest);
  }

  lemma {:induction false} RunKeepsWithinLimit(calls: seq<Call>, k: nat, digest: Digest)
    requires k <= |calls| && forall i: nat | i < k :: !UndercutsAt(calls, i, digest)
    ensures WithinLimitAt(calls, k, digest)
  {
    if k > 0 {
      RunKeepsWithinLimit(calls, k - 1, digest);
      LimitStepAt(calls, k - 1, digest);
    }
  }

  /** The history is within the limit in force at every point of a run exactly when no call
      of it set a limit below the number of entries stored then. */
  lemma {:induction false} HistoryStaysWithinLimitExactly(calls: seq<Call>, n: nat, digest: Digest)
    requires n <= |calls|
    ensures (forall k: nat | k <= n :: WithinLimitAt(calls, k, digest))
            <==> forall i: nat | i < n :: !UndercutsAt(calls, i, digest)
  {
    if forall i: nat | i < n :: !UndercutsAt(calls, i, digest) {
      forall k: nat | k <= n ensures WithinLimitAt(calls, k, digest) {
        RunKeepsWithinLimit(calls, k, digest);
      }
    }
    if forall k: nat | k <= n :: WithinLimitAt(calls, k, digest) {
      forall i: nat | i < n ensures !UndercutsAt(calls, i, digest) {
        assert WithinLimitAt(calls, i, digest) && WithinLimitAt(calls, i + 1, digest);
        LimitStepAt(calls, i, digest);
      }
    }
  }

  /** An outage id for every number. */
  function Name(k: nat): Symbol
  {
    seq(k, i requires 0 <= i < k => 'o')
  }

  /** A run that fills the history with `n` results. */
  function Filling(n: nat): seq<Call>
  {
    [Call(1, 0, Initialize(1, 2))] + seq(n, k requires 0 <= k < n => Call(2, 0, CalculateSla(Name(k), LOW, 1)))
  }

  /** Its state after `k` of them. */
  ghost predicate FilledTo(s: State, k: nat)
  {
    && s.version == Some(STORAGE_VERSION) && s.admin == Some(1) && s.operator == Some(2) && !s.paused
    && s.configs == Some(DEFAULT_CONFIGS) && s.retention.None? && s.maxDuration.None?
    && |s.history| == k && forall i: nat | i < k :: s.history[i].outageId == Name(i)
  }

  lemma {:induction false} FillingStep(s: State, k: nat, digest: Digest)
    requires FilledTo(s, k) && k < 1000
    ensures FilledTo(Step(s, Call(2, 0, CalculateSla(Name(k), LOW, 1)), digest), k + 1)
  {
    var call := Call(2, 0, CalculateSla(Name(k), LOW, 1));
    LookupFinds(s.history, Name(k));
    forall i: nat | i < k ensures s.history[i].outageId != Name(k) {
      assert |Name(i)| == i && |Name(k)| == k;
    }
    DefaultsAreOrdered();
    ResultShape(LOW, Name(k), 1, DEFAULT_CONFIGS[LOW], digest(DEFAULT_CONFIGS), 0);
    var r := ComputeResult(Name(k), 1, DEFAULT_CONFIGS[LOW], digest(DEFAULT_CONFIGS), 0).value;
    assert Step(s, call, digest) == Record(s, r);
  }

  lemma {:induction false} FillingRun(calls: seq<Call>, n: nat, k: nat, digest: Digest)
    requires k <= n <= 1000 && Filling(n) <= calls
    ensures FilledTo(StateAt(calls, k + 1, digest), k)
  {
    assert calls[k] == Filling(n)[k];
    StateSteps(calls, k, digest);
    if k == 0 {
      assert StateAt(calls, 0, digest) == EMPTY_STATE;
    } else {
      FillingRun(calls, n, k - 1, digest);
      FillingStep(StateAt(calls, k, digest), k - 1, digest);
    }
  }

  /** A run that ends over its limit: 51 results, and then a limit of 50. */
  lemma {:induction false} LoweredLimitLeavesExcess(digest: Digest)
    ensures var calls := Filling(51) + [Call(1, 0, SetRetentionLimit(50))];
            var s := StateAt(calls, 53, digest);
            |s.history| == 51 && RetentionLimit(s) == 50
  {
    var calls := Filling(51) + [Call(1, 0, SetRetentionLimit(50))];
    FillingRun(calls, 51, 51, digest);
    StateSteps(calls, 52, digest);
  }

  /** A run in which an entry recorded at time 0 is pruned by age. */
  lemma {:induction false} ZeroTimestampIsPruned(digest: Digest)
    ensures var calls := Filling(1) + [Call(1, 100, PruneHistoryByAge(10))];
            var before, after := StateAt(calls, 2, digest), StateAt(calls, 3, digest);
            |before.history| == 1 && before.history[0].recordedAt == 0 && after.history == []
  {
    var calls := Filling(1) + [Call(1, 100, PruneHistoryByAge(10))];
    var s := StateAt(calls, 2, digest);
    FillingRun(calls, 1, 1, digest);
    LoggedAtZero(calls, digest);
    StateSteps(calls, 2, digest);
    var after := StateAt(calls, 3, digest);
    KeptExactly(s.history, Cutoff(100, 10));
    assert after.history == KeepSince(s.history, Cutoff(100, 10));
    if after.history != [] {
      FirstIsMember(after.history);
      assert false;
    }
  }

  lemma FirstIsMember(history: seq<SLAResult>)
    requires history != []
    ensures history[0] in history
  {
  }

  lemma {:induction false} LoggedAtZero(calls: seq<Call>, digest: Digest)
    requires Filling(1) <= calls
    ensures forall r | r in StateAt(calls, 2, digest).history :: r.recordedAt == 0
  {
    var s := StateAt(calls, 1, digest);
    assert calls[1] == Filling(1)[1];
    FillingRun(calls, 1, 0, digest);
    StateSteps(calls, 1, digest);
    var call := calls[1];
    if Recorded(s, call, digest).Some? {
      ComputedResult(s, digest, call.now, call.op.id, call.op.severity, call.op.mttr);
      assert Step(s, call, digest) == Record(s, Recorded(s, call, digest).value);
    }
  }

  // ------------------------------------------------------------------- replay

  ghost predicate SameRules(s: State, s': State)
  {
    s.configs == s'.configs && DurationCap(s) == DurationCap(s')
  }

  lemma {:induction false} ComputeRepeats(s: State, s': State, digest: Digest, now: u64, now': u64, id: Symbol,
      severity: Symbol, mttr: u32)
    requires SameRules(s, s') && Compute(s, digest, now, id, severity, mttr).Ok?
    ensures Compute(s', digest, now', id, severity, mttr).Ok?
    ensures Compute(s', digest, now', id, severity, mttr).value.threshold
        == Compute(s, digest, now, id, severity, mttr).value.threshold
  {
  }

  lemma {:induction false} SuccessMatches(s: State, digest: Digest, now: u64, caller: Address, id: Symbol,
      severity: Symbol, mttr: u32)
    requires DoCalculateSla(s, digest, now, caller, id, severity, mttr).1.Ok?
    ensures var r := DoCalculateSla(s, digest, now, caller, id, severity, mttr).1.value;
            && Compute(s, digest, now, id, severity, mttr).Ok?
            && r.outageId == id && r.mttr == Min(mttr, DurationCap(s))
            && r.threshold == Compute(s, digest, now, id, severity, mttr).value.threshold
  {
    ComputedResult(s, digest, now, id, severity, mttr);
    LookupFinds(s.history, id);
  }

  /** The retained result answers a repeated call in any state with the same rules. */
  lemma {:induction false} RetainedResultAnswers(s: State, s': State, digest: Digest, now: u64, caller: Address,
                                                 id: Symbol, severity: Symbol, mttr: u32, now': u64, caller': Address)
    requires DoCalculateSla(s, digest, now, caller, id, severity, mttr).1.Ok?
    requires DistinctIds(s'.history) && DoCalculateSla(s, digest, now, caller, id, severity, mttr).1.value in s'.history
    requires SameRules(s, s') && OperatorFault(s', caller', severity).None?
    ensures DoCalculateSla(s', digest, now', caller', id, severity, mttr)
            == (s', DoCalculateSla(s, digest, now, caller, id, severity, mttr).1)
  {
    var r := DoCalculateSla(s, digest, now, caller, id, severity, mttr).1.value;
    SuccessMatches(s, digest, now, caller, id, severity, mttr);
    ComputeRepeats(s, s', digest, now, now', id, severity, mttr);
    LookupIsUnique(s'.history, r);
  }

  /** What a successful call returned is, under unchanged configuration and cap, what
      any later call with the same arguments returns while the result is retained;
      the later call changes nothing. */
  lemma {:induction false} ReplayReturnsStoredResult(calls: seq<Call>, i: nat, j: nat, digest: Digest,
                                                     now: u64, caller: Address, id: Symbol, severity: Symbol, mttr: u32,
                                                     now': u64, caller': Address)
    requires i <= j <= |calls|
    requires var first := DoCalculateSla(RunTo(calls, i, digest).state, digest, now, caller, id, severity, mttr);
             first.1.Ok? && first.1.value in RunTo(calls, j, digest).state.history
    requires SameRules(RunTo(calls, i, digest).state, RunTo(calls, j, digest).state)
    requires OperatorFault(RunTo(calls, j, digest).state, caller', severity).None?
    ensures var r := DoCalculateSla(RunTo(calls, i, digest).state, digest, now, caller, id, severity, mttr).1;
            var s' := RunTo(calls, j, digest).state;
            DoCalculateSla(s', digest, now', caller', id, severity, mttr) == (s', r)
  {
    RunKeepsTally(calls, j, digest);
    RetainedResultAnswers(RunTo(calls, i, digest).state, RunTo(calls, j, digest).state,
                          digest, now, caller, id, severity, mttr, now', caller');
  }

  lemma {:induction false} RetainedAfterCall(t: Trace, digest: Digest, now: u64, caller: Address, id: Symbol,
      severity: Symbol, mttr: u32)
    requires TallyInvariant(t)
    requires DoCalculateSla(t.state, digest, now, caller, id, severity, mttr).1.Ok?
    ensures var after := DoCalculateSla(t.state, digest, now, caller, id, severity, mttr);
            && DistinctIds(after.0.history)
            && after.1.value in after.0.history
            && after.1.value.outageId == id
  {
    var s := t.state;
    ComputedResult(s, digest, now, id, severity, mttr);
    LookupFinds(s.history, id);
    if Lookup(s.history, id).None? {
      var r := Compute(s, digest, now, id, severity, mttr).value;
      RecordSuffix(s, s.history, r);
      RecordingDropsAtMostOne(s, r);
    }
  }

  /** In particular, in every reachable state, the very next call with the same arguments
      is a no-op. */
  lemma {:induction false} ImmediateReplayIsNoOp(calls: seq<Call>, k: nat, digest: Digest, now: u64, caller: Address,
                                                 id: Symbol, severity: Symbol, mttr: u32, now': u64)
    requires k <= |calls|
    requires DoCalculateSla(RunTo(calls, k, digest).state, digest, now, caller, id, severity, mttr).1.Ok?
    ensures var after := DoCalculateSla(RunTo(calls, k, digest).state, digest, now, caller, id, severity, mttr);
            DoCalculateSla(after.0, digest, now', caller, id, severity, mttr) == after
  {
    var t := RunTo(calls, k, digest);
    var after := DoCalculateSla(t.state, digest, now, caller, id, severity, mttr).0;
    RunKeepsTally(calls, k, digest);
    RetainedAfterCall(t, digest, now, caller, id, severity, mttr);
    RetainedResultAnswers(t.state, after, digest, now, caller, id, severity, mttr, now', caller);
  }

  // ---------------------------------------------------- configuration ordering

  /** An import that succeeds. */
  predicate Imports(s: State, call: Call)
  {
    call.op.ImportConfigMap? && DoImportConfigMap(s, call.caller, call.op.configs).1.Ok?
  }

  /** If call `i` imported a map, the map was ordered. */
  predicate OrderedImportAt(calls: seq<Call>, i: nat, digest: Digest)
    requires i < |calls|
  {
    Imports(StateAt(calls, i, digest), calls[i]) ==> Ordered(calls[i].op.configs)
  }

  /** Every import that succeeded among the first `n` calls brought an ordered map. */
  ghost predicate OrderedImports(calls: seq<Call>, n: nat, digest: Digest)
    requires n <= |calls|
  {
    forall i: nat | i < n :: OrderedImportAt(calls, i, digest)
  }

  lemma {:induction false} DefaultsAreOrdered()
    ensures Ordered(DEFAULT_CONFIGS)
  {
    assert Severity(0) == CRITICAL && Severity(1) == HIGH && Severity(2) == MEDIUM && Severity(3) == LOW;
  }

  ghost predicate ConfigInvariant(s: State)
  {
    Initialized(s) && (s.configs.Some? ==> Ordered(s.configs.value))
  }

  lemma {:induction false} SetConfigKeeps(s: State, call: Call, digest: Digest)
    requires ConfigInvariant(s) && call.op.SetConfig?
    ensures ConfigInvariant(Step(s, call, digest))
  {
    if s.configs.Some? {
      ValidateConfigExact(call.op.severity, call.op.config, s.configs.value);
    }
  }

  /** How each call but a single-tier update treats the configuration. */
  lemma {:induction false} OtherCallsConfig(s: State, call: Call, digest: Digest)
    requires !call.op.SetConfig?
    ensures Initialized(s) ==> Initialized(Step(s, call, digest))
    ensures Step(s, call, digest).configs ==
            if Imports(s, call) then Some(call.op.configs)
            else if Restarts(s, call) || (call.op.ResetConfig? && AdminFault(s, call.caller).None?)
                then Some(DEFAULT_CONFIGS)
            else s.configs
  {
    if IsRoleOp(call.op) && !Restarts(s, call) {
      RoleCallsFrame(s, call, digest);
    } else if IsPruning(call.op) {
      PruningSteps(s, call, digest);
    } else if call.op.CalculateSla? {
      CalculationKeepsSettings(s, call, digest);
    }
  }

  lemma {:induction false} CalculationKeepsSettings(s: State, call: Call, digest: Digest)
    requires call.op.CalculateSla?
    ensures var s' := Step(s, call, digest);
            s' == s.(history := s'.history, stats := s'.stats)
  {
  }

  lemma {:induction false} StepKeepsConfig(s: State, call: Call, digest: Digest)
    requires ConfigInvariant(s) && (Imports(s, call) ==> Ordered(call.op.configs))
    ensures ConfigInvariant(Step(s, call, digest))
  {
    if call.op.SetConfig? {
      SetConfigKeeps(s, call, digest);
    } else {
      DefaultsAreOrdered();
      OtherCallsConfig(s, call, digest);
    }
  }

  ghost predicate OrderedAt(calls: seq<Call>, k: nat, digest: Digest)
    requires k <= |calls|
  {
    ConfigInvariant(StateAt(calls, k, digest))
  }

  /** One call of a run keeps the order exactly when it imports no unordered map. */
  lemma {:induction false} OrderStep(calls: seq<Call>, k: nat, digest: Digest)
    requires k < |calls| && OrderedAt(calls, k, digest)
    ensures OrderedAt(calls, k + 1, digest) <==> OrderedImportAt(calls, k, digest)
  {
    StateSteps(calls, k, digest);
    if OrderedImportAt(calls, k, digest) {
      StepKeepsConfig(StateAt(calls, k, digest), calls[k], digest);
    } else {
      OtherCallsConfig(StateAt(calls, k, digest), calls[k], digest);
    }
  }

  /** A run in which every successful import was ordered keeps all four severities
      configured within bounds, thresholds strictly increasing and penalties strictly
      decreasing from critical to low. */
  lemma {:induction false} RunKeepsConfigOrdered(calls: seq<Call>, k: nat, digest: Digest)
    requires k <= |calls| && OrderedImports(calls, k, digest)
    ensures OrderedAt(calls, k, digest)
  {
    if k > 0 {
      RunKeepsConfigOrdered(calls, k - 1, digest);
      assert OrderedImportAt(calls, k - 1, digest);
      OrderStep(calls, k - 1, digest);
    }
  }

  /** The configuration is ordered at every point of a run exactly when every import that
      succeeded brought an ordered map: no other call can break the order. */
  lemma {:induction false} ConfigStaysOrderedExactly(calls: seq<Call>, n: nat, digest: Digest)
    requires n <= |calls|
    ensures (forall k: nat | k <= n :: OrderedAt(calls, k, digest)) <==> OrderedImports(calls, n, digest)
  {
    if OrderedImports(calls, n, digest) {
      forall k: nat | k <= n ensures OrderedAt(calls, k, digest) {
        RunKeepsConfigOrdered(calls, k, digest);
      }
    }
    if forall k: nat | k <= n :: OrderedAt(calls, k, digest) {
      forall i: nat | i < n ensures OrderedImportAt(calls, i, digest) {
        assert OrderedAt(calls, i, digest) && OrderedAt(calls, i + 1, digest);
        OrderStep(calls, i, digest);
      }
    }
  }

  /** `import_config_map` checks the keys only: it can install a map in which a critical
      outage is punished less than a low one. */
  lemma {:induction false} ImportCanBreakOrder()
    ensures var bad := DEFAULT_CONFIGS[CRITICAL := SLAConfig(15, 1, 750, 200, 150, 100)];
            var s := DoInitialize(EMPTY_STATE, 1, 2).0;
            DoImportConfigMap(s, 1, bad) == (s.(configs := Some(bad)), Ok(())) && !Ordered(bad)
  {
    var bad := DEFAULT_CONFIGS[CRITICAL := SLAConfig(15, 1, 750, 200, 150, 100)];
    assert bad[Severity(0)].penalty == 1;
    assert CRITICAL in bad;
    assert forall k :: k in bad ==> IsCanonical(k);
  }

  /** Exactly when an import leaves the invariant intact: the map itself is ordered. */
  lemma {:induction false} ImportKeepsOrderExactly(s: State, caller: Address, configs: ConfigMap)
    requires AdminFault(s, caller).None?
    ensures Ordered(configs) && configs.Keys == {CRITICAL, HIGH, MEDIUM, LOW} ==>
              DoImportConfigMap(s, caller, configs) == (s.(configs := Some(configs)), Ok(()))
    ensures DoImportConfigMap(s, caller, configs).1.Ok? ==>
              (Ordered(DoImportConfigMap(s, caller, configs).0.configs.value) <==> Ordered(configs))
    ensures DoImportConfigMap(s, caller, configs).1.Ok?
        <==> configs != map[] && configs.Keys <= {CRITICAL, HIGH, MEDIUM, LOW}
  {
    if configs.Keys <= {CRITICAL, HIGH, MEDIUM, LOW} {
      assert forall k :: k in configs ==> k in configs.Keys;
    } else {
      var k :| k in configs.Keys && k !in {CRITICAL, HIGH, MEDIUM, LOW};
      assert k in configs && !IsCanonical(k);
    }
    if configs.Keys == {CRITICAL, HIGH, MEDIUM, LOW} { assert CRITICAL in configs; }
  }

  /** So at every point of a run with ordered imports a more severe outage of the same length is
      violated whenever a less severe one is, and is charged strictly more. */
  lemma {:induction false} RunOrdersPenalties(calls: seq<Call>, n: nat, digest: Digest, j: nat, k: nat, mttr: u32)
    requires n <= |calls| && OrderedImports(calls, n, digest) && j < k < 4
    requires RunTo(calls, n, digest).state.configs.Some?
    requires var configs := RunTo(calls, n, digest).state.configs.value;
             Severity(k) in configs && mttr > configs[Severity(k)].threshold
    ensures var configs := RunTo(calls, n, digest).state.configs.value;
            && Severity(j) in configs && mttr > configs[Severity(j)].threshold
            && Amount(mttr, configs[Severity(j)]) < Amount(mttr, configs[Severity(k)]) < 0
  {
    RunKeepsConfigOrdered(calls, n, digest);
    SeverityDominates(RunTo(calls, n, digest).state.configs.value, j, k, mttr);
  }

  // -------------------------------------------------------- exact statistics

  function CountViolations(log: seq<SLAResult>): nat
  {
    if |log| == 0 then 0
    else CountViolations(log[..|log| - 1]) + if log[|log| - 1].status == VIOL then 1 else 0
  }

  /** Sum of the amounts of the results of one kind, as magnitudes. */
  function SumMagnitudes(log: seq<SLAResult>, violated: bool): int
  {
    if |log| == 0 then 0
    else
      var r := log[|log| - 1];
      SumMagnitudes(log[..|log| - 1], violated) +
      if (r.status == VIOL) != violated then 0 else if violated then 0 - r.amount else r.amount
  }

  /** Every result in the log was signed the way its status says. */
  ghost predicate WellSigned(log: seq<SLAResult>)
  {
    forall i | 0 <= i < |log| ::
      if log[i].status == VIOL then I128_MIN < log[i].amount < 0 else log[i].amount >= 0
  }

  predicate NonNegative(cfg: SLAConfig)
  {
    cfg.penalty >= 0 && cfg.reward >= 0
  }

  /** If call `i` imported a map, its rates were not negative. */
  predicate NonNegativeImportAt(calls: seq<Call>, i: nat, digest: Digest)
    requires i < |calls|
  {
    Imports(StateAt(calls, i, digest), calls[i]) ==>
      forall k | k in calls[i].op.configs :: NonNegative(calls[i].op.configs[k])
  }

  /** Every import that succeeded among the first `n` calls had non-negative rates, in
      whatever order. */
  ghost predicate NonNegativeImports(calls: seq<Call>, n: nat, digest: Digest)
    requires n <= |calls|
  {
    forall i: nat | i < n :: NonNegativeImportAt(calls, i, digest)
  }

  ghost predicate SignInvariant(t: Trace)
  {
    && Initialized(t.state)
    && (t.state.configs.Some? ==> forall k | k in t.state.configs.value :: NonNegative(t.state.configs.value[k]))
    && WellSigned(t.log)
  }

  lemma NonNegativeProduct(a: nat, b: nat)
    ensures a * b >= 0
  {
  }

  /** With non-negative rates a result is signed as its status says. */
  lemma {:induction false} SignFollowsStatus(id: Symbol, mttr: u32, cfg: SLAConfig, hash: Hash, at: u64)
    requires NonNegative(cfg) && ComputeResult(id, mttr, cfg, hash, at).Ok?
    ensures var r := ComputeResult(id, mttr, cfg, hash, at).value;
            if r.status == VIOL then I128_MIN < r.amount < 0 else r.amount >= 0
  {
    assert VIOL[0] != MET[0];
    if mttr > cfg.threshold {
      NonNegativeProduct(mttr - cfg.threshold, cfg.penalty);
    } else if mttr > 0 {
      NonNegativeProduct(cfg.reward, Tier(cfg, mttr).0);
    }
  }

  lemma {:induction false} CalculateKeepsSigns(t: Trace, call: Call, digest: Digest)
    requires SignInvariant(t) && call.op.CalculateSla?
    ensures SignInvariant(Advance(t, call, digest))
  {
    var s := t.state;
    CalculationKeepsSettings(s, call, digest);
    if Recorded(s, call, digest).Some? {
      var configs := s.configs.value;
      SignFollowsStatus(call.op.id, Min(call.op.mttr, DurationCap(s)), configs[call.op.severity], digest(configs),
          call.now);
    }
  }

  lemma {:induction false} StepKeepsSigns(t: Trace, call: Call, digest: Digest)
    requires SignInvariant(t)
    requires Imports(t.state, call) ==> forall k | k in call.op.configs :: NonNegative(call.op.configs[k])
    ensures SignInvariant(Advance(t, call, digest))
  {
    if call.op.CalculateSla? {
      CalculateKeepsSigns(t, call, digest);
    } else if !call.op.SetConfig? {
      OtherCallsConfig(t.state, call, digest);
    }
  }

  /** A run in which every successful import had non-negative rates logs amounts of the
      right sign only. */
  lemma {:induction false} RunKeepsSigns(calls: seq<Call>, k: nat, digest: Digest)
    requires k <= |calls| && NonNegativeImports(calls, k, digest)
    ensures SignInvariant(RunTo(calls, k, digest))
  {
    if k > 0 {
      RunKeepsSigns(calls, k - 1, digest);
      assert NonNegativeImportAt(calls, k - 1, digest);
      StepKeepsSigns(RunTo(calls, k - 1, digest), calls[k - 1], digest);
    }
  }

  /** For well-signed logs the saturating fold is the exact total, clamped once. */
  lemma {:induction false} FoldIsClampedTotal(log: seq<SLAResult>)
    requires WellSigned(log)
    ensures SumMagnitudes(log, true) >= 0 && SumMagnitudes(log, false) >= 0
    ensures FoldStats(log) == SLAStats(
                                Min(|log|, U64_MAX), Min(CountViolations(log), U64_MAX),
                                Min(SumMagnitudes(log, false), I128_MAX), Min(SumMagnitudes(log, true), I128_MAX))
  {
    if |log| > 0 {
      FoldIsClampedTotal(log[..|log| - 1]);
    }
  }

  /** Hence, while no import brought a negative rate, the four counters are the true totals over
      everything recorded since `initialize`, each clamped once at its maximum. */
  lemma {:induction false} StatsAreTotals(calls: seq<Call>, k: nat, digest: Digest)
    requires k <= |calls| && NonNegativeImports(calls, k, digest)
    ensures var t := RunTo(calls, k, digest);
            SumMagnitudes(t.log, true) >= 0 && SumMagnitudes(t.log, false) >= 0 &&
            t.state.stats == SLAStats(
                               Min(|t.log|, U64_MAX), Min(CountViolations(t.log), U64_MAX),
                               Min(SumMagnitudes(t.log, false), I128_MAX), Min(SumMagnitudes(t.log, true), I128_MAX))
  {
    RunKeepsTally(calls, k, digest);
    RunKeepsSigns(calls, k, digest);
    FoldIsClampedTotal(RunTo(calls, k, digest).log);
  }

  // ---------------------------------------------------------- who may do what

  /** A pending proposal that its target can accept at `now`. */
  predicate Ripe(pending: Option<Proposal>, caller: Address, now: u64)
  {
    pending.Some? && pending.value.target == caller && !Expired(pending.value, now)
  }

  /** The two calls by which the operator changes without an admin: the acceptance of a
      proposal by a target who is not operator yet, and the operator's own renouncement. */
  predicate OperatorMoves(s: State, call: Call)
  {
    && VersionFault(s).None?
    && if s.operator == Some(call.caller) then call.op.RenounceOperator?
       else call.op.AcceptOperator? && Ripe(s.pendingOperator, call.caller, call.now)
  }

  /** The holder of the migration key raises the storage version after the timelock. */
  predicate KeyMigrates(s: State, call: Call)
  {
    && VersionFault(s).None? && call.op.ExecuteMigration? && s.migrationKey.Some?
    && s.migrationKey.value.target == call.caller && call.now - s.migrationKey.value.proposedAt >= MIGRATION_TIMELOCK
  }

  /** A caller who is not admin changes no configuration, pause flag or limit; changes the
      admin only as the named successor, the operator exactly by the two calls above, and
      history and statistics only as operator of an unpaused contract; and can at most
      remove a pending proposal. */
  lemma {:induction false} GovernanceNeedsAdmin(s: State, call: Call, digest: Digest)
    requires !Restarts(s, call) && s.admin != Some(call.caller)
    ensures var s' := Step(s, call, digest);
            && s'.configs == s.configs && s'.paused == s.paused
            && s'.retention == s.retention && s'.maxDuration == s.maxDuration
            && (s'.admin != s.admin ==> Ripe(s.pendingAdmin, call.caller, call.now))
            && (s'.operator != s.operator <==> OperatorMoves(s, call))
            && (s'.version != s.version <==> KeyMigrates(s, call))
            && (s'.migrationKey != s.migrationKey ==> s'.migrationKey.None?)
            && (s'.pendingAdmin != s.pendingAdmin ==> s'.pendingAdmin.None?)
            && (s'.pendingOperator != s.pendingOperator ==> s'.pendingOperator.None?)
            && (s'.history != s.history ==> call.op.CalculateSla? && s.operator == Some(call.caller) && !s.paused)
            && (s'.stats != s.stats ==> call.op.CalculateSla? && s.operator == Some(call.caller) && !s.paused)
  {
    if IsRoleOp(call.op) {
      RoleCallsFrame(s, call, digest);
      RolesNeedAdmin(s, call, digest);
      OperatorNeedsAdmin(s, call, digest);
    } else {
      WorkCallsFrame(s, call, digest);
      WorkNeedsAdmin(s, call, digest);
    }
  }

  lemma {:induction false} RolesNeedAdmin(s: State, call: Call, digest: Digest)
    requires IsRoleOp(call.op) && !Restarts(s, call) && s.admin != Some(call.caller)
    ensures var s' := Step(s, call, digest);
            && s'.paused == s.paused
            && (s'.admin != s.admin ==> Ripe(s.pendingAdmin, call.caller, call.now))
            && (s'.pendingAdmin != s.pendingAdmin ==> s'.pendingAdmin.None?)
  {
  }

  lemma {:induction false} OperatorNeedsAdmin(s: State, call: Call, digest: Digest)
    requires IsRoleOp(call.op) && !Restarts(s, call) && s.admin != Some(call.caller)
    ensures var s' := Step(s, call, digest);
            && (s'.operator != s.operator <==> OperatorMoves(s, call))
            && (s'.version != s.version <==> KeyMigrates(s, call))
            && (s'.migrationKey != s.migrationKey ==> s'.migrationKey.None?)
            && (s'.pendingOperator != s.pendingOperator ==> s'.pendingOperator.None?)
  {
  }

  lemma {:induction false} WorkNeedsAdmin(s: State, call: Call, digest: Digest)
    requires !IsRoleOp(call.op) && s.admin != Some(call.caller)
    ensures Step(s, call, digest) != s ==> call.op.CalculateSla? && s.operator == Some(call.caller) && !s.paused
    ensures call.op.CalculateSla? ==>
              var s' := Step(s, call, digest); s' == s.(history := s'.history, stats := s'.stats)
  {
    if call.op.CalculateSla? {
      CalculationKeepsSettings(s, call, digest);
    }
  }

  /** Every result in the log of a run was calculated by a call of the run, made by the
      operator of that moment while the contract was not paused, and returned to it. */
  lemma {:induction false} LoggedResultWasCalculated(calls: seq<Call>, k: nat, digest: Digest, r: SLAResult)
      returns (i: nat)
    requires k <= |calls| && r in RunTo(calls, k, digest).log
    ensures i < k && calls[i].op.CalculateSla?
    ensures var s, c := RunTo(calls, i, digest).state, calls[i];
            && s.operator == Some(c.caller) && !s.paused && IsCanonical(c.op.severity)
            && Lookup(s.history, r.outageId).None?
            && r.outageId == c.op.id && r.recordedAt == c.now && r.mttr == Min(c.op.mttr, DurationCap(s))
            && DoCalculateSla(s, digest, c.now, c.caller, c.op.id, c.op.severity, c.op.mttr).1 == Ok(r)
  {
    var before, call := RunTo(calls, k - 1, digest), calls[k - 1];
    if r in before.log {
      i := LoggedResultWasCalculated(calls, k - 1, digest, r);
    } else {
      i := k - 1;
      assert Recorded(before.state, call, digest) == Some(r);
      ComputedResult(before.state, digest, call.now, call.op.id, call.op.severity, call.op.mttr);
    }
  }

  // ------------------------------------------------------------ admin handover

  /** Call `i` was a proposal of `p.target` by `proposer`, who was then admin. */
  ghost predicate ProposedAt(calls: seq<Call>, digest: Digest, i: nat, proposer: Address, p: Proposal)
    requires i < |calls|
  {
    && calls[i].op == ProposeAdmin(p.target)
    && calls[i].caller == proposer
    && calls[i].now == p.proposedAt
    && StateAt(calls, i, digest).admin == Some(proposer)
  }

  /** A call that replaces the pending proposal of an admin. */
  predicate ProposesAdmin(s: State, call: Call)
  {
    call.op.ProposeAdmin? && AdminFault(s, call.caller).None?
  }

  /** A call by which the admin withdraws the pending proposal. */
  predicate WithdrawsAdmin(s: State, call: Call)
  {
    (call.op.CancelAdminProposal? || call.op.RenounceAdmin?) && AdminFault(s, call.caller).None?
  }

  /** From point `i` to point `k` neither the admin nor the pending proposal changed,
      and the admin neither made a further proposal nor cancelled it nor renounced. */
  ghost predicate Undisturbed(calls: seq<Call>, digest: Digest, i: nat, k: nat, proposer: Address, p: Proposal)
    requires i <= k <= |calls|
  {
    && (forall j: nat | i <= j <= k ::
          StateAt(calls, j, digest).admin == Some(proposer) && StateAt(calls, j, digest).pendingAdmin == Some(p))
    && (forall j: nat | i <= j < k ::
          && !ProposesAdmin(StateAt(calls, j, digest), calls[j])
          && !WithdrawsAdmin(StateAt(calls, j, digest), calls[j]))
  }

  /** A pending proposal was made by the admin still in office, and nothing has touched
      it since. */
  ghost predicate PendingIsGenuine(calls: seq<Call>, k: nat, digest: Digest)
    requires k <= |calls|
  {
    var s := StateAt(calls, k, digest);
    s.pendingAdmin.Some? ==>
      s.admin.Some? &&
      exists i: nat :: i < k && ProposedAt(calls, digest, i, s.admin.value, s.pendingAdmin.value)
                       && Undisturbed(calls, digest, i + 1, k, s.admin.value, s.pendingAdmin.value)
  }

  /** What one call can do to the pending proposal. */
  ghost predicate PendingMoves(s: State, call: Call, s': State)
  {
    s'.pendingAdmin.Some? ==>
      && s.admin.Some? && s'.admin == s.admin && !WithdrawsAdmin(s, call)
      && if ProposesAdmin(s, call)
         then s'.pendingAdmin == Some(Proposal(call.op.address, call.now))
         else s'.pendingAdmin == s.pendingAdmin
  }

  lemma {:induction false} PendingFrame(s: State, call: Call, digest: Digest)
    requires s.pendingAdmin.Some? ==> s.admin.Some?
    ensures PendingMoves(s, call, Step(s, call, digest))
  {
    if IsRoleOp(call.op) {
      PendingRoles(s, call, digest);
    } else {
      WorkCallsFrame(s, call, digest);
    }
  }

  lemma {:induction false} PendingRoles(s: State, call: Call, digest: Digest)
    requires IsRoleOp(call.op) && (s.pendingAdmin.Some? ==> s.admin.Some?)
    ensures PendingMoves(s, call, Step(s, call, digest))
  {
  }

  lemma {:induction false} UndisturbedLonger(calls: seq<Call>, digest: Digest, i: nat, k: nat, proposer: Address,
      p: Proposal)
    requires i <= k < |calls| && Undisturbed(calls, digest, i, k, proposer, p)
    requires StateAt(calls, k + 1, digest).admin == Some(proposer)
        && StateAt(calls, k + 1, digest).pendingAdmin == Some(p)
    requires !ProposesAdmin(StateAt(calls, k, digest), calls[k]) && !WithdrawsAdmin(StateAt(calls, k, digest), calls[k])
    ensures Undisturbed(calls, digest, i, k + 1, proposer, p)
  {
  }

  lemma {:induction false} GenuineStep(calls: seq<Call>, k: nat, digest: Digest)
    requires k < |calls|
    requires PendingIsGenuine(calls, k, digest)
        && PendingMoves(StateAt(calls, k, digest), calls[k], StateAt(calls, k + 1, digest))
    ensures PendingIsGenuine(calls, k + 1, digest)
  {
    if StateAt(calls, k + 1, digest).pendingAdmin.Some? {
      var admin, p := StateAt(calls, k, digest).admin.value, StateAt(calls, k + 1, digest).pendingAdmin.value;
      if ProposesAdmin(StateAt(calls, k, digest), calls[k]) {
        assert ProposedAt(calls, digest, k, admin, p) && Undisturbed(calls, digest, k + 1, k + 1, admin, p);
      } else {
        var i: nat :| i < k && ProposedAt(calls, digest, i, admin, p) && Undisturbed(calls, digest, i + 1, k, admin, p);
        UndisturbedLonger(calls, digest, i + 1, k, admin, p);
      }
    }
  }

  lemma {:induction false} PendingStep(calls: seq<Call>, k: nat, digest: Digest)
    requires k < |calls| && PendingIsGenuine(calls, k, digest)
    ensures PendingIsGenuine(calls, k + 1, digest)
  {
    StateSteps(calls, k, digest);
    PendingFrame(StateAt(calls, k, digest), calls[k], digest);
    GenuineStep(calls, k, digest);
  }

  /** In every reachable state a pending proposal was made by the admin still in office. */
  lemma {:induction false} PendingProposalIsGenuine(calls: seq<Call>, k: nat, digest: Digest)
    requires k <= |calls|
    ensures PendingIsGenuine(calls, k, digest)
  {
    if k > 0 {
      PendingProposalIsGenuine(calls, k - 1, digest);
      PendingStep(calls, k - 1, digest);
    }
  }

  lemma {:induction false} ReplacementIsAcceptance(s: State, call: Call, digest: Digest)
    requires s.admin.Some? && Step(s, call, digest).admin.Some? && s.admin != Step(s, call, digest).admin
    ensures call.op == AcceptAdmin && Step(s, call, digest).admin == Some(call.caller)
    ensures s.pendingAdmin.Some? && s.pendingAdmin.value.target == call.caller
        && !Expired(s.pendingAdmin.value, call.now)
  {
    if !IsRoleOp(call.op) {
      WorkCallsFrame(s, call, digest);
    }
  }

  /** Whenever one admin is replaced by another, the step is an acceptance by the address
      that the outgoing admin last named, in a proposal at most 604800 seconds old
      that nothing cancelled, replaced or expired in between. */
  lemma {:induction false} AdminReplacementWasProposed(calls: seq<Call>, k: nat, digest: Digest) returns (i: nat)
    requires Clocked(calls) && k < |calls|
    requires StateAt(calls, k, digest).admin.Some? && StateAt(calls, k + 1, digest).admin.Some?
        && StateAt(calls, k, digest).admin != StateAt(calls, k + 1, digest).admin
    ensures calls[k].op == AcceptAdmin && StateAt(calls, k + 1, digest).admin == Some(calls[k].caller)
    ensures i < k
    ensures ProposedAt(calls, digest, i, StateAt(calls, k, digest).admin.value, Proposal(calls[k].caller, calls[i].now))
    ensures Undisturbed(calls, digest, i + 1, k, StateAt(calls, k, digest).admin.value,
        Proposal(calls[k].caller, calls[i].now))
    ensures 0 <= calls[k].now - calls[i].now <= PROPOSAL_EXPIRATION_SECONDS
  {
    PendingProposalIsGenuine(calls, k, digest);
    ReplacementIsAcceptance(StateAt(calls, k, digest), calls[k], digest);
    var admin, p := StateAt(calls, k, digest).admin.value, StateAt(calls, k, digest).pendingAdmin.value;
    i :| i < k && ProposedAt(calls, digest, i, admin, p) && Undisturbed(calls, digest, i + 1, k, admin, p);
    assert calls[i].now <= calls[k].now;
  }

  /** An admin who left office by renouncing can be succeeded, despite the documented
      irreversibility: `initialize` succeeds exactly when no admin is stored. */
  lemma {:induction false} RenounceReopensInitialize(s: State, caller: Address, admin: Address, operator: Address)
    requires AdminFault(s, caller).None?
    ensures var left := DoRenounceAdmin(s, caller).0;
            var again := DoInitialize(left, admin, operator);
            again.1.Ok? && again.0.admin == Some(admin) && again.0.history == [] && again.0.stats == ZERO_STATS
    ensures !DoInitialize(s, admin, operator).1.Ok?
  {
  }

  /** What the documentation promises of a vacancy holds for every other call, but for the
      operator: once no admin is stored, only `initialize` can ever store one again, and
      no other call touches configuration, limits, pause flag or, save for the two calls
      of `OperatorMoves` and the holder of the migration key, operator or version. */
  lemma {:induction false} OnlyInitializeEndsVacancy(calls: seq<Call>, k: nat, digest: Digest)
    requires k < |calls|
    requires StateAt(calls, k, digest).admin.None?
    ensures StateAt(calls, k + 1, digest).admin.Some? <==> calls[k].op.Initialize?
    ensures !calls[k].op.Initialize? ==>
              KeptInVacancy(StateAt(calls, k, digest), calls[k], StateAt(calls, k + 1, digest))
  {
    PendingProposalIsGenuine(calls, k, digest);
    StateSteps(calls, k, digest);
    VacancyStep(StateAt(calls, k, digest), calls[k], digest);
  }

  predicate KeptInVacancy(s: State, call: Call, s': State)
  {
    && s'.configs == s.configs && s'.paused == s.paused
    && s'.retention == s.retention && s'.maxDuration == s.maxDuration
    && (s'.operator != s.operator <==> OperatorMoves(s, call))
    && (s'.version != s.version <==> KeyMigrates(s, call))
  }

  lemma {:induction false} VacancyStep(s: State, call: Call, digest: Digest)
    requires s.admin.None? && s.pendingAdmin.None?
    ensures Step(s, call, digest).admin.Some? <==> call.op.Initialize?
    ensures !call.op.Initialize? ==> KeptInVacancy(s, call, Step(s, call, digest))
  {
    if !call.op.Initialize? {
      GovernanceNeedsAdmin(s, call, digest);
    }
  }
}
