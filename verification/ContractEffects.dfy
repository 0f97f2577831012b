/** What each entry point of the contract accomplishes, read off from outside: field by
    field over all calls, by when a call is refused, and by what later calls find. */
module ContractEffects {
  import opened Ints
  import opened SlaTypes
  import opened SlaMath
  import opened ContractState
  import opened ContractRuns
  import opened OperatorRuns
  import opened LastWrites

  // ------------------------------------- who last wrote a field, over all calls

  predicate ByAdmin(s: State, call: Call)
  {
    AdminFault(s, call.caller).None?
  }

  /** A pending proposal that this call meets too late, or takes up. */
  predicate Consumes(s: State, pending: Option<Proposal>, call: Call)
  {
    VersionFault(s).None? && pending.Some? && (pending.value.target == call.caller || Expired(pending.value, call.now))
  }

  predicate Clears(s: State, pending: Option<Proposal>, call: Call)
  {
    VersionFault(s).None? && pending.Some? && Expired(pending.value, call.now)
  }

  lemma {:induction false} AdminAfter(s: State, call: Call, digest: Digest)
    ensures Step(s, call, digest).admin ==
            if Restarts(s, call) then Some(call.op.admin)
            else if call.op.RenounceAdmin? && ByAdmin(s, call) then None
            else if call.op.AcceptAdmin? && VersionFault(s).None? && Ripe(s.pendingAdmin, call.caller, call.now)
              then Some(call.caller)
            else s.admin
  {
    AdminChangesExactly(s, call, digest);
    if AdminMoves(s, call) {
      AdminMoved(s, call, digest);
    }
  }

  lemma {:induction false} AdminMoved(s: State, call: Call, digest: Digest)
    requires AdminMoves(s, call)
    ensures Step(s, call, digest).admin ==
            if call.op.Initialize? then Some(call.op.admin)
            else if call.op.RenounceAdmin? then None
            else Some(call.caller)
  {
  }

  lemma {:induction false} OperatorAfter(s: State, call: Call, digest: Digest)
    ensures Step(s, call, digest).operator ==
            if Restarts(s, call) then Some(call.op.operator)
            else if call.op.SetOperator? && ByAdmin(s, call) then Some(call.op.address)
            else if (call.op.RevokeOperator? && ByAdmin(s, call))
                    || (call.op.RenounceOperator? && VersionFault(s).None? && s.operator == Some(call.caller)) then None
            else if call.op.AcceptOperator? && VersionFault(s).None? && Ripe(s.pendingOperator, call.caller, call.now)
              then Some(call.caller)
            else s.operator
  {
    if !IsRoleOp(call.op) {
      WorkCallsFrame(s, call, digest);
    }
  }

  lemma {:induction false} PendingAdminAfter(s: State, call: Call, digest: Digest)
    ensures Step(s, call, digest).pendingAdmin ==
            if call.op.ProposeAdmin? && ByAdmin(s, call) then Some(Proposal(call.op.address, call.now))
            else if ((call.op.CancelAdminProposal? || call.op.RenounceAdmin?) && ByAdmin(s, call))
                    || (call.op.AcceptAdmin? && Consumes(s, s.pendingAdmin, call))
                    || (call.op.GetPendingAdmin? && Clears(s, s.pendingAdmin, call)) then None
            else s.pendingAdmin
  {
    if !IsRoleOp(call.op) {
      WorkCallsFrame(s, call, digest);
    }
  }

  lemma {:induction false} PendingOperatorAfter(s: State, call: Call, digest: Digest)
    ensures Step(s, call, digest).pendingOperator ==
            if call.op.ProposeOperator? && ByAdmin(s, call) then Some(Proposal(call.op.address, call.now))
            else if ((call.op.CancelOperatorProposal? || call.op.RevokeOperator?) && ByAdmin(s, call))
                    || (call.op.RenounceOperator? && VersionFault(s).None? && s.operator == Some(call.caller))
                    || (call.op.AcceptOperator? && Consumes(s, s.pendingOperator, call))
                    || (call.op.GetPendingOperator? && Clears(s, s.pendingOperator, call)) then None
            else s.pendingOperator
  {
    if !IsRoleOp(call.op) {
      WorkCallsFrame(s, call, digest);
    }
  }

  lemma {:induction false} MigrationAfter(s: State, call: Call, digest: Digest)
    ensures Step(s, call, digest).migrationKey ==
            if call.op.SetMigrationKey? && ByAdmin(s, call) then Some(Proposal(call.op.address, call.now))
            else if KeyMigrates(s, call) then None
            else s.migrationKey
    ensures Step(s, call, digest).version ==
            if Restarts(s, call) then Some(STORAGE_VERSION)
            else if KeyMigrates(s, call) then Some(STORAGE_VERSION + 1)
            else if call.op.Migrate? && s.admin == Some(call.caller)
                    && (s.version.None? || s.version.value < STORAGE_VERSION) then Some(STORAGE_VERSION)
            else s.version
  {
    if !IsRoleOp(call.op) {
      WorkCallsFrame(s, call, digest);
    }
  }

  lemma {:induction false} PauseAfter(s: State, call: Call, digest: Digest)
    ensures Step(s, call, digest).paused ==
            if Restarts(s, call) then false
            else if call.op.SetPaused? && ByAdmin(s, call) then call.op.paused
            else s.paused
  {
    if !IsRoleOp(call.op) {
      WorkCallsFrame(s, call, digest);
    }
  }

  lemma {:induction false} DurationCapAfter(s: State, call: Call, digest: Digest)
    ensures DurationCap(Step(s, call, digest)) ==
            if call.op.SetMaxOutageDuration? && ByAdmin(s, call) && call.op.limit > 0 then call.op.limit
            else DurationCap(s)
  {
    if IsRoleOp(call.op) && !Restarts(s, call) {
      RoleCallsFrame(s, call, digest);
    } else if IsPruning(call.op) {
      PruningSteps(s, call, digest);
    } else if call.op.CalculateSla? {
      CalculationKeepsSettings(s, call, digest);
    }
  }

  // ----------------------------------------------------------- stored tiers

  /** The tier stored for a severity, if any. */
  function TierOf(s: State, severity: Symbol): Option<SLAConfig>
  {
    if s.configs.Some? && severity in s.configs.value then Some(s.configs.value[severity]) else None
  }

  function EntryIn(configs: ConfigMap, severity: Symbol): Option<SLAConfig>
  {
    if severity in configs then Some(configs[severity]) else None
  }

  /** A call that settles the tier of a severity, to the tier it sets, imports or resets. */
  predicate SetsTier(s: State, call: Call, severity: Symbol)
  {
    || Restarts(s, call) || Imports(s, call)
    || (call.op.ResetConfig? && ByAdmin(s, call))
    || (call.op.SetConfig? && call.op.severity == severity && ByAdmin(s, call) && s.configs.Some?
        && ValidateConfig(severity, call.op.config, s.configs.value).Ok?)
  }

  function TierSet(call: Call, severity: Symbol): Option<SLAConfig>
  {
    match call.op
    case SetConfig(_, cfg) => Some(cfg)
    case ImportConfigMap(configs) => EntryIn(configs, severity)
    case _ => EntryIn(DEFAULT_CONFIGS, severity)
  }

  /** An accepted update stores its tier, leaves every other tier and adds no other key; a
      refused one changes nothing. */
  lemma {:induction false} SetConfigStores(s: State, caller: Address, severity: Symbol, cfg: SLAConfig)
    ensures var (s', r) := DoSetConfig(s, caller, severity, cfg);
            && (r.Ok? ==> s.configs.Some? && s'.configs.Some?
                          && s'.configs.value.Keys == s.configs.value.Keys + {severity}
                          && TierOf(s', severity) == Some(cfg)
                          && forall other: Symbol | other != severity :: TierOf(s', other) == TierOf(s, other))
            && (!r.Ok? ==> s' == s)
            && (r.Ok? <==>
                  AdminFault(s, caller).None? && s.configs.Some? && ValidateConfig(severity, cfg, s.configs.value).Ok?)
  {
  }

  lemma {:induction false} TierAfter(s: State, call: Call, digest: Digest, severity: Symbol)
    ensures TierOf(Step(s, call, digest), severity) ==
            if SetsTier(s, call, severity) then TierSet(call, severity) else TierOf(s, severity)
  {
    if call.op.SetConfig? {
      SetConfigStores(s, call.caller, call.op.severity, call.op.config);
    } else {
      OtherCallsConfig(s, call, digest);
    }
  }

  /** The tiers stored for one severity along a run, and what its calls write there. */
  function TiersAlong(states: seq<State>, severity: Symbol): seq<Option<SLAConfig>>
  {
    seq(|states|, k requires 0 <= k < |states| => TierOf(states[k], severity))
  }

  function TierWrites(calls: seq<Call>, states: seq<State>, severity: Symbol): seq<Option<Option<SLAConfig>>>
    requires |states| > |calls|
  {
    seq(|calls|, k requires 0 <= k < |calls| =>
      if SetsTier(states[k], calls[k], severity) then Some(TierSet(calls[k], severity)) else None)
  }

  /** Over any run each stored tier is the one last set, imported, reset or initialized, and
      none before the first of these. */
  lemma {:induction false} TierIsLastSet(calls: seq<Call>, states: seq<State>, k: nat, digest: Digest, severity: Symbol)
      returns (i: Option<nat>)
    requires IsRun(calls, states, digest) && k <= |calls|
    ensures LastWritten(TiersAlong(states, severity), TierWrites(calls, states, severity), k, i)
    ensures TiersAlong(states, severity)[0].None?
  {
    var tiers, writes := TiersAlong(states, severity), TierWrites(calls, states, severity);
    forall j: nat | j < |calls|
      ensures tiers[j + 1] == if writes[j].Some? then writes[j].value else tiers[j]
    {
      TierAfter(states[j], calls[j], digest, severity);
    }
    i := LastWriteWins(tiers, writes, k);
  }

  /** A breach under a stored tier is charged at the rate of that tier. */
  lemma {:induction false} SetConfigCharges(s: State, caller: Address, severity: Symbol, cfg: SLAConfig, digest: Digest,
                                            now: u64, id: Symbol, mttr: u32)
    requires DoSetConfig(s, caller, severity, cfg).1.Ok? && Ordered(s.configs.value)
    ensures var s' := DoSetConfig(s, caller, severity, cfg).0;
            var view := CalculateSlaView(s', digest, now, id, severity, mttr);
            var m := Min(mttr, DurationCap(s));
            && view.Ok? && view.value.threshold == cfg.threshold
            && (m > cfg.threshold ==> view.value.amount == -((m - cfg.threshold) * cfg.penalty))
  {
    SetConfigStores(s, caller, severity, cfg);
    ValidateConfigExact(severity, cfg, s.configs.value);
    SeverityOfRank(severity);
    var s' := DoSetConfig(s, caller, severity, cfg).0;
    ResultByProducts(severity, id, Min(mttr, DurationCap(s)), cfg, digest(s'.configs.value), now);
  }

  // ----------------------------------------------------------- when a call is refused

  /** Calls that only the admin may make. */
  predicate AdminOnly(op: Op)
  {
    op.SetOperator? || op.RevokeOperator? || op.ProposeAdmin? || op.CancelAdminProposal? || op.RenounceAdmin?
    || op.ProposeOperator? || op.CancelOperatorProposal? || op.SetMigrationKey? || op.SetPaused? || op.SetConfig?
    || op.ImportConfigMap? || op.ResetConfig? || op.SetRetentionLimit? || op.SetMaxOutageDuration? || IsPruning(op)
  }

  function ErrorIn<T>(r: Result<T>): Option<SLAError>
  {
    if r.Err? then Some(r.error) else None
  }

  /** The error that a call returns, if it returns one. */
  function ErrorOf(s: State, call: Call, digest: Digest): Option<SLAError>
  {
    match call.op
    case Initialize(a, o) => ErrorIn(DoInitialize(s, a, o).1)
    case SetOperator(o) => ErrorIn(DoSetOperator(s, call.caller, o).1)
    case RevokeOperator => ErrorIn(DoRevokeOperator(s, call.caller).1)
    case ProposeAdmin(a) => ErrorIn(DoProposeAdmin(s, call.now, call.caller, a).1)
    case AcceptAdmin => ErrorIn(DoAcceptAdmin(s, call.now, call.caller).1)
    case CancelAdminProposal => ErrorIn(DoCancelAdminProposal(s, call.caller).1)
    case GetPendingAdmin => ErrorIn(DoGetPendingAdmin(s, call.now).1)
    case RenounceAdmin => ErrorIn(DoRenounceAdmin(s, call.caller).1)
    case RenounceOperator => ErrorIn(DoRenounceOperator(s, call.caller).1)
    case ProposeOperator(a) => ErrorIn(DoProposeOperator(s, call.now, call.caller, a).1)
    case AcceptOperator => ErrorIn(DoAcceptOperator(s, call.now, call.caller).1)
    case CancelOperatorProposal => ErrorIn(DoCancelOperatorProposal(s, call.caller).1)
    case GetPendingOperator => ErrorIn(DoGetPendingOperator(s, call.now).1)
    case Migrate => ErrorIn(DoMigrate(s, call.caller).1)
    case SetMigrationKey(a) => ErrorIn(DoSetMigrationKey(s, call.now, call.caller, a).1)
    case ExecuteMigration => ErrorIn(DoExecuteMigration(s, call.now, call.caller).1)
    case SetPaused(p) => ErrorIn(DoSetPaused(s, call.caller, p).1)
    case SetConfig(sev, cfg) => ErrorIn(DoSetConfig(s, call.caller, sev, cfg).1)
    case ImportConfigMap(m) => ErrorIn(DoImportConfigMap(s, call.caller, m).1)
    case ResetConfig => ErrorIn(DoResetConfig(s, call.caller).1)
    case SetRetentionLimit(n) => ErrorIn(DoSetRetentionLimit(s, call.caller, n).1)
    case SetMaxOutageDuration(n) => ErrorIn(DoSetMaxOutageDuration(s, call.caller, n).1)
    case CalculateSla(id, sev, m) => ErrorIn(DoCalculateSla(s, digest, call.now, call.caller, id, sev, m).1)
    case PruneHistory(k) => ErrorIn(DoPruneHistory(s, call.caller, k).1)
    case PruneHistoryByAge(age) => ErrorIn(DoPruneHistoryByAge(s, call.now, call.caller, age).1)
    case PruneHistoryQueue => ErrorIn(DoPruneHistoryQueue(s, call.caller).1)
  }

  /** Before anything else: an uninitialized contract says so, one of another version says
      that, to every call but `initialize` and `migrate`. */
  lemma {:induction false} VersionComesFirst(s: State, call: Call, digest: Digest)
    requires !call.op.Initialize? && !call.op.Migrate?
    ensures s.version.None? ==> ErrorOf(s, call, digest) == Some(NotInitialized)
    ensures s.version.Some? && s.version.value != STORAGE_VERSION ==> ErrorOf(s, call, digest) == Some(VersionMismatch)
  {
  }

  /** Then, for the calls of the admin: without an admin they say not initialized, to
      anyone else unauthorized; and they give no such error to the admin. */
  lemma {:induction false} AdminComesSecond(s: State, call: Call, digest: Digest)
    requires AdminOnly(call.op) && s.version == Some(STORAGE_VERSION)
    ensures s.admin.None? ==> ErrorOf(s, call, digest) == Some(NotInitialized)
    ensures s.admin.Some? && s.admin.value != call.caller ==> ErrorOf(s, call, digest) == Some(Unauthorized)
    ensures s.admin == Some(call.caller) ==> ErrorOf(s, call, digest) == OwnError(s, call.op)
  {
  }

  /** What an admin can still get wrong. */
  function OwnError(s: State, op: Op): Option<SLAError>
  {
    match op
    case CancelAdminProposal => if s.pendingAdmin.None? then Some(NoPendingTransfer) else None
    case CancelOperatorProposal => if s.pendingOperator.None? then Some(NoPendingTransfer) else None
    case SetConfig(severity, cfg) =>
      if s.configs.None? then Some(NotInitialized) else ErrorIn(ValidateConfig(severity, cfg, s.configs.value))
    case ImportConfigMap(configs) =>
      if |configs| == 0 then Some(ConfigNotFound)
      else if configs.Keys <= {CRITICAL, HIGH, MEDIUM, LOW} then None else Some(InvalidSeverity)
    case SetRetentionLimit(n) => if n < 50 || n > 5000 then Some(RetentionLimitOutOfRange) else None
    case SetMaxOutageDuration(n) => if n == 0 then Some(InvalidMTTR) else None
    case _ => None
  }

  /** Whatever is refused leaves storage alone, but for an expired proposal that an
      acceptance drops. */
  lemma {:induction false} RefusedChangesNothing(s: State, call: Call, digest: Digest)
    requires ErrorOf(s, call, digest).Some?
    ensures Step(s, call, digest) ==
            if call.op.AcceptAdmin? && Clears(s, s.pendingAdmin, call) then s.(pendingAdmin := None)
            else if call.op.AcceptOperator? && Clears(s, s.pendingOperator, call) then s.(pendingOperator := None)
            else s
  {
    if AdminOnly(call.op) {
      RefusedByAdminRule(s, call, digest);
    } else if call.op.CalculateSla? {
      RefusedCalculation(s, call, digest);
    }
  }

  lemma {:induction false} RefusedByAdminRule(s: State, call: Call, digest: Digest)
    requires AdminOnly(call.op) && ErrorOf(s, call, digest).Some?
    ensures Step(s, call, digest) == s
  {
    if IsRoleOp(call.op) {
      RefusedRole(s, call, digest);
    } else if IsPruning(call.op) {
      PruningSteps(s, call, digest);
    }
  }

  lemma {:induction false} RefusedRole(s: State, call: Call, digest: Digest)
    requires AdminOnly(call.op) && IsRoleOp(call.op) && ErrorOf(s, call, digest).Some?
    ensures Step(s, call, digest) == s
  {
  }

  lemma {:induction false} RefusedCalculation(s: State, call: Call, digest: Digest)
    requires call.op.CalculateSla? && ErrorOf(s, call, digest).Some?
    ensures Step(s, call, digest) == s
  {
  }

  // ------------------------------------------------------------- what a result says

  /** The view answers anyone, paused or not, with the result of the stored tier at the
      capped duration, under the digest of the whole map and the time of the call. */
  lemma {:induction false} ViewIsExact(s: State, digest: Digest, now: u64, id: Symbol, severity: Symbol, mttr: u32)
    requires VersionFault(s).None? && IsCanonical(severity) && TierOf(s, severity).Some?
    requires Bounded(severity, TierOf(s, severity).value)
    ensures var cfg, m := TierOf(s, severity).value, Min(mttr, DurationCap(s));
            var view := CalculateSlaView(s, digest, now, id, severity, mttr);
            && view.Ok? && view.value.outageId == id && view.value.mttr == m && view.value.threshold == cfg.threshold
            && view.value.configHash == digest(s.configs.value) && view.value.recordedAt == now
            && (view.value.status == VIOL <==> m > cfg.threshold)
            && (m > cfg.threshold ==> view.value.amount == -((m - cfg.threshold) * cfg.penalty))
  {
    var cfg, m := TierOf(s, severity).value, Min(mttr, DurationCap(s));
    ResultByProducts(severity, id, m, cfg, digest(s.configs.value), now);
    ResultShape(severity, id, m, cfg, digest(s.configs.value), now);
  }

  /** A new cap takes effect at once: longer outages are answered as those of the cap, and
      outages below both caps as before. */
  lemma {:induction false} CapCapsView(s: State, caller: Address, limit: u32, digest: Digest, now: u64, id: Symbol,
                                       severity: Symbol, mttr: u32)
    requires DoSetMaxOutageDuration(s, caller, limit).1.Ok?
    ensures var s' := DoSetMaxOutageDuration(s, caller, limit).0;
            && (mttr >= limit ==>
                  CalculateSlaView(s', digest, now, id, severity, mttr)
                      == CalculateSlaView(s', digest, now, id, severity, limit))
            && (mttr <= limit && mttr <= DurationCap(s) ==>
                  CalculateSlaView(s', digest, now, id, severity, mttr)
                      == CalculateSlaView(s, digest, now, id, severity, mttr))
    ensures var s' := DoSetMaxOutageDuration(s, caller, limit).0;
            DurationCap(s') == limit && limit > 0 && s' == s.(maxDuration := s'.maxDuration)
  {
  }

  /** A paused contract calculates for no one; pausing and resuming leaves an unpaused
      contract exactly as it was. */
  lemma {:induction false} PauseStopsCalculation(s: State, caller: Address, digest: Digest, now: u64, other: Address,
                                                 id: Symbol, severity: Symbol, mttr: u32)
    requires AdminFault(s, caller).None?
    ensures var paused := DoSetPaused(s, caller, true);
            && paused.1.Ok?
            && (IsCanonical(severity) ==>
                  DoCalculateSla(paused.0, digest, now, other, id, severity, mttr) == (paused.0, Err(ContractPaused)))
            && DoSetPaused(paused.0, caller, false).1.Ok?
            && (!s.paused ==> DoSetPaused(paused.0, caller, false).0 == s)
  {
  }

  /** A severity that is none of the four is refused before the pause and the caller are
      even looked at. */
  lemma {:induction false} SeverityComesFirst(s: State, digest: Digest, now: u64, caller: Address, id: Symbol,
                                              severity: Symbol, mttr: u32)
    requires VersionFault(s).None? && severity !in {CRITICAL, HIGH, MEDIUM, LOW}
    ensures DoCalculateSla(s, digest, now, caller, id, severity, mttr) == (s, Err(InvalidSeverity))
    ensures CalculateSlaView(s, digest, now, id, severity, mttr) == Err(InvalidSeverity)
    ensures SimulateSla(s, id, severity, mttr) == Err(InvalidSeverity)
  {
  }

  /** A repeated id is refused exactly when the capped duration or the threshold differs from
      the stored entry; otherwise the stored entry is the answer. */
  lemma {:induction false} RepeatedIdExactly(s: State, digest: Digest, now: u64, caller: Address, id: Symbol,
                                             severity: Symbol, mttr: u32, prev: SLAResult)
    requires OperatorFault(s, caller, severity).None? && TierOf(s, severity).Some?
    requires Bounded(severity, TierOf(s, severity).value)
    requires DistinctIds(s.history) && prev in s.history && prev.outageId == id
    ensures var done := DoCalculateSla(s, digest, now, caller, id, severity, mttr);
            && done.0 == s
            && (done.1 == Err(DuplicateOutageInput) <==>
                  prev.mttr != Min(mttr, DurationCap(s)) || prev.threshold != TierOf(s, severity).value.threshold)
            && (done.1 != Err(DuplicateOutageInput) ==> done.1 == Ok(prev))
  {
    LookupIsUnique(s.history, prev);
    ResultShape(severity, id, Min(mttr, DurationCap(s)), TierOf(s, severity).value, digest(s.configs.value), now);
  }

  /** A freshly initialized contract is ready: its operator can record an outage of any of
      the four severities, which is then the whole history; nobody else can. */
  lemma {:induction false} InitializedIsUsable(s: State, admin: Address, operator: Address, digest: Digest, now: u64,
                                               caller: Address, id: Symbol, severity: Symbol, mttr: u32)
    requires s.admin.None? && IsCanonical(severity)
    ensures var s' := DoInitialize(s, admin, operator).0;
            var done := DoCalculateSla(s', digest, now, caller, id, severity, mttr);
            && AdminFault(s', admin).None?
            && (done.1.Ok? <==> caller == operator)
            && (done.1.Ok? && RetentionLimit(s) > 0 ==> done.0.history == [done.1.value])
            && (!done.1.Ok? ==> done.1 == Err(Unauthorized))
  {
    DefaultsAreOrdered();
    SeverityOfRank(severity);
    var s' := DoInitialize(s, admin, operator).0;
    var cfg := DEFAULT_CONFIGS[severity];
    assert Bounded(severity, cfg);
    ResultShape(severity, id, Min(mttr, DurationCap(s)), cfg, digest(DEFAULT_CONFIGS), now);
    assert Lookup(s'.history, id).None?;
  }

  /** The amount that the view answers. */
  function Answer(s: State, digest: Digest, now: u64, id: Symbol, severity: Symbol, mttr: u32): Option<int>
  {
    var view := CalculateSlaView(s, digest, now, id, severity, mttr);
    if view.Ok? then Some(view.value.amount) else None
  }

  /** The documented defaults: the longest outage of a severity that is met, what one minute
      more costs, and what an outage of one minute earns. */
  function Allowed(severity: Symbol): u32
    requires IsCanonical(severity)
  {
    if severity == CRITICAL then 15 else if severity == HIGH then 30 else if severity == MEDIUM then 60 else 120
  }

  function Costs(severity: Symbol): int
    requires IsCanonical(severity)
  {
    if severity == CRITICAL then 100 else if severity == HIGH then 50 else if severity == MEDIUM then 20 else 5
  }

  function Earns(severity: Symbol): int
    requires IsCanonical(severity)
  {
    if severity == CRITICAL then 1500 else if severity == HIGH then 1000 else if severity == MEDIUM then 500 else 200
  }

  /** These are the rules right after the first initialization, under a duration cap of seven
      days and a history of a thousand results. */
  lemma {:induction false} FirstRules(admin: Address, operator: Address, digest: Digest, now: u64, id: Symbol,
                                      severity: Symbol)
    requires IsCanonical(severity)
    ensures var s := DoInitialize(EMPTY_STATE, admin, operator).0;
            && DurationCap(s) == 7 * 24 * 60 && RetentionLimit(s) == 1000
            && Answer(s, digest, now, id, severity, Allowed(severity) + 1) == Some(-Costs(severity))
            && Answer(s, digest, now, id, severity, 1) == Some(Earns(severity))
            && (Answer(s, digest, now, id, severity, Allowed(severity)).Some?
                && Answer(s, digest, now, id, severity, Allowed(severity)).value > 0)
  {
    var s := DoInitialize(EMPTY_STATE, admin, operator).0;
    DefaultAmounts(severity);
    DefaultAnswer(s, digest, now, id, severity, 1);
    DefaultAnswer(s, digest, now, id, severity, Allowed(severity));
    DefaultAnswer(s, digest, now, id, severity, Allowed(severity) + 1);
  }

  lemma {:induction false} DefaultAmounts(severity: Symbol)
    requires IsCanonical(severity)
    ensures severity in DEFAULT_CONFIGS
    ensures Amount(Allowed(severity) + 1, DEFAULT_CONFIGS[severity]) == -Costs(severity)
    ensures Amount(1, DEFAULT_CONFIGS[severity]) == Earns(severity)
    ensures Amount(Allowed(severity), DEFAULT_CONFIGS[severity]) > 0
  {
    DefaultsAreOrdered();
  }

  lemma {:induction false} DefaultAnswer(s: State, digest: Digest, now: u64, id: Symbol, severity: Symbol, mttr: u32)
    requires s.version == Some(STORAGE_VERSION) && s.configs == Some(DEFAULT_CONFIGS) && DurationCap(s) == 10080
    requires IsCanonical(severity) && mttr <= 10080 && severity in DEFAULT_CONFIGS
    ensures Answer(s, digest, now, id, severity, mttr) == Some(Amount(mttr, DEFAULT_CONFIGS[severity]))
  {
    DefaultsAreOrdered();
    SeverityOfRank(severity);
    ResultShape(severity, id, mttr, DEFAULT_CONFIGS[severity], digest(DEFAULT_CONFIGS), now);
  }

  // ---------------------------------------------------------------- handovers

  /** A proposal is there for its target to accept until it expires, and for no one else;
      the accepted admin is in office at once, and the proposal used up. */
  lemma {:induction false} ProposedCanAccept(s: State, caller: Address, target: Address, t: u64, now: u64,
      other: Address)
    requires AdminFault(s, caller).None? && t <= now
    ensures var s' := DoProposeAdmin(s, t, caller, target).0;
            var done := DoAcceptAdmin(s', now, other);
            && DoProposeAdmin(s, t, caller, target).1.Ok?
            && (done.1.Ok? <==> other == target && now - t <= 604800)
            && (done.1.Ok? ==>
                  AdminFault(done.0, target).None? && DoAcceptAdmin(done.0, now, other).1 == Err(NoPendingTransfer))
            && (other != target && now - t <= 604800 ==> done == (s', Err(Unauthorized)))
            && (now - t > 604800 ==> done == (s'.(pendingAdmin := None), Err(NoPendingTransfer)))
  {
  }

  /** A cancelled proposal can be accepted by no one, at any time. */
  lemma {:induction false} CancelledCannotBeAccepted(s: State, caller: Address, now: u64, other: Address)
    requires AdminFault(s, caller).None?
    ensures var cancelled := DoCancelAdminProposal(s, caller);
            && (cancelled.1.Ok? <==> s.pendingAdmin.Some?)
            && cancelled.0.pendingAdmin.None?
            && DoAcceptAdmin(cancelled.0, now, other) == (cancelled.0, Err(NoPendingTransfer))
            && DoGetPendingAdmin(cancelled.0, now) == (cancelled.0, Ok(None))
  {
  }

  /** The getter names exactly the address that could accept now. */
  lemma {:induction false} PendingIsWhoCanAccept(s: State, now: u64, a: Address)
    requires VersionFault(s).None?
    ensures DoGetPendingAdmin(s, now).1 == Ok(Some(a)) <==> DoAcceptAdmin(s, now, a).1.Ok?
    ensures DoGetPendingAdmin(s, now).1 == Ok(None) <==> forall b: Address :: !DoAcceptAdmin(s, now, b).1.Ok?
  {
    if s.pendingAdmin.Some? && !Expired(s.pendingAdmin.value, now) {
      assert DoAcceptAdmin(s, now, s.pendingAdmin.value.target).1.Ok?;
    }
  }

  /** The same of the operator; being accepted, it can calculate. */
  lemma {:induction false} ProposedOperatorCanAccept(s: State, caller: Address, target: Address, t: u64, now: u64,
                                                     other: Address)
    requires AdminFault(s, caller).None? && t <= now
    ensures var s' := DoProposeOperator(s, t, caller, target).0;
            var done := DoAcceptOperator(s', now, other);
            && DoProposeOperator(s, t, caller, target).1.Ok?
            && (done.1.Ok? <==> other == target && now - t <= 604800)
            && (done.1.Ok? ==> HolderFault(done.0, target).None?
                               && DoAcceptOperator(done.0, now, other).1 == Err(NoPendingTransfer))
            && (other != target && now - t <= 604800 ==> done == (s', Err(Unauthorized)))
            && (now - t > 604800 ==> done == (s'.(pendingOperator := None), Err(NoPendingTransfer)))
  {
  }

  lemma {:induction false} CancelledOperatorCannotAccept(s: State, caller: Address, now: u64, other: Address)
    requires AdminFault(s, caller).None?
    ensures var cancelled := DoCancelOperatorProposal(s, caller);
            && (cancelled.1.Ok? <==> s.pendingOperator.Some?)
            && cancelled.0.pendingOperator.None?
            && DoAcceptOperator(cancelled.0, now, other) == (cancelled.0, Err(NoPendingTransfer))
            && DoGetPendingOperator(cancelled.0, now) == (cancelled.0, Ok(None))
  {
  }

  lemma {:induction false} PendingOperatorIsWhoCanAccept(s: State, now: u64, a: Address)
    requires VersionFault(s).None?
    ensures DoGetPendingOperator(s, now).1 == Ok(Some(a)) <==> DoAcceptOperator(s, now, a).1.Ok?
    ensures DoGetPendingOperator(s, now).1 == Ok(None) <==> forall b: Address :: !DoAcceptOperator(s, now, b).1.Ok?
  {
    if s.pendingOperator.Some? && !Expired(s.pendingOperator.value, now) {
      assert DoAcceptOperator(s, now, s.pendingOperator.value.target).1.Ok?;
    }
  }

  /** Whoever set, revoked or renounced the operator: exactly the address left can calculate,
      and after a revocation or renouncement no standing proposal can be accepted either. */
  lemma {:induction false} OperatorIsWhoWasSet(s: State, caller: Address, a: Address, b: Address, now: u64)
    requires AdminFault(s, caller).None?
    ensures var appointed, revoked := DoSetOperator(s, caller, a).0, DoRevokeOperator(s, caller).0;
            && (HolderFault(appointed, b).None? <==> b == a)
            && HolderFault(revoked, b) == Some(NotInitialized) && !DoAcceptOperator(revoked, now, b).1.Ok?
    ensures HolderFault(s, b).None? ==>
              var left := DoRenounceOperator(s, b).0;
              HolderFault(left, b) == Some(NotInitialized) && !DoAcceptOperator(left, now, b).1.Ok?
  {
  }

  /** A migration key works for its holder once the timelock is over, and only once. */
  lemma {:induction false} MigrationKeyWorksExactly(s: State, caller: Address, target: Address, t: u64, now: u64,
                                                    other: Address)
    requires AdminFault(s, caller).None?
    ensures var s' := DoSetMigrationKey(s, t, caller, target).0;
            var done := DoExecuteMigration(s', now, other);
            && (done.1.Ok? <==> other == target && now - t >= 14 * 86400)
            && (done.1.Ok? ==> done.0.version == Some(STORAGE_VERSION + 1) && done.0.migrationKey.None?)
            && (!done.1.Ok? ==> done == (s', Err(if other != target then Unauthorized else ThresholdOutOfBounds)))
  {
  }
}
