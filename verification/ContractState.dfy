/** The stored state of the SLA contract and what each entry point of lib.rs does to
    it, as functions. `Contract.dfy` proves the imperative entry points equal to
    these; `ContractRuns.dfy` proves what whole runs of them keep. */
module ContractState {
  import opened Ints
  import opened SlaTypes
  import opened SlaMath

  const STORAGE_VERSION: u32 := 1
  const MAX_HISTORY_SIZE: u32 := 1000
  const MIN_RETENTION: u32 := 50
  const MAX_RETENTION: u32 := 5000
  const PROPOSAL_EXPIRATION_SECONDS: u64 := 604800
  const MIGRATION_TIMELOCK: u64 := 1209600
  const DEFAULT_MAX_OUTAGE_DURATION_MINUTES: u32 := 10080

  datatype Proposal = Proposal(target: Address, proposedAt: u64)

  datatype State = State(
    version: Option<u32>,
    admin: Option<Address>,
    operator: Option<Address>,
    pendingAdmin: Option<Proposal>,
    pendingOperator: Option<Proposal>,
    migrationKey: Option<Proposal>,
    paused: bool,
    configs: Option<ConfigMap>,
    stats: SLAStats,
    history: seq<SLAResult>,
    retention: Option<u32>,
    maxDuration: Option<u32>)

  const ZERO_STATS: SLAStats := SLAStats(0, 0, 0, 0)

  /** Storage as it is before the first `initialize`. */
  const EMPTY_STATE: State := State(None, None, None, None, None, None, false, None, ZERO_STATS, [], None, None)

  const DEFAULT_CONFIGS: ConfigMap := map[
    CRITICAL := SLAConfig(15, 100, 750, 200, 150, 100),
    HIGH := SLAConfig(30, 50, 500, 200, 150, 100),
    MEDIUM := SLAConfig(60, 20, 250, 200, 150, 100),
    LOW := SLAConfig(120, 5, 100, 200, 150, 100)]

  /** The retention limit in force. */
  function RetentionLimit(s: State): u32 { if s.retention.Some? then s.retention.value else MAX_HISTORY_SIZE }

  /** The duration cap in force. */
  function DurationCap(s: State): u32
  {
    if s.maxDuration.Some? then s.maxDuration.value else DEFAULT_MAX_OUTAGE_DURATION_MINUTES
  }

  // ------------------------------------------------------------------- guards

  function VersionFault(s: State): Option<SLAError>
  {
    if s.version.None? then Some(NotInitialized)
    else if s.version.value != STORAGE_VERSION then Some(VersionMismatch)
    else None
  }

  function AdminFault(s: State, caller: Address): Option<SLAError>
  {
    if VersionFault(s).Some? then VersionFault(s)
    else if s.admin.None? then Some(NotInitialized)
    else if s.admin.value != caller then Some(Unauthorized)
    else None
  }

  /** The version check, then the operator check. */
  function HolderFault(s: State, caller: Address): Option<SLAError>
  {
    if VersionFault(s).Some? then VersionFault(s)
    else if s.operator.None? then Some(NotInitialized)
    else if s.operator.value != caller then Some(Unauthorized)
    else None
  }

  // ------------------------------------------------------- roles and proposals

  /** Neither pending proposal is touched. */
  function DoInitialize(s: State, admin: Address, operator: Address): (State, Result<()>)
  {
    if s.admin.Some? then (s, Err(AlreadyInitialized))
    else
      (s.(version := Some(STORAGE_VERSION), admin := Some(admin), operator := Some(operator), paused := false,
          stats := ZERO_STATS, history := [], configs := Some(DEFAULT_CONFIGS)), Ok(()))
  }

  function DoSetOperator(s: State, caller: Address, operator: Address): (State, Result<()>)
  {
    if AdminFault(s, caller).Some? then (s, Err(AdminFault(s, caller).value))
    else (s.(operator := Some(operator)), Ok(()))
  }

  function DoRevokeOperator(s: State, caller: Address): (State, Result<()>)
  {
    if AdminFault(s, caller).Some? then (s, Err(AdminFault(s, caller).value))
    else (s.(operator := None, pendingOperator := None), Ok(()))
  }

  function DoProposeAdmin(s: State, now: u64, caller: Address, target: Address): (State, Result<()>)
  {
    if AdminFault(s, caller).Some? then (s, Err(AdminFault(s, caller).value))
    else (s.(pendingAdmin := Some(Proposal(target, now))), Ok(()))
  }

  predicate Expired(p: Proposal, now: u64)
  {
    WrapU64(now - p.proposedAt) > PROPOSAL_EXPIRATION_SECONDS
  }

  function DoAcceptAdmin(s: State, now: u64, caller: Address): (State, Result<()>)
  {
    if VersionFault(s).Some? then (s, Err(VersionFault(s).value))
    else if s.pendingAdmin.None? then (s, Err(NoPendingTransfer))
    else if Expired(s.pendingAdmin.value, now) then (s.(pendingAdmin := None), Err(NoPendingTransfer))
    else if s.pendingAdmin.value.target != caller then (s, Err(Unauthorized))
    else (s.(admin := Some(caller), pendingAdmin := None), Ok(()))
  }

  function DoCancelAdminProposal(s: State, caller: Address): (State, Result<()>)
  {
    if AdminFault(s, caller).Some? then (s, Err(AdminFault(s, caller).value))
    else if s.pendingAdmin.None? then (s, Err(NoPendingTransfer))
    else (s.(pendingAdmin := None), Ok(()))
  }

  /** A read that drops an expired proposal on the way. */
  function DoGetPendingAdmin(s: State, now: u64): (State, Result<Option<Address>>)
  {
    if VersionFault(s).Some? then (s, Err(VersionFault(s).value))
    else if s.pendingAdmin.None? then (s, Ok(None))
    else if Expired(s.pendingAdmin.value, now) then (s.(pendingAdmin := None), Ok(None))
    else (s, Ok(Some(s.pendingAdmin.value.target)))
  }

  function DoRenounceAdmin(s: State, caller: Address): (State, Result<()>)
  {
    if AdminFault(s, caller).Some? then (s, Err(AdminFault(s, caller).value))
    else (s.(admin := None, pendingAdmin := None), Ok(()))
  }

  /** Only the operator is consulted, and no admin. */
  function DoRenounceOperator(s: State, caller: Address): (State, Result<()>)
  {
    if HolderFault(s, caller).Some? then (s, Err(HolderFault(s, caller).value))
    else (s.(operator := None, pendingOperator := None), Ok(()))
  }

  function DoProposeOperator(s: State, now: u64, caller: Address, target: Address): (State, Result<()>)
  {
    if AdminFault(s, caller).Some? then (s, Err(AdminFault(s, caller).value))
    else (s.(pendingOperator := Some(Proposal(target, now))), Ok(()))
  }

  /** The proposal alone decides; no admin is consulted. */
  function DoAcceptOperator(s: State, now: u64, caller: Address): (State, Result<()>)
  {
    if VersionFault(s).Some? then (s, Err(VersionFault(s).value))
    else if s.pendingOperator.None? then (s, Err(NoPendingTransfer))
    else if Expired(s.pendingOperator.value, now) then (s.(pendingOperator := None), Err(NoPendingTransfer))
    else if s.pendingOperator.value.target != caller then (s, Err(Unauthorized))
    else (s.(operator := Some(caller), pendingOperator := None), Ok(()))
  }

  function DoCancelOperatorProposal(s: State, caller: Address): (State, Result<()>)
  {
    if AdminFault(s, caller).Some? then (s, Err(AdminFault(s, caller).value))
    else if s.pendingOperator.None? then (s, Err(NoPendingTransfer))
    else (s.(pendingOperator := None), Ok(()))
  }

  function DoGetPendingOperator(s: State, now: u64): (State, Result<Option<Address>>)
  {
    if VersionFault(s).Some? then (s, Err(VersionFault(s).value))
    else if s.pendingOperator.None? then (s, Ok(None))
    else if Expired(s.pendingOperator.value, now) then (s.(pendingOperator := None), Ok(None))
    else (s, Ok(Some(s.pendingOperator.value.target)))
  }

  // ---------------------------------------------------------------- migration

  /** No version check, only the admin check. */
  function DoMigrate(s: State, caller: Address): (State, Result<()>)
  {
    if s.admin.None? then (s, Err(NotInitialized))
    else if s.admin.value != caller then (s, Err(Unauthorized))
    else
      var stored := if s.version.Some? then s.version.value else 0;
      if stored == STORAGE_VERSION then (s, Ok(()))
      else if stored > STORAGE_VERSION then (s, Err(VersionMismatch))
      else (s.(version := Some(STORAGE_VERSION)), Ok(()))
  }

  function DoSetMigrationKey(s: State, now: u64, caller: Address, target: Address): (State, Result<()>)
  {
    if AdminFault(s, caller).Some? then (s, Err(AdminFault(s, caller).value))
    else (s.(migrationKey := Some(Proposal(target, now))), Ok(()))
  }

  /** Once the timelock is over the holder of the key may raise the stored version, which is
      then above the one this code accepts. */
  function DoExecuteMigration(s: State, now: u64, caller: Address): (State, Result<()>)
  {
    if VersionFault(s).Some? then (s, Err(VersionFault(s).value))
    else if s.migrationKey.None? then (s, Err(NoPendingTransfer))
    else if s.migrationKey.value.target != caller then (s, Err(Unauthorized))
    else if Max(0, now - s.migrationKey.value.proposedAt) < MIGRATION_TIMELOCK then (s, Err(ThresholdOutOfBounds))
    else (s.(version := Some(STORAGE_VERSION + 1), migrationKey := None), Ok(()))
  }

  function DoSetPaused(s: State, caller: Address, paused: bool): (State, Result<()>)
  {
    if AdminFault(s, caller).Some? then (s, Err(AdminFault(s, caller).value))
    else (s.(paused := paused), Ok(()))
  }

  // ------------------------------------------------------------- configuration

  function DoSetConfig(s: State, caller: Address, severity: Symbol, cfg: SLAConfig): (State, Result<()>)
  {
    if AdminFault(s, caller).Some? then (s, Err(AdminFault(s, caller).value))
    else if s.configs.None? then (s, Err(NotInitialized))
    else if !ValidateConfig(severity, cfg, s.configs.value).Ok? then (s, ValidateConfig(severity, cfg, s.configs.value))
    else (s.(configs := Some(s.configs.value[severity := cfg])), Ok(()))
  }

  /** Only the keys are checked, not the values. */
  function DoImportConfigMap(s: State, caller: Address, configs: ConfigMap): (State, Result<()>)
  {
    if AdminFault(s, caller).Some? then (s, Err(AdminFault(s, caller).value))
    else if configs == map[] then (s, Err(ConfigNotFound))
    else if exists k :: k in configs && !IsCanonical(k) then (s, Err(InvalidSeverity))
    else (s.(configs := Some(configs)), Ok(()))
  }

  function DoResetConfig(s: State, caller: Address): (State, Result<()>)
  {
    if AdminFault(s, caller).Some? then (s, Err(AdminFault(s, caller).value))
    else (s.(configs := Some(DEFAULT_CONFIGS)), Ok(()))
  }

  function DoSetRetentionLimit(s: State, caller: Address, limit: u32): (State, Result<()>)
  {
    if AdminFault(s, caller).Some? then (s, Err(AdminFault(s, caller).value))
    else if !(MIN_RETENTION <= limit <= MAX_RETENTION) then (s, Err(RetentionLimitOutOfRange))
    else (s.(retention := Some(limit)), Ok(()))
  }

  function DoSetMaxOutageDuration(s: State, caller: Address, limit: u32): (State, Result<()>)
  {
    if AdminFault(s, caller).Some? then (s, Err(AdminFault(s, caller).value))
    else if limit == 0 then (s, Err(InvalidMTTR))
    else (s.(maxDuration := Some(limit)), Ok(()))
  }

  // ---------------------------------------------------------------- calculation

  function ConfigFor(s: State, severity: Symbol): Result<SLAConfig>
  {
    if s.configs.None? then Err(NotInitialized)
    else if severity !in s.configs.value then Err(ConfigNotFound)
    else Ok(s.configs.value[severity])
  }

  /** The part of `calculate_sla` and `calculate_sla_view` after their checks. */
  function Compute(s: State, digest: Digest, now: u64, id: Symbol, severity: Symbol, mttr: u32): Result<SLAResult>
  {
    match ConfigFor(s, severity)
    case Ok(cfg) => ComputeResult(id, Min(mttr, DurationCap(s)), cfg, digest(s.configs.value), now)
    case Err(e) => Err(e)
    case Trap => Trap
  }

  function CalculateSlaView(s: State, digest: Digest, now: u64, id: Symbol, severity: Symbol, mttr: u32)
    : Result<SLAResult>
  {
    if VersionFault(s).Some? then Err(VersionFault(s).value)
    else if !IsCanonical(severity) then Err(InvalidSeverity)
    else Compute(s, digest, now, id, severity, mttr)
  }

  function SimulateSla(s: State, id: Symbol, severity: Symbol, mttr: u32): Result<SimulationResult>
  {
    if VersionFault(s).Some? then Err(VersionFault(s).value)
    else if !IsCanonical(severity) then Err(InvalidSeverity)
    else
      match ConfigFor(s, severity)
      case Ok(cfg) => ComputeSla(DurationCap(s), cfg, severity, mttr)
      case Err(e) => Err(e)
      case Trap => Trap
  }

  function OperatorFault(s: State, caller: Address, severity: Symbol): Option<SLAError>
  {
    if VersionFault(s).Some? then VersionFault(s)
    else if !IsCanonical(severity) then Some(InvalidSeverity)
    else if s.paused then Some(ContractPaused)
    else if s.operator.None? then Some(NotInitialized)
    else if s.operator.value != caller then Some(Unauthorized)
    else None
  }

  /** The last stored result of an outage; the source's scan keeps the last match. */
  function Lookup(history: seq<SLAResult>, id: Symbol): Option<SLAResult>
  {
    if |history| == 0 then None
    else if history[|history| - 1].outageId == id then Some(history[|history| - 1])
    else Lookup(history[..|history| - 1], id)
  }

  function Bump(stats: SLAStats, r: SLAResult): SLAStats
  {
    if r.status == VIOL then
      stats.(totalCalculations := SatU64(stats.totalCalculations + 1),
             totalViolations := SatU64(stats.totalViolations + 1),
             totalPenalties := SatI128(stats.totalPenalties + WrapI128(0 - r.amount)))
    else
      stats.(totalCalculations := SatU64(stats.totalCalculations + 1),
             totalRewards := SatI128(stats.totalRewards + r.amount))
  }

  /** Append, and drop one entry, the oldest, when the limit is exceeded. */
  function Record(s: State, r: SLAResult): State
  {
    var h := s.history + [r];
    s.(history := if |h| > RetentionLimit(s) then h[1..] else h, stats := Bump(s.stats, r))
  }

  function DoCalculateSla(s: State, digest: Digest, now: u64, caller: Address, id: Symbol, severity: Symbol, mttr: u32)
    : (State, Result<SLAResult>)
  {
    if OperatorFault(s, caller, severity).Some? then (s, Err(OperatorFault(s, caller, severity).value))
    else
      var computed := Compute(s, digest, now, id, severity, mttr);
      if !computed.Ok? then (s, computed)
      else
        match Lookup(s.history, id)
        case Some(prev) =>
          if prev.mttr == Min(mttr, DurationCap(s)) && prev.threshold == computed.value.threshold then (s, Ok(prev))
          else (s, Err(DuplicateOutageInput))
        case None => (Record(s, computed.value), computed)
  }

  // -------------------------------------------------------------------- pruning

  function KeepLatest(history: seq<SLAResult>, keep: nat): seq<SLAResult>
  {
    if |history| > keep then history[|history| - keep..] else history
  }

  function KeepSince(history: seq<SLAResult>, cutoff: int): seq<SLAResult>
  {
    if |history| == 0 then []
    else
      var rest := KeepSince(history[..|history| - 1], cutoff);
      if history[|history| - 1].recordedAt >= cutoff then rest + [history[|history| - 1]] else rest
  }

  function DoPruneHistory(s: State, caller: Address, keep: u32): (State, Result<()>)
  {
    if AdminFault(s, caller).Some? then (s, Err(AdminFault(s, caller).value))
    else (s.(history := KeepLatest(s.history, keep)), Ok(()))
  }

  function Cutoff(now: u64, minAge: u64): u64
  {
    if now >= minAge then now - minAge else 0
  }

  function DoPruneHistoryByAge(s: State, now: u64, caller: Address, minAge: u64): (State, Result<()>)
  {
    if AdminFault(s, caller).Some? then (s, Err(AdminFault(s, caller).value))
    else (s.(history := KeepSince(s.history, Cutoff(now, minAge))), Ok(()))
  }

  function DoPruneHistoryQueue(s: State, caller: Address): (State, Result<nat>)
  {
    if AdminFault(s, caller).Some? then (s, Err(AdminFault(s, caller).value))
    else (s.(history := KeepLatest(s.history, RetentionLimit(s))), Ok(Max(0, |s.history| - RetentionLimit(s))))
  }

  // ----------------------------------------------------------------- one call

  datatype Op =
    | Initialize(admin: Address, operator: Address)
    | SetOperator(address: Address)
    | RevokeOperator
    | ProposeAdmin(address: Address)
    | AcceptAdmin
    | CancelAdminProposal
    | GetPendingAdmin
    | RenounceAdmin
    | RenounceOperator
    | ProposeOperator(address: Address)
    | AcceptOperator
    | CancelOperatorProposal
    | GetPendingOperator
    | Migrate
    | SetMigrationKey(address: Address)
    | ExecuteMigration
    | SetPaused(paused: bool)
    | SetConfig(severity: Symbol, config: SLAConfig)
    | ImportConfigMap(configs: ConfigMap)
    | ResetConfig
    | SetRetentionLimit(limit: u32)
    | SetMaxOutageDuration(limit: u32)
    | CalculateSla(id: Symbol, severity: Symbol, mttr: u32)
    | PruneHistory(keep: u32)
    | PruneHistoryByAge(minAge: u64)
    | PruneHistoryQueue

  datatype Call = Call(caller: Address, now: u64, op: Op)

  function Step(s: State, call: Call, digest: Digest): State
  {
    match call.op
    case Initialize(a, o) => DoInitialize(s, a, o).0
    case SetOperator(o) => DoSetOperator(s, call.caller, o).0
    case RevokeOperator => DoRevokeOperator(s, call.caller).0
    case ProposeAdmin(a) => DoProposeAdmin(s, call.now, call.caller, a).0
    case AcceptAdmin => DoAcceptAdmin(s, call.now, call.caller).0
    case CancelAdminProposal => DoCancelAdminProposal(s, call.caller).0
    case GetPendingAdmin => DoGetPendingAdmin(s, call.now).0
    case RenounceAdmin => DoRenounceAdmin(s, call.caller).0
    case RenounceOperator => DoRenounceOperator(s, call.caller).0
    case ProposeOperator(a) => DoProposeOperator(s, call.now, call.caller, a).0
    case AcceptOperator => DoAcceptOperator(s, call.now, call.caller).0
    case CancelOperatorProposal => DoCancelOperatorProposal(s, call.caller).0
    case GetPendingOperator => DoGetPendingOperator(s, call.now).0
    case Migrate => DoMigrate(s, call.caller).0
    case SetMigrationKey(a) => DoSetMigrationKey(s, call.now, call.caller, a).0
    case ExecuteMigration => DoExecuteMigration(s, call.now, call.caller).0
    case SetPaused(p) => DoSetPaused(s, call.caller, p).0
    case SetConfig(sev, cfg) => DoSetConfig(s, call.caller, sev, cfg).0
    case ImportConfigMap(m) => DoImportConfigMap(s, call.caller, m).0
    case ResetConfig => DoResetConfig(s, call.caller).0
    case SetRetentionLimit(n) => DoSetRetentionLimit(s, call.caller, n).0
    case SetMaxOutageDuration(n) => DoSetMaxOutageDuration(s, call.caller, n).0
    case CalculateSla(id, sev, m) => DoCalculateSla(s, digest, call.now, call.caller, id, sev, m).0
    case PruneHistory(k) => DoPruneHistory(s, call.caller, k).0
    case PruneHistoryByAge(age) => DoPruneHistoryByAge(s, call.now, call.caller, age).0
    case PruneHistoryQueue => DoPruneHistoryQueue(s, call.caller).0
  }

  /** The result that a call appends to the log of everything ever calculated, if any. */
  function Recorded(s: State, call: Call, digest: Digest): Option<SLAResult>
  {
    if call.op.CalculateSla? && OperatorFault(s, call.caller, call.op.severity).None?
       && Lookup(s.history, call.op.id).None?
    then
      var r := Compute(s, digest, call.now, call.op.id, call.op.severity, call.op.mttr);
      if r.Ok? then Some(r.value) else None
    else None
  }

  // ------------------------------------------------- facts about the functions

  lemma {:induction false} LookupFinds(history: seq<SLAResult>, id: Symbol)
    ensures Lookup(history, id).None? <==> forall i | 0 <= i < |history| :: history[i].outageId != id
    ensures Lookup(history, id).Some?
        ==> Lookup(history, id).value in history && Lookup(history, id).value.outageId == id
  {
    if |history| > 0 {
      var n := |history| - 1;
      LookupFinds(history[..n], id);
      assert history == history[..n] + [history[n]];
    }
  }

  ghost predicate DistinctIds(history: seq<SLAResult>)
  {
    forall i, j | 0 <= i < j < |history| :: history[i].outageId != history[j].outageId
  }

  /** With distinct ids the scan returns the one entry of that outage. */
  lemma {:induction false} LookupIsUnique(history: seq<SLAResult>, r: SLAResult)
    requires DistinctIds(history) && r in history
    ensures Lookup(history, r.outageId) == Some(r)
  {
    LookupFinds(history, r.outageId);
    var i :| 0 <= i < |history| && history[i] == r;
    var found := Lookup(history, r.outageId).value;
    var j :| 0 <= j < |history| && history[j] == found;
    assert i == j;
  }

  predicate IsSuffix(h: seq<SLAResult>, log: seq<SLAResult>)
  {
    |h| <= |log| && h == log[|log| - |h|..]
  }

  ghost predicate TimeSorted(log: seq<SLAResult>)
  {
    forall i, j | 0 <= i <= j < |log| :: log[i].recordedAt <= log[j].recordedAt
  }

  /** In a time-sorted history, pruning by age removes a prefix and nothing else. */
  lemma {:induction false} KeepSinceIsSuffix(history: seq<SLAResult>, cutoff: int)
    requires TimeSorted(history)
    ensures IsSuffix(KeepSince(history, cutoff), history)
    ensures forall i | 0 <= i < |history| ::
              history[i].recordedAt >= cutoff <==> i >= |history| - |KeepSince(history, cutoff)|
  {
    if |history| > 0 {
      var n := |history| - 1;
      KeepSinceIsSuffix(history[..n], cutoff);
    }
  }
}
