/** The contract of lib.rs as an object: instance storage is its fields, each entry
    point a method that reads and rewrites them, proved equal to its function in
    `ContractState`. The ledger timestamp is the parameter `now`; a caller is
    assumed to have authorised the call. */
module Contract {
  import opened Ints
  import opened SlaTypes
  import opened SlaMath
  import opened ContractState
  import Calendar

  class SlaContract {
    const digest: Digest
    var version: Option<u32>
    var admin: Option<Address>
    var operator: Option<Address>
    var pendingAdmin: Option<Proposal>
    var pendingOperator: Option<Proposal>
    var migrationKey: Option<Proposal>
    var paused: bool
    var configs: Option<ConfigMap>
    var stats: SLAStats
    var history: seq<SLAResult>
    var retention: Option<u32>
    var maxDuration: Option<u32>

    function Stored(): State
      reads this
    {
      State(version, admin, operator, pendingAdmin, pendingOperator, migrationKey, paused, configs, stats, history,
            retention, maxDuration)
    }

    /** The history never outgrows the largest limit an admin may set. */
    ghost predicate Valid()
      reads this
    {
      |history| <= MAX_RETENTION && RetentionLimit(Stored()) <= MAX_RETENTION
    }

    constructor (digest: Digest)
      ensures Valid() && Stored() == EMPTY_STATE && this.digest == digest
    {
      this.digest := digest;
      version, admin, operator, pendingAdmin, pendingOperator, migrationKey := None, None, None, None, None, None;
      paused, configs, stats, history := false, None, ZERO_STATS, [];
      retention, maxDuration := None, None;
    }

    method Initialize(newAdmin: Address, newOperator: Address) returns (r: Result<()>)
      requires Valid()
      modifies this
      ensures Valid() && (Stored(), r) == DoInitialize(old(Stored()), newAdmin, newOperator)
    {
      if admin.Some? {
        return Err(AlreadyInitialized);
      }
      admin, operator, paused := Some(newAdmin), Some(newOperator), false;
      stats, history := ZERO_STATS, [];
      configs := Some(DEFAULT_CONFIGS);
      version := Some(STORAGE_VERSION);
      r := Ok(());
    }

    method SetOperator(caller: Address, newOperator: Address) returns (r: Result<()>)
      requires Valid()
      modifies this
      ensures Valid() && (Stored(), r) == DoSetOperator(old(Stored()), caller, newOperator)
    {
      var fault := AdminFault(Stored(), caller);
      if fault.Some? {
        return Err(fault.value);
      }
      operator := Some(newOperator);
      r := Ok(());
    }

    method RevokeOperator(caller: Address) returns (r: Result<()>)
      requires Valid()
      modifies this
      ensures Valid() && (Stored(), r) == DoRevokeOperator(old(Stored()), caller)
    {
      var fault := AdminFault(Stored(), caller);
      if fault.Some? {
        return Err(fault.value);
      }
      operator := None;
      pendingOperator := None;
      r := Ok(());
    }

    method ProposeAdmin(now: u64, caller: Address, newAdmin: Address) returns (r: Result<()>)
      requires Valid()
      modifies this
      ensures Valid() && (Stored(), r) == DoProposeAdmin(old(Stored()), now, caller, newAdmin)
    {
      var fault := AdminFault(Stored(), caller);
      if fault.Some? {
        return Err(fault.value);
      }
      pendingAdmin := Some(Proposal(newAdmin, now));
      r := Ok(());
    }

    method AcceptAdmin(now: u64, caller: Address) returns (r: Result<()>)
      requires Valid()
      modifies this
      ensures Valid() && (Stored(), r) == DoAcceptAdmin(old(Stored()), now, caller)
    {
      var fault := VersionFault(Stored());
      if fault.Some? {
        return Err(fault.value);
      }
      if pendingAdmin.None? {
        return Err(NoPendingTransfer);
      }
      var pending := pendingAdmin.value;
      if WrapU64(now - pending.proposedAt) > PROPOSAL_EXPIRATION_SECONDS {
        pendingAdmin := None;
        return Err(NoPendingTransfer);
      }
      if caller != pending.target {
        return Err(Unauthorized);
      }
      admin := Some(caller);
      pendingAdmin := None;
      r := Ok(());
    }

    method CancelAdminProposal(caller: Address) returns (r: Result<()>)
      requires Valid()
      modifies this
      ensures Valid() && (Stored(), r) == DoCancelAdminProposal(old(Stored()), caller)
    {
      var fault := AdminFault(Stored(), caller);
      if fault.Some? {
        return Err(fault.value);
      }
      if pendingAdmin.None? {
        return Err(NoPendingTransfer);
      }
      pendingAdmin := None;
      r := Ok(());
    }

    method GetPendingAdmin(now: u64) returns (r: Result<Option<Address>>)
      requires Valid()
      modifies this
      ensures Valid() && (Stored(), r) == DoGetPendingAdmin(old(Stored()), now)
    {
      var fault := VersionFault(Stored());
      if fault.Some? {
        return Err(fault.value);
      }
      if pendingAdmin.Some? {
        if WrapU64(now - pendingAdmin.value.proposedAt) <= PROPOSAL_EXPIRATION_SECONDS {
          return Ok(Some(pendingAdmin.value.target));
        }
        pendingAdmin := None;
      }
      r := Ok(None);
    }

    method RenounceAdmin(caller: Address) returns (r: Result<()>)
      requires Valid()
      modifies this
      ensures Valid() && (Stored(), r) == DoRenounceAdmin(old(Stored()), caller)
    {
      var fault := AdminFault(Stored(), caller);
      if fault.Some? {
        return Err(fault.value);
      }
      admin := None;
      pendingAdmin := None;
      r := Ok(());
    }

    method RenounceOperator(caller: Address) returns (r: Result<()>)
      requires Valid()
      modifies this
      ensures Valid() && (Stored(), r) == DoRenounceOperator(old(Stored()), caller)
    {
      var fault := HolderFault(Stored(), caller);
      if fault.Some? {
        return Err(fault.value);
      }
      operator := None;
      pendingOperator := None;
      r := Ok(());
    }

    method ProposeOperator(now: u64, caller: Address, newOperator: Address) returns (r: Result<()>)
      requires Valid()
      modifies this
      ensures Valid() && (Stored(), r) == DoProposeOperator(old(Stored()), now, caller, newOperator)
    {
      var fault := AdminFault(Stored(), caller);
      if fault.Some? {
        return Err(fault.value);
      }
      pendingOperator := Some(Proposal(newOperator, now));
      r := Ok(());
    }

    method AcceptOperator(now: u64, caller: Address) returns (r: Result<()>)
      requires Valid()
      modifies this
      ensures Valid() && (Stored(), r) == DoAcceptOperator(old(Stored()), now, caller)
    {
      var fault := VersionFault(Stored());
      if fault.Some? {
        return Err(fault.value);
      }
      if pendingOperator.None? {
        return Err(NoPendingTransfer);
      }
      var pending := pendingOperator.value;
      if WrapU64(now - pending.proposedAt) > PROPOSAL_EXPIRATION_SECONDS {
        pendingOperator := None;
        return Err(NoPendingTransfer);
      }
      if caller != pending.target {
        return Err(Unauthorized);
      }
      operator := Some(caller);
      pendingOperator := None;
      r := Ok(());
    }

    method CancelOperatorProposal(caller: Address) returns (r: Result<()>)
      requires Valid()
      modifies this
      ensures Valid() && (Stored(), r) == DoCancelOperatorProposal(old(Stored()), caller)
    {
      var fault := AdminFault(Stored(), caller);
      if fault.Some? {
        return Err(fault.value);
      }
      if pendingOperator.None? {
        return Err(NoPendingTransfer);
      }
      pendingOperator := None;
      r := Ok(());
    }

    method GetPendingOperator(now: u64) returns (r: Result<Option<Address>>)
      requires Valid()
      modifies this
      ensures Valid() && (Stored(), r) == DoGetPendingOperator(old(Stored()), now)
    {
      var fault := VersionFault(Stored());
      if fault.Some? {
        return Err(fault.value);
      }
      if pendingOperator.Some? {
        if WrapU64(now - pendingOperator.value.proposedAt) <= PROPOSAL_EXPIRATION_SECONDS {
          return Ok(Some(pendingOperator.value.target));
        }
        pendingOperator := None;
      }
      r := Ok(None);
    }

    /** Brings an older version up to date; a newer one is refused. */
    method Migrate(caller: Address) returns (r: Result<()>)
      requires Valid()
      modifies this
      ensures Valid() && (Stored(), r) == DoMigrate(old(Stored()), caller)
    {
      if admin.None? {
        return Err(NotInitialized);
      }
      if caller != admin.value {
        return Err(Unauthorized);
      }
      var current := if version.Some? then version.value else 0;
      if current == STORAGE_VERSION {
        return Ok(());
      }
      if current > STORAGE_VERSION {
        return Err(VersionMismatch);
      }
      if current == 0 {
        version := Some(1);
        current := 1;
      }
      assert current == STORAGE_VERSION;
      r := Ok(());
    }

    method SetMigrationKey(now: u64, caller: Address, target: Address) returns (r: Result<()>)
      requires Valid()
      modifies this
      ensures Valid() && (Stored(), r) == DoSetMigrationKey(old(Stored()), now, caller, target)
    {
      var fault := AdminFault(Stored(), caller);
      if fault.Some? {
        return Err(fault.value);
      }
      migrationKey := Some(Proposal(target, now));
      r := Ok(());
    }

    method ExecuteMigration(now: u64, caller: Address) returns (r: Result<()>)
      requires Valid()
      modifies this
      ensures Valid() && (Stored(), r) == DoExecuteMigration(old(Stored()), now, caller)
    {
      var fault := VersionFault(Stored());
      if fault.Some? {
        return Err(fault.value);
      }
      if migrationKey.None? {
        return Err(NoPendingTransfer);
      }
      if caller != migrationKey.value.target {
        return Err(Unauthorized);
      }
      if Max(0, now - migrationKey.value.proposedAt) < MIGRATION_TIMELOCK {
        return Err(ThresholdOutOfBounds);
      }
      var current := if version.Some? then version.value else 0;
      version := Some(current + 1);
      migrationKey := None;
      r := Ok(());
    }

    /** `pause` and `unpause`. */
    method SetPaused(caller: Address, on: bool) returns (r: Result<()>)
      requires Valid()
      modifies this
      ensures Valid() && (Stored(), r) == DoSetPaused(old(Stored()), caller, on)
    {
      var fault := AdminFault(Stored(), caller);
      if fault.Some? {
        return Err(fault.value);
      }
      paused := on;
      r := Ok(());
    }

    method SetConfig(caller: Address, severity: Symbol, cfg: SLAConfig) returns (r: Result<()>)
      requires Valid()
      modifies this
      ensures Valid() && (Stored(), r) == DoSetConfig(old(Stored()), caller, severity, cfg)
    {
      var fault := AdminFault(Stored(), caller);
      if fault.Some? {
        return Err(fault.value);
      }
      if configs.None? {
        return Err(NotInitialized);
      }
      var stored := configs.value;
      r := ValidateConfig(severity, cfg, stored);
      if !r.Ok? {
        return;
      }
      if severity in stored && stored[severity] == cfg {
        assert stored[severity := cfg] == stored;
        return;
      }
      configs := Some(stored[severity := cfg]);
    }

    method ImportConfigMap(caller: Address, imported: ConfigMap) returns (r: Result<()>)
      requires Valid()
      modifies this
      ensures Valid() && (Stored(), r) == DoImportConfigMap(old(Stored()), caller, imported)
    {
      var fault := AdminFault(Stored(), caller);
      if fault.Some? {
        return Err(fault.value);
      }
      if imported == map[] {
        return Err(ConfigNotFound);
      }
      var keys := imported.Keys;
      while keys != {}
        invariant keys <= imported.Keys
        invariant forall k :: k in imported && k !in keys ==> IsCanonical(k)
        decreases |keys|
      {
        var key :| key in keys;
        if !IsCanonical(key) {
          return Err(InvalidSeverity);
        }
        keys := keys - {key};
      }
      configs := Some(imported);
      r := Ok(());
    }

    method ResetConfig(caller: Address) returns (r: Result<()>)
      requires Valid()
      modifies this
      ensures Valid() && (Stored(), r) == DoResetConfig(old(Stored()), caller)
    {
      var fault := AdminFault(Stored(), caller);
      if fault.Some? {
        return Err(fault.value);
      }
      configs := Some(DEFAULT_CONFIGS);
      r := Ok(());
    }

    method SetRetentionLimit(caller: Address, limit: u32) returns (r: Result<()>)
      requires Valid()
      modifies this
      ensures Valid() && (Stored(), r) == DoSetRetentionLimit(old(Stored()), caller, limit)
    {
      var fault := AdminFault(Stored(), caller);
      if fault.Some? {
        return Err(fault.value);
      }
      if limit < MIN_RETENTION || limit > MAX_RETENTION {
        return Err(RetentionLimitOutOfRange);
      }
      retention := Some(limit);
      r := Ok(());
    }

    method SetMaxOutageDuration(caller: Address, limit: u32) returns (r: Result<()>)
      requires Valid()
      modifies this
      ensures Valid() && (Stored(), r) == DoSetMaxOutageDuration(old(Stored()), caller, limit)
    {
      var fault := AdminFault(Stored(), caller);
      if fault.Some? {
        return Err(fault.value);
      }
      if limit == 0 {
        return Err(InvalidMTTR);
      }
      maxDuration := Some(limit);
      r := Ok(());
    }

    /** The scan for an earlier result of the same outage. */
    method FindExisting(id: Symbol) returns (existing: Option<SLAResult>)
      ensures existing == Lookup(history, id)
    {
      existing := None;
      var i := 0;
      while i < |history|
        invariant 0 <= i <= |history|
        invariant existing == Lookup(history[..i], id)
      {
        assert history[..i + 1][..i] == history[..i];
        if history[i].outageId == id {
          existing := Some(history[i]);
        }
        i := i + 1;
      }
      assert history[..i] == history;
    }

    /** The rebuild loop shared by retention and pruning: entries `from..` in order. */
    method CopyFrom(from: nat) returns (kept: seq<SLAResult>)
      requires from <= |history|
      ensures kept == history[from..]
    {
      kept := [];
      var i := from;
      while i < |history|
        invariant from <= i <= |history|
        invariant kept == history[from..i]
      {
        kept := kept + [history[i]];
        i := i + 1;
      }
    }

    /** `increment_stats`, called with a reward on the met path and a positive penalty
        on the violation path. */
    method IncrementStats(met: bool, reward: i128, penalty: i128)
      modifies this`stats
      ensures stats == SLAStats(
                         SatU64(old(stats.totalCalculations) + 1),
                         if met then old(stats.totalViolations) else SatU64(old(stats.totalViolations) + 1),
                         if met then SatI128(old(stats.totalRewards) + reward) else old(stats.totalRewards),
                         if met then old(stats.totalPenalties) else SatI128(old(stats.totalPenalties) + penalty))
    {
      stats := stats.(totalCalculations := SatU64(stats.totalCalculations + 1));
      if met {
        stats := stats.(totalRewards := SatI128(stats.totalRewards + reward));
      } else {
        stats := stats.(totalViolations := SatU64(stats.totalViolations + 1));
        stats := stats.(totalPenalties := SatI128(stats.totalPenalties + penalty));
      }
    }

    /** The writing half of `calculate_sla`: append, drop the oldest entry when over the
        limit, and count. */
    method RecordResult(result: SLAResult)
      requires Valid()
      modifies this
      ensures Valid() && Stored() == Record(old(Stored()), result)
    {
      history := history + [result];
      if |history| > RetentionLimit(Stored()) {
        history := CopyFrom(1);
      }
      if result.status == VIOL {
        IncrementStats(false, 0, WrapI128(0 - result.amount));
      } else {
        IncrementStats(true, result.amount, 0);
      }
    }

    method CalculateSla(now: u64, caller: Address, id: Symbol, severity: Symbol, mttr: u32)
        returns (r: Result<SLAResult>)
      requires Valid()
      modifies this
      ensures Valid() && (Stored(), r) == DoCalculateSla(old(Stored()), digest, now, caller, id, severity, mttr)
    {
      var fault := OperatorFault(Stored(), caller, severity);
      if fault.Some? {
        return Err(fault.value);
      }
      var found := ConfigFor(Stored(), severity);
      if !found.Ok? {
        return Err(found.error);
      }
      var cfg := found.value;
      var cap := DurationCap(Stored());
      var effective := if mttr > cap then cap else mttr;
      r := ComputeResult(id, effective, cfg, digest(configs.value), now);
      if !r.Ok? {
        return;
      }
      var existing := FindExisting(id);
      if existing.Some? {
        var prev := existing.value;
        if prev.mttr != effective || prev.threshold != cfg.threshold {
          return Err(DuplicateOutageInput);
        }
        return Ok(prev);
      }
      RecordResult(r.value);
    }

    method PruneHistory(caller: Address, keepLatest: u32) returns (r: Result<()>)
      requires Valid()
      modifies this
      ensures Valid() && (Stored(), r) == DoPruneHistory(old(Stored()), caller, keepLatest)
    {
      var fault := AdminFault(Stored(), caller);
      if fault.Some? {
        return Err(fault.value);
      }
      if |history| > keepLatest {
        history := CopyFrom(|history| - keepLatest);
      }
      r := Ok(());
    }

    method PruneHistoryByAge(now: u64, caller: Address, minAge: u64) returns (r: Result<()>)
      requires Valid()
      modifies this
      ensures Valid() && (Stored(), r) == DoPruneHistoryByAge(old(Stored()), now, caller, minAge)
    {
      var fault := AdminFault(Stored(), caller);
      if fault.Some? {
        return Err(fault.value);
      }
      var cutoff := if now >= minAge then now - minAge else 0;
      var kept := [];
      var removed := 0;
      var i := 0;
      while i < |history|
        invariant 0 <= i <= |history|
        invariant kept == KeepSince(history[..i], cutoff)
        invariant |kept| + removed == i
        invariant removed == 0 ==> kept == history[..i]
      {
        assert history[..i + 1][..i] == history[..i];
        if history[i].recordedAt >= cutoff {
          kept := kept + [history[i]];
        } else {
          removed := removed + 1;
        }
        i := i + 1;
      }
      assert history[..i] == history;
      if removed > 0 {
        history := kept;
      }
      r := Ok(());
    }

    method PruneHistoryQueue(caller: Address) returns (r: Result<nat>)
      requires Valid()
      modifies this
      ensures Valid() && (Stored(), r) == DoPruneHistoryQueue(old(Stored()), caller)
    {
      var fault := AdminFault(Stored(), caller);
      if fault.Some? {
        return Err(fault.value);
      }
      var limit := RetentionLimit(Stored());
      if |history| <= limit {
        return Ok(0);
      }
      var removeCount := |history| - limit;
      history := CopyFrom(removeCount);
      r := Ok(removeCount);
    }

    // -------------------------------------------------------- monthly compliance

    /** The counting loop. The counters are i32; a valid history is far too short to
        overflow them. */
    method CountWindow(w: Calendar.Window) returns (count: i32, violations: i32)
      requires Valid()
      ensures count == CountInside(history, w) && violations == CountViolatedInside(history, w)
      ensures 0 <= violations <= count
    {
      count, violations := 0, 0;
      var i := 0;
      while i < |history|
        invariant 0 <= i <= |history|
        invariant count == CountInside(history[..i], w)
        invariant violations == CountViolatedInside(history[..i], w)
        invariant 0 <= violations <= count <= i
      {
        assert history[..i + 1][..i] == history[..i];
        var entry := history[i];
        if w.start <= entry.recordedAt && entry.recordedAt < w.end {
          count := count + 1;
          if entry.status == VIOL {
            violations := violations + 1;
          }
        }
        i := i + 1;
      }
      assert history[..i] == history;
    }

    method WindowRate(w: Calendar.Window) returns (rate: u32)
      requires Valid()
      ensures rate <= 10000 && rate == ComplianceRate(history, w)
      ensures rate == 10000 <==> NoViolationInside(history, w)
    {
      var count, violations := CountWindow(w);
      RateIsFullExactlyWithoutViolation(history, w);
      var met: u64 := count - violations;
      rate := if count > 0 then met * 10000 / count else 10000;
    }

    /** `calculate_monthly_sla_compliance`: at most 10000 basis points, and exactly 10000
        when no entry of the month is a violation. */
    method MonthlyCompliance(year: u32, month: u32) returns (r: Result<u32>)
      requires Valid()
      ensures VersionFault(Stored()).Some? ==> r == Err(VersionFault(Stored()).value)
      ensures VersionFault(Stored()).None? && !(1 <= month <= 12) ==> r == Err(InvalidMonth)
      ensures VersionFault(Stored()).None? && 1 <= month <= 12 ==>
                && r.Ok? && r.value <= 10000
                && r.value == ComplianceRate(history, Calendar.MonthWindow(year, month))
                && (r.value == 10000 <==> NoViolationInside(history, Calendar.MonthWindow(year, month)))
    {
      var fault := VersionFault(Stored());
      if fault.Some? {
        return Err(fault.value);
      }
      if month < 1 || month > 12 {
        return Err(InvalidMonth);
      }
      var w := Calendar.ComputeMonthWindow(year, month);
      var rate := WindowRate(w);
      r := Ok(rate);
    }
  }

  function CountInside(history: seq<SLAResult>, w: Calendar.Window): nat
  {
    if |history| == 0 then 0
    else
      CountInside(history[..|history| - 1], w) +
      if Calendar.Inside(history[|history| - 1].recordedAt, w) then 1 else 0
  }

  function CountViolatedInside(history: seq<SLAResult>, w: Calendar.Window): nat
  {
    if |history| == 0 then 0
    else
      CountViolatedInside(history[..|history| - 1], w) +
      if Calendar.Inside(history[|history| - 1].recordedAt, w) && history[|history| - 1].status == VIOL then 1 else 0
  }

  function ComplianceRate(history: seq<SLAResult>, w: Calendar.Window): int
  {
    var count, violations := CountInside(history, w), CountViolatedInside(history, w);
    if count > 0 then (count - violations) * 10000 / count else 10000
  }

  ghost predicate NoViolationInside(history: seq<SLAResult>, w: Calendar.Window)
  {
    forall e | e in history && Calendar.Inside(e.recordedAt, w) :: e.status != VIOL
  }

  lemma {:induction false} ViolationCountBounds(history: seq<SLAResult>, w: Calendar.Window)
    ensures CountViolatedInside(history, w) <= CountInside(history, w)
    ensures CountViolatedInside(history, w) == 0 <==> NoViolationInside(history, w)
  {
    if |history| > 0 {
      var n := |history| - 1;
      ViolationCountBounds(history[..n], w);
      assert history == history[..n] + [history[n]];
    }
  }

  /** Rounding down never hides a violation: the rate is at most 10000, and reaches it
      exactly when the window holds no violation. */
  lemma {:induction false} RateIsFullExactlyWithoutViolation(history: seq<SLAResult>, w: Calendar.Window)
    ensures 0 <= ComplianceRate(history, w) <= 10000
    ensures ComplianceRate(history, w) == 10000 <==> NoViolationInside(history, w)
  {
    ViolationCountBounds(history, w);
    var count, violations := CountInside(history, w), CountViolatedInside(history, w);
    if count > 0 {
      FloorRate(count, violations);
    }
  }

  /** The entries counted, by their places in the history. */
  ghost function PlacesInside(history: seq<SLAResult>, w: Calendar.Window, violated: bool): set<nat>
  {
    set i: nat | i < |history| && Counted(history[i], w, violated)
  }

  predicate Counted(e: SLAResult, w: Calendar.Window, violated: bool)
  {
    Calendar.Inside(e.recordedAt, w) && (violated ==> e.status == VIOL)
  }

  lemma {:induction false} PlacesStep(history: seq<SLAResult>, w: Calendar.Window, violated: bool)
    requires |history| > 0
    ensures var n := |history| - 1;
            |PlacesInside(history, w, violated)| == |PlacesInside(history[..n], w, violated)|
              + if Counted(history[n], w, violated) then 1 else 0
  {
    var n := |history| - 1;
    var before := PlacesInside(history[..n], w, violated);
    assert PlacesInside(history, w, violated) == before + if Counted(history[n], w, violated) then {n} else {};
  }

  /** The two counters count places: those of the window, and those of its violations. */
  lemma {:induction false} CountsArePlaces(history: seq<SLAResult>, w: Calendar.Window)
    ensures CountInside(history, w) == |PlacesInside(history, w, false)|
    ensures CountViolatedInside(history, w) == |PlacesInside(history, w, true)|
  {
    if |history| > 0 {
      CountsArePlaces(history[..|history| - 1], w);
      PlacesStep(history, w, false);
      PlacesStep(history, w, true);
    } else {
      assert PlacesInside(history, w, false) == {} && PlacesInside(history, w, true) == {};
    }
  }

  /** The rate is the share of places without a violation in ten-thousandths, rounded down;
      with no place at all it is full. */
  lemma {:induction false} RateIsRoundedShare(history: seq<SLAResult>, w: Calendar.Window)
    ensures var all, bad := |PlacesInside(history, w, false)|, |PlacesInside(history, w, true)|;
            var rate := ComplianceRate(history, w);
            && (all == 0 ==> rate == 10000)
            && (all > 0 ==> rate * all <= 10000 * (all - bad) < (rate + 1) * all)
  {
    CountsArePlaces(history, w);
    ViolationCountBounds(history, w);
    if CountInside(history, w) > 0 {
      QuotientBounds((CountInside(history, w) - CountViolatedInside(history, w)) * 10000, CountInside(history, w));
    }
  }

  lemma FloorRate(count: nat, violations: nat)
    requires 0 < count && violations <= count
    ensures 0 <= (count - violations) * 10000 / count <= 10000
    ensures (count - violations) * 10000 / count == 10000 <==> violations == 0
  {
    var kept := (count - violations) * 10000;
    QuotientBelow(kept, count, 10000);
    QuotientBelow(kept, count, 10001);
  }
}
