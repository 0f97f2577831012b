/** Batch calculation and batch downtime (batch.rs): a second copy of the calculator,
    and a one-pass aggregation that must answer like a scan per site. */
module Batch {
  import opened Ints
  import opened SlaTypes
  import opened SlaMath
  import opened ContractState
  import opened Contract

  const BATCH_LIMIT: nat := 50

  datatype Request = Request(outageId: Symbol, severity: Symbol, mttr: u32)

  datatype Item = Item(outageId: Symbol, success: bool, result: seq<SLAResult>, error: Option<Symbol>)

  datatype Summary = Summary(total: u32, succeeded: u32, failed: u32, totalRewards: i128, totalPenalties: i128)

  // ---------------------------------------------------------- one request

  /** `process_single`: it neither caps the duration nor accepts an MTTR of 0, and it
      does not check the sign of a penalty. */
  function ProcessSingle(configs: ConfigMap, digest: Digest, now: u64, req: Request): Result<SLAResult>
  {
    if !IsCanonical(req.severity) then Err(InvalidSeverity)
    else if req.severity !in configs then Err(ConfigNotFound)
    else if req.mttr == 0 then Err(InvalidMTTR)
    else
      var cfg := configs[req.severity];
      if req.mttr > cfg.threshold then
        var penalty: int := SatI128((req.mttr - cfg.threshold) * cfg.penalty);
        Ok(SLAResult(req.outageId, VIOL, req.mttr, cfg.threshold, WrapI128(-penalty), PEN, POOR, digest(configs), now))
      else
        var (multiplier, rating) := Tier(cfg, req.mttr);
        Ok(SLAResult(req.outageId, MET, req.mttr, cfg.threshold, SatI128(cfg.reward * multiplier) / 100, REW, rating,
                     digest(configs), now))
  }

  /** What a saturating penalty comes to: negated without loss when the rate is positive,
      refused by the view otherwise, unless it saturates at the lower end, whose
      negation is itself. */
  lemma {:induction false} PenaltyCases(over: nat, rate: int)
    requires over > 0
    ensures var p: int := SatI128(over * rate);
            && (rate > 0 ==> p > 0 && WrapI128(-p) == -p)
            && (rate == 0 ==> p == 0)
            && (rate < 0 ==> p < 0 && (p == I128_MIN <==> over * rate <= I128_MIN))
            && (WrapI128(-p) < 0 <==> rate > 0 || over * rate <= I128_MIN)
  {
    if rate > 0 {
      PositiveProduct(over, rate);
    } else if rate < 0 {
      PositiveProduct(over, -rate);
      assert over * rate == -(over * -rate);
    }
  }

  lemma PositiveProduct(a: nat, b: nat)
    requires a > 0 && b > 0
    ensures a * b > 0
  {
  }

  /** On every stored tier, imported ones included, a fresh calculation and the view give
      the same answer, and the batch calculator gives it exactly for an MTTR from 1
      minute to the duration cap whose penalty the view does not refuse: below, the
      batch refuses what the view rates "top"; above, the batch does not cap; and it
      does not check the sign of a penalty. */
  lemma {:induction false} CalculatorsAgreeExactly(s: State, digest: Digest, now: u64, caller: Address, req: Request)
    requires OperatorFault(s, caller, req.severity).None? && Lookup(s.history, req.outageId).None?
    requires s.configs.Some? && req.severity in s.configs.value
    ensures DoCalculateSla(s, digest, now, caller, req.outageId, req.severity, req.mttr).1
            == CalculateSlaView(s, digest, now, req.outageId, req.severity, req.mttr)
    ensures var cfg := s.configs.value[req.severity];
            ProcessSingle(s.configs.value, digest, now, req)
            == CalculateSlaView(s, digest, now, req.outageId, req.severity, req.mttr)
            <==> && 1 <= req.mttr <= DurationCap(s)
                 && (req.mttr <= cfg.threshold || cfg.penalty > 0
                     || (req.mttr - cfg.threshold) * cfg.penalty <= I128_MIN)
  {
    var cfg := s.configs.value[req.severity];
    if req.mttr > cfg.threshold {
      PenaltyCases(req.mttr - cfg.threshold, cfg.penalty);
    }
  }

  /** A breach that costs nothing: the batch reports it as a violation with amount 0, the view
      refuses it. */
  lemma FreeBreachDisagrees(s: State, digest: Digest, now: u64, id: Symbol)
    requires VersionFault(s).None? && s.configs == Some(map[LOW := SLAConfig(10, 0, 100, 200, 150, 100)])
        && DurationCap(s) >= 11
    ensures ProcessSingle(s.configs.value, digest, now, Request(id, LOW, 11)).Ok?
    ensures CalculateSlaView(s, digest, now, id, LOW, 11) == Err(InvalidPenaltyAmount)
  {
    assert LOW in s.configs.value && s.configs.value[LOW].penalty == 0;
  }

  /** Both answer, and they agree on breach, penalty and tier. */
  ghost predicate Agree(sim: Result<SimulationResult>, view: Result<SLAResult>, severity: Symbol)
  {
    && sim.Ok? && view.Ok?
    && (sim.value.isBreach <==> view.value.status == VIOL)
    && sim.value.penaltyAmount == (if sim.value.isBreach then 0 - view.value.amount else 0)
    && sim.value.appliedTier == severity
  }

  /** On every stored tier, imported ones included, the simulation agrees with the view
      exactly when the threshold is positive and a breach costs something: it traps on a
      zero threshold, and the view refuses (or wraps) a penalty that is not positive. */
  lemma {:induction false} SimulationAgreesExactly(s: State, digest: Digest, now: u64, id: Symbol, severity: Symbol,
      mttr: u32)
    requires VersionFault(s).None? && IsCanonical(severity)
    requires s.configs.Some? && severity in s.configs.value
    ensures var cfg, m := s.configs.value[severity], Min(mttr, DurationCap(s));
            Agree(SimulateSla(s, id, severity, mttr), CalculateSlaView(s, digest, now, id, severity, mttr), severity)
            <==> cfg.threshold > 0 && (m <= cfg.threshold || cfg.penalty > 0)
    ensures SimulateSla(s, id, severity, mttr) == Trap <==> s.configs.value[severity].threshold == 0
  {
    var cfg, m := s.configs.value[severity], Min(mttr, DurationCap(s));
    assert VIOL[0] != MET[0];
    if m > cfg.threshold {
      PenaltyCases(m - cfg.threshold, cfg.penalty);
    }
  }

  /** So on a validated tier it agrees for every MTTR. */
  lemma {:induction false} SimulationAgrees(s: State, digest: Digest, now: u64, id: Symbol, severity: Symbol, mttr: u32)
    requires VersionFault(s).None? && IsCanonical(severity)
    requires s.configs.Some? && severity in s.configs.value && Bounded(severity, s.configs.value[severity])
    ensures Agree(SimulateSla(s, id, severity, mttr), CalculateSlaView(s, digest, now, id, severity, mttr), severity)
  {
    SimulationAgreesExactly(s, digest, now, id, severity, mttr);
  }

  /** An import can store such a tier: with a zero threshold the view answers while the
      simulation traps on its division. */
  lemma ZeroThresholdTrapsSimulation()
    ensures var s := DoImportConfigMap(DoInitialize(EMPTY_STATE, 1, 2).0, 1,
        map[LOW := SLAConfig(0, 5, 100, 200, 150, 100)]).0;
            SimulateSla(s, "o", LOW, 1) == Trap && CalculateSlaView(s, _ => 0, 0, "o", LOW, 1).Ok?
  {
    var bad: ConfigMap := map[LOW := SLAConfig(0, 5, 100, 200, 150, 100)];
    assert LOW in bad;
    assert forall k :: k in bad ==> IsCanonical(k);
  }

  // --------------------------------------------------------------- validation

  /** The first fault from position `i` on: a repeated id before a bad severity. */
  function FaultFrom(requests: seq<Request>, i: nat): Option<SLAError>
    requires i <= |requests|
    decreases |requests| - i
  {
    if i == |requests| then None
    else if exists j | 0 <= j < i :: requests[j].outageId == requests[i].outageId then Some(DuplicateOutageInput)
    else if !IsCanonical(requests[i].severity) then Some(InvalidSeverity)
    else FaultFrom(requests, i + 1)
  }

  ghost predicate DistinctRequests(requests: seq<Request>)
  {
    forall i, j | 0 <= i < j < |requests| :: requests[i].outageId != requests[j].outageId
  }

  lemma {:induction false} NoFaultExactly(requests: seq<Request>, i: nat)
    requires i <= |requests|
    ensures FaultFrom(requests, i).None? <==>
            && (forall k | i <= k < |requests| :: IsCanonical(requests[k].severity))
            && (forall j, k | 0 <= j < k && i <= k < |requests| :: requests[j].outageId != requests[k].outageId)
    decreases |requests| - i
  {
    if i < |requests| {
      NoFaultExactly(requests, i + 1);
    }
  }

  ghost predicate AcceptableBatch(requests: seq<Request>)
  {
    1 <= |requests| <= BATCH_LIMIT && DistinctRequests(requests)
    && forall i | 0 <= i < |requests| :: IsCanonical(requests[i].severity)
  }

  /** A batch is accepted exactly when it has 1 to 50 requests with pairwise distinct ids
      and canonical severities; otherwise the first fault in order is reported. */
  method ValidateBatch(requests: seq<Request>) returns (r: Result<nat>)
    ensures r.Ok? <==> AcceptableBatch(requests)
    ensures r.Ok? ==> r.value == |requests|
    ensures !(1 <= |requests| <= BATCH_LIMIT) ==> r == Err(ThresholdOutOfBounds)
    ensures 1 <= |requests| <= BATCH_LIMIT && !r.Ok? ==>
              FaultFrom(requests, 0).Some? && r == Err(FaultFrom(requests, 0).value)
  {
    if |requests| == 0 {
      return Err(ThresholdOutOfBounds);
    }
    if |requests| > BATCH_LIMIT {
      return Err(ThresholdOutOfBounds);
    }
    NoFaultExactly(requests, 0);
    var seen: map<Symbol, bool> := map[];
    var i := 0;
    while i < |requests|
      invariant 0 <= i <= |requests|
      invariant forall id :: id in seen <==> exists j | 0 <= j < i :: requests[j].outageId == id
      invariant forall id | id in seen :: seen[id]
      invariant FaultFrom(requests, 0) == FaultFrom(requests, i)
    {
      var req := requests[i];
      if req.outageId in seen && seen[req.outageId] {
        return Err(DuplicateOutageInput);
      }
      seen := seen[req.outageId := true];
      if !IsCanonical(req.severity) {
        return Err(InvalidSeverity);
      }
      i := i + 1;
    }
    r := Ok(|requests|);
  }

  // ------------------------------------------------------------- the batch

  function ErrorCode(e: SLAError): Symbol
  {
    match e
    case ConfigNotFound => "no_config"
    case InvalidSeverity => "bad_sev"
    case InvalidThreshold => "bad_thres"
    case _ => "unknown"
  }

  function ItemOf(req: Request, outcome: Result<SLAResult>): Item
  {
    match outcome
    case Ok(res) => Item(req.outageId, true, [res], None)
    case Err(e) => Item(req.outageId, false, [], Some(ErrorCode(e)))
    case Trap => Item(req.outageId, false, [], Some("unknown"))
  }

  /** One item per request, in the order of the requests. */
  function ItemsOf(requests: seq<Request>, outcomes: seq<Result<SLAResult>>): seq<Item>
    requires |outcomes| == |requests|
  {
    seq(|requests|, i requires 0 <= i < |requests| => ItemOf(requests[i], outcomes[i]))
  }

  lemma {:induction false} ItemsStep(requests: seq<Request>, outcomes: seq<Result<SLAResult>>, i: nat)
    requires i < |outcomes| == |requests|
    ensures ItemsOf(requests[..i + 1], outcomes[..i + 1]) ==
            ItemsOf(requests[..i], outcomes[..i]) + [ItemOf(requests[i], outcomes[i])]
  {
  }

  function Outcomes(configs: ConfigMap, digest: Digest, now: u64, requests: seq<Request>): seq<Result<SLAResult>>
  {
    seq(|requests|, i requires 0 <= i < |requests| => ProcessSingle(configs, digest, now, requests[i]))
  }

  function CountOk(outcomes: seq<Result<SLAResult>>): nat
  {
    if |outcomes| == 0 then 0
    else CountOk(outcomes[..|outcomes| - 1]) + if outcomes[|outcomes| - 1].Ok? then 1 else 0
  }

  /** The saturating totals as the loop accumulates them. */
  function Totals(outcomes: seq<Result<SLAResult>>, violated: bool): i128
  {
    if |outcomes| == 0 then 0
    else
      Added(Totals(outcomes[..|outcomes| - 1], violated), outcomes[|outcomes| - 1], violated)
  }

  function Added(total: i128, o: Result<SLAResult>, violated: bool): i128
  {
    if o.Ok? && (o.value.status == VIOL) == violated then SatI128(total as int + o.value.amount) else total
  }

  /** The exact signed sum of the successful items of one kind. */
  function ExactTotal(outcomes: seq<Result<SLAResult>>, violated: bool): int
  {
    if |outcomes| == 0 then 0
    else
      var last := outcomes[|outcomes| - 1];
      ExactTotal(outcomes[..|outcomes| - 1], violated) +
      if last.Ok? && (last.value.status == VIOL) == violated then last.value.amount else 0
  }

  /** What a batch reports about its outcomes. */
  ghost predicate Reports(summary: Summary, items: seq<Item>, requests: seq<Request>, outcomes: seq<Result<SLAResult>>)
    requires |outcomes| == |requests|
  {
    && summary.total == |requests|
    && summary.succeeded == CountOk(outcomes)
    && summary.succeeded + summary.failed == summary.total
    && summary.totalRewards == Totals(outcomes, false)
    && summary.totalPenalties == Totals(outcomes, true)
    && items == ItemsOf(requests, outcomes)
  }

  /** What one more outcome adds to the figures. */
  lemma {:induction false} OutcomeCounts(outcomes: seq<Result<SLAResult>>, i: nat)
    requires i < |outcomes|
    ensures CountOk(outcomes[..i + 1]) == CountOk(outcomes[..i]) + if outcomes[i].Ok? then 1 else 0
    ensures Totals(outcomes[..i + 1], true) == Added(Totals(outcomes[..i], true), outcomes[i], true)
    ensures Totals(outcomes[..i + 1], false) == Added(Totals(outcomes[..i], false), outcomes[i], false)
  {
    assert outcomes[..i + 1][..i] == outcomes[..i];
  }

  /** The loop: one item per request, in order; a failed item does not stop the batch. */
  method ProcessAll(configs: ConfigMap, digest: Digest, now: u64, requests: seq<Request>)
      returns (summary: Summary, items: seq<Item>)
    requires |requests| <= BATCH_LIMIT
    ensures Reports(summary, items, requests, Outcomes(configs, digest, now, requests))
  {
    ghost var outcomes := Outcomes(configs, digest, now, requests);
    items := [];
    var succeeded, failed := 0, 0;
    var totalRewards: i128, totalPenalties: i128 := 0, 0;
    var i := 0;
    while i < |requests|
      invariant 0 <= i <= |requests| && |items| == i
      invariant items == ItemsOf(requests[..i], outcomes[..i])
      invariant succeeded == CountOk(outcomes[..i]) && 0 <= failed == i - succeeded
      invariant totalRewards == Totals(outcomes[..i], false)
      invariant totalPenalties == Totals(outcomes[..i], true)
    {
      var outcome := ProcessSingle(configs, digest, now, requests[i]);
      assert outcome == outcomes[i];
      OutcomeCounts(outcomes, i);
      ItemsStep(requests, outcomes, i);
      if outcome.Ok? {
        succeeded := succeeded + 1;
        if outcome.value.status == VIOL {
          totalPenalties := SatI128(totalPenalties + outcome.value.amount);
        } else {
          totalRewards := SatI128(totalRewards + outcome.value.amount);
        }
      } else {
        failed := failed + 1;
      }
      items := items + [ItemOf(requests[i], outcome)];
      i := i + 1;
    }
    assert outcomes[..i] == outcomes && requests[..i] == requests;
    summary := Summary(|requests|, succeeded, failed, totalRewards, totalPenalties);
  }

  // ------------------------------------------------ what the items say by themselves

  /** The successful items, by their places. */
  function Successes(items: seq<Item>): set<nat>
  {
    set i: nat | i < |items| && items[i].success
  }

  /** One item: it carries the id it was asked for; a success holds one result and no error,
      a failure no result and an error. */
  predicate WellFormedItem(item: Item, req: Request)
  {
    && item.outageId == req.outageId
    && if item.success then |item.result| == 1 && item.error == None && item.result[0].outageId == req.outageId
       else item.result == [] && item.error.Some?
  }

  lemma {:induction false} CountOkIsSize(requests: seq<Request>, outcomes: seq<Result<SLAResult>>)
    requires |requests| == |outcomes|
    ensures CountOk(outcomes) == |Successes(ItemsOf(requests, outcomes))|
  {
    if |outcomes| > 0 {
      var n := |outcomes| - 1;
      CountOkIsSize(requests[..n], outcomes[..n]);
      assert Successes(ItemsOf(requests, outcomes)) ==
             Successes(ItemsOf(requests[..n], outcomes[..n])) + if outcomes[n].Ok? then {n} else {};
    } else {
      assert Successes(ItemsOf(requests, outcomes)) == {};
    }
  }

  /** The signed sum of the results of one kind among the items. */
  function SumOfItems(items: seq<Item>, violated: bool): int
  {
    if |items| == 0 then 0
    else
      var last := items[|items| - 1];
      SumOfItems(items[..|items| - 1], violated) +
      if |last.result| > 0 && (last.result[0].status == VIOL) == violated then last.result[0].amount else 0
  }

  lemma {:induction false} SumOfItemsIsExact(requests: seq<Request>, outcomes: seq<Result<SLAResult>>, violated: bool)
    requires |requests| == |outcomes|
    ensures SumOfItems(ItemsOf(requests, outcomes), violated) == ExactTotal(outcomes, violated)
  {
    if |outcomes| > 0 {
      var n := |outcomes| - 1;
      SumOfItemsIsExact(requests[..n], outcomes[..n], violated);
      assert ItemsOf(requests, outcomes)[..n] == ItemsOf(requests[..n], outcomes[..n]);
    }
  }

  /** The summary of a batch can be recomputed from its items: how many succeeded and failed,
      and, under validated tiers, both totals. */
  lemma {:induction false} SummaryFollowsItems(configs: ConfigMap, digest: Digest, now: u64, requests: seq<Request>,
                                               summary: Summary, items: seq<Item>)
    requires |requests| <= BATCH_LIMIT
    requires Reports(summary, items, requests, Outcomes(configs, digest, now, requests))
    ensures |items| == |requests| == summary.total
    ensures summary.succeeded == |Successes(items)| && summary.failed == |items| - |Successes(items)|
    ensures forall i | 0 <= i < |items| :: WellFormedItem(items[i], requests[i])
    ensures (forall k | k in configs && IsCanonical(k) :: Bounded(k, configs[k])) ==>
              summary.totalRewards == SumOfItems(items, false) && summary.totalPenalties == SumOfItems(items, true)
  {
    var outcomes := Outcomes(configs, digest, now, requests);
    CountOkIsSize(requests, outcomes);
    SumOfItemsIsExact(requests, outcomes, true);
    SumOfItemsIsExact(requests, outcomes, false);
    if forall k | k in configs && IsCanonical(k) :: Bounded(k, configs[k]) {
      SummaryIsExact(configs, digest, now, requests);
    }
    forall i | 0 <= i < |items| ensures WellFormedItem(items[i], requests[i]) {
      ItemSays(configs, digest, now, requests[i]);
    }
  }

  /** In an accepted batch an item fails for one of two reasons and says which: no tier is
      stored for its severity, or its MTTR is 0. Otherwise it holds the calculated result. */
  lemma {:induction false} ItemSays(configs: ConfigMap, digest: Digest, now: u64, req: Request)
    ensures var item := ItemOf(req, ProcessSingle(configs, digest, now, req));
            && WellFormedItem(item, req)
            && (IsCanonical(req.severity) ==>
                  && (item.error == Some("no_config") <==> req.severity !in configs)
                  && (item.error == Some("unknown") <==> req.severity in configs && req.mttr == 0)
                  && (item.success <==> req.severity in configs && req.mttr > 0))
            && (item.success ==> item.result[0] == ProcessSingle(configs, digest, now, req).value)
  {
    assert "no_config" != "unknown" && "bad_sev" != "no_config" && "bad_sev" != "unknown" by {
      assert "no_config"[0] != "unknown"[0] && "bad_sev"[0] != "no_config"[0] && "bad_sev"[0] != "unknown"[0];
    }
  }

  /** `batch_calculate`: nothing is stored; whether it runs depends on the batch, the
      operator, the pause flag and the configuration, in that order. */
  method BatchCalculate(c: SlaContract, now: u64, caller: Address, requests: seq<Request>)
    returns (r: Result<(Summary, seq<Item>)>)
    ensures r.Ok? <==> AcceptableBatch(requests) && c.operator == Some(caller) && !c.paused && c.configs.Some?
    ensures r.Ok? ==> Reports(r.value.0, r.value.1, requests, Outcomes(c.configs.value, c.digest, now, requests))
    ensures !(1 <= |requests| <= BATCH_LIMIT) ==> r == Err(ThresholdOutOfBounds)
    ensures 1 <= |requests| <= BATCH_LIMIT && !AcceptableBatch(requests) ==>
              FaultFrom(requests, 0).Some? && r == Err(FaultFrom(requests, 0).value)
    ensures AcceptableBatch(requests) && !r.Ok? ==>
              r == Err(if c.operator.None? then NotInitialized
                       else if c.operator.value != caller then Unauthorized
                       else if c.paused then ContractPaused
                       else NotInitialized)
  {
    var valid := ValidateBatch(requests);
    if !valid.Ok? {
      return Err(valid.error);
    }
    if c.operator.None? {
      return Err(NotInitialized);
    }
    if caller != c.operator.value {
      return Err(Unauthorized);
    }
    if c.paused {
      return Err(ContractPaused);
    }
    if c.configs.None? {
      return Err(NotInitialized);
    }
    var summary, items := ProcessAll(c.configs.value, c.digest, now, requests);
    r := Ok((summary, items));
  }

  /** No validated item moves a total by more than this. */
  function ItemBound(n: nat): int
  {
    n * 42949672950000
  }

  lemma {:induction false} ItemWithinBounds(configs: ConfigMap, digest: Digest, now: u64, req: Request)
    requires forall k | k in configs && IsCanonical(k) :: Bounded(k, configs[k])
    ensures OutcomeWithinBounds(ProcessSingle(configs, digest, now, req))
  {
    if IsCanonical(req.severity) && req.severity in configs && req.mttr > 0 {
      var cfg := configs[req.severity];
      NoSaturation(req.severity, cfg, req.mttr);
      ResultShape(req.severity, req.outageId, req.mttr, cfg, digest(configs), now);
    }
  }

  predicate OutcomeWithinBounds(o: Result<SLAResult>)
  {
    o.Ok? ==> -ItemBound(1) <= o.value.amount <= ItemBound(1)
              && (if o.value.status == VIOL then o.value.amount < 0 else o.value.amount >= 0)
  }

  lemma {:induction false} TotalsWithinBounds(outcomes: seq<Result<SLAResult>>, violated: bool)
    requires |outcomes| <= BATCH_LIMIT
    requires forall i | 0 <= i < |outcomes| :: OutcomeWithinBounds(outcomes[i])
    ensures Totals(outcomes, violated) == ExactTotal(outcomes, violated)
    ensures -ItemBound(|outcomes|) <= ExactTotal(outcomes, violated) <= ItemBound(|outcomes|)
    ensures if violated then ExactTotal(outcomes, violated) <= 0 else ExactTotal(outcomes, violated) >= 0
  {
    if |outcomes| > 0 {
      TotalsWithinBounds(outcomes[..|outcomes| - 1], violated);
      assert OutcomeWithinBounds(outcomes[|outcomes| - 1]);
    }
  }

  /** With validated configurations nothing saturates: the summary's two totals are the
      exact signed sums of the items, penalties at most 0 and rewards at least 0. */
  lemma {:induction false} SummaryIsExact(configs: ConfigMap, digest: Digest, now: u64, requests: seq<Request>)
    requires |requests| <= BATCH_LIMIT
    requires forall k | k in configs && IsCanonical(k) :: Bounded(k, configs[k])
    ensures var outcomes := Outcomes(configs, digest, now, requests);
            && Totals(outcomes, true) == ExactTotal(outcomes, true) <= 0
            && Totals(outcomes, false) == ExactTotal(outcomes, false) >= 0
            && CountOk(outcomes) <= |requests|
  {
    var outcomes := Outcomes(configs, digest, now, requests);
    forall i | 0 <= i < |outcomes| ensures OutcomeWithinBounds(outcomes[i]) {
      ItemWithinBounds(configs, digest, now, requests[i]);
    }
    TotalsWithinBounds(outcomes, true);
    TotalsWithinBounds(outcomes, false);
    CountBound(outcomes);
  }

  lemma {:induction false} CountBound(outcomes: seq<Result<SLAResult>>)
    ensures CountOk(outcomes) <= |outcomes|
  {
    if |outcomes| > 0 {
      CountBound(outcomes[..|outcomes| - 1]);
    }
  }

  // -------------------------------------------------------- downtime by site

  datatype Compliance = Unknown | Compliant | NonCompliant

  datatype DowntimeResult = DowntimeResult(siteId: Symbol, totalDowntime: u64, compliance: Compliance)

  /** Downtime of one site, by its own scan of the history. */
  function SiteDowntime(history: seq<SLAResult>, site: Symbol): nat
  {
    if |history| == 0 then 0
    else
      SiteDowntime(history[..|history| - 1], site) +
      if history[|history| - 1].outageId == site then history[|history| - 1].mttr else 0
  }

  /** What a separate scan for this site would answer. */
  ghost predicate AnswersLikeScan(history: seq<SLAResult>, site: Symbol, answer: DowntimeResult)
  {
    && answer.siteId == site
    && answer.totalDowntime == Min(SiteDowntime(history, site), U64_MAX)
    && (answer.compliance == Unknown <==> forall e | e in history :: e.outageId != site)
    && (answer.compliance == Compliant
        <==> answer.compliance != Unknown && forall e | e in history && e.outageId == site :: e.status == MET)
  }

  /** The two maps as the pass builds them, entry by entry. */
  function DowntimeMap(history: seq<SLAResult>): map<Symbol, u64>
  {
    if |history| == 0 then map[]
    else
      var before := DowntimeMap(history[..|history| - 1]);
      var e := history[|history| - 1];
      before[e.outageId := SatU64((if e.outageId in before then before[e.outageId] else 0) + e.mttr)]
  }

  function ComplianceMap(history: seq<SLAResult>): map<Symbol, bool>
  {
    if |history| == 0 then map[]
    else
      var before := ComplianceMap(history[..|history| - 1]);
      var e := history[|history| - 1];
      before[e.outageId := (if e.outageId in before then before[e.outageId] else true) && e.status == MET]
  }

  /** A lookup in the two maps. */
  function LookupSite(history: seq<SLAResult>, site: Symbol): DowntimeResult
  {
    var downtime, compliant := DowntimeMap(history), ComplianceMap(history);
    DowntimeResult(site,
                   if site in downtime then downtime[site] else 0,
                   if site !in compliant then Unknown else if compliant[site] then Compliant else NonCompliant)
  }

  lemma {:induction false} DowntimeMapIsScan(history: seq<SLAResult>, site: Symbol)
    ensures (if site in DowntimeMap(history) then DowntimeMap(history)[site] else 0)
        == Min(SiteDowntime(history, site), U64_MAX)
  {
    if |history| > 0 {
      DowntimeMapIsScan(history[..|history| - 1], site);
    }
  }

  lemma {:induction false} ComplianceMapIsScan(history: seq<SLAResult>, site: Symbol)
    ensures site in ComplianceMap(history) <==> exists e :: e in history && e.outageId == site
    ensures site in ComplianceMap(history) ==>
              (ComplianceMap(history)[site] <==> forall e | e in history && e.outageId == site :: e.status == MET)
  {
    if |history| > 0 {
      var n := |history| - 1;
      ComplianceMapIsScan(history[..n], site);
      assert history == history[..n] + [history[n]];
    }
  }

  /** One pass and a lookup answer like a scan of the history for that site alone. */
  lemma {:induction false} LookupAnswersLikeScan(history: seq<SLAResult>, site: Symbol)
    ensures AnswersLikeScan(history, site, LookupSite(history, site))
  {
    DowntimeMapIsScan(history, site);
    ComplianceMapIsScan(history, site);
  }

  /** The single pass over the history. */
  method AggregateOnce(history: seq<SLAResult>) returns (downtime: map<Symbol, u64>, compliant: map<Symbol, bool>)
    ensures downtime == DowntimeMap(history) && compliant == ComplianceMap(history)
  {
    downtime, compliant := map[], map[];
    var i := 0;
    while i < |history|
      invariant 0 <= i <= |history|
      invariant downtime == DowntimeMap(history[..i])
      invariant compliant == ComplianceMap(history[..i])
    {
      assert history[..i + 1][..i] == history[..i];
      var entry := history[i];
      var current: int := if entry.outageId in downtime then downtime[entry.outageId] else 0;
      downtime := downtime[entry.outageId := SatU64(current + entry.mttr)];
      var previous := if entry.outageId in compliant then compliant[entry.outageId] else true;
      compliant := compliant[entry.outageId := previous && entry.status == MET];
      i := i + 1;
    }
    assert history[..i] == history;
  }

  /** `get_batch_downtime`: one pass over the history, then one lookup per site. */
  method GetBatchDowntime(history: seq<SLAResult>, siteIds: seq<Symbol>) returns (r: Result<seq<DowntimeResult>>)
    ensures r.Ok? <==> |siteIds| <= BATCH_LIMIT
    ensures !r.Ok? ==> r == Err(ThresholdOutOfBounds)
    ensures r.Ok? ==> |r.value| == |siteIds| &&
                      forall i | 0 <= i < |siteIds| :: AnswersLikeScan(history, siteIds[i], r.value[i])
  {
    if |siteIds| > BATCH_LIMIT {
      return Err(ThresholdOutOfBounds);
    }
    var downtime, compliant := AggregateOnce(history);
    var answers: seq<DowntimeResult> := [];
    var k := 0;
    while k < |siteIds|
      invariant 0 <= k <= |siteIds| && |answers| == k
      invariant forall j | 0 <= j < k :: answers[j] == LookupSite(history, siteIds[j])
    {
      var site := siteIds[k];
      var total: u64 := if site in downtime then downtime[site] else 0;
      var status := if site !in compliant then Unknown else if compliant[site] then Compliant else NonCompliant;
      answers := answers + [DowntimeResult(site, total, status)];
      k := k + 1;
    }
    forall j | 0 <= j < |siteIds| ensures AnswersLikeScan(history, siteIds[j], answers[j]) {
      LookupAnswersLikeScan(history, siteIds[j]);
    }
    r := Ok(answers);
  }
}
