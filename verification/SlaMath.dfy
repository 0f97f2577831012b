/** The tier and penalty formula of lib.rs, and what it guarantees. */
module SlaMath {
  import opened Ints
  import opened SlaTypes

  /** `compute_result`: the result of one outage under one configuration. */
  function ComputeResult(id: Symbol, mttr: u32, cfg: SLAConfig, hash: Hash, at: u64): (r: Result<SLAResult>)
  {
    if mttr == 0 then
      Ok(SLAResult(id, MET, 0, cfg.threshold, 0, REW, TOP, hash, at))
    else if mttr > cfg.threshold then
      var penalty: int := SatI128((mttr - cfg.threshold) * cfg.penalty);
      var amount := WrapI128(-penalty);
      if amount >= 0 then Err(InvalidPenaltyAmount)
      else Ok(SLAResult(id, VIOL, mttr, cfg.threshold, amount, PEN, POOR, hash, at))
    else
      var (multiplier, rating) := Tier(cfg, mttr);
      Ok(SLAResult(id, MET, mttr, cfg.threshold, SatI128(cfg.reward * multiplier) / 100, REW, rating, hash, at))
  }

  /** The multiplier and rating of an outage that met its threshold. */
  function Tier(cfg: SLAConfig, mttr: u32): (t: (u32, Symbol))
    requires 0 < mttr <= cfg.threshold
  {
    var ratio := mttr * 100 / cfg.threshold;
    if ratio < 50 then (cfg.topMultiplier, TOP)
    else if ratio < 75 then (cfg.excelMultiplier, EXCEL)
    else (cfg.goodMultiplier, GOOD)
  }

  /** `compute_sla`: the simulation. It divides by the threshold unconditionally,
      so a zero threshold (possible only after `import_config_map`) traps. */
  function ComputeSla(cap: u32, cfg: SLAConfig, severity: Symbol, mttr: u32): (r: Result<SimulationResult>)
  {
    var m := Min(mttr, cap);
    if cfg.threshold == 0 then Trap
    else
      Ok(SimulationResult(
           m > cfg.threshold,
           if m > cfg.threshold then SatI128((m - cfg.threshold) * cfg.penalty) else 0,
           m * 10000 / cfg.threshold % (U32_MAX + 1),
           severity))
  }

  /** The simulation's basis points are the MTTR in ten-thousandths of the threshold, rounded
      down, exactly while that fits a u32; then they reach 10000 from the threshold on. */
  lemma {:induction false} SimulatedPointsExactly(cap: u32, cfg: SLAConfig, severity: Symbol, mttr: u32)
    requires cfg.threshold > 0
    ensures ComputeSla(cap, cfg, severity, mttr).Ok?
    ensures var r, m := ComputeSla(cap, cfg, severity, mttr).value, Min(mttr, cap);
            && (r.uptimeBps * cfg.threshold <= m * 10000 < (r.uptimeBps + 1) * cfg.threshold
                <==> m * 10000 < (U32_MAX + 1) * cfg.threshold)
            && (m * 10000 < (U32_MAX + 1) * cfg.threshold ==> (r.uptimeBps >= 10000 <==> m >= cfg.threshold))
            && (r.isBreach <==> m > cfg.threshold)
            && (!r.isBreach ==> r.penaltyAmount == 0) && r.appliedTier == severity
  {
    var m: nat := Min(mttr, cap);
    WrappedQuotient(m * 10000, cfg.threshold);
    QuotientBelow(m * 10000, cfg.threshold, 10000);
  }

  /** A quotient cut to 32 bits is still the quotient exactly when it fits. */
  lemma WrappedQuotient(a: nat, t: nat)
    requires t > 0
    ensures var r := a / t % (U32_MAX + 1);
            && (r * t <= a < (r + 1) * t <==> a < (U32_MAX + 1) * t)
            && (a < (U32_MAX + 1) * t ==> r == a / t)
  {
    var q := a / t;
    QuotientBounds(a, t);
    QuotientBelow(a, t, U32_MAX + 1);
    CutBelow(q);
    CutQuotient(a, t, q, q % (U32_MAX + 1));
  }

  lemma CutBelow(q: nat)
    ensures 0 <= q % (U32_MAX + 1) <= q && (q % (U32_MAX + 1) == q <==> q <= U32_MAX)
  {
  }

  lemma CutQuotient(a: nat, t: nat, q: nat, r: nat)
    requires t > 0 && q * t <= a < (q + 1) * t && r <= q
    ensures r * t <= a < (r + 1) * t <==> r == q
  {
    if r < q {
      ProductBound(r + 1, q, t, t);
    }
  }

  lemma QuotientBounds(a: nat, t: nat)
    requires t > 0
    ensures a / t * t <= a < (a / t + 1) * t
  {
    assert a == a / t * t + a % t;
    assert (a / t + 1) * t == a / t * t + t;
  }

  /** With a cap of at most 429496 minutes, such as the default one, they always fit. */
  lemma {:induction false} SimulatedPointsFit(cap: u32, cfg: SLAConfig, severity: Symbol, mttr: u32)
    requires cfg.threshold > 0 && cap <= 429496
    ensures var r, m := ComputeSla(cap, cfg, severity, mttr).value, Min(mttr, cap);
            ComputeSla(cap, cfg, severity, mttr).Ok?
                && r.uptimeBps * cfg.threshold <= m * 10000 < (r.uptimeBps + 1) * cfg.threshold
  {
    SimulatedPointsExactly(cap, cfg, severity, mttr);
    ProductBound(U32_MAX + 1, U32_MAX + 1, 1, cfg.threshold);
  }

  predicate IsCanonical(s: Symbol)
  {
    s == CRITICAL || s == HIGH || s == MEDIUM || s == LOW
  }

  /** Position in the order critical, high, medium, low. */
  function Rank(s: Symbol): (k: nat)
    requires IsCanonical(s)
  {
    if s == CRITICAL then 0 else if s == HIGH then 1 else if s == MEDIUM then 2 else 3
  }

  function Severity(k: nat): (s: Symbol)
    requires k < 4
    ensures IsCanonical(s) && Rank(s) == k
  {
    if k == 0 then CRITICAL else if k == 1 then HIGH else if k == 2 then MEDIUM else LOW
  }

  lemma SeverityOfRank(s: Symbol)
    requires IsCanonical(s)
    ensures Severity(Rank(s)) == s
  {
  }

  /** `validate_config`, check by check and in the source's order. */
  function ValidateConfig(severity: Symbol, cfg: SLAConfig, configs: ConfigMap): (r: Result<()>)
  {
    if !IsCanonical(severity) then Err(InvalidSeverity)
    else if cfg.threshold == 0 || cfg.threshold > 1440 then Err(ThresholdOutOfBounds)
    else if cfg.penalty <= 0 || cfg.penalty > 10000 then Err(PenaltyOutOfBounds)
    else if cfg.reward <= 0 || cfg.reward > 100000 then Err(RewardOutOfBounds)
    else if severity == CRITICAL && cfg.threshold > 60 then Err(InvalidThreshold)
    else if severity == CRITICAL && cfg.penalty < 50 then Err(InvalidPenalty)
    else if severity == HIGH && cfg.threshold > 120 then Err(InvalidThreshold)
    else if severity == HIGH && cfg.penalty < 25 then Err(InvalidPenalty)
    else if severity == MEDIUM && cfg.threshold > 240 then Err(InvalidThreshold)
    else if severity == MEDIUM && cfg.penalty < 10 then Err(InvalidPenalty)
    else if severity == LOW && cfg.penalty > 100 then Err(InvalidPenalty)
    else CrossCheck(severity, cfg, configs, 0)
  }

  /** The cross-severity loop from position `k` on. A severity missing from the
      stored map makes the source's `unwrap` trap. */
  function CrossCheck(severity: Symbol, cfg: SLAConfig, configs: ConfigMap, k: nat): (r: Result<()>)
    requires IsCanonical(severity) && k <= 4
    decreases 4 - k
  {
    if k == 4 then Ok(())
    else if Severity(k) == severity then CrossCheck(severity, cfg, configs, k + 1)
    else if Severity(k) !in configs then Trap
    else
      var other := configs[Severity(k)];
      if k < Rank(severity) && cfg.threshold <= other.threshold then Err(InvalidThreshold)
      else if k < Rank(severity) && cfg.penalty >= other.penalty then Err(InvalidPenalty)
      else if k > Rank(severity) && cfg.threshold >= other.threshold then Err(InvalidThreshold)
      else if k > Rank(severity) && cfg.penalty <= other.penalty then Err(InvalidPenalty)
      else CrossCheck(severity, cfg, configs, k + 1)
  }

  /** The bounds a single configuration must respect. */
  predicate Bounded(severity: Symbol, cfg: SLAConfig)
  {
    && 1 <= cfg.threshold <= 1440
    && 1 <= cfg.penalty <= 10000
    && 1 <= cfg.reward <= 100000
    && (severity == CRITICAL ==> cfg.threshold <= 60 && cfg.penalty >= 50)
    && (severity == HIGH ==> cfg.threshold <= 120 && cfg.penalty >= 25)
    && (severity == MEDIUM ==> cfg.threshold <= 240 && cfg.penalty >= 10)
    && (severity == LOW ==> cfg.penalty <= 100)
  }

  /** All four severities are configured within bounds, thresholds strictly
      increase and penalties strictly decrease from critical to low. */
  predicate Ordered(configs: ConfigMap)
  {
    && CRITICAL in configs && HIGH in configs && MEDIUM in configs && LOW in configs
    && Bounded(CRITICAL, configs[CRITICAL]) && Bounded(HIGH, configs[HIGH])
    && Bounded(MEDIUM, configs[MEDIUM]) && Bounded(LOW, configs[LOW])
    && Above(configs[CRITICAL], configs[HIGH])
    && Above(configs[HIGH], configs[MEDIUM])
    && Above(configs[MEDIUM], configs[LOW])
  }

  /** `hi` is the stricter configuration: shorter threshold, larger penalty. */
  predicate Above(hi: SLAConfig, lo: SLAConfig)
  {
    hi.threshold < lo.threshold && hi.penalty > lo.penalty
  }

  /** `cfg` for `severity` agrees with the stored configuration of the `k`-th severity. */
  predicate FitsAgainst(severity: Symbol, cfg: SLAConfig, configs: ConfigMap, k: nat)
    requires IsCanonical(severity) && k < 4 && Severity(k) in configs
  {
    && (k < Rank(severity) ==> Above(configs[Severity(k)], cfg))
    && (k > Rank(severity) ==> Above(cfg, configs[Severity(k)]))
  }

  /** `FitsAgainst` for every position from `k` on. */
  predicate FitsFrom(severity: Symbol, cfg: SLAConfig, configs: ConfigMap, k: nat)
    requires IsCanonical(severity) && k <= 4
    requires forall j: nat | j < 4 :: Severity(j) in configs
    decreases 4 - k
  {
    k == 4 || (FitsAgainst(severity, cfg, configs, k) && FitsFrom(severity, cfg, configs, k + 1))
  }

  lemma {:induction false} CrossCheckExact(severity: Symbol, cfg: SLAConfig, configs: ConfigMap, k: nat)
    requires IsCanonical(severity) && k <= 4
    requires forall j: nat | j < 4 :: Severity(j) in configs
    ensures CrossCheck(severity, cfg, configs, k).Ok? <==> FitsFrom(severity, cfg, configs, k)
    decreases 4 - k
  {
    if k < 4 {
      CrossCheckExact(severity, cfg, configs, k + 1);
      SeverityOfRank(severity);
    }
  }

  lemma {:induction false} UpdateStaysOrdered(severity: Symbol, cfg: SLAConfig, configs: ConfigMap)
    requires Ordered(configs) && IsCanonical(severity)
    ensures Ordered(configs[severity := cfg]) <==>
            && Bounded(severity, cfg)
            && FitsAgainst(severity, cfg, configs, 0) && FitsAgainst(severity, cfg, configs, 1)
            && FitsAgainst(severity, cfg, configs, 2) && FitsAgainst(severity, cfg, configs, 3)
  {
  }

  /** On an ordered map the validator accepts exactly the updates that leave the
      map ordered: it neither lets a bad one through nor refuses a good one. */
  lemma {:induction false} ValidateConfigExact(severity: Symbol, cfg: SLAConfig, configs: ConfigMap)
    requires Ordered(configs)
    ensures ValidateConfig(severity, cfg, configs).Ok? <==>
            IsCanonical(severity) && Ordered(configs[severity := cfg])
  {
    if IsCanonical(severity) {
      CrossCheckExact(severity, cfg, configs, 0);
      UpdateStaysOrdered(severity, cfg, configs);
      assert FitsFrom(severity, cfg, configs, 2) <==>
             FitsAgainst(severity, cfg, configs, 2) && FitsAgainst(severity, cfg, configs, 3);
    }
  }

  lemma OrderedAbove(configs: ConfigMap, j: nat, k: nat)
    requires Ordered(configs) && j < k < 4
    ensures Severity(j) in configs && Severity(k) in configs && Above(configs[Severity(j)], configs[Severity(k)])
    ensures Bounded(Severity(j), configs[Severity(j)]) && Bounded(Severity(k), configs[Severity(k)])
  {
  }

  /** Within the validated bounds neither `saturating_mul` ever saturates, and the
      amount is the plain product. */
  lemma NoSaturation(severity: Symbol, cfg: SLAConfig, mttr: u32)
    requires Bounded(severity, cfg)
    ensures mttr > cfg.threshold ==>
              && SatI128((mttr - cfg.threshold) * cfg.penalty) == (mttr - cfg.threshold) * cfg.penalty
              && 0 < (mttr - cfg.threshold) * cfg.penalty <= U32_MAX * 10000
    ensures forall x: u32 :: SatI128(cfg.reward * x) == cfg.reward * x && 0 <= cfg.reward * x <= 100000 * U32_MAX
  {
    if mttr > cfg.threshold {
      ProductBound(mttr - cfg.threshold, U32_MAX, cfg.penalty, 10000);
      ProductBound(1, mttr - cfg.threshold, 1, cfg.penalty);
    }
    forall x: u32
      ensures SatI128(cfg.reward * x) == cfg.reward * x && 0 <= cfg.reward * x <= 100000 * U32_MAX
    {
      ProductBound(cfg.reward, 100000, x, U32_MAX);
    }
  }

  lemma ProductBound(a: nat, b: nat, x: nat, y: nat)
    requires a <= b && x <= y
    ensures 0 <= a * x <= b * y
  {
    assert a * x <= b * x;
    assert b * x <= b * y;
  }

  /** Signed amount of a successful result; 0 stands for the error case. */
  function Amount(mttr: u32, cfg: SLAConfig): (a: i128)
  {
    var r := ComputeResult("", mttr, cfg, 0, 0);
    if r.Ok? then r.value.amount else 0
  }

  /** With a validated configuration a result is always produced; it is a violation
      exactly when the MTTR exceeds the threshold, and the sign of the amount, the
      payment type and the rating all follow from that. */
  lemma ResultShape(severity: Symbol, id: Symbol, mttr: u32, cfg: SLAConfig, hash: Hash, at: u64)
    requires Bounded(severity, cfg)
    ensures var r := ComputeResult(id, mttr, cfg, hash, at);
            && r.Ok?
            && (r.value.status == VIOL <==> mttr > cfg.threshold)
            && (r.value.status == VIOL <==> r.value.amount < 0)
            && (r.value.status == VIOL <==> r.value.paymentType == PEN)
            && (r.value.status == VIOL <==> r.value.rating == POOR)
            && (r.value.status != VIOL ==> r.value.status == MET && r.value.paymentType == REW)
            && r.value.amount == Amount(mttr, cfg)
            && -U32_MAX * 10000 <= r.value.amount <= 1000 * U32_MAX
  {
    NoSaturation(severity, cfg, mttr);
    assert PEN[0] != REW[0];
    assert GOOD[0] != POOR[0];
    if 0 < mttr <= cfg.threshold {
      var multiplier := Tier(cfg, mttr).0;
      assert SatI128(cfg.reward * multiplier) == cfg.reward * multiplier;
      assert 0 <= cfg.reward * multiplier <= 100000 * U32_MAX;
    }
  }

  /** The whole result, with the tiers and the reward stated by products and bounds
      instead of the code's divisions: the top tier below half of the threshold, the
      excellent tier below three quarters. */
  lemma ResultByProducts(severity: Symbol, id: Symbol, mttr: u32, cfg: SLAConfig, hash: Hash, at: u64)
    requires Bounded(severity, cfg)
    ensures ComputeResult(id, mttr, cfg, hash, at).Ok?
    ensures var r, t := ComputeResult(id, mttr, cfg, hash, at).value, cfg.threshold;
            && (r.outageId, r.mttr, r.threshold, r.configHash, r.recordedAt) == (id, mttr, t, hash, at)
            && (mttr > t ==> r.rating == POOR && r.amount == -((mttr - t) * cfg.penalty))
            && (mttr == 0 ==> r.rating == TOP && r.amount == 0)
            && (0 < mttr && 2 * mttr < t ==> r.rating == TOP && Hundredths(r.amount, cfg.reward * cfg.topMultiplier))
            && (t <= 2 * mttr && 4 * mttr < 3 * t
                ==> r.rating == EXCEL && Hundredths(r.amount, cfg.reward * cfg.excelMultiplier))
            && (3 * t <= 4 * mttr && mttr <= t
                ==> r.rating == GOOD && Hundredths(r.amount, cfg.reward * cfg.goodMultiplier))
  {
    NoSaturation(severity, cfg, mttr);
    if 0 < mttr <= cfg.threshold {
      TierByProduct(cfg, mttr);
      var multiplier := Tier(cfg, mttr).0;
      assert SatI128(cfg.reward * multiplier) == cfg.reward * multiplier;
    }
  }

  /** `a` is the hundredth part of `x`, rounded down. */
  predicate Hundredths(a: int, x: int)
  {
    100 * a <= x < 100 * a + 100
  }

  /** At equal MTTR a more severe tier is violated whenever a less severe one is,
      and then its penalty is strictly larger. */
  lemma SeverityDominates(configs: ConfigMap, j: nat, k: nat, mttr: u32)
    requires Ordered(configs) && j < k < 4
    requires Severity(k) in configs && mttr > configs[Severity(k)].threshold
    ensures Severity(j) in configs && mttr > configs[Severity(j)].threshold
    ensures Amount(mttr, configs[Severity(j)]) < Amount(mttr, configs[Severity(k)]) < 0
  {
    OrderedAbove(configs, j, k);
    var hi, lo := configs[Severity(j)], configs[Severity(k)];
    NoSaturation(Severity(j), hi, mttr);
    NoSaturation(Severity(k), lo, mttr);
    StrictProduct(mttr - lo.threshold, mttr - hi.threshold, lo.penalty, hi.penalty);
  }

  lemma StrictProduct(a: nat, b: nat, x: nat, y: nat)
    requires 0 < a < b && 0 < x < y
    ensures 0 < a * x < b * y
  {
    ProductBound(1, a, 1, x);
    assert a * x < a * y;
    assert a * y <= b * y;
  }

  /** Reward paid by a tier with multiplier `x`. */
  function Reward(cfg: SLAConfig, x: u32): (r: int)
  {
    cfg.reward * x / 100
  }

  /** The tiers that some MTTR actually reaches pay in the order top, excel, good.
      Top needs a threshold of at least 3 minutes and excel one of at least 2. */
  predicate AttainedTiersOrdered(cfg: SLAConfig)
  {
    && (cfg.threshold >= 3 ==> Reward(cfg, cfg.topMultiplier) >= Reward(cfg, cfg.excelMultiplier))
    && (cfg.threshold >= 2 ==> Reward(cfg, cfg.excelMultiplier) >= Reward(cfg, cfg.goodMultiplier))
  }

  ghost predicate NeverRises(cfg: SLAConfig)
  {
    forall m: u32, n: u32 | 1 <= m <= n :: Amount(n, cfg) <= Amount(m, cfg)
  }

  lemma RewardMonotone(cfg: SLAConfig, x: u32, y: u32)
    requires cfg.reward >= 0 && x <= y
    ensures Reward(cfg, x) <= Reward(cfg, y)
  {
    ProductBound(cfg.reward, cfg.reward, x, y);
    HundredthsMonotone(cfg.reward * x, cfg.reward * y);
  }

  lemma HundredthsMonotone(a: int, b: int)
    requires a <= b
    ensures a / 100 <= b / 100
  {
  }

  lemma AmountWhenMet(severity: Symbol, cfg: SLAConfig, m: u32)
    requires Bounded(severity, cfg) && 1 <= m <= cfg.threshold
    ensures Amount(m, cfg) == Reward(cfg, Tier(cfg, m).0) >= 0
  {
    NoSaturation(severity, cfg, m);
    var x := Tier(cfg, m).0;
    assert SatI128(cfg.reward * x) == cfg.reward * x >= 0;
  }

  /** Which tier an MTTR falls in, without division. */
  lemma TierByProduct(cfg: SLAConfig, m: u32)
    requires 0 < m <= cfg.threshold
    ensures Tier(cfg, m) ==
            if 100 * m < 50 * cfg.threshold then (cfg.topMultiplier, TOP)
            else if 100 * m < 75 * cfg.threshold then (cfg.excelMultiplier, EXCEL)
            else (cfg.goodMultiplier, GOOD)
  {
    QuotientBelow(m * 100, cfg.threshold, 50);
    QuotientBelow(m * 100, cfg.threshold, 75);
  }

  lemma QuotientBelow(a: nat, t: nat, q: nat)
    requires t > 0
    ensures a / t < q <==> a < q * t
  {
    var d := a / t;
    assert a == d * t + a % t;
    if d < q {
      ProductBound(d + 1, q, t, t);
      assert (d + 1) * t == d * t + t;
    } else {
      ProductBound(q, d, t, t);
    }
  }

  /** From one minute up, the signed amount never rises with the MTTR exactly when
      the tiers that can be reached pay in order. */
  lemma NeverRisesExactly(severity: Symbol, cfg: SLAConfig)
    requires Bounded(severity, cfg)
    ensures NeverRises(cfg) <==> AttainedTiersOrdered(cfg)
  {
    var t := cfg.threshold;
    if AttainedTiersOrdered(cfg) {
      forall m: u32, n: u32 | 1 <= m <= n ensures Amount(n, cfg) <= Amount(m, cfg) {
        AmountStep(severity, cfg, m, n);
      }
    }
    if NeverRises(cfg) {
      AmountWhenMet(severity, cfg, 1);
      AmountWhenMet(severity, cfg, t);
      TierByProduct(cfg, 1);
      TierByProduct(cfg, t);
      var mid := (t + 1) / 2;
      AmountWhenMet(severity, cfg, mid);
      TierByProduct(cfg, mid);
      assert Amount(mid, cfg) <= Amount(1, cfg);
      assert Amount(t, cfg) <= Amount(mid, cfg);
    }
  }

  lemma AmountStep(severity: Symbol, cfg: SLAConfig, m: u32, n: u32)
    requires Bounded(severity, cfg) && AttainedTiersOrdered(cfg) && 1 <= m <= n
    ensures Amount(n, cfg) <= Amount(m, cfg)
  {
    if m <= cfg.threshold {
      AmountWhenMet(severity, cfg, m);
      TierByProduct(cfg, m);
      if n <= cfg.threshold {
        AmountWhenMet(severity, cfg, n);
        TierByProduct(cfg, n);
      } else {
        ResultShape(severity, "", n, cfg, 0, 0);
      }
    } else {
      NoSaturation(severity, cfg, m);
      NoSaturation(severity, cfg, n);
      ProductBound(m - cfg.threshold, n - cfg.threshold, cfg.penalty, cfg.penalty);
    }
  }

  /** Multipliers ordered top >= excel >= good are enough, whatever the threshold. */
  lemma OrderedMultipliersNeverRise(severity: Symbol, cfg: SLAConfig)
    requires Bounded(severity, cfg)
    requires cfg.topMultiplier >= cfg.excelMultiplier >= cfg.goodMultiplier
    ensures NeverRises(cfg)
  {
    RewardMonotone(cfg, cfg.excelMultiplier, cfg.topMultiplier);
    RewardMonotone(cfg, cfg.goodMultiplier, cfg.excelMultiplier);
    NeverRisesExactly(severity, cfg);
  }

  /** From zero minutes up it holds exactly when, besides, one minute earns nothing: an
      MTTR of 0 is paid 0, so any positive reward of the first minute is a rise. */
  lemma NeverRisesFromZeroExactly(severity: Symbol, cfg: SLAConfig)
    requires Bounded(severity, cfg)
    ensures NeverRisesFromZero(cfg) <==> AttainedTiersOrdered(cfg) && Reward(cfg, Tier(cfg, 1).0) == 0
  {
    NeverRisesExactly(severity, cfg);
    AmountWhenMet(severity, cfg, 1);
    assert Amount(0, cfg) == 0;
    if NeverRisesFromZero(cfg) {
      assert Amount(1, cfg) <= Amount(0, cfg);
    }
    if AttainedTiersOrdered(cfg) && Reward(cfg, Tier(cfg, 1).0) == 0 {
      forall m: u32, n: u32 | m <= n ensures Amount(n, cfg) <= Amount(m, cfg) {
        if m == 0 && n > 0 {
          assert Amount(n, cfg) <= Amount(1, cfg);
        }
      }
    }
  }

  ghost predicate NeverRisesFromZero(cfg: SLAConfig)
  {
    forall m: u32, n: u32 | m <= n :: Amount(n, cfg) <= Amount(m, cfg)
  }

  /** One minute earns nothing exactly when base times the multiplier of its tier is below
      100; which tier that is depends on the threshold alone. */
  lemma FirstMinuteEarnsNothingExactly(severity: Symbol, cfg: SLAConfig)
    requires Bounded(severity, cfg)
    ensures Tier(cfg, 1).1 == if cfg.threshold >= 3 then TOP else if cfg.threshold == 2 then EXCEL else GOOD
    ensures Reward(cfg, Tier(cfg, 1).0) == 0 <==> cfg.reward * Tier(cfg, 1).0 < 100
  {
    TierByProduct(cfg, 1);
    AmountWhenMet(severity, cfg, 1);
  }

  /** The default critical tier is such a case: 0 minutes pay 0, one minute pays 1500. */
  lemma ZeroMttrBreaksMonotonicity()
    ensures var cfg := SLAConfig(15, 100, 750, 200, 150, 100);
            Bounded(CRITICAL, cfg) && Amount(0, cfg) == 0 && Amount(1, cfg) == 1500 && !NeverRisesFromZero(cfg)
  {
    var cfg := SLAConfig(15, 100, 750, 200, 150, 100);
    assert Amount(1, cfg) > Amount(0, cfg);
  }
}
