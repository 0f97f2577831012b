/** Provider collateral (collateral_lock.rs): what each call does, and what every run
    conserves. */
module CollateralState {
  import opened Ints
  import opened SlaTypes
  import opened MapSums

  const BPS_DENOMINATOR: int := 10000
  const MAX_COVERAGE_BPS: int := 20000

  datatype LockState = Unlocked | Locked | Released

  datatype LockRecord = LockRecord(amount: i128, coverage: u32, state: LockState, lockedAt: u64, releasedAt: u64)

  datatype LockError =
    | ZeroAmount | NegativeAmount | CoverageOutOfRange | AlreadyLocked | NotLocked | AlreadyReleased
    | ZeroPenalty | NegativePenalty | PenaltyExceedsCoverage | PayoutExceedsLocked

  datatype Outcome<+T> = Done(value: T) | Failed(error: LockError)

  type Records = map<Address, LockRecord>

  function StateOf(s: Records, provider: Address): LockState
  {
    if provider in s then s[provider].state else Unlocked
  }

  /** `coverage_capacity`. The product is a plain i128 multiplication and wraps. */
  function Capacity(s: Records, provider: Address): int
  {
    if StateOf(s, provider) == Locked then
      TruncDiv(WrapI128(s[provider].amount * s[provider].coverage), BPS_DENOMINATOR)
    else 0
  }

  function DoLock(s: Records, provider: Address, amount: i128, coverage: u32, at: u64): (Records, Outcome<LockRecord>)
  {
    if amount < 0 then (s, Failed(NegativeAmount))
    else if amount == 0 then (s, Failed(ZeroAmount))
    else if coverage == 0 || coverage > MAX_COVERAGE_BPS then (s, Failed(CoverageOutOfRange))
    else if StateOf(s, provider) == Locked then (s, Failed(AlreadyLocked))
    else
      var record := LockRecord(amount, coverage, Locked, at, 0);
      (s[provider := record], Done(record))
  }

  function Verify(s: Records, provider: Address, penalty: i128): Outcome<i128>
  {
    if penalty < 0 then Failed(NegativePenalty)
    else if penalty == 0 then Failed(ZeroPenalty)
    else if StateOf(s, provider) != Locked then Failed(NotLocked)
    else if penalty > Capacity(s, provider) then Failed(PenaltyExceedsCoverage)
    else Done(penalty)
  }

  function DoPayout(s: Records, provider: Address, penalty: i128, at: u64): (Records, Outcome<i128>)
  {
    if Verify(s, provider, penalty).Failed? then (s, Verify(s, provider, penalty))
    else
      var record := s[provider];
      if penalty > record.amount then (s, Failed(PayoutExceedsLocked))
      else
        var remaining := record.amount - penalty;
        (s[provider := record.(amount := remaining,
                               state := if remaining == 0 then Released else Locked,
                               releasedAt := if remaining == 0 then at else 0)],
         Done(penalty))
  }

  function DoRelease(s: Records, provider: Address, at: u64): (Records, Outcome<i128>)
  {
    if StateOf(s, provider) == Released then (s, Failed(AlreadyReleased))
    else if provider !in s || s[provider].state != Locked then (s, Failed(NotLocked))
    else (s[provider := s[provider].(state := Released, releasedAt := at)], Done(s[provider].amount))
  }

  /** `locked_amounts_by_site`. */
  function LockedAmounts(s: Records): map<Address, int>
  {
    map p | p in s && s[p].state == Locked :: s[p].amount
  }

  // ------------------------------------------------------------ coverage of one lock

  /** A payout never exceeds the covered share of what is locked, wrap or no wrap; the
      capacity is exactly that share precisely when the product fits an i128. */
  lemma {:induction false} CapacityBelowCoveredShare(s: Records, provider: Address)
    requires StateOf(s, provider) == Locked && s[provider].amount >= 0 && s[provider].coverage <= MAX_COVERAGE_BPS
    ensures var product := s[provider].amount * s[provider].coverage;
            && Capacity(s, provider) <= product / BPS_DENOMINATOR
            && (Capacity(s, provider) == product / BPS_DENOMINATOR <==> product <= I128_MAX)
  {
    var product := s[provider].amount * s[provider].coverage;
    NonNegativeProduct(s[provider].amount, s[provider].coverage);
    WrapBelow(product);
  }

  lemma NonNegativeProduct(a: nat, b: nat)
    ensures a * b >= 0
  {
  }

  lemma WrapBelow(x: nat)
    ensures WrapI128(x) <= x
    ensures x > I128_MAX ==> WrapI128(x) <= x - (U128_MAX + 1)
    ensures x > I128_MAX ==> TruncDiv(WrapI128(x), 10000) < x / 10000
  {
    var w: int := WrapI128(x);
    assert (x - w) % (U128_MAX + 1) == 0;
    if x > I128_MAX {
      assert x > w;
      assert (x - w) / (U128_MAX + 1) >= 1;
    }
  }

  function Pow(b: nat, k: nat): nat
    decreases k
  {
    if k == 0 then 1 else b * Pow(b, k - 1)
  }

  lemma {:induction false} PowPositive(b: nat, k: nat)
    requires b > 0
    ensures Pow(b, k) > 0
    decreases k
  {
    if k > 0 {
      PowPositive(b, k - 1);
      assert b * Pow(b, k - 1) >= Pow(b, k - 1);
    }
  }

  /** The residual after `k` payouts from a lock of `original` at `c` basis points. */
  predicate GeometricBound(residual: int, original: int, c: int, k: nat)
    requires 0 <= c <= BPS_DENOMINATOR
  {
    Pow(10000, k) * residual >= Pow(10000 - c, k) * original
  }

  lemma ScaleInequality(k: nat, x: int, y: int)
    requires x <= y
    ensures k * x <= k * y
  {
  }

  /** One payout takes at most the share c/10000 of what is left. */
  lemma {:induction false} GeometricStep(residual: nat, original: int, c: nat, k: nat, penalty: nat)
    requires c <= BPS_DENOMINATOR && GeometricBound(residual, original, c, k)
    requires penalty <= residual * c / BPS_DENOMINATOR
    ensures GeometricBound(residual - penalty, original, c, k + 1)
  {
    var a, b := Pow(10000, k), Pow(10000 - c, k);
    assert 10000 * penalty <= residual * c;
    assert 10000 * (residual - penalty) >= (10000 - c) * residual;
    ScaleInequality(a, (10000 - c) * residual, 10000 * (residual - penalty));
    ScaleInequality(10000 - c, b * original, a * residual);
    assert Pow(10000, k + 1) * (residual - penalty) == a * (10000 * (residual - penalty)) by {
      Reassociate(10000, a, residual - penalty);
    }
    assert a * ((10000 - c) * residual) == (10000 - c) * (a * residual) by {
      Commute(a, 10000 - c, residual);
    }
    assert Pow(10000 - c, k + 1) * original == (10000 - c) * (b * original) by {
      Commute(10000 - c, b, original);
      Reassociate(10000 - c, b, original);
    }
  }

  /** A share below 100% is less than the whole. */
  lemma PartialShare(amount: nat, c: nat)
    requires amount > 0 && c < BPS_DENOMINATOR
    ensures amount * c / BPS_DENOMINATOR < amount
  {
    ScaleInequality(amount, c, BPS_DENOMINATOR - 1);
  }

  lemma Reassociate(x: int, y: int, z: int)
    ensures (x * y) * z == y * (x * z)
  {
  }

  lemma Commute(x: int, y: int, z: int)
    ensures x * (y * z) == y * (x * z)
    ensures (x * y) * z == x * (y * z)
  {
  }

  // ---------------------------------------------- when each call succeeds, and what it stores

  /** A lock is taken exactly for a positive amount and a coverage from 1 to 20000 on a
      provider without one, and is stored as asked. */
  lemma {:induction false} LockExactly(s: Records, p: Address, amount: i128, coverage: u32, at: u64)
    ensures var (s', r) := DoLock(s, p, amount, coverage, at);
            && (r.Done? <==> amount > 0 && 1 <= coverage <= 20000 && (p in s ==> s[p].state != Locked))
            && (r.Done? ==>
                  && s'.Keys == s.Keys + {p} && r.value == s'[p] && (forall q | q in s && q != p :: s'[q] == s[q])
                  && s'[p].amount == amount && s'[p].coverage == coverage && s'[p].state == Locked
                  && s'[p].lockedAt == at && s'[p].releasedAt == 0)
            && (r.Failed? ==>
                  && s' == s
                  && r.error == if amount < 0 then NegativeAmount else if amount == 0 then ZeroAmount
                                else if 1 <= coverage <= 20000 then AlreadyLocked else CoverageOutOfRange)
  {
  }

  /** A payout succeeds exactly for a positive penalty within capacity and amount of a lock; it
      touches only the amount, and the state and time of release of a drained lock. */
  lemma {:induction false} PayoutExactly(s: Records, p: Address, penalty: i128, at: u64)
    ensures var (s', r) := DoPayout(s, p, penalty, at);
            && (r.Done? <==>
                  penalty > 0 && p in s && s[p].state == Locked && penalty <= Capacity(s, p) && penalty <= s[p].amount)
            && (r.Done? ==>
                  && r.value == penalty && s'.Keys == s.Keys && (forall q | q in s && q != p :: s'[q] == s[q])
                  && s'[p].amount + penalty == s[p].amount && s'[p].coverage == s[p].coverage
                  && s'[p].lockedAt == s[p].lockedAt
                  && (s'[p].state == Released <==> s'[p].amount == 0)
                  && (s'[p].state != Released ==> s'[p].state == Locked)
                  && s'[p].releasedAt == if s'[p].amount == 0 then at else 0)
            && (r.Failed? ==>
                  && s' == s
                  && r.error == if penalty < 0 then NegativePenalty else if penalty == 0 then ZeroPenalty
                                else if p !in s || s[p].state != Locked then NotLocked
                                else if penalty > Capacity(s, p) then PenaltyExceedsCoverage else PayoutExceedsLocked)
  {
  }

  /** A release succeeds exactly on a lock, returns what is left, and only marks it. */
  lemma {:induction false} ReleaseExactly(s: Records, p: Address, at: u64)
    ensures var (s', r) := DoRelease(s, p, at);
            && (r.Done? <==> p in s && s[p].state == Locked)
            && (r.Done? ==>
                  && r.value == s[p].amount == s'[p].amount && s'.Keys == s.Keys && s'[p].state == Released
                  && s'[p].releasedAt == at && s'[p].coverage == s[p].coverage && s'[p].lockedAt == s[p].lockedAt
                  && forall q | q in s && q != p :: s'[q] == s[q])
            && (r.Failed? ==> s' == s)
            && (r.Failed? ==> r.error == if p in s && s[p].state == Released then AlreadyReleased else NotLocked)
  {
  }

  // ------------------------------------------------------------------ any run

  datatype Op =
    | Lock(amount: i128, coverage: u32)
    | Payout(penalty: i128)
    | Release

  datatype Call = Call(provider: Address, at: u64, op: Op)

  /** The current lock of one provider: what was locked, what it has paid, in how many
      payouts. */
  datatype Term = Term(original: int, paid: int, payouts: nat)

  datatype Trace = Trace(records: Records, locks: int, payouts: int, releases: int, terms: map<Address, Term>)

  function Advance(t: Trace, call: Call): Trace
  {
    match call.op
    case Lock(amount, coverage) =>
      var done := DoLock(t.records, call.provider, amount, coverage, call.at);
      if done.1.Failed? then t.(records := done.0)
      else t.(records := done.0, locks := t.locks + amount, terms := t.terms[call.provider := Term(amount, 0, 0)])
    case Payout(penalty) =>
      var done := DoPayout(t.records, call.provider, penalty, call.at);
      if done.1.Failed? || call.provider !in t.terms then t.(records := done.0)
      else
        var term := t.terms[call.provider];
        t.(records := done.0, payouts := t.payouts + done.1.value,
           terms := t.terms[call.provider := Term(term.original, term.paid + done.1.value, term.payouts + 1)])
    case Release =>
      var done := DoRelease(t.records, call.provider, call.at);
      if done.1.Failed? then t.(records := done.0)
      else t.(records := done.0, releases := t.releases + done.1.value)
  }

  function RunTo(calls: seq<Call>, k: nat): Trace
    requires k <= |calls|
  {
    if k == 0 then Trace(map[], 0, 0, 0, map[]) else Advance(RunTo(calls, k - 1), calls[k - 1])
  }

  /** A locked record is positive, splits its original lock with what it has paid, and
      respects the geometric bound. */
  predicate SoundLock(r: LockRecord, term: Term)
  {
    r.state == Locked ==>
      && r.amount > 0 && 1 <= r.coverage <= MAX_COVERAGE_BPS
      && term.original == term.paid + r.amount
      && (r.coverage <= BPS_DENOMINATOR ==> GeometricBound(r.amount, term.original, r.coverage, term.payouts))
  }

  ghost predicate Books(t: Trace)
  {
    && (forall p | p in t.records :: p in t.terms && SoundLock(t.records[p], t.terms[p]))
    && MapSum(LockedAmounts(t.records)) == t.locks - t.payouts - t.releases
  }

  lemma {:induction false} LockedAmountsSet(s: Records, p: Address, r: LockRecord)
    ensures MapSum(LockedAmounts(s[p := r])) ==
            MapSum(LockedAmounts(s)) + (if r.state == Locked then r.amount else 0)
            - (if p in s && s[p].state == Locked then s[p].amount else 0)
  {
    var m, m' := LockedAmounts(s), LockedAmounts(s[p := r]);
    if r.state == Locked {
      assert m' == m[p := r.amount];
      MapSumSet(m, p, r.amount);
    } else {
      assert m' == m - {p};
      MapSumDrop(m, p);
    }
  }

  lemma {:induction false} PayoutWithinShare(s: Records, p: Address, penalty: i128, at: u64)
    requires p in s && DoPayout(s, p, penalty, at).1.Done?
    requires s[p].state == Locked ==> s[p].amount >= 0 && s[p].coverage <= MAX_COVERAGE_BPS
    ensures s[p].state == Locked && 0 < penalty <= s[p].amount
    ensures penalty <= s[p].amount * s[p].coverage / BPS_DENOMINATOR
  {
    CapacityBelowCoveredShare(s, p);
  }

  lemma {:induction false} SmallerLockIsSound(r: LockRecord, term: Term, penalty: nat)
    requires r.state == Locked && SoundLock(r, term) && 0 < penalty < r.amount
    requires penalty <= r.amount * r.coverage / BPS_DENOMINATOR
    ensures SoundLock(r.(amount := r.amount - penalty), Term(term.original, term.paid + penalty, term.payouts + 1))
    ensures SoundLock(r.(amount := r.amount - penalty, releasedAt := 0),
        Term(term.original, term.paid + penalty, term.payouts + 1))
  {
    if r.coverage <= BPS_DENOMINATOR {
      GeometricStep(r.amount, term.original, r.coverage, term.payouts, penalty);
    }
  }

  lemma {:induction false} PayoutIsSound(s: Records, p: Address, penalty: i128, at: u64, term: Term)
    requires p in s && SoundLock(s[p], term) && DoPayout(s, p, penalty, at).1.Done?
    ensures var s' := DoPayout(s, p, penalty, at).0;
            && s[p].state == Locked && 0 < penalty <= s[p].amount
            && p in s' && s' == s[p := s'[p]]
            && s'[p].amount == s[p].amount - penalty
            && (s'[p].state == Locked <==> s'[p].amount > 0)
            && (s[p].coverage < BPS_DENOMINATOR ==> s'[p].state == Locked)
            && SoundLock(s'[p], Term(term.original, term.paid + penalty, term.payouts + 1))
  {
    PayoutWithinShare(s, p, penalty, at);
    if penalty < s[p].amount {
      SmallerLockIsSound(s[p], term, penalty);
    }
    if s[p].coverage < BPS_DENOMINATOR {
      PartialShare(s[p].amount, s[p].coverage);
    }
  }

  lemma {:induction false} LockKeepsBooks(t: Trace, call: Call)
    requires Books(t) && call.op.Lock?
    ensures Books(Advance(t, call))
  {
    LockedAmountsSet(t.records, call.provider, LockRecord(call.op.amount, call.op.coverage, Locked, call.at, 0));
  }

  lemma {:induction false} PayoutKeepsBooks(t: Trace, call: Call)
    requires Books(t) && call.op.Payout?
    ensures Books(Advance(t, call))
  {
    var p := call.provider;
    if DoPayout(t.records, p, call.op.penalty, call.at).1.Done? {
      PayoutIsSound(t.records, p, call.op.penalty, call.at, t.terms[p]);
      LockedAmountsSet(t.records, p, DoPayout(t.records, p, call.op.penalty, call.at).0[p]);
    }
  }

  lemma {:induction false} ReleaseKeepsBooks(t: Trace, call: Call)
    requires Books(t) && call.op.Release?
    ensures Books(Advance(t, call))
  {
    if DoRelease(t.records, call.provider, call.at).1.Done? {
      LockedAmountsSet(t.records, call.provider, DoRelease(t.records, call.provider, call.at).0[call.provider]);
    }
  }

  lemma {:induction false} StepKeepsBooks(t: Trace, call: Call)
    requires Books(t)
    ensures Books(Advance(t, call))
  {
    match call.op {
      case Lock(_, _) => LockKeepsBooks(t, call);
      case Payout(_) => PayoutKeepsBooks(t, call);
      case Release => ReleaseKeepsBooks(t, call);
    }
  }

  lemma {:induction false} RunKeepsBooks(calls: seq<Call>, k: nat)
    requires k <= |calls|
    ensures Books(RunTo(calls, k))
  {
    if k > 0 {
      RunKeepsBooks(calls, k - 1);
      StepKeepsBooks(RunTo(calls, k - 1), calls[k - 1]);
    } else {
      assert LockedAmounts(map[]) == map[];
    }
  }

  /** Over any run, what is locked is what was locked minus what was paid out minus what
      was released. */
  lemma {:induction false} CollateralIsConserved(calls: seq<Call>, k: nat)
    requires k <= |calls|
    ensures var t := RunTo(calls, k);
            MapSum(LockedAmounts(t.records)) == t.locks - t.payouts - t.releases >= 0
  {
    RunKeepsBooks(calls, k);
    LockedNonNegative(LockedAmounts(RunTo(calls, k).records));
  }

  /** Call `i` of a run locked collateral for `p`. */
  predicate LocksAt(calls: seq<Call>, i: nat, p: Address)
    requires i < |calls|
  {
    && calls[i].provider == p && calls[i].op.Lock?
    && DoLock(RunTo(calls, i).records, p, calls[i].op.amount, calls[i].op.coverage, calls[i].at).1.Done?
  }

  lemma {:induction false} TermsAfterCall(calls: seq<Call>, k: nat, p: Address)
    requires k < |calls|
    ensures var before, after, call := RunTo(calls, k).records, RunTo(calls, k + 1).records, calls[k];
            if LocksAt(calls, k, p) then
              p in after && after[p].coverage == call.op.coverage && after[p].lockedAt == call.at
            else (p in after <==> p in before)
                 && (p in after ==> after[p].coverage == before[p].coverage && after[p].lockedAt == before[p].lockedAt)
  {
    var s, call := RunTo(calls, k).records, calls[k];
    assert RunTo(calls, k + 1) == Advance(RunTo(calls, k), call);
    match call.op {
      case Lock(amount, coverage) => LockExactly(s, call.provider, amount, coverage, call.at);
      case Payout(penalty) => PayoutExactly(s, call.provider, penalty, call.at);
      case Release => ReleaseExactly(s, call.provider, call.at);
    }
  }

  /** In every reachable state a provider's coverage and lock time are those of its last
      accepted lock. */
  lemma {:induction false} CoverageIsLastLocked(calls: seq<Call>, k: nat, p: Address) returns (i: nat)
    requires k <= |calls| && p in RunTo(calls, k).records
    ensures i < k && LocksAt(calls, i, p)
    ensures RunTo(calls, k).records[p].coverage == calls[i].op.coverage
    ensures RunTo(calls, k).records[p].lockedAt == calls[i].at
    ensures forall j: nat | i < j < k :: !LocksAt(calls, j, p)
  {
    TermsAfterCall(calls, k - 1, p);
    if LocksAt(calls, k - 1, p) {
      i := k - 1;
    } else {
      i := CoverageIsLastLocked(calls, k - 1, p);
    }
  }

  /** The total that the code adds up, in an i128 that wraps, obeys the same law exactly when
      what the law promises fits an i128. */
  lemma {:induction false} TotalIsConservedExactly(calls: seq<Call>, k: nat)
    requires k <= |calls|
    ensures var t := RunTo(calls, k);
            WrapI128(MapSum(LockedAmounts(t.records))) == t.locks - t.payouts - t.releases
            <==> t.locks - t.payouts - t.releases <= I128_MAX
  {
    CollateralIsConserved(calls, k);
  }

  /** Two locks of 2^126 each: together one more than an i128 holds, so the total wraps to the
      least i128. */
  lemma {:induction false} TwoLocksWrapTheTotal()
    ensures var half: i128 := 0x4000_0000_0000_0000_0000_0000_0000_0000;
            var t := RunTo([Call(1, 0, Lock(half, 10000)), Call(2, 0, Lock(half, 10000))], 2);
            t.locks == I128_MAX + 1 && t.payouts == 0 == t.releases
            && WrapI128(MapSum(LockedAmounts(t.records))) == I128_MIN
  {
    var half: i128 := 0x4000_0000_0000_0000_0000_0000_0000_0000;
    var calls := [Call(1, 0, Lock(half, 10000)), Call(2, 0, Lock(half, 10000))];
    assert RunTo(calls, 1) == Advance(RunTo(calls, 0), calls[0]);
    assert RunTo(calls, 2) == Advance(RunTo(calls, 1), calls[1]);
    CollateralIsConserved(calls, 2);
  }

  lemma {:induction false} LockedNonNegative(m: map<Address, int>)
    requires forall p | p in m :: m[p] > 0
    ensures MapSum(m) >= 0
    decreases |m|
  {
    if m != map[] {
      var p :| p in m;
      MapSumTake(m, p);
      LockedNonNegative(m - {p});
    }
  }

  /** Within one lock of coverage c up to 100%: paid and residual add up to the original,
      and after k payouts 10000^k * residual >= (10000 - c)^k * original. */
  lemma {:induction false} ResidualIsBounded(calls: seq<Call>, k: nat, p: Address)
    requires k <= |calls| && p in RunTo(calls, k).records && RunTo(calls, k).records[p].state == Locked
    ensures var t := RunTo(calls, k);
            && p in t.terms && t.terms[p].paid + t.records[p].amount == t.terms[p].original
            && (t.records[p].coverage <= BPS_DENOMINATOR ==>
                  Pow(10000, t.terms[p].payouts) * t.records[p].amount
                  >= Pow(10000 - t.records[p].coverage, t.terms[p].payouts) * t.terms[p].original)
  {
    RunKeepsBooks(calls, k);
  }

  /** So payouts alone never drain a lock covered below 100%: after any payout that the
      run accepts it is still locked with something left. */
  lemma {:induction false} PayoutsNeverDrain(calls: seq<Call>, k: nat, p: Address, penalty: i128, at: u64)
    requires k <= |calls| && p in RunTo(calls, k).records && RunTo(calls, k).records[p].coverage < BPS_DENOMINATOR
    requires DoPayout(RunTo(calls, k).records, p, penalty, at).1.Done?
    ensures var after := DoPayout(RunTo(calls, k).records, p, penalty, at).0;
            p in after && after[p].state == Locked && after[p].amount > 0
  {
    RunKeepsBooks(calls, k);
    PayoutIsSound(RunTo(calls, k).records, p, penalty, at, RunTo(calls, k).terms[p]);
  }

  /** One payout can take a whole lock exactly when its capacity reaches its amount; while the
      product behind the capacity fits an i128, exactly when the coverage is full. */
  lemma {:induction false} DrainableExactly(calls: seq<Call>, k: nat, p: Address, at: u64)
    requires k <= |calls| && p in RunTo(calls, k).records && RunTo(calls, k).records[p].state == Locked
    ensures var s := RunTo(calls, k).records;
            var take := DoPayout(s, p, s[p].amount, at);
            && (take.1.Done? <==> Capacity(s, p) >= s[p].amount)
            && (take.1.Done? ==> p in take.0 && take.0[p].state == Released && take.0[p].amount == 0)
            && (s[p].amount * s[p].coverage <= I128_MAX ==> (take.1.Done? <==> s[p].coverage >= BPS_DENOMINATOR))
            && (s[p].coverage < BPS_DENOMINATOR ==> !take.1.Done?)
  {
    var s := RunTo(calls, k).records;
    RunKeepsBooks(calls, k);
    assert SoundLock(s[p], RunTo(calls, k).terms[p]);
    CapacityBelowCoveredShare(s, p);
    if s[p].coverage < BPS_DENOMINATOR {
      PartialShare(s[p].amount, s[p].coverage);
    } else {
      ScaleInequality(s[p].amount, BPS_DENOMINATOR, s[p].coverage);
    }
  }

  /** At full coverage one payout can take everything. */
  lemma FullCoverageCanDrain()
    ensures var s: Records := map[1 := LockRecord(500, 10000, Locked, 0, 0)];
            var after := DoPayout(s, 1, 500, 9);
            after.1 == Done(500) && after.0[1].state == Released && after.0[1].amount == 0
  {
  }
}
