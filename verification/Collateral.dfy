/** The collateral module of collateral_lock.rs as an object over its stored map. */
module Collateral {
  import opened Ints
  import opened SlaTypes
  import opened MapSums
  import opened CollateralState

  /** The locked amounts of the providers already visited. */
  function Visited(records: Records, remaining: set<Address>): map<Address, int>
  {
    map p | p in records && p !in remaining && records[p].state == Locked :: records[p].amount
  }

  lemma VisitNext(records: Records, remaining: set<Address>, p: Address)
    requires p in remaining && p in records
    ensures Visited(records, remaining - {p}) ==
            if records[p].state == Locked then Visited(records, remaining)[p := records[p].amount]
            else Visited(records, remaining)
    ensures p !in Visited(records, remaining)
  {
  }

  lemma {:induction false} VisitNextSum(records: Records, remaining: set<Address>, p: Address)
    requires p in remaining && p in records
    ensures MapSum(Visited(records, remaining - {p})) ==
            MapSum(Visited(records, remaining)) + if records[p].state == Locked then records[p].amount else 0
  {
    VisitNext(records, remaining, p);
    MapSumSet(Visited(records, remaining), p, records[p].amount);
  }

  lemma AllVisited(records: Records)
    ensures Visited(records, {}) == LockedAmounts(records) && Visited(records, records.Keys) == map[]
  {
  }

  class CollateralBook {
    var records: Records

    constructor ()
      ensures records == map[]
    {
      records := map[];
    }

    method LockCollateral(provider: Address, amount: i128, coverage: u32, at: u64) returns (r: Outcome<LockRecord>)
      modifies this
      ensures (records, r) == DoLock(old(records), provider, amount, coverage, at)
    {
      if amount < 0 {
        return Failed(NegativeAmount);
      }
      if amount == 0 {
        return Failed(ZeroAmount);
      }
      if coverage == 0 || coverage > MAX_COVERAGE_BPS {
        return Failed(CoverageOutOfRange);
      }
      if StateOf(records, provider) == Locked {
        return Failed(AlreadyLocked);
      }
      var record := LockRecord(amount, coverage, Locked, at, 0);
      records := records[provider := record];
      r := Done(record);
    }

    method PayoutFromCollateral(provider: Address, penalty: i128, at: u64) returns (r: Outcome<i128>)
      modifies this
      ensures (records, r) == DoPayout(old(records), provider, penalty, at)
    {
      r := Verify(records, provider, penalty);
      if r.Failed? {
        return;
      }
      var record := records[provider];
      if penalty > record.amount {
        return Failed(PayoutExceedsLocked);
      }
      record := record.(amount := record.amount - penalty);
      record := record.(state := if record.amount == 0 then Released else Locked);
      record := record.(releasedAt := if record.amount == 0 then at else 0);
      records := records[provider := record];
      r := Done(penalty);
    }

    method ReleaseCollateral(provider: Address, at: u64) returns (r: Outcome<i128>)
      modifies this
      ensures (records, r) == DoRelease(old(records), provider, at)
    {
      if StateOf(records, provider) == Released {
        return Failed(AlreadyReleased);
      }
      if provider !in records {
        return Failed(NotLocked);
      }
      var record := records[provider];
      if record.state != Locked {
        return Failed(NotLocked);
      }
      var released := record.amount;
      record := record.(state := Released, releasedAt := at);
      records := records[provider := record];
      r := Done(released);
    }

    /** Visits the providers in any order. */
    method LockedAmountsBySite() returns (out: map<Address, int>)
      ensures out == LockedAmounts(records)
    {
      out := map[];
      AllVisited(records);
      var remaining := records.Keys;
      while remaining != {}
        invariant remaining <= records.Keys
        invariant out == Visited(records, remaining)
        decreases |remaining|
      {
        var p :| p in remaining;
        VisitNext(records, remaining, p);
        remaining := remaining - {p};
        if records[p].state == Locked {
          out := out[p := records[p].amount];
        }
      }
    }

    /** The total is added up in an i128 and wraps; over the integers it is the sum of
        `LockedAmountsBySite`, in whatever order the map is visited. */
    method TotalLocked() returns (total: i128)
      ensures total == WrapI128(MapSum(LockedAmounts(records)))
      ensures I128_MIN <= MapSum(LockedAmounts(records)) <= I128_MAX ==> total == MapSum(LockedAmounts(records))
    {
      total := 0;
      AllVisited(records);
      var remaining := records.Keys;
      while remaining != {}
        invariant remaining <= records.Keys
        invariant total == WrapI128(MapSum(Visited(records, remaining)))
        decreases |remaining|
      {
        var p :| p in remaining;
        VisitNextSum(records, remaining, p);
        if records[p].state == Locked {
          WrapI128Add(MapSum(Visited(records, remaining)), records[p].amount);
          total := WrapI128(total + records[p].amount);
        }
        remaining := remaining - {p};
      }
    }
  }
}
