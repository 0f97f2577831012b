/** The dispute module of dispute.rs as an object over its five stored entries, each
    function proved equal to its specification in `DisputeState`. */
module Disputes {
  import opened Ints
  import opened SlaTypes
  import opened DisputeState

  class DisputeBook {
    var admin: Option<Address>
    var disputes: map<Symbol, Dispute>
    var fees: map<Address, i128>
    var payouts: map<Symbol, Payout>
    var pool: i128

    function Stored(): State
      reads this
    {
      State(admin, disputes, fees, payouts, pool)
    }

    constructor (admin: Option<Address>)
      ensures Stored() == State(admin, map[], map[], map[], 0)
    {
      this.admin := admin;
      disputes, fees, payouts, pool := map[], map[], map[], 0;
    }

    /** `count_active_disputes`; the order of the map does not matter. */
    method CountActive() returns (count: nat)
      ensures count == |ActiveIds(disputes)|
    {
      count := 0;
      var remaining := disputes.Keys;
      ghost var counted: set<Symbol> := {};
      while remaining != {}
        invariant remaining <= disputes.Keys
        invariant counted == set id | id in disputes && id !in remaining && disputes[id].status.IsActive()
        invariant count == |counted|
        decreases |remaining|
      {
        var id :| id in remaining;
        remaining := remaining - {id};
        if disputes[id].status.IsActive() {
          count := count + 1;
          counted := counted + {id};
        }
      }
      assert counted == ActiveIds(disputes);
    }

    /** The evidence hash handed in is not recorded. */
    method Open(now: u64, caller: Address, id: Symbol, outageId: Symbol, bond: i128, evidenceHash: Hash)
      returns (r: Outcome<()>)
      modifies this
      ensures (Stored(), r) == DoOpen(old(Stored()), now, caller, id, outageId, bond)
    {
      var active := CountActive();
      if active >= MAX_ACTIVE_DISPUTES {
        return Failed(MaxActiveDisputesReached);
      }
      var initial: seq<Hash> := [];
      if evidenceHash != NO_EVIDENCE {
        initial := initial + [evidenceHash];
      }
      var dispute := Dispute(outageId, caller, now, Status.Open, L1Support, None, None, None, bond, NO_EVIDENCE,
                             [], [], [], [], WrapU64(now + ARBITRATION_WINDOW_SECS));
      disputes := disputes[id := dispute];
      r := Done(());
    }

    method Escalate(caller: Address, id: Symbol) returns (r: Outcome<()>)
      modifies this
      ensures (Stored(), r) == DoEscalate(old(Stored()), caller, id)
    {
      var fault := AdminFault(Stored(), caller);
      if fault.Some? {
        return Failed(fault.value);
      }
      if id !in disputes {
        return Failed(UnknownDispute);
      }
      var dispute := disputes[id];
      if !dispute.status.Open? && !dispute.status.UnderReview? {
        return Failed(InvalidTransition);
      }
      match dispute.level {
        case L1Support => dispute := dispute.(level := L2Engineering);
        case L2Engineering => dispute := dispute.(level := L3Management);
        case L3Management => return Failed(InvalidTransition);
      }
      dispute := dispute.(status := Escalated);
      disputes := disputes[id := dispute];
      r := Done(());
    }

    method AddEvidence(caller: Address, id: Symbol, hash: Hash) returns (r: Outcome<()>)
      modifies this
      ensures (Stored(), r) == DoAddEvidence(old(Stored()), caller, id, hash)
    {
      if id !in disputes {
        return Failed(UnknownDispute);
      }
      var dispute := disputes[id];
      if dispute.openedBy != caller {
        return Failed(NotDisputeFiler);
      }
      if !dispute.status.IsActive() {
        return Failed(DisputeNotActive);
      }
      dispute := dispute.(evidenceHistory := dispute.evidenceHistory + [hash]);
      dispute := dispute.(evidenceHash := hash);
      disputes := disputes[id := dispute];
      r := Done(());
    }

    method AssignPanel(caller: Address, id: Symbol, panel: seq<Address>) returns (r: Outcome<()>)
      modifies this
      ensures (Stored(), r) == DoAssignPanel(old(Stored()), caller, id, panel)
    {
      var fault := AdminFault(Stored(), caller);
      if fault.Some? {
        return Failed(fault.value);
      }
      if |panel| != PANEL_SIZE {
        return Failed(InvalidArbitratorPanel);
      }
      if id !in disputes {
        return Failed(UnknownDispute);
      }
      if !disputes[id].status.IsActive() {
        return Failed(DisputeNotActive);
      }
      disputes := disputes[id := disputes[id].(panel := panel)];
      r := Done(());
    }

    /** `try_tally_quorum`: one pass over the votes with two counters and a flag. */
    method TallyQuorum(votes: seq<Vote>) returns (won: Option<Verdict>)
      ensures won == Tally(votes)
    {
      var uphold, dismiss, allFrivolous := 0, 0, true;
      var i := 0;
      while i < |votes|
        invariant 0 <= i <= |votes|
        invariant uphold == CountVotes(votes[..i], UpholdOutage)
        invariant dismiss == CountVotes(votes[..i], DismissOutage)
        invariant allFrivolous == AllFrivolousDismiss(votes[..i])
        invariant uphold + dismiss == i
      {
        assert votes[..i + 1][..i] == votes[..i];
        assert votes[..i + 1] == votes[..i] + [votes[i]];
        match votes[i].decision {
          case UpholdOutage =>
            uphold := uphold + 1;
            allFrivolous := false;
          case DismissOutage =>
            dismiss := dismiss + 1;
            if !votes[i].frivolous {
              allFrivolous := false;
            }
        }
        i := i + 1;
      }
      assert votes[..i] == votes;
      if uphold >= QUORUM {
        return Some(Verdict(true, false, UPHELD_NOTE));
      }
      if dismiss >= QUORUM {
        var slash := uphold + dismiss == PANEL_SIZE && allFrivolous;
        return Some(Verdict(false, slash, if slash then SLASHED_NOTE else DISMISSED_NOTE));
      }
      won := None;
    }

    method CastVote(now: u64, caller: Address, id: Symbol, decision: Decision, frivolous: bool)
      returns (r: Outcome<Option<Payout>>)
      modifies this
      ensures (Stored(), r) == DoCastVote(old(Stored()), now, caller, id, decision, frivolous)
    {
      if id !in disputes {
        return Failed(UnknownDispute);
      }
      var dispute := disputes[id];
      if !dispute.status.IsActive() {
        return Failed(DisputeNotActive);
      }
      if |dispute.panel| > 0 && caller !in dispute.panel {
        return Failed(InvalidArbitratorPanel);
      }
      if caller !in dispute.voters {
        dispute := dispute.(voters := dispute.voters + [caller],
                            votes := dispute.votes + [Vote(caller, decision, frivolous)]);
      }
      var won := TallyQuorum(dispute.votes);
      if won.Some? {
        var payout := SettleDispute(now, id, dispute, caller, won.value.resolution, won.value.upheld, won.value.slash);
        return Done(Some(payout));
      }
      disputes := disputes[id := dispute];
      r := Done(None);
    }

    method Resolve(now: u64, caller: Address, id: Symbol, resolution: string, upheld: bool) returns (r: Outcome<Payout>)
      modifies this
      ensures (Stored(), r) == DoResolve(old(Stored()), now, caller, id, resolution, upheld)
    {
      var fault := AdminFault(Stored(), caller);
      if fault.Some? {
        return Failed(fault.value);
      }
      if id !in disputes {
        return Failed(UnknownDispute);
      }
      if !disputes[id].status.IsActive() {
        return Failed(InvalidTransition);
      }
      var payout := SettleDispute(now, id, disputes[id], caller, resolution, upheld, false);
      r := Done(payout);
    }

    method AutoResolve(now: u64, id: Symbol) returns (r: Outcome<Payout>)
      modifies this
      ensures (Stored(), r) == DoAutoResolve(old(Stored()), now, id)
    {
      if id !in disputes {
        return Failed(UnknownDispute);
      }
      if !disputes[id].status.IsActive() {
        return Failed(DisputeNotActive);
      }
      if now <= disputes[id].deadline {
        return Failed(ArbitrationWindowNotExpired);
      }
      var payout := SettleDispute(now, id, disputes[id], disputes[id].openedBy, EXPIRED_NOTE, true, false);
      r := Done(payout);
    }

    /** The crediting loop of `settle_dispute`. */
    method CreditVoters(voters: seq<Address>, share: i128)
      modifies this`fees
      ensures fees == CreditAll(old(fees), voters, share)
    {
      var i := 0;
      while i < |voters|
        invariant 0 <= i <= |voters|
        invariant fees == CreditAll(old(fees), voters[..i], share)
      {
        assert voters[..i + 1][..i] == voters[..i];
        var owed := if voters[i] in fees then fees[voters[i]] else 0;
        fees := fees[voters[i] := WrapI128(owed + share)];
        i := i + 1;
      }
      assert voters[..i] == voters;
    }

    method SettleDispute(now: u64, id: Symbol, dispute: Dispute, resolver: Address, resolution: string,
                         upheld: bool, slash: bool)
      returns (payout: Payout)
      modifies this
      ensures (Stored(), payout) == Settle(old(Stored()), now, id, Finish(dispute, resolver, resolution, upheld, slash))
    {
      var resolved := dispute.(status := Resolved, resolution := Some(resolution), resolvedBy := Some(resolver),
                               resolvedAt := Some(now));
      var voterCount := |resolved.voters|;
      var customer: i128, feeTotal: i128, share: i128, poolAmount: i128 := 0, 0, 0, 0;
      if slash {
        poolAmount := resolved.bond;
      } else {
        if upheld && voterCount > 0 {
          feeTotal := TruncDiv(WrapI128(resolved.bond * ARBITRATOR_FEE_BPS), BPS_DENOMINATOR);
        }
        if voterCount > 0 {
          share := TruncDiv(feeTotal, voterCount);
        }
        customer := WrapI128(resolved.bond - feeTotal);
      }
      payout := Payout(upheld, customer, feeTotal, share);
      if share > 0 {
        CreditVoters(resolved.voters, share);
      }
      if poolAmount > 0 {
        pool := WrapI128(pool + poolAmount);
      }
      payouts := payouts[id := payout];
      disputes := disputes[id := resolved];
    }

    method Dismiss(now: u64, caller: Address, id: Symbol) returns (r: Outcome<()>)
      modifies this
      ensures (Stored(), r) == DoDismiss(old(Stored()), now, caller, id)
    {
      var fault := AdminFault(Stored(), caller);
      if fault.Some? {
        return Failed(fault.value);
      }
      if id !in disputes {
        return Failed(UnknownDispute);
      }
      var dispute := disputes[id];
      dispute := dispute.(status := Dismissed);
      dispute := dispute.(resolvedBy := Some(caller));
      dispute := dispute.(resolvedAt := Some(now));
      disputes := disputes[id := dispute];
      r := Done(());
    }
  }
}
