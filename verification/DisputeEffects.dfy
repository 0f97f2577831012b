/** What each call of the dispute module accomplishes: what it stores, whom it pays, and
    when it is refused. */
module DisputeEffects {
  import opened Ints
  import opened SlaTypes
  import opened DisputeState
  import opened DisputeRuns

  // ------------------------------------------------------------------- voting

  lemma {:induction false} CountedVoteExists(votes: seq<Vote>, decision: Decision)
    ensures CountVotes(votes, decision) > 0 <==> exists v :: v in votes && v.decision == decision
  {
    if |votes| > 0 {
      var n := |votes| - 1;
      CountedVoteExists(votes[..n], decision);
      assert votes == votes[..n] + [votes[n]];
    }
  }

  /** The text a quorum leaves on a dispute. */
  function NoteFor(decision: Decision): string
  {
    match decision
    case UpholdOutage => "Auto-resolved: arbitrator quorum upheld the outage breach"
    case DismissOutage => "Auto-resolved: arbitrator quorum dismissed the outage breach"
  }

  /** The vote of a new, admitted arbitrator on an active dispute is stored after the earlier
      ones, and settles the dispute, for its side, exactly when an earlier vote agrees. */
  lemma {:induction false} VoteIsStored(s: State, now: u64, caller: Address, id: Symbol, decision: Decision,
      frivolous: bool)
    requires AllWellVoted(s) && id in s.disputes && s.disputes[id].status.IsActive()
    requires Admits(s.disputes[id], caller) && caller !in s.disputes[id].voters
    ensures var d := s.disputes[id];
            var done := DoCastVote(s, now, caller, id, decision, frivolous);
            && id in done.0.disputes && done.1.Done?
            && done.0.disputes[id].voters == d.voters + [caller]
            && done.0.disputes[id].votes == d.votes + [Vote(caller, decision, frivolous)]
            && (done.0.disputes[id].status.Resolved? <==> exists v :: v in d.votes && v.decision == decision)
            && (done.1.value.Some? <==> done.0.disputes[id].status.Resolved?)
            && (done.1.value.Some? ==> && id in done.0.payouts && done.0.payouts[id] == done.1.value.value
                                       && done.1.value.value.upheld == (decision == UpholdOutage)
                                       && done.0.disputes[id].resolvedBy == Some(caller)
                                       && done.0.disputes[id].resolution == Some(NoteFor(decision)))
            && (done.1.value.None? ==> done.0.disputes[id].status == d.status && done.0.payouts == s.payouts)
  {
    var d := s.disputes[id];
    QuorumIsSecondVote(d, caller, decision, frivolous);
    CountedVoteExists(d.votes, decision);
  }

  /** A vote is refused without effect for an unknown or inactive dispute and for an
      arbitrator who is not admitted; a second vote of the same arbitrator is accepted
      without effect. */
  lemma {:induction false} OtherVotesChangeNothing(s: State, now: u64, caller: Address, id: Symbol, decision: Decision,
                                                   frivolous: bool)
    requires AllWellVoted(s)
    ensures var done := DoCastVote(s, now, caller, id, decision, frivolous);
            && (id !in s.disputes ==> done == (s, Failed(UnknownDispute)))
            && (id in s.disputes && !s.disputes[id].status.IsActive() ==> done == (s, Failed(DisputeNotActive)))
            && (id in s.disputes && s.disputes[id].status.IsActive() ==>
                  && (!Admits(s.disputes[id], caller) ==> done == (s, Failed(InvalidArbitratorPanel)))
                  && (Admits(s.disputes[id], caller) && caller in s.disputes[id].voters ==> done == (s, Done(None))))
  {
    if id in s.disputes && s.disputes[id].status.IsActive() && caller in s.disputes[id].voters {
      QuorumIsSecondVote(s.disputes[id], caller, decision, frivolous);
      assert s.disputes[id := s.disputes[id]] == s.disputes;
    }
  }

  /** Two states hold the same under `id`. */
  predicate SameUnder(s: State, s': State, id: Symbol)
  {
    && (id in s.disputes <==> id in s'.disputes) && (id in s.disputes ==> s'.disputes[id] == s.disputes[id])
    && (id in s.payouts <==> id in s'.payouts) && (id in s.payouts ==> s'.payouts[id] == s.payouts[id])
  }

  lemma {:induction false} OtherCallsLeave(s: State, call: Call, id: Symbol)
    requires call.id != id || call.op.OfficeChanges?
    ensures SameUnder(s, Step(s, call), id)
  {
    StepEffect(s, call);
  }

  lemma {:induction false} UntouchedBetween(admin: Option<Address>, calls: seq<Call>, i: nat, j: nat, id: Symbol)
    requires i <= j <= |calls|
    requires forall c | c in calls[i..j] :: c.id != id || c.op.OfficeChanges?
    ensures SameUnder(StateAt(admin, calls, i), StateAt(admin, calls, j), id)
    decreases j
  {
    if i < j {
      assert calls[i..j] == calls[i..j - 1] + [calls[j - 1]];
      UntouchedBetween(admin, calls, i, j - 1, id);
      OtherCallsLeave(StateAt(admin, calls, j - 1), calls[j - 1], id);
      DisputeStateSteps(admin, calls, j - 1);
    }
  }

  lemma {:induction false} DisputeStateSteps(admin: Option<Address>, calls: seq<Call>, k: nat)
    requires k < |calls|
    ensures StateAt(admin, calls, k + 1) == Step(StateAt(admin, calls, k), calls[k])
  {
  }

  /** An active dispute under `id` in which both arbitrators may vote and neither has. */
  predicate OpenToBoth(s: State, id: Symbol, a: Address, b: Address)
  {
    && id in s.disputes && s.disputes[id].status.IsActive() && a != b
    && Admits(s.disputes[id], a) && Admits(s.disputes[id], b)
    && a !in s.disputes[id].voters && b !in s.disputes[id].voters
  }

  predicate ResolvedFor(s: State, id: Symbol, decision: Decision)
  {
    && id in s.disputes && s.disputes[id].status.Resolved?
    && id in s.payouts && s.payouts[id].upheld == (decision == UpholdOutage)
  }

  predicate IsVote(call: Call, id: Symbol, decision: Decision)
  {
    call.op.CastVote? && call.id == id && call.op.decision == decision
  }

  /** Two admitted arbitrators who have not voted yet and vote for the same side, with no
      other call on that dispute in between, leave it resolved for that side. */
  lemma {:induction false} TwoVotesSettle(admin: Option<Address>, calls: seq<Call>, i: nat, j: nat, id: Symbol,
      decision: Decision)
    requires i < j < |calls| && IsVote(calls[i], id, decision) && IsVote(calls[j], id, decision)
    requires OpenToBoth(StateAt(admin, calls, i), id, calls[i].caller, calls[j].caller)
    requires forall c | c in calls[i + 1..j] :: c.id != id || c.op.OfficeChanges?
    ensures ResolvedFor(StateAt(admin, calls, j + 1), id, decision)
  {
    var s, t := StateAt(admin, calls, i), StateAt(admin, calls, j);
    RunKeepsMoney(admin, calls, i);
    RunKeepsMoney(admin, calls, j);
    FirstVote(s, calls[i], id, decision, calls[j].caller);
    DisputeStateSteps(admin, calls, i);
    UntouchedBetween(admin, calls, i + 1, j, id);
    SecondVote(t, calls[j], id, decision);
    DisputeStateSteps(admin, calls, j);
  }

  /** After the first vote the dispute is resolved for its side, or waits for the second. */
  predicate Halfway(s: State, id: Symbol, decision: Decision, b: Address)
  {
    || ResolvedFor(s, id, decision)
    || (&& id in s.disputes && s.disputes[id].status.IsActive() && Admits(s.disputes[id], b)
        && b !in s.disputes[id].voters && exists v :: v in s.disputes[id].votes && v.decision == decision)
  }

  lemma {:induction false} FirstVote(s: State, call: Call, id: Symbol, decision: Decision, b: Address)
    requires AllWellVoted(s) && IsVote(call, id, decision) && OpenToBoth(s, id, call.caller, b)
    ensures Halfway(Step(s, call), id, decision, b)
  {
    VoteIsStored(s, call.now, call.caller, id, decision, call.op.frivolous);
    var d' := Step(s, call).disputes[id];
    assert d'.votes[|d'.votes| - 1] in d'.votes;
    StepEffect(s, call);
  }

  lemma {:induction false} SecondVote(s: State, call: Call, id: Symbol, decision: Decision)
    requires AllWellVoted(s) && IsVote(call, id, decision) && Halfway(s, id, decision, call.caller)
    ensures ResolvedFor(Step(s, call), id, decision)
  {
    if !ResolvedFor(s, id, decision) {
      VoteIsStored(s, call.now, call.caller, id, decision, call.op.frivolous);
    }
  }

  // --------------------------------------------------------------- settlements

  /** What a settlement leaves behind: the dispute it was handed, resolved, with the text,
      the resolver and the time; its payout; and nothing else changed but balances and
      pool. */
  lemma {:induction false} SettlementIsRecorded(s: State, now: u64, id: Symbol, f: Finish)
    ensures var (s', p) := Settle(s, now, id, f);
            && s'.admin == s.admin && s'.disputes.Keys == s.disputes.Keys + {id}
            && s'.payouts.Keys == s.payouts.Keys + {id}
            && (forall x | x in s.disputes && x != id :: s'.disputes[x] == s.disputes[x])
            && (forall x | x in s.payouts && x != id :: s'.payouts[x] == s.payouts[x])
            && s'.payouts[id] == p && p.upheld == f.upheld
            && s'.disputes[id].status.Resolved? && s'.disputes[id].resolution == Some(f.resolution)
            && s'.disputes[id].resolvedBy == Some(f.resolver) && s'.disputes[id].resolvedAt == Some(now)
            && SameFiling(f.dispute, s'.disputes[id]) && s'.disputes[id].votes == f.dispute.votes
            && s'.disputes[id].voters == f.dispute.voters && s'.disputes[id].panel == f.dispute.panel
            && s'.disputes[id].level == f.dispute.level
            && s'.disputes[id].evidenceHistory == f.dispute.evidenceHistory
            && s'.disputes[id].evidenceHash == f.dispute.evidenceHash
  {
  }

  /** A dispute settled against the outage pays its whole bond back and credits nobody. */
  lemma {:induction false} DismissalPaysBack(s: State, now: u64, id: Symbol, f: Finish)
    requires !f.upheld && !f.slash
    ensures Settle(s, now, id, f).1 == Payout(false, f.dispute.bond, 0, 0)
    ensures Settle(s, now, id, f).0.fees == s.fees && Settle(s, now, id, f).0.pool == s.pool
  {
  }

  /** So it is of every settlement of a run that was not upheld. */
  lemma {:induction false} NotUpheldPaysBack(admin: Option<Address>, calls: seq<Call>, k: nat, x: Settlement)
    requires k <= |calls| && x in RunTo(admin, calls, k).settled && !x.upheld
    ensures x.division == Division(x.bond, 0, 0, 0) && Credited(x) == 0 && Dust(x) == 0
  {
    RunKeepsMoney(admin, calls, k);
  }

  /** A dispute upheld without any vote pays its whole bond back as well. */
  lemma {:induction false} NoVoterNoFee(s: State, now: u64, id: Symbol, f: Finish)
    requires f.dispute.voters == [] && !f.slash
    ensures Settle(s, now, id, f).1 == Payout(f.upheld, f.dispute.bond, 0, 0) && Settle(s, now, id, f).0.fees == s.fees
  {
  }

  /** An ordinary bond upheld with votes is split without a remainder into the customer's part
      and the fee, the fee is 5% rounded down, and each distinct voter's balance rises by
      an equal share of it, rounded down. */
  lemma {:induction false} UpheldSplitsBond(s: State, now: u64, id: Symbol, f: Finish, a: Address)
    requires f.upheld && !f.slash && 0 <= f.dispute.bond <= I128_MAX / 500
    requires |f.dispute.voters| > 0 && Distinct(f.dispute.voters)
    requires 0 <= BalanceOf(s, a) <= I128_MAX / 2
    ensures var (s', p) := Settle(s, now, id, f);
            && p.customer + p.feeTotal == f.dispute.bond && p.feeTotal == f.dispute.bond * 5 / 100
            && p.share >= 0 && p.share * |f.dispute.voters| <= p.feeTotal < (p.share + 1) * |f.dispute.voters|
            && BalanceOf(s', a) == BalanceOf(s, a) + (if a in f.dispute.voters then p.share else 0)
            && s'.pool == s.pool
  {
    var n := |f.dispute.voters|;
    FeeIsFivePercentExactly(f.dispute.bond, n);
    var fee: nat := FeeOf(f.dispute.bond, n, true);
    ShareDust(fee, n);
    var share := TruncDiv(fee, n);
    assert (share + 1) * n == share * n + n;
    ShareBelow(share, n);
    CreditedOnce(s.fees, f.dispute.voters, share, a);
  }

  lemma ShareBelow(share: nat, n: nat)
    requires n > 0
    ensures share <= share * n
  {
  }

  function BalanceOf(s: State, a: Address): i128
  {
    if a in s.fees then s.fees[a] else 0
  }

  /** Each of distinct voters is credited once, and nobody else. */
  lemma {:induction false} CreditedOnce(fees: map<Address, i128>, voters: seq<Address>, share: i128, a: Address)
    requires Distinct(voters) && 0 <= share <= I128_MAX / 2
    requires a in fees ==> 0 <= fees[a] <= I128_MAX / 2
    ensures var credited := CreditAll(fees, voters, share);
            (if a in credited then credited[a] else 0) ==
            (if a in fees then fees[a] else 0) + (if a in voters then share else 0)
  {
    if |voters| > 0 {
      var n := |voters| - 1;
      CreditedOnce(fees, voters[..n], share, a);
      assert voters == voters[..n] + [voters[n]];
    }
  }

  /** A slashed bond goes to the pool whole: the customer and the voters get nothing. */
  lemma {:induction false} SlashTakesAll(s: State, now: u64, id: Symbol, f: Finish)
    requires f.slash && f.dispute.bond >= 0 && s.pool + f.dispute.bond <= I128_MAX
    ensures Settle(s, now, id, f).1 == Payout(f.upheld, 0, 0, 0)
    ensures Settle(s, now, id, f).0.fees == s.fees && Settle(s, now, id, f).0.pool == s.pool + f.dispute.bond
  {
  }

  /** The tally by the votes themselves: two votes for the outage uphold it, otherwise two
      against dismiss it; a slash needs exactly three votes, all against and frivolous. */
  lemma {:induction false} TallyExactly(votes: seq<Vote>)
    ensures Tally(votes).Some? <==> TwoVotesFor(votes, UpholdOutage) || TwoVotesFor(votes, DismissOutage)
    ensures Tally(votes).Some? ==> (Tally(votes).value.upheld <==> TwoVotesFor(votes, UpholdOutage))
    ensures Tally(votes).Some? && !Tally(votes).value.slash ==>
              Tally(votes).value.resolution ==
              NoteFor(if Tally(votes).value.upheld then UpholdOutage else DismissOutage)
    ensures Tally(votes).Some? && Tally(votes).value.slash ==>
              Tally(votes).value.resolution ==
              "Auto-resolved: unanimous frivolous dismissal, bond slashed to arbitration pool"
    ensures Tally(votes).Some? ==>
              (Tally(votes).value.slash <==>
                 |votes| == 3 && forall v | v in votes :: v.decision == DismissOutage && v.frivolous)
  {
    TwoVotesExactly(votes, UpholdOutage);
    TwoVotesExactly(votes, DismissOutage);
    VotesAreTwoSided(votes);
    if AllFrivolousDismiss(votes) {
      UpholdIsNotFrivolous(votes);
    }
  }

  ghost predicate TwoVotesFor(votes: seq<Vote>, decision: Decision)
  {
    exists i, j :: 0 <= i < j < |votes| && votes[i].decision == decision && votes[j].decision == decision
  }

  lemma {:induction false} TwoVotesExactly(votes: seq<Vote>, decision: Decision)
    ensures CountVotes(votes, decision) >= 2 <==> TwoVotesFor(votes, decision)
  {
    if |votes| > 0 {
      var n := |votes| - 1;
      TwoVotesExactly(votes[..n], decision);
      CountedVoteExists(votes[..n], decision);
      if votes[n].decision == decision && CountVotes(votes[..n], decision) == 1 {
        var v :| v in votes[..n] && v.decision == decision;
        var i :| 0 <= i < n && votes[..n][i] == v;
        assert votes[i].decision == decision && votes[n].decision == decision;
      }
      if TwoVotesFor(votes, decision) {
        var i, j :| 0 <= i < j < |votes| && votes[i].decision == decision && votes[j].decision == decision;
        if j < n {
          assert votes[..n][i].decision == decision && votes[..n][j].decision == decision;
        } else {
          assert votes[..n][i] in votes[..n];
        }
      }
      if CountVotes(votes[..n], decision) >= 2 {
        var i, j :| 0 <= i < j < n && votes[..n][i].decision == decision && votes[..n][j].decision == decision;
        assert votes[i].decision == decision && votes[j].decision == decision;
      }
    }
  }

  // --------------------------------------------------- filing, evidence, panel

  /** What a filing stores: the caller as filer, the outage, the bond and the time; open, at
      the first level, with nothing else on it. */
  lemma {:induction false} FilingIsRecorded(s: State, now: u64, caller: Address, id: Symbol, outage: Symbol, bond: i128)
    ensures var done := DoOpen(s, now, caller, id, outage, bond);
            && (done.1.Done? <==> |ActiveIds(s.disputes)| < 50)
            && (!done.1.Done? ==> done == (s, Failed(MaxActiveDisputesReached)))
            && (done.1.Done? ==>
                  && id in done.0.disputes && done.0.disputes.Keys == s.disputes.Keys + {id}
                  && done.0.disputes[id].openedBy == caller && done.0.disputes[id].openedAt == now
                  && done.0.disputes[id].outageId == outage && done.0.disputes[id].bond == bond
                  && done.0.disputes[id].status.Open? && done.0.disputes[id].level.L1Support?
                  && done.0.disputes[id].resolution.None? && done.0.disputes[id].resolvedBy.None?
                  && done.0.disputes[id].resolvedAt.None?
                  && done.0.disputes[id].votes == [] && done.0.disputes[id].voters == []
                  && done.0.disputes[id].panel == [] && done.0.disputes[id].evidenceHistory == []
                  && forall x | x in s.disputes && x != id :: done.0.disputes[x] == s.disputes[x])
  {
  }

  lemma {:induction false} FilingKept(s: State, call: Call, id: Symbol)
    requires id in Step(s, call).disputes && !(Opens(s, call) && call.id == id)
    ensures id in s.disputes && SameFiling(s.disputes[id], Step(s, call).disputes[id])
  {
    StepEffect(s, call);
    if Finishes(s, call).Some? {
      FinishKeepsRecord(s, call);
    }
  }

  /** The states that a run goes through, from empty storage. */
  ghost predicate IsRun(admin: Option<Address>, calls: seq<Call>, states: seq<State>)
  {
    && |states| == |calls| + 1 && states[0] == State(admin, map[], map[], map[], 0)
    && forall k: nat | k < |calls| :: states[k + 1] == Step(states[k], calls[k])
  }

  /** Every sequence of calls has such states. */
  lemma {:induction false} StatesAlongAreARun(admin: Option<Address>, calls: seq<Call>, states: seq<State>)
    requires |states| == |calls| + 1 && forall k: nat | k <= |calls| :: states[k] == StateAt(admin, calls, k)
    ensures IsRun(admin, calls, states)
  {
    NothingFiledAtFirst(admin, calls);
    forall k: nat | k < |calls| ensures states[k + 1] == Step(states[k], calls[k]) {
      DisputeStateSteps(admin, calls, k);
    }
  }

  lemma {:induction false} NothingFiledAtFirst(admin: Option<Address>, calls: seq<Call>)
    ensures StateAt(admin, calls, 0) == State(admin, map[], map[], map[], 0)
  {
  }

  predicate Files(s: State, call: Call, id: Symbol)
  {
    call.id == id && Opens(s, call)
  }

  predicate FiledBy(d: Dispute, call: Call)
  {
    && call.op.OpenDispute? && d.outageId == call.op.outageId && d.bond == call.op.bond
    && d.openedBy == call.caller && d.openedAt == call.now
  }

  lemma {:induction false} FilingStep(s: State, call: Call, id: Symbol)
    requires id in Step(s, call).disputes
    ensures if Files(s, call, id) then FiledBy(Step(s, call).disputes[id], call)
            else id in s.disputes && SameFiling(s.disputes[id], Step(s, call).disputes[id])
  {
    if Files(s, call, id) {
      FilingIsRecorded(s, call.now, call.caller, id, call.op.outageId, call.op.bond);
    } else {
      FilingKept(s, call, id);
    }
  }

  /** In every reachable state a stored dispute carries the outage, filer, time and bond of
      the last filing under its id. */
  lemma {:induction false} FilingIsLast(admin: Option<Address>, calls: seq<Call>, states: seq<State>, k: nat,
      id: Symbol)
      returns (i: nat)
    requires IsRun(admin, calls, states) && k <= |calls| && id in states[k].disputes
    ensures i < k && Files(states[i], calls[i], id) && FiledBy(states[k].disputes[id], calls[i])
    ensures forall j: nat | i < j < k :: !Files(states[j], calls[j], id)
  {
    FilingStep(states[k - 1], calls[k - 1], id);
    if Files(states[k - 1], calls[k - 1], id) {
      i := k - 1;
    } else {
      i := FilingIsLast(admin, calls, states, k - 1, id);
    }
  }

  /** Evidence is taken from the filer of an active dispute and from no one else; it is then
      the last of the history and the current one. */
  lemma {:induction false} EvidenceExactly(s: State, caller: Address, id: Symbol, hash: Hash)
    ensures var done := DoAddEvidence(s, caller, id, hash);
            && (done.1.Done? <==>
                  id in s.disputes && s.disputes[id].openedBy == caller && s.disputes[id].status.IsActive())
            && (done.1.Done? ==> && id in done.0.disputes && done.0.disputes[id].evidenceHash == hash
                                 && done.0.disputes[id].evidenceHistory == s.disputes[id].evidenceHistory + [hash])
            && (!done.1.Done? ==> done == (s, Failed(if id !in s.disputes then UnknownDispute
                                                     else if s.disputes[id].openedBy != caller then NotDisputeFiler
                                                     else DisputeNotActive)))
  {
  }

  /** A panel of three named by the admin is the panel: afterwards its members may vote and
      nobody else. */
  lemma {:induction false} PanelExactly(s: State, caller: Address, id: Symbol, panel: seq<Address>, now: u64,
      a: Address)
    ensures var done := DoAssignPanel(s, caller, id, panel);
            && (done.1.Done? <==>
                  s.admin == Some(caller) && |panel| == 3 && id in s.disputes && s.disputes[id].status.IsActive())
            && (!done.1.Done? ==> done.0 == s)
            && (done.1.Done? ==>
                  (DoCastVote(done.0, now, a, id, UpholdOutage, false).1 == Failed(InvalidArbitratorPanel) <==>
                   a !in panel))
  {
  }

  /** The rulings that need no quorum, and when they are given. */
  lemma {:induction false} RulingsExactly(s: State, now: u64, caller: Address, id: Symbol, text: string, upheld: bool)
    ensures var ruled := DoResolve(s, now, caller, id, text, upheld);
            && (ruled.1.Done? <==> s.admin == Some(caller) && id in s.disputes && s.disputes[id].status.IsActive())
            && (!ruled.1.Done? ==> ruled.0 == s)
            && (ruled.1.Done? ==> && id in ruled.0.disputes && ruled.0.disputes[id].status.Resolved?
                                  && ruled.0.disputes[id].resolution == Some(text) && ruled.1.value.upheld == upheld
                                  && ruled.0.disputes[id].resolvedBy == Some(caller)
                                  && ruled.0.disputes[id].resolvedAt == Some(now))
    ensures var expired := DoAutoResolve(s, now, id);
            && (!expired.1.Done? ==> expired.0 == s)
            && (expired.1.Done? ==> && id in expired.0.disputes && expired.0.disputes[id].status.Resolved?
                                    && expired.0.disputes[id].resolution == Some(
                                         "Auto-resolved: arbitration window expired, defaulted in favor of filer")
                                    && expired.1.value.upheld && expired.0.disputes[id].resolvedAt == Some(now))
    ensures var dismissed := DoDismiss(s, now, caller, id);
            && (dismissed.1.Done? <==> s.admin == Some(caller) && id in s.disputes)
            && (!dismissed.1.Done? ==> dismissed.0 == s)
            && (dismissed.1.Done? ==>
                  && id in dismissed.0.disputes && dismissed.0.disputes[id].status.Dismissed?
                  && dismissed.0.disputes[id].resolvedBy == Some(caller)
                  && dismissed.0.disputes[id].resolvedAt == Some(now)
                  && dismissed.0.fees == s.fees && dismissed.0.payouts == s.payouts && dismissed.0.pool == s.pool)
  {
  }

  /** What the admin's calls say to anyone else. */
  lemma {:induction false} OnlyTheAdminRules(s: State, now: u64, caller: Address, id: Symbol, text: string,
                                             upheld: bool, panel: seq<Address>)
    requires s.admin != Some(caller)
    ensures var fault := if s.admin.None? then MissingAdmin else NotAdmin;
            && DoResolve(s, now, caller, id, text, upheld) == (s, Failed(fault))
            && DoDismiss(s, now, caller, id) == (s, Failed(fault))
            && DoEscalate(s, caller, id) == (s, Failed(fault))
            && DoAssignPanel(s, caller, id, panel) == (s, Failed(fault))
  {
  }
}
