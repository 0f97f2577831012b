/** What every run of the dispute module keeps: who may win, who is paid, and where
    every posted bond ends up. Runs are arbitrary sequences of calls. */
module DisputeRuns {
  import opened Ints
  import opened SlaTypes
  import opened MapSums
  import opened DisputeState

  // ------------------------------------------------ what one call can change

  predicate Opens(s: State, call: Call)
  {
    call.op.OpenDispute? && |ActiveIds(s.disputes)| < MAX_ACTIVE_DISPUTES
  }

  predicate Dismisses(s: State, call: Call)
  {
    call.op.Dismiss? && AdminFault(s, call.caller).None? && call.id in s.disputes
  }

  /** How a call finishes a dispute by settlement, if it does: a vote that completes a
      quorum, a ruling by the admin, or the expiry of the arbitration window. */
  function Finishes(s: State, call: Call): Option<Finish>
  {
    if call.id !in s.disputes || !s.disputes[call.id].status.IsActive() then None
    else
      var d := s.disputes[call.id];
      match call.op
      case CastVote(decision, frivolous) =>
        if |d.panel| > 0 && call.caller !in d.panel then None
        else
          var d' := WithVote(d, call.caller, decision, frivolous);
          (match Tally(d'.votes)
           case Some(won) => Some(Finish(d', call.caller, won.resolution, won.upheld, won.slash))
           case None => None)
      case Resolve(text, upheld) =>
        if AdminFault(s, call.caller).None? then Some(Finish(d, call.caller, text, upheld, false)) else None
      case AutoResolve => if call.now > d.deadline then Some(Finish(d, d.openedBy, EXPIRED_NOTE, true, false)) else None
      case _ => None
  }

  /** What no call but a new filing touches. */
  predicate SameFiling(d: Dispute, d': Dispute)
  {
    && d'.outageId == d.outageId && d'.bond == d.bond && d'.openedBy == d.openedBy
    && d'.openedAt == d.openedAt && d'.deadline == d.deadline
  }

  /** Whether an arbitrator may vote: with no panel named, anyone. */
  predicate Admits(d: Dispute, arbitrator: Address)
  {
    |d.panel| > 0 ==> arbitrator in d.panel
  }

  /** When a call amends an active dispute: an admitted vote short of a quorum, evidence from
      its filer, an escalation or a full panel by the admin. */
  predicate Amends(s: State, call: Call)
  {
    && call.id in s.disputes && s.disputes[call.id].status.IsActive()
    && var d := s.disputes[call.id];
       match call.op
       case CastVote(decision, frivolous) =>
         Admits(d, call.caller) && Tally(WithVote(d, call.caller, decision, frivolous).votes).None?
       case AddEvidence(_) => call.caller == d.openedBy
       case Escalate => AdminFault(s, call.caller).None? && !d.status.Escalated? && !d.level.L3Management?
       case AssignPanel(panel) => AdminFault(s, call.caller).None? && |panel| == PANEL_SIZE
       case _ => false
  }

  /** What the amendment is; it leaves the dispute active and keeps its filing. */
  predicate Amended(d: Dispute, d': Dispute, call: Call)
  {
    && d.status.IsActive() && d'.status.IsActive() && SameFiling(d, d')
    && match call.op
       case CastVote(decision, frivolous) =>
         Admits(d, call.caller)
         && d' == WithVote(d, call.caller, decision, frivolous) && Tally(d'.votes).None?
       case AddEvidence(hash) =>
         call.caller == d.openedBy && d' == d.(evidenceHistory := d.evidenceHistory + [hash], evidenceHash := hash)
       case Escalate =>
         !d.status.Escalated? && !d.level.L3Management?
         && d' == d.(level := if d.level.L1Support? then L2Engineering else L3Management, status := Escalated)
       case AssignPanel(panel) => |panel| == PANEL_SIZE && d' == d.(panel := panel)
       case _ => false
  }

  /** What a call did, read off the states before and after; anything else does nothing. */
  predicate Effect(s: State, call: Call, s': State)
  {
    if Opens(s, call) then
      s' == s.(disputes := s.disputes[call.id := Filed(call.now, call.caller, call.op.outageId, call.op.bond)])
    else if Finishes(s, call).Some? then
      s' == Settle(s, call.now, call.id, Finishes(s, call).value).0
    else if call.op.OfficeChanges? then
      s' == s.(admin := call.op.to)
    else if Dismisses(s, call) then
      s' == s.(disputes := s.disputes[call.id := Closed(s.disputes[call.id], call)])
    else if Amends(s, call) then
      && call.id in s.disputes && call.id in s'.disputes
      && s' == s.(disputes := s.disputes[call.id := s'.disputes[call.id]])
      && Amended(s.disputes[call.id], s'.disputes[call.id], call)
    else
      s' == s
  }

  /** A dismissed dispute: only its status and who closed it when have changed. */
  function Closed(d: Dispute, call: Call): Dispute
  {
    d.(status := Dismissed, resolvedBy := Some(call.caller), resolvedAt := Some(call.now))
  }

  lemma {:induction false} StepEffect(s: State, call: Call)
    ensures Effect(s, call, Step(s, call))
    ensures Dismisses(s, call) ==>
              call.id in Step(s, call).disputes && Step(s, call).disputes[call.id].status.Dismissed?
  {
    match call.op {
      case CastVote(decision, frivolous) => VoteEffect(s, call);
      case _ =>
    }
  }

  lemma {:induction false} VoteEffect(s: State, call: Call)
    requires call.op.CastVote?
    ensures Effect(s, call, Step(s, call))
  {
  }

  // ---------------------------------------------------------------- the votes

  ghost predicate Distinct(a: seq<Address>)
  {
    forall i, j | 0 <= i < j < |a| :: a[i] != a[j]
  }

  /** One recorded vote per voter, voters distinct. */
  ghost predicate Matched(d: Dispute)
  {
    && |d.votes| == |d.voters|
    && (forall i | 0 <= i < |d.votes| :: d.votes[i].arbitrator == d.voters[i])
    && Distinct(d.voters)
  }

  /** While a dispute is active it has, besides, at most one vote on each side. */
  ghost predicate WellVoted(d: Dispute)
  {
    && Matched(d)
    && (d.status.IsActive() ==> CountVotes(d.votes, UpholdOutage) <= 1 && CountVotes(d.votes, DismissOutage) <= 1)
  }

  ghost predicate AllWellVoted(s: State)
  {
    forall id | id in s.disputes :: WellVoted(s.disputes[id])
  }

  lemma {:induction false} VotesAreTwoSided(votes: seq<Vote>)
    ensures CountVotes(votes, UpholdOutage) + CountVotes(votes, DismissOutage) == |votes|
  {
    if |votes| > 0 {
      VotesAreTwoSided(votes[..|votes| - 1]);
    }
  }

  lemma {:induction false} CountAppend(votes: seq<Vote>, v: Vote, decision: Decision)
    ensures CountVotes(votes + [v], decision) == CountVotes(votes, decision) + if v.decision == decision then 1 else 0
  {
    assert (votes + [v])[..|votes|] == votes;
  }

  lemma {:induction false} UpholdIsNotFrivolous(votes: seq<Vote>)
    requires AllFrivolousDismiss(votes)
    ensures CountVotes(votes, UpholdOutage) == 0
  {
    if |votes| > 0 {
      UpholdIsNotFrivolous(votes[..|votes| - 1]);
    }
  }

  lemma {:induction false} WithVoteStaysMatched(d: Dispute, arbitrator: Address, decision: Decision, frivolous: bool)
    requires Matched(d)
    ensures Matched(WithVote(d, arbitrator, decision, frivolous))
  {
  }

  /** A vote on a well-voted active dispute. Quorum is reached exactly when the caller is
      a new voter and the side it votes for already has a vote; then that side wins.
      The unanimous-slash case cannot arise: the second dismissal already settles. */
  lemma {:induction false} QuorumIsSecondVote(d: Dispute, arbitrator: Address, decision: Decision, frivolous: bool)
    requires WellVoted(d) && d.status.IsActive()
    ensures var d' := WithVote(d, arbitrator, decision, frivolous);
            && (Tally(d'.votes).Some? <==> arbitrator !in d.voters && CountVotes(d.votes, decision) == 1)
            && (Tally(d'.votes).Some? ==>
                  && Tally(d'.votes).value.upheld == (decision == UpholdOutage) && !Tally(d'.votes).value.slash
                  && CountVotes(d'.votes, decision) == 2)
  {
    var d' := WithVote(d, arbitrator, decision, frivolous);
    if arbitrator !in d.voters {
      var v := Vote(arbitrator, decision, frivolous);
      CountAppend(d.votes, v, UpholdOutage);
      CountAppend(d.votes, v, DismissOutage);
      if AllFrivolousDismiss(d'.votes) {
        UpholdIsNotFrivolous(d'.votes);
      }
    }
  }

  /** The third distinct vote always settles. */
  lemma {:induction false} ThirdVoteSettles(d: Dispute, arbitrator: Address, decision: Decision, frivolous: bool)
    requires WellVoted(d) && d.status.IsActive()
    ensures |d.voters| <= 2
    ensures |d.voters| == 2 && arbitrator !in d.voters
        ==> Tally(WithVote(d, arbitrator, decision, frivolous).votes).Some?
  {
    VotesAreTwoSided(d.votes);
    QuorumIsSecondVote(d, arbitrator, decision, frivolous);
  }

  /** A settlement by a call on a well-voted state: never a slash, at most three voters,
      the bond as posted. */
  lemma {:induction false} FinishIsVoted(s: State, call: Call)
    requires AllWellVoted(s) && Finishes(s, call).Some?
    ensures var f := Finishes(s, call).value;
            && !f.slash && Matched(f.dispute) && |f.dispute.voters| <= PANEL_SIZE
            && call.id in s.disputes && s.disputes[call.id].status.IsActive()
                && f.dispute.bond == s.disputes[call.id].bond
  {
    var d := s.disputes[call.id];
    VotesAreTwoSided(d.votes);
    if call.op.CastVote? {
      QuorumIsSecondVote(d, call.caller, call.op.decision, call.op.frivolous);
      WithVoteStaysMatched(d, call.caller, call.op.decision, call.op.frivolous);
    }
  }

  lemma {:induction false} AmendmentIsVoted(d: Dispute, d': Dispute, call: Call)
    requires WellVoted(d) && Amended(d, d', call)
    ensures WellVoted(d')
  {
    if call.op.CastVote? {
      WithVoteStaysMatched(d, call.caller, call.op.decision, call.op.frivolous);
    }
  }

  /** A call changes no dispute but the one it names. */
  lemma {:induction false} EffectTouchesOne(s: State, call: Call, s': State)
    requires Effect(s, call, s')
    ensures forall id | id in s'.disputes && id != call.id :: id in s.disputes && s'.disputes[id] == s.disputes[id]
    ensures s'.disputes != s.disputes ==> call.id in s'.disputes
  {
  }

  lemma {:induction false} ChangedVotes(s: State, call: Call, s': State)
    requires AllWellVoted(s) && Effect(s, call, s') && call.id in s'.disputes
    ensures WellVoted(s'.disputes[call.id])
  {
    if Opens(s, call) {
    } else if Finishes(s, call).Some? {
      FinishIsVoted(s, call);
    } else if s'.disputes != s.disputes && !Dismisses(s, call) {
      AmendmentIsVoted(s.disputes[call.id], s'.disputes[call.id], call);
    }
  }

  lemma {:induction false} EffectKeepsVotes(s: State, call: Call, s': State)
    requires AllWellVoted(s) && Effect(s, call, s')
    ensures AllWellVoted(s')
  {
    EffectTouchesOne(s, call, s');
    if s'.disputes != s.disputes {
      ChangedVotes(s, call, s');
    }
  }

  // ------------------------------------------------- deadlines and evidence

  /** The deadline is the arbitration window after the filing, the current evidence hash
      mirrors the last entry of the evidence history, and the level follows the status:
      nothing is ever under review or at the third level. A panel, once named, is full. A
      resolution is noted on no active dispute and on every resolved one. */
  predicate WellRecorded(d: Dispute)
  {
    && d.deadline == WrapU64(d.openedAt + ARBITRATION_WINDOW_SECS)
    && (d.status.IsActive() ==> d.resolution.None?) && (d.status.Resolved? ==> d.resolution.Some?)
    && (|d.panel| == 0 || |d.panel| == PANEL_SIZE)
    && !d.status.UnderReview? && !d.level.L3Management?
    && (d.status.Open? ==> d.level.L1Support?) && (d.status.Escalated? ==> d.level.L2Engineering?)
    && d.evidenceHash == if |d.evidenceHistory| == 0 then NO_EVIDENCE else d.evidenceHistory[|d.evidenceHistory| - 1]
  }

  ghost predicate AllWellRecorded(s: State)
  {
    forall id | id in s.disputes :: WellRecorded(s.disputes[id])
  }

  lemma {:induction false} FinishKeepsRecord(s: State, call: Call)
    requires Finishes(s, call).Some?
    ensures call.id in s.disputes && SameFiling(s.disputes[call.id], Finishes(s, call).value.dispute)
    ensures Finishes(s, call).value.dispute.evidenceHash == s.disputes[call.id].evidenceHash
    ensures Finishes(s, call).value.dispute.evidenceHistory == s.disputes[call.id].evidenceHistory
    ensures Finishes(s, call).value.dispute.level == s.disputes[call.id].level
    ensures Finishes(s, call).value.dispute.panel == s.disputes[call.id].panel
  {
  }

  lemma {:induction false} AmendmentKeepsRecord(d: Dispute, d': Dispute, call: Call)
    requires WellRecorded(d) && (Amended(d, d', call) || d' == Closed(d, call))
    ensures WellRecorded(d')
  {
  }

  lemma {:induction false} ChangedRecord(s: State, call: Call, s': State)
    requires AllWellRecorded(s) && Effect(s, call, s') && call.id in s'.disputes
    ensures WellRecorded(s'.disputes[call.id])
  {
    if Opens(s, call) {
    } else if Finishes(s, call).Some? {
      FinishKeepsRecord(s, call);
    } else if s'.disputes != s.disputes {
      AmendmentKeepsRecord(s.disputes[call.id], s'.disputes[call.id], call);
    }
  }

  lemma {:induction false} EffectKeepsRecords(s: State, call: Call, s': State)
    requires AllWellRecorded(s) && Effect(s, call, s')
    ensures AllWellRecorded(s')
  {
    EffectTouchesOne(s, call, s');
    if s'.disputes != s.disputes {
      ChangedRecord(s, call, s');
    }
  }

  // ---------------------------------------------------- how many are active

  lemma {:induction false} EffectKeepsActiveBound(s: State, call: Call, s': State)
    requires |ActiveIds(s.disputes)| <= MAX_ACTIVE_DISPUTES && Effect(s, call, s')
    ensures |ActiveIds(s'.disputes)| <= MAX_ACTIVE_DISPUTES
  {
    if Opens(s, call) {
      ActiveAfterFiling(s, call, s');
    } else if Finishes(s, call).Some? {
      ActiveAfterSettlement(s, call, s');
    } else {
      ActiveAfterOthers(s, call, s');
      SubsetSize(ActiveIds(s'.disputes), ActiveIds(s.disputes));
    }
  }

  lemma {:induction false} SubsetSize<T>(a: set<T>, b: set<T>)
    requires a <= b
    ensures |a| <= |b|
  {
    assert b == a + (b - a);
  }

  // ------------------------------------------------------------- the trace

  /** One settlement, with the number of the opening it settles. */
  datatype Settlement = Settlement(opening: nat, bond: i128, voters: seq<Address>, upheld: bool, division: Division)

  /** A state with what an observer wrote down: how many disputes were ever opened,
      which opening each id stands for now, every settlement, the bonds posted, and
      the bonds stranded by overwriting or dismissing an active dispute. */
  datatype Trace = Trace(
    state: State,
    openings: nat,
    current: map<Symbol, nat>,
    settled: seq<Settlement>,
    posted: int,
    stranded: int)

  function ActiveBond(s: State, id: Symbol): int
  {
    if id in s.disputes && s.disputes[id].status.IsActive() then s.disputes[id].bond else 0
  }

  function Advance(t: Trace, call: Call): Trace
  {
    Note(t, call, Step(t.state, call))
  }

  /** What the observer writes down when a call leads to `s'`. */
  function Note(t: Trace, call: Call, s': State): Trace
  {
    if Opens(t.state, call) then
      Trace(s', t.openings + 1, t.current[call.id := t.openings], t.settled,
            t.posted + call.op.bond, t.stranded + ActiveBond(t.state, call.id))
    else if Finishes(t.state, call).Some? then
      var opening := if call.id in t.current then t.current[call.id] else 0;
      t.(state := s', settled := t.settled + [SettlementOf(opening, Finishes(t.state, call).value)])
    else if Dismisses(t.state, call) then
      t.(state := s', stranded := t.stranded + ActiveBond(t.state, call.id))
    else
      t.(state := s')
  }

  function SettlementOf(opening: nat, f: Finish): Settlement
  {
    Settlement(opening, f.dispute.bond, f.dispute.voters, f.upheld,
               Divide(f.dispute.bond, |f.dispute.voters|, f.upheld, f.slash))
  }

  /** The trace after the first `k` calls, starting from empty storage. */
  function RunTo(admin: Option<Address>, calls: seq<Call>, k: nat): Trace
    requires k <= |calls|
  {
    if k == 0 then Trace(State(admin, map[], map[], map[], 0), 0, map[], [], 0, 0)
    else Advance(RunTo(admin, calls, k - 1), calls[k - 1])
  }

  // ---------------------------------------- every opening is settled at most once

  /** Openings are numbered in order, each id stands for its own, no opening occurs twice
      among the settlements, and none of an active id occurs at all. */
  ghost predicate Ledger(openings: nat, current: map<Symbol, nat>, active: set<Symbol>, settled: seq<Settlement>)
  {
    && (forall id | id in current :: current[id] < openings)
    && (forall a, b | a in current && b in current && a != b :: current[a] != current[b])
    && (forall i | 0 <= i < |settled| :: settled[i].opening < openings)
    && (forall i, j | 0 <= i < j < |settled| :: settled[i].opening != settled[j].opening)
    && (forall i, id | 0 <= i < |settled| && id in active && id in current :: settled[i].opening != current[id])
  }

  lemma {:induction false} LedgerOpens(openings: nat, current: map<Symbol, nat>, active: set<Symbol>,
      settled: seq<Settlement>, id: Symbol)
    requires Ledger(openings, current, active, settled)
    ensures Ledger(openings + 1, current[id := openings], active + {id}, settled)
  {
  }

  lemma {:induction false} LedgerSettles(openings: nat, current: map<Symbol, nat>, active: set<Symbol>,
                                         settled: seq<Settlement>, id: Symbol, x: Settlement)
    requires Ledger(openings, current, active, settled)
    requires id in active && id in current && x.opening == current[id]
    ensures Ledger(openings, current, active - {id}, settled + [x])
  {
  }

  ghost predicate OpeningsInvariant(t: Trace)
  {
    && t.current.Keys == t.state.disputes.Keys
    && Ledger(t.openings, t.current, ActiveIds(t.state.disputes), t.settled)
  }

  lemma {:induction false} ActiveIdsSet(disputes: map<Symbol, Dispute>, id: Symbol, d: Dispute)
    ensures ActiveIds(disputes[id := d]) == if d.status.IsActive() then ActiveIds(disputes) + {id}
        else ActiveIds(disputes) - {id}
  {
  }

  /** What a filing, a settlement and any other call do to the set of active disputes. */
  lemma {:induction false} ActiveAfterFiling(s: State, call: Call, s': State)
    requires Effect(s, call, s') && Opens(s, call)
    ensures ActiveIds(s'.disputes) == ActiveIds(s.disputes) + {call.id}
        && s'.disputes.Keys == s.disputes.Keys + {call.id}
  {
    ActiveIdsSet(s.disputes, call.id, s'.disputes[call.id]);
  }

  lemma {:induction false} ActiveAfterSettlement(s: State, call: Call, s': State)
    requires Effect(s, call, s') && !Opens(s, call) && Finishes(s, call).Some?
    ensures call.id in ActiveIds(s.disputes)
    ensures ActiveIds(s'.disputes) == ActiveIds(s.disputes) - {call.id} && s'.disputes.Keys == s.disputes.Keys
  {
    ActiveIdsSet(s.disputes, call.id, s'.disputes[call.id]);
  }

  lemma {:induction false} ActiveAfterOthers(s: State, call: Call, s': State)
    requires Effect(s, call, s') && !Opens(s, call) && Finishes(s, call).None?
    ensures ActiveIds(s'.disputes) <= ActiveIds(s.disputes) && s'.disputes.Keys == s.disputes.Keys
  {
    if s'.disputes != s.disputes {
      ActiveIdsSet(s.disputes, call.id, s'.disputes[call.id]);
    }
  }

  lemma {:induction false} OpeningKeeps(t: Trace, call: Call, s': State)
    requires OpeningsInvariant(t) && Effect(t.state, call, s') && Opens(t.state, call)
    ensures OpeningsInvariant(Note(t, call, s'))
  {
    var t' := Note(t, call, s');
    ActiveAfterFiling(t.state, call, s');
    LedgerOpens(t.openings, t.current, ActiveIds(t.state.disputes), t.settled, call.id);
    assert t'.openings == t.openings + 1 && t'.settled == t.settled && t'.state == s';
    assert t'.current == t.current[call.id := t.openings];
  }

  lemma {:induction false} SettlingKeeps(t: Trace, call: Call, s': State)
    requires OpeningsInvariant(t) && Effect(t.state, call, s') && !Opens(t.state, call) && Finishes(t.state, call).Some?
    ensures OpeningsInvariant(Note(t, call, s'))
  {
    ActiveAfterSettlement(t.state, call, s');
    var x := SettlementOf(t.current[call.id], Finishes(t.state, call).value);
    LedgerSettles(t.openings, t.current, ActiveIds(t.state.disputes), t.settled, call.id, x);
    assert Note(t, call, s').settled == t.settled + [x];
  }

  lemma {:induction false} OthersKeep(t: Trace, call: Call, s': State)
    requires OpeningsInvariant(t) && Effect(t.state, call, s') && !Opens(t.state, call) && Finishes(t.state, call).None?
    ensures OpeningsInvariant(Note(t, call, s'))
  {
    ActiveAfterOthers(t.state, call, s');
  }

  lemma {:induction false} StepKeepsOpenings(t: Trace, call: Call)
    requires OpeningsInvariant(t)
    ensures OpeningsInvariant(Advance(t, call))
  {
    var s' := Step(t.state, call);
    StepEffect(t.state, call);
    if Opens(t.state, call) {
      OpeningKeeps(t, call, s');
    } else if Finishes(t.state, call).Some? {
      SettlingKeeps(t, call, s');
    } else {
      OthersKeep(t, call, s');
    }
  }

  /** Over any run, no opening of a dispute is settled twice, however often its id is
      re-opened, overwritten, dismissed or voted on. */
  lemma {:induction false} SettledAtMostOnce(admin: Option<Address>, calls: seq<Call>, k: nat)
    requires k <= |calls|
    ensures OpeningsInvariant(RunTo(admin, calls, k))
  {
    if k > 0 {
      SettledAtMostOnce(admin, calls, k - 1);
      StepKeepsOpenings(RunTo(admin, calls, k - 1), calls[k - 1]);
    }
  }

  // ------------------------------------------------- how one bond is divided

  /** What the voters are credited together. */
  function Credited(x: Settlement): int
  {
    if x.division.share > 0 then x.division.share * |x.voters| else 0
  }

  /** What is left of the bond when customer, voters and pool have been paid. */
  function Dust(x: Settlement): int
  {
    x.bond - x.division.customer - Credited(x) - Max(0, x.division.pool)
  }

  /** Nothing is lost or created beyond rounding dust below one unit per voter. */
  predicate Balanced(x: Settlement)
  {
    0 <= Dust(x) < Max(1, |x.voters|)
  }

  /** The guard a caller can check before settling: the product behind the fee, wrapped to
      an i128, does not come out as a negative fee, and taking the fee off the bond does
      not underflow. */
  predicate FeeIsSound(bond: i128, voters: nat, upheld: bool)
  {
    upheld && voters > 0 ==>
      var product := WrapI128(bond * ARBITRATOR_FEE_BPS);
      product > -BPS_DENOMINATOR && bond >= I128_MIN + Max(product, 0) / BPS_DENOMINATOR
  }

  lemma FeeByProduct(bond: i128, voters: nat, upheld: bool)
    ensures FeeIsSound(bond, voters, upheld) <==>
            FeeOf(bond, voters, upheld) >= 0 && bond - FeeOf(bond, voters, upheld) >= I128_MIN
  {
  }

  lemma ShareDust(fee: nat, voters: nat)
    requires voters > 0
    ensures var share := TruncDiv(fee, voters);
            share >= 0 && 0 <= fee - share * voters < voters && (share == 0 ==> share * voters == 0)
  {
    assert fee / voters * voters <= fee < fee / voters * voters + voters;
  }

  lemma ShareOfNegative(fee: int, voters: nat)
    requires voters > 0 && fee < 0
    ensures TruncDiv(fee, voters) <= 0
  {
  }

  /** A settlement conserves its bond exactly when the fee is sound. (A voter list is a
      ledger vector, so its length is a u32.) */
  lemma {:induction false} BalancedExactlyWhenFeeSound(x: Settlement)
    requires |x.voters| <= U32_MAX
    requires x.division == Divide(x.bond, |x.voters|, x.upheld, false)
    ensures Balanced(x) <==> FeeIsSound(x.bond, |x.voters|, x.upheld)
  {
    var fee: int := FeeOf(x.bond, |x.voters|, x.upheld);
    var net: int := x.bond - fee;
    WrapCases(net);
    FeeByProduct(x.bond, |x.voters|, x.upheld);
    if |x.voters| > 0 {
      if fee >= 0 {
        ShareDust(fee, |x.voters|);
      } else {
        ShareOfNegative(fee, |x.voters|);
        FeeMagnitude(x.bond, |x.voters|, x.upheld);
      }
    }
  }

  lemma FeeMagnitude(bond: i128, voters: nat, upheld: bool)
    ensures -I128_MAX / 1000 <= FeeOf(bond, voters, upheld) <= I128_MAX / 1000
  {
  }

  lemma WrapCases(x: int)
    requires 2 * I128_MIN <= x <= 2 * I128_MAX
    ensures WrapI128(x) == x || WrapI128(x) == x - (U128_MAX + 1) || WrapI128(x) == x + (U128_MAX + 1)
    ensures x > I128_MAX ==> WrapI128(x) == x - (U128_MAX + 1)
    ensures x < I128_MIN ==> WrapI128(x) == x + (U128_MAX + 1)
  {
  }

  /** For a bond that is not negative, only the product matters. */
  lemma SoundByProductAlone(bond: i128, voters: nat, upheld: bool)
    requires bond >= 0
    ensures FeeIsSound(bond, voters, upheld) <==>
            (upheld && voters > 0 ==> WrapI128(bond * ARBITRATOR_FEE_BPS) > -BPS_DENOMINATOR)
  {
  }

  /** The voters get their 5%, rounded down, exactly for bonds up to a five-hundredth of
      the i128 range. */
  lemma FeeIsFivePercentExactly(bond: i128, voters: nat)
    requires bond >= 0 && voters > 0
    ensures FeeOf(bond, voters, true) == bond * 5 / 100 <==> bond <= I128_MAX / 500
  {
    FivePercent(bond);
    var product: int := bond * ARBITRATOR_FEE_BPS;
    if bond > I128_MAX / 500 {
      assert product > I128_MAX;
      if product <= I128_MAX + BPS_DENOMINATOR {
        WrapCases(product);
      }
    }
  }

  lemma FivePercent(bond: nat)
    ensures bond * 5 / 100 == bond * 500 / 10000
  {
    var q, r := bond * 5 / 100, bond * 5 % 100;
    assert bond * 500 == (q * 100 + r) * 100 == q * 10000 + r * 100;
  }

  /** All those bonds are sound. */
  lemma OrdinaryBondIsSound(bond: i128, voters: nat, upheld: bool)
    requires 0 <= bond <= I128_MAX / 500
    ensures FeeIsSound(bond, voters, upheld)
  {
    SoundByProductAlone(bond, voters, upheld);
  }

  /** Soundness is not the full promise: this bond wraps to a fee of 0, so its settlement
      balances, but its two voters get nothing. */
  lemma WrappedFeeIsLost()
    ensures var bond: i128 := 0x4000_0000_0000_0000_0000_0000_0000_0000;
            FeeIsSound(bond, 2, true) && FeeOf(bond, 2, true) == 0 < bond * 5 / 100
            && Divide(bond, 2, true, false).customer == bond
  {
    var bond: i128 := 0x4000_0000_0000_0000_0000_0000_0000_0000;
    assert bond * ARBITRATOR_FEE_BPS == 125 * (U128_MAX + 1);
  }

  /** Beyond that the product wraps: here a positive bond, upheld with one vote, pays
      the customer more than the bond. */
  lemma LargeBondCreatesMoney()
    ensures var bond: i128 := I128_MAX / 500 + 1;
            !FeeIsSound(bond, 1, true) && Divide(bond, 1, true, false).customer > bond
  {
    var bond: i128 := I128_MAX / 500 + 1;
    WrapCases(bond * ARBITRATOR_FEE_BPS);
    FeeByProduct(bond, 1, true);
  }

  // ------------------------------------------- the books over a whole run

  function SumBonds(log: seq<Settlement>): int
  {
    if |log| == 0 then 0 else SumBonds(log[..|log| - 1]) + log[|log| - 1].bond
  }

  function SumCustomers(log: seq<Settlement>): int
  {
    if |log| == 0 then 0 else SumCustomers(log[..|log| - 1]) + log[|log| - 1].division.customer
  }

  function SumCredited(log: seq<Settlement>): int
  {
    if |log| == 0 then 0 else SumCredited(log[..|log| - 1]) + Credited(log[|log| - 1])
  }

  function SumDust(log: seq<Settlement>): int
  {
    if |log| == 0 then 0 else SumDust(log[..|log| - 1]) + Dust(log[|log| - 1])
  }

  /** Adding `share` to each voter, over the integers. */
  function AddShares(m: map<Address, int>, voters: seq<Address>, share: int): map<Address, int>
  {
    if |voters| == 0 then m
    else
      var before := AddShares(m, voters[..|voters| - 1], share);
      var a := voters[|voters| - 1];
      before[a := Raised(before, a, share)]
  }

  /** What each arbitrator has been credited by the settlements in the log. */
  function Credits(log: seq<Settlement>): map<Address, int>
  {
    if |log| == 0 then map[]
    else
      var x := log[|log| - 1];
      if x.division.share > 0 then AddShares(Credits(log[..|log| - 1]), x.voters, x.division.share)
      else Credits(log[..|log| - 1])
  }

  function Wrapped(m: map<Address, int>): map<Address, i128>
  {
    map a | a in m :: WrapI128(m[a])
  }

  /** The balance after one more share, over the integers. */
  function Raised(m: map<Address, int>, a: Address, share: int): int
  {
    (if a in m then m[a] else 0) + share
  }

  lemma WrappedRaise(m: map<Address, int>, a: Address, share: int)
    ensures Wrapped(m[a := Raised(m, a, share)])
            == Wrapped(m)[a := WrapI128((if a in Wrapped(m) then Wrapped(m)[a] else 0) + share)]
  {
    WrapI128Add(if a in m then m[a] else 0, share);
  }

  lemma {:induction false} CreditAllWraps(m: map<Address, int>, voters: seq<Address>, share: i128)
    ensures CreditAll(Wrapped(m), voters, share) == Wrapped(AddShares(m, voters, share))
  {
    if |voters| > 0 {
      var n := |voters| - 1;
      var before := AddShares(m, voters[..n], share);
      CreditAllWraps(m, voters[..n], share);
      WrappedRaise(before, voters[n], share);
    }
  }

  lemma {:induction false} SharesSum(m: map<Address, int>, voters: seq<Address>, share: int)
    ensures MapSum(AddShares(m, voters, share)) == MapSum(m) + share * |voters|
  {
    if |voters| > 0 {
      var n := |voters| - 1;
      SharesSum(m, voters[..n], share);
      var before := AddShares(m, voters[..n], share);
      MapSumSet(before, voters[n], Raised(before, voters[n], share));
      assert share * (n + 1) == share * n + share;
    }
  }

  lemma {:induction false} CreditsSum(log: seq<Settlement>)
    ensures MapSum(Credits(log)) == SumCredited(log)
  {
    if |log| > 0 {
      var x := log[|log| - 1];
      CreditsSum(log[..|log| - 1]);
      if x.division.share > 0 {
        SharesSum(Credits(log[..|log| - 1]), x.voters, x.division.share);
      }
    }
  }

  lemma {:induction false} SharesNonNegative(m: map<Address, int>, voters: seq<Address>, share: nat)
    requires forall a | a in m :: m[a] >= 0
    ensures forall a | a in AddShares(m, voters, share) :: AddShares(m, voters, share)[a] >= 0
  {
    if |voters| > 0 {
      SharesNonNegative(m, voters[..|voters| - 1], share);
    }
  }

  lemma {:induction false} CreditsNonNegative(log: seq<Settlement>)
    ensures forall a | a in Credits(log) :: Credits(log)[a] >= 0
  {
    if |log| > 0 {
      CreditsNonNegative(log[..|log| - 1]);
      var x := log[|log| - 1];
      if x.division.share > 0 {
        SharesNonNegative(Credits(log[..|log| - 1]), x.voters, x.division.share);
      }
    }
  }

  /** By definition of the dust, bonds = customers + credits + dust (nothing is pooled). */
  lemma {:induction false} BooksAddUp(log: seq<Settlement>)
    requires forall i | 0 <= i < |log| :: log[i].division.pool == 0
    ensures SumBonds(log) == SumCustomers(log) + SumCredited(log) + SumDust(log)
  {
    if |log| > 0 {
      BooksAddUp(log[..|log| - 1]);
    }
  }

  function ActiveBonds(disputes: map<Symbol, Dispute>): map<Symbol, int>
  {
    map id | id in disputes && disputes[id].status.IsActive() :: disputes[id].bond
  }

  /** Rewriting one record moves the total of the active bonds by that record's part. */
  lemma {:induction false} ActiveBondsSet(disputes: map<Symbol, Dispute>, id: Symbol, d: Dispute)
    ensures MapSum(ActiveBonds(disputes[id := d])) ==
            MapSum(ActiveBonds(disputes))
            + (if d.status.IsActive() then d.bond else 0)
            - (if id in disputes && disputes[id].status.IsActive() then disputes[id].bond else 0)
  {
    var m, m' := ActiveBonds(disputes), ActiveBonds(disputes[id := d]);
    if d.status.IsActive() {
      assert m' == m[id := d.bond];
      MapSumSet(m, id, d.bond);
    } else {
      assert m' == m - {id};
      MapSumDrop(m, id);
    }
  }

  ghost predicate MoneyInvariant(t: Trace)
  {
    && AllWellVoted(t.state)
    && t.state.pool == 0
    && t.state.fees == Wrapped(Credits(t.settled))
    && t.posted == SumBonds(t.settled) + MapSum(ActiveBonds(t.state.disputes)) + t.stranded
    && (forall i | 0 <= i < |t.settled| ::
          && |t.settled[i].voters| <= PANEL_SIZE
          && t.settled[i].division == Divide(t.settled[i].bond, |t.settled[i].voters|, t.settled[i].upheld, false))
  }

  lemma {:induction false} SettlementAppends(log: seq<Settlement>, x: Settlement)
    ensures SumBonds(log + [x]) == SumBonds(log) + x.bond
    ensures Credits(log + [x]) == if x.division.share > 0 then AddShares(Credits(log), x.voters, x.division.share)
        else Credits(log)
  {
    assert (log + [x])[..|log|] == log;
  }

  /** Settling a well-voted dispute `d` of state `t.state` keeps the books. */
  lemma {:induction false} SettleKeepsMoney(t: Trace, now: u64, id: Symbol, f: Finish, x: Settlement)
    requires MoneyInvariant(t) && id in t.state.disputes && t.state.disputes[id].status.IsActive()
    requires f.dispute.bond == t.state.disputes[id].bond && Matched(f.dispute) && !f.slash
    requires |f.dispute.voters| <= PANEL_SIZE && x == SettlementOf(x.opening, f)
    ensures MoneyInvariant(t.(state := Settle(t.state, now, id, f).0, settled := t.settled + [x]))
  {
    var s' := Settle(t.state, now, id, f).0;
    SettlementAppends(t.settled, x);
    CreditAllWraps(Credits(t.settled), f.dispute.voters, x.division.share);
    ActiveBondsSet(t.state.disputes, id, s'.disputes[id]);
    assert s'.fees == Wrapped(Credits(t.settled + [x]));
    assert AllWellVoted(s');
  }

  lemma {:induction false} FinishKeepsMoney(t: Trace, call: Call, s': State)
    requires MoneyInvariant(t) && Effect(t.state, call, s')
    requires !Opens(t.state, call) && Finishes(t.state, call).Some?
    ensures MoneyInvariant(Note(t, call, s'))
  {
    var f := Finishes(t.state, call).value;
    FinishIsVoted(t.state, call);
    SettleKeepsMoney(t, call.now, call.id, f,
                     SettlementOf(if call.id in t.current then t.current[call.id] else 0, f));
  }

  lemma {:induction false} EffectKeepsMoney(t: Trace, call: Call, s': State)
    requires MoneyInvariant(t) && Effect(t.state, call, s')
    requires Dismisses(t.state, call) ==> call.id in s'.disputes && s'.disputes[call.id].status.Dismissed?
    ensures MoneyInvariant(Note(t, call, s'))
  {
    EffectKeepsVotes(t.state, call, s');
    if !Opens(t.state, call) && Finishes(t.state, call).Some? {
      FinishKeepsMoney(t, call, s');
    } else if s'.disputes != t.state.disputes {
      ActiveBondsSet(t.state.disputes, call.id, s'.disputes[call.id]);
    }
  }

  lemma {:induction false} StepKeepsMoney(t: Trace, call: Call)
    requires MoneyInvariant(t)
    ensures MoneyInvariant(Advance(t, call))
  {
    StepEffect(t.state, call);
    EffectKeepsMoney(t, call, Step(t.state, call));
  }

  lemma {:induction false} RunKeepsMoney(admin: Option<Address>, calls: seq<Call>, k: nat)
    requires k <= |calls|
    ensures MoneyInvariant(RunTo(admin, calls, k))
  {
    if k > 0 {
      RunKeepsMoney(admin, calls, k - 1);
      StepKeepsMoney(RunTo(admin, calls, k - 1), calls[k - 1]);
    } else {
      assert ActiveBonds(map[]) == map[];
    }
  }

  ghost predicate ActiveBound(s: State)
  {
    |ActiveIds(s.disputes)| <= MAX_ACTIVE_DISPUTES
  }

  lemma {:induction false} RunKeepsActiveBound(admin: Option<Address>, calls: seq<Call>, k: nat)
    requires k <= |calls|
    ensures ActiveBound(RunTo(admin, calls, k).state)
  {
    if k > 0 {
      RunKeepsActiveBound(admin, calls, k - 1);
      StepKeepsActiveBound(RunTo(admin, calls, k - 1).state, calls[k - 1]);
    } else {
      assert ActiveIds(map[]) == {};
    }
  }

  lemma {:induction false} StepKeepsActiveBound(s: State, call: Call)
    requires ActiveBound(s)
    ensures ActiveBound(Step(s, call))
  {
    StepEffect(s, call);
    EffectKeepsActiveBound(s, call, Step(s, call));
  }

  lemma {:induction false} RunKeepsRecords(admin: Option<Address>, calls: seq<Call>, k: nat)
    requires k <= |calls|
    ensures AllWellRecorded(RunTo(admin, calls, k).state)
  {
    if k > 0 {
      RunKeepsRecords(admin, calls, k - 1);
      var s := RunTo(admin, calls, k - 1).state;
      StepEffect(s, calls[k - 1]);
      EffectKeepsRecords(s, calls[k - 1], Step(s, calls[k - 1]));
    }
  }

  /** An escalation succeeds exactly for the admin on a dispute that is open, and takes it to
      the second level, where a further one fails. */
  ghost predicate EscalatesOnce(s: State, caller: Address, id: Symbol)
  {
    var r := DoEscalate(s, caller, id);
    && (r.1.Done? <==> AdminFault(s, caller).None? && id in s.disputes && s.disputes[id].status.Open?)
    && (r.1.Done? ==> id in r.0.disputes && r.0.disputes[id].level.L2Engineering?
                      && !DoEscalate(r.0, caller, id).1.Done?)
    && (id in s.disputes ==> !s.disputes[id].level.L3Management? && !s.disputes[id].status.UnderReview?)
  }

  /** So it is in every reachable state: as nothing puts a dispute under review, the third
      level is never reached. */
  lemma {:induction false} EscalatedOnceOnly(admin: Option<Address>, calls: seq<Call>, k: nat, caller: Address,
      id: Symbol)
    requires k <= |calls|
    ensures EscalatesOnce(StateAt(admin, calls, k), caller, id)
  {
    RunKeepsRecords(admin, calls, k);
    EscalationRule(StateAt(admin, calls, k), caller, id);
  }

  lemma {:induction false} EscalationRule(s: State, caller: Address, id: Symbol)
    requires id in s.disputes ==> WellRecorded(s.disputes[id])
    ensures EscalatesOnce(s, caller, id)
  {
  }

  /** Expiry settles a dispute exactly when it is active and the clock is past its filing
      time plus fourteen days, taken in u64; it then goes to its filer. */
  ghost predicate ExpiresByRule(s: State, now: u64, id: Symbol)
    requires id in s.disputes
  {
    var d, r := s.disputes[id], DoAutoResolve(s, now, id);
    && (r.1.Done? <==> d.status.IsActive() && now > WrapU64(d.openedAt + 14 * 86400))
    && (r.1.Done? ==> r.1.value.upheld && id in r.0.disputes && r.0.disputes[id].resolvedBy == Some(d.openedBy))
  }

  /** So it is in every reachable state. */
  lemma {:induction false} ExpirySettlesExactly(admin: Option<Address>, calls: seq<Call>, k: nat, now: u64, id: Symbol)
    requires k <= |calls| && id in StateAt(admin, calls, k).disputes
    ensures ExpiresByRule(StateAt(admin, calls, k), now, id)
  {
    RunKeepsRecords(admin, calls, k);
    ExpiryRule(StateAt(admin, calls, k), now, id);
  }

  lemma {:induction false} ExpiryRule(s: State, now: u64, id: Symbol)
    requires id in s.disputes && WellRecorded(s.disputes[id])
    ensures ExpiresByRule(s, now, id)
  {
  }

  /** Expiry waits for more than fourteen days whenever the deadline fits a u64, and only
      then: a filing later than that can be settled by expiry within its window. */
  lemma {:induction false} ExpiryNeedsFullWindowExactly(admin: Option<Address>, calls: seq<Call>, k: nat, id: Symbol)
    requires k <= |calls| && id in RunTo(admin, calls, k).state.disputes
    requires RunTo(admin, calls, k).state.disputes[id].status.IsActive()
    ensures var s := RunTo(admin, calls, k).state;
            (forall now: u64 :: DoAutoResolve(s, now, id).1.Done? ==> now - s.disputes[id].openedAt > 14 * 86400)
            <==> s.disputes[id].openedAt + 14 * 86400 <= U64_MAX
  {
    RunKeepsRecords(admin, calls, k);
    ExpiryWindow(RunTo(admin, calls, k).state, id);
  }

  lemma {:induction false} ExpiryWindow(s: State, id: Symbol)
    requires id in s.disputes && WellRecorded(s.disputes[id]) && s.disputes[id].status.IsActive()
    ensures (forall now: u64 :: DoAutoResolve(s, now, id).1.Done? ==> now - s.disputes[id].openedAt > 14 * 86400)
            <==> s.disputes[id].openedAt + 14 * 86400 <= U64_MAX
  {
    forall now: u64
      ensures DoAutoResolve(s, now, id).1.Done? <==> now > WrapU64(s.disputes[id].openedAt + 14 * 86400)
    {
      ExpiryRule(s, now, id);
    }
    if s.disputes[id].openedAt + 14 * 86400 > U64_MAX {
      assert DoAutoResolve(s, U64_MAX, id).1.Done?;
    }
  }

  /** Such a filing: at the last second of the u64 clock the deadline wraps to less than
      fourteen days after zero, and the dispute can be settled for its filer at once. */
  lemma {:induction false} LateFilingExpiresAtOnce()
    ensures var t := RunTo(None, [Call(2, U64_MAX, "d", OpenDispute("o", 100))], 1);
            "d" in t.state.disputes && t.state.disputes["d"].deadline == 14 * 86400 - 1
            && DoAutoResolve(t.state, U64_MAX, "d").1.Done?
  {
    var file := Call(2, U64_MAX, "d", OpenDispute("o", 100));
    var empty := State(None, map[], map[], map[], 0);
    assert ActiveIds(empty.disputes) == {};
    assert RunTo(None, [file], 0).state == empty;
    var s := StateAt(None, [file], 1);
    assert s == DoOpen(empty, U64_MAX, 2, "d", "o", 100).0;
    LateDeadline();
    ExpiryRule(s, U64_MAX, "d");
  }

  lemma LateDeadline()
    ensures Filed(U64_MAX, 2, "o", 100).deadline == 14 * 86400 - 1 && WellRecorded(Filed(U64_MAX, 2, "o", 100))
  {
    assert (U64_MAX + 14 * 86400) % (U64_MAX + 1) == 14 * 86400 - 1;
  }

  /** In every reachable state: at most 50 disputes are active; each stored dispute has
      one vote per distinct voter and, while active, at most one on each side; no
      settlement ever slashed a bond, so the arbitration pool is empty. */
  lemma {:induction false} ReachableDisputes(admin: Option<Address>, calls: seq<Call>, k: nat)
    requires k <= |calls|
    ensures var t := RunTo(admin, calls, k);
            && |ActiveIds(t.state.disputes)| <= MAX_ACTIVE_DISPUTES
            && AllWellVoted(t.state)
            && t.state.pool == 0
            && forall i | 0 <= i < |t.settled| :: t.settled[i].division.pool == 0
  {
    RunKeepsMoney(admin, calls, k);
    RunKeepsActiveBound(admin, calls, k);
  }

  /** Every posted bond is accounted for: settled, still active, or stranded by a
      dismissal or an overwrite. The arbitrators' balances are exactly the credits of
      the log, wrapped. No assumption on bonds at all. */
  lemma {:induction false} EveryBondIsSomewhere(admin: Option<Address>, calls: seq<Call>, k: nat)
    requires k <= |calls|
    ensures var t := RunTo(admin, calls, k);
            && t.posted == SumBonds(t.settled) + MapSum(ActiveBonds(t.state.disputes)) + t.stranded
            && t.state.fees == Wrapped(Credits(t.settled))
            && SumBonds(t.settled) == SumCustomers(t.settled) + MapSum(Credits(t.settled)) + SumDust(t.settled)
  {
    RunKeepsMoney(admin, calls, k);
    CreditsSum(RunTo(admin, calls, k).settled);
    BooksAddUp(RunTo(admin, calls, k).settled);
  }

  /** Wrapped balances add up to the true credits exactly when no single one overflows. */
  lemma {:induction false} WrappingLoses(m: map<Address, int>)
    requires forall a | a in m :: m[a] >= 0
    ensures MapSum(Wrapped(m)) <= MapSum(m)
    ensures MapSum(Wrapped(m)) == MapSum(m) <==> forall a | a in m :: m[a] <= I128_MAX
  {
    forall a | a in m ensures Wrapped(m)[a] <= m[a] && (Wrapped(m)[a] == m[a] <==> m[a] <= I128_MAX) {
      WrapBelow(m[a]);
    }
    MapSumBelow(Wrapped(m), m);
  }

  lemma WrapBelow(x: nat)
    ensures WrapI128(x) <= x
    ensures WrapI128(x) == x <==> x <= I128_MAX
  {
  }

  /** The stored balances close the books, settled bonds = customer payouts + arbitrator
      balances + pool + dust, exactly when no arbitrator has been credited more than an
      i128 holds; and each settlement's dust is below one unit per voter exactly when the
      fees are sound. No other assumption on bonds, votes or calls. */
  lemma {:induction false} SettledBondsAreConserved(admin: Option<Address>, calls: seq<Call>, k: nat)
    requires k <= |calls|
    ensures var t := RunTo(admin, calls, k);
            && (SumBonds(t.settled) == SumCustomers(t.settled) + MapSum(t.state.fees) + t.state.pool
                + SumDust(t.settled)
                <==> forall a | a in Credits(t.settled) :: Credits(t.settled)[a] <= I128_MAX)
            && ((forall i | 0 <= i < |t.settled| :: Balanced(t.settled[i]))
                <==> forall x | x in t.settled :: FeeIsSound(x.bond, |x.voters|, x.upheld))
            && forall i | 0 <= i < |t.settled| :: |t.settled[i].voters| <= PANEL_SIZE
  {
    var t := RunTo(admin, calls, k);
    EveryBondIsSomewhere(admin, calls, k);
    RunKeepsMoney(admin, calls, k);
    CreditsNonNegative(t.settled);
    WrappingLoses(Credits(t.settled));
    forall x | x in t.settled
      ensures Balanced(x) <==> FeeIsSound(x.bond, |x.voters|, x.upheld)
    {
      BalancedExactlyWhenFeeSound(x);
    }
    assert forall i | 0 <= i < |t.settled| :: t.settled[i] in t.settled;
  }

  /** Each settlement keeps back less than one unit per voter when its fee is sound, so a
      whole run of sound settlements pays out all it settles but two units each, and
      never more than that: with at most three voters and no credit beyond an i128. */
  lemma {:induction false} BooksCloseWithinDust(admin: Option<Address>, calls: seq<Call>, k: nat)
    requires k <= |calls|
    requires forall x | x in RunTo(admin, calls, k).settled :: FeeIsSound(x.bond, |x.voters|, x.upheld)
    requires forall a | a in Credits(RunTo(admin, calls, k).settled) ::
        Credits(RunTo(admin, calls, k).settled)[a] <= I128_MAX
    ensures var t := RunTo(admin, calls, k);
            0 <= SumBonds(t.settled) - SumCustomers(t.settled) - MapSum(t.state.fees) - t.state.pool <= 2 * |t.settled|
  {
    SettledBondsAreConserved(admin, calls, k);
    DustIsSmall(RunTo(admin, calls, k).settled);
  }

  lemma {:induction false} DustIsSmall(log: seq<Settlement>)
    requires forall i | 0 <= i < |log| :: Balanced(log[i]) && |log[i].voters| <= PANEL_SIZE
    ensures 0 <= SumDust(log) <= 2 * |log|
  {
    if |log| > 0 {
      DustIsSmall(log[..|log| - 1]);
      assert Balanced(log[|log| - 1]);
    }
  }

  // --------------------------------------------------------- stranded bonds

  /** A call that strands a bond: it files over an active dispute with a bond, or
      dismisses one. */
  predicate Strands(s: State, call: Call)
  {
    (Opens(s, call) || Dismisses(s, call)) && ActiveBond(s, call.id) != 0
  }

  function StateAt(admin: Option<Address>, calls: seq<Call>, k: nat): State
    requires k <= |calls|
  {
    RunTo(admin, calls, k).state
  }

  predicate NonNegativeBonds(s: State)
  {
    forall id | id in s.disputes :: s.disputes[id].bond >= 0
  }

  lemma {:induction false} BondsStayNonNegative(s: State, call: Call)
    requires NonNegativeBonds(s) && (call.op.OpenDispute? ==> call.op.bond >= 0)
    ensures NonNegativeBonds(Step(s, call))
  {
    var s' := Step(s, call);
    StepEffect(s, call);
    EffectTouchesOne(s, call, s');
    if s'.disputes != s.disputes && !Opens(s, call) && Finishes(s, call).Some? {
      FinishKeepsRecord(s, call);
    }
  }

  /** Exactly the stranding calls add to what is stranded. */
  lemma {:induction false} StrandedGrows(t: Trace, call: Call)
    requires NonNegativeBonds(t.state)
    ensures Advance(t, call).stranded >= t.stranded
    ensures Advance(t, call).stranded == t.stranded <==> !Strands(t.state, call)
  {
    assert ActiveBond(t.state, call.id) >= 0;
    if call.op.Dismiss? {
      assert Finishes(t.state, call).None?;
    }
  }

  /** Call `i` of the run strands a bond. */
  predicate StrandsAt(admin: Option<Address>, calls: seq<Call>, i: nat)
    requires i < |calls|
  {
    Strands(StateAt(admin, calls, i), calls[i])
  }

  lemma {:induction false} StrandedStep(admin: Option<Address>, calls: seq<Call>, k: nat)
    requires k < |calls| && NonNegativeBonds(StateAt(admin, calls, k))
    ensures StrandedAt(admin, calls, k + 1) >= StrandedAt(admin, calls, k)
    ensures StrandedAt(admin, calls, k + 1) == StrandedAt(admin, calls, k) <==> !StrandsAt(admin, calls, k)
  {
    StrandedGrows(RunTo(admin, calls, k), calls[k]);
  }

  function StrandedAt(admin: Option<Address>, calls: seq<Call>, k: nat): int
    requires k <= |calls|
  {
    RunTo(admin, calls, k).stranded
  }

  lemma {:induction false} RunKeepsBondsNonNegative(admin: Option<Address>, calls: seq<Call>, k: nat)
    requires k <= |calls| && forall c | c in calls && c.op.OpenDispute? :: c.op.bond >= 0
    ensures NonNegativeBonds(StateAt(admin, calls, k))
  {
    if k > 0 {
      RunKeepsBondsNonNegative(admin, calls, k - 1);
      BondsStayNonNegative(StateAt(admin, calls, k - 1), calls[k - 1]);
    }
  }

  lemma {:induction false} StrandedStepInRun(admin: Option<Address>, calls: seq<Call>, k: nat)
    requires k < |calls| && forall c | c in calls && c.op.OpenDispute? :: c.op.bond >= 0
    ensures StrandedAt(admin, calls, k + 1) >= StrandedAt(admin, calls, k)
    ensures StrandedAt(admin, calls, k + 1) == StrandedAt(admin, calls, k) <==> !StrandsAt(admin, calls, k)
  {
    RunKeepsBondsNonNegative(admin, calls, k);
    StrandedStep(admin, calls, k);
  }

  /** A sum that starts at 0 and grows at the marked places only is 0 while none is marked. */
  lemma {:induction false} StillZeroExactly(sums: seq<int>, marks: seq<bool>, k: nat)
    requires |sums| == |marks| + 1 && sums[0] == 0 && k <= |marks|
    requires forall i | 0 <= i < |marks| :: sums[i + 1] >= sums[i] && (sums[i + 1] == sums[i] <==> !marks[i])
    ensures sums[k] >= 0
    ensures sums[k] == 0 <==> forall i | 0 <= i < k :: !marks[i]
  {
    if k > 0 {
      StillZeroExactly(sums, marks, k - 1);
    }
  }

  lemma {:induction false} StrandedSums(admin: Option<Address>, calls: seq<Call>, sums: seq<int>, marks: seq<bool>)
    requires forall c | c in calls && c.op.OpenDispute? :: c.op.bond >= 0
    requires |marks| == |calls| && |sums| == |calls| + 1
    requires forall i: nat | i <= |calls| :: sums[i] == StrandedAt(admin, calls, i)
    requires forall i: nat | i < |calls| :: marks[i] == StrandsAt(admin, calls, i)
    ensures sums[0] == 0
    ensures forall i | 0 <= i < |marks| :: sums[i + 1] >= sums[i] && (sums[i + 1] == sums[i] <==> !marks[i])
  {
    assert StrandedAt(admin, calls, 0) == 0;
    forall i: nat | i < |marks|
      ensures sums[i + 1] >= sums[i] && (sums[i + 1] == sums[i] <==> !marks[i])
    {
      StrandedStepInRun(admin, calls, i);
    }
  }

  /** In a run with non-negative bonds nothing is stranded exactly when no call filed over,
      or dismissed, an active dispute with a positive bond. */
  lemma {:induction false} NothingStrandedExactly(admin: Option<Address>, calls: seq<Call>, k: nat)
    requires k <= |calls| && forall c | c in calls && c.op.OpenDispute? :: c.op.bond >= 0
    ensures StrandedAt(admin, calls, k) >= 0
    ensures StrandedAt(admin, calls, k) == 0 <==> forall i: nat | i < k :: !StrandsAt(admin, calls, i)
  {
    var sums := seq(|calls| + 1, i requires 0 <= i <= |calls| => StrandedAt(admin, calls, i));
    var marks := seq(|calls|, i requires 0 <= i < |calls| => StrandsAt(admin, calls, i));
    StrandedSums(admin, calls, sums, marks);
    StillZeroExactly(sums, marks, k);
    assert sums[k] == StrandedAt(admin, calls, k);
    assert forall i: nat | i < k :: marks[i] == StrandsAt(admin, calls, i);
  }

  /** Two calls that strand a bond: filing with a bond of 100, and the admin's dismissal. */
  lemma {:induction false} DismissalStrandsBond()
    ensures var file, dismiss := Call(2, 0, "d", OpenDispute("o", 100)), Call(1, 5, "d", Op.Dismiss);
            var t := RunTo(Some(1), [file, dismiss], 2);
            t.posted == 100 == t.stranded && t.settled == [] && t.state.payouts == map[] && t.state.fees == map[]
  {
    var file, dismiss := Call(2, 0, "d", OpenDispute("o", 100)), Call(1, 5, "d", Op.Dismiss);
    var calls := [file, dismiss];
    var t0, t1 := RunTo(Some(1), calls, 0), RunTo(Some(1), calls, 1);
    assert ActiveIds(map[]) == {};
    assert t1 == Advance(t0, file);
    assert "d" in t1.state.disputes && t1.state.disputes["d"] == Filed(0, 2, "o", 100);
    assert RunTo(Some(1), calls, 2) == Advance(t1, dismiss);
  }

  /** And two that strand one by overwriting: the second filing takes the first one's id. */
  lemma {:induction false} OverwritingStrandsBond()
    ensures var first, second := Call(2, 0, "d", OpenDispute("o", 100)), Call(3, 5, "d", OpenDispute("o", 7));
            var t := RunTo(Some(1), [first, second], 2);
            t.posted == 107 && t.stranded == 100 && t.settled == [] && t.state.payouts == map[]
            && "d" in t.state.disputes && t.state.disputes["d"].bond == 7
  {
    var first, second := Call(2, 0, "d", OpenDispute("o", 100)), Call(3, 5, "d", OpenDispute("o", 7));
    var calls := [first, second];
    var t0, t1 := RunTo(Some(1), calls, 0), RunTo(Some(1), calls, 1);
    assert ActiveIds(map[]) == {};
    assert t1 == Advance(t0, first);
    assert t1.state.disputes == map["d" := Filed(0, 2, "o", 100)];
    assert ActiveIds(t1.state.disputes) == {"d"};
    assert RunTo(Some(1), calls, 2) == Advance(t1, second);
  }

  // ------------------------------------------------------- the stored payouts

  function PayoutOf(x: Settlement): Payout
  {
    Payout(x.upheld, x.division.customer, x.division.feeTotal, x.division.share)
  }

  /** The present filing of `id` was settled, and its payout is the one stored. */
  ghost predicate PaidAsSettled(t: Trace, id: Symbol)
  {
    && id in t.current && id in t.state.payouts
    && exists x :: x in t.settled && x.opening == t.current[id] && t.state.payouts[id] == PayoutOf(x)
  }

  ghost predicate Unpaid(t: Trace, id: Symbol)
  {
    id in t.current && forall x | x in t.settled :: x.opening != t.current[id]
  }

  ghost predicate PaidExactlyIfNoted(t: Trace, id: Symbol)
    requires id in t.state.disputes
  {
    if t.state.disputes[id].resolution.Some? then PaidAsSettled(t, id) else Unpaid(t, id)
  }

  ghost predicate PayoutsInvariant(t: Trace)
  {
    && OpeningsInvariant(t)
    && forall id | id in t.state.disputes :: PaidExactlyIfNoted(t, id)
  }

  lemma {:induction false} SettlementIsPaid(t: Trace, call: Call)
    requires OpeningsInvariant(t) && !Opens(t.state, call) && Finishes(t.state, call).Some?
    requires Effect(t.state, call, Step(t.state, call))
    ensures PaidAsSettled(Advance(t, call), call.id)
    ensures call.id in Step(t.state, call).disputes && Step(t.state, call).disputes[call.id].resolution.Some?
  {
    var t' := Advance(t, call);
    assert t'.settled[|t'.settled| - 1] in t'.settled;
  }

  lemma {:induction false} FilingIsUnpaid(t: Trace, call: Call)
    requires OpeningsInvariant(t) && Opens(t.state, call)
    ensures Unpaid(Advance(t, call), call.id)
  {
  }

  /** A call that names another dispute, or neither opens nor settles this one, leaves its
      payment as it was. */
  lemma {:induction false} PaymentStays(t: Trace, call: Call, id: Symbol)
    requires OpeningsInvariant(t) && Effect(t.state, call, Step(t.state, call)) && id in t.state.disputes
    requires id != call.id || (!Opens(t.state, call) && Finishes(t.state, call).None?)
    ensures PaidAsSettled(t, id) ==> PaidAsSettled(Advance(t, call), id)
    ensures Unpaid(t, id) ==> Unpaid(Advance(t, call), id)
  {
    if PaidAsSettled(t, id) {
      var x :| x in t.settled && x.opening == t.current[id] && t.state.payouts[id] == PayoutOf(x);
      assert x in Advance(t, call).settled;
    }
  }

  lemma {:induction false} NoteStays(s: State, call: Call, id: Symbol)
    requires Effect(s, call, Step(s, call)) && id in Step(s, call).disputes
    requires id != call.id || (!Opens(s, call) && Finishes(s, call).None?)
    ensures id in s.disputes && Step(s, call).disputes[id].resolution == s.disputes[id].resolution
  {
    EffectTouchesOne(s, call, Step(s, call));
  }

  lemma {:induction false} StepKeepsPayment(t: Trace, call: Call, id: Symbol)
    requires PayoutsInvariant(t) && Effect(t.state, call, Step(t.state, call)) && id in Step(t.state, call).disputes
    ensures PaidExactlyIfNoted(Advance(t, call), id)
  {
    if id == call.id && Opens(t.state, call) {
      FilingIsUnpaid(t, call);
    } else if id == call.id && Finishes(t.state, call).Some? {
      SettlementIsPaid(t, call);
    } else {
      NoteStays(t.state, call, id);
      assert PaidExactlyIfNoted(t, id);
      PaymentStays(t, call, id);
    }
  }

  lemma {:induction false} StepKeepsPayouts(t: Trace, call: Call)
    requires PayoutsInvariant(t)
    ensures PayoutsInvariant(Advance(t, call))
  {
    StepEffect(t.state, call);
    StepKeepsOpenings(t, call);
    forall id | id in Step(t.state, call).disputes ensures PaidExactlyIfNoted(Advance(t, call), id) {
      StepKeepsPayment(t, call, id);
    }
  }

  lemma {:induction false} RunKeepsPayouts(admin: Option<Address>, calls: seq<Call>, k: nat)
    requires k <= |calls|
    ensures PayoutsInvariant(RunTo(admin, calls, k))
  {
    if k > 0 {
      RunKeepsPayouts(admin, calls, k - 1);
      StepKeepsPayouts(RunTo(admin, calls, k - 1), calls[k - 1]);
    }
  }

  /** In every reachable state the present filing of a dispute has been settled exactly when
      a resolution is noted on it: never while it is active, always when it shows as
      resolved, and when it shows as dismissed exactly if the note is there. */
  lemma {:induction false} PaidExactlyWhenNoted(admin: Option<Address>, calls: seq<Call>, k: nat, id: Symbol)
    requires k <= |calls| && id in StateAt(admin, calls, k).disputes
    ensures var t := RunTo(admin, calls, k);
            var d := t.state.disputes[id];
            && id in t.current
            && (d.resolution.Some? <==> exists x :: x in t.settled && x.opening == t.current[id])
            && (d.status.IsActive() ==> d.resolution.None?)
            && (d.status.Resolved? ==> d.resolution.Some?)
  {
    RunKeepsPayouts(admin, calls, k);
    RunKeepsRecords(admin, calls, k);
    assert PaidExactlyIfNoted(RunTo(admin, calls, k), id);
    assert WellRecorded(RunTo(admin, calls, k).state.disputes[id]);
  }

  /** Such a filing has exactly one settlement, and the payout stored under the id is that
      settlement's division. */
  lemma {:induction false} NotedExactlyOnce(admin: Option<Address>, calls: seq<Call>, k: nat, id: Symbol)
      returns (i: nat)
    requires k <= |calls| && id in StateAt(admin, calls, k).disputes
    requires StateAt(admin, calls, k).disputes[id].resolution.Some?
    ensures var t := RunTo(admin, calls, k);
            && i < |t.settled| && id in t.current && t.settled[i].opening == t.current[id]
            && id in t.state.payouts && t.state.payouts[id] == PayoutOf(t.settled[i])
            && forall j | 0 <= j < |t.settled| && t.settled[j].opening == t.current[id] :: j == i
  {
    var t := RunTo(admin, calls, k);
    RunKeepsPayouts(admin, calls, k);
    assert PaidExactlyIfNoted(t, id);
    var x :| x in t.settled && x.opening == t.current[id] && t.state.payouts[id] == PayoutOf(x);
    i :| 0 <= i < |t.settled| && t.settled[i] == x;
  }

  /** A payout stored under the id of a dispute belongs to its present filing exactly when a
      resolution is noted on it; otherwise it is left over from an earlier filing. */
  lemma {:induction false} PayoutIsCurrentExactly(admin: Option<Address>, calls: seq<Call>, k: nat, id: Symbol)
    requires k <= |calls| && id in StateAt(admin, calls, k).disputes
    ensures PaidAsSettled(RunTo(admin, calls, k), id) <==> StateAt(admin, calls, k).disputes[id].resolution.Some?
  {
    var t := RunTo(admin, calls, k);
    RunKeepsPayouts(admin, calls, k);
    assert PaidExactlyIfNoted(t, id);
  }

  /** Such a leftover: a dispute is resolved and its id filed again; the open dispute then has
      the payout of the first filing under its id. */
  lemma {:induction false} PayoutOutlivesFiling()
    ensures var calls := [Call(2, 0, "d", OpenDispute("o", 100)), Call(1, 5, "d", Op.Resolve("yes", false)),
                          Call(3, 9, "d", OpenDispute("o", 7))];
            var t := RunTo(Some(1), calls, 3);
            && "d" in t.state.disputes && t.state.disputes["d"].status.Open?
            && "d" in t.state.payouts && t.state.payouts["d"].customer == 100 && !PaidAsSettled(t, "d")
  {
    var calls := [Call(2, 0, "d", OpenDispute("o", 100)), Call(1, 5, "d", Op.Resolve("yes", false)),
                  Call(3, 9, "d", OpenDispute("o", 7))];
    var empty := State(Some(1), map[], map[], map[], 0);
    assert ActiveIds(empty.disputes) == {};
    assert StateAt(Some(1), calls, 0) == empty;
    var s1, s2 := StateAt(Some(1), calls, 1), StateAt(Some(1), calls, 2);
    assert s1 == DoOpen(empty, 0, 2, "d", "o", 100).0;
    assert s2 == DoResolve(s1, 5, 1, "d", "yes", false).0;
    ActiveIdsSet(s1.disputes, "d", s2.disputes["d"]);
    ActiveIdsSet(empty.disputes, "d", s1.disputes["d"]);
    assert ActiveIds(s2.disputes) == {};
    assert StateAt(Some(1), calls, 3) == DoOpen(s2, 9, 3, "d", "o", 7).0;
    PayoutIsCurrentExactly(Some(1), calls, 3, "d");
  }
}
