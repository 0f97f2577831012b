/** The dispute module's stored state and what each of its functions does to it
    (dispute.rs), as functions. */
module DisputeState {
  import opened Ints
  import opened SlaTypes

  const MAX_ACTIVE_DISPUTES: nat := 50
  const ARBITRATOR_FEE_BPS: int := 500
  const BPS_DENOMINATOR: int := 10000
  const ARBITRATION_WINDOW_SECS: int := 14 * 24 * 60 * 60
  const PANEL_SIZE: nat := 3
  const QUORUM: nat := 2
  const NO_EVIDENCE: Hash := 0

  datatype Error =
    | NotAdmin | MissingAdmin | UnknownDispute | InvalidTransition | MaxActiveDisputesReached
    | DisputeNotActive | NotDisputeFiler | InvalidArbitratorPanel | ArbitrationWindowNotExpired

  datatype Outcome<+T> = Done(value: T) | Failed(error: Error)

  datatype Status = Open | UnderReview | Escalated | Resolved | Dismissed
  {
    predicate IsActive() { Open? || UnderReview? || Escalated? }
  }

  datatype Level = L1Support | L2Engineering | L3Management

  datatype Decision = UpholdOutage | DismissOutage

  datatype Vote = Vote(arbitrator: Address, decision: Decision, frivolous: bool)

  datatype Dispute = Dispute(
    outageId: Symbol,
    openedBy: Address,
    openedAt: u64,
    status: Status,
    level: Level,
    resolution: Option<string>,
    resolvedBy: Option<Address>,
    resolvedAt: Option<u64>,
    bond: i128,
    evidenceHash: Hash,
    evidenceHistory: seq<Hash>,
    voters: seq<Address>,
    votes: seq<Vote>,
    panel: seq<Address>,
    deadline: u64)

  /** A settlement record: the customer's refund, the 5% fee and each voter's share. */
  datatype Payout = Payout(upheld: bool, customer: i128, feeTotal: i128, share: i128)

  datatype State = State(
    admin: Option<Address>,
    disputes: map<Symbol, Dispute>,
    fees: map<Address, i128>,
    payouts: map<Symbol, Payout>,
    pool: i128)

  function AdminFault(s: State, caller: Address): Option<Error>
  {
    if s.admin.None? then Some(MissingAdmin) else if s.admin.value != caller then Some(NotAdmin) else None
  }

  // ------------------------------------------------------------------ filing

  function ActiveIds(disputes: map<Symbol, Dispute>): set<Symbol>
  {
    set id | id in disputes && disputes[id].status.IsActive()
  }

  /** The record written for a new filing. Neither an earlier record under the same id
      nor the evidence hash handed in leaves a trace in it. */
  function Filed(now: u64, caller: Address, outageId: Symbol, bond: i128): Dispute
  {
    Dispute(outageId, caller, now, Open, L1Support, None, None, None, bond, NO_EVIDENCE, [], [], [], [],
            WrapU64(now + ARBITRATION_WINDOW_SECS))
  }

  function DoOpen(s: State, now: u64, caller: Address, id: Symbol, outageId: Symbol, bond: i128): (State, Outcome<()>)
  {
    if |ActiveIds(s.disputes)| >= MAX_ACTIVE_DISPUTES then (s, Failed(MaxActiveDisputesReached))
    else (s.(disputes := s.disputes[id := Filed(now, caller, outageId, bond)]), Done(()))
  }

  function DoEscalate(s: State, caller: Address, id: Symbol): (State, Outcome<()>)
  {
    if AdminFault(s, caller).Some? then (s, Failed(AdminFault(s, caller).value))
    else if id !in s.disputes then (s, Failed(UnknownDispute))
    else
      var d := s.disputes[id];
      if !(d.status.Open? || d.status.UnderReview?) || d.level.L3Management? then (s, Failed(InvalidTransition))
      else
        var level := if d.level.L1Support? then L2Engineering else L3Management;
        (s.(disputes := s.disputes[id := d.(level := level, status := Escalated)]), Done(()))
  }

  function DoAddEvidence(s: State, caller: Address, id: Symbol, hash: Hash): (State, Outcome<()>)
  {
    if id !in s.disputes then (s, Failed(UnknownDispute))
    else
      var d := s.disputes[id];
      if d.openedBy != caller then (s, Failed(NotDisputeFiler))
      else if !d.status.IsActive() then (s, Failed(DisputeNotActive))
      else
        (s.(disputes := s.disputes[id := d.(evidenceHistory := d.evidenceHistory + [hash], evidenceHash := hash)]),
            Done(()))
  }

  function DoAssignPanel(s: State, caller: Address, id: Symbol, panel: seq<Address>): (State, Outcome<()>)
  {
    if AdminFault(s, caller).Some? then (s, Failed(AdminFault(s, caller).value))
    else if |panel| != PANEL_SIZE then (s, Failed(InvalidArbitratorPanel))
    else if id !in s.disputes then (s, Failed(UnknownDispute))
    else if !s.disputes[id].status.IsActive() then (s, Failed(DisputeNotActive))
    else (s.(disputes := s.disputes[id := s.disputes[id].(panel := panel)]), Done(()))
  }

  // -------------------------------------------------------------- settlement

  /** How a bond is divided: `pool` is the part sent to the arbitration pool. */
  datatype Division = Division(customer: i128, feeTotal: i128, share: i128, pool: i128)

  /** The fee product is a plain i128 multiplication and wraps. */
  function FeeOf(bond: i128, voters: nat, upheld: bool): i128
  {
    if upheld && voters > 0 then TruncDiv(WrapI128(bond * ARBITRATOR_FEE_BPS), BPS_DENOMINATOR) else 0
  }

  function Divide(bond: i128, voters: nat, upheld: bool, slash: bool): Division
  {
    if slash then Division(0, 0, 0, bond)
    else
      var fee := FeeOf(bond, voters, upheld);
      Division(WrapI128(bond - fee), fee, if voters > 0 then TruncDiv(fee, voters) else 0, 0)
  }

  /** Credit `share` to every voter in turn; a balance is an i128 and wraps. */
  function CreditAll(fees: map<Address, i128>, voters: seq<Address>, share: i128): map<Address, i128>
  {
    if |voters| == 0 then fees
    else
      var before := CreditAll(fees, voters[..|voters| - 1], share);
      var a := voters[|voters| - 1];
      before[a := WrapI128((if a in before then before[a] else 0) + share)]
  }

  /** What a settlement is handed: the dispute with its votes, who settles it, the text to
      note, which side won, and whether the bond is slashed. */
  datatype Finish = Finish(dispute: Dispute, resolver: Address, resolution: string, upheld: bool, slash: bool)

  /** `settle_dispute`, the one path all three ways of finishing a dispute end in. */
  function Settle(s: State, now: u64, id: Symbol, f: Finish): (State, Payout)
  {
    var d := f.dispute;
    var v := Divide(d.bond, |d.voters|, f.upheld, f.slash);
    var payout := Payout(f.upheld, v.customer, v.feeTotal, v.share);
    (s.(disputes := s.disputes[id := d.(status := Resolved, resolution := Some(f.resolution),
                                        resolvedBy := Some(f.resolver), resolvedAt := Some(now))],
        fees := if v.share > 0 then CreditAll(s.fees, d.voters, v.share) else s.fees,
        pool := if v.pool > 0 then WrapI128(s.pool + v.pool) else s.pool,
        payouts := s.payouts[id := payout]),
     payout)
  }

  // ------------------------------------------------------------------ voting

  function CountVotes(votes: seq<Vote>, decision: Decision): nat
  {
    if |votes| == 0 then 0
    else CountVotes(votes[..|votes| - 1], decision) + if votes[|votes| - 1].decision == decision then 1 else 0
  }

  predicate AllFrivolousDismiss(votes: seq<Vote>)
  {
    forall v | v in votes :: v.decision == DismissOutage && v.frivolous
  }

  const UPHELD_NOTE: string := "Auto-resolved: arbitrator quorum upheld the outage breach"
  const SLASHED_NOTE: string := "Auto-resolved: unanimous frivolous dismissal, bond slashed to arbitration pool"
  const DISMISSED_NOTE: string := "Auto-resolved: arbitrator quorum dismissed the outage breach"
  const EXPIRED_NOTE: string := "Auto-resolved: arbitration window expired, defaulted in favor of filer"

  datatype Verdict = Verdict(upheld: bool, slash: bool, resolution: string)

  /** `try_tally_quorum`: the winning side, whether the bond is slashed, and the text. */
  function Tally(votes: seq<Vote>): Option<Verdict>
  {
    var uphold, dismiss := CountVotes(votes, UpholdOutage), CountVotes(votes, DismissOutage);
    if uphold >= QUORUM then Some(Verdict(true, false, UPHELD_NOTE))
    else if dismiss >= QUORUM then
      var slash := uphold + dismiss == PANEL_SIZE && AllFrivolousDismiss(votes);
      Some(Verdict(false, slash, if slash then SLASHED_NOTE else DISMISSED_NOTE))
    else None
  }

  /** The dispute after a vote; a repeated vote leaves it as it is. */
  function WithVote(d: Dispute, arbitrator: Address, decision: Decision, frivolous: bool): Dispute
  {
    if arbitrator in d.voters then d
    else d.(voters := d.voters + [arbitrator], votes := d.votes + [Vote(arbitrator, decision, frivolous)])
  }

  function DoCastVote(s: State, now: u64, caller: Address, id: Symbol, decision: Decision, frivolous: bool)
    : (State, Outcome<Option<Payout>>)
  {
    if id !in s.disputes then (s, Failed(UnknownDispute))
    else
      var d := s.disputes[id];
      if !d.status.IsActive() then (s, Failed(DisputeNotActive))
      else if |d.panel| > 0 && caller !in d.panel then (s, Failed(InvalidArbitratorPanel))
      else
        var d' := WithVote(d, caller, decision, frivolous);
        match Tally(d'.votes)
        case Some(won) =>
          var settled := Settle(s, now, id, Finish(d', caller, won.resolution, won.upheld, won.slash));
          (settled.0, Done(Some(settled.1)))
        case None => (s.(disputes := s.disputes[id := d']), Done(None))
  }

  // -------------------------------------------------- the other ways to finish

  function DoResolve(s: State, now: u64, caller: Address, id: Symbol, resolution: string, upheld: bool)
    : (State, Outcome<Payout>)
  {
    if AdminFault(s, caller).Some? then (s, Failed(AdminFault(s, caller).value))
    else if id !in s.disputes then (s, Failed(UnknownDispute))
    else if !s.disputes[id].status.IsActive() then (s, Failed(InvalidTransition))
    else
      var settled := Settle(s, now, id, Finish(s.disputes[id], caller, resolution, upheld, false));
      (settled.0, Done(settled.1))
  }

  function DoAutoResolve(s: State, now: u64, id: Symbol): (State, Outcome<Payout>)
  {
    if id !in s.disputes then (s, Failed(UnknownDispute))
    else if !s.disputes[id].status.IsActive() then (s, Failed(DisputeNotActive))
    else if now <= s.disputes[id].deadline then (s, Failed(ArbitrationWindowNotExpired))
    else
      var settled := Settle(s, now, id, Finish(s.disputes[id], s.disputes[id].openedBy, EXPIRED_NOTE, true, false));
      (settled.0, Done(settled.1))
  }

  /** Whatever the status was; nothing is paid to anyone, and a resolution stays noted. */
  function DoDismiss(s: State, now: u64, caller: Address, id: Symbol): (State, Outcome<()>)
  {
    if AdminFault(s, caller).Some? then (s, Failed(AdminFault(s, caller).value))
    else if id !in s.disputes then (s, Failed(UnknownDispute))
    else
      var d := s.disputes[id].(status := Dismissed, resolvedBy := Some(caller), resolvedAt := Some(now));
      (s.(disputes := s.disputes[id := d]), Done(()))
  }

  // -------------------------------------------------------------- one call

  /** The last is no call of this module: the rest of the contract may change the stored
      admin between any two of them. */
  datatype Op =
    | OpenDispute(outageId: Symbol, bond: i128)
    | Escalate
    | AddEvidence(hash: Hash)
    | AssignPanel(panel: seq<Address>)
    | CastVote(decision: Decision, frivolous: bool)
    | Resolve(resolution: string, upheld: bool)
    | AutoResolve
    | Dismiss
    | OfficeChanges(to: Option<Address>)

  datatype Call = Call(caller: Address, now: u64, id: Symbol, op: Op)

  function Step(s: State, call: Call): State
  {
    match call.op
    case OpenDispute(outage, bond) => DoOpen(s, call.now, call.caller, call.id, outage, bond).0
    case Escalate => DoEscalate(s, call.caller, call.id).0
    case AddEvidence(hash) => DoAddEvidence(s, call.caller, call.id, hash).0
    case AssignPanel(panel) => DoAssignPanel(s, call.caller, call.id, panel).0
    case CastVote(decision, frivolous) => DoCastVote(s, call.now, call.caller, call.id, decision, frivolous).0
    case Resolve(text, upheld) => DoResolve(s, call.now, call.caller, call.id, text, upheld).0
    case AutoResolve => DoAutoResolve(s, call.now, call.id).0
    case Dismiss => DoDismiss(s, call.now, call.caller, call.id).0
    case OfficeChanges(to) => s.(admin := to)
  }
}
