/** The operator handover over whole runs. Unlike a proposal of a new admin, a proposal of
    a new operator outlives the admin who made it, and its acceptance asks for no admin. */
module OperatorRuns {
  import opened Ints
  import opened SlaTypes
  import opened ContractState
  import opened ContractRuns
  import SlaMath

  // ------------------------------------------------ what moves the two offices

  /** The calls by which the admin changes. */
  predicate AdminMoves(s: State, call: Call)
  {
    || Restarts(s, call)
    || (VersionFault(s).None?
        && if s.admin == Some(call.caller) then call.op.RenounceAdmin?
           else call.op.AcceptAdmin? && Ripe(s.pendingAdmin, call.caller, call.now))
  }

  lemma {:induction false} AdminChangesExactly(s: State, call: Call, digest: Digest)
    ensures Step(s, call, digest).admin != s.admin <==> AdminMoves(s, call)
  {
    if !IsRoleOp(call.op) {
      WorkCallsFrame(s, call, digest);
    }
  }

  /** The calls by which the operator changes, whoever makes them. */
  predicate OperatorIsMoved(s: State, call: Call)
  {
    || OperatorMoves(s, call)
    || (Restarts(s, call) && s.operator != Some(call.op.operator))
    || (AdminFault(s, call.caller).None?
        && match call.op
           case SetOperator(a) => s.operator != Some(a)
           case RevokeOperator => s.operator.Some?
           case _ => false)
  }

  lemma {:induction false} OperatorChangesExactly(s: State, call: Call, digest: Digest)
    ensures Step(s, call, digest).operator != s.operator <==> OperatorIsMoved(s, call)
  {
    if !IsRoleOp(call.op) {
      WorkCallsFrame(s, call, digest);
    } else if s.admin != Some(call.caller) && !Restarts(s, call) {
      OperatorNeedsAdmin(s, call, digest);
    } else {
      OperatorByAdmin(s, call, digest);
    }
  }

  lemma {:induction false} OperatorByAdmin(s: State, call: Call, digest: Digest)
    requires IsRoleOp(call.op) && (s.admin == Some(call.caller) || Restarts(s, call))
    ensures Step(s, call, digest).operator != s.operator <==> OperatorIsMoved(s, call)
  {
  }

  /** Without an operator a calculation fails as if the contract were not initialized; it
      is refused as unauthorized exactly when someone else is operator. */
  lemma {:induction false} UnauthorizedExactly(s: State, digest: Digest, now: u64, caller: Address, id: Symbol,
                                               severity: Symbol, mttr: u32)
    requires VersionFault(s).None? && SlaMath.IsCanonical(severity) && !s.paused
    ensures DoCalculateSla(s, digest, now, caller, id, severity, mttr).1 == Err(Unauthorized)
            <==> s.operator.Some? && s.operator.value != caller
    ensures s.operator.None? ==> DoCalculateSla(s, digest, now, caller, id, severity, mttr).1 == Err(NotInitialized)
  {
  }

  // -------------------------------------------------- where a proposal comes from

  /** A call that replaces the pending proposal of an operator. */
  predicate Proposes(s: State, call: Call)
  {
    call.op.ProposeOperator? && AdminFault(s, call.caller).None?
  }

  /** A call that withdraws it, or the office it is for. */
  predicate Withdraws(s: State, call: Call)
  {
    || ((call.op.CancelOperatorProposal? || call.op.RevokeOperator?) && AdminFault(s, call.caller).None?)
    || (call.op.RenounceOperator? && HolderFault(s, call.caller).None?)
  }

  lemma {:induction false} PendingOperatorStep(s: State, call: Call, digest: Digest)
    requires Step(s, call, digest).pendingOperator.Some?
    ensures !Withdraws(s, call)
    ensures Step(s, call, digest).pendingOperator ==
            if Proposes(s, call) then Some(Proposal(call.op.address, call.now)) else s.pendingOperator
  {
    if !IsRoleOp(call.op) {
      WorkCallsFrame(s, call, digest);
    }
  }

  /** Call `i` proposed `p`; its caller was admin then. */
  ghost predicate OperatorProposedAt(calls: seq<Call>, digest: Digest, i: nat, p: Proposal)
    requires i < |calls|
  {
    && calls[i].op == ProposeOperator(p.target) && calls[i].now == p.proposedAt
    && StateAt(calls, i, digest).admin == Some(calls[i].caller)
  }

  /** From point `i` to point `k` the proposal `p` stood; none replaced it, and no call
      cancelled it, revoked the operator or renounced. */
  ghost predicate Stood(calls: seq<Call>, digest: Digest, i: nat, k: nat, p: Proposal)
    requires i <= k <= |calls|
  {
    && (forall j: nat | i <= j <= k :: StateAt(calls, j, digest).pendingOperator == Some(p))
    && (forall j: nat | i <= j < k ::
          !Proposes(StateAt(calls, j, digest), calls[j]) && !Withdraws(StateAt(calls, j, digest), calls[j]))
  }

  lemma {:induction false} StoodLonger(calls: seq<Call>, digest: Digest, i: nat, k: nat, p: Proposal)
    requires i <= k < |calls| && Stood(calls, digest, i, k, p)
    requires StateAt(calls, k + 1, digest).pendingOperator == Some(p)
    requires !Proposes(StateAt(calls, k, digest), calls[k]) && !Withdraws(StateAt(calls, k, digest), calls[k])
    ensures Stood(calls, digest, i, k + 1, p)
  {
  }

  lemma {:induction false} NothingProposedYet(calls: seq<Call>, digest: Digest)
    ensures StateAt(calls, 0, digest).pendingOperator.None?
  {
  }

  /** In every reachable state a pending proposal of an operator was made by whoever was
      admin at some earlier point, and has stood since. */
  lemma {:induction false} PendingOperatorWasProposed(calls: seq<Call>, k: nat, digest: Digest) returns (i: nat)
    requires k <= |calls| && StateAt(calls, k, digest).pendingOperator.Some?
    ensures i < k && OperatorProposedAt(calls, digest, i, StateAt(calls, k, digest).pendingOperator.value)
    ensures Stood(calls, digest, i + 1, k, StateAt(calls, k, digest).pendingOperator.value)
  {
    if k == 0 {
      NothingProposedYet(calls, digest);
      assert false;
    } else {
      var s := StateAt(calls, k - 1, digest);
      StateSteps(calls, k - 1, digest);
      PendingOperatorStep(s, calls[k - 1], digest);
      if Proposes(s, calls[k - 1]) {
        i := k - 1;
      } else {
        i := PendingOperatorWasProposed(calls, k - 1, digest);
        StoodLonger(calls, digest, i + 1, k - 1, s.pendingOperator.value);
      }
    }
  }

  // ------------------------------------------------------ whose proposal it is

  /** The last of the calls from `i` up to `k` that changed the admin, if any did. */
  function LastAdminMove(calls: seq<Call>, i: nat, k: nat, digest: Digest): (j: Option<nat>)
    requires i <= k <= |calls|
    ensures j.Some? ==> i <= j.value < k
    decreases k
  {
    if i == k then None
    else if AdminMoves(StateAt(calls, k - 1, digest), calls[k - 1]) then Some(k - 1)
    else LastAdminMove(calls, i, k - 1, digest)
  }

  /** An admin move that puts `a` into office. */
  predicate Installs(call: Call, a: Address)
  {
    (call.op.Initialize? && call.op.admin == a) || (call.op.AcceptAdmin? && call.caller == a)
  }

  lemma {:induction false} MoveInstalls(s: State, call: Call, digest: Digest, a: Address)
    requires AdminMoves(s, call)
    ensures Step(s, call, digest).admin == Some(a) <==> Installs(call, a)
  {
  }

  /** Who is admin at point `k`, seen from point `i`: whoever was, if no call moved the
      office since; otherwise whom the last such call installed. */
  lemma {:induction false} AdminByLastMove(calls: seq<Call>, i: nat, k: nat, digest: Digest, a: Address)
    requires i <= k <= |calls|
    ensures var last := LastAdminMove(calls, i, k, digest);
            StateAt(calls, k, digest).admin == Some(a) <==>
            if last.Some? then Installs(calls[last.value], a) else StateAt(calls, i, digest).admin == Some(a)
    decreases k
  {
    if i < k {
      AdminAfterCall(calls, k - 1, digest, a);
      if !AdminMoves(StateAt(calls, k - 1, digest), calls[k - 1]) {
        AdminByLastMove(calls, i, k - 1, digest, a);
      }
    }
  }

  lemma {:induction false} AdminAfterCall(calls: seq<Call>, k: nat, digest: Digest, a: Address)
    requires k < |calls|
    ensures StateAt(calls, k + 1, digest).admin == Some(a) <==>
            if AdminMoves(StateAt(calls, k, digest), calls[k]) then Installs(calls[k], a)
            else StateAt(calls, k, digest).admin == Some(a)
  {
    var s := StateAt(calls, k, digest);
    StateSteps(calls, k, digest);
    AdminChangesExactly(s, calls[k], digest);
    if AdminMoves(s, calls[k]) {
      MoveInstalls(s, calls[k], digest, a);
    }
  }

  /** A pending proposal is the sitting admin's own exactly when no call has moved the
      office since it was made, or the last that did put the proposer back. */
  lemma {:induction false} PendingOperatorIsSittingAdminsExactly(calls: seq<Call>, k: nat, digest: Digest)
    returns (i: nat)
    requires k <= |calls| && StateAt(calls, k, digest).pendingOperator.Some?
    ensures i < k && OperatorProposedAt(calls, digest, i, StateAt(calls, k, digest).pendingOperator.value)
    ensures Stood(calls, digest, i + 1, k, StateAt(calls, k, digest).pendingOperator.value)
    ensures var last := LastAdminMove(calls, i, k, digest);
            StateAt(calls, k, digest).admin == Some(calls[i].caller) <==>
            last.None? || Installs(calls[last.value], calls[i].caller)
  {
    i := PendingOperatorWasProposed(calls, k, digest);
    AdminByLastMove(calls, i, k, digest, calls[i].caller);
  }

  /** Every acceptance by which the operator changes is one of a proposal that somebody made
      as admin at most 604800 seconds ago and that has stood since; the sitting admin made
      it exactly under the condition above. */
  lemma {:induction false} AcceptedOperatorWasProposed(calls: seq<Call>, k: nat, digest: Digest) returns (i: nat)
    requires Clocked(calls) && k < |calls|
    requires calls[k].op.AcceptOperator? && StateAt(calls, k + 1, digest).operator != StateAt(calls, k, digest).operator
    ensures StateAt(calls, k + 1, digest).operator == Some(calls[k].caller)
    ensures i < k && OperatorProposedAt(calls, digest, i, Proposal(calls[k].caller, calls[i].now))
    ensures Stood(calls, digest, i + 1, k, Proposal(calls[k].caller, calls[i].now))
    ensures 0 <= calls[k].now - calls[i].now <= PROPOSAL_EXPIRATION_SECONDS
    ensures var last := LastAdminMove(calls, i, k, digest);
            StateAt(calls, k, digest).admin == Some(calls[i].caller) <==>
            last.None? || Installs(calls[last.value], calls[i].caller)
  {
    StateSteps(calls, k, digest);
    AcceptanceIsRipe(StateAt(calls, k, digest), calls[k], digest);
    i := PendingOperatorIsSittingAdminsExactly(calls, k, digest);
    assert calls[i].now <= calls[k].now;
  }

  lemma {:induction false} AcceptanceIsRipe(s: State, call: Call, digest: Digest)
    requires call.op.AcceptOperator? && Step(s, call, digest).operator != s.operator
    ensures Ripe(s.pendingOperator, call.caller, call.now) && Step(s, call, digest).operator == Some(call.caller)
  {
  }

  // -------------------------------------------------------------- the two inputs

  const PROPOSE_AND_LEAVE: seq<Call> :=
    [Call(1, 0, Initialize(1, 2)), Call(1, 1, ProposeOperator(3)), Call(1, 2, RenounceAdmin)]

  /** What storage holds after these three calls. */
  function AfterLeaving(): State
  {
    DoInitialize(EMPTY_STATE, 1, 2).0.(pendingOperator := Some(Proposal(3, 1)), admin := None)
  }

  lemma {:induction false} LeavingLeavesProposal(calls: seq<Call>, digest: Digest)
    requires PROPOSE_AND_LEAVE <= calls
    ensures StateAt(calls, 3, digest) == AfterLeaving()
  {
    assert calls[0] == PROPOSE_AND_LEAVE[0] && calls[1] == PROPOSE_AND_LEAVE[1] && calls[2] == PROPOSE_AND_LEAVE[2];
    assert StateAt(calls, 0, digest) == EMPTY_STATE;
    StateSteps(calls, 0, digest);
    StateSteps(calls, 1, digest);
    assert StateAt(calls, 2, digest) == DoInitialize(EMPTY_STATE, 1, 2).0.(pendingOperator := Some(Proposal(3, 1)));
    StateSteps(calls, 2, digest);
  }

  /** An admin names a successor to the operator and renounces; the acceptance then changes
      the operator of a contract that has no admin. */
  lemma {:induction false} OperatorChangesInVacancy(digest: Digest)
    ensures var calls := PROPOSE_AND_LEAVE + [Call(3, 3, AcceptOperator)];
            && StateAt(calls, 3, digest).admin == None && StateAt(calls, 3, digest).operator == Some(2)
            && StateAt(calls, 4, digest).admin == None && StateAt(calls, 4, digest).operator == Some(3)
  {
    var calls := PROPOSE_AND_LEAVE + [Call(3, 3, AcceptOperator)];
    LeavingLeavesProposal(calls, digest);
    StateSteps(calls, 3, digest);
  }

  /** With a new initialization in between, the acceptance replaces the operator whom the
      new admin chose by one whom that admin never named. */
  lemma {:induction false} OperatorForcedOnNewAdmin(digest: Digest)
    ensures var calls := PROPOSE_AND_LEAVE + [Call(9, 3, Initialize(9, 8)), Call(3, 4, AcceptOperator)];
            && StateAt(calls, 4, digest).admin == Some(9) && StateAt(calls, 4, digest).operator == Some(8)
            && StateAt(calls, 5, digest).admin == Some(9) && StateAt(calls, 5, digest).operator == Some(3)
  {
    var calls := PROPOSE_AND_LEAVE + [Call(9, 3, Initialize(9, 8)), Call(3, 4, AcceptOperator)];
    LeavingLeavesProposal(calls, digest);
    StateSteps(calls, 3, digest);
    StateSteps(calls, 4, digest);
  }
}
