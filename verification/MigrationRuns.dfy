/** What the emergency migration does to a run. It raises the stored version beyond the one
    this code accepts, and no migration step brings it back. */
module MigrationRuns {
  import opened Ints
  import opened SlaTypes
  import opened ContractState
  import opened ContractRuns

  predicate Locked(s: State)
  {
    s.version == Some(STORAGE_VERSION + 1)
  }

  /** The stored version changes exactly when the key is used, or when a new `initialize`
      finds another version or none. */
  lemma {:induction false} VersionChangesExactly(s: State, call: Call, digest: Digest)
    requires Initialized(s)
    ensures Step(s, call, digest).version != s.version
            <==> KeyMigrates(s, call) || (Restarts(s, call) && s.version != Some(STORAGE_VERSION))
  {
    if !IsRoleOp(call.op) {
      WorkCallsFrame(s, call, digest);
    }
  }

  /** A locked contract changes by a new `initialize` and by nothing else, and that needs
      a vacant office; `migrate` refuses even the admin. */
  lemma {:induction false} LockedChangesExactly(s: State, call: Call, digest: Digest)
    requires Locked(s)
    ensures Step(s, call, digest) != s <==> Restarts(s, call)
    ensures s.admin == Some(call.caller) ==> DoMigrate(s, call.caller) == (s, Err(VersionMismatch))
    ensures Restarts(s, call) ==> Step(s, call, digest).version == Some(STORAGE_VERSION)
  {
    if IsRoleOp(call.op) {
      LockedRoles(s, call, digest);
    } else {
      WorkCallsFrame(s, call, digest);
    }
  }

  lemma {:induction false} LockedRoles(s: State, call: Call, digest: Digest)
    requires Locked(s) && IsRoleOp(call.op)
    ensures Step(s, call, digest) != s <==> Restarts(s, call)
  {
  }

  lemma {:induction false} LockedStep(calls: seq<Call>, k: nat, digest: Digest, s: State)
    requires k < |calls| && Locked(s) && StateAt(calls, k, digest) == s && !Restarts(s, calls[k])
    ensures StateAt(calls, k + 1, digest) == s
  {
    StateSteps(calls, k, digest);
    LockedChangesExactly(s, calls[k], digest);
  }

  /** From the moment it is locked, in some state `s`, the contract stands still until someone
      can initialize it anew. */
  lemma {:induction false} LockedUntilRestart(calls: seq<Call>, i: nat, k: nat, digest: Digest, s: State)
    requires i <= k <= |calls| && Locked(s) && StateAt(calls, i, digest) == s
    requires forall c | c in calls[i..k] :: !Restarts(s, c)
    ensures StateAt(calls, k, digest) == s
    decreases k
  {
    if i < k {
      assert calls[i..k] == calls[i..k - 1] + [calls[k - 1]];
      LockedUntilRestart(calls, i, k - 1, digest, s);
      LockedStep(calls, k - 1, digest, s);
    }
  }

  /** With an admin in office no one can: whatever anyone calls, nothing in storage ever
      changes again. */
  lemma {:induction false} LockedForeverUnderAdmin(calls: seq<Call>, i: nat, k: nat, digest: Digest)
    requires i <= k <= |calls| && Locked(StateAt(calls, i, digest)) && StateAt(calls, i, digest).admin.Some?
    ensures StateAt(calls, k, digest) == StateAt(calls, i, digest)
  {
    LockedUntilRestart(calls, i, k, digest, StateAt(calls, i, digest));
  }

  /** In every reachable state storage is untouched or initialized, and
      the stored version is the current one or the locked one. */
  lemma {:induction false} ReachableVersions(calls: seq<Call>, k: nat, digest: Digest)
    requires k <= |calls|
    ensures var s := StateAt(calls, k, digest);
            s == EMPTY_STATE || s.version == Some(STORAGE_VERSION) || Locked(s)
  {
    RunKeepsTally(calls, k, digest);
  }

  const LOCKING: seq<Call> :=
    [Call(1, 0, Initialize(1, 2)), Call(1, 0, SetMigrationKey(5)), Call(5, 1209600, ExecuteMigration)]

  /** Such a run: the key is set, and used after the timelock. Now the contract is locked with
      its admin in office. */
  lemma {:induction false} MigrationLocks(digest: Digest)
    ensures StateAt(LOCKING, 3, digest) == DoInitialize(EMPTY_STATE, 1, 2).0.(version := Some(STORAGE_VERSION + 1))
    ensures Locked(StateAt(LOCKING, 3, digest)) && StateAt(LOCKING, 3, digest).admin == Some(1)
  {
    assert StateAt(LOCKING, 0, digest) == EMPTY_STATE;
    StateSteps(LOCKING, 0, digest);
    assert StateAt(LOCKING, 1, digest) == DoInitialize(EMPTY_STATE, 1, 2).0;
    StateSteps(LOCKING, 1, digest);
    assert StateAt(LOCKING, 2, digest) == DoInitialize(EMPTY_STATE, 1, 2).0.(migrationKey := Some(Proposal(5, 0)));
    StateSteps(LOCKING, 2, digest);
  }
}
