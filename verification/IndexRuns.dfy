/** The event index beside a run of the contract: the index is built at one point and
    consulted at a later one. */
module IndexRuns {
  import opened SlaTypes
  import opened ContractState
  import opened ContractRuns
  import EventQueries

  /** Between the two points of a run without a restart, the history loses its `n` oldest
      entries and gains `later`; the kept index is then off by exactly `n` on what is
      left and blind to the rest. */
  lemma {:induction false} KeptIndexAlongRun(calls: seq<Call>, i: nat, j: nat, digest: Digest, max: nat,
      q: EventQueries.Query)
    returns (n: nat, later: seq<SLAResult>)
    requires Clocked(calls) && i <= j <= |calls| && NoRestart(calls, i, j, digest)
    ensures n <= |StateAt(calls, i, digest).history|
    ensures StateAt(calls, j, digest).history == StateAt(calls, i, digest).history[n..] + later
    ensures EventQueries.OffBy(StateAt(calls, i, digest).history, n, later, max, q)
  {
    n, later := HistoryMovesOn(calls, i, j, digest);
    EventQueries.StaleIndexIsShifted(StateAt(calls, i, digest).history, n, later, max, q);
  }
}
