/** A value that changes only by writes is the one last written. */
module LastWrites {
  import opened SlaTypes

  /** `writes[j]` is what step `j` writes, if anything. */
  ghost predicate Written<T>(values: seq<T>, writes: seq<Option<T>>)
  {
    && |values| == |writes| + 1
    && forall j: nat | j < |writes| :: values[j + 1] == if writes[j].Some? then writes[j].value else values[j]
  }

  /** The value after `k` steps is the one that step `i` wrote, with no write since; or, with
      no such step, the first. */
  ghost predicate LastWritten<T>(values: seq<T>, writes: seq<Option<T>>, k: nat, i: Option<nat>)
    requires |values| == |writes| + 1 && k <= |writes|
  {
    if i.Some? then
      && i.value < k && writes[i.value] == Some(values[k])
      && forall j: nat | i.value < j < k :: writes[j].None?
    else
      values[k] == values[0] && forall j: nat | j < k :: writes[j].None?
  }

  lemma {:induction false} LastWriteWins<T>(values: seq<T>, writes: seq<Option<T>>, k: nat) returns (i: Option<nat>)
    requires Written(values, writes) && k <= |writes|
    ensures LastWritten(values, writes, k, i)
  {
    if k == 0 {
      i := None;
    } else if writes[k - 1].Some? {
      i := Some(k - 1);
    } else {
      i := LastWriteWins(values, writes, k - 1);
    }
  }
}
