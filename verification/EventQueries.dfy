/** Queries over the stored history: filtering with pagination (event_filter.rs) and
    lookups through a stored index (event_index.rs), against a full scan. */
module EventQueries {
  import opened Ints
  import opened SlaTypes

  // ------------------------------------------------------------ the full scan

  /** Positions of the entries that satisfy `p`, by scanning everything. */
  function Positions(history: seq<SLAResult>, p: SLAResult -> bool): seq<nat>
  {
    if |history| == 0 then []
    else
      var n := |history| - 1;
      var before := Positions(history[..n], p);
      if p(history[n]) then before + [n] else before
  }

  ghost predicate StrictlyIncreasing(a: seq<nat>)
  {
    forall i, j | 0 <= i < j < |a| :: a[i] < a[j]
  }

  lemma {:induction false} ScanFinds(history: seq<SLAResult>, p: SLAResult -> bool, k: nat)
    ensures k in Positions(history, p) <==> k < |history| && p(history[k])
  {
    if |history| > 0 {
      ScanFinds(history[..|history| - 1], p, k);
    }
  }

  lemma {:induction false} ScanIncreases(history: seq<SLAResult>, p: SLAResult -> bool)
    ensures StrictlyIncreasing(Positions(history, p))
    ensures forall i | 0 <= i < |Positions(history, p)| :: Positions(history, p)[i] < |history|
  {
    if |history| > 0 {
      ScanIncreases(history[..|history| - 1], p);
    }
  }

  /** The scan finds every match once, in order, and nothing else. */
  lemma {:induction false} ScanIsExact(history: seq<SLAResult>, p: SLAResult -> bool)
    ensures StrictlyIncreasing(Positions(history, p))
    ensures forall k: nat :: k in Positions(history, p) <==> k < |history| && p(history[k])
  {
    ScanIncreases(history, p);
    forall k: nat ensures k in Positions(history, p) <==> k < |history| && p(history[k]) {
      ScanFinds(history, p, k);
    }
  }

  lemma {:induction false} PositionsAppend(history: seq<SLAResult>, e: SLAResult, p: SLAResult -> bool)
    ensures Positions(history + [e], p) == if p(e) then Positions(history, p) + [|history|] else Positions(history, p)
  {
    assert (history + [e])[..|history|] == history;
  }

  /** Dropping the first `n` entries shifts every surviving position by `n`. */
  function Shifted(positions: seq<nat>, n: nat): seq<nat>
  {
    if |positions| == 0 then []
    else
      var before := Shifted(positions[..|positions| - 1], n);
      var k := positions[|positions| - 1];
      if k >= n then before + [k - n] else before
  }

  lemma {:induction false} ShiftedAppend(positions: seq<nat>, k: nat, n: nat)
    ensures Shifted(positions + [k], n) == if k >= n then Shifted(positions, n) + [k - n] else Shifted(positions, n)
  {
    assert (positions + [k])[..|positions|] == positions;
  }

  lemma {:induction false} DroppingShiftsPositions(history: seq<SLAResult>, n: nat, p: SLAResult -> bool)
    requires n <= |history|
    ensures Positions(history[n..], p) == Shifted(Positions(history, p), n)
  {
    if |history| > 0 {
      var m := |history| - 1;
      if n <= m {
        DroppingShiftsPositions(history[..m], n, p);
        assert history[n..] == history[..m][n..] + [history[m]];
        PositionsAppend(history[..m][n..], history[m], p);
        ShiftedAppend(Positions(history[..m], p), m, n);
      } else {
        DroppingShiftsPositions(history[..m], m, p);
        assert history[..m][m..] == [] && history[n..] == [];
        ScanIncreases(history, p);
        AllBelowShiftAway(Positions(history, p), n);
      }
    }
  }

  lemma {:induction false} AllBelowShiftAway(positions: seq<nat>, n: nat)
    requires forall i | 0 <= i < |positions| :: positions[i] < n
    ensures Shifted(positions, n) == []
  {
    if |positions| > 0 {
      AllBelowShiftAway(positions[..|positions| - 1], n);
    }
  }

  // ------------------------------------------------- filtering and pagination

  datatype Filter = Filter(from: Option<u64>, to: Option<u64>, status: Option<Symbol>, payment: Option<Symbol>)
  {
    predicate Matches(e: SLAResult)
    {
      && (from.Some? ==> e.recordedAt >= from.value)
      && (to.Some? ==> e.recordedAt <= to.value)
      && (status.Some? ==> e.status == status.value)
      && (payment.Some? ==> e.paymentType == payment.value)
    }
  }

  function Matching(history: seq<SLAResult>, f: Filter): seq<SLAResult>
  {
    if |history| == 0 then []
    else
      var before := Matching(history[..|history| - 1], f);
      var e := history[|history| - 1];
      if f.Matches(e) then before + [e] else before
  }

  /** The filtered history is the entries at the scanned positions, in order. */
  lemma {:induction false} MatchingIsScan(history: seq<SLAResult>, f: Filter)
    ensures var positions := Positions(history, e => f.Matches(e));
            && |Matching(history, f)| == |positions|
            && forall k | 0 <= k < |positions| :: positions[k] < |history|
                && Matching(history, f)[k] == history[positions[k]]
  {
    if |history| > 0 {
      MatchingIsScan(history[..|history| - 1], f);
    }
  }

  /** What a filter lets through, entry by entry: the bounds are inclusive, an absent field
      asks for nothing. */
  lemma {:induction false} FilteredExactly(history: seq<SLAResult>, f: Filter, e: SLAResult)
    ensures e in Matching(history, f) <==>
            && e in history
            && (f.from == None || f.from.value <= e.recordedAt) && (f.to == None || e.recordedAt <= f.to.value)
            && f.status in {None, Some(e.status)} && f.payment in {None, Some(e.paymentType)}
  {
    if |history| > 0 {
      var n := |history| - 1;
      FilteredExactly(history[..n], f, e);
      assert history == history[..n] + [history[n]];
    }
  }

  /** A filter without fields returns the history itself. */
  lemma {:induction false} EmptyFilterKeepsAll(history: seq<SLAResult>)
    ensures Matching(history, Filter(None, None, None, None)) == history
  {
    if |history| > 0 {
      var n := |history| - 1;
      EmptyFilterKeepsAll(history[..n]);
      assert history == history[..n] + [history[n]];
    }
  }

  /** Filtering twice is filtering once by both, where the two ask about different fields. */
  lemma {:induction false} FiltersCompose(history: seq<SLAResult>, from: Option<u64>, to: Option<u64>,
                                          status: Option<Symbol>, payment: Option<Symbol>)
    ensures Matching(Matching(history, Filter(from, to, None, None)), Filter(None, None, status, payment)) ==
            Matching(history, Filter(from, to, status, payment))
  {
    if |history| > 0 {
      var n := |history| - 1;
      FiltersCompose(history[..n], from, to, status, payment);
      MatchingAppend(Matching(history[..n], Filter(from, to, None, None)), history[n],
          Filter(None, None, status, payment));
    }
  }

  lemma {:induction false} MatchingAppend(history: seq<SLAResult>, e: SLAResult, f: Filter)
    ensures Matching(history + [e], f) == if f.Matches(e) then Matching(history, f) + [e] else Matching(history, f)
  {
    assert (history + [e])[..|history|] == history;
  }

  lemma {:induction false} MatchingPrefix(history: seq<SLAResult>, i: nat, f: Filter)
    requires i <= |history|
    ensures Matching(history[..i], f) <= Matching(history, f)
  {
    if i < |history| {
      MatchingPrefix(history[..|history| - 1], i, f);
      assert history[..|history| - 1][..i] == history[..i];
    } else {
      assert history[..i] == history;
    }
  }

  /** One page: at most `limit` entries after skipping `offset`. */
  function Page(all: seq<SLAResult>, offset: nat, limit: nat): seq<SLAResult>
  {
    var start := Min(offset, |all|);
    all[start..Min(start + limit, |all|)]
  }

  lemma PageAppend(all: seq<SLAResult>, e: SLAResult, offset: nat, limit: nat)
    ensures Page(all + [e], offset, limit) ==
            if offset <= |all| < offset + limit then Page(all, offset, limit) + [e] else Page(all, offset, limit)
    ensures |Page(all, offset, limit)| == Min(limit, Max(0, |all| - offset))
  {
  }

  /** A page that is full stays as it is when more matches follow. */
  lemma FullPageStays(all: seq<SLAResult>, more: seq<SLAResult>, offset: nat, limit: nat)
    requires all <= more && |all| >= offset + limit
    ensures Page(more, offset, limit) == Page(all, offset, limit)
  {
  }

  /** Consecutive pages join without gap or overlap. */
  lemma PagesJoin(all: seq<SLAResult>, offset: nat, limit: nat, more: nat)
    ensures Page(all, offset, limit) + Page(all, offset + limit, more) == Page(all, offset, limit + more)
  {
  }

  /** The first `k` pages of a given size, one after the other. */
  function FirstPages(all: seq<SLAResult>, size: nat, k: nat): seq<SLAResult>
  {
    if k == 0 then [] else FirstPages(all, size, k - 1) + Page(all, (k - 1) * size, size)
  }

  lemma {:induction false} FirstPagesJoin(all: seq<SLAResult>, size: nat, k: nat)
    ensures k * size >= 0 && FirstPages(all, size, k) == Page(all, 0, k * size)
  {
    if k > 0 {
      FirstPagesJoin(all, size, k - 1);
      PagesJoin(all, 0, (k - 1) * size, size);
      assert (k - 1) * size + size == k * size;
    }
  }

  /** Enough pages give the whole filtered history back. */
  lemma {:induction false} PagesCover(all: seq<SLAResult>, size: nat, k: nat)
    requires k * size >= |all|
    ensures FirstPages(all, size, k) == all
  {
    FirstPagesJoin(all, size, k);
  }

  /** Whatever the filter, results come out in ledger-time order when the history is. */
  lemma {:induction false} MatchingKeepsOrder(history: seq<SLAResult>, f: Filter)
    requires forall i, j | 0 <= i <= j < |history| :: history[i].recordedAt <= history[j].recordedAt
    ensures forall i, j | 0 <= i <= j < |Matching(history, f)| ::
        Matching(history, f)[i].recordedAt <= Matching(history, f)[j].recordedAt
  {
    MatchingIsScan(history, f);
    ScanIsExact(history, e => f.Matches(e));
  }

  /** `filter_events`: one pass with a skip counter and an early stop. */
  method FilterEvents(history: seq<SLAResult>, f: Filter, offset: u32, limit: u32) returns (filtered: seq<SLAResult>)
    ensures filtered == Page(Matching(history, f), offset, limit)
  {
    filtered := [];
    var skipped: int, collected: int := 0, 0;
    var i := 0;
    while i < |history|
      invariant 0 <= i <= |history|
      invariant filtered == Page(Matching(history[..i], f), offset, limit)
      invariant skipped == Min(offset, |Matching(history[..i], f)|)
      invariant collected == |filtered|
    {
      var entry := history[i];
      ghost var soFar := Matching(history[..i], f);
      MatchingAppend(history[..i], entry, f);
      PageAppend(soFar, entry, offset, limit);
      assert history[..i + 1] == history[..i] + [entry];
      i := i + 1;
      if f.from.Some? && entry.recordedAt < f.from.value {
        continue;
      }
      if f.to.Some? && entry.recordedAt > f.to.value {
        continue;
      }
      if f.status.Some? && entry.status != f.status.value {
        continue;
      }
      if f.payment.Some? && entry.paymentType != f.payment.value {
        continue;
      }
      if skipped < offset {
        skipped := skipped + 1;
        continue;
      }
      if collected >= limit {
        MatchingPrefix(history, i - 1, f);
        FullPageStays(soFar, Matching(history, f), offset, limit);
        return;
      }
      filtered := filtered + [entry];
      collected := collected + 1;
    }
    assert history[..i] == history;
  }

  /** `count_filtered_events`, saturating at the u32 maximum. */
  method CountFilteredEvents(history: seq<SLAResult>, f: Filter) returns (count: u32)
    ensures count == Min(|Matching(history, f)|, U32_MAX)
  {
    count := 0;
    var i := 0;
    while i < |history|
      invariant 0 <= i <= |history|
      invariant count == Min(|Matching(history[..i], f)|, U32_MAX)
    {
      var entry := history[i];
      MatchingAppend(history[..i], entry, f);
      assert history[..i + 1] == history[..i] + [entry];
      i := i + 1;
      if f.from.Some? && entry.recordedAt < f.from.value {
        continue;
      }
      if f.to.Some? && entry.recordedAt > f.to.value {
        continue;
      }
      if f.status.Some? && entry.status != f.status.value {
        continue;
      }
      if f.payment.Some? && entry.paymentType != f.payment.value {
        continue;
      }
      count := Min(count + 1, U32_MAX);
    }
    assert history[..i] == history;
  }

  // ------------------------------------------------------------ the event index

  const DEFAULT_MAX_INDEX_SIZE: u32 := 1000

  datatype Entry = Entry(position: nat, outageId: Symbol, recordedAt: u64, status: Symbol, paymentType: Symbol)

  datatype Index = Index(entries: seq<Entry>, count: nat)

  datatype Query =
    | ByOutage(id: Symbol)
    | ByStatus(status: Symbol)
    | ByPayment(payment: Symbol)
    | InRange(from: u64, to: u64)
  {
    predicate Selects(e: Entry)
    {
      match this
      case ByOutage(id) => e.outageId == id
      case ByStatus(s) => e.status == s
      case ByPayment(p) => e.paymentType == p
      case InRange(a, b) => a <= e.recordedAt <= b
    }
  }

  function EntryOf(r: SLAResult, position: nat): Entry
  {
    Entry(position, r.outageId, r.recordedAt, r.status, r.paymentType)
  }

  /** The query as a test on history entries. */
  function Test(q: Query): SLAResult -> bool
  {
    r => q.Selects(EntryOf(r, 0))
  }

  /** What a query asks of an entry; a range is inclusive at both ends. */
  lemma {:induction false} TestReads(r: SLAResult, id: Symbol, word: Symbol, from: u64, to: u64)
    ensures Test(ByOutage(id))(r) <==> r.outageId == id
    ensures Test(ByStatus(word))(r) <==> r.status == word
    ensures Test(ByPayment(word))(r) <==> r.paymentType == word
    ensures Test(InRange(from, to))(r) <==> from <= r.recordedAt && r.recordedAt <= to
  {
  }

  lemma {:induction false} SamePositions(history: seq<SLAResult>, p: SLAResult -> bool, q: SLAResult -> bool)
    requires forall r :: p(r) <==> q(r)
    ensures Positions(history, p) == Positions(history, q)
  {
    if |history| > 0 {
      SamePositions(history[..|history| - 1], p, q);
    }
  }

  /** The filter that a query other than one by outage corresponds to. */
  function AsFilter(q: Query): Filter
    requires !q.ByOutage?
  {
    match q
    case ByStatus(word) => Filter(None, None, Some(word), None)
    case ByPayment(word) => Filter(None, None, None, Some(word))
    case InRange(from, to) => Filter(Some(from), Some(to), None, None)
  }

  /** An index that fits and the event filter answer alike: the entries at the positions
      found are the filtered history, in order. */
  lemma {:induction false} IndexAnswersLikeFilter(history: seq<SLAResult>, max: nat, q: Query)
    requires !q.ByOutage? && |history| <= max
    ensures var found, filtered := Found(Built(history, max), q), Matching(history, AsFilter(q));
            && |found| == |filtered|
            && forall k | 0 <= k < |found| :: found[k] < |history| && filtered[k] == history[found[k]]
  {
    var f := AsFilter(q);
    FreshIndexIsScanExactly(history, max, q);
    SamePositions(history, Test(q), e => f.Matches(e));
    MatchingIsScan(history, f);
  }

  /** A freshly built index: the first `max` entries of the history. */
  function Built(history: seq<SLAResult>, max: nat): seq<Entry>
  {
    seq(Min(|history|, max), i requires 0 <= i < Min(|history|, max) => EntryOf(history[i], i))
  }

  /** The positions an index answers with. */
  function Found(entries: seq<Entry>, q: Query): seq<nat>
  {
    if |entries| == 0 then []
    else
      var before := Found(entries[..|entries| - 1], q);
      var e := entries[|entries| - 1];
      if q.Selects(e) then before + [e.position] else before
  }

  lemma {:induction false} FoundIsScanOfPrefix(history: seq<SLAResult>, n: nat, q: Query)
    requires n <= |history|
    ensures Found(Built(history, n), q) == Positions(history[..n], Test(q))
  {
    if n > 0 {
      FoundIsScanOfPrefix(history, n - 1, q);
      assert Built(history, n)[..n - 1] == Built(history, n - 1);
      assert history[..n][..n - 1] == history[..n - 1];
    } else {
      assert Built(history, 0) == [];
    }
  }

  lemma {:induction false} ScanBeyond(history: seq<SLAResult>, n: nat, p: SLAResult -> bool)
    requires n <= |history|
    ensures Positions(history[..n], p) <= Positions(history, p)
    ensures Positions(history[..n], p) == Positions(history, p)
        <==> forall k: nat | n <= k < |history| :: !p(history[k])
  {
    if n < |history| {
      var m := |history| - 1;
      ScanBeyond(history[..m], n, p);
      assert history[..m][..n] == history[..n];
      assert forall k: nat | k < m :: history[..m][k] == history[k];
    } else {
      assert history[..n] == history;
    }
  }

  /** A fresh index answers a query exactly as a full scan does if and only if no entry
      beyond its maximum matches; in particular always when the history fits. The
      positions come in strictly increasing order either way. */
  lemma {:induction false} FreshIndexIsScanExactly(history: seq<SLAResult>, max: nat, q: Query)
    ensures Found(Built(history, max), q) == Positions(history, Test(q))
            <==> forall k: nat | max <= k < |history| :: !Test(q)(history[k])
    ensures |history| <= max ==> Found(Built(history, max), q) == Positions(history, Test(q))
    ensures StrictlyIncreasing(Found(Built(history, max), q))
  {
    var n := Min(|history|, max);
    assert Built(history, max) == Built(history, n);
    FoundIsScanOfPrefix(history, n, q);
    ScanBeyond(history, n, Test(q));
    ScanIsExact(history[..n], Test(q));
  }

  /** Positions in the part of a history that starts at `d`. */
  function Raised(positions: seq<nat>, d: nat): seq<nat>
  {
    seq(|positions|, i requires 0 <= i < |positions| => positions[i] + d)
  }

  lemma {:induction false} PositionsJoin(first: seq<SLAResult>, second: seq<SLAResult>, p: SLAResult -> bool)
    ensures Positions(first + second, p) == Positions(first, p) + Raised(Positions(second, p), |first|)
  {
    if |second| == 0 {
      assert first + second == first;
    } else {
      var n := |second| - 1;
      PositionsJoin(first, second[..n], p);
      assert first + second == (first + second[..n]) + [second[n]];
      PositionsAppend(first + second[..n], second[n], p);
    }
  }

  /** A scan of the history without its first `n` entries but with `later` at its end finds
      the kept index's answer shifted by `n`, then the matches the index does not know. */
  ghost predicate OffBy(history: seq<SLAResult>, n: nat, later: seq<SLAResult>, max: nat, q: Query)
    requires n <= |history|
  {
    var known := Max(n, Min(|history|, max));
    Positions(history[n..] + later, Test(q)) ==
    Shifted(Found(Built(history, max), q), n) + Raised(Positions(history[known..] + later, Test(q)), known - n)
  }

  /** What an index is worth after the history lost its first `n` entries and gained
      `later`, as happens with every recording at the retention limit: a scan of the
      new history finds the old answer shifted by `n`, and after it the matches among
      the entries the index does not know. */
  lemma {:induction false} StaleIndexIsShifted(history: seq<SLAResult>, n: nat, later: seq<SLAResult>, max: nat,
      q: Query)
    requires n <= |history|
    ensures OffBy(history, n, later, max, q)
  {
    var m := Min(|history|, max);
    var known := Max(n, m);
    assert Built(history, max) == Built(history, m);
    FoundIsScanOfPrefix(history, m, q);
    assert history[n..] + later == history[n..known] + (history[known..] + later);
    PositionsJoin(history[n..known], history[known..] + later, Test(q));
    if n <= m {
      DroppingShiftsPositions(history[..m], n, Test(q));
      assert history[..m][n..] == history[n..known];
    } else {
      ScanIncreases(history[..m], Test(q));
      AllBelowShiftAway(Positions(history[..m], Test(q)), n);
      assert history[n..known] == [];
    }
  }

  lemma SameEmptiness(a: seq<nat>, b: seq<nat>)
    requires forall k: nat :: k in a <==> k in b
    ensures |a| == 0 <==> |b| == 0
  {
    assert |a| > 0 ==> a[0] in a;
    assert |b| > 0 ==> b[0] in b;
  }

  lemma {:induction false} SameMembersSameSequence(a: seq<nat>, b: seq<nat>)
    requires StrictlyIncreasing(a) && StrictlyIncreasing(b) && forall k: nat :: k in a <==> k in b
    ensures a == b
  {
    SameEmptiness(a, b);
    if |a| > 0 {
      var x, y := a[|a| - 1], b[|b| - 1];
      assert x in b && y in a;
      assert x == y;
      var a', b' := a[..|a| - 1], b[..|b| - 1];
      forall k: nat ensures k in a' <==> k in b' {
        BeforeLast(a, k);
        BeforeLast(b, k);
      }
      SameMembersSameSequence(a', b');
    }
  }

  lemma BeforeLast(a: seq<nat>, k: nat)
    requires StrictlyIncreasing(a) && |a| > 0
    ensures k in a[..|a| - 1] <==> k in a && k != a[|a| - 1]
  {
    assert a == a[..|a| - 1] + [a[|a| - 1]];
  }

  /** The kept index answers for a later history as a scan would exactly when, position by
      position, the entries it was built from match as the later entries do. */
  lemma {:induction false} KeptIndexIsRightExactly(history: seq<SLAResult>, later: seq<SLAResult>, max: nat, q: Query)
    ensures Found(Built(history, max), q) == Positions(later, Test(q))
            <==> forall k: nat ::
                   (k < Min(|history|, max) && Test(q)(history[k])) <==> (k < |later| && Test(q)(later[k]))
  {
    var m := Min(|history|, max);
    var found, scanned := Positions(history[..m], Test(q)), Positions(later, Test(q));
    assert Built(history, max) == Built(history, m);
    FoundIsScanOfPrefix(history, m, q);
    ScanIsExact(history[..m], Test(q));
    ScanIsExact(later, Test(q));
    assert forall k: nat :: k in found <==> k < m && Test(q)(history[k]);
    if forall k: nat :: (k < m && Test(q)(history[k])) <==> (k < |later| && Test(q)(later[k])) {
      SameMembersSameSequence(found, scanned);
    }
  }

  /** A pattern of matches that recurs `n` places on cannot end, so it is empty. */
  lemma {:induction false} NoRecurringMatch(history: seq<SLAResult>, n: nat, p: SLAResult -> bool, k: nat)
    requires 0 < n
    requires forall i: nat | i < |history| && p(history[i]) :: i + n < |history| && p(history[i + n])
    ensures k < |history| ==> !p(history[k])
    decreases |history| - k
  {
    if k < |history| && p(history[k]) {
      NoRecurringMatch(history, n, p, k + n);
    }
  }

  /** After mere pruning it is right only for a query that matched nothing at all. */
  lemma {:induction false} PrunedHistoryIndexIsRightExactly(history: seq<SLAResult>, n: nat, max: nat, q: Query)
    requires n <= |history| <= max
    ensures Found(Built(history, max), q) == Positions(history[n..], Test(q))
            <==> n == 0 || forall k: nat | k < |history| :: !Test(q)(history[k])
  {
    var p := Test(q);
    KeptIndexIsRightExactly(history, history[n..], max, q);
    if n > 0 && Found(Built(history, max), q) == Positions(history[n..], p) {
      forall i: nat | i < |history| && p(history[i])
        ensures i + n < |history| && p(history[i + n])
      {
        assert i < |history[n..]| && p(history[n..][i]);
      }
      forall k: nat | k < |history| ensures !p(history[k]) {
        NoRecurringMatch(history, n, p, k);
      }
    }
  }

  /** Such a case: of two outages the older is pruned; the kept index still answers 1 for
      the younger, which is now at 0. */
  lemma {:induction false} StaleIndexMisleads(older: SLAResult, younger: SLAResult)
    requires older.outageId != younger.outageId
    ensures var history, q := [older, younger], ByOutage(younger.outageId);
            Found(Built(history, 1000), q) == [1] && Positions(history[1..], Test(q)) == [0]
  {
    var history, q := [older, younger], ByOutage(younger.outageId);
    FreshIndexIsScanExactly(history, 1000, q);
    PositionsAppend([older], younger, Test(q));
    PositionsAppend([], older, Test(q));
    PositionsAppend([], younger, Test(q));
    assert [] + [older] == [older] && [older] + [younger] == history && [] + [younger] == history[1..];
  }

  function KeptSince(entries: seq<Entry>, cutoff: u64): seq<Entry>
  {
    if |entries| == 0 then []
    else
      var before := KeptSince(entries[..|entries| - 1], cutoff);
      var e := entries[|entries| - 1];
      if e.recordedAt >= cutoff then before + [e] else before
  }

  /** A pruned index answers with the old answers that are recent enough. */
  lemma {:induction false} PrunedIndexAnswers(entries: seq<Entry>, cutoff: u64, q: Query, k: nat)
    ensures k in Found(KeptSince(entries, cutoff), q) <==>
            exists e :: e in entries && e.position == k && e.recordedAt >= cutoff && q.Selects(e)
    ensures |KeptSince(entries, cutoff)| <= |entries|
  {
    if |entries| > 0 {
      var n := |entries| - 1;
      PrunedIndexAnswers(entries[..n], cutoff, q, k);
      FoundAppend(KeptSince(entries[..n], cutoff), entries[n], q);
      assert entries == entries[..n] + [entries[n]];
    }
  }

  lemma {:induction false} FoundAppend(entries: seq<Entry>, e: Entry, q: Query)
    ensures Found(entries + [e], q) == if q.Selects(e) then Found(entries, q) + [e.position] else Found(entries, q)
  {
    assert (entries + [e])[..|entries|] == entries;
  }

  /** The stored index. The history it is built from belongs to the contract and is
      passed in. */
  class EventIndexStore {
    var index: Option<Index>
    var maxSize: Option<u32>

    ghost predicate Valid()
      reads this
    {
      index.Some? ==> index.value.count == |index.value.entries|
    }

    function MaxIndexSize(): u32
      reads this
    {
      if maxSize.Some? then maxSize.value else DEFAULT_MAX_INDEX_SIZE
    }

    constructor ()
      ensures Valid() && index == None && MaxIndexSize() == 1000
    {
      index, maxSize := None, None;
    }

    method BuildEventIndex(history: seq<SLAResult>) returns (built: Index)
      modifies this`index
      ensures Valid() && index == Some(built) && built.entries == Built(history, MaxIndexSize())
    {
      var max := MaxIndexSize();
      var entries: seq<Entry> := [];
      var i := 0;
      while i < |history| && |entries| < max
        invariant 0 <= i <= |history| && |entries| == i <= max
        invariant forall j | 0 <= j < i :: entries[j] == EntryOf(history[j], j)
      {
        entries := entries + [EntryOf(history[i], i)];
        i := i + 1;
      }
      built := Index(entries, |entries|);
      index := Some(built);
    }

    /** The stored index, stale or not; built only when there is none. */
    method GetEventIndex(history: seq<SLAResult>) returns (current: Index)
      requires Valid()
      modifies this`index
      ensures Valid() && index == Some(current)
      ensures if old(index).Some? then index == old(index) else current.entries == Built(history, MaxIndexSize())
    {
      if index.Some? {
        current := index.value;
      } else {
        current := BuildEventIndex(history);
      }
    }

    /** The four `find_events_*` functions. */
    method FindEvents(history: seq<SLAResult>, q: Query) returns (positions: seq<nat>)
      requires Valid()
      modifies this`index
      ensures Valid() && index.Some? && positions == Found(index.value.entries, q)
      ensures if old(index).Some? then index == old(index) else index.value.entries == Built(history, MaxIndexSize())
    {
      var current := GetEventIndex(history);
      positions := [];
      var i := 0;
      while i < |current.entries|
        invariant 0 <= i <= |current.entries|
        invariant positions == Found(current.entries[..i], q)
        invariant index == Some(current) && Valid()
      {
        FoundAppend(current.entries[..i], current.entries[i], q);
        assert current.entries[..i + 1] == current.entries[..i] + [current.entries[i]];
        if q.Selects(current.entries[i]) {
          positions := positions + [current.entries[i].position];
        }
        i := i + 1;
      }
      assert current.entries[..i] == current.entries;
    }

    method InvalidateIndex()
      modifies this`index
      ensures Valid() && index == None
    {
      index := None;
    }

    method SetMaxIndexSize(max: u32)
      requires Valid()
      modifies this`maxSize
      ensures Valid() && MaxIndexSize() == max
    {
      maxSize := Some(max);
    }

    method PruneIndexBefore(history: seq<SLAResult>, cutoff: u64) returns (pruned: nat)
      requires Valid()
      modifies this`index
      ensures Valid() && index.Some?
      ensures var before := if old(index).Some? then old(index).value.entries else Built(history, MaxIndexSize());
              index.value.entries == KeptSince(before, cutoff) && |index.value.entries| + pruned == |before|
    {
      var current := GetEventIndex(history);
      var kept: seq<Entry> := [];
      var i := 0;
      while i < |current.entries|
        invariant 0 <= i <= |current.entries|
        invariant kept == KeptSince(current.entries[..i], cutoff) && |kept| <= i
        invariant index == Some(current) && Valid()
      {
        assert current.entries[..i + 1][..i] == current.entries[..i];
        if current.entries[i].recordedAt >= cutoff {
          kept := kept + [current.entries[i]];
        }
        i := i + 1;
      }
      assert current.entries[..i] == current.entries;
      pruned := current.count - |kept|;
      index := Some(Index(kept, |kept|));
    }
  }
}
