/** Outage correlation tags (outage_correlation_tag.rs): a forest of outages with a
    child index, grouped and totalled by root. */
module OutageTags {
  import opened Ints
  import opened SlaTypes
  import opened MapSums
  import opened Forest

  const MAX_CORRELATION_DEPTH: nat := 64

  datatype OutageTag = OutageTag(outageId: Symbol, parent: Option<Symbol>, downtime: u64)

  datatype CorrelationError = SelfParent | CycleDetected

  datatype Tagging = Tagged(root: Symbol) | Rejected(error: CorrelationError)

  type Tags = map<Symbol, OutageTag>

  function ParentsOf(tags: Tags): Parents
  {
    map x | x in tags && tags[x].parent.Some? :: tags[x].parent.value
  }

  // --------------------------------------------------- the state and its runs

  datatype State = State(tags: Tags, children: Children)

  /** `tag_outage` as a function; the source's ancestor walk decides `Reaches`. */
  ghost function DoTag(s: State, tag: OutageTag): (State, Tagging)
  {
    if tag.parent == Some(tag.outageId) then (s, Rejected(SelfParent))
    else if tag.parent.Some? && Reaches(ParentsOf(s.tags), tag.parent.value, tag.outageId) then
      (s, Rejected(CycleDetected))
    else
      var tags := s.tags[tag.outageId := tag];
      (State(tags, if tag.parent.Some? then AddChild(s.children, tag.parent.value, tag.outageId) else s.children),
       Tagged(Climb(ParentsOf(tags), tag.outageId, MAX_CORRELATION_DEPTH)))
  }

  /** A state together with every edge accepted so far. */
  datatype Trace = Trace(state: State, log: seq<Edge>)

  ghost function Advance(t: Trace, tag: OutageTag): Trace
  {
    var done := DoTag(t.state, tag);
    Trace(done.0,
          if done.1.Tagged? && tag.parent.Some? then t.log + [Edge(tag.outageId, tag.parent.value)] else t.log)
  }

  ghost function RunTo(calls: seq<OutageTag>, k: nat): Trace
    requires k <= |calls|
  {
    if k == 0 then Trace(State(map[], map[]), []) else Advance(RunTo(calls, k - 1), calls[k - 1])
  }

  ghost predicate WellFormed(s: State)
  {
    && Acyclic(ParentsOf(s.tags))
    && (forall x | x in s.tags :: s.tags[x].outageId == x)
    && (forall q: Symbol :: NoDuplicates(ChildrenOf(s.children, q)))
    && (forall x | x in ParentsOf(s.tags) :: x in ChildrenOf(s.children, ParentsOf(s.tags)[x]))
    && (forall q: Symbol, x :: x in ChildrenOf(s.children, q) ==> x in s.tags)
  }

  lemma {:induction false} ParentsAfter(tags: Tags, tag: OutageTag)
    ensures ParentsOf(tags[tag.outageId := tag]) ==
            if tag.parent.Some? then ParentsOf(tags)[tag.outageId := tag.parent.value]
            else ParentsOf(tags) - {tag.outageId}
  {
  }

  /** A tag is accepted if and only if the parent map stays acyclic with it. */
  lemma {:induction false} AcceptedExactlyWhenAcyclic(s: State, tag: OutageTag)
    requires Acyclic(ParentsOf(s.tags))
    ensures DoTag(s, tag).1.Tagged? <==> Acyclic(ParentsOf(s.tags[tag.outageId := tag]))
    ensures DoTag(s, tag).1.Rejected? ==> DoTag(s, tag).0 == s
  {
    var p := ParentsOf(s.tags);
    ParentsAfter(s.tags, tag);
    if tag.parent.Some? {
      EdgeKeepsAcyclicExactly(p, tag.outageId, tag.parent.value);
      assert Steps(p, tag.outageId, 0) == Some(tag.outageId);
    } else {
      DropKeepsAcyclic(p, tag.outageId);
    }
  }

  /** An accepted tag is stored as given and touches no other; a refused one says why. The
      root it answers with is the true one exactly when the outage has at most 64
      ancestors. */
  lemma {:induction false} TagIsStored(s: State, tag: OutageTag)
    requires Acyclic(ParentsOf(s.tags))
    ensures var (s', r) := DoTag(s, tag);
            var id := tag.outageId;
            && (r == Rejected(SelfParent) <==> tag.parent == Some(id))
            && (r.Tagged? ==>
                  && s'.tags.Keys == s.tags.Keys + {id} && s'.tags[id] == tag
                  && (forall x | x in s.tags && x != id :: s'.tags[x] == s.tags[x])
                  && Acyclic(ParentsOf(s'.tags))
                  && (r.root == Root(ParentsOf(s'.tags), id) <==> Depth(ParentsOf(s'.tags), id) <= 64))
  {
    AcceptedExactlyWhenAcyclic(s, tag);
    var done := DoTag(s, tag);
    if done.1.Tagged? {
      ClimbFindsRoot(ParentsOf(done.0.tags), tag.outageId, MAX_CORRELATION_DEPTH);
    }
  }

  lemma {:induction false} ChildrenAfter(s: State, tag: OutageTag, q: Symbol)
    requires WellFormed(s)
    ensures var c, c' := s.children, DoTag(s, tag).0.children;
            && NoDuplicates(ChildrenOf(c', q))
            && (forall x | x in ChildrenOf(c, q) :: x in ChildrenOf(c', q))
            && (forall x | x in ChildrenOf(c', q) ::
                  x in ChildrenOf(c, q) || (DoTag(s, tag).1.Tagged? && x == tag.outageId))
            && (DoTag(s, tag).1.Tagged? && tag.parent == Some(q) ==> tag.outageId in ChildrenOf(c', q))
  {
    if tag.parent.Some? {
      AddChildListsIt(s.children, tag.parent.value, tag.outageId, q);
    }
  }

  lemma {:induction false} IndexStaysClean(s: State, tag: OutageTag)
    requires WellFormed(s)
    ensures var s' := DoTag(s, tag).0;
            && (forall q: Symbol :: NoDuplicates(ChildrenOf(s'.children, q)))
            && (forall x | x in ParentsOf(s'.tags) :: x in ChildrenOf(s'.children, ParentsOf(s'.tags)[x]))
            && (forall q: Symbol, x :: x in ChildrenOf(s'.children, q) ==> x in s'.tags)
  {
    var s' := DoTag(s, tag).0;
    ParentsAfter(s.tags, tag);
    forall q: Symbol ensures NoDuplicates(ChildrenOf(s'.children, q)) {
      ChildrenAfter(s, tag, q);
    }
    forall x | x in ParentsOf(s'.tags) ensures x in ChildrenOf(s'.children, ParentsOf(s'.tags)[x]) {
      ChildrenAfter(s, tag, ParentsOf(s'.tags)[x]);
    }
    forall q: Symbol, x | x in ChildrenOf(s'.children, q) ensures x in s'.tags {
      ChildrenAfter(s, tag, q);
    }
  }

  /** Every call, accepted or refused, re-parenting or not, keeps the forest: acyclic
      parents, duplicate-free child lists, each recorded parent listing its child. */
  lemma {:induction false} TaggingKeepsForest(s: State, tag: OutageTag)
    requires WellFormed(s)
    ensures WellFormed(DoTag(s, tag).0)
  {
    AcceptedExactlyWhenAcyclic(s, tag);
    IndexStaysClean(s, tag);
  }

  lemma {:induction false} StepKeepsIndex(t: Trace, tag: OutageTag)
    requires IndexMatches(t.state.children, t.log)
    ensures IndexMatches(Advance(t, tag).state.children, Advance(t, tag).log)
  {
    if tag.parent.Some? && DoTag(t.state, tag).1.Tagged? {
      AddChildMatches(t.state.children, t.log, tag.outageId, tag.parent.value);
    }
  }

  lemma {:induction false} EmptyIsWellFormed()
    ensures WellFormed(State(map[], map[]))
  {
    var none: Parents := ParentsOf(map[]);
    assert forall x: Symbol, n: nat | n > 0 :: Steps(none, x, n) == None;
  }

  /** After any sequence of calls the forest is well formed, and each child list holds
      exactly the outages ever tagged under that parent, in order of first mention. */
  lemma {:induction false} RunKeepsForest(calls: seq<OutageTag>, k: nat)
    requires k <= |calls|
    ensures WellFormed(RunTo(calls, k).state)
    ensures IndexMatches(RunTo(calls, k).state.children, RunTo(calls, k).log)
  {
    if k > 0 {
      RunKeepsForest(calls, k - 1);
      TaggingKeepsForest(RunTo(calls, k - 1).state, calls[k - 1]);
      StepKeepsIndex(RunTo(calls, k - 1), calls[k - 1]);
    } else {
      EmptyIsWellFormed();
    }
  }

  /** In every reachable state a child list is up to date exactly when every tag ever
      accepted under that parent is still in force. */
  lemma {:induction false} ChildrenAreCurrentExactly(calls: seq<OutageTag>, k: nat, q: Symbol)
    requires k <= |calls|
    ensures var t := RunTo(calls, k);
            var p := ParentsOf(t.state.tags);
            ListIsCurrent(t.state.children, p, q) <==>
            forall e | e in t.log && e.parent == q :: e.child in p && p[e.child] == q
  {
    var t := RunTo(calls, k);
    RunKeepsForest(calls, k);
    ListIsCurrentExactly(t.state.children, t.log, ParentsOf(t.state.tags), q);
  }

  /** The states that a run goes through, from empty storage. */
  ghost predicate IsRun(calls: seq<OutageTag>, states: seq<State>)
  {
    && |states| == |calls| + 1 && states[0] == State(map[], map[])
    && forall k: nat | k < |calls| :: states[k + 1] == DoTag(states[k], calls[k]).0
  }

  /** Every sequence of calls has such states. */
  lemma {:induction false} RunHasStates(calls: seq<OutageTag>, states: seq<State>)
    requires |states| == |calls| + 1 && forall k: nat | k <= |calls| :: states[k] == RunTo(calls, k).state
    ensures IsRun(calls, states)
  {
    NothingTaggedAtFirst(calls);
    forall k: nat | k < |calls| ensures states[k + 1] == DoTag(states[k], calls[k]).0 {
      TaggingSteps(calls, k);
    }
  }

  lemma {:induction false} NothingTaggedAtFirst(calls: seq<OutageTag>)
    ensures RunTo(calls, 0).state == State(map[], map[])
  {
  }

  lemma {:induction false} TaggingSteps(calls: seq<OutageTag>, k: nat)
    requires k < |calls|
    ensures RunTo(calls, k + 1).state == DoTag(RunTo(calls, k).state, calls[k]).0
  {
  }

  /** A call that stores a tag for `x`. */
  ghost predicate StoresTag(s: State, tag: OutageTag, x: Symbol)
  {
    tag.outageId == x && DoTag(s, tag).1.Tagged?
  }

  lemma {:induction false} TagAfterCall(s: State, tag: OutageTag, x: Symbol)
    requires Acyclic(ParentsOf(s.tags))
    ensures var after := DoTag(s, tag).0.tags;
            if StoresTag(s, tag, x) then x in after && after[x] == tag
            else (x in after <==> x in s.tags) && (x in after ==> after[x] == s.tags[x])
  {
    TagIsStored(s, tag);
    AcceptedExactlyWhenAcyclic(s, tag);
  }

  lemma {:induction false} StatesStayAcyclic(calls: seq<OutageTag>, states: seq<State>, k: nat)
    requires IsRun(calls, states) && k <= |calls|
    ensures Acyclic(ParentsOf(states[k].tags))
  {
    if k == 0 {
      EmptyIsWellFormed();
    } else {
      StatesStayAcyclic(calls, states, k - 1);
      AcceptedExactlyWhenAcyclic(states[k - 1], calls[k - 1]);
      TagIsStored(states[k - 1], calls[k - 1]);
    }
  }

  /** In every reachable state the stored tag of an outage is the last one accepted for it. */
  lemma {:induction false} TagIsLastAccepted(calls: seq<OutageTag>, states: seq<State>, k: nat, x: Symbol)
      returns (i: nat)
    requires IsRun(calls, states) && k <= |calls| && x in states[k].tags
    ensures i < k && StoresTag(states[i], calls[i], x) && states[k].tags[x] == calls[i]
    ensures forall j: nat | i < j < k :: !StoresTag(states[j], calls[j], x)
  {
    StatesStayAcyclic(calls, states, k - 1);
    TagAfterCall(states[k - 1], calls[k - 1], x);
    if StoresTag(states[k - 1], calls[k - 1], x) {
      i := k - 1;
    } else {
      i := TagIsLastAccepted(calls, states, k - 1, x);
    }
  }

  /** Re-parenting does not remove the old entry: after b moves from a to c, a still
      lists b. */
  lemma {:induction false} StaleChildAfterReparenting()
    ensures var calls := [OutageTag("b", Some("a"), 0), OutageTag("b", Some("c"), 0)];
            var s := RunTo(calls, 2).state;
            && ParentsOf(s.tags) == map["b" := "c"]
            && ChildrenOf(s.children, "a") == ["b"] && ChildrenOf(s.children, "c") == ["b"]
  {
    var t1, t2 := OutageTag("b", Some("a"), 0), OutageTag("b", Some("c"), 0);
    var calls := [t1, t2];
    assert "b" != "a" && "b" != "c" && "a" != "c" by {
      assert "b"[0] != "a"[0] && "b"[0] != "c"[0] && "a"[0] != "c"[0];
    }
    var empty := State(map[], map[]);
    RootReachesItself(ParentsOf(empty.tags), "a", "b");
    assert RunTo(calls, 0).state == empty;
    var s1 := RunTo(calls, 1).state;
    assert s1 == DoTag(empty, t1).0;
    assert ParentsOf(s1.tags) == map["b" := "a"];
    RootReachesItself(ParentsOf(s1.tags), "c", "b");
    assert RunTo(calls, 2).state == DoTag(s1, t2).0;
  }

  // ------------------------------------------------------- grouping by root

  /** The members of one group, in iteration order. */
  function Members(order: seq<Symbol>, p: Parents, root: Symbol): seq<Symbol>
  {
    if |order| == 0 then []
    else
      var before := Members(order[..|order| - 1], p, root);
      var x := order[|order| - 1];
      if Climb(p, x, MAX_CORRELATION_DEPTH) == root then before + [x] else before
  }

  lemma {:induction false} MembersExactly(order: seq<Symbol>, p: Parents, root: Symbol)
    ensures forall x :: x in Members(order, p, root) <==> x in order && Climb(p, x, MAX_CORRELATION_DEPTH) == root
    ensures NoDuplicates(order) ==> NoDuplicates(Members(order, p, root))
  {
    if |order| > 0 {
      var n := |order| - 1;
      MembersExactly(order[..n], p, root);
      assert order == order[..n] + [order[n]];
    }
  }

  /** The groups as the loop builds them, outage by outage. */
  function Groups(order: seq<Symbol>, p: Parents): map<Symbol, seq<Symbol>>
  {
    if |order| == 0 then map[]
    else
      var before := Groups(order[..|order| - 1], p);
      var x := order[|order| - 1];
      var root := Climb(p, x, MAX_CORRELATION_DEPTH);
      before[root := (if root in before then before[root] else []) + [x]]
  }

  /** There is one group per root, holding exactly the members with that root, in order. */
  lemma {:induction false} GroupsHoldMembers(order: seq<Symbol>, p: Parents, r: Symbol)
    ensures r in Groups(order, p) <==> |Members(order, p, r)| > 0
    ensures r in Groups(order, p) ==> Groups(order, p)[r] == Members(order, p, r)
  {
    if |order| > 0 {
      GroupsHoldMembers(order[..|order| - 1], p, r);
    }
  }

  /** The groups partition the tagged outages: every id is in exactly one group, once.
      Outages with at most 64 ancestors are grouped under their true root. */
  lemma {:induction false} GroupsPartition(order: seq<Symbol>, p: Parents, x: Symbol)
    requires NoDuplicates(order) && Acyclic(p) && x in order
    ensures var groups, r := Groups(order, p), Climb(p, x, MAX_CORRELATION_DEPTH);
            && r in groups && x in groups[r] && NoDuplicates(groups[r])
            && (forall q | q in groups && x in groups[q] :: q == r)
            && (r == Root(p, x) <==> Depth(p, x) <= MAX_CORRELATION_DEPTH)
  {
    var groups, r := Groups(order, p), Climb(p, x, MAX_CORRELATION_DEPTH);
    forall q | q in groups && x in groups[q] ensures q == r {
      GroupsHoldMembers(order, p, q);
      MembersExactly(order, p, q);
    }
    GroupsHoldMembers(order, p, r);
    MembersExactly(order, p, r);
    ClimbFindsRoot(p, x, MAX_CORRELATION_DEPTH);
  }

  lemma {:induction false} NotYetGrouped(order: seq<Symbol>, p: Parents, i: nat, r: Symbol)
    requires NoDuplicates(order) && i < |order|
    ensures r in Groups(order[..i], p) ==> order[i] !in Groups(order[..i], p)[r]
  {
    GroupsHoldMembers(order[..i], p, r);
    MembersExactly(order[..i], p, r);
  }

  // ------------------------------------------------------- totals by root

  function Downtime(tags: Tags, ids: seq<Symbol>): nat
  {
    if |ids| == 0 then 0
    else Downtime(tags, ids[..|ids| - 1]) + if ids[|ids| - 1] in tags then tags[ids[|ids| - 1]].downtime else 0
  }

  /** The exact downtime of every group. */
  function GroupTotals(tags: Tags, order: seq<Symbol>, p: Parents): map<Symbol, int>
  {
    if |order| == 0 then map[]
    else
      var before := GroupTotals(tags, order[..|order| - 1], p);
      var x := order[|order| - 1];
      var r := Climb(p, x, MAX_CORRELATION_DEPTH);
      before[r := (if r in before then before[r] else 0) + if x in tags then tags[x].downtime else 0]
  }

  lemma {:induction false} DowntimeAppend(tags: Tags, ids: seq<Symbol>, x: Symbol)
    ensures Downtime(tags, ids + [x]) == Downtime(tags, ids) + if x in tags then tags[x].downtime else 0
  {
    assert (ids + [x])[..|ids|] == ids;
  }

  lemma {:induction false} GroupTotalIsMemberDowntime(tags: Tags, order: seq<Symbol>, p: Parents, r: Symbol)
    ensures (if r in GroupTotals(tags, order, p) then GroupTotals(tags, order, p)[r] else 0)
        == Downtime(tags, Members(order, p, r))
    ensures r in GroupTotals(tags, order, p) <==> |Members(order, p, r)| > 0
  {
    if |order| > 0 {
      var n := |order| - 1;
      GroupTotalIsMemberDowntime(tags, order[..n], p, r);
      DowntimeAppend(tags, Members(order[..n], p, r), order[n]);
      assert order == order[..n] + [order[n]];
    }
  }

  lemma {:induction false} GroupTotalsSum(tags: Tags, order: seq<Symbol>, p: Parents)
    ensures MapSum(GroupTotals(tags, order, p)) == Downtime(tags, order)
  {
    if |order| > 0 {
      var n := |order| - 1;
      GroupTotalsSum(tags, order[..n], p);
      var before := GroupTotals(tags, order[..n], p);
      var r := Climb(p, order[n], MAX_CORRELATION_DEPTH);
      var earlier := if r in before then before[r] else 0;
      var added := if order[n] in tags then tags[order[n]].downtime else 0;
      MapSumSet(before, r, earlier + added);
    }
  }

  /** Every group total, each clamped to u64 as the saturating loop leaves it. */
  function ClampedTotals(m: map<Symbol, int>): map<Symbol, int>
  {
    map r | r in m :: Min(m[r], U64_MAX)
  }

  lemma {:induction false} ClampingLoses(m: map<Symbol, int>)
    ensures MapSum(ClampedTotals(m)) <= MapSum(m)
    ensures MapSum(ClampedTotals(m)) == MapSum(m) <==> forall r | r in m :: m[r] <= U64_MAX
  {
    MapSumBelow(ClampedTotals(m), m);
  }

  /** Grouping conserves downtime: the group totals that `aggregate_root_downtime` reports
      add up to the total downtime of all tags exactly when no single group overflows
      a u64; in particular whenever the grand total fits. */
  lemma {:induction false} AggregationConserves(tags: Tags, order: seq<Symbol>, p: Parents)
    ensures var totals := GroupTotals(tags, order, p);
            && (MapSum(ClampedTotals(totals)) == Downtime(tags, order)
                <==> forall r | r in totals :: totals[r] <= U64_MAX)
            && (Downtime(tags, order) <= U64_MAX ==> MapSum(ClampedTotals(totals)) == Downtime(tags, order))
  {
    var totals := GroupTotals(tags, order, p);
    GroupTotalsSum(tags, order, p);
    ClampingLoses(totals);
    forall r | r in totals ensures 0 <= totals[r] <= Downtime(tags, order) {
      GroupTotalIsMemberDowntime(tags, order, p, r);
      MembersDowntimeBelow(tags, order, p, r);
    }
  }

  lemma {:induction false} MembersDowntimeBelow(tags: Tags, order: seq<Symbol>, p: Parents, r: Symbol)
    ensures Downtime(tags, Members(order, p, r)) <= Downtime(tags, order)
  {
    if |order| > 0 {
      var n := |order| - 1;
      MembersDowntimeBelow(tags, order[..n], p, r);
      DowntimeAppend(tags, Members(order[..n], p, r), order[n]);
    }
  }

  // ------------------------------------------------------------ the module itself

  class CorrelationIndex {
    var tags: Tags
    var children: Children

    ghost predicate Valid()
      reads this
    {
      WellFormed(State(tags, children))
    }

    constructor ()
      ensures Valid() && tags == map[] && children == map[]
    {
      tags, children := map[], map[];
      new;
      EmptyIsWellFormed();
    }

    /** The unbounded walk up from `start`: it terminates because the map is acyclic, and
        it decides ancestry exactly. */
    method AncestryContains(start: Symbol, target: Symbol) returns (found: bool)
      requires Valid()
      ensures found <==> Reaches(ParentsOf(tags), start, target)
    {
      ghost var p := ParentsOf(tags);
      var cursor := Some(start);
      ghost var n: nat := 0;
      while cursor.Some?
        invariant cursor == Steps(p, start, n)
        invariant forall j: nat | j < n :: Steps(p, start, j) != Some(target)
        decreases cursor.Some?, if cursor.Some? then Up(p, cursor.value) else {}
      {
        var current := cursor.value;
        if current == target {
          return true;
        }
        StepsAdd(p, start, n, 1);
        if current in p {
          UpShrinks(p, current);
        }
        cursor := if current in tags then tags[current].parent else None;
        n := n + 1;
      }
      forall j: nat ensures Steps(p, start, j) != Some(target) {
        if j >= n { StepsEnded(p, start, n, j); }
      }
      found := false;
    }

    /** The capped climb to the root. */
    method ResolveRoot(id: Symbol) returns (root: Symbol)
      ensures root == Climb(ParentsOf(tags), id, MAX_CORRELATION_DEPTH)
    {
      ghost var p := ParentsOf(tags);
      var current := id;
      var depth := 0;
      while depth < MAX_CORRELATION_DEPTH
        invariant 0 <= depth <= MAX_CORRELATION_DEPTH
        invariant Climb(p, id, MAX_CORRELATION_DEPTH) == Climb(p, current, MAX_CORRELATION_DEPTH - depth)
      {
        if current !in tags || tags[current].parent.None? {
          return current;
        }
        current := tags[current].parent.value;
        depth := depth + 1;
      }
      root := current;
    }

    method TagOutage(tag: OutageTag) returns (r: Tagging)
      requires Valid()
      modifies this
      ensures Valid()
      ensures (State(tags, children), r) == DoTag(old(State(tags, children)), tag)
    {
      TaggingKeepsForest(State(tags, children), tag);
      if tag.parent == Some(tag.outageId) {
        return Rejected(SelfParent);
      }
      if tag.parent.Some? {
        var cycle := AncestryContains(tag.parent.value, tag.outageId);
        if cycle {
          return Rejected(CycleDetected);
        }
      }
      tags := tags[tag.outageId := tag];
      if tag.parent.Some? {
        var parent := tag.parent.value;
        var siblings := if parent in children then children[parent] else [];
        if tag.outageId !in siblings {
          siblings := siblings + [tag.outageId];
        }
        children := children[parent := siblings];
      }
      var root := ResolveRoot(tag.outageId);
      r := Tagged(root);
    }

    /** `order` is the order in which the host iterates over the tag map. */
    method GroupByRoot(order: seq<Symbol>) returns (groups: map<Symbol, seq<Symbol>>)
      requires NoDuplicates(order) && forall x :: x in order <==> x in tags
      ensures groups == Groups(order, ParentsOf(tags))
    {
      ghost var p := ParentsOf(tags);
      groups := map[];
      var i := 0;
      while i < |order|
        invariant 0 <= i <= |order|
        invariant groups == Groups(order[..i], p)
      {
        var id := order[i];
        var root := ResolveRoot(id);
        var members := if root in groups then groups[root] else [];
        NotYetGrouped(order, p, i, root);
        assert order[..i + 1][..i] == order[..i];
        if id !in members {
          members := members + [id];
        }
        groups := groups[root := members];
        i := i + 1;
      }
      assert order[..i] == order;
    }

    method AggregateRootDowntime(order: seq<Symbol>, root: Symbol) returns (total: u64)
      requires NoDuplicates(order) && forall x :: x in order <==> x in tags
      ensures var totals := GroupTotals(tags, order, ParentsOf(tags));
              total == if root in totals then ClampedTotals(totals)[root] else 0
    {
      var groups := GroupByRoot(order);
      GroupsHoldMembers(order, ParentsOf(tags), root);
      var members := if root in groups then groups[root] else [];
      total := 0;
      var i := 0;
      while i < |members|
        invariant 0 <= i <= |members|
        invariant total == Min(Downtime(tags, members[..i]), U64_MAX)
      {
        assert members[..i + 1] == members[..i] + [members[i]];
        DowntimeAppend(tags, members[..i], members[i]);
        if members[i] in tags {
          total := SatU64(total + tags[members[i]].downtime);
        }
        i := i + 1;
      }
      assert members[..i] == members;
      GroupTotalIsMemberDowntime(tags, order, ParentsOf(tags), root);
    }
  }
}
