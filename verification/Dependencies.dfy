/** Site dependencies (dependency_propagation.rs): the same forest, with statuses
    pushed one level down it. */
module Dependencies {
  import opened Ints
  import opened SlaTypes
  import opened Forest

  const STATUS_OPERATIONAL: u32 := 0
  const STATUS_DEGRADED: u32 := 1
  const STATUS_DOWN: u32 := 2

  datatype DependencyError = SelfDependency | CycleDetected

  datatype Registration = Registered | Rejected(error: DependencyError)

  datatype State = State(
    parents: Parents,
    children: Children,
    manual: map<Symbol, u32>,
    auto: map<Symbol, bool>)

  function ManualStatus(s: State, site: Symbol): u32
  {
    if site in s.manual then s.manual[site] else STATUS_OPERATIONAL
  }

  predicate IsAutoDegraded(s: State, site: Symbol)
  {
    site in s.auto && s.auto[site]
  }

  /** A reported outage wins over the automatic flag, the flag over any other report. */
  function SiteStatus(s: State, site: Symbol): u32
  {
    if ManualStatus(s, site) == STATUS_DOWN then STATUS_DOWN
    else if IsAutoDegraded(s, site) then STATUS_DEGRADED
    else ManualStatus(s, site)
  }

  ghost function DoRegister(s: State, parent: Symbol, child: Symbol): (State, Registration)
  {
    if parent == child then (s, Rejected(SelfDependency))
    else if Reaches(s.parents, parent, child) then (s, Rejected(CycleDetected))
    else (s.(parents := s.parents[child := parent], children := AddChild(s.children, parent, child)), Registered)
  }

  function DoReport(s: State, site: Symbol, status: u32): State
  {
    s.(manual := s.manual[site := status])
  }

  /** Sites that an outage of `parent` flags. */
  predicate Affected(s: State, parent: Symbol, site: Symbol)
  {
    site in ChildrenOf(s.children, parent) && ManualStatus(s, site) != STATUS_DOWN
  }

  /** The flags after raising them for the first entries of a child list. */
  function RaiseFlags(s: State, entries: seq<Symbol>): map<Symbol, bool>
  {
    if |entries| == 0 then s.auto
    else
      var before := RaiseFlags(s, entries[..|entries| - 1]);
      var c := entries[|entries| - 1];
      if ManualStatus(s, c) == STATUS_DOWN then before else before[c := true]
  }

  /** The flags after lowering those that are up. */
  function LowerFlags(s: State, entries: seq<Symbol>): map<Symbol, bool>
  {
    if |entries| == 0 then s.auto
    else
      var before := LowerFlags(s, entries[..|entries| - 1]);
      var c := entries[|entries| - 1];
      if c in before && before[c] then before[c := false] else before
  }

  function DoPropagate(s: State, parent: Symbol): State
  {
    s.(auto := RaiseFlags(s, ChildrenOf(s.children, parent)))
  }

  function DoClear(s: State, parent: Symbol): State
  {
    s.(auto := LowerFlags(s, ChildrenOf(s.children, parent)))
  }

  // -------------------------------------------------- the forest over any run

  datatype Call =
    | RegisterDependency(parent: Symbol, child: Symbol)
    | ReportStatus(site: Symbol, status: u32)
    | PropagateOutage(parent: Symbol)
    | ClearOutage(parent: Symbol)

  datatype Trace = Trace(state: State, log: seq<Edge>)

  ghost function Advance(t: Trace, call: Call): Trace
  {
    match call
    case RegisterDependency(parent, child) =>
      Trace(DoRegister(t.state, parent, child).0,
            if DoRegister(t.state, parent, child).1.Registered? then t.log + [Edge(child, parent)] else t.log)
    case ReportStatus(site, status) => t.(state := DoReport(t.state, site, status))
    case PropagateOutage(parent) => t.(state := DoPropagate(t.state, parent))
    case ClearOutage(parent) => t.(state := DoClear(t.state, parent))
  }

  ghost function RunTo(calls: seq<Call>, k: nat): Trace
    requires k <= |calls|
  {
    if k == 0 then Trace(State(map[], map[], map[], map[]), []) else Advance(RunTo(calls, k - 1), calls[k - 1])
  }

  ghost predicate WellFormed(s: State)
  {
    && Acyclic(s.parents)
    && (forall q: Symbol :: NoDuplicates(ChildrenOf(s.children, q)))
    && (forall x | x in s.parents :: x in ChildrenOf(s.children, s.parents[x]))
  }

  /** A dependency is accepted if and only if it joins two different sites and keeps the
      parent map acyclic, re-parenting included. */
  lemma {:induction false} RegisteredExactlyWhenAcyclic(s: State, parent: Symbol, child: Symbol)
    requires Acyclic(s.parents)
    ensures DoRegister(s, parent, child).1.Registered? <==> Acyclic(s.parents[child := parent])
    ensures DoRegister(s, parent, child).1.Rejected? ==> DoRegister(s, parent, child).0 == s
  {
    EdgeKeepsAcyclicExactly(s.parents, child, parent);
    assert Steps(s.parents, child, 0) == Some(child);
  }

  /** An accepted dependency is stored as given and touches no other and no status; a refused
      one says why. */
  lemma {:induction false} RegistrationIsStored(s: State, parent: Symbol, child: Symbol)
    ensures var (s', r) := DoRegister(s, parent, child);
            && (r == Rejected(SelfDependency) <==> parent == child)
            && s'.manual == s.manual && s'.auto == s.auto
            && (r.Rejected? ==> s' == s)
            && (r.Registered? ==>
                  && s'.parents.Keys == s.parents.Keys + {child} && s'.parents[child] == parent
                  && child in ChildrenOf(s'.children, parent)
                  && forall x | x in s.parents && x != child :: s'.parents[x] == s.parents[x])
  {
    AddChildListsIt(s.children, parent, child, parent);
  }

  lemma {:induction false} RegisteringKeepsForest(s: State, parent: Symbol, child: Symbol)
    requires WellFormed(s)
    ensures WellFormed(DoRegister(s, parent, child).0)
  {
    RegisteredExactlyWhenAcyclic(s, parent, child);
    var s' := DoRegister(s, parent, child).0;
    forall q: Symbol ensures NoDuplicates(ChildrenOf(s'.children, q)) {
      AddChildListsIt(s.children, parent, child, q);
    }
    forall x | x in s'.parents ensures x in ChildrenOf(s'.children, s'.parents[x]) {
      AddChildListsIt(s.children, parent, child, s'.parents[x]);
    }
  }

  lemma {:induction false} StepKeepsForest(t: Trace, call: Call)
    requires WellFormed(t.state) && IndexMatches(t.state.children, t.log)
    ensures WellFormed(Advance(t, call).state) && IndexMatches(Advance(t, call).state.children, Advance(t, call).log)
  {
    if call.RegisterDependency? {
      RegisteringKeepsForest(t.state, call.parent, call.child);
      if DoRegister(t.state, call.parent, call.child).1.Registered? {
        AddChildMatches(t.state.children, t.log, call.child, call.parent);
      }
    }
  }

  lemma {:induction false} EmptyIsAcyclic()
    ensures Acyclic(map[])
  {
    assert forall x: Symbol, n: nat | n > 0 :: Steps(map[], x, n) == None;
  }

  /** After any sequence of calls the parent map is acyclic, every recorded parent lists
      its child, and each child list is the children ever registered there, once each. */
  lemma {:induction false} RunKeepsForest(calls: seq<Call>, k: nat)
    requires k <= |calls|
    ensures WellFormed(RunTo(calls, k).state)
    ensures IndexMatches(RunTo(calls, k).state.children, RunTo(calls, k).log)
  {
    if k > 0 {
      RunKeepsForest(calls, k - 1);
      StepKeepsForest(RunTo(calls, k - 1), calls[k - 1]);
    } else {
      EmptyIsAcyclic();
    }
  }

  /** In every reachable state a child list is up to date exactly when every dependency ever
      registered under that parent is still in force. */
  lemma {:induction false} ChildrenAreCurrentExactly(calls: seq<Call>, k: nat, q: Symbol)
    requires k <= |calls|
    ensures var t := RunTo(calls, k);
            var p := t.state.parents;
            ListIsCurrent(t.state.children, p, q) <==>
            forall e | e in t.log && e.parent == q :: e.child in p && p[e.child] == q
  {
    var t := RunTo(calls, k);
    RunKeepsForest(calls, k);
    ListIsCurrentExactly(t.state.children, t.log, t.state.parents, q);
  }

  /** Call `i` of a run registered a parent for `x`. */
  ghost predicate Registers(calls: seq<Call>, i: nat, x: Symbol)
    requires i < |calls|
  {
    && calls[i].RegisterDependency? && calls[i].child == x
    && DoRegister(RunTo(calls, i).state, calls[i].parent, x).1.Registered?
  }

  lemma {:induction false} ParentAfterCall(calls: seq<Call>, k: nat, x: Symbol)
    requires k < |calls|
    ensures var before, after := RunTo(calls, k).state.parents, RunTo(calls, k + 1).state.parents;
            if Registers(calls, k, x) then x in after && after[x] == calls[k].parent
            else (x in after <==> x in before) && (x in after ==> after[x] == before[x])
  {
    if calls[k].RegisterDependency? {
      RegistrationIsStored(RunTo(calls, k).state, calls[k].parent, calls[k].child);
    }
  }

  /** In every reachable state the parent of a site is the one last registered for it. */
  lemma {:induction false} ParentIsLastRegistered(calls: seq<Call>, k: nat, x: Symbol) returns (i: nat)
    requires k <= |calls| && x in RunTo(calls, k).state.parents
    ensures i < k && Registers(calls, i, x) && RunTo(calls, k).state.parents[x] == calls[i].parent
    ensures forall j: nat | i < j < k :: !Registers(calls, j, x)
  {
    ParentAfterCall(calls, k - 1, x);
    if Registers(calls, k - 1, x) {
      i := k - 1;
    } else {
      i := ParentIsLastRegistered(calls, k - 1, x);
    }
  }

  /** In every reachable state the manual status of a site is the one last reported, or
      operational when none was. */
  lemma {:induction false} StatusIsLastReported(calls: seq<Call>, k: nat, x: Symbol) returns (i: Option<nat>)
    requires k <= |calls|
    ensures i.None? ==> ManualStatus(RunTo(calls, k).state, x) == 0
                        && forall j: nat | j < k :: !(calls[j].ReportStatus? && calls[j].site == x)
    ensures i.Some? ==> && i.value < k && calls[i.value] == ReportStatus(x, ManualStatus(RunTo(calls, k).state, x))
                        && forall j: nat | i.value < j < k :: !(calls[j].ReportStatus? && calls[j].site == x)
  {
    if k == 0 {
      i := None;
    } else {
      if calls[k - 1].RegisterDependency? {
        RegistrationIsStored(RunTo(calls, k - 1).state, calls[k - 1].parent, calls[k - 1].child);
      }
      if calls[k - 1].ReportStatus? && calls[k - 1].site == x {
        i := Some(k - 1);
      } else {
        i := StatusIsLastReported(calls, k - 1, x);
      }
    }
  }

  /** How the status of a site reads: down exactly when reported down, degraded when a flag
      is up or degraded was reported, otherwise as reported. A report moves only the
      status of its own site. */
  lemma {:induction false} StatusReads(s: State, site: Symbol, status: u32, other: Symbol)
    ensures SiteStatus(s, site) == 2 <==> ManualStatus(s, site) == 2
    ensures SiteStatus(s, site) == 1
        <==> ManualStatus(s, site) == 1 || (ManualStatus(s, site) != 2 && IsAutoDegraded(s, site))
    ensures !IsAutoDegraded(s, site) ==> SiteStatus(s, site) == ManualStatus(s, site)
    ensures var s' := DoReport(s, site, status);
            && ManualStatus(s', site) == status
            && (other != site ==> SiteStatus(s', other) == SiteStatus(s, other))
            && s'.parents == s.parents && s'.children == s.children && s'.auto == s.auto
  {
  }

  // --------------------------------------------------- propagation and clearing

  lemma {:induction false} RaisedExactly(s: State, entries: seq<Symbol>, site: Symbol)
    ensures var auto := RaiseFlags(s, entries);
            (site in auto && auto[site]) <==>
            IsAutoDegraded(s, site) || (site in entries && ManualStatus(s, site) != STATUS_DOWN)
  {
    if |entries| > 0 {
      var n := |entries| - 1;
      RaisedExactly(s, entries[..n], site);
      assert entries == entries[..n] + [entries[n]];
    }
  }

  lemma {:induction false} LoweredExactly(s: State, entries: seq<Symbol>, site: Symbol)
    ensures var auto := LowerFlags(s, entries);
            (site in auto && auto[site]) <==> IsAutoDegraded(s, site) && site !in entries
  {
    if |entries| > 0 {
      var n := |entries| - 1;
      LoweredExactly(s, entries[..n], site);
      assert entries == entries[..n] + [entries[n]];
    }
  }

  /** An outage of `parent` degrades exactly the listed children that are not reported
      down, one level only; every other site keeps its status. */
  lemma {:induction false} PropagationDegradesChildren(s: State, parent: Symbol, site: Symbol)
    ensures var s' := DoPropagate(s, parent);
            SiteStatus(s', site) == if Affected(s, parent, site) then STATUS_DEGRADED else SiteStatus(s, site)
  {
    RaisedExactly(s, ChildrenOf(s.children, parent), site);
  }

  /** Clearing undoes a propagation for every site exactly when none of the listed
      children was already flagged, by an outage of another parent. */
  lemma {:induction false} ClearUndoesPropagationExactly(s: State, parent: Symbol)
    ensures (forall site: Symbol ::
               IsAutoDegraded(DoClear(DoPropagate(s, parent), parent), site) <==> IsAutoDegraded(s, site))
            <==> (forall c | c in ChildrenOf(s.children, parent) :: !IsAutoDegraded(s, c))
  {
    var entries := ChildrenOf(s.children, parent);
    forall site: Symbol
      ensures IsAutoDegraded(DoClear(DoPropagate(s, parent), parent), site)
          <==> IsAutoDegraded(s, site) && site !in entries
    {
      RaisedExactly(s, entries, site);
      LoweredExactly(DoPropagate(s, parent), entries, site);
    }
  }

  /** In a reachable state an outage of `parent` therefore degrades exactly the sites ever
      registered under it and not reported down: also those that have moved since. */
  lemma {:induction false} FormerChildrenAreDegradedToo(calls: seq<Call>, k: nat, parent: Symbol, site: Symbol)
    requires k <= |calls|
    ensures var t := RunTo(calls, k);
            SiteStatus(DoPropagate(t.state, parent), site) ==
            if Edge(site, parent) in t.log && ManualStatus(t.state, site) != STATUS_DOWN then STATUS_DEGRADED
            else SiteStatus(t.state, site)
  {
    var t := RunTo(calls, k);
    RunKeepsForest(calls, k);
    PropagationDegradesChildren(t.state, parent, site);
    NamedExactlyOnce(t.log, parent);
  }

  /** Propagation keeps to the present children of `parent` exactly when every former child
      is reported down or degraded already. */
  lemma {:induction false} OnlyChildrenAffectedExactly(calls: seq<Call>, k: nat, parent: Symbol)
    requires k <= |calls|
    ensures var t := RunTo(calls, k);
            (forall site: Symbol :: SiteStatus(DoPropagate(t.state, parent), site) != SiteStatus(t.state, site) ==>
                                      site in t.state.parents && t.state.parents[site] == parent)
            <==> forall e | e in t.log && e.parent == parent ::
                   || (e.child in t.state.parents && t.state.parents[e.child] == parent)
                   || ManualStatus(t.state, e.child) == STATUS_DOWN
                   || SiteStatus(t.state, e.child) == STATUS_DEGRADED
  {
    var t := RunTo(calls, k);
    forall site: Symbol
      ensures SiteStatus(DoPropagate(t.state, parent), site) ==
              if Edge(site, parent) in t.log && ManualStatus(t.state, site) != STATUS_DOWN then STATUS_DEGRADED
              else SiteStatus(t.state, site)
    {
      FormerChildrenAreDegradedToo(calls, k, parent, site);
    }
    assert forall e | e in t.log && e.parent == parent :: e == Edge(e.child, parent);
  }

  /** Such a site: b depends on a, then on c; an outage of a still degrades b. */
  lemma {:induction false} FormerChildIsDegraded()
    ensures var s := RunTo([RegisterDependency("a", "b"), RegisterDependency("c", "b")], 2).state;
            s.parents == map["b" := "c"] && SiteStatus(s, "b") == STATUS_OPERATIONAL
            && SiteStatus(DoPropagate(s, "a"), "b") == STATUS_DEGRADED
  {
    var calls := [RegisterDependency("a", "b"), RegisterDependency("c", "b")];
    FirstDependency(calls);
    var t1, t2 := RunTo(calls, 1), RunTo(calls, 2);
    assert "c" != "b" by { assert "c"[0] != "b"[0]; }
    assert "c" != "a" by { assert "c"[0] != "a"[0]; }
    RootReachesItself(t1.state.parents, "c", "b");
    assert t2 == Advance(t1, calls[1]);
    assert t2.state.parents == map["b" := "c"];
    assert t2.log == [Edge("b", "a"), Edge("b", "c")] && t2.log[0] == Edge("b", "a");
    FormerChildrenAreDegradedToo(calls, 2, "a", "b");
  }

  lemma {:induction false} FirstDependency(calls: seq<Call>)
    requires |calls| > 0 && calls[0] == RegisterDependency("a", "b")
    ensures RunTo(calls, 1) == Trace(State(map["b" := "a"], map["a" := ["b"]], map[], map[]), [Edge("b", "a")])
  {
    var empty := State(map[], map[], map[], map[]);
    assert "a" != "b" by { assert "a"[0] != "b"[0]; }
    RootReachesItself(empty.parents, "a", "b");
    assert RunTo(calls, 0) == Trace(empty, []);
    assert RunTo(calls, 1) == Advance(RunTo(calls, 0), calls[0]);
    var done := DoRegister(empty, "a", "b");
    assert done.1.Registered? && done.0.parents == map["b" := "a"];
    var none: seq<Symbol> := [];
    assert ChildrenOf(empty.children, "a") == none && none + ["b"] == ["b"];
    assert done.0.children == AddChild(empty.children, "a", "b") == empty.children["a" := ["b"]];
    assert done.0.children == map["a" := ["b"]];
    assert [] + [Edge("b", "a")] == [Edge("b", "a")];
  }

  /** A flag that clearing takes with it: b depends on a and was flagged by an outage of a, so
      one more outage and its clearing leave b without the flag it had. */
  lemma {:induction false} ClearTakesEarlierFlag()
    ensures var s := RunTo([RegisterDependency("a", "b"), PropagateOutage("a")], 2).state;
            IsAutoDegraded(s, "b") && !IsAutoDegraded(DoClear(DoPropagate(s, "a"), "a"), "b")
  {
    var calls := [RegisterDependency("a", "b"), PropagateOutage("a")];
    FirstDependency(calls);
    var s1, s := RunTo(calls, 1).state, RunTo(calls, 2).state;
    assert s == DoPropagate(s1, "a");
    assert "b" in ["b"];
    RaisedExactly(s1, ["b"], "b");
    LoweredExactly(DoPropagate(s, "a"), ["b"], "b");
  }

  // ------------------------------------------------------------ the module itself

  /** How many of the first entries satisfy `ManualStatus != DOWN`. */
  function CountUp(s: State, entries: seq<Symbol>): nat
  {
    if |entries| == 0 then 0
    else CountUp(s, entries[..|entries| - 1]) + if ManualStatus(s, entries[|entries| - 1]) != STATUS_DOWN then 1 else 0
  }

  function CountFlagged(s: State, entries: seq<Symbol>): nat
  {
    if |entries| == 0 then 0
    else CountFlagged(s, entries[..|entries| - 1]) + if IsAutoDegraded(s, entries[|entries| - 1]) then 1 else 0
  }

  /** The listed sites that are not reported down, and those that are flagged. */
  function UpAmong(s: State, entries: seq<Symbol>): set<Symbol>
  {
    set c | c in entries && ManualStatus(s, c) != 2
  }

  function FlaggedAmong(s: State, entries: seq<Symbol>): set<Symbol>
  {
    set c | c in entries && IsAutoDegraded(s, c)
  }

  lemma {:induction false} OneMoreUp(s: State, entries: seq<Symbol>, c: Symbol)
    requires c !in entries
    ensures |UpAmong(s, entries + [c])| == |UpAmong(s, entries)| + if ManualStatus(s, c) != 2 then 1 else 0
  {
    assert UpAmong(s, entries + [c]) == UpAmong(s, entries) + if ManualStatus(s, c) != 2 then {c} else {};
  }

  lemma {:induction false} OneMoreFlagged(s: State, entries: seq<Symbol>, c: Symbol)
    requires c !in entries
    ensures |FlaggedAmong(s, entries + [c])| == |FlaggedAmong(s, entries)| + if IsAutoDegraded(s, c) then 1 else 0
  {
    assert FlaggedAmong(s, entries + [c]) == FlaggedAmong(s, entries) + if IsAutoDegraded(s, c) then {c} else {};
  }

  lemma {:induction false} CountsAreSizes(s: State, entries: seq<Symbol>)
    requires NoDuplicates(entries)
    ensures CountUp(s, entries) == |UpAmong(s, entries)| && CountFlagged(s, entries) == |FlaggedAmong(s, entries)|
  {
    if |entries| > 0 {
      var n := |entries| - 1;
      CountsAreSizes(s, entries[..n]);
      NotListedBefore(entries, n);
      assert entries == entries[..n] + [entries[n]];
      OneMoreUp(s, entries[..n], entries[n]);
      OneMoreFlagged(s, entries[..n], entries[n]);
    }
  }

  /** In every reachable state an outage reports how many of the sites ever registered under
      it are degraded now, and its clearing how many of them lose a flag. */
  lemma {:induction false} CountsAreReported(calls: seq<Call>, k: nat, parent: Symbol)
    requires k <= |calls|
    ensures var s := RunTo(calls, k).state;
            var entries := ChildrenOf(s.children, parent);
            && CountUp(s, entries) == |UpAmong(s, entries)| && CountFlagged(s, entries) == |FlaggedAmong(s, entries)|
            && (forall c | c in UpAmong(s, entries) :: SiteStatus(DoPropagate(s, parent), c) == 1)
            && (forall c | c in FlaggedAmong(s, entries) :: !IsAutoDegraded(DoClear(s, parent), c))
  {
    var s := RunTo(calls, k).state;
    var entries := ChildrenOf(s.children, parent);
    RunKeepsForest(calls, k);
    CountsAreSizes(s, entries);
    forall c | c in entries
      ensures ManualStatus(s, c) != 2 ==> SiteStatus(DoPropagate(s, parent), c) == 1
      ensures !IsAutoDegraded(DoClear(s, parent), c)
    {
      PropagationDegradesChildren(s, parent, c);
      LoweredExactly(s, entries, c);
    }
  }

  lemma NotListedBefore(entries: seq<Symbol>, i: nat)
    requires NoDuplicates(entries) && i < |entries|
    ensures entries[i] !in entries[..i]
  {
  }

  class DependencyGraph {
    var parents: Parents
    var children: Children
    var manual: map<Symbol, u32>
    var auto: map<Symbol, bool>

    function Stored(): State
      reads this
    {
      State(parents, children, manual, auto)
    }

    ghost predicate Valid()
      reads this
    {
      WellFormed(Stored())
    }

    constructor ()
      ensures Valid() && Stored() == State(map[], map[], map[], map[])
    {
      parents, children, manual, auto := map[], map[], map[], map[];
      new;
      RunKeepsForest([], 0);
    }

    method AncestryContains(start: Symbol, target: Symbol) returns (found: bool)
      requires Valid()
      ensures found <==> Reaches(parents, start, target)
    {
      var cursor := Some(start);
      ghost var n: nat := 0;
      while cursor.Some?
        invariant cursor == Steps(parents, start, n)
        invariant forall j: nat | j < n :: Steps(parents, start, j) != Some(target)
        decreases cursor.Some?, if cursor.Some? then Up(parents, cursor.value) else {}
      {
        var current := cursor.value;
        if current == target {
          return true;
        }
        StepsAdd(parents, start, n, 1);
        if current in parents {
          UpShrinks(parents, current);
        }
        cursor := if current in parents then Some(parents[current]) else None;
        n := n + 1;
      }
      forall j: nat ensures Steps(parents, start, j) != Some(target) {
        if j >= n { StepsEnded(parents, start, n, j); }
      }
      found := false;
    }

    method Register(parent: Symbol, child: Symbol) returns (r: Registration)
      requires Valid()
      modifies this
      ensures Valid()
      ensures (Stored(), r) == DoRegister(old(Stored()), parent, child)
    {
      RegisteringKeepsForest(Stored(), parent, child);
      if parent == child {
        return Rejected(SelfDependency);
      }
      var cycle := AncestryContains(parent, child);
      if cycle {
        return Rejected(CycleDetected);
      }
      parents := parents[child := parent];
      var entries := if parent in children then children[parent] else [];
      if child !in entries {
        entries := entries + [child];
      }
      children := children[parent := entries];
      r := Registered;
    }

    method ReportStatus(site: Symbol, status: u32)
      requires Valid()
      modifies this`manual
      ensures Valid() && Stored() == DoReport(old(Stored()), site, status)
    {
      manual := manual[site := status];
    }

    /** Returns how many children it flagged. */
    method PropagateOutage(parent: Symbol) returns (flagged: nat)
      requires Valid()
      modifies this`auto
      ensures Valid() && Stored() == DoPropagate(old(Stored()), parent)
      ensures flagged == CountUp(old(Stored()), ChildrenOf(children, parent))
    {
      ghost var s := Stored();
      var entries := ChildrenOf(children, parent);
      flagged := 0;
      var i := 0;
      while i < |entries|
        invariant 0 <= i <= |entries|
        invariant auto == RaiseFlags(s, entries[..i])
        invariant flagged == CountUp(s, entries[..i])
      {
        assert entries[..i + 1][..i] == entries[..i];
        if ManualStatus(Stored(), entries[i]) != STATUS_DOWN {
          auto := auto[entries[i] := true];
          flagged := flagged + 1;
        }
        i := i + 1;
      }
      assert entries[..i] == entries;
    }

    /** Returns how many flags it lowered; no child is listed twice, so each counts once. */
    method ClearOutage(parent: Symbol) returns (cleared: nat)
      requires Valid()
      modifies this`auto
      ensures Valid() && Stored() == DoClear(old(Stored()), parent)
      ensures cleared == CountFlagged(old(Stored()), ChildrenOf(children, parent))
    {
      ghost var s := Stored();
      var entries := ChildrenOf(children, parent);
      assert NoDuplicates(entries);
      cleared := 0;
      var i := 0;
      while i < |entries|
        invariant 0 <= i <= |entries|
        invariant auto == LowerFlags(s, entries[..i])
        invariant cleared == CountFlagged(s, entries[..i])
      {
        assert entries[..i + 1][..i] == entries[..i];
        LoweredExactly(s, entries[..i], entries[i]);
        NotListedBefore(entries, i);
        if IsAutoDegraded(Stored(), entries[i]) {
          auto := auto[entries[i] := false];
          cleared := cleared + 1;
        }
        i := i + 1;
      }
      assert entries[..i] == entries;
    }
  }
}
