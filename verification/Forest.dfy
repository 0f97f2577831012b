/** Parent maps and the walk up them: the theory shared by the outage-correlation tags
    and the site dependencies. */
module Forest {
  import opened SlaTypes

  /** Each key has one parent; a parent need not itself be a key. */
  type Parents = map<Symbol, Symbol>

  /** The ancestor `n` steps above `x`, if the walk gets that far. */
  function Steps(p: Parents, x: Symbol, n: nat): Option<Symbol>
    decreases n
  {
    if n == 0 then Some(x) else if x in p then Steps(p, p[x], n - 1) else None
  }

  /** `y` is `x` or one of its ancestors. */
  ghost predicate Reaches(p: Parents, x: Symbol, y: Symbol)
  {
    exists n: nat :: Steps(p, x, n) == Some(y)
  }

  ghost predicate Acyclic(p: Parents)
  {
    forall x: Symbol, n: nat | n > 0 :: Steps(p, x, n) != Some(x)
  }

  lemma {:induction false} StepsAdd(p: Parents, x: Symbol, m: nat, n: nat)
    requires Steps(p, x, m).Some?
    ensures Steps(p, x, m + n) == Steps(p, Steps(p, x, m).value, n)
    decreases m
  {
    if m > 0 {
      StepsAdd(p, p[x], m - 1, n);
    }
  }

  /** A walk that has ended stays ended. */
  lemma {:induction false} StepsEnded(p: Parents, x: Symbol, m: nat, n: nat)
    requires Steps(p, x, m).None? && m <= n
    ensures Steps(p, x, n).None?
    decreases m
  {
    if x in p {
      StepsEnded(p, p[x], m - 1, n - 1);
    }
  }

  // -------------------------------------------------- the termination measure

  /** The keys on the walk from `x`, `x` included. */
  ghost function Up(p: Parents, x: Symbol): set<Symbol>
  {
    set y | y in p.Keys && Reaches(p, x, y)
  }

  /** In an acyclic map every step up leaves strictly fewer keys ahead: this is why the
      unbounded walks of the source terminate. */
  lemma {:induction false} UpShrinks(p: Parents, x: Symbol)
    requires Acyclic(p) && x in p
    ensures Up(p, p[x]) < Up(p, x)
  {
    forall y | y in Up(p, p[x]) ensures y in Up(p, x) {
      var n: nat :| Steps(p, p[x], n) == Some(y);
      assert Steps(p, x, n + 1) == Some(y);
    }
    assert Steps(p, x, 0) == Some(x);
    assert x in Up(p, x);
    forall n: nat ensures Steps(p, p[x], n) != Some(x) {
      assert Steps(p, x, n + 1) == Steps(p, p[x], n);
    }
    assert !Reaches(p, p[x], x);
  }

  /** The top of the tree that `x` belongs to. */
  ghost function Root(p: Parents, x: Symbol): (r: Symbol)
    requires Acyclic(p)
    ensures r !in p
    decreases Up(p, x)
  {
    if x in p then
      UpShrinks(p, x);
      Root(p, p[x])
    else x
  }

  /** How many ancestors `x` has. */
  ghost function Depth(p: Parents, x: Symbol): (d: nat)
    requires Acyclic(p)
    decreases Up(p, x)
  {
    if x in p then
      UpShrinks(p, x);
      1 + Depth(p, p[x])
    else 0
  }

  /** The root is the one key-less ancestor, and it is Depth steps up. */
  lemma {:induction false} RootIsTopAncestor(p: Parents, x: Symbol)
    requires Acyclic(p)
    ensures Steps(p, x, Depth(p, x)) == Some(Root(p, x))
    ensures Reaches(p, x, Root(p, x)) && Root(p, x) !in p
    decreases Up(p, x)
  {
    if x in p {
      UpShrinks(p, x);
      RootIsTopAncestor(p, p[x]);
    }
  }

  // ------------------------------------------------------------ the capped climb

  /** Climb at most `k` steps. */
  function Climb(p: Parents, x: Symbol, k: nat): Symbol
    decreases k
  {
    if k > 0 && x in p then Climb(p, p[x], k - 1) else x
  }

  /** The capped climb finds the root exactly when there are at most `k` ancestors. */
  lemma {:induction false} ClimbFindsRoot(p: Parents, x: Symbol, k: nat)
    requires Acyclic(p)
    ensures Climb(p, x, k) == Root(p, x) <==> Depth(p, x) <= k
    ensures Depth(p, x) > k ==> Climb(p, x, k) in p
    decreases k
  {
    if x in p && k > 0 {
      ClimbFindsRoot(p, p[x], k - 1);
    }
  }

  // ------------------------------------------------------------- changing an edge

  /** Until a walk first meets `child`, re-parenting `child` does not change it. */
  lemma {:induction false} WalkAvoidingChild(p: Parents, child: Symbol, parent: Symbol, x: Symbol, n: nat)
    requires !Reaches(p, x, child)
    ensures Steps(p[child := parent], x, n) == Steps(p, x, n)
    ensures !Reaches(p[child := parent], x, child)
  {
    var p' := p[child := parent];
    WalkAgrees(p, child, parent, x, n);
    forall m: nat ensures Steps(p', x, m) != Some(child) {
      WalkAgrees(p, child, parent, x, m);
    }
  }

  lemma {:induction false} WalkAgrees(p: Parents, child: Symbol, parent: Symbol, x: Symbol, n: nat)
    requires !Reaches(p, x, child)
    ensures Steps(p[child := parent], x, n) == Steps(p, x, n)
    decreases n
  {
    assert Steps(p, x, 0) == Some(x);
    if n > 0 && x in p {
      forall m: nat ensures Steps(p, p[x], m) != Some(child) {
        assert Steps(p, x, m + 1) == Steps(p, p[x], m);
      }
      WalkAgrees(p, child, parent, p[x], n - 1);
    }
  }

  /** A walk that meets `child` in the old map meets it in the new one too. */
  lemma {:induction false} WalkMeetsChild(p: Parents, child: Symbol, parent: Symbol, x: Symbol, n: nat) returns (m: nat)
    requires Steps(p, x, n) == Some(child)
    ensures Steps(p[child := parent], x, m) == Some(child)
    decreases n
  {
    if x == child {
      m := 0;
    } else {
      m := WalkMeetsChild(p, child, parent, p[x], n - 1);
      m := m + 1;
    }
  }

  /** Going once round a cycle brings every node on it back to itself. */
  lemma {:induction false} CycleRotates(p: Parents, x: Symbol, n: nat, y: Symbol, k: nat)
    requires n > 0 && Steps(p, x, n) == Some(x) && Steps(p, x, k) == Some(y)
    ensures Steps(p, y, n) == Some(y)
  {
    StepsAdd(p, x, n, k);
    StepsAdd(p, x, k, n);
  }

  /** The test both modules make before accepting an edge is exact: setting the parent of
      `child`, whether it had one or not, keeps the map acyclic if and only if `parent`
      does not already lead up to `child`. */
  lemma {:induction false} EdgeKeepsAcyclicExactly(p: Parents, child: Symbol, parent: Symbol)
    requires Acyclic(p)
    ensures Acyclic(p[child := parent]) <==> !Reaches(p, parent, child)
  {
    var p' := p[child := parent];
    if Reaches(p, parent, child) {
      var n: nat :| Steps(p, parent, n) == Some(child);
      var m := WalkMeetsChild(p, child, parent, parent, n);
      assert Steps(p', child, m + 1) == Some(child);
    } else {
      forall x: Symbol, n: nat | n > 0 ensures Steps(p', x, n) != Some(x) {
        if Steps(p', x, n) == Some(x) {
          if Reaches(p, x, child) {
            var k: nat :| Steps(p, x, k) == Some(child);
            var j := WalkMeetsChild(p, child, parent, x, k);
            CycleRotates(p', x, n, child, j);
            assert Steps(p', parent, n - 1) == Some(child);
            WalkAvoidingChild(p, child, parent, parent, n - 1);
          } else {
            WalkAvoidingChild(p, child, parent, x, n);
          }
        }
      }
    }
  }

  lemma {:induction false} FewerEdgesFewerSteps(p: Parents, child: Symbol, x: Symbol, n: nat)
    ensures Steps(p - {child}, x, n).Some? ==> Steps(p, x, n) == Steps(p - {child}, x, n)
    decreases n
  {
    if n > 0 && x in p - {child} {
      FewerEdgesFewerSteps(p, child, p[x], n - 1);
    }
  }

  /** Making a node a root keeps the map acyclic. */
  lemma {:induction false} DropKeepsAcyclic(p: Parents, child: Symbol)
    requires Acyclic(p)
    ensures Acyclic(p - {child})
  {
    forall x: Symbol, n: nat | n > 0 ensures Steps(p - {child}, x, n) != Some(x) {
      FewerEdgesFewerSteps(p, child, x, n);
    }
  }

  // ------------------------------------------------------------- the child index

  /** An accepted edge. */
  datatype Edge = Edge(child: Symbol, parent: Symbol)

  /** Secondary index: for each parent the children ever registered under it. */
  type Children = map<Symbol, seq<Symbol>>

  function ChildrenOf(c: Children, parent: Symbol): seq<Symbol>
  {
    if parent in c then c[parent] else []
  }

  /** Append unless already listed. */
  function AddChild(c: Children, parent: Symbol, child: Symbol): Children
  {
    var entries := ChildrenOf(c, parent);
    c[parent := if child in entries then entries else entries + [child]]
  }

  ghost predicate NoDuplicates(s: seq<Symbol>)
  {
    forall i, j | 0 <= i < j < |s| :: s[i] != s[j]
  }

  lemma {:induction false} AddChildListsIt(c: Children, parent: Symbol, child: Symbol, q: Symbol)
    ensures forall x :: x in ChildrenOf(AddChild(c, parent, child), q) <==>
                        x in ChildrenOf(c, q) || (q == parent && x == child)
    ensures NoDuplicates(ChildrenOf(c, q)) ==> NoDuplicates(ChildrenOf(AddChild(c, parent, child), q))
  {
  }

  /** The distinct children named under `parent` in a log of accepted edges, in order of
      first mention. */
  function NamedUnder(log: seq<Edge>, parent: Symbol): seq<Symbol>
  {
    if |log| == 0 then []
    else
      var before := NamedUnder(log[..|log| - 1], parent);
      var e := log[|log| - 1];
      if e.parent == parent && e.child !in before then before + [e.child] else before
  }

  /** A child is listed under a parent, once, exactly when some accepted edge ever put it
      there, whether or not it has been re-parented since. */
  lemma {:induction false} NamedExactlyOnce(log: seq<Edge>, parent: Symbol)
    ensures NoDuplicates(NamedUnder(log, parent))
    ensures forall x :: x in NamedUnder(log, parent) <==> Edge(x, parent) in log
  {
    if |log| > 0 {
      var n := |log| - 1;
      NamedExactlyOnce(log[..n], parent);
      assert log == log[..n] + [log[n]];
    }
  }

  lemma {:induction false} NamedAppend(log: seq<Edge>, e: Edge, parent: Symbol)
    ensures NamedUnder(log + [e], parent) ==
            if e.parent == parent && e.child !in NamedUnder(log, parent) then NamedUnder(log, parent) + [e.child]
            else NamedUnder(log, parent)
  {
    assert (log + [e])[..|log|] == log;
  }

  /** The index is what the log of accepted edges says, key by key. */
  ghost predicate IndexMatches(c: Children, log: seq<Edge>)
  {
    forall q: Symbol :: ChildrenOf(c, q) == NamedUnder(log, q)
  }

  lemma {:induction false} AddChildMatches(c: Children, log: seq<Edge>, child: Symbol, parent: Symbol)
    requires IndexMatches(c, log)
    ensures IndexMatches(AddChild(c, parent, child), log + [Edge(child, parent)])
  {
    forall q: Symbol ensures ChildrenOf(AddChild(c, parent, child), q) == NamedUnder(log + [Edge(child, parent)], q) {
      NamedAppend(log, Edge(child, parent), q);
    }
  }

  /** A walk from a root stays there. */
  lemma {:induction false} RootReachesItself(p: Parents, x: Symbol, y: Symbol)
    requires x !in p && x != y
    ensures !Reaches(p, x, y)
  {
    forall n: nat ensures Steps(p, x, n) != Some(y) {
    }
  }

  /** The list of `q` names exactly the present children of `q`. */
  ghost predicate ListIsCurrent(c: Children, p: Parents, q: Symbol)
  {
    forall x: Symbol :: x in ChildrenOf(c, q) <==> x in p && p[x] == q
  }

  /** A list is up to date exactly when every edge ever accepted under its parent is still
      in force, that is, when no child has been moved away or made a root since. */
  lemma {:induction false} ListIsCurrentExactly(c: Children, log: seq<Edge>, p: Parents, q: Symbol)
    requires IndexMatches(c, log) && forall x | x in p :: x in ChildrenOf(c, p[x])
    ensures ListIsCurrent(c, p, q) <==> forall e | e in log && e.parent == q :: e.child in p && p[e.child] == q
  {
    NamedExactlyOnce(log, q);
    assert forall x: Symbol :: x in ChildrenOf(c, q) <==> Edge(x, q) in log;
    if ListIsCurrent(c, p, q) {
      forall e | e in log && e.parent == q ensures e.child in p && p[e.child] == q {
        assert e == Edge(e.child, q);
        assert e.child in ChildrenOf(c, q);
      }
    }
  }
}
