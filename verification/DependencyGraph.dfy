/** `forge/parser/graph.py`: the graph the compiler builds, its cycle search and its order. */
module DependencyGraphs {
  import opened Collections
  import opened Fqns
  import opened Digraphs
  import opened MinHeaps

  datatype ContractNode = ContractNode(fqn: Fqn, kind: string, needs: seq<Fqn>)

  datatype GraphError =
    | Unresolved(fqn: Fqn, dep: Fqn)
    | Cycle(walk: seq<Fqn>)
    | SelfReference(fqn: Fqn)

  type Adjacency = Dict<Fqn, seq<Fqn>>

  ghost predicate Has(d: Adjacency, a: Fqn, b: Fqn) {
    a in d.at && b in d.at[a]
  }

  /** `d.setdefault(a, {})[b] = None` */
  function Link(d: Adjacency, a: Fqn, b: Fqn): (r: Adjacency)
    requires d.Ok()
    ensures r.Ok() && r.at.Keys == d.at.Keys + {a} && Appended(d, r, a, b)
    ensures forall x, y :: Has(r, x, y) <==> Has(d, x, y) || (x == a && y == b)
    ensures (forall x <- d.at :: Distinct(d.at[x])) ==> forall x <- r.at :: Distinct(r.at[x])
  {
    var bs := Insert(d.Get(a, []), b);
    assert forall y :: y in bs <==> y in Elements(bs);
    assert forall y :: y in d.Get(a, []) <==> y in Elements(d.Get(a, []));
    d.Set(a, bs)
  }

  /** From `was` to `now` the row of `a` keeps its order and ends with `b`, unless it had `b`
  already; a new row comes last; and every other row stays as it is. */
  ghost predicate Appended(was: Adjacency, now: Adjacency, a: Fqn, b: Fqn) {
    && now.keys == Insert(was.keys, a)
    && now.Get(a, []) == Insert(was.Get(a, []), b)
    && forall x :: x != a ==> now.Get(x, []) == was.Get(x, [])
  }

  /** `d.setdefault(a, {})` */
  function Touch(d: Adjacency, a: Fqn): (r: Adjacency)
    requires d.Ok()
    ensures r.Ok()
    ensures forall x, y :: Has(r, x, y) <==> Has(d, x, y)
    ensures (forall x <- d.at :: Distinct(d.at[x])) ==> forall x <- r.at :: Distinct(r.at[x])
  {
    d.SetDefault(a, [])
  }

  ghost function ArcsIn(d: Adjacency): set<(Fqn, Fqn)> {
    set a, b | a in d.at && b in d.at[a] :: (a, b)
  }

  lemma SameArcs(d: Adjacency, r: Adjacency)
    requires forall x, y :: Has(r, x, y) <==> Has(d, x, y)
    ensures ArcsIn(r) == ArcsIn(d)
  {
    assert forall a, b :: (a, b) in ArcsIn(d) <==> Has(d, a, b);
    assert forall a, b :: (a, b) in ArcsIn(r) <==> Has(r, a, b);
  }

  lemma OneMoreArc(d: Adjacency, r: Adjacency, from: Fqn, to: Fqn)
    requires forall x, y :: Has(r, x, y) <==> Has(d, x, y) || (x == from && y == to)
    ensures ArcsIn(r) == ArcsIn(d) + {(from, to)}
  {
    assert forall a, b :: (a, b) in ArcsIn(d) <==> Has(d, a, b);
    assert forall a, b :: (a, b) in ArcsIn(r) <==> Has(r, a, b);
  }

  /** One frame of the explicit stack; no iterator yet means "not entered yet". */
  datatype Frame = Frame(fqn: Fqn, deps: Option<seq<Fqn>>)

  ghost function Weight(stack: seq<Frame>): nat {
    if stack == [] then 0
    else
      var top := stack[|stack| - 1];
      Weight(stack[..|stack| - 1]) + (if top.deps.None? then 1 else 2 * |top.deps.value| + 1)
  }

  lemma WeightPush(stack: seq<Frame>, f: Frame)
    ensures Weight(stack + [f]) == Weight(stack) + (if f.deps.None? then 1 else 2 * |f.deps.value| + 1)
  {
    assert (stack + [f])[..|stack|] == stack;
  }

  /** The walk is closed by the arc from `a` to `b`. */
  predicate ClosedBy(w: seq<Fqn>, a: Fqn, b: Fqn) {
    |w| >= 2 && w[|w| - 2] == a && w[|w| - 1] == b
  }

  ghost predicate SomeClosedBy(walks: seq<seq<Fqn>>, a: Fqn, b: Fqn) {
    exists w <- walks :: ClosedBy(w, a, b)
  }

  /** No arc closes two of the walks. */
  ghost predicate OncePerArc(walks: seq<seq<Fqn>>) {
    forall i, j, a, b :: 0 <= i < j < |walks| && ClosedBy(walks[i], a, b) ==> !ClosedBy(walks[j], a, b)
  }

  lemma OneMoreWalk(walks: seq<seq<Fqn>>, w: seq<Fqn>, a: Fqn, b: Fqn)
    requires OncePerArc(walks) && ClosedBy(w, a, b) && !SomeClosedBy(walks, a, b)
    ensures OncePerArc(walks + [w])
    ensures forall x, y :: SomeClosedBy(walks + [w], x, y) <==> SomeClosedBy(walks, x, y) || (x == a && y == b)
  {
    forall x, y ensures SomeClosedBy(walks + [w], x, y) <==> SomeClosedBy(walks, x, y) || (x == a && y == b) {
      if v :| v in walks && ClosedBy(v, x, y) { assert v in walks + [w]; }
      assert w in walks + [w];
    }
    forall i, j, x, y | 0 <= i < j < |walks + [w]| && ClosedBy((walks + [w])[i], x, y)
      ensures !ClosedBy((walks + [w])[j], x, y)
    {
      assert walks[i] in walks;
    }
  }

  /** The search state, with the order in which frames were finished. */
  datatype Search = Search(
    visited: set<Fqn>, inStack: set<Fqn>, path: seq<Fqn>, stack: seq<Frame>,
    cycles: seq<seq<Fqn>>, finished: seq<Fqn>)
  {
    /** The dependency that is about to be entered from the top of the path. */
    ghost predicate Pending(c: Fqn) {
      |stack| == |path| + 1 && c == stack[|path|].fqn
    }

    /** Dependency `c` of the `i`-th contract on the path has been dealt with. */
    ghost predicate Handled(i: nat, c: Fqn)
      requires i < |path|
    {
      || SomeClosedBy(cycles, path[i], c)
      || c in finished
      || (i + 1 < |path| && c == path[i + 1])
      || (i + 1 == |path| && Pending(c))
    }

    ghost predicate Shape(g: Digraph) {
      && Distinct(path) && inStack == Elements(path)
      && Distinct(finished) && Elements(finished) !! inStack
      && visited == inStack + Elements(finished) && visited <= g.nodes
      && (|stack| == |path| || |stack| == |path| + 1)
      && (forall i :: 0 <= i < |path| ==>
            stack[i].fqn == path[i] && stack[i].deps.Some? && Distinct(stack[i].deps.value))
      && (forall i :: 0 <= i < |path| - 1 ==> g.Arc(path[i], path[i + 1]))
      && (|stack| == |path| + 1 ==>
            && stack[|path|].deps.None? && stack[|path|].fqn in g.nodes
            && (path != [] ==>
                  && g.Arc(path[|path| - 1], stack[|path|].fqn)
                  && stack[|path|].fqn !in stack[|path| - 1].deps.value))
    }

    ghost predicate Progress(g: Digraph)
      requires Shape(g)
    {
      && (forall i, c :: 0 <= i < |path| && c in stack[i].deps.value ==> c in g.Deps(path[i]))
      && (forall i, c :: 0 <= i < |path| && c in g.Deps(path[i]) ==>
            c in stack[i].deps.value || Handled(i, c))
    }

    /** A walk has been reported only for arcs that the search has taken. */
    ghost predicate Taken(g: Digraph)
      requires Shape(g)
    {
      && OncePerArc(cycles)
      && (forall a, b :: SomeClosedBy(cycles, a, b) ==> a in visited)
      && (forall i, b :: 0 <= i < |path| && SomeClosedBy(cycles, path[i], b) ==> Behind(g, i, b))
    }

    /** The search is past dependency `b` of the `i`-th contract on the path. */
    ghost predicate Behind(g: Digraph, i: nat, b: Fqn)
      requires Shape(g) && i < |path|
    {
      b !in stack[i].deps.value && !(i + 1 == |path| && Pending(b))
    }

    ghost predicate Sound(g: Digraph) {
      && (forall w <- cycles :: g.ClosedWalk(w) && Distinct(w[1..]))
      && (forall j, d :: 0 <= j < |finished| && d in g.Deps(finished[j]) ==>
            d in finished[..j] || SomeClosedBy(cycles, finished[j], d))
    }

    ghost predicate Inv(g: Digraph) {
      Shape(g) && Progress(g) && Taken(g) && Sound(g)
    }
  }

  lemma PathWalk(g: Digraph, s: Search, c: Fqn, k: nat)
    requires s.Shape(g) && s.Pending(c) && k < |s.path| && s.path[k] == c
    ensures var w := s.path[k..] + [c];
      g.ClosedWalk(w) && Distinct(w[1..]) && ClosedBy(w, s.path[|s.path| - 1], c)
  {
    var w := s.path[k..] + [c];
    forall i | 0 <= i < |w| - 1 ensures g.Arc(w[i], w[i + 1]) {
      assert w[i] == s.path[k + i];
    }
    forall i, j | 0 <= i < j < |w[1..]| ensures w[1..][i] != w[1..][j] {
      assert w[1..][i] == s.path[k + 1 + i];
    }
  }

  /** Reporting a walk for the pending dependency. */
  lemma ReportTaken(g: Digraph, s: Search, c: Fqn, w: seq<Fqn>)
    requires s.Shape(g) && s.Taken(g) && s.Pending(c) && s.path != [] && ClosedBy(w, s.path[|s.path| - 1], c)
    ensures var t := s.(stack := s.stack[..|s.path|], cycles := s.cycles + [w]);
      t.Shape(g) && t.Taken(g)
  {
    hide ClosedBy, SomeClosedBy, OncePerArc;
    var m := |s.path| - 1;
    var t := s.(stack := s.stack[..|s.path|], cycles := s.cycles + [w]);
    OneMoreWalk(s.cycles, w, s.path[m], c);
    assert t.Shape(g);
    forall i, b | 0 <= i < |t.path| && SomeClosedBy(t.cycles, t.path[i], b) ensures t.Behind(g, i, b) {
      if SomeClosedBy(s.cycles, s.path[i], b) { assert s.Behind(g, i, b); } else { assert i == m && b == c; }
    }
  }

  lemma ReportProgress(g: Digraph, s: Search, c: Fqn, w: seq<Fqn>)
    requires s.Shape(g) && s.Progress(g) && s.Sound(g) && s.Pending(c) && s.path != []
    requires ClosedBy(w, s.path[|s.path| - 1], c) && g.ClosedWalk(w) && Distinct(w[1..])
    ensures var t := s.(stack := s.stack[..|s.path|], cycles := s.cycles + [w]);
      t.Shape(g) && t.Progress(g) && t.Sound(g)
  {
    hide ClosedBy, Digraph.ClosedWalk;
    var t := s.(stack := s.stack[..|s.path|], cycles := s.cycles + [w]);
    assert t.Shape(g);
    StillClosedBy(s.cycles, w);
    assert w in t.cycles;
    forall i, d | 0 <= i < |t.path| && d in g.Deps(t.path[i])
      ensures d in t.stack[i].deps.value || t.Handled(i, d)
    {
      assert d in s.stack[i].deps.value || s.Handled(i, d);
    }
  }

  lemma StillClosedBy(walks: seq<seq<Fqn>>, w: seq<Fqn>)
    ensures forall a, b :: SomeClosedBy(walks, a, b) ==> SomeClosedBy(walks + [w], a, b)
    ensures forall a, b :: ClosedBy(w, a, b) ==> SomeClosedBy(walks + [w], a, b)
  {
    hide ClosedBy;
    assert w in walks + [w];
    forall a, b | SomeClosedBy(walks, a, b) ensures SomeClosedBy(walks + [w], a, b) {
      var v :| v in walks && ClosedBy(v, a, b);
      assert v in walks + [w];
    }
  }

  /** A dependency already on the path closes a walk. */
  lemma FoundCycle(g: Digraph, s: Search, c: Fqn, k: nat)
    requires s.Inv(g) && s.Pending(c) && k < |s.path| && s.path[k] == c
    ensures s.(stack := s.stack[..|s.path|], cycles := s.cycles + [s.path[k..] + [c]]).Inv(g)
  {
    hide Search.Shape, Search.Progress, Search.Taken, Search.Sound, ClosedBy, Digraph.ClosedWalk;
    PathWalk(g, s, c, k);
    ReportTaken(g, s, c, s.path[k..] + [c]);
    ReportProgress(g, s, c, s.path[k..] + [c]);
  }

  /** A finished dependency needs no second visit. */
  lemma AlreadyFinished(g: Digraph, s: Search, c: Fqn)
    requires s.Inv(g) && s.Pending(c) && c in s.visited && c !in s.inStack
    ensures s.(stack := s.stack[..|s.path|]).Inv(g)
  {
    var t := s.(stack := s.stack[..|s.path|]);
    assert t.Shape(g);
    forall i, b | 0 <= i < |t.path| && SomeClosedBy(t.cycles, t.path[i], b) ensures t.Behind(g, i, b) {
      assert s.Behind(g, i, b);
    }
    forall i, d | 0 <= i < |t.path| && d in g.Deps(t.path[i])
      ensures d in t.stack[i].deps.value || t.Handled(i, d)
    {
      assert d in s.stack[i].deps.value || s.Handled(i, d);
    }
  }

  /** A new contract joins the path with all its dependencies still to walk. */
  lemma EnterNew(g: Digraph, s: Search, c: Fqn, deps: seq<Fqn>)
    requires s.Inv(g) && s.Pending(c) && c !in s.visited && Elements(deps) == g.Deps(c) && Distinct(deps)
    ensures s.(stack := s.stack[..|s.path|] + [Frame(c, Some(deps))], visited := s.visited + {c},
      inStack := s.inStack + {c}, path := s.path + [c]).Inv(g)
  {
    var m := |s.path|;
    var t := s.(stack := s.stack[..m] + [Frame(c, Some(deps))], visited := s.visited + {c},
      inStack := s.inStack + {c}, path := s.path + [c]);
    assert Elements(t.path) == s.inStack + {c};
    assert t.Shape(g);
    forall i, b | 0 <= i < |t.path| && SomeClosedBy(t.cycles, t.path[i], b) ensures t.Behind(g, i, b) {
      assert i < m && s.Behind(g, i, b);
    }
    forall i, d | 0 <= i < |t.path| && d in t.stack[i].deps.value ensures d in g.Deps(t.path[i]) {
      if i == m { assert d in Elements(deps); }
    }
    forall i, d | 0 <= i < |t.path| && d in g.Deps(t.path[i])
      ensures d in t.stack[i].deps.value || t.Handled(i, d)
    {
      if i == m {
        assert d in Elements(deps);
      } else {
        assert d in s.stack[i].deps.value || s.Handled(i, d);
      }
    }
  }

  /** The top contract turns to its next dependency. */
  lemma NextDependency(g: Digraph, s: Search, m: nat)
    requires s.Inv(g) && |s.stack| == |s.path| == m + 1 && s.stack[m].deps.value != []
    ensures var f := s.stack[m];
      s.(stack := s.stack[..m] + [f.(deps := Some(f.deps.value[1..]))]
        + [Frame(f.deps.value[0], None)]).Inv(g)
  {
    var f := s.stack[m];
    var deps := f.deps.value;
    var t := s.(stack := s.stack[..m] + [f.(deps := Some(deps[1..]))] + [Frame(deps[0], None)]);
    assert deps[0] in g.Deps(s.path[m]);
    assert t.Shape(g);
    forall i, b | 0 <= i < |t.path| && SomeClosedBy(t.cycles, t.path[i], b) ensures t.Behind(g, i, b) {
      assert s.Behind(g, i, b);
    }
    assert forall d <- deps :: d == deps[0] || d in deps[1..];
    forall i, d | 0 <= i < |t.path| && d in t.stack[i].deps.value ensures d in g.Deps(t.path[i]) {
      assert d in s.stack[i].deps.value;
    }
    forall i, d | 0 <= i < |t.path| && d in g.Deps(t.path[i])
      ensures d in t.stack[i].deps.value || t.Handled(i, d)
    {
      assert d in s.stack[i].deps.value || s.Handled(i, d);
      if i == m && d == deps[0] { assert t.Pending(d); }
    }
  }

  /** The top contract has no dependency left: it is finished after all of them. */
  lemma Finish(g: Digraph, s: Search, m: nat)
    requires s.Inv(g) && |s.stack| == |s.path| == m + 1 && s.stack[m].deps.value == []
    ensures s.(stack := s.stack[..m], inStack := s.inStack - {s.path[m]}, path := s.path[..m],
      finished := s.finished + [s.path[m]]).Inv(g)
  {
    var c := s.path[m];
    var t := s.(stack := s.stack[..m], inStack := s.inStack - {c}, path := s.path[..m],
      finished := s.finished + [c]);
    assert s.path == s.path[..m] + [c];
    assert c in s.inStack;
    assert Elements(t.finished) == Elements(s.finished) + {c};
    assert Elements(t.path) == s.inStack - {c};
    assert t.Shape(g);
    forall i, b | 0 <= i < |t.path| && SomeClosedBy(t.cycles, t.path[i], b) ensures t.Behind(g, i, b) {
      assert s.Behind(g, i, b);
    }
    forall i, d | 0 <= i < |t.path| && d in g.Deps(t.path[i])
      ensures d in t.stack[i].deps.value || t.Handled(i, d)
    {
      assert d in s.stack[i].deps.value || s.Handled(i, d);
    }
    forall j, d | 0 <= j < |t.finished| && d in g.Deps(t.finished[j])
      ensures d in t.finished[..j] || SomeClosedBy(t.cycles, t.finished[j], d)
    {
      if j == |s.finished| {
        assert t.finished[..j] == s.finished;
        assert s.Handled(m, d);
      } else {
        assert t.finished[..j] == s.finished[..j];
      }
    }
  }

  lemma StartRoot(g: Digraph, s: Search, root: Fqn)
    requires s.Inv(g) && s.stack == [] && root in g.nodes
    ensures s.(stack := [Frame(root, None)]).Inv(g)
  {
    var t := s.(stack := [Frame(root, None)]);
    assert s.path == [];
    assert t.Shape(g);
  }

  lemma FewerUnvisited(nodes: set<Fqn>, before: set<Fqn>, after: set<Fqn>)
    requires before <= after <= nodes
    ensures |nodes - after| <= |nodes - before|
    ensures before != after ==> |nodes - after| < |nodes - before|
  {
    SubsetCount(nodes - after, nodes - before);
    if before != after {
      assert !(after <= before);
      var x :| x in after && x !in before;
      assert x in nodes - before && x !in nodes - after;
    }
  }

  /** A search that visited every contract has decided whether the graph is acyclic. */
  lemma SearchDone(g: Digraph, s: Search)
    requires s.Inv(g) && s.stack == [] && s.visited == g.nodes
    ensures s.cycles == [] <==> g.Acyclic()
    ensures s.cycles == [] ==> g.Topological(s.finished)
    ensures forall c :: g.ClosedWalk(c) ==> TakesReported(s.cycles, c)
  {
    assert s.inStack == {};
    if s.cycles == [] {
      assert forall j :: 0 <= j < |s.finished| ==> g.Deps(s.finished[j]) <= Elements(s.finished[..j]);
      TopologicalIsAcyclic(g, s.finished);
    } else {
      assert s.cycles[0] in s.cycles;
    }
    forall c | g.ClosedWalk(c) ensures TakesReported(s.cycles, c) { WalkTakesReported(g, s, c); }
  }

  /** Some step of the walk is the arc that closes a reported one. */
  ghost predicate TakesReported(walks: seq<seq<Fqn>>, c: seq<Fqn>) {
    exists i :: 0 <= i < |c| - 1 && SomeClosedBy(walks, c[i], c[i + 1])
  }

  ghost function Place(order: seq<Fqn>, x: Fqn): nat
    requires x in order
    ensures Place(order, x) < |order| && order[Place(order, x)] == x
  {
    if order[0] == x then 0 else 1 + Place(order[1..], x)
  }

  /** Along any other arc the search finished the far end earlier. */
  lemma {:induction false} Earlier(g: Digraph, s: Search, c: seq<Fqn>, n: nat)
    requires s.Sound(g) && Distinct(s.finished) && n < |c| && forall x <- c :: x in s.finished
    requires forall i :: 0 <= i < n ==> g.Arc(c[i], c[i + 1]) && !SomeClosedBy(s.cycles, c[i], c[i + 1])
    ensures Place(s.finished, c[n]) + n <= Place(s.finished, c[0])
  {
    if n > 0 {
      Earlier(g, s, c, n - 1);
      var j := Place(s.finished, c[n - 1]);
      assert c[n] in g.Deps(s.finished[j]);
      assert c[n] in s.finished[..j];
      var k :| 0 <= k < j && s.finished[k] == c[n];
    }
  }

  lemma WalkTakesReported(g: Digraph, s: Search, c: seq<Fqn>)
    requires s.Inv(g) && s.stack == [] && s.visited == g.nodes && g.ClosedWalk(c)
    ensures TakesReported(s.cycles, c)
  {
    assert s.inStack == {};
    forall x | x in c ensures x in s.finished {
      var i :| 0 <= i < |c| && c[i] == x;
      if i < |c| - 1 { assert g.Arc(c[i], c[i + 1]); } else { assert g.Arc(c[i - 1], c[i]); }
      assert x in Elements(s.finished);
    }
    if !TakesReported(s.cycles, c) {
      Earlier(g, s, c, |c| - 1);
      assert false;
    }
  }

  /** How many of a contract's dependencies are not done. */
  function Open(deps: seq<Fqn>, done: set<Fqn>): nat {
    if deps == [] then 0
    else (if deps[0] in done then 0 else 1) + Open(deps[1..], done)
  }

  lemma {:induction false} OpenZero(deps: seq<Fqn>, done: set<Fqn>)
    ensures Open(deps, done) == 0 <==> forall d <- deps :: d in done
  {
    if deps != [] { OpenZero(deps[1..], done); }
  }

  lemma {:induction false} OpenNone(deps: seq<Fqn>)
    ensures Open(deps, {}) == |deps|
  {
    if deps != [] { OpenNone(deps[1..]); }
  }

  lemma {:induction false} OpenLess(deps: seq<Fqn>, done: set<Fqn>, x: Fqn)
    requires Distinct(deps) && x !in done
    ensures Open(deps, done) == Open(deps, done + {x}) + (if x in deps then 1 else 0)
  {
    if deps != [] {
      OpenLess(deps[1..], done, x);
      assert x in deps <==> x == deps[0] || x in deps[1..];
    }
  }

  /** Every contract with its existing dependencies, each listed once. */
  ghost predicate Listed(g: Digraph, needs: map<Fqn, seq<Fqn>>) {
    && needs.Keys == g.nodes
    && (forall n <- g.nodes :: Distinct(needs[n]))
    && (forall n, d :: n in g.nodes ==> (d in needs[n] <==> d in g.nodes && (n, d) in g.arcs))
  }

  lemma ReadyIsOpenZero(g: Digraph, needs: map<Fqn, seq<Fqn>>, done: set<Fqn>, n: Fqn)
    requires Listed(g, needs) && n in g.nodes
    ensures g.Deps(n) <= done <==> Open(needs[n], done) == 0
  {
    OpenZero(needs[n], done);
  }

  /** `pending` counts open dependencies, those in `seen` already without `fqn`. */
  ghost predicate Counted(needs: map<Fqn, seq<Fqn>>, done: set<Fqn>, seen: set<Fqn>, pending: map<Fqn, nat>) {
    && pending.Keys == needs.Keys
    && forall n <- needs :: pending[n] == Open(needs[n], done) - (if n in seen then 1 else 0)
  }

  ghost predicate Closed(g: Digraph, done: set<Fqn>) {
    done <= g.nodes && forall n <- done :: g.Deps(n) <= done
  }

  /** The heap once the dependents in `seen` of the popped `fqn` have been relaxed. */
  ghost function Relaxed(g: Digraph, done: set<Fqn>, fqn: Fqn, seen: set<Fqn>): set<Fqn> {
    (g.Ready(done) - {fqn}) + g.Ready(done + {fqn}) * seen
  }

  /** Relaxing one more dependent: its count falls, and at zero it becomes ready. */
  lemma RelaxOne(g: Digraph, needs: map<Fqn, seq<Fqn>>, done: set<Fqn>, fqn: Fqn, d: Fqn)
    requires Listed(g, needs) && Closed(g, done) && fqn in g.Ready(done)
    requires d in g.nodes && (d, fqn) in g.arcs
    ensures Open(needs[d], done) == Open(needs[d], done + {fqn}) + 1
    ensures d !in g.Ready(done) && d !in done
    ensures d in g.Ready(done + {fqn}) <==> Open(needs[d], done) == 1
  {
    assert fqn in g.Deps(d);
    OpenLess(needs[d], done, fqn);
    ReadyIsOpenZero(g, needs, done + {fqn}, d);
  }

  /** After all dependents the heap is the next ready set and the counts are up to date. */
  lemma RelaxedAll(g: Digraph, needs: map<Fqn, seq<Fqn>>, done: set<Fqn>, fqn: Fqn, seen: set<Fqn>, n: Fqn)
    requires Listed(g, needs) && Closed(g, done) && fqn in g.Ready(done) && n in g.nodes
    requires n in seen <==> (n, fqn) in g.arcs
    ensures Open(needs[n], done) == Open(needs[n], done + {fqn}) + (if n in seen then 1 else 0)
    ensures n in Relaxed(g, done, fqn, seen) <==> n in g.Ready(done + {fqn})
  {
    OpenLess(needs[n], done, fqn);
    if n !in seen {
      assert fqn !in g.Deps(n);
      assert g.Deps(n) <= done <==> g.Deps(n) <= done + {fqn};
    } else {
      RelaxOne(g, needs, done, fqn, n);
    }
  }

  lemma StillClosed(g: Digraph, done: set<Fqn>, fqn: Fqn)
    requires Closed(g, done) && fqn in g.Ready(done)
    ensures Closed(g, done + {fqn})
  {
  }

  ghost predicate Relaxing(g: Digraph, needs: map<Fqn, seq<Fqn>>, done: set<Fqn>, fqn: Fqn) {
    Listed(g, needs) && Closed(g, done) && fqn in g.Ready(done)
  }

  lemma SeeOne(g: Digraph, needs: map<Fqn, seq<Fqn>>, done: set<Fqn>, fqn: Fqn, seen: set<Fqn>,
               pending: map<Fqn, nat>, d: Fqn)
    requires Relaxing(g, needs, done, fqn) && Counted(needs, done, seen, pending)
    requires d in g.nodes && (d, fqn) in g.arcs && d !in seen
    ensures pending[d] > 0 && Counted(needs, done, seen + {d}, pending[d := pending[d] - 1])
    ensures multiset(Relaxed(g, done, fqn, seen + {d}))
      == multiset(Relaxed(g, done, fqn, seen)) + (if pending[d] == 1 then multiset{d} else multiset{})
  {
    RelaxOne(g, needs, done, fqn, d);
    var before := Relaxed(g, done, fqn, seen);
    assert d !in before;
    assert Relaxed(g, done, fqn, seen + {d}) == before + (if pending[d] == 1 then {d} else {});
  }

  lemma SeenAll(g: Digraph, needs: map<Fqn, seq<Fqn>>, done: set<Fqn>, fqn: Fqn, seen: set<Fqn>,
                pending: map<Fqn, nat>)
    requires Relaxing(g, needs, done, fqn) && Counted(needs, done, seen, pending)
    requires forall d <- g.nodes :: d in seen <==> (d, fqn) in g.arcs
    ensures Relaxed(g, done, fqn, seen) == g.Ready(done + {fqn})
    ensures Counted(needs, done + {fqn}, {}, pending)
  {
    forall n | n in g.nodes
      ensures pending[n] == Open(needs[n], done + {fqn})
      ensures n in Relaxed(g, done, fqn, seen) <==> n in g.Ready(done + {fqn})
    {
      RelaxedAll(g, needs, done, fqn, seen, n);
    }
  }

  lemma NothingRelaxed(g: Digraph, done: set<Fqn>, fqn: Fqn)
    ensures Relaxed(g, done, fqn, {}) == g.Ready(done) - {fqn}
  {
  }

  lemma CountedKeys(g: Digraph, needs: map<Fqn, seq<Fqn>>, done: set<Fqn>, seen: set<Fqn>, pending: map<Fqn, nat>)
    requires Listed(g, needs) && Counted(needs, done, seen, pending)
    ensures pending.Keys == g.nodes
  {
  }

  /** The inner loop of Kahn's algorithm: relax every contract that requires `fqn`. */
  method Relax(ghost g: Digraph, ghost needs: map<Fqn, seq<Fqn>>, ghost done: set<Fqn>,
               ready: MinHeap, fqn: Fqn, dependents: seq<Fqn>, counts: map<Fqn, nat>)
    returns (pending: map<Fqn, nat>)
    requires Relaxing(g, needs, done, fqn) && Counted(needs, done, {}, counts)
    requires Distinct(dependents) && forall a :: a in dependents <==> (a, fqn) in g.arcs
    requires ready.Valid() && ready.Contents() == multiset(g.Ready(done) - {fqn})
    modifies ready
    ensures Counted(needs, done + {fqn}, {}, pending)
    ensures ready.Valid() && ready.Contents() == multiset(g.Ready(done + {fqn}))
  {
    hide Relaxed, Counted, ParentsLe, Digraph.Ready, Digraph.Deps;
    pending := counts;
    ghost var seen: set<Fqn> := {};
    NothingRelaxed(g, done, fqn);
    for j := 0 to |dependents|
      invariant ready.Valid()
      invariant forall i :: 0 <= i < j && dependents[i] in g.nodes ==> dependents[i] in seen
      invariant forall d <- seen :: exists i :: 0 <= i < j && dependents[i] == d
      invariant ready.Contents() == multiset(Relaxed(g, done, fqn, seen))
      invariant Counted(needs, done, seen, pending)
    {
      var d := dependents[j];
      CountedKeys(g, needs, done, seen, pending);
      if d in pending {
        SeeOne(g, needs, done, fqn, seen, pending, d);
        pending := pending[d := pending[d] - 1];
        seen := seen + {d};
        if pending[d] == 0 {
          ready.Push(d);
        }
      }
    }
    SeenAll(g, needs, done, fqn, seen, pending);
  }

  lemma InitiallyReady(g: Digraph, needs: map<Fqn, seq<Fqn>>, pending: map<Fqn, nat>)
    requires Listed(g, needs)
    requires pending.Keys == needs.Keys && forall n <- needs :: pending[n] == |needs[n]|
    ensures Counted(needs, {}, {}, pending)
    ensures forall n <- g.nodes :: pending[n] == 0 <==> n in g.Ready({})
  {
    forall n | n in g.nodes
      ensures pending[n] == Open(needs[n], {}) && (pending[n] == 0 <==> n in g.Ready({}))
    {
      OpenNone(needs[n]);
      ReadyIsOpenZero(g, needs, {}, n);
    }
  }

  lemma OneKeyMore(keys: seq<Fqn>, i: nat, start: set<Fqn>)
    requires Distinct(keys) && i < |keys|
    ensures keys[i] in Elements(keys) && keys[i] !in start * Elements(keys[..i])
    ensures start * Elements(keys[..i + 1])
      == start * Elements(keys[..i]) + (if keys[i] in start then {keys[i]} else {})
  {
    assert keys[..i + 1] == keys[..i] + [keys[i]];
  }

  /** `ready` before the main loop: every contract without an existing dependency. */
  method InitialHeap(ghost start: set<Fqn>, keys: seq<Fqn>, pending: map<Fqn, nat>)
    returns (ready: MinHeap)
    requires Distinct(keys) && Elements(keys) == pending.Keys && start <= pending.Keys
    requires forall n <- pending :: pending[n] == 0 <==> n in start
    ensures fresh(ready) && ready.Valid() && ready.Contents() == multiset(start)
  {
    hide ParentsLe, Distinct;
    ready := new MinHeap();
    for i := 0 to |keys|
      invariant ready.Valid() && fresh(ready)
      invariant ready.Contents() == multiset(start * Elements(keys[..i]))
    {
      OneKeyMore(keys, i, start);
      if pending[keys[i]] == 0 {
        ready.Push(keys[i]);
      }
    }
    assert keys[..|keys|] == keys;
    assert start * Elements(keys) == start;
  }

  lemma PopLeast(g: Digraph, done: set<Fqn>, before: multiset<Fqn>, fqn: Fqn)
    requires before == multiset(g.Ready(done)) && fqn in before
    requires forall y <- before :: Le(fqn, y)
    ensures IsLeast(fqn, g.Ready(done))
    ensures before - multiset{fqn} == multiset(g.Ready(done) - {fqn})
  {
    assert forall y :: y in before <==> y in g.Ready(done);
  }

  /** `reverseEdges` as the sort reads it: who requires `n`, each once. */
  ghost predicate Reversed(g: Digraph, reverse: Adjacency) {
    && (forall n <- g.nodes :: Distinct(reverse.Get(n, [])))
    && (forall n, a :: n in g.nodes ==> (a in reverse.Get(n, []) <==> (a, n) in g.arcs))
  }

  /** One turn of the main loop: pop the least ready contract, then relax its dependents. */
  method KahnStep(ghost g: Digraph, ghost needs: map<Fqn, seq<Fqn>>, reverse: Adjacency,
                  ghost done: set<Fqn>, counts: map<Fqn, nat>, ready: MinHeap)
    returns (fqn: Fqn, pending: map<Fqn, nat>)
    requires Listed(g, needs) && Closed(g, done) && Counted(needs, done, {}, counts)
    requires Reversed(g, reverse)
    requires ready.Valid() && ready.Contents() == multiset(g.Ready(done)) && ready.items != []
    modifies ready
    ensures IsLeast(fqn, g.Ready(done)) && Closed(g, done + {fqn})
    ensures Counted(needs, done + {fqn}, {}, pending)
    ensures ready.Valid() && ready.Contents() == multiset(g.Ready(done + {fqn}))
  {
    ghost var before := ready.Contents();
    fqn := ready.Pop();
    PopLeast(g, done, before, fqn);
    StillClosed(g, done, fqn);
    pending := Relax(g, needs, done, ready, fqn, reverse.Get(fqn, []), counts);
  }

  /** The main loop. */
  method Kahn(ghost g: Digraph, ghost needs: map<Fqn, seq<Fqn>>, reverse: Adjacency,
              counts: map<Fqn, nat>, ready: MinHeap)
    returns (order: seq<Fqn>)
    requires Listed(g, needs) && Closed(g, {}) && Counted(needs, {}, {}, counts)
    requires Reversed(g, reverse)
    requires ready.Valid() && ready.Contents() == multiset(g.Ready({}))
    modifies ready
    ensures order == g.Greedy({})
  {
    order := [];
    var pending := counts;
    ghost var done: set<Fqn> := {};
    while ready.items != []
      invariant ready.Valid() && ready.Contents() == multiset(g.Ready(done))
      invariant Closed(g, done) && Counted(needs, done, {}, pending)
      invariant order + g.Greedy(done) == g.Greedy({})
      decreases |g.nodes - done|
    {
      var fqn;
      fqn, pending := KahnStep(g, needs, reverse, done, pending, ready);
      GreedyTurn(g, done, order, fqn);
      FewerUnvisited(g.nodes, done, done + {fqn});
      order, done := order + [fqn], done + {fqn};
    }
    NothingReady(g.Ready(done), ready.items);
  }

  lemma GreedyTurn(g: Digraph, done: set<Fqn>, order: seq<Fqn>, fqn: Fqn)
    requires IsLeast(fqn, g.Ready(done))
    ensures order + g.Greedy(done) == (order + [fqn]) + g.Greedy(done + {fqn})
  {
    LeastUnique(fqn, Least(g.Ready(done)), g.Ready(done));
  }

  /** The order leaves somebody out exactly when it is shorter than the list of contracts. */
  lemma CompareLengths(g: Digraph, keys: seq<Fqn>)
    requires Distinct(keys) && Elements(keys) == g.nodes
    ensures Elements(g.Greedy({})) <= g.nodes
    ensures |g.Greedy({})| == |keys| <==> Elements(g.Greedy({})) == g.nodes
  {
    var order := g.Greedy({});
    forall i | 0 <= i < |order| ensures order[i] in g.nodes && order[i] !in order[..i] {
      PlayablePrefixes(g, {}, order, i);
    }
    forall i, j | 0 <= i < j < |order| ensures order[i] != order[j] {
      assert order[..j][i] == order[i];
    }
    DistinctCount(keys);
    DistinctCount(order);
    SubsetCount(Elements(order), g.nodes);
  }

  lemma NothingReady(s: set<Fqn>, items: seq<Fqn>)
    requires items == [] && multiset(items) == multiset(s)
    ensures s == {}
  {
    assert multiset(items) == multiset{};
    assert forall n :: n in s <==> n in multiset(s);
  }

  /** The dependencies of `fqn` that exist, in the order the edges were added. */
  function Existing(nodes: map<Fqn, ContractNode>, deps: seq<Fqn>): (r: seq<Fqn>)
    ensures Elements(r) == Elements(deps) * nodes.Keys
    ensures Distinct(deps) ==> Distinct(r)
  {
    if deps == [] then []
    else
      var last := deps[|deps| - 1];
      assert deps == deps[..|deps| - 1] + [last];
      assert Elements(deps) == Elements(deps[..|deps| - 1]) + {last};
      var init := Existing(nodes, deps[..|deps| - 1]);
      if last in nodes then
        assert Elements(init + [last]) == Elements(init) + {last};
        assert forall x <- init :: x in Elements(init);
        init + [last]
      else init
  }

  method IndexOf(path: seq<Fqn>, x: Fqn) returns (k: nat)
    requires x in path
    ensures k < |path| && path[k] == x && x !in path[..k]
  {
    k := 0;
    while path[k] != x
      invariant k < |path| && x !in path[..k]
      decreases |path| - k
    {
      k := k + 1;
    }
  }

  class DependencyGraph {
    var nodes: Dict<Fqn, ContractNode>
    var edges: Adjacency
    var reverseEdges: Adjacency
    var buildErrors: seq<GraphError>

    ghost predicate Valid() reads this {
      && nodes.Ok() && edges.Ok() && reverseEdges.Ok()
      && (forall a <- edges.at :: Distinct(edges.at[a]))
      && (forall b <- reverseEdges.at :: Distinct(reverseEdges.at[b]))
      && (forall a, b :: Has(edges, a, b) <==> Has(reverseEdges, b, a))
    }

    /** The graph with insertion order forgotten. */
    ghost function View(): Digraph reads this {
      Digraph(nodes.at.Keys, ArcsIn(edges))
    }

    constructor ()
      ensures Valid() && View() == Digraph({}, {}) && buildErrors == []
    {
      nodes, edges, reverseEdges := Empty(), Empty(), Empty();
      buildErrors := [];
    }

    method AddNode(node: ContractNode)
      requires Valid()
      modifies this
      ensures Valid() && buildErrors == old(buildErrors)
      ensures View() == Digraph(old(View()).nodes + {node.fqn}, old(View()).arcs)
      ensures nodes.at == old(nodes.at)[node.fqn := node]
    {
      nodes := nodes.Set(node.fqn, node);
      edges := Touch(edges, node.fqn);
      reverseEdges := Touch(reverseEdges, node.fqn);
      SameArcs(old(edges), edges);
    }

    method AddEdge(from: Fqn, to: Fqn)
      requires Valid()
      modifies this
      ensures Valid() && buildErrors == old(buildErrors) && nodes == old(nodes)
      ensures View() == Digraph(old(View()).nodes, old(View()).arcs + {(from, to)})
      ensures Appended(old(edges), edges, from, to) && Appended(old(reverseEdges), reverseEdges, to, from)
    {
      hide Appended;
      edges := Link(edges, from, to);
      reverseEdges := Link(reverseEdges, to, from);
      OneMoreArc(old(edges), edges, from, to);
    }

    /** The arcs of one contract, seen from either of the two dictionaries. */
    lemma ArcsOf(n: Fqn)
      requires Valid() && n in nodes.at
      ensures Elements(Existing(nodes.at, edges.Get(n, []))) == View().Deps(n)
      ensures forall a :: a in reverseEdges.Get(n, []) <==> (a, n) in View().arcs
    {
      assert forall a, b :: (a, b) in View().arcs <==> Has(edges, a, b);
      forall a ensures a in reverseEdges.Get(n, []) <==> (a, n) in View().arcs {
        assert Has(edges, a, n) <==> Has(reverseEdges, n, a);
      }
    }

    method FindUnresolved() returns (errors: seq<GraphError>)
      requires Valid()
      ensures Distinct(errors)
      ensures forall e :: e in errors <==>
        e.Unresolved? && (e.fqn, e.dep) in View().arcs && e.dep !in View().nodes
    {
      errors := [];
      for i := 0 to |edges.keys|
        invariant Distinct(errors)
        invariant forall e :: e in errors <==>
          e.Unresolved? && e.fqn in edges.keys[..i] && Has(edges, e.fqn, e.dep) && e.dep !in nodes.at
      {
        var fqn := edges.keys[i];
        assert fqn in Elements(edges.keys);
        var deps := edges.at[fqn];
        for j := 0 to |deps|
          invariant Distinct(errors)
          invariant forall e :: e in errors <==>
            && e.Unresolved? && e.dep !in nodes.at
            && ((e.fqn in edges.keys[..i] && Has(edges, e.fqn, e.dep))
                || (e.fqn == fqn && e.dep in deps[..j]))
        {
          if deps[j] !in nodes.at {
            errors := errors + [Unresolved(fqn, deps[j])];
          }
        }
      }
      forall e ensures e in errors <==>
        e.Unresolved? && (e.fqn, e.dep) in View().arcs && e.dep !in View().nodes
      {
        if e.Unresolved? && Has(edges, e.fqn, e.dep) { assert e.fqn in Elements(edges.keys); }
      }
    }

    /** One turn of the inner loop: pop a frame, and enter, advance or finish it. */
    method SearchStep(ghost g: Digraph, s: Search) returns (t: Search)
      requires Valid() && g == View() && s.Inv(g) && s.stack != []
      ensures t.Inv(g) && s.visited <= t.visited && s.cycles <= t.cycles
      ensures s.visited == t.visited ==> Weight(t.stack) < Weight(s.stack)
      ensures s.stack[|s.stack| - 1].deps.None? ==> s.stack[|s.stack| - 1].fqn in t.visited
    {
      hide Search.Progress, Search.Taken, Search.Sound, Digraph.Arc, Digraph.Deps, Weight;
      var frame := s.stack[|s.stack| - 1];
      var fqn := frame.fqn;
      var rest := s.stack[..|s.stack| - 1];
      assert s.stack == rest + [frame];
      WeightPush(rest, frame);
      t := s;
      if frame.deps.None? {
        assert s.Pending(fqn) && rest == s.stack[..|s.path|];
        if fqn in s.inStack {
          var k := IndexOf(s.path, fqn);
          FoundCycle(g, s, fqn, k);
          return s.(stack := rest, cycles := s.cycles + [s.path[k..] + [fqn]]);
        }
        if fqn in s.visited {
          AlreadyFinished(g, s, fqn);
          return s.(stack := rest);
        }
        var deps := Existing(nodes.at, edges.Get(fqn, []));
        ArcsOf(fqn);
        EnterNew(g, s, fqn, deps);
        t := s.(stack := rest + [Frame(fqn, Some(deps))], visited := s.visited + {fqn},
                inStack := s.inStack + {fqn}, path := s.path + [fqn]);
      }
      t := Advance(g, t);
    }

    /** The second half of a turn: take the top frame's next dependency, or finish it. */
    method Advance(ghost g: Digraph, s: Search) returns (t: Search)
      requires s.Inv(g) && s.stack != [] && s.stack[|s.stack| - 1].deps.Some?
      ensures t.Inv(g) && t.visited == s.visited && t.cycles == s.cycles
      ensures Weight(t.stack) < Weight(s.stack)
    {
      var m := |s.stack| - 1;
      var frame := s.stack[m];
      var deps := frame.deps.value;
      assert |s.path| == m + 1;
      WeightPush(s.stack[..m], frame);
      assert s.stack == s.stack[..m] + [frame];
      if deps == [] {
        Finish(g, s, m);
        return s.(stack := s.stack[..m], inStack := s.inStack - {s.path[m]}, path := s.path[..m],
                  finished := s.finished + [s.path[m]]);
      }
      NextDependency(g, s, m);
      var again := frame.(deps := Some(deps[1..]));
      WeightPush(s.stack[..m], again);
      WeightPush(s.stack[..m] + [again], Frame(deps[0], None));
      t := s.(stack := s.stack[..m] + [again] + [Frame(deps[0], None)]);
    }

    /** The inner loop, run until everything reachable from `root` is finished. */
    method SearchFrom(ghost g: Digraph, s: Search, root: Fqn) returns (t: Search)
      requires Valid() && g == View() && s.Inv(g) && s.stack == []
      requires root in nodes.at && root !in s.visited
      ensures t.Inv(g) && t.stack == [] && s.visited + {root} <= t.visited
    {
      StartRoot(g, s, root);
      t := s.(stack := [Frame(root, None)]);
      while t.stack != []
        invariant t.Inv(g) && s.visited <= t.visited
        invariant root in t.visited || t.stack == [Frame(root, None)]
        decreases |g.nodes - t.visited|, Weight(t.stack)
      {
        ghost var before := t;
        t := SearchStep(g, t);
        FewerUnvisited(g.nodes, before.visited, t.visited);
      }
    }

    /** The explicit-stack depth-first search.  Every closed walk there is takes the closing arc of
    a reported one, and no arc closes two; so nothing is reported exactly when there is no closed
    walk at all, and then the finishing order is an order to compile in. */
    method DetectCycles() returns (cycles: seq<seq<Fqn>>, finished: seq<Fqn>)
      requires Valid()
      ensures forall w <- cycles :: View().ClosedWalk(w) && Distinct(w[1..])
      ensures cycles == [] <==> View().Acyclic()
      ensures cycles == [] ==> View().Topological(finished)
      ensures forall c :: View().ClosedWalk(c) ==> TakesReported(cycles, c)
      ensures OncePerArc(cycles)
    {
      ghost var g := View();
      var s := Search({}, {}, [], [], [], []);
      for r := 0 to |nodes.keys|
        invariant s.Inv(g) && s.stack == []
        invariant forall i :: 0 <= i < r ==> nodes.keys[i] in s.visited
      {
        var root := nodes.keys[r];
        assert root in Elements(nodes.keys);
        if root !in s.visited {
          s := SearchFrom(g, s, root);
        }
      }
      forall x | x in g.nodes ensures x in s.visited { assert x in Elements(nodes.keys); }
      SearchDone(g, s);
      cycles, finished := s.cycles, s.finished;
    }

    /** Kahn's algorithm over a heap.  It succeeds exactly on acyclic graphs; the order is then
    the least one, and otherwise the error names the largest set of contracts that wait for
    each other. */
    method TopologicalOrder() returns (r: Result<seq<Fqn>, set<Fqn>>)
      requires Valid()
      ensures r.Ok? <==> View().Acyclic()
      ensures r.Ok? ==> IsLeastOrder(View(), r.value)
      ensures r.Err? ==> Stuck(View(), r.error) && forall s :: Stuck(View(), s) ==> s <= r.error
    {
      ghost var g := View();
      var needs := map n | n in nodes.at :: Existing(nodes.at, edges.Get(n, []));
      var pending := map n | n in nodes.at :: |needs[n]|;
      NeedsListed(needs);
      DependentsListed();
      InitiallyReady(g, needs, pending);
      var ready := InitialHeap(g.Ready({}), nodes.keys, pending);
      var order := Kahn(g, needs, reverseEdges, pending, ready);
      CompareLengths(g, nodes.keys);
      AcyclicIffOrderable(g);
      RemainderIsLargestStuck(g);
      if |order| != |nodes.keys| {
        r := Err((set n <- nodes.keys) - (set n <- order));
        assert r.error == g.nodes - Elements(order);
      } else {
        r := Ok(order);
      }
    }

    lemma NeedsListed(needs: map<Fqn, seq<Fqn>>)
      requires Valid()
      requires needs.Keys == nodes.at.Keys && forall n <- needs :: needs[n] == Existing(nodes.at, edges.Get(n, []))
      ensures Listed(View(), needs) && Closed(View(), {})
    {
      forall n, d | n in nodes.at ensures Distinct(needs[n])
        && (d in needs[n] <==> d in View().nodes && (n, d) in View().arcs)
      {
        ArcsOf(n);
        assert d in needs[n] <==> d in Elements(needs[n]);
        assert d in View().Deps(n) <==> d in View().nodes && (n, d) in View().arcs;
      }
    }

    lemma DependentsListed()
      requires Valid()
      ensures Reversed(View(), reverseEdges)
    {
      forall n | n in nodes.at
        ensures Distinct(reverseEdges.Get(n, []))
        ensures forall a :: a in reverseEdges.Get(n, []) <==> (a, n) in View().arcs
      {
        ArcsOf(n);
      }
    }
  }
}
