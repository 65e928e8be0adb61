/** `build_dependency_graph` and the gate in `Compiler.compile` that trusts it. */
module ContractGraphs {
  import opened Collections
  import opened Fqns
  import opened Digraphs
  import opened DependencyGraphs

  /** What the graph reads of one loaded contract: the `requires` list it declares and the
  merged list of everything it depends on. */
  datatype Contract = Contract(kind: string, declared: seq<Fqn>, dependencies: seq<Fqn>)

  type Contracts = Dict<Fqn, Contract>

  /** The graph a set of contracts stands for, whatever order they were loaded in. */
  ghost function GraphOf(contracts: map<Fqn, Contract>): Digraph {
    Digraph(contracts.Keys,
            set a, b | a in contracts && b in contracts[a].dependencies && a != b :: (a, b))
  }

  ghost predicate SelfReferenced(contracts: map<Fqn, Contract>, e: GraphError) {
    e.SelfReference? && e.fqn in contracts && e.fqn in contracts[e.fqn].declared
  }

  method BuildDependencyGraph(contracts: Contracts) returns (graph: DependencyGraph)
    requires contracts.Ok()
    ensures fresh(graph) && graph.Valid() && graph.View() == GraphOf(contracts.at)
    ensures forall e :: e in graph.buildErrors <==> SelfReferenced(contracts.at, e)
  {
    graph := new DependencyGraph();
    AddContracts(graph, contracts);
    AddEdges(graph, contracts);
  }

  /** The second loop: the edges of every contract. */
  method AddEdges(graph: DependencyGraph, contracts: Contracts)
    requires contracts.Ok() && graph.Valid() && graph.View() == Digraph(contracts.at.Keys, {})
    modifies graph
    ensures graph.Valid() && graph.buildErrors == old(graph.buildErrors)
    ensures graph.View() == GraphOf(contracts.at)
  {
    hide DependencyGraph.Valid;
    var keys := contracts.keys;
    for i := 0 to |keys|
      invariant graph.Valid() && graph.buildErrors == old(graph.buildErrors)
      invariant graph.View().nodes == contracts.at.Keys
      invariant forall a, b :: (a, b) in graph.View().arcs <==>
        a in keys[..i] && a in contracts.at && b in contracts.at[a].dependencies && a != b
    {
      assert keys[i] in Elements(keys) && keys[..i + 1] == keys[..i] + [keys[i]];
      AddRequired(graph, keys[i], contracts.at[keys[i]].dependencies);
    }
    forall a | a in contracts.at ensures a in keys[..|keys|] { assert a in Elements(keys); }
    assert graph.View().arcs == GraphOf(contracts.at).arcs;
  }

  /** The first loop: a node per contract, and an error per contract that lists itself. */
  method AddContracts(graph: DependencyGraph, contracts: Contracts)
    requires contracts.Ok() && graph.Valid() && graph.View() == Digraph({}, {}) && graph.buildErrors == []
    modifies graph
    ensures graph.Valid() && graph.View() == Digraph(contracts.at.Keys, {})
    ensures forall e :: e in graph.buildErrors <==> SelfReferenced(contracts.at, e)
  {
    var keys := contracts.keys;
    for i := 0 to |keys|
      invariant graph.Valid() && graph.View() == Digraph(Elements(keys[..i]), {})
      invariant forall e :: e in graph.buildErrors <==>
        SelfReferenced(contracts.at, e) && e.fqn in keys[..i]
    {
      var fqn := keys[i];
      assert fqn in Elements(keys) && keys[..i + 1] == keys[..i] + [fqn];
      var contract := contracts.at[fqn];
      AddError(graph, fqn, fqn in contract.declared);
      graph.AddNode(ContractNode(fqn, contract.kind, contract.dependencies));
      assert Elements(keys[..i + 1]) == Elements(keys[..i]) + {fqn};
    }
    assert keys[..|keys|] == keys;
    forall fqn | fqn in contracts.at ensures fqn in keys { assert fqn in Elements(keys); }
  }

  method AddError(graph: DependencyGraph, fqn: Fqn, selfReference: bool)
    requires graph.Valid()
    modifies graph
    ensures graph.Valid() && graph.View() == old(graph.View())
    ensures graph.buildErrors == old(graph.buildErrors) + (if selfReference then [SelfReference(fqn)] else [])
  {
    if selfReference {
      graph.buildErrors := graph.buildErrors + [SelfReference(fqn)];
    }
  }

  /** The edges of one contract: one per dependency, except to itself. */
  method AddRequired(graph: DependencyGraph, fqn: Fqn, dependencies: seq<Fqn>)
    requires graph.Valid()
    modifies graph
    ensures graph.Valid() && graph.buildErrors == old(graph.buildErrors)
    ensures graph.View().nodes == old(graph.View()).nodes
    ensures forall a, b :: (a, b) in graph.View().arcs <==>
      (a, b) in old(graph.View()).arcs || (a == fqn && b in dependencies && a != b)
  {
    for j := 0 to |dependencies|
      invariant graph.Valid() && graph.buildErrors == old(graph.buildErrors)
      invariant graph.View().nodes == old(graph.View()).nodes
      invariant forall a, b :: (a, b) in graph.View().arcs <==>
        (a, b) in old(graph.View()).arcs || (a == fqn && b in dependencies[..j] && a != b)
    {
      assert dependencies[..j + 1] == dependencies[..j] + [dependencies[j]];
      if dependencies[j] != fqn {
        graph.AddEdge(fqn, dependencies[j]);
      }
    }
    assert dependencies[..|dependencies|] == dependencies;
  }

  ghost predicate SelfFree(contracts: map<Fqn, Contract>) {
    forall fqn <- contracts :: fqn !in contracts[fqn].declared
  }

  ghost predicate Resolved(contracts: map<Fqn, Contract>) {
    forall fqn, d :: fqn in contracts && d in contracts[fqn].dependencies && d != fqn ==> d in contracts
  }

  /** Contract `e.fqn` needs `e.dep`, which there is not. */
  ghost predicate Dangling(contracts: map<Fqn, Contract>, e: GraphError) {
    && e.Unresolved? && e.fqn in contracts && e.dep in contracts[e.fqn].dependencies && e.dep != e.fqn
    && e.dep !in contracts
  }

  /** The error reports a closed walk whose last step is the arc from `a` to `b`. */
  predicate ReportsArc(e: GraphError, a: Fqn, b: Fqn) {
    e.Cycle? && ClosedBy(e.walk, a, b)
  }

  ghost predicate SomeReports(errors: seq<GraphError>, a: Fqn, b: Fqn) {
    exists e <- errors :: ReportsArc(e, a, b)
  }

  /** Some step of the walk is the last one of a reported cycle. */
  ghost predicate WalkIsReported(errors: seq<GraphError>, c: seq<Fqn>) {
    exists i :: 0 <= i < |c| - 1 && SomeReports(errors, c[i], c[i + 1])
  }

  /** Everything there is to report: each self-reference, each missing contract, and a cycle for
  every closed walk. */
  ghost predicate AllReported(contracts: map<Fqn, Contract>, errors: seq<GraphError>) {
    && (forall e: GraphError :: !e.Cycle? ==> (e in errors <==> SelfReferenced(contracts, e) || Dangling(contracts, e)))
    && (forall e <- errors :: e.Cycle? ==> GraphOf(contracts).ClosedWalk(e.walk))
    && (forall c :: GraphOf(contracts).ClosedWalk(c) ==> WalkIsReported(errors, c))
  }

  lemma CyclesReported(cycles: seq<seq<Fqn>>, errors: seq<GraphError>, c: seq<Fqn>)
    requires TakesReported(cycles, c) && forall w <- cycles :: Cycle(w) in errors
    ensures WalkIsReported(errors, c)
  {
    var i :| 0 <= i < |c| - 1 && SomeClosedBy(cycles, c[i], c[i + 1]);
    var w :| w in cycles && ClosedBy(w, c[i], c[i + 1]);
    assert ReportsArc(Cycle(w), c[i], c[i + 1]);
    assert SomeReports(errors, c[i], c[i + 1]);
  }

  lemma Collected(contracts: map<Fqn, Contract>, build: seq<GraphError>, unresolved: seq<GraphError>,
                  cycles: seq<seq<Fqn>>)
    requires forall e :: e in build <==> SelfReferenced(contracts, e)
    requires forall e :: e in unresolved <==>
      e.Unresolved? && (e.fqn, e.dep) in GraphOf(contracts).arcs && e.dep !in GraphOf(contracts).nodes
    requires forall w <- cycles :: GraphOf(contracts).ClosedWalk(w)
    requires forall c :: GraphOf(contracts).ClosedWalk(c) ==> TakesReported(cycles, c)
    ensures AllReported(contracts, build + unresolved + Errors(cycles))
  {
    hide Digraph.ClosedWalk, TakesReported, WalkIsReported;
    var errors := build + unresolved + Errors(cycles);
    forall w | w in cycles ensures Cycle(w) in errors {
      var i :| 0 <= i < |cycles| && cycles[i] == w;
      assert Errors(cycles)[i] == Cycle(w);
    }
    forall c | GraphOf(contracts).ClosedWalk(c) ensures WalkIsReported(errors, c) { CyclesReported(cycles, errors, c); }
    forall e | e in errors && e.Cycle? ensures GraphOf(contracts).ClosedWalk(e.walk) {
      assert e !in build && e !in unresolved;
      var i :| 0 <= i < |cycles| && Errors(cycles)[i] == e;
      assert cycles[i] in cycles;
    }
  }

  function Errors(cycles: seq<seq<Fqn>>): (errors: seq<GraphError>)
    ensures |errors| == |cycles| && forall i :: 0 <= i < |cycles| ==> errors[i] == Cycle(cycles[i])
  {
    seq(|cycles|, i requires 0 <= i < |cycles| => Cycle(cycles[i]))
  }

  /** Steps 3 and 4 of `compile`: collect every graph error, and only then ask for an order.
  The order is a function of the contracts alone, and asking for it never raises. */
  method CompilationOrder(contracts: Contracts) returns (r: Result<seq<Fqn>, seq<GraphError>>)
    requires contracts.Ok()
    ensures r.Ok? <==> SelfFree(contracts.at) && Resolved(contracts.at) && GraphOf(contracts.at).Acyclic()
    ensures r.Ok? ==> IsLeastOrder(GraphOf(contracts.at), r.value)
    ensures r.Err? ==> r.error != [] && AllReported(contracts.at, r.error)
  {
    hide Digraph.ClosedWalk, Digraph.Acyclic, TakesReported, OncePerArc, SelfReferenced, GraphOf, IsLeastOrder;
    var graph := BuildDependencyGraph(contracts);
    ghost var g := GraphOf(contracts.at);
    var unresolved := graph.FindUnresolved();
    var cycles, _ := graph.DetectCycles();
    GateMeaning(contracts.at, graph.buildErrors, unresolved);
    Collected(contracts.at, graph.buildErrors, unresolved, cycles);
    var errors := graph.buildErrors + unresolved + Errors(cycles);
    assert errors == [] <==> graph.buildErrors == [] && unresolved == [] && cycles == [];
    if errors != [] { return Err(errors); }
    var order := graph.TopologicalOrder();
    assert order.Ok?;  // the cycle error of the sort cannot be raised here
    r := Ok(order.value);
  }

  lemma GateMeaning(contracts: map<Fqn, Contract>, build: seq<GraphError>, unresolved: seq<GraphError>)
    requires forall e :: e in build <==> SelfReferenced(contracts, e)
    requires forall e :: e in unresolved <==>
      e.Unresolved? && (e.fqn, e.dep) in GraphOf(contracts).arcs && e.dep !in GraphOf(contracts).nodes
    ensures build == [] <==> SelfFree(contracts)
    ensures unresolved == [] <==> Resolved(contracts)
    ensures forall e <- build + unresolved :: !e.Cycle?
  {
    forall fqn | fqn in contracts && fqn in contracts[fqn].declared ensures build != [] {
      assert SelfReference(fqn) in build;
    }
    forall fqn, d | fqn in contracts && d in contracts[fqn].dependencies && d != fqn && d !in contracts
      ensures unresolved != []
    {
      assert Unresolved(fqn, d) in unresolved;
    }
    if build != [] { assert build[0] in build; }
    if unresolved != [] { assert unresolved[0] in unresolved; }
  }

  /** Loading the same contracts in another order compiles them in the same order. */
  lemma OrderIgnoresInsertion(first: Contracts, second: Contracts, s: seq<Fqn>, t: seq<Fqn>)
    requires first.at == second.at
    requires IsLeastOrder(GraphOf(first.at), s) && IsLeastOrder(GraphOf(second.at), t)
    ensures s == t
  {
    LeastOrderUnique(GraphOf(first.at), s, t);
  }

  /** In a compiled order every contract comes after everything it depends on. */
  lemma DependenciesFirst(contracts: map<Fqn, Contract>, order: seq<Fqn>, i: nat, d: Fqn)
    requires Resolved(contracts) && IsLeastOrder(GraphOf(contracts), order) && i < |order|
    requires order[i] in contracts && d in contracts[order[i]].dependencies && d != order[i]
    ensures d in order[..i]
  {
    var g := GraphOf(contracts);
    assert (order[i], d) in g.arcs;
    assert d in g.Deps(order[i]);
    assert d in Elements(order[..i]);
  }
}
