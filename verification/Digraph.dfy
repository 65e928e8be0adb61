/** The mathematics of "compile every contract after its dependencies".

A `Digraph` is what remains of a dependency graph once insertion order is forgotten:
the set of contracts and the set of `requires` arcs, dangling ones included. */
module Digraphs {
  import opened Collections
  import opened Fqns

  datatype Digraph = Digraph(nodes: set<Fqn>, arcs: set<(Fqn, Fqn)>) {
    /** The existing contracts that `a` requires. */
    ghost function Deps(a: Fqn): set<Fqn> {
      set b | b in nodes && (a, b) in arcs
    }

    ghost predicate Arc(a: Fqn, b: Fqn) {
      a in nodes && b in Deps(a)
    }

    ghost predicate ClosedWalk(w: seq<Fqn>) {
      && |w| >= 2
      && w[0] == w[|w| - 1]
      && forall i :: 0 <= i < |w| - 1 ==> Arc(w[i], w[i + 1])
    }

    ghost predicate Acyclic() {
      forall w :: !ClosedWalk(w)
    }

    /** `order` lists every contract once, each after the contracts it requires. */
    ghost predicate Topological(order: seq<Fqn>) {
      && Distinct(order)
      && Elements(order) == nodes
      && forall i :: 0 <= i < |order| ==> Deps(order[i]) <= Elements(order[..i])
    }

    /** The contracts that may be compiled next. */
    ghost function Ready(done: set<Fqn>): set<Fqn> {
      set n | n in nodes && n !in done && Deps(n) <= done
    }

    /** Read one contract at a time: each is ready when its turn comes. */
    ghost predicate Playable(done: set<Fqn>, order: seq<Fqn>)
      decreases |order|
    {
      order == [] || (order[0] in Ready(done) && Playable(done + {order[0]}, order[1..]))
    }

    ghost predicate Completes(done: set<Fqn>, order: seq<Fqn>) {
      Playable(done, order) && nodes - done <= Elements(order)
    }

    /** Always compile the least ready contract next, until none is ready. */
    ghost function Greedy(done: set<Fqn>): (order: seq<Fqn>)
      ensures Playable(done, order)
      decreases |nodes - done|
    {
      var ready := Ready(done);
      if ready == {} then []
      else
        var n := Least(ready);
        assert nodes - (done + {n}) < nodes - done;
        SubsetCount(nodes - (done + {n}), nodes - done);
        [n] + Greedy(done + {n})
    }
  }

  lemma {:induction false} PlayablePrefixes(g: Digraph, done: set<Fqn>, order: seq<Fqn>, i: nat)
    requires g.Playable(done, order) && i < |order|
    ensures order[i] in g.nodes && order[i] !in done && order[i] !in order[..i]
    ensures g.Deps(order[i]) <= done + Elements(order[..i])
    decreases i
  {
    if i > 0 {
      PlayablePrefixes(g, done + {order[0]}, order[1..], i - 1);
      assert order[..i] == [order[0]] + order[1..][..i - 1];
    }
  }

  /** The turn-by-turn reading and the whole-list reading of an order are the same. */
  lemma CompletesIsTopological(g: Digraph, order: seq<Fqn>)
    requires g.Completes({}, order)
    ensures g.Topological(order)
  {
    forall i | 0 <= i < |order|
      ensures order[i] in g.nodes && order[i] !in order[..i]
      ensures g.Deps(order[i]) <= Elements(order[..i])
    {
      PlayablePrefixes(g, {}, order, i);
    }
    forall i, j | 0 <= i < j < |order| ensures order[i] != order[j] {
      assert order[..j][i] == order[i];
    }
  }

  lemma {:induction false} TopologicalCompletes(g: Digraph, order: seq<Fqn>, i: nat)
    requires g.Topological(order) && i <= |order|
    ensures g.Playable(Elements(order[..i]), order[i..])
    ensures i == 0 ==> g.Completes({}, order)
    decreases |order| - i
  {
    if i < |order| {
      TopologicalCompletes(g, order, i + 1);
      assert order[..i + 1] == order[..i] + [order[i]];
      assert Elements(order[..i + 1]) == Elements(order[..i]) + {order[i]};
      assert order[i] in Elements(order);
    }
    if i == 0 {
      assert order[..0] == [] && order[0..] == order;
      assert Elements(order[..0]) == {};
    }
  }

  /** No order can compile a contract before itself: along a closed walk the position
  in the order would strictly fall. */
  lemma {:induction false} PositionsFall(g: Digraph, order: seq<Fqn>, w: seq<Fqn>, i: nat, p: nat, q: nat)
    requires g.Topological(order)
    requires forall k :: 0 <= k < |w| - 1 ==> g.Arc(w[k], w[k + 1])
    requires i < |w| && p < |order| && q < |order| && order[p] == w[0] && order[q] == w[i]
    ensures q <= p && (i > 0 ==> q < p)
    decreases i
  {
    if i > 0 {
      assert g.Arc(w[i - 1], w[i]);
      assert w[i - 1] in Elements(order);
      var r :| 0 <= r < |order| && order[r] == w[i - 1];
      PositionsFall(g, order, w, i - 1, p, r);
      assert w[i] in Elements(order[..r]);
    }
  }

  lemma TopologicalIsAcyclic(g: Digraph, order: seq<Fqn>)
    requires g.Topological(order)
    ensures g.Acyclic()
  {
    forall w | g.ClosedWalk(w) ensures false {
      assert g.Arc(w[0], w[1]);
      assert w[0] in Elements(order);
      var p :| 0 <= p < |order| && order[p] == w[0];
      PositionsFall(g, order, w, |w| - 1, p, p);
    }
  }

  function Without(order: seq<Fqn>, k: nat): seq<Fqn>
    requires k < |order|
  {
    order[..k] + order[k + 1..]
  }

  /** Compiling any one ready contract early leaves the rest of an order intact. */
  lemma {:induction false} CompileEarly(g: Digraph, done: set<Fqn>, order: seq<Fqn>, k: nat)
    requires g.Playable(done, order) && k < |order| && order[k] in g.Ready(done)
    ensures g.Playable(done + {order[k]}, Without(order, k))
    decreases k
  {
    var n := order[k];
    if k == 0 {
      assert Without(order, 0) == order[1..];
    } else {
      PlayablePrefixes(g, done, order, k);
      CompileEarly(g, done + {order[0]}, order[1..], k - 1);
      assert done + {order[0]} + {n} == done + {n} + {order[0]};
      assert Without(order, k) == [order[0]] + Without(order[1..], k - 1);
      assert order[0] in order[..k];
    }
  }

  lemma WithoutElements(order: seq<Fqn>, k: nat)
    requires k < |order|
    ensures Elements(order) == Elements(Without(order, k)) + {order[k]}
  {
    assert order == order[..k] + [order[k]] + order[k + 1..];
  }

  /** Whenever some order exists the greedy one completes too, and none precedes it. */
  lemma {:induction false} GreedyLeast(g: Digraph, done: set<Fqn>, order: seq<Fqn>)
    requires g.Completes(done, order)
    ensures g.Completes(done, g.Greedy(done))
    ensures ListLe(g.Greedy(done), order)
    decreases |order|
  {
    if order == [] {
      assert g.Ready(done) <= g.nodes - done;
      assert g.Greedy(done) == [];
    } else {
      assert order[0] in g.Ready(done);
      var n := Least(g.Ready(done));
      assert n in Elements(order);
      var k :| 0 <= k < |order| && order[k] == n;
      CompileEarly(g, done, order, k);
      WithoutElements(order, k);
      assert g.nodes - (done + {n}) <= Elements(Without(order, k)) by {
        forall x | x in g.nodes - (done + {n}) ensures x in Elements(Without(order, k)) {
          assert x in Elements(order);
        }
      }
      GreedyLeast(g, done + {n}, Without(order, k));
      var tail := g.Greedy(done + {n});
      assert g.Greedy(done) == [n] + tail;
      assert Elements([n] + tail) == {n} + Elements(tail);
      if n == order[0] {
        PlayablePrefixes(g, done, order, k);
        assert k == 0;
        assert Without(order, 0) == order[1..];
      }
    }
  }

  /** The order the compiler must use: topological, and least among all such orders. */
  ghost predicate IsLeastOrder(g: Digraph, order: seq<Fqn>) {
    g.Topological(order) && forall t :: g.Topological(t) ==> ListLe(order, t)
  }

  lemma LeastOrderUnique(g: Digraph, s: seq<Fqn>, t: seq<Fqn>)
    requires IsLeastOrder(g, s) && IsLeastOrder(g, t)
    ensures s == t
  {
    ListLeAntisymmetric(s, t);
  }

  /** The greedy order is the least topological one as soon as there is one at all. */
  lemma GreedyIsLeastOrder(g: Digraph, order: seq<Fqn>)
    requires g.Topological(order)
    ensures IsLeastOrder(g, g.Greedy({}))
  {
    TopologicalCompletes(g, order, 0);
    GreedyLeast(g, {}, order);
    CompletesIsTopological(g, g.Greedy({}));
    forall t | g.Topological(t) ensures ListLe(g.Greedy({}), t) {
      TopologicalCompletes(g, t, 0);
      GreedyLeast(g, {}, t);
    }
  }

  /** A set of contracts each of which waits for another one of them. */
  ghost predicate Stuck(g: Digraph, s: set<Fqn>) {
    s <= g.nodes && forall n <- s :: g.Deps(n) * s != {}
  }

  lemma {:induction false} StuckNeverPlayed(g: Digraph, done: set<Fqn>, order: seq<Fqn>, s: set<Fqn>)
    requires g.Playable(done, order) && Stuck(g, s) && s !! done
    ensures s !! Elements(order)
    decreases |order|
  {
    if order != [] {
      assert g.Deps(order[0]) * s <= done * s == {};
      assert order[0] !in s;
      StuckNeverPlayed(g, done + {order[0]}, order[1..], s);
      assert order == [order[0]] + order[1..];
    }
  }

  lemma {:induction false} GreedyStops(g: Digraph, done: set<Fqn>)
    ensures g.Ready(done + Elements(g.Greedy(done))) == {}
    decreases |g.nodes - done|
  {
    if g.Ready(done) == {} {
      assert done + Elements([]) == done;
    } else {
      var n := Least(g.Ready(done));
      assert g.nodes - (done + {n}) < g.nodes - done;
      SubsetCount(g.nodes - (done + {n}), g.nodes - done);
      GreedyStops(g, done + {n});
      var tail := g.Greedy(done + {n});
      assert g.Greedy(done) == [n] + tail;
      assert done + Elements([n] + tail) == done + {n} + Elements(tail);
    }
  }

  /** What the greedy order leaves behind is the largest set of contracts that wait for
  each other. */
  lemma RemainderIsLargestStuck(g: Digraph)
    ensures var rest := g.nodes - Elements(g.Greedy({}));
      Stuck(g, rest) && forall s :: Stuck(g, s) ==> s <= rest
  {
    var order := g.Greedy({});
    var rest := g.nodes - Elements(order);
    GreedyStops(g, {});
    forall n | n in rest ensures g.Deps(n) * rest != {} {
      assert n !in g.Ready({} + Elements(order));
      assert !(g.Deps(n) <= Elements(order));
      var d :| d in g.Deps(n) && d !in Elements(order);
      assert d in g.Deps(n) * rest;
    }
    forall s | Stuck(g, s) ensures s <= rest {
      StuckNeverPlayed(g, {}, order, s);
    }
  }

  /** Inside a non-empty stuck set one can walk forever, hence in a circle. */
  lemma {:induction false} WalkInside(g: Digraph, s: set<Fqn>, k: nat) returns (w: seq<Fqn>)
    requires Stuck(g, s) && s != {}
    ensures |w| == k + 1 && Elements(w) <= s
    ensures forall i :: 0 <= i < k ==> g.Arc(w[i], w[i + 1])
  {
    if k == 0 {
      var n :| n in s;
      w := [n];
    } else {
      var v := WalkInside(g, s, k - 1);
      assert v[k - 1] in Elements(v);
      var d :| d in g.Deps(v[k - 1]) * s;
      w := v + [d];
    }
  }

  lemma StuckHasClosedWalk(g: Digraph, s: set<Fqn>)
    requires Stuck(g, s) && s != {}
    ensures !g.Acyclic()
  {
    var w := WalkInside(g, s, |s|);
    if Distinct(w) {
      DistinctCount(w);
      SubsetCount(Elements(w), s);
    }
    var i, j :| 0 <= i < j < |w| && w[i] == w[j];
    var c := w[i..j + 1];
    assert g.ClosedWalk(c) by {
      forall k | 0 <= k < |c| - 1 ensures g.Arc(c[k], c[k + 1]) {
        assert g.Arc(w[i + k], w[i + k + 1]);
      }
    }
  }

  /** An order exists exactly when there is no closed walk, and the greedy order is complete
  exactly then. */
  lemma AcyclicIffOrderable(g: Digraph)
    ensures g.Acyclic() <==> Elements(g.Greedy({})) == g.nodes
    ensures g.Acyclic() ==> IsLeastOrder(g, g.Greedy({}))
  {
    var order := g.Greedy({});
    var rest := g.nodes - Elements(order);
    RemainderIsLargestStuck(g);
    forall x | x in Elements(order) ensures x in g.nodes {
      var i :| 0 <= i < |order| && order[i] == x;
      PlayablePrefixes(g, {}, order, i);
    }
    if rest == {} {
      CompletesIsTopological(g, order);
      TopologicalIsAcyclic(g, order);
      GreedyIsLeastOrder(g, order);
    } else {
      StuckHasClosedWalk(g, rest);
    }
  }
}
