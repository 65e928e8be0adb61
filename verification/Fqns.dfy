/** Fully qualified names and the order Python gives them.

`str` values compare by code point, position by position, and a proper prefix comes
first.  `forge/parser/graph.py` relies on that order twice: the heap pops the least
ready name, and the whole compilation order is the least one in the induced order on
lists of names. */
module Fqns {
  type Fqn = string

  predicate Lt(a: Fqn, b: Fqn) {
    if b == "" then false
    else if a == "" then true
    else a[0] < b[0] || (a[0] == b[0] && Lt(a[1..], b[1..]))
  }

  /** The first difference decides, and a proper prefix comes first. */
  lemma {:induction false} LtExactly(a: Fqn, b: Fqn)
    ensures Lt(a, b) <==> exists n: nat :: Differ(a, b, n)
  {
    if a == "" && b != "" {
      assert Differ(a, b, 0);
    }
    if a != "" && b != "" {
      if a[0] < b[0] { assert Differ(a, b, 0); }
      if a[0] == b[0] {
        LtExactly(a[1..], b[1..]);
        if n: nat :| Differ(a[1..], b[1..], n) {
          assert a[..n + 1] == [a[0]] + a[1..][..n] && b[..n + 1] == [b[0]] + b[1..][..n];
          assert Differ(a, b, n + 1);
        }
        if n: nat :| Differ(a, b, n) {
          assert a[1..][..n - 1] == a[..n][1..] && b[1..][..n - 1] == b[..n][1..];
          assert Differ(a[1..], b[1..], n - 1);
        }
      } else {
        forall n: nat | 0 < n <= |a| && n < |b| ensures !Differ(a, b, n) {
          assert a[..n][0] == a[0] && b[..n][0] == b[0];
        }
      }
    }
  }

  /** The two agree up to `n`, where `a` ends or has the smaller character. */
  predicate Differ(a: Fqn, b: Fqn, n: nat) {
    n <= |a| && n < |b| && a[..n] == b[..n] && (n == |a| || a[n] < b[n])
  }

  predicate Le(a: Fqn, b: Fqn) {
    a == b || Lt(a, b)
  }

  lemma {:induction false} LtIrreflexive(a: Fqn)
    ensures !Lt(a, a)
  {
    if a != "" {
      LtIrreflexive(a[1..]);
    }
  }

  lemma {:induction false} LtTransitive(a: Fqn, b: Fqn, c: Fqn)
    requires Lt(a, b) && Lt(b, c)
    ensures Lt(a, c)
  {
    if a != "" && a[0] == b[0] && b[0] == c[0] {
      LtTransitive(a[1..], b[1..], c[1..]);
    }
  }

  lemma {:induction false} LtTotal(a: Fqn, b: Fqn)
    ensures Lt(a, b) || a == b || Lt(b, a)
  {
    if a != "" && b != "" && a[0] == b[0] {
      LtTotal(a[1..], b[1..]);
      assert a == [a[0]] + a[1..] && b == [b[0]] + b[1..];
    }
  }

  /** `Le` is a total order; the three facts in the form the heap needs them. */
  lemma LeTransitive(a: Fqn, b: Fqn, c: Fqn)
    requires Le(a, b) && Le(b, c)
    ensures Le(a, c)
  {
    if Lt(a, b) && Lt(b, c) {
      LtTransitive(a, b, c);
    }
  }

  lemma LeAntisymmetric(a: Fqn, b: Fqn)
    requires Le(a, b) && Le(b, a)
    ensures a == b
  {
    if a != b {
      LtTransitive(a, b, a);
      LtIrreflexive(a);
    }
  }

  lemma LeTotal(a: Fqn, b: Fqn)
    ensures Le(a, b) || Le(b, a)
  {
    LtTotal(a, b);
  }

  /** The lexicographic order on lists of names. */
  predicate ListLe(s: seq<Fqn>, t: seq<Fqn>) {
    if s == [] then true
    else if t == [] then false
    else Lt(s[0], t[0]) || (s[0] == t[0] && ListLe(s[1..], t[1..]))
  }

  lemma {:induction false} ListLeAntisymmetric(s: seq<Fqn>, t: seq<Fqn>)
    requires ListLe(s, t) && ListLe(t, s)
    ensures s == t
  {
    if s != [] && t != [] {
      LtIrreflexive(s[0]);
      if s[0] != t[0] {
        LtTransitive(s[0], t[0], s[0]);
      }
      ListLeAntisymmetric(s[1..], t[1..]);
      assert s == [s[0]] + s[1..] && t == [t[0]] + t[1..];
    }
  }

  /** The least element of a non-empty finite set of names. */
  ghost predicate IsLeast(x: Fqn, s: set<Fqn>) {
    x in s && forall y <- s :: Le(x, y)
  }

  lemma {:induction false} LeastExists(s: set<Fqn>)
    requires s != {}
    ensures exists x :: IsLeast(x, s)
    decreases |s|
  {
    var x :| x in s;
    var rest := s - {x};
    if rest == {} {
      assert s == {x};
      assert IsLeast(x, s);
    } else {
      LeastExists(rest);
      var y :| IsLeast(y, rest);
      LeTotal(x, y);
      var m := if Le(x, y) then x else y;
      forall z | z in s ensures Le(m, z) {
        if z != x {
          assert z in rest;
          if m == x { LeTransitive(x, y, z); }
        }
      }
      assert IsLeast(m, s);
    }
  }

  lemma LeastUnique(x: Fqn, y: Fqn, s: set<Fqn>)
    requires IsLeast(x, s) && IsLeast(y, s)
    ensures x == y
  {
    LeAntisymmetric(x, y);
  }

  ghost function Least(s: set<Fqn>): (x: Fqn)
    requires s != {}
    ensures IsLeast(x, s)
  {
    LeastExists(s);
    var x :| IsLeast(x, s);
    x
  }
}
