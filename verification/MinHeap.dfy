/** The binary min-heap behind the `ready` list of the topological sort.

`heapq` itself belongs to Python's standard library; what the sort relies on is that a
push and a pop keep the multiset of names and that a pop returns a least one. */
module MinHeaps {
  import opened Fqns

  function Parent(i: nat): (p: nat)
    requires i > 0
    ensures p < i
  {
    (i - 1) / 2
  }

  /** The entry at `i` respects the entry at `p`. */
  ghost predicate Under(s: seq<Fqn>, i: nat, p: nat)
    requires i < |s| && p < |s|
  {
    Le(s[p], s[i])
  }

  ghost predicate Ordered(s: seq<Fqn>, i: nat)
    requires 1 <= i < |s|
  {
    Under(s, i, Parent(i))
  }

  ghost predicate ParentsLe(s: seq<Fqn>) {
    forall i :: 1 <= i < |s| ==> Ordered(s, i)
  }

  /** The children of `hole` respect its parent, if it has one. */
  ghost predicate Bridged(s: seq<Fqn>, hole: nat)
    requires hole < |s|
  {
    hole > 0 ==> forall j :: 1 <= j < |s| && Parent(j) == hole ==> Under(s, j, Parent(hole))
  }

  /** Heap order everywhere except between `hole` and its parent. */
  ghost predicate UpTo(s: seq<Fqn>, hole: nat) {
    && hole < |s|
    && (forall i :: 1 <= i < |s| && i != hole ==> Ordered(s, i))
    && Bridged(s, hole)
  }

  /** Heap order everywhere except between `hole` and its children. */
  ghost predicate DownTo(s: seq<Fqn>, hole: nat) {
    && hole < |s|
    && (forall i :: 1 <= i < |s| && Parent(i) != hole ==> Ordered(s, i))
    && Bridged(s, hole)
  }

  lemma {:induction false} RootLeast(s: seq<Fqn>, i: nat)
    requires ParentsLe(s) && i < |s|
    ensures Le(s[0], s[i])
    decreases i
  {
    if i != 0 {
      RootLeast(s, Parent(i));
      assert Ordered(s, i);
      LeTransitive(s[0], s[Parent(i)], s[i]);
    }
  }

  method SiftUp(items: seq<Fqn>, start: nat) returns (s: seq<Fqn>)
    requires UpTo(items, start)
    ensures ParentsLe(s) && multiset(s) == multiset(items)
  {
    s := items;
    var i := start;
    while i > 0 && Lt(s[i], s[Parent(i)])
      invariant 0 <= i < |s| == |items|
      invariant UpTo(s, i)
      invariant multiset(s) == multiset(items)
      decreases i
    {
      var p := Parent(i);
      SwapUp(s, i);
      s := s[i := s[p]][p := s[i]];
      i := p;
    }
    if i > 0 { LeTotal(s[i], s[Parent(i)]); }
    forall j | 1 <= j < |s| ensures Ordered(s, j) { }
  }

  /** One swap towards the root moves the only misplaced pair up one level. */
  lemma SwapUp(s: seq<Fqn>, i: nat)
    requires 0 < i < |s| && UpTo(s, i) && Lt(s[i], s[Parent(i)])
    ensures var p := Parent(i); UpTo(s[i := s[p]][p := s[i]], p)
  {
    var p := Parent(i);
    var t := s[i := s[p]][p := s[i]];
    forall j | 1 <= j < |t| && j != p ensures Ordered(t, j) {
      if j != i {
        assert Ordered(s, j);
        if Parent(j) == p {
          LeTransitive(t[p], s[p], s[j]);
        } else if Parent(j) == i {
          assert Under(s, j, p);
        }
      }
    }
    if p > 0 {
      forall j | 1 <= j < |t| && Parent(j) == p ensures Under(t, j, Parent(p)) {
        assert Ordered(s, p);
        if j != i {
          assert Ordered(s, j);
          LeTransitive(s[Parent(p)], s[p], s[j]);
        }
      }
    }
  }

  method SiftDown(items: seq<Fqn>) returns (s: seq<Fqn>)
    requires DownTo(items, 0)
    ensures ParentsLe(s) && multiset(s) == multiset(items)
  {
    s := items;
    var i := 0;
    while 2 * i + 1 < |s|
      invariant 0 <= i < |s| == |items|
      invariant DownTo(s, i)
      invariant multiset(s) == multiset(items)
      decreases |s| - i
    {
      var c := 2 * i + 1;
      if c + 1 < |s| && Lt(s[c + 1], s[c]) {
        c := c + 1;
      }
      SmallerChild(s, i, c);
      if !Lt(s[c], s[i]) {
        Settled(s, i, c);
        return;
      }
      SwapDown(s, i, c);
      s := s[i := s[c]][c := s[i]];
      i := c;
    }
    forall j | 1 <= j < |s| ensures Ordered(s, j) { }
  }

  lemma SmallerChild(s: seq<Fqn>, i: nat, c: nat)
    requires 2 * i + 1 < |s|
    requires c == if 2 * i + 2 < |s| && Lt(s[2 * i + 2], s[2 * i + 1]) then 2 * i + 2 else 2 * i + 1
    ensures forall j :: 1 <= j < |s| && Parent(j) == i ==> Under(s, j, c)
  {
    forall j | 1 <= j < |s| && Parent(j) == i ensures Under(s, j, c) {
      LeTotal(s[2 * i + 1], s[j]);
      assert j == 2 * i + 1 || j == 2 * i + 2;
    }
  }

  /** A hole no greater than its smaller child is no hole. */
  lemma Settled(s: seq<Fqn>, i: nat, c: nat)
    requires DownTo(s, i) && c < |s| && !Lt(s[c], s[i])
    requires forall j :: 1 <= j < |s| && Parent(j) == i ==> Under(s, j, c)
    ensures ParentsLe(s)
  {
    LeTotal(s[i], s[c]);
    forall j | 1 <= j < |s| ensures Ordered(s, j) {
      if Parent(j) == i {
        assert Under(s, j, c);
        LeTransitive(s[i], s[c], s[j]);
      }
    }
  }

  /** One swap with the smaller child moves the only misplaced pairs down one level. */
  lemma SwapDown(s: seq<Fqn>, i: nat, c: nat)
    requires i < c < |s| && Parent(c) == i && DownTo(s, i) && Lt(s[c], s[i])
    requires forall j :: 1 <= j < |s| && Parent(j) == i ==> Under(s, j, c)
    ensures DownTo(s[i := s[c]][c := s[i]], c)
  {
    var t := s[i := s[c]][c := s[i]];
    forall j | 1 <= j < |t| && Parent(j) != c ensures Ordered(t, j) {
      if Parent(j) == i {
        assert Under(s, j, c);
      } else {
        assert Ordered(s, j);
        if j == i { assert Under(s, c, Parent(i)); }
      }
    }
    forall j | 1 <= j < |t| && Parent(j) == c ensures Under(t, j, i) {
      assert Ordered(s, j);
    }
  }

  class MinHeap {
    var items: seq<Fqn>

    ghost predicate Valid() reads this {
      ParentsLe(items)
    }

    ghost function Contents(): multiset<Fqn> reads this {
      multiset(items)
    }

    constructor ()
      ensures Valid() && items == []
    {
      items := [];
    }

    method Push(x: Fqn)
      requires Valid()
      modifies this
      ensures Valid() && Contents() == old(Contents()) + multiset{x}
    {
      var longer := items + [x];
      forall j | 1 <= j < |items| ensures Ordered(longer, j) {
        assert Ordered(items, j);
      }
      items := SiftUp(longer, |items|);
    }

    method Pop() returns (x: Fqn)
      requires Valid() && items != []
      modifies this
      ensures Valid() && x in old(Contents()) && Contents() == old(Contents()) - multiset{x}
      ensures forall y <- old(items) :: Le(x, y)
    {
      x := items[0];
      forall y | y in items ensures Le(x, y) {
        var i :| 0 <= i < |items| && items[i] == y;
        RootLeast(items, i);
      }
      var last := items[|items| - 1];
      var rest := items[..|items| - 1];
      assert items == rest + [last];
      if rest == [] {
        items := [];
      } else {
        assert rest[0] == x;
        var moved := rest[0 := last];
        forall j | 1 <= j < |moved| && Parent(j) != 0 ensures Ordered(moved, j) {
          assert Ordered(items, j);
        }
        items := SiftDown(moved);
      }
    }
  }
}
