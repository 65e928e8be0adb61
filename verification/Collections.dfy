/** Small shared datatypes: options, outcomes, and Python's insertion-ordered `dict`. */
module Collections {
  datatype Option<+T> = None | Some(value: T)

  datatype Result<+T, +E> = Ok(value: T) | Err(error: E)

  predicate Distinct<T(==)>(s: seq<T>) {
    forall i, j :: 0 <= i < j < |s| ==> s[i] != s[j]
  }

  ghost function Elements<T>(s: seq<T>): set<T> {
    set x <- s
  }

  lemma {:induction false} DistinctCount<T>(s: seq<T>)
    requires Distinct(s)
    ensures |Elements(s)| == |s|
  {
    if s != [] {
      var init := s[..|s| - 1];
      var last := s[|s| - 1];
      DistinctCount(init);
      assert s == init + [last];
      assert Elements(s) == Elements(init) + {last};
    }
  }

  lemma SubsetCount<T>(a: set<T>, b: set<T>)
    requires a <= b
    ensures |a| <= |b|
    ensures |a| == |b| ==> a == b
  {
    assert b == a + (b - a);
  }

  /** Insertion into an ordered set: `d[x] = None` on a `dict[str, None]`. */
  function Insert<T(==)>(s: seq<T>, x: T): (r: seq<T>)
    ensures Elements(r) == Elements(s) + {x}
    ensures Distinct(s) ==> Distinct(r)
    ensures s <= r
  {
    if x in s then s else s + [x]
  }

  /** A Python `dict`: iteration follows `keys`, lookup uses `at`. */
  datatype Dict<K(==), V> = Dict(keys: seq<K>, at: map<K, V>) {
    ghost predicate Ok() {
      Distinct(keys) && Elements(keys) == at.Keys
    }

    function Set(k: K, v: V): (d: Dict<K, V>)
      requires Ok()
      ensures d.Ok() && d.at == at[k := v]
    {
      Dict(Insert(keys, k), at[k := v])
    }

    function SetDefault(k: K, v: V): (d: Dict<K, V>)
      requires Ok()
      ensures d.Ok() && d.at == (if k in at then at else at[k := v])
    {
      if k in at then this else Set(k, v)
    }

    function Get(k: K, default: V): V {
      if k in at then at[k] else default
    }
  }

  function Empty<K(==), V>(): (d: Dict<K, V>)
    ensures d.Ok()
  {
    Dict([], map[])
  }
}
