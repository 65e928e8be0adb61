/** What becomes of the words of a name: `normalize_name` (`forge/normalize.py`) cuts a name into
words and joins them with underscores, `pascal_case` (`forge/targets/naming.py`) joins them with
capitals, and `py_identifier` keeps what separators leave. */
module NamePieces {
  import opened Naming
  import opened Normalizer
  import opened Splitting

  // ----- Underscores -----

  function NonEmpty(parts: seq<string>): seq<string> {
    if parts == [] then []
    else (if parts[0] == "" then [] else [parts[0]]) + NonEmpty(parts[1..])
  }

  /** The parts between underscores, joined again without the empty ones. */
  function Rejoined(s: string): string {
    var parts := NonEmpty(Parts('_', s));
    if parts == [] then "" else Joined('_', parts)
  }

  lemma {:induction false} NonEmptyAppend(a: seq<string>, b: seq<string>)
    ensures NonEmpty(a + b) == NonEmpty(a) + NonEmpty(b)
  {
    if a == [] {
      assert a + b == b;
    } else {
      NonEmptyAppend(a[1..], b);
      NonEmptyCons(a[0], a[1..]);
      NonEmptyCons(a[0], a[1..] + b);
      hide NonEmpty;
      assert a == [a[0]] + a[1..] && a + b == [a[0]] + (a[1..] + b);
    }
  }

  lemma NonEmptyCons(x: string, t: seq<string>)
    ensures NonEmpty([x] + t) == (if x == "" then [] else [x]) + NonEmpty(t)
  {
    assert ([x] + t)[1..] == t;
  }

  lemma EmptyInFront(parts: seq<string>)
    ensures NonEmpty([""] + parts) == NonEmpty(parts)
  {
    assert ([""] + parts)[1..] == parts;
  }

  lemma {:induction false} NothingEmpty(parts: seq<string>)
    requires "" !in parts
    ensures NonEmpty(parts) == parts
  {
    if parts != [] {
      NothingEmpty(parts[1..]);
      assert parts[0] in parts;
    }
  }

  lemma {:induction false} CollapseParts(s: string)
    ensures Parts('_', Collapse(s))[0] == Parts('_', s)[0]
    ensures NonEmpty(Parts('_', Collapse(s))[1..]) == NonEmpty(Parts('_', s)[1..])
  {
    if |s| >= 2 {
      CollapseParts(s[1..]);
      var rest := Collapse(s[1..]);
      var was, now := Parts('_', s[1..]), Parts('_', rest);
      assert NonEmpty(was) == (if was[0] == "" then [] else [was[0]]) + NonEmpty(was[1..]);
      assert NonEmpty(now) == (if now[0] == "" then [] else [now[0]]) + NonEmpty(now[1..]);
      if s[0] == '_' { assert Parts('_', s)[1..] == was; }
      if !(s[0] == '_' && s[1] == '_') {
        assert Collapse(s)[1..] == rest;
        if s[0] == '_' { assert Parts('_', Collapse(s))[1..] == now; }
      }
    }
  }

  lemma CollapseRejoins(s: string)
    ensures Rejoined(Collapse(s)) == Rejoined(s)
  {
    CollapseParts(s);
  }

  lemma {:induction false} LeftStripRejoins(s: string)
    ensures Rejoined(LeftStrip(s)) == Rejoined(s)
  {
    hide Joined;
    if s != "" && s[0] == '_' {
      LeftStripRejoins(s[1..]);
      EmptyInFront(Parts('_', s[1..]));
    }
  }

  lemma {:induction false} RightStripRejoins(s: string)
    ensures Rejoined(RightStrip(s)) == Rejoined(s)
  {
    hide Rejoined;
    if s != "" && s[|s| - 1] == '_' {
      var init := s[..|s| - 1];
      RightStripRejoins(init);
      assert s == init + ['_'] + "";
      UnderscoreBehind(init);
    }
  }

  lemma UnderscoreBehind(s: string)
    ensures Rejoined(s + ['_'] + "") == Rejoined(s)
  {
    hide Parts, Joined;
    PartsAppend('_', s, "");
    NonEmptyAppend(Parts('_', s), [""]);
    EmptyInFront([]);
    assert [""] + [] == [""] && NonEmpty([]) == [];
    assert NonEmpty(Parts('_', s)) + [] == NonEmpty(Parts('_', s));
  }

  /** No underscore at either end, no two in a row. */
  predicate Tight(s: string) {
    && (s != "" ==> s[0] != '_' && s[|s| - 1] != '_')
    && forall i :: 0 < i < |s| ==> !(s[i - 1] == '_' && s[i] == '_')
  }

  lemma {:induction false} TightTail(s: string)
    requires s != "" ==> s[|s| - 1] != '_'
    requires forall i :: 0 < i < |s| ==> !(s[i - 1] == '_' && s[i] == '_')
    ensures "" !in Parts('_', s)[1..]
    ensures Parts('_', s)[0] == "" <==> s == "" || s[0] == '_'
  {
    if s != "" {
      var t := s[1..];
      forall i | 0 < i < |t| ensures !(t[i - 1] == '_' && t[i] == '_') { assert !(s[i] == '_' && s[i + 1] == '_'); }
      TightTail(t);
      if s[0] == '_' {
        assert Parts('_', s)[1..] == Parts('_', t);
        assert t != "" && !(s[0] == '_' && s[1] == '_');
        assert Parts('_', t) == [Parts('_', t)[0]] + Parts('_', t)[1..];
      }
    }
  }

  lemma TightIsRejoined(s: string)
    requires Tight(s)
    ensures Rejoined(s) == s
  {
    TightTail(s);
    var parts := Parts('_', s);
    PartsRejoin('_', s);
    if s != "" {
      assert parts == [parts[0]] + parts[1..];
      NothingEmpty(parts);
    } else {
      assert parts[1..] == [];
    }
  }

  /** Apart from its case, a normalised name is its broken form without needless underscores. */
  lemma NormalizedRejoins(name: string)
    ensures NormalizeName(name) == Rejoined(LowerAll(Broken(name, 0)))
  {
    var s := LowerAll(Broken(name, 0));
    NormalizeNameIsNormal(name);
    TightIsRejoined(NormalizeName(name));
    RightStripRejoins(LeftStrip(Collapse(s)));
    LeftStripRejoins(Collapse(s));
    CollapseRejoins(s);
  }

  // ----- Capitals -----

  /** No capital comes after a small letter or a digit, and no small letter after two capitals. */
  predicate Joins(w: string, i: nat)
    requires 0 < i < |w|
  {
    && (Upper(w[i]) ==> Upper(w[i - 1]))
    && (Lower(w[i]) && i >= 2 ==> !(Upper(w[i - 2]) && Upper(w[i - 1])))
  }

  /** A word as it stands in a camel-case name: `todo`, `Todo`, `HTTP`, `V2`. */
  predicate Word(w: string) {
    && w != "" && (forall i :: 0 <= i < |w| ==> Alnum(w[i]))
    && (forall i :: 0 < i < |w| ==> Joins(w, i))
  }

  /** The next word starts with a capital; after a word of capitals it goes on with a small
  letter, because it could not be told from that word otherwise. */
  predicate Follows(v: string, w: string)
    requires v != "" && w != ""
  {
    Upper(w[0]) && (Upper(v[|v| - 1]) ==> |w| >= 2 && Lower(w[1]))
  }

  predicate CamelWords(ws: seq<string>) {
    && ws != [] && (forall i :: 0 <= i < |ws| ==> Word(ws[i]))
    && forall i :: 0 < i < |ws| ==> Follows(ws[i - 1], ws[i])
  }

  function Concat(ws: seq<string>): string {
    if ws == [] then "" else ws[0] + Concat(ws[1..])
  }

  function LowerEach(ws: seq<string>): (r: seq<string>)
    ensures |r| == |ws| && forall i :: 0 <= i < |ws| ==> r[i] == LowerAll(ws[i])
  {
    seq(|ws|, i requires 0 <= i < |ws| => LowerAll(ws[i]))
  }

  lemma CamelTail(ws: seq<string>)
    requires CamelWords(ws) && |ws| > 1
    ensures CamelWords(ws[1..]) && Follows(ws[0], ws[1])
  {
    forall i | 0 < i < |ws[1..]| ensures Follows(ws[1..][i - 1], ws[1..][i]) { assert Follows(ws[i], ws[i + 1]); }
  }

  lemma NoMark(s: string, i: nat)
    requires 0 < i < |s| && !Boundary(s, i)
    ensures Broken(s, i) == [s[i]] + Broken(s, i + 1)
  {
  }

  /** Nothing is cut inside a word. */
  lemma {:induction false} BrokenInWord(s: string, p: nat, w: string, k: nat)
    requires Word(w) && p + |w| <= |s| && s[p..p + |w|] == w && 0 < k <= |w|
    requires p + |w| < |s| ==> Upper(s[p + |w|])
    ensures Broken(s, p + k) == w[k..] + Broken(s, p + |w|)
    decreases |w| - k
  {
    hide Word, Boundary, Upper, Broken;
    if k < |w| {
      BrokenInWord(s, p, w, k + 1);
      NoBoundaryInWord(s, p, w, k);
      NoMark(s, p + k);
      assert s[p + k] == w[k];
      Front(w, k, Broken(s, p + |w|));
    }
  }

  lemma Front(w: string, k: nat, rest: string)
    requires k < |w|
    ensures [w[k]] + (w[k + 1..] + rest) == w[k..] + rest
  {
    assert w[k..] == [w[k]] + w[k + 1..];
  }

  lemma NoBoundaryInWord(s: string, p: nat, w: string, k: nat)
    requires Word(w) && p + |w| <= |s| && s[p..p + |w|] == w && 0 < k < |w|
    requires p + |w| < |s| ==> Upper(s[p + |w|])
    ensures !Boundary(s, p + k)
  {
    assert s[p + k - 1] == w[k - 1] && s[p + k] == w[k];
    assert Joins(w, k);
    if k + 1 < |w| { assert s[p + k + 1] == w[k + 1] && Joins(w, k + 1); }
  }

  /** A word is cut off from what comes before it. */
  lemma WordAt(s: string, p: nat, w: string)
    requires Word(w) && p + |w| <= |s| && s[p..p + |w|] == w
    requires p + |w| < |s| ==> Upper(s[p + |w|])
    requires p > 0 ==> Boundary(s, p)
    ensures Broken(s, p) == (if p == 0 then "" else "_") + w + Broken(s, p + |w|)
  {
    BrokenInWord(s, p, w, 1);
    hide Word, Boundary;
    HeadBack(if p == 0 then "" else "_", w, Broken(s, p + |w|));
    assert s[p] == w[0];
  }

  lemma HeadBack(mark: string, w: string, rest: string)
    requires w != ""
    ensures mark + [w[0]] + (w[1..] + rest) == mark + w + rest
  {
    assert [w[0]] + w[1..] == w;
  }

  /** Between two words there is a boundary. */
  lemma BoundaryBetween(s: string, p: nat, v: string, w: string)
    requires Word(v) && Word(w) && Follows(v, w) && p + |v| + |w| <= |s|
    requires s[p..p + |v|] == v && s[p + |v|..p + |v| + |w|] == w
    ensures Upper(s[p + |v|]) && Boundary(s, p + |v|)
  {
    var q := p + |v|;
    assert s[q - 1] == v[|v| - 1] && s[q] == w[0];
    assert |w| >= 2 ==> s[q + 1] == w[1];
  }

  lemma CamelFirst(ws: seq<string>)
    requires CamelWords(ws)
    ensures Word(ws[0]) && ws[0] != "" && Concat(ws) == ws[0] + Concat(ws[1..])
    ensures |ws| == 1 ==> Concat(ws[1..]) == "" && Joined('_', ws) == ws[0]
    ensures |ws| > 1 ==> ws[1] != "" && Word(ws[1]) && Follows(ws[0], ws[1]) && CamelWords(ws[1..])
    ensures |ws| > 1 ==> Concat(ws[1..]) == ws[1] + Concat(ws[1..][1..])
  {
    hide Word;
    if |ws| > 1 {
      CamelTail(ws);
      assert ws[1..][0] == ws[1];
    }
    assert Word(ws[0]);
    WordIsSome(ws[0]);
  }

  lemma WordIsSome(w: string)
    requires Word(w)
    ensures w != ""
  {
  }

  lemma FirstWord(s: string, p: nat, ws: seq<string>)
    requires CamelWords(ws) && p <= |s| && s[p..] == Concat(ws) && (p > 0 ==> Boundary(s, p))
    ensures var q := p + |ws[0]|;
      && 0 < q <= |s| && s[q..] == Concat(ws[1..]) && (|ws| > 1 ==> Boundary(s, q))
      && Broken(s, p) == (if p == 0 then "" else "_") + ws[0] + Broken(s, q)
    ensures |ws| > 1 ==> CamelWords(ws[1..])
  {
    CamelFirst(ws);
    hide Word, Follows, Boundary, Broken, CamelWords, Concat, Joined;
    var w, q := ws[0], p + |ws[0]|;
    Sliced(s, p, w, Concat(ws[1..]));
    if |ws| > 1 {
      Sliced(s, q, ws[1], Concat(ws[1..][1..]));
      BoundaryBetween(s, p, w, ws[1]);
    } else {
      assert |s[q..]| == 0;
    }
    WordAt(s, p, w);
  }

  lemma {:induction false} BrokenWords(s: string, p: nat, ws: seq<string>)
    requires CamelWords(ws) && p <= |s| && s[p..] == Concat(ws) && (p > 0 ==> Boundary(s, p))
    ensures Broken(s, p) == (if p == 0 then "" else "_") + Joined('_', ws)
    decreases |ws|
  {
    assert ws != [];
    hide *;
    FirstWord(s, p, ws);
    var mark, q := if p == 0 then "" else "_", p + |ws[0]|;
    if |ws| > 1 {
      BrokenWords(s, q, ws[1..]);
      WordsJoin(mark, ws);
    } else {
      NothingBehind(s, q, mark, ws);
    }
  }

  lemma Sliced(s: string, p: nat, w: string, after: string)
    requires p <= |s| && s[p..] == w + after
    ensures p + |w| <= |s| && s[p..p + |w|] == w && s[p + |w|..] == after
  {
    assert s[p..p + |w|] == s[p..][..|w|] && s[p + |w|..] == s[p..][|w|..];
  }

  lemma WordsJoin(mark: string, ws: seq<string>)
    requires |ws| > 1
    ensures mark + ws[0] + ("_" + Joined('_', ws[1..])) == mark + Joined('_', ws)
  {
    FourStrings(mark, ws[0], "_", Joined('_', ws[1..]));
  }

  lemma FourStrings(a: string, b: string, c: string, d: string)
    ensures a + b + (c + d) == a + (b + c + d)
  {
  }

  lemma NothingBehind(s: string, q: nat, mark: string, ws: seq<string>)
    requires |ws| == 1 && q <= |s| && s[q..] == Concat(ws[1..])
    ensures mark + ws[0] + Broken(s, q) == mark + Joined('_', ws)
  {
    assert |s[q..]| == 0;
  }

  lemma LowerAppend(a: string, b: string)
    ensures LowerAll(a + b) == LowerAll(a) + LowerAll(b)
  {
    LowerAllBare(a + b);
    LowerAllBare(a);
    LowerAllBare(b);
    hide LowerAll, Bare, ToLower;
    assert forall i :: 0 <= i < |a + b| ==> (a + b)[i] == if i < |a| then a[i] else b[i - |a|];
  }

  lemma {:induction false} LowerJoined(ws: seq<string>)
    requires ws != []
    ensures LowerAll(Joined('_', ws)) == Joined('_', LowerEach(ws))
  {
    if |ws| > 1 {
      LowerJoined(ws[1..]);
      LowerAppend(ws[0] + ['_'], Joined('_', ws[1..]));
      LowerAppend(ws[0], ['_']);
      assert LowerAll(['_']) == ['_'] by { assert ['_'][1..] == ""; }
      assert LowerEach(ws)[1..] == LowerEach(ws[1..]);
    }
  }

  lemma LowerWord(w: string)
    requires Word(w)
    ensures LowerAll(w) != "" && '_' !in LowerAll(w)
  {
    LowerAllBare(w);
  }

  /** The words of a camel-case name come out in small letters, joined by underscores. */
  lemma CamelCaseSplits(ws: seq<string>)
    requires CamelWords(ws)
    ensures NormalizeName(Concat(ws)) == Joined('_', LowerEach(ws))
  {
    assert Concat(ws)[0..] == Concat(ws) && "" + Joined('_', ws) == Joined('_', ws);
    BrokenWords(Concat(ws), 0, ws);
    LowerJoined(ws);
    NormalizedRejoins(Concat(ws));
    var lower := LowerEach(ws);
    forall i | 0 <= i < |ws| ensures lower[i] != "" && '_' !in lower[i] { LowerWord(ws[i]); }
    PartsOfJoined('_', lower);
    NothingEmpty(lower);
  }

  /** And every name of letters and digits is made of such words. */
  lemma {:induction false} EveryNameSplits(s: string) returns (ws: seq<string>)
    requires s != "" && forall i :: 0 <= i < |s| ==> Alnum(s[i])
    ensures CamelWords(ws) && Concat(ws) == s
  {
    if |s| == 1 {
      ws := [s];
      assert Concat(ws[1..]) == "";
    } else {
      var c := s[0];
      var rest := EveryNameSplits(s[1..]);
      assert s == [c] + s[1..];
      var w := rest[0];
      if Upper(w[0]) && (Upper(c) ==> |w| >= 2 && Lower(w[1])) {
        ws := [[c]] + rest;
        assert Follows([c], w);
        forall i | 0 < i < |ws| ensures Follows(ws[i - 1], ws[i]) {
          if i > 1 { assert Follows(rest[i - 2], rest[i - 1]); }
        }
        assert ws[1..] == rest;
      } else {
        ws := [[c] + w] + rest[1..];
        WordCons(c, w);
        forall i | 0 < i < |ws| ensures Follows(ws[i - 1], ws[i]) {
          assert Follows(rest[i - 1], rest[i]);
        }
        assert ws[1..] == rest[1..];
        assert ([c] + w) + Concat(rest[1..]) == [c] + (w + Concat(rest[1..]));
      }
    }
  }

  lemma WordCons(c: char, w: string)
    requires Alnum(c) && Word(w) && !(Upper(w[0]) && (Upper(c) ==> |w| >= 2 && Lower(w[1])))
    ensures Word([c] + w)
  {
    var v := [c] + w;
    forall i | 0 < i < |v| ensures Joins(v, i) {
      assert v[i] == w[i - 1];
      if i > 1 { assert Joins(w, i - 1); }
    }
  }

  // ----- Underscores and capitals together -----

  lemma PartsCons(c: char, x: char, t: string)
    ensures var rest := Parts(c, t);
      Parts(c, [x] + t) == if x == c then [""] + rest else [[x] + rest[0]] + rest[1..]
  {
    assert ([x] + t)[1..] == t;
  }

  lemma {:induction false} PartsConcat(c: char, a: string, b: string)
    ensures Parts(c, a + [c] + b) == Parts(c, a) + Parts(c, b)
  {
    var more := Parts(c, b);
    if a == "" {
      assert a + [c] + b == [c] + b;
      PartsCons(c, c, b);
      assert Parts(c, a) == [""];
    } else {
      PartsConcat(c, a[1..], b);
      hide Parts;
      var x, t := a[0], a[1..];
      var rest := Parts(c, t);
      assert a == [x] + t && a + [c] + b == [x] + (t + [c] + b);
      PartsCons(c, x, t);
      PartsCons(c, x, t + [c] + b);
      Glued(x, rest, more);
    }
  }

  lemma Glued(x: char, rest: seq<string>, more: seq<string>)
    requires rest != []
    ensures [""] + (rest + more) == [""] + rest + more
    ensures [[x] + (rest + more)[0]] + (rest + more)[1..] == [[x] + rest[0]] + rest[1..] + more
  {
    assert (rest + more)[1..] == rest[1..] + more;
  }

  lemma {:induction false} BrokenAcross(a: string, b: string, i: nat)
    requires i <= |a|
    ensures Broken(a + "_" + b, i) == Broken(a, i) + "_" + Broken(b, 0)
    decreases |a| - i
  {
    var s := a + "_" + b;
    if i < |a| {
      hide Boundary;
      BrokenAcross(a, b, i + 1);
      if i > 0 { SameBoundary(a, b, i); }
      assert s[i] == a[i];
      var mark := if i > 0 && Boundary(a, i) then "_" else "";
      assert Broken(s, i) == mark + [a[i]] + Broken(s, i + 1);
      assert Broken(a, i) == mark + [a[i]] + Broken(a, i + 1);
      hide Broken;
      assert mark + [a[i]] + (Broken(a, i + 1) + "_" + Broken(b, 0)) == mark + [a[i]] + Broken(a, i + 1) + "_" + Broken(b, 0);
    } else {
      BrokenBehind(a, b, 0);
      assert s[i] == '_' && (i > 0 ==> !Boundary(s, i));
    }
  }

  lemma SameBoundary(a: string, b: string, i: nat)
    requires 0 < i < |a|
    ensures Boundary(a + "_" + b, i) <==> Boundary(a, i)
  {
    var s := a + "_" + b;
    assert s[i - 1] == a[i - 1] && s[i] == a[i] && s[|a|] == '_';
    assert i + 1 < |a| ==> s[i + 1] == a[i + 1];
  }

  lemma {:induction false} BrokenBehind(a: string, b: string, j: nat)
    requires j <= |b|
    ensures Broken(a + "_" + b, |a| + 1 + j) == Broken(b, j)
    decreases |b| - j
  {
    var s := a + "_" + b;
    if j < |b| {
      BrokenBehind(a, b, j + 1);
      assert s[|a| + 1 + j] == b[j];
      if j == 0 {
        assert s[|a|] == '_';
      } else {
        assert s[|a| + j] == b[j - 1] && (j + 1 < |b| ==> s[|a| + j + 2] == b[j + 1]);
      }
    }
  }

  /** An underscore separates whatever stands on its two sides. */
  lemma UnderscoreSeparates(a: string, b: string)
    ensures var x, y := NormalizeName(a), NormalizeName(b);
      NormalizeName(a + "_" + b) == if x == "" then y else if y == "" then x else x + "_" + y
  {
    hide Broken, NormalizeName, Joined, Parts, NonEmpty;
    NormalizedRejoins(a);
    NormalizedRejoins(b);
    NormalizedRejoins(a + "_" + b);
    BrokenAcross(a, b, 0);
    var l, r := LowerAll(Broken(a, 0)), LowerAll(Broken(b, 0));
    LowerAppend(Broken(a, 0) + "_", Broken(b, 0));
    LowerAppend(Broken(a, 0), "_");
    assert LowerAll("_") == "_" by { assert "_"[1..] == ""; }
    PartsConcat('_', l, r);
    NonEmptyAppend(Parts('_', l), Parts('_', r));
    RejoinedBlank(l);
    RejoinedBlank(r);
    JoinedAppend(NonEmpty(Parts('_', l)), NonEmpty(Parts('_', r)));
  }

  lemma {:induction false} NoneEmpty(parts: seq<string>)
    ensures forall i :: 0 <= i < |NonEmpty(parts)| ==> NonEmpty(parts)[i] != ""
  {
    if parts != [] { NoneEmpty(parts[1..]); }
  }

  lemma RejoinedBlank(s: string)
    ensures Rejoined(s) == "" <==> NonEmpty(Parts('_', s)) == []
  {
    hide Parts;
    NoneEmpty(Parts('_', s));
  }

  lemma {:induction false} JoinedAppend(a: seq<string>, b: seq<string>)
    ensures a != [] && b != [] ==> Joined('_', a + b) == Joined('_', a) + "_" + Joined('_', b)
    ensures a == [] ==> a + b == b
    ensures b == [] ==> a + b == a
  {
    if |a| == 1 && b != [] {
      assert (a + b)[1..] == b;
    } else if |a| > 1 {
      JoinedAppend(a[1..], b);
      assert (a + b)[1..] == a[1..] + b;
    }
  }

  /** Only capitals are ever cut off: where none comes right after a letter or digit, a name is
  put in small letters and loses its needless underscores. */
  lemma OnlyCapitalsAreCut(name: string)
    requires forall i :: 0 < i < |name| && Upper(name[i]) ==> !Alnum(name[i - 1])
    ensures NormalizeName(name) == Rejoined(LowerAll(name))
  {
    NormalizedRejoins(name);
    Uncut(name, 0);
    assert name[0..] == name;
  }

  lemma {:induction false} Uncut(s: string, i: nat)
    requires i <= |s| && forall k :: 0 < k < |s| && Upper(s[k]) ==> !Alnum(s[k - 1])
    ensures Broken(s, i) == s[i..]
    decreases |s| - i
  {
    if i < |s| {
      Uncut(s, i + 1);
      assert s[i..] == [s[i]] + s[i + 1..];
    }
  }

  /** A run of capitals ends before the capital of the next word. */
  lemma AcronymIsCut()
    ensures NormalizeName("HTTPServer") == "http_server"
  {
    hide NormalizeName;
    AcronymWords();
    hide Word, Follows;
    Two("HTTP", "Server", "http", "server");
    assert "HTTP" + "Server" == "HTTPServer" && "http" + "_" + "server" == "http_server";
  }

  lemma AcronymWords()
    ensures Word("HTTP") && Word("Server") && Follows("HTTP", "Server")
  {
  }

  lemma TodoWords()
    ensures Word("Todo") && Word("List") && Follows("Todo", "List")
  {
  }

  /** The documentation's first example. */
  lemma TodoListIsCut()
    ensures NormalizeName("TodoList") == "todo_list"
  {
    hide NormalizeName;
    TodoWords();
    hide Word, Follows;
    Two("Todo", "List", "todo", "list");
    assert "Todo" + "List" == "TodoList" && "todo" + "_" + "list" == "todo_list";
  }

  lemma Two(v: string, w: string, x: string, y: string)
    requires Word(v) && Word(w) && Follows(v, w) && |x| == |v| && |y| == |w|
    requires forall i :: 0 <= i < |v| ==> x[i] == ToLower(v[i])
    requires forall i :: 0 <= i < |w| ==> y[i] == ToLower(w[i])
    ensures NormalizeName(v + w) == x + "_" + y
  {
    CamelCaseSplits([v, w]);
    LowerAllBare(v);
    LowerAllBare(w);
    hide NormalizeName, Word, Follows, LowerAll, Bare;
    assert LowerAll(v) == x && LowerAll(w) == y;
    assert [v, w][1..] == [w] && [w][1..] == [];
    assert Concat([w]) == w + "" && Concat([v, w]) == v + w;
    assert LowerEach([v, w]) == [x, y] && [x, y][1..] == [y];
    assert Joined('_', [x, y]) == x + ['_'] + y;
  }

  // ----- pascal_case -----

  function Raised(w: string): string {
    if w == "" then "" else [ToUpper(w[0])] + w[1..]
  }

  function RaisedEach(ws: seq<string>): (r: seq<string>)
    ensures |r| == |ws| && forall i :: 0 <= i < |ws| ==> r[i] == Raised(ws[i])
  {
    seq(|ws|, i requires 0 <= i < |ws| => Raised(ws[i]))
  }

  predicate Small(s: string) {
    forall i :: 0 <= i < |s| ==> Lower(s[i]) || Digit(s[i]) || s[i] == '_'
  }

  /** Whatever is no letter or digit read as an underscore. */
  function Masked(s: string): string {
    if s == "" then "" else [if Alnum(s[0]) then s[0] else '_'] + Masked(s[1..])
  }

  lemma {:induction false} MaskedSmall(s: string)
    requires Small(s)
    ensures Masked(s) == s
  {
    if s != "" { MaskedSmall(s[1..]); }
  }

  /** Some parts in Pascal case, the first of them from its start or from inside. */
  function PascalOf(parts: seq<string>, start: bool): string
    requires parts != []
  {
    (if start then Raised(parts[0]) else parts[0]) + Concat(RaisedEach(parts[1..]))
  }

  lemma PascalOfUnderscore(rest: seq<string>, start: bool)
    requires rest != []
    ensures PascalOf([""] + rest, start) == PascalOf(rest, true)
  {
    assert ([""] + rest)[1..] == rest;
    ConcatUnfold(rest);
  }

  lemma PascalOfLetter(x: char, rest: seq<string>, start: bool)
    requires rest != []
    ensures PascalOf([[x] + rest[0]] + rest[1..], start) == [if start then ToUpper(x) else x] + PascalOf(rest, false)
  {
    hide ToUpper;
    var c := if start then ToUpper(x) else x;
    assert ([[x] + rest[0]] + rest[1..])[1..] == rest[1..];
    assert ([x] + rest[0])[1..] == rest[0];
    assert ([c] + rest[0]) + Concat(RaisedEach(rest[1..])) == [c] + (rest[0] + Concat(RaisedEach(rest[1..])));
  }

  lemma {:induction false} PascalParts(s: string, start: bool)
    ensures Pascal(s, start) == PascalOf(Parts('_', Masked(s)), start)
  {
    hide ToUpper;
    if s == "" {
      assert Parts('_', "") == [""] && RaisedEach([]) == [] && [""][1..] == [];
    } else {
      hide PascalOf;
      var x, t := if Alnum(s[0]) then s[0] else '_', s[1..];
      var rest := Parts('_', Masked(t));
      PartsCons('_', x, Masked(t));
      PascalParts(t, x == '_');
      PascalOfUnderscore(rest, start);
      PascalOfLetter(x, rest, start);
      hide Parts;
    }
  }

  /** Every word with its first letter raised, and nothing else changed. */
  lemma PascalRaisesWords(s: string)
    ensures PascalCase(s) == Concat(RaisedEach(Parts('_', Masked(s))))
  {
    hide Parts;
    PascalParts(s, true);
    ConcatUnfold(Parts('_', Masked(s)));
  }

  /** Where one word ends stays visible in Pascal case. */
  predicate Apart(v: string, w: string)
    requires v != "" && w != ""
  {
    Lower(w[0]) && (|v| == 1 && Lower(v[0]) ==> |w| >= 2 && Lower(w[1]))
  }

  predicate Distinguished(parts: seq<string>)
    requires "" !in parts
  {
    forall i :: 0 < i < |parts| ==> Apart(parts[i - 1], parts[i])
  }

  lemma {:induction false} SameLengthsSame(a: seq<string>, b: seq<string>)
    requires |a| == |b| && Concat(a) == Concat(b) && forall i :: 0 <= i < |a| ==> |a[i]| == |b[i]|
    ensures a == b
  {
    if a != [] {
      assert Concat(a)[..|a[0]|] == a[0] && Concat(b)[..|b[0]|] == b[0];
      assert Concat(a)[|a[0]|..] == Concat(a[1..]) && Concat(b)[|b[0]|..] == Concat(b[1..]);
      SameLengthsSame(a[1..], b[1..]);
    }
  }

  lemma RaisedWord(w: string)
    requires w != "" && Small(w) && '_' !in w
    ensures Word(Raised(w)) && LowerAll(Raised(w)) == w
  {
    RaisedAt(w);
    RaisedLower(w);
    hide LowerAll;
  }

  lemma RaisedAt(w: string)
    requires w != "" && Small(w) && '_' !in w
    ensures |Raised(w)| == |w| && forall i :: 0 <= i < |w| ==>
      (Lower(w[i]) || Digit(w[i])) && Raised(w)[i] == if i == 0 then ToUpper(w[i]) else w[i]
  {
    forall i | 0 <= i < |w| ensures Lower(w[i]) || Digit(w[i]) {
      assert w[i] in w;
    }
    assert Raised(w)[1..] == w[1..];
  }

  lemma RaisedLower(w: string)
    requires w != "" && Small(w) && '_' !in w
    ensures LowerAll(Raised(w)) == w
  {
    RaisedAt(w);
    LowerAllBare(Raised(w));
    hide LowerAll, Bare, Raised, Small;
    assert forall i :: 0 <= i < |w| ==> ToLower(Raised(w)[i]) == w[i];
  }

  lemma RaisedFollow(v: string, w: string)
    requires v != "" && Small(v) && '_' !in v && w != "" && Small(w) && '_' !in w
    ensures Follows(Raised(v), Raised(w)) <==> Apart(v, w)
  {
    var last := |v| - 1;
    assert v[last] in v && w[0] in w;
    assert Raised(v)[last] == if last == 0 then ToUpper(v[0]) else v[last];
    assert |w| >= 2 ==> Raised(w)[1] == w[1];
  }

  lemma {:induction false} PartsOfSmall(s: string)
    requires Small(s)
    ensures forall i :: 0 <= i < |Parts('_', s)| ==> Small(Parts('_', s)[i])
  {
    if s != "" { PartsOfSmall(s[1..]); }
  }

  lemma {:induction false} ConcatAlnum(ws: seq<string>)
    requires forall i :: 0 <= i < |ws| ==> Word(ws[i])
    ensures forall i :: 0 <= i < |Concat(ws)| ==> Alnum(Concat(ws)[i])
    ensures ws != [] ==> Concat(ws) != ""
  {
    if ws != [] { ConcatAlnum(ws[1..]); }
  }

  /** Going to Pascal case and back is the identity exactly when every word after the first
  begins with a letter, and none after a single letter could be taken for more of it. */
  lemma PascalRoundTripExactly(s: string)
    requires s != "" && Normal(s) && Small(s)
    ensures "" !in Parts('_', s)
    ensures NormalizeName(PascalCase(s)) == s <==> Distinguished(Parts('_', s))
  {
    hide NormalizeName, Pascal, Normal, Joined, Parts, Small, Word, Concat, Follows, Apart, Raised;
    var parts := Parts('_', s);
    assert Tight(s) by { NormalMeansTight(s); }
    PartsRejoin('_', s);
    PartsOfSmall(s);
    AllNonEmpty(s);
    var ws := RaisedEach(parts);
    forall i | 0 <= i < |parts| ensures Word(ws[i]) && LowerAll(ws[i]) == parts[i] && |ws[i]| == |parts[i]| {
      RaisedWord(parts[i]);
    }
    PascalRaisesWords(s);
    MaskedSmall(s);
    forall i | 0 < i < |parts| ensures Follows(ws[i - 1], ws[i]) <==> Apart(parts[i - 1], parts[i]) {
      RaisedFollow(parts[i - 1], parts[i]);
    }
    assert Distinguished(parts) <==> CamelWords(ws);
    if CamelWords(ws) {
      CamelCaseSplits(ws);
      assert LowerEach(ws) == parts;
    }
    if NormalizeName(PascalCase(s)) == s {
      ConcatAlnum(ws);
      var found := EveryNameSplits(Concat(ws));
      SplitIsUnique(found, parts, s);
      SameLengthsSame(found, ws);
    }
  }

  lemma SplitIsUnique(found: seq<string>, parts: seq<string>, s: string)
    requires CamelWords(found) && NormalizeName(Concat(found)) == s && parts == Parts('_', s)
    ensures |found| == |parts| && forall i :: 0 <= i < |parts| ==> |found[i]| == |parts[i]|
  {
    CamelCaseSplits(found);
    var lower := LowerEach(found);
    forall i | 0 <= i < |found| ensures '_' !in lower[i] && |lower[i]| == |found[i]| {
      LowerWord(found[i]);
    }
    PartsOfJoined('_', lower);
  }

  lemma ConcatUnfold(parts: seq<string>)
    requires parts != []
    ensures Concat(RaisedEach(parts)) == Raised(parts[0]) + Concat(RaisedEach(parts[1..]))
  {
    assert RaisedEach(parts)[1..] == RaisedEach(parts[1..]);
  }

  lemma NormalMeansTight(s: string)
    requires Normal(s)
    ensures Tight(s)
  {
  }

  lemma AllNonEmpty(s: string)
    requires Tight(s) && s != ""
    ensures "" !in Parts('_', s)
  {
    TightTail(s);
    assert Parts('_', s) == [Parts('_', s)[0]] + Parts('_', s)[1..];
  }

  // ----- py_identifier -----

  /** Every character that is no word character read as an underscore. */
  function Underscored(u: Unicode, raw: string): string {
    if raw == "" then "" else [if u.Word(raw[0]) then raw[0] else '_'] + Underscored(u, raw[1..])
  }

  lemma {:induction false} SquashParts(u: Unicode, raw: string, inRun: bool)
    ensures Parts('_', Squash(u, raw, false))[0] == Parts('_', Underscored(u, raw))[0]
    ensures NonEmpty(Parts('_', Squash(u, raw, false))[1..]) == NonEmpty(Parts('_', Underscored(u, raw))[1..])
    ensures inRun ==> NonEmpty(Parts('_', Squash(u, raw, true))) == NonEmpty(Parts('_', Underscored(u, raw)))
  {
    if raw != "" {
      var t := raw[1..];
      SquashParts(u, t, true);
      var plain, squashed, running := Parts('_', Underscored(u, t)), Parts('_', Squash(u, t, false)), Parts('_', Squash(u, t, true));
      assert Underscored(u, raw)[1..] == Underscored(u, t);
      assert NonEmpty(plain) == (if plain[0] == "" then [] else [plain[0]]) + NonEmpty(plain[1..]);
      assert NonEmpty(squashed) == (if squashed[0] == "" then [] else [squashed[0]]) + NonEmpty(squashed[1..]);
      if u.Word(raw[0]) {
        assert Squash(u, raw, false) == Squash(u, raw, true);
        assert Squash(u, raw, false)[1..] == Squash(u, t, false);
        if raw[0] == '_' {
          assert Parts('_', Squash(u, raw, false))[1..] == squashed && Parts('_', Underscored(u, raw))[1..] == plain;
        } else {
          assert Parts('_', Squash(u, raw, false))[1..] == squashed[1..];
          assert Parts('_', Underscored(u, raw))[1..] == plain[1..];
        }
      } else {
        assert Squash(u, raw, true) == Squash(u, t, true);
        assert Squash(u, raw, false)[1..] == Squash(u, t, true);
        assert Parts('_', Squash(u, raw, false))[1..] == running && Parts('_', Underscored(u, raw))[1..] == plain;
      }
    }
  }

  /** An identifier keeps the word characters in their order, each run of separators between
  them as one underscore. */
  lemma CleanedRejoins(u: Unicode, raw: string)
    ensures Cleaned(u, raw) == Rejoined(Underscored(u, raw))
  {
    hide Squash, Underscored, Parts, Collapse, RightStrip, LeftStrip;
    var s := Squash(u, raw, false);
    CleanedIsClean(u, raw);
    TightIsRejoined(Cleaned(u, raw));
    CollapseRejoins(RightStrip(LeftStrip(s)));
    RightStripRejoins(LeftStrip(s));
    LeftStripRejoins(s);
    SquashParts(u, raw, true);
  }

  /** What is a legal identifier then stays as it is; a keyword gets an underscore behind it, and
  a digit at the start, or nothing at all, an `x` in front. */
  lemma PyIdentifierKeeps(u: Unicode, raw: string)
    ensures var kept, r := Rejoined(Underscored(u, raw)), PyIdentifier(u, raw);
      && (LegalIdentifier(u, kept) ==> r == kept)
      && (kept in KEYWORDS ==> r == kept + "_")
      && (kept == "" || u.IsDigit(kept[0]) ==> r == "x" + kept)
      && (LegalIdentifier(u, kept) || kept in KEYWORDS || kept == "" || u.IsDigit(kept[0]))
  {
    hide Rejoined, Underscored, Cleaned;
    CleanedRejoins(u, raw);
    CleanedIsClean(u, raw);
    FencedKeeps(u, Cleaned(u, raw));
  }

  predicate NotBasic(c: char) {
    Digit(c) || !Ascii(c)
  }

  lemma FencedKeeps(u: Unicode, kept: string)
    requires Clean(u, kept)
    ensures kept in KEYWORDS ==> Fenced(u, kept) == kept + "_"
    ensures kept == "" || u.IsDigit(kept[0]) ==> Fenced(u, kept) == "x" + kept
    ensures kept in KEYWORDS || kept == "" || u.IsDigit(kept[0]) || LegalIdentifier(u, kept)
    ensures LegalIdentifier(u, kept) ==> Fenced(u, kept) == kept
  {
    if kept == "" {
      FencedNothing(u);
    } else if u.IsDigit(kept[0]) {
      NoKeywordStartsSo(kept);
      NoKeywordGoesOnSo("x" + kept);
    }
  }

  lemma FencedNothing(u: Unicode)
    ensures Fenced(u, "") == "x" && "" !in KEYWORDS
  {
  }

  lemma NoKeywordStartsSo(s: string)
    requires s != "" && NotBasic(s[0])
    ensures s !in KEYWORDS
  {
  }

  lemma NoKeywordGoesOnSo(s: string)
    requires |s| >= 2 && NotBasic(s[1])
    ensures s !in KEYWORDS
  {
  }

  // ----- Generated names in a build of several domains -----

  lemma SameBehind(a: string, b: string, behind: string)
    requires a + behind == b + behind
    ensures a == b
  {
    assert |a| == |b|;
    assert (a + behind)[..|a|] == a && (b + behind)[..|b|] == b;
  }

  lemma TableOfDomain(name: string, a: string, b: string)
    requires a != b
    ensures TableName(name, a, true) != TableName(name, b, true)
  {
    hide Pluralize;
    if TableName(name, a, true) == TableName(name, b, true) {
      SameBehind(a + "_", b + "_", Pluralize(name));
      SameBehind(a, b, "_");
    }
  }

  /** Entities of one name in two domains get two modules in a build of several domains; in a
  build of one the domain does not show. */
  lemma ModulesTellApart(u: Unicode, name: string, a: string, b: string, multi: bool)
    requires a != b
    ensures ModuleSlug(u, name, a, multi) == ModuleSlug(u, name, b, multi) <==> !multi
  {
    hide PyIdentifier;
    if multi && ModuleSlug(u, name, a, true) == ModuleSlug(u, name, b, true) {
      SameBehind(a + "_", b + "_", PyIdentifier(u, name));
      SameBehind(a, b, "_");
    }
  }

  /** A name whose words can be told apart in Pascal case. */
  predicate Reversible(s: string) {
    var parts := Parts('_', s);
    s != "" && Normal(s) && Small(s) && "" !in parts && Distinguished(parts)
  }

  /** And, of such names, two classes; two of them in one domain get different classes always. */
  lemma ClassesTellApart(a: string, b: string, other: string, multi: bool)
    requires Reversible(a) && Reversible(b) && a != b
    ensures ClassName(other, a, multi) == ClassName(other, b, multi) <==> !multi
    ensures ClassName(a, other, multi) != ClassName(b, other, multi)
  {
    PascalRoundTripExactly(a);
    PascalRoundTripExactly(b);
    hide PascalCase, NormalizeName, Normal, Small, Distinguished, Parts;
    assert PascalCase(a) != PascalCase(b);
    if multi && ClassName(other, a, multi) == ClassName(other, b, multi) {
      SameBehind(PascalCase(a), PascalCase(b), PascalCase(other));
    }
    var front := if multi then PascalCase(other) else "";
    assert ClassName(a, other, multi) == front + PascalCase(a);
    assert ClassName(b, other, multi) == front + PascalCase(b);
    assert (front + PascalCase(a))[|front|..] == PascalCase(a);
    assert (front + PascalCase(b))[|front|..] == PascalCase(b);
  }

  // ----- pluralize -----

  predicate Hisses(s: string) {
    && s != ""
    && (s[|s| - 1] == 's' || s[|s| - 1] == 'x' || s[|s| - 1] == 'z'
        || (|s| >= 2 && (s[|s| - 2..] == "sh" || s[|s| - 2..] == "ch")))
  }

  predicate EndsInConsonantY(s: string) {
    |s| >= 2 && s[|s| - 1] == 'y' && s[|s| - 2] !in {'a', 'e', 'i', 'o', 'u'}
  }

  /** One name with an `e` more: `box` and `boxe`, `city` and `citie`. */
  predicate Homonym(a: string, b: string) {
    (Hisses(a) && b == a + "e") || (EndsInConsonantY(a) && b == a[..|a| - 1] + "ie")
  }

  /** The tables of different names of one domain clash exactly in these two cases. */
  lemma TablesClashExactly(a: string, b: string, domain: string, multi: bool)
    requires a != b
    ensures TableName(a, domain, multi) == TableName(b, domain, multi) <==> Homonym(a, b) || Homonym(b, a)
  {
    hide Pluralize;
    PluralsClashExactly(a, b);
    if multi {
      var front := domain + "_";
      assert (front + Pluralize(a))[|front|..] == Pluralize(a);
      assert (front + Pluralize(b))[|front|..] == Pluralize(b);
    }
  }

  lemma PluralIs(s: string)
    ensures EndsInConsonantY(s) ==> Pluralize(s) == s[..|s| - 1] + "ies"
    ensures Hisses(s) ==> Pluralize(s) == s + "es"
    ensures !EndsInConsonantY(s) && !Hisses(s) ==> Pluralize(s) == s + "s"
    ensures !(EndsInConsonantY(s) && Hisses(s))
  {
    assert forall c :: c in "aeiou" <==> c in {'a', 'e', 'i', 'o', 'u'};
    assert forall c :: c in "sxz" <==> c == 's' || c == 'x' || c == 'z';
    assert forall c :: c in "sc" <==> c == 's' || c == 'c';
    if |s| >= 2 { assert s[|s| - 2..] == [s[|s| - 2], s[|s| - 1]]; }
  }

  lemma PluralsClashExactly(a: string, b: string)
    requires a != b
    ensures Pluralize(a) == Pluralize(b) <==> Homonym(a, b) || Homonym(b, a)
  {
    PluralIs(a);
    PluralIs(b);
    StemsClash(a, b);
    StemsClash(b, a);
    EndsInVowel(a);
    EndsInVowel(b);
    hide Pluralize, Hisses, EndsInConsonantY;
  }

  lemma EndsInVowel(s: string)
    ensures s != "" && (s[|s| - 1] == 'e' || s[|s| - 1] == 'i') ==> !Hisses(s) && !EndsInConsonantY(s)
  {
    if |s| >= 2 { assert s[|s| - 2..][1] == s[|s| - 1]; }
  }

  lemma StemsClash(a: string, b: string)
    ensures a + "s" == b + "s" <==> a == b
    ensures a + "es" == b + "es" <==> a == b
    ensures a + "es" == b + "s" <==> b == a + "e"
    ensures EndsInConsonantY(a) ==> (a[..|a| - 1] + "ies" == b + "s" <==> b == a[..|a| - 1] + "ie")
    ensures EndsInConsonantY(a) ==> (a[..|a| - 1] + "ies" == b + "es" <==> b == a[..|a| - 1] + "i")
    ensures EndsInConsonantY(a) && EndsInConsonantY(b) ==> (a[..|a| - 1] + "ies" == b[..|b| - 1] + "ies" <==> a == b)
  {
    Cancel(a, b, "s");
    Cancel(a, b, "es");
    assert a + "es" == (a + "e") + "s";
    Cancel(a + "e", b, "s");
    if EndsInConsonantY(a) {
      var stem := a[..|a| - 1];
      assert stem + "ies" == (stem + "ie") + "s" == (stem + "i") + "es";
      Cancel(stem + "ie", b, "s");
      Cancel(stem + "i", b, "es");
      if EndsInConsonantY(b) {
        Cancel(stem, b[..|b| - 1], "ies");
        assert a == stem + "y" && b == b[..|b| - 1] + "y";
      }
    }
  }

  lemma Cancel(a: string, b: string, behind: string)
    ensures a + behind == b + behind <==> a == b
  {
    if a + behind == b + behind { SameBehind(a, b, behind); }
  }
}
