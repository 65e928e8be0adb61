/** Workflows recovered from a code base: `extractor/models.py`, the detection in
`extractor/cross_ref.py`, the checks of `factory/emitters/workflow_emitter.py`, and what the
compiler's validator then says of the machine. */
module ExtractedWorkflows {
  import opened Collections
  import opened Splitting
  import opened Naming
  import opened Normalizer
  import NamePieces
  import Ir
  import Semantics
  import Coherence

  // ----- safe_contract_name -----

  predicate Plain(c: char) {
    Lower(c) || Digit(c) || c == '_'
  }

  /** `re.sub(r"[^a-z0-9_]+", "_", candidate)` */
  function Scrub(s: string, inRun: bool): string {
    if s == "" then ""
    else if Plain(s[0]) then [s[0]] + Scrub(s[1..], false)
    else (if inRun then "" else "_") + Scrub(s[1..], true)
  }

  function Candidate(raw: string): string {
    RightStrip(LeftStrip(Collapse(Scrub(LowerAll(NormalizeName(raw)), false))))
  }

  /** `^[a-z][a-z0-9_]*$` */
  predicate Legal(s: string) {
    s != "" && Lower(s[0]) && forall i :: 0 <= i < |s| ==> Plain(s[i])
  }

  function SafeName(raw: string, fallback: string): string {
    var candidate := Candidate(raw);
    if candidate == "" then fallback
    else
      var named := if Digit(candidate[0]) then fallback + "_" + candidate else candidate;
      if Legal(named) then named else fallback
  }

  lemma {:induction false} ScrubPlain(s: string, inRun: bool)
    ensures forall c <- Scrub(s, inRun) :: Plain(c)
  {
    if s != "" { ScrubPlain(s[1..], !Plain(s[0])); }
  }

  lemma CandidateIsNormal(raw: string)
    ensures Normal(Candidate(raw)) && forall i :: 0 <= i < |Candidate(raw)| ==> Plain(Candidate(raw)[i])
    ensures Bare(Candidate(raw)) == Bare(Scrub(LowerAll(NormalizeName(raw)), false))
  {
    var scrubbed := Scrub(LowerAll(NormalizeName(raw)), false);
    ScrubPlain(LowerAll(NormalizeName(raw)), false);
    forall i | 0 <= i < |scrubbed| ensures !Upper(scrubbed[i]) { assert scrubbed[i] in scrubbed; }
    CollapseTame(scrubbed);
    LeftStripNormal(Collapse(scrubbed));
    RightStripNormal(LeftStrip(Collapse(scrubbed)));
    forall i | 0 <= i < |Candidate(raw)| ensures Plain(Candidate(raw)[i]) {
      assert Candidate(raw)[i] in scrubbed;
    }
  }

  lemma {:induction false} NothingToScrub(s: string)
    requires forall i :: 0 <= i < |s| ==> Plain(s[i])
    ensures Scrub(s, false) == s
  {
    if s != "" { NothingToScrub(s[1..]); }
  }

  /** A legal, normal name is its own candidate. */
  lemma CandidateFixed(s: string)
    requires Legal(s) && Normal(s)
    ensures Candidate(s) == s && forall fallback :: SafeName(s, fallback) == s
  {
    NormalIffFixed(s);
    NothingToLower(s);
    NothingToScrub(s);
    CollapseCleanString(s);
  }

  predicate FallbackOk(fallback: string) {
    fallback == "" || (Legal(fallback) && Normal(fallback))
  }

  /** The result is a legal name, or the fallback; a legal one is left alone when it is made
  safe again, whatever the fallback then. */
  lemma SafeNameIsSafe(raw: string, fallback: string)
    requires FallbackOk(fallback)
    ensures var r := SafeName(raw, fallback);
      (Legal(r) && Normal(r)) || r == fallback
  {
    CandidateIsNormal(raw);
    var candidate := Candidate(raw);
    if candidate != "" && Digit(candidate[0]) && fallback != "" {
      var named := fallback + "_" + candidate;
      forall i | 0 < i < |named| ensures !(named[i - 1] == '_' && named[i] == '_') {
        if i > |fallback| + 1 {
          assert named[i - 1] == candidate[i - |fallback| - 2] && named[i] == candidate[i - |fallback| - 1];
        }
      }
    }
  }

  /** Every character that is no small letter, digit or underscore read as an underscore. */
  function Plainly(s: string): string {
    if s == "" then "" else [if Plain(s[0]) then s[0] else '_'] + Plainly(s[1..])
  }

  lemma {:induction false} ScrubParts(s: string)
    ensures Parts('_', Scrub(s, false))[0] == Parts('_', Plainly(s))[0]
    ensures NamePieces.NonEmpty(Parts('_', Scrub(s, false))[1..]) == NamePieces.NonEmpty(Parts('_', Plainly(s))[1..])
    ensures NamePieces.NonEmpty(Parts('_', Scrub(s, true))) == NamePieces.NonEmpty(Parts('_', Plainly(s)))
  {
    if s != "" {
      var t := s[1..];
      ScrubParts(t);
      var plain, scrubbed := Parts('_', Plainly(t)), Parts('_', Scrub(t, false));
      NamePieces.NonEmptyCons(plain[0], plain[1..]);
      NamePieces.NonEmptyCons(scrubbed[0], scrubbed[1..]);
      assert plain == [plain[0]] + plain[1..] && scrubbed == [scrubbed[0]] + scrubbed[1..];
      NamePieces.PartsCons('_', if Plain(s[0]) then s[0] else '_', Plainly(t));
      if Plain(s[0]) {
        NamePieces.PartsCons('_', s[0], Scrub(t, false));
        ScrubbedFirst(s[0], plain, scrubbed);
      } else {
        NamePieces.PartsCons('_', '_', Scrub(t, true));
        assert Scrub(s, false) == ['_'] + Scrub(t, true) && Scrub(s, true) == Scrub(t, true);
        NamePieces.EmptyInFront(plain);
      }
    }
  }

  /** One more character in front keeps two lists of parts alike. */
  lemma ScrubbedFirst(c: char, plain: seq<string>, scrubbed: seq<string>)
    requires plain != [] && scrubbed != [] && plain[0] == scrubbed[0]
    requires NamePieces.NonEmpty(plain[1..]) == NamePieces.NonEmpty(scrubbed[1..])
    ensures var a, b := [[c] + plain[0]] + plain[1..], [[c] + scrubbed[0]] + scrubbed[1..];
      NamePieces.NonEmpty(a) == NamePieces.NonEmpty(b) && NamePieces.NonEmpty(a[1..]) == NamePieces.NonEmpty(b[1..])
    ensures NamePieces.NonEmpty([""] + plain) == NamePieces.NonEmpty([""] + scrubbed)
  {
    NamePieces.NonEmptyCons(plain[0], plain[1..]);
    NamePieces.NonEmptyCons(scrubbed[0], scrubbed[1..]);
    NamePieces.NonEmptyCons([c] + plain[0], plain[1..]);
    NamePieces.NonEmptyCons([c] + scrubbed[0], scrubbed[1..]);
    NamePieces.EmptyInFront(plain);
    NamePieces.EmptyInFront(scrubbed);
    assert plain == [plain[0]] + plain[1..] && scrubbed == [scrubbed[0]] + scrubbed[1..];
    assert ([[c] + plain[0]] + plain[1..])[1..] == plain[1..];
    assert ([[c] + scrubbed[0]] + scrubbed[1..])[1..] == scrubbed[1..];
  }

  lemma CandidateRejoins(raw: string)
    ensures Candidate(raw) == NamePieces.Rejoined(Plainly(NormalizeName(raw)))
  {
    hide NormalizeName, Scrub, Plainly, Collapse, LeftStrip, RightStrip, Parts, NamePieces.NonEmpty;
    NormalizeNameIsNormal(raw);
    NothingToLower(NormalizeName(raw));
    var s := Scrub(NormalizeName(raw), false);
    CandidateIsNormal(raw);
    NamePieces.TightIsRejoined(Candidate(raw));
    NamePieces.RightStripRejoins(LeftStrip(Collapse(s)));
    NamePieces.LeftStripRejoins(Collapse(s));
    NamePieces.CollapseRejoins(s);
    ScrubParts(NormalizeName(raw));
    SameRejoined(s, Plainly(NormalizeName(raw)));
  }

  lemma SameRejoined(a: string, b: string)
    requires Parts('_', a)[0] == Parts('_', b)[0]
    requires NamePieces.NonEmpty(Parts('_', a)[1..]) == NamePieces.NonEmpty(Parts('_', b)[1..])
    ensures NamePieces.Rejoined(a) == NamePieces.Rejoined(b)
  {
    hide Parts, Joined;
    var p, q := Parts('_', a), Parts('_', b);
    NamePieces.NonEmptyCons(p[0], p[1..]);
    NamePieces.NonEmptyCons(q[0], q[1..]);
    assert p == [p[0]] + p[1..] && q == [q[0]] + q[1..];
  }

  /** What a name comes to: the normalised words without other characters; with the fallback in
  front where they start with a digit and it makes them legal; the fallback for nothing. */
  lemma SafeNameExactly(raw: string, fallback: string)
    ensures var kept, r := NamePieces.Rejoined(Plainly(NormalizeName(raw))), SafeName(raw, fallback);
      && (Legal(kept) ==> r == kept)
      && (kept == "" ==> r == fallback)
      && (kept != "" && !Legal(kept) ==>
            Digit(kept[0]) && r == if fallback != "" && Legal(fallback) then fallback + "_" + kept else fallback)
  {
    hide NamePieces.Rejoined, Plainly, NormalizeName, Candidate;
    CandidateRejoins(raw);
    CandidateIsNormal(raw);
    var kept := Candidate(raw);
    LegalInFront(fallback, kept);
  }

  lemma LegalInFront(fallback: string, kept: string)
    requires forall i :: 0 <= i < |kept| ==> Plain(kept[i])
    ensures Legal(fallback + "_" + kept) <==> Legal(fallback)
  {
    var named := fallback + "_" + kept;
    if fallback == "" {
      assert named[0] == '_';
    } else {
      assert named[0] == fallback[0] && forall i :: 0 <= i < |fallback| ==> named[i] == fallback[i];
    }
  }

  /** The first ASCII letter or digit, in lower case. */
  function First(s: string): Option<char> {
    if s == "" then None else if Alnum(s[0]) then Some(ToLower(s[0])) else First(s[1..])
  }

  lemma {:induction false} FirstOfBare(s: string)
    ensures First(Bare(s)) == First(s)
  {
    if s != "" {
      FirstOfBare(s[1..]);
      if s[0] == '_' {
        assert Bare(s) == Bare(s[1..]);
      } else {
        assert Bare(s)[0] == ToLower(s[0]) && Bare(s)[1..] == Bare(s[1..]);
      }
    }
  }

  lemma {:induction false} FirstOfLower(s: string)
    ensures First(LowerAll(s)) == First(s)
    ensures forall c <- LowerAll(s) :: !Upper(c)
  {
    if s != "" {
      FirstOfLower(s[1..]);
      assert LowerAll(s)[1..] == LowerAll(s[1..]);
    }
  }

  lemma {:induction false} FirstOfScrub(s: string, inRun: bool)
    requires forall c <- s :: !Upper(c)
    ensures First(Scrub(s, inRun)) == First(s)
  {
    if s != "" {
      FirstOfScrub(s[1..], !Plain(s[0]));
      assert s[0] in s && forall c <- s[1..] :: c in s;
      var rest := Scrub(s[1..], !Plain(s[0]));
      if Plain(s[0]) {
        assert ([s[0]] + rest)[1..] == rest;
      } else if inRun {
        assert Scrub(s, inRun) == rest;
      } else {
        assert ("_" + rest)[1..] == rest;
      }
    }
  }

  /** A candidate starts with the first letter or digit of the raw name. */
  lemma CandidateStarts(raw: string)
    ensures First(raw) == if Candidate(raw) == "" then None else Some(Candidate(raw)[0])
  {
    var n := NormalizeName(raw);
    var candidate, scrubbed := Candidate(raw), Scrub(LowerAll(n), false);
    CandidateIsNormal(raw);
    FirstOfBare(candidate);
    FirstOfBare(scrubbed);
    FirstOfLower(n);
    FirstOfScrub(LowerAll(n), false);
    NormalizeNameIsNormal(raw);
    FirstOfBare(n);
    FirstOfBare(raw);
  }

  /** The result is a legal name exactly when the fallback is one, or the first ASCII letter or
  digit of the raw name is a letter. */
  lemma SafeNameIsLegalExactly(raw: string, fallback: string)
    requires FallbackOk(fallback)
    ensures Legal(SafeName(raw, fallback))
      <==> fallback != "" || (First(raw).Some? && Lower(First(raw).value))
  {
    SafeNameIsSafe(raw, fallback);
    CandidateStarts(raw);
    CandidateIsNormal(raw);
    assert fallback == "" ==> !Legal(fallback);
    var candidate := Candidate(raw);
    if candidate != "" && Digit(candidate[0]) && fallback == "" {
      assert (fallback + "_" + candidate)[0] == '_';
    }
  }

  /** With the fallback that callers pass, a name of digits has no safe form. */
  lemma DigitsAreNoName()
    ensures SafeName("42", "") == ""
  {
    SafeNameIsLegalExactly("42", "");
    SafeNameIsSafe("42", "");
  }

  lemma SafeNameIdempotent(raw: string, fallback: string)
    requires FallbackOk(fallback)
    ensures SafeName(SafeName(raw, fallback), fallback) == SafeName(raw, fallback)
  {
    SafeNameIsSafe(raw, fallback);
    var r := SafeName(raw, fallback);
    if r != "" {
      CandidateFixed(r);
    } else {
      EmptyIsUnsafe();
    }
  }

  lemma EmptyIsUnsafe()
    ensures Candidate("") == ""
  {
    NormalizeNameIsNormal("");
    assert NormalizeName("") == "";
  }

  // ----- to_emitter_data -----

  datatype Extracted = Extracted(states: seq<string>, initial: string, transitions: Dict<string, seq<string>>)

  datatype State = State(name: string, terminal: bool)

  datatype Spec = Spec(initial: string, states: seq<State>, transitions: Dict<string, seq<string>>)

  /** `[s for s in dict.fromkeys(safe names) if s]` */
  function SafeStates(raw: seq<string>): (states: seq<string>)
    ensures Distinct(states) && "" !in states
  {
    if raw == [] then []
    else
      var before, name := SafeStates(raw[..|raw| - 1]), SafeName(raw[|raw| - 1], "");
      if name == "" then before else Insert(before, name)
  }

  /** The safe names among the targets that are declared, each once. */
  function ValidTargets(targets: seq<string>, declared: seq<string>): (valid: seq<string>)
    ensures Distinct(valid) && forall t <- valid :: t in declared
  {
    if targets == [] then []
    else
      var before, name := ValidTargets(targets[..|targets| - 1], declared), SafeName(targets[|targets| - 1], "");
      if name in declared then Insert(before, name) else before
  }

  /** The recovered table, restricted to declared states; a later row of the same source wins. */
  function Recovered(keys: seq<string>, at: map<string, seq<string>>, declared: seq<string>)
    : (d: Dict<string, seq<string>>)
    requires forall k <- keys :: k in at
    ensures Closed(d, declared)
  {
    if keys == [] then Empty()
    else
      var last := keys[|keys| - 1];
      assert last in keys;
      var before := Recovered(keys[..|keys| - 1], at, declared);
      var source, valid := SafeName(last, ""), ValidTargets(at[last], declared);
      if source in declared && valid != [] then before.Set(source, valid) else before
  }

  /** Each state leads to the next one. */
  function Chain(states: seq<string>): (d: Dict<string, seq<string>>)
    ensures d.Ok()
  {
    if |states| < 2 then Empty()
    else
      var n := |states|;
      Chain(states[..n - 1]).Set(states[n - 2], [states[n - 1]])
  }

  /** Only declared states, and no empty rows. */
  ghost predicate Closed(d: Dict<string, seq<string>>, declared: seq<string>) {
    && d.Ok()
    && forall k <- d.at :: k in declared && d.at[k] != [] && forall t <- d.at[k] :: t in declared
  }

  lemma {:induction false} ChainAt(states: seq<string>, i: nat)
    requires Distinct(states) && i + 1 < |states|
    ensures states[i] in Chain(states).at && Chain(states).at[states[i]] == [states[i + 1]]
  {
    if i + 2 < |states| { ChainAt(states[..|states| - 1], i); }
  }

  lemma {:induction false} ChainOnly(states: seq<string>, k: string)
    requires Distinct(states) && k in Chain(states).at
    ensures exists i :: 0 <= i < |states| - 1 && states[i] == k
  {
    var n := |states|;
    if k == states[n - 2] {
      assert states[n - 2] == k;
    } else {
      ChainOnly(states[..n - 1], k);
      var i :| 0 <= i < n - 2 && states[..n - 1][i] == k;
      assert states[i] == k;
    }
  }

  lemma ChainClosed(states: seq<string>)
    requires Distinct(states)
    ensures Closed(Chain(states), states)
  {
    forall k | k in Chain(states).at
      ensures k in states && Chain(states).at[k] != [] && forall t <- Chain(states).at[k] :: t in states
    {
      ChainOnly(states, k);
      var i :| 0 <= i < |states| - 1 && states[i] == k;
      ChainAt(states, i);
    }
  }

  function Declared(w: Extracted): (states: seq<string>)
    ensures states != [] && Distinct(states)
  {
    var safe := SafeStates(w.states);
    if safe == [] then ["active"] else safe
  }

  function Transitions(w: Extracted): (d: Dict<string, seq<string>>)
    requires w.transitions.Ok()
    ensures d.Ok()
  {
    assert forall k <- w.transitions.keys :: k in Elements(w.transitions.keys);
    var recovered := Recovered(w.transitions.keys, w.transitions.at, Declared(w));
    if recovered.at == map[] && |Declared(w)| > 1 then Chain(Declared(w)) else recovered
  }

  // What is recovered, told by the rows of the table.

  ghost predicate Listed(raw: seq<string>, name: string) {
    exists i :: 0 <= i < |raw| && SafeName(raw[i], "") == name
  }

  lemma ListedAppend(raw: seq<string>, last: string, name: string)
    ensures Listed(raw + [last], name) <==> Listed(raw, name) || SafeName(last, "") == name
  {
    hide SafeName;
    var all := raw + [last];
    assert all[|raw|] == last;
    if i :| 0 <= i < |raw| && SafeName(raw[i], "") == name { assert SafeName(all[i], "") == name; }
    if i :| 0 <= i < |all| && SafeName(all[i], "") == name && i < |raw| { assert SafeName(raw[i], "") == name; }
  }

  /** The targets of a row: the safe names among them that are declared; those of more targets go
  on from those of fewer, so they are in order of first mention. */
  lemma {:induction false} ValidTargetsExactly(targets: seq<string>, declared: seq<string>, n: nat, t: string)
    requires n <= |targets|
    ensures t in ValidTargets(targets, declared) <==> t in declared && Listed(targets, t)
    ensures ValidTargets(targets[..n], declared) <= ValidTargets(targets, declared)
  {
    hide SafeName, Listed;
    if targets == [] {
      assert !Listed(targets, t) by { NothingListed(t); }
    } else {
      var init, last := targets[..|targets| - 1], targets[|targets| - 1];
      ValidTargetsExactly(init, declared, if n < |targets| then n else 0, t);
      ListedAppend(init, last, t);
      assert targets == init + [last];
      if n < |targets| { assert init[..n] == targets[..n]; } else { assert targets[..n] == targets; }
    }
  }

  lemma NothingListed(t: string)
    ensures !Listed([], t)
  {
  }

  lemma {:induction false} SafeStatesExactly(raw: seq<string>, n: nat, t: string)
    requires n <= |raw|
    ensures t in SafeStates(raw) <==> t != "" && Listed(raw, t)
    ensures SafeStates(raw[..n]) <= SafeStates(raw)
  {
    hide SafeName, Listed;
    if raw == [] {
      assert !Listed(raw, t) by { NothingListed(t); }
    } else {
      var init, last := raw[..|raw| - 1], raw[|raw| - 1];
      SafeStatesExactly(init, if n < |raw| then n else 0, t);
      ListedAppend(init, last, t);
      assert raw == init + [last];
      if n < |raw| { assert init[..n] == raw[..n]; } else { assert raw[..n] == raw; }
    }
  }

  /** The states of an extracted workflow are the safe names of its raw ones, in order of first
  mention, or `active` where there is none; the declared initial state stays if it is one. */
  lemma StatesExactly(w: Extracted, n: nat, t: string)
    requires w.transitions.Ok() && n <= |w.states|
    ensures var spec := EmitterData(w); var names := StateNames(spec);
      if forall s :: Listed(w.states, s) ==> s == "" then names == ["active"]
      else (t in names <==> t != "" && Listed(w.states, t)) && SafeStates(w.states[..n]) <= names
    ensures var spec := EmitterData(w); var names, initial := StateNames(spec), SafeName(w.initial, "");
      names != [] && spec.initial == if initial in names then initial else names[0]
  {
    hide Transitions, SafeName, Listed, SafeStates;
    var states := SafeStates(w.states);
    assert StateNames(EmitterData(w)) == Declared(w);
    SafeStatesExactly(w.states, n, t);
    if states == [] {
      forall s | Listed(w.states, s) ensures s == "" { SafeStatesExactly(w.states, n, s); }
    } else {
      SafeStatesExactly(w.states, n, states[0]);
    }
  }

  /** The declared targets of a row. */
  function RowOf(w: Extracted, i: nat): (targets: seq<string>)
    requires w.transitions.Ok() && i < |w.transitions.keys|
  {
    KeyIsThere(w.transitions, i);
    ValidTargets(w.transitions.at[w.transitions.keys[i]], Declared(w))
  }

  /** A row that is kept: its source is declared, and so is one of its targets. */
  predicate Kept(w: Extracted, i: nat)
    requires w.transitions.Ok() && i < |w.transitions.keys|
  {
    SafeName(w.transitions.keys[i], "") in Declared(w) && RowOf(w, i) != []
  }

  lemma KeyIsThere<V>(d: Dict<string, V>, i: nat)
    requires d.Ok() && i < |d.keys|
    ensures d.keys[i] in d.at
  {
    assert d.keys[i] in Elements(d.keys);
  }

  /** The last kept row for a source. */
  ghost predicate LastRow(w: Extracted, source: string, n: nat, i: nat)
    requires w.transitions.Ok() && n <= |w.transitions.keys|
  {
    && i < n && Kept(w, i) && SafeName(w.transitions.keys[i], "") == source
    && forall j :: i < j < n && Kept(w, j) ==> SafeName(w.transitions.keys[j], "") != source
  }

  ghost predicate Holds(w: Extracted, moves: Dict<string, seq<string>>, n: nat, source: string)
    requires w.transitions.Ok() && n <= |w.transitions.keys|
  {
    && (source in moves.at <==> exists i: nat :: LastRow(w, source, n, i))
    && (forall i: nat :: LastRow(w, source, n, i) ==>
          source in moves.at && moves.at[source] == RowOf(w, i))
  }

  lemma HoldsStep(
    w: Extracted, before: Dict<string, seq<string>>, after: Dict<string, seq<string>>, n: nat, source: string)
    requires w.transitions.Ok() && 0 < n <= |w.transitions.keys| && before.Ok()
    requires Holds(w, before, n - 1, source)
    requires after == if Kept(w, n - 1) then before.Set(SafeName(w.transitions.keys[n - 1], ""), RowOf(w, n - 1)) else before
    ensures Holds(w, after, n, source)
  {
    hide Declared, SafeName, ValidTargets, LastRow, Kept;
    var here := Kept(w, n - 1) && SafeName(w.transitions.keys[n - 1], "") == source;
    forall i: nat ensures LastRow(w, source, n, i)
      <==> if i == n - 1 then here else LastRow(w, source, n - 1, i) && !here
    {
      LastRowStep(w, source, n, i);
    }
    assert LastRow(w, source, n, n - 1) <==> here;
    LastRowEarlier(w, source, n - 1, n - 1);
    if !here && source in before.at {
      var i: nat :| LastRow(w, source, n - 1, i);
      assert LastRow(w, source, n, i);
    }
  }

  lemma {:induction false} RecoveredHolds(w: Extracted, n: nat, source: string)
    requires w.transitions.Ok() && n <= |w.transitions.keys|
    requires forall k <- w.transitions.keys :: k in w.transitions.at
    ensures Holds(w, Recovered(w.transitions.keys[..n], w.transitions.at, Declared(w)), n, source)
  {
    hide Declared, SafeName, ValidTargets, LastRow;
    var keys := w.transitions.keys;
    if n == 0 {
      forall i: nat ensures !LastRow(w, source, 0, i) { NoRow(w, source, i); }
      assert keys[..0] == [];
    } else {
      RecoveredHolds(w, n - 1, source);
      assert keys[..n][..n - 1] == keys[..n - 1] && keys[..n][n - 1] == keys[n - 1];
      KeyIsThere(w.transitions, n - 1);
      var before, after := Recovered(keys[..n - 1], w.transitions.at, Declared(w)), Recovered(keys[..n], w.transitions.at, Declared(w));
      assert after == if Kept(w, n - 1) then before.Set(SafeName(keys[n - 1], ""), RowOf(w, n - 1)) else before;
      hide Holds, Recovered, Kept;
      HoldsStep(w, before, after, n, source);
    }
  }

  lemma NoRow(w: Extracted, source: string, i: nat)
    requires w.transitions.Ok()
    ensures !LastRow(w, source, 0, i)
  {
  }

  lemma LastRowEarlier(w: Extracted, source: string, n: nat, i: nat)
    requires w.transitions.Ok() && n <= |w.transitions.keys| && n <= i
    ensures !LastRow(w, source, n, i)
  {
  }

  lemma LastRowStep(w: Extracted, source: string, n: nat, i: nat)
    requires w.transitions.Ok() && 0 < n <= |w.transitions.keys|
    ensures var here := Kept(w, n - 1) && SafeName(w.transitions.keys[n - 1], "") == source;
      LastRow(w, source, n, i) <==> if i == n - 1 then here else LastRow(w, source, n - 1, i) && !here
  {
    hide Kept, SafeName;
  }

  /** A recovered table is kept: a state has a row exactly when one of the rows for it is kept,
  and then that of the last; only when no row is kept does each state lead to the next one. */
  lemma TransitionsExactly(w: Extracted, source: string, i: nat)
    requires w.transitions.Ok()
    ensures var moves, names := EmitterData(w).transitions, Declared(w); var n := |w.transitions.keys|;
      if exists k: nat :: k < n && Kept(w, k) then Holds(w, moves, n, source)
      else
        && (i + 1 < |names| ==> names[i] in moves.at && moves.at[names[i]] == [names[i + 1]])
        && (source in moves.at ==> exists k :: 0 <= k < |names| - 1 && names[k] == source)
  {
    hide Declared, SafeName, ValidTargets, Chain, Recovered;
    var keys, names := w.transitions.keys, Declared(w);
    forall k | k in keys ensures k in w.transitions.at { assert k in Elements(keys); }
    assert keys[..|keys|] == keys;
    RecoveredHolds(w, |keys|, source);
    var recovered := Recovered(keys, w.transitions.at, names);
    if k: nat :| k < |keys| && Kept(w, k) {
      SomeRowLast(w, SafeName(keys[k], ""), |keys|, k);
      RecoveredHolds(w, |keys|, SafeName(keys[k], ""));
    } else {
      if s :| s in recovered.at {
        RecoveredHolds(w, |keys|, s);
      }
      assert recovered.at == map[];
      if |names| > 1 {
        if i + 1 < |names| { ChainAt(names, i); }
        if source in Chain(names).at { ChainOnly(names, source); }
      }
    }
  }

  lemma {:induction false} SomeRowLast(w: Extracted, source: string, n: nat, k: nat)
    requires w.transitions.Ok() && k < n <= |w.transitions.keys|
    requires Kept(w, k) && SafeName(w.transitions.keys[k], "") == source
    ensures exists i: nat :: LastRow(w, source, n, i)
  {
    hide SafeName, Kept;
    if k == n - 1 || (Kept(w, n - 1) && SafeName(w.transitions.keys[n - 1], "") == source) {
      assert LastRow(w, source, n, n - 1);
    } else {
      SomeRowLast(w, source, n - 1, k);
      var i: nat :| LastRow(w, source, n - 1, i);
      assert LastRow(w, source, n, i);
    }
  }

  lemma TransitionsClosed(w: Extracted)
    requires w.transitions.Ok()
    ensures Closed(Transitions(w), Declared(w))
  {
    ChainClosed(Declared(w));
  }

  function MarkTerminal(states: seq<string>, moves: Dict<string, seq<string>>): (r: seq<State>)
    ensures |r| == |states| && forall i :: 0 <= i < |r| ==> r[i] == State(states[i], states[i] !in moves.at)
  {
    seq(|states|, i requires 0 <= i < |states| => State(states[i], states[i] !in moves.at))
  }

  function EmitterData(w: Extracted): Spec
    requires w.transitions.Ok()
  {
    var states, moves, initial := Declared(w), Transitions(w), SafeName(w.initial, "");
    Spec(if initial in states then initial else states[0],
         MarkTerminal(states, moves), moves)
  }

  /** `to_emitter_data`, loop by loop. */
  method ToEmitterData(w: Extracted) returns (spec: Spec)
    requires w.transitions.Ok()
    ensures spec == EmitterData(w)
  {
    hide Recovered, Chain, MarkTerminal, SafeName, SafeStates, Distinct;
    var ordered := OrderedStates(w.states);
    assert ordered == Declared(w);
    var transitions := KnownTransitions(w, ordered);
    if transitions.at == map[] && |ordered| > 1 {
      transitions := ChainStates(ordered);
    }
    assert transitions == Transitions(w);
    var states := MarkStates(ordered, transitions);
    var initial := SafeName(w.initial, "");
    if initial !in ordered {
      initial := ordered[0];
    }
    spec := Spec(initial, states, transitions);
  }

  method MarkStates(ordered: seq<string>, moves: Dict<string, seq<string>>) returns (states: seq<State>)
    ensures states == MarkTerminal(ordered, moves)
  {
    states := [];
    for i := 0 to |ordered|
      invariant |states| == i
      invariant forall k :: 0 <= k < i ==> states[k] == MarkTerminal(ordered, moves)[k]
    {
      states := states + [State(ordered[i], ordered[i] !in moves.at)];
    }
  }

  method OrderedStates(raw: seq<string>) returns (ordered: seq<string>)
    ensures ordered == if SafeStates(raw) == [] then ["active"] else SafeStates(raw)
  {
    ordered := [];
    for i := 0 to |raw|
      invariant ordered == SafeStates(raw[..i])
    {
      assert raw[..i + 1][..i] == raw[..i];
      var name := SafeName(raw[i], "");
      if name != "" && name !in ordered {
        ordered := ordered + [name];
      }
    }
    assert raw[..|raw|] == raw;
    if ordered == [] {
      ordered := ["active"];
    }
  }

  method KnownTransitions(w: Extracted, ordered: seq<string>) returns (moves: Dict<string, seq<string>>)
    requires w.transitions.Ok()
    ensures (forall k <- w.transitions.keys :: k in w.transitions.at)
      && moves == Recovered(w.transitions.keys, w.transitions.at, ordered)
  {
    var keys := w.transitions.keys;
    assert forall k <- keys :: k in Elements(keys);
    moves := Empty();
    for i := 0 to |keys|
      invariant moves.Ok() && (forall k <- keys[..i] :: k in w.transitions.at)
      invariant moves == Recovered(keys[..i], w.transitions.at, ordered)
    {
      assert keys[..i + 1][..i] == keys[..i] && keys[i] in keys;
      var source := SafeName(keys[i], "");
      var valid := DeclaredTargets(w.transitions.at[keys[i]], ordered);
      if source in ordered && valid != [] {
        moves := moves.Set(source, valid);
      }
    }
    assert keys[..|keys|] == keys;
  }

  method DeclaredTargets(targets: seq<string>, ordered: seq<string>) returns (valid: seq<string>)
    ensures valid == ValidTargets(targets, ordered)
  {
    valid := [];
    for i := 0 to |targets|
      invariant valid == ValidTargets(targets[..i], ordered)
    {
      assert targets[..i + 1][..i] == targets[..i];
      var name := SafeName(targets[i], "");
      if name in ordered && name !in valid {
        valid := valid + [name];
      }
    }
    assert targets[..|targets|] == targets;
  }

  method ChainStates(ordered: seq<string>) returns (moves: Dict<string, seq<string>>)
    requires Distinct(ordered) && ordered != []
    ensures moves == Chain(ordered)
  {
    moves := Empty();
    for i := 1 to |ordered|
      invariant moves == Chain(ordered[..i])
    {
      assert ordered[..i + 1][..i] == ordered[..i];
      moves := moves.Set(ordered[i - 1], [ordered[i]]);
    }
    assert ordered[..|ordered|] == ordered;
  }

  // ----- emit_workflow and the validator -----

  function StateNames(spec: Spec): (names: seq<string>)
    ensures |names| == |spec.states| && forall i :: 0 <= i < |names| ==> names[i] == spec.states[i].name
  {
    seq(|spec.states|, i requires 0 <= i < |spec.states| => spec.states[i].name)
  }

  datatype EmitterError = NoStates | InitialUndeclared(initial: string) | Undeclared(names: set<string>)

  /** States that transitions mention but nobody declares. */
  ghost predicate Mentioned(spec: Spec, name: string) {
    || name in spec.transitions.at
    || exists source <- spec.transitions.at :: name in spec.transitions.at[source]
  }

  ghost predicate Missing(spec: Spec, name: string) {
    Mentioned(spec, name) && name !in StateNames(spec)
  }

  /** A source and its targets. */
  function Row(spec: Spec, source: string): seq<string> {
    [source] + spec.transitions.Get(source, [])
  }

  function UndeclaredIn(spec: Spec, source: string, declared: seq<string>): set<string> {
    set n | n in Row(spec, source) && n !in declared
  }

  /** `emit_workflow` refuses exactly the incoherent machines, and names every undeclared state. */
  method EmitWorkflow(spec: Spec) returns (r: Result<Spec, EmitterError>)
    requires spec.transitions.Ok()
    ensures r == Err(NoStates) <==> spec.states == []
    ensures r.Err? && r.error.InitialUndeclared? <==> spec.states != [] && spec.initial !in StateNames(spec)
    ensures r.Err? && r.error.Undeclared? ==> spec.initial in StateNames(spec) && r.error.names != {}
    ensures r.Err? && r.error.Undeclared? ==> forall n :: n in r.error.names <==> Missing(spec, n)
    ensures r.Ok? ==> r.value == spec && spec.initial in StateNames(spec) && forall n :: !Missing(spec, n)
  {
    if spec.states == [] { return Err(NoStates); }
    var declared := StateNames(spec);
    if spec.initial !in declared { return Err(InitialUndeclared(spec.initial)); }
    var undeclared: set<string> := {};
    var keys := spec.transitions.keys;
    assert forall k :: k in keys <==> k in Elements(keys);
    for i := 0 to |keys|
      invariant forall n :: n in undeclared ==> Missing(spec, n)
      invariant forall k, n :: 0 <= k < i && n in Row(spec, keys[k]) && n !in declared ==> n in undeclared
    {
      assert keys[i] in Elements(keys);
      undeclared := undeclared + UndeclaredIn(spec, keys[i], declared);
    }
    if undeclared != {} { return Err(Undeclared(undeclared)); }
    r := Ok(spec);
  }

  /** What `_compile_workflow` makes of the emitted contract. */
  function Compiled(fqn: string, spec: Spec): Ir.Machine {
    Ir.Machine(fqn, spec.initial, StateNames(spec), spec.transitions, [])
  }

  /** A state without a way out. */
  predicate NoWayOut(spec: Spec, name: string) {
    name !in spec.transitions.at || spec.transitions.at[name] == []
  }

  /** Every extracted workflow becomes a machine that the emitter accepts and the validator has
  nothing to say about; a state is marked terminal exactly when nothing leads out of it. */
  lemma ExtractedIsAccepted(w: Extracted, fqn: string)
    requires w.transitions.Ok()
    ensures var spec := EmitterData(w);
      && spec.states != [] && spec.initial in StateNames(spec) && spec.transitions.Ok()
      && (forall n :: !Missing(spec, n))
      && (forall x :: !Semantics.WorkflowError(Compiled(fqn, spec), x))
      && (forall s <- spec.states :: s.terminal <==> NoWayOut(spec, s.name))
      && Distinct(StateNames(spec))
  {
    hide Declared, Transitions;
    var spec := EmitterData(w);
    TransitionsClosed(w);
    assert StateNames(spec) == Declared(w);
    Coherence.MachineIff(Compiled(fqn, spec));
  }

  // ----- Workflows that cross_reference builds -----

  /** Detection: at least two different safe values of the state field. */
  function Detected(values: seq<string>): Option<Extracted> {
    var states := SafeStates(values);
    if |values| >= 2 && |states| >= 2 then Some(Extracted(states, states[0], Empty())) else None
  }

  /** A workflow is detected exactly when two different safe names are among the values. */
  lemma DetectedExactly(values: seq<string>)
    ensures Detected(values).Some? <==>
      exists s, t :: s != "" && t != "" && s != t && Listed(values, s) && Listed(values, t)
  {
    hide SafeName, SafeStates;
    var states := SafeStates(values);
    if |states| >= 2 {
      SafeStatesExactly(values, 0, states[0]);
      SafeStatesExactly(values, 0, states[1]);
      assert states[0] != states[1];
    }
    if s, t :| s != "" && t != "" && s != t && Listed(values, s) && Listed(values, t) {
      SafeStatesExactly(values, 0, s);
      SafeStatesExactly(values, 0, t);
      var i :| 0 <= i < |states| && states[i] == s;
      var j :| 0 <= j < |states| && states[j] == t;
      TwoListed(values, s, t);
    }
  }

  lemma TwoListed(values: seq<string>, s: string, t: string)
    requires s != t && Listed(values, s) && Listed(values, t)
    ensures |values| >= 2
  {
    hide SafeName;
    var i :| 0 <= i < |values| && SafeName(values[i], "") == s;
    var j :| 0 <= j < |values| && SafeName(values[j], "") == t;
    assert i != j;
  }

  lemma {:induction false} SafeStatesAreSafe(raw: seq<string>)
    ensures forall s <- SafeStates(raw) :: SafeName(s, "") == s
  {
    if raw != [] {
      SafeStatesAreSafe(raw[..|raw| - 1]);
      SafeNameIdempotent(raw[|raw| - 1], "");
    }
  }

  lemma {:induction false} SafeStatesFixed(states: seq<string>)
    requires Distinct(states) && "" !in states && forall s <- states :: SafeName(s, "") == s
    ensures SafeStates(states) == states
  {
    if states != [] {
      var init, last := states[..|states| - 1], states[|states| - 1];
      SafeStatesFixed(init);
      assert last in states && last !in init;
    }
  }

  /** Reachable from the initial state in `n` moves. */
  ghost predicate ReachedIn(spec: Spec, name: string, n: nat)
    decreases n
  {
    if n == 0 then name == spec.initial
    else exists source <- spec.transitions.at :: ReachedIn(spec, source, n - 1) && name in spec.transitions.at[source]
  }

  lemma {:induction false} ChainReaches(spec: Spec, names: seq<string>, i: nat)
    requires i < |names| && Distinct(names) && spec.initial == names[0] && spec.transitions == Chain(names)
    ensures ReachedIn(spec, names[i], i)
  {
    hide Chain, Distinct;
    if i > 0 {
      ChainReaches(spec, names, i - 1);
      ChainAt(names, i - 1);
      assert names[i] in spec.transitions.at[names[i - 1]];
    }
  }

  lemma ChainEnds(names: seq<string>, i: nat)
    requires i < |names| && Distinct(names)
    ensures names[i] !in Chain(names).at <==> i == |names| - 1
  {
    hide Chain;
    if i < |names| - 1 {
      ChainAt(names, i);
    } else if names[i] in Chain(names).at {
      ChainOnly(names, names[i]);
    }
  }

  lemma DetectedSpec(values: seq<string>)
    requires Detected(values).Some?
    ensures var spec := EmitterData(Detected(values).value); var names := SafeStates(values);
      && |names| >= 2 && StateNames(spec) == names && spec.initial == names[0] && spec.transitions == Chain(names)
      && spec.states == MarkTerminal(names, Chain(names))
  {
    hide Chain, SafeName;
    var w := Detected(values).value;
    SafeStatesAreSafe(values);
    SafeStatesFixed(w.states);
    assert w.states[0] in w.states;
    var spec := EmitterData(w);
    assert StateNames(spec) == w.states;
  }

  /** A detected workflow keeps its states in order, every state can be reached from the first
  one, and only the last one is terminal. */
  lemma DetectedIsAChain(values: seq<string>)
    requires Detected(values).Some?
    ensures var spec := EmitterData(Detected(values).value); var names := StateNames(spec);
      && names == SafeStates(values) && spec.initial == names[0]
      && (forall i :: 0 <= i < |names| ==> ReachedIn(spec, names[i], i))
      && (forall i :: 0 <= i < |names| ==> (spec.states[i].terminal <==> i == |names| - 1))
  {
    hide Chain, EmitterData, ReachedIn, StateNames, SafeStates;
    DetectedSpec(values);
    var spec, names := EmitterData(Detected(values).value), SafeStates(values);
    forall i | 0 <= i < |names| ensures ReachedIn(spec, names[i], i) { ChainReaches(spec, names, i); }
    forall i | 0 <= i < |names| ensures spec.states[i].terminal <==> i == |names| - 1 { ChainEnds(names, i); }
  }

  // ----- _resolve_target -----

  /** The parts of the name from `start` on, joined again. */
  function Suffix(target: string, start: nat): string
    requires start < |Parts('_', target)|
  {
    Joined('_', Parts('_', target)[start..])
  }

  predicate FirstKnown(target: string, known: set<string>, start: nat) {
    && start < |Parts('_', target)| && Suffix(target, start) in known
    && forall k: nat :: k < start ==> Suffix(target, k) !in known
  }

  /** The longest suffix, cut at underscores, that names an extracted entity. */
  method ResolveTarget(target: string, known: set<string>) returns (r: string)
    ensures target == "" ==> r == ""
    ensures r != "" ==> exists start: nat :: FirstKnown(target, known, start) && r == Suffix(target, start)
    ensures r == "" && target != "" ==> "" in known || forall start: nat :: !FirstKnown(target, known, start)
    ensures target != "" && target in known ==> r == target
  {
    if target == "" { return ""; }
    PartsRejoin('_', target);
    assert Parts('_', target)[0..] == Parts('_', target);
    assert Suffix(target, 0) == target;
    for start: nat := 0 to |Parts('_', target)|
      invariant forall k: nat :: k < start ==> Suffix(target, k) !in known
    {
      if Suffix(target, start) in known {
        assert FirstKnown(target, known, start);
        return Suffix(target, start);
      }
    }
    r := "";
  }

  // ----- _display_field -----

  datatype Column = Column(name: string, ty: string)

  const CANDIDATES: seq<string> := ["name", "title", "subject", "label", "code", "reference", "number", "email"]

  predicate Named(fields: seq<Column>, name: string) {
    exists i :: 0 <= i < |fields| && fields[i].name == name
  }

  function FirstCandidate(fields: seq<Column>, i: nat): (r: Option<string>)
    requires i <= |CANDIDATES|
    ensures r.Some? ==> Named(fields, r.value) && r.value in CANDIDATES
    decreases |CANDIDATES| - i
  {
    if i == |CANDIDATES| then None
    else if Named(fields, CANDIDATES[i]) then Some(CANDIDATES[i])
    else FirstCandidate(fields, i + 1)
  }

  lemma NamedPrefix(fields: seq<Column>, name: string)
    requires fields != [] && Named(fields[..|fields| - 1], name)
    ensures Named(fields, name)
  {
    var i :| 0 <= i < |fields| - 1 && fields[..|fields| - 1][i].name == name;
    assert fields[i].name == name;
  }

  function FirstText(fields: seq<Column>): (r: Option<string>)
    ensures r.Some? ==> Named(fields, r.value)
  {
    if fields == [] then None
    else
      var init := FirstText(fields[..|fields| - 1]);
      var last := fields[|fields| - 1];
      assert init.Some? ==> Named(fields, init.value) by {
        if init.Some? { NamedPrefix(fields, init.value); }
      }
      if init.Some? then init else if last.ty == "string" || last.ty == "text" then Some(last.name) else None
  }

  function DisplayField(fields: seq<Column>): string {
    var candidate, text := FirstCandidate(fields, 0), FirstText(fields);
    if candidate.Some? then candidate.value
    else if text.Some? then text.value
    else if fields != [] then fields[0].name
    else ""
  }

  /** The names the fields end up with, once their entity has been processed. */
  function Renamed(fields: seq<Column>): (r: seq<Column>)
    ensures |r| == |fields|
    ensures forall i :: 0 <= i < |fields| ==> r[i] == Column(SafeName(fields[i].name, ""), fields[i].ty)
  {
    seq(|fields|, i requires 0 <= i < |fields| => Column(SafeName(fields[i].name, ""), fields[i].ty))
  }

  /** Making the name safe leaves it alone. */
  predicate Safe(name: string) {
    name == "" || (Legal(name) && Normal(name))
  }

  lemma SafeIffFixed(name: string)
    ensures SafeName(name, "") == name <==> Safe(name)
  {
    SafeNameIsSafe(name, "");
    if Safe(name) {
      if name == "" { EmptyIsUnsafe(); } else { CandidateFixed(name); }
    }
  }

  predicate TextColumn(c: Column) {
    c.ty == "string" || c.ty == "text"
  }

  /** Field `i` is the first text field, or the first field where there is none. */
  ghost predicate Shown(fields: seq<Column>, i: nat) {
    && i < |fields|
    && (if TextColumn(fields[i]) then forall j :: 0 <= j < i ==> !TextColumn(fields[j])
        else i == 0 && forall j :: 0 <= j < |fields| ==> !TextColumn(fields[j]))
  }

  ghost predicate HasPreferred(fields: seq<Column>) {
    exists c :: c in CANDIDATES && Named(fields, c)
  }

  lemma {:induction false} CandidateIffPreferred(fields: seq<Column>, i: nat)
    requires i <= |CANDIDATES|
    ensures FirstCandidate(fields, i).Some? <==> exists c :: c in CANDIDATES[i..] && Named(fields, c)
    decreases |CANDIDATES| - i
  {
    if i < |CANDIDATES| {
      CandidateIffPreferred(fields, i + 1);
      assert CANDIDATES[i..] == [CANDIDATES[i]] + CANDIDATES[i + 1..];
    }
  }

  lemma {:induction false} FirstCandidateIs(fields: seq<Column>, i: nat)
    requires i <= |CANDIDATES|
    ensures FirstCandidate(fields, i).Some? ==>
      exists k :: i <= k < |CANDIDATES| && CANDIDATES[k] == FirstCandidate(fields, i).value
        && forall j :: i <= j < k ==> !Named(fields, CANDIDATES[j])
    decreases |CANDIDATES| - i
  {
    hide Named;
    if i < |CANDIDATES| {
      FirstCandidateIs(fields, i + 1);
    }
  }

  /** The first of the preferred names that a field has, or else the first text field's, or else
  the first field's. */
  lemma DisplayFieldExactly(fields: seq<Column>)
    ensures HasPreferred(fields) ==>
      exists k :: 0 <= k < |CANDIDATES| && CANDIDATES[k] == DisplayField(fields) && Named(fields, CANDIDATES[k])
        && forall j :: 0 <= j < k ==> !Named(fields, CANDIDATES[j])
    ensures !HasPreferred(fields) && fields != [] ==>
      exists i: nat :: Shown(fields, i) && DisplayField(fields) == fields[i].name
    ensures fields == [] ==> DisplayField(fields) == ""
  {
    hide Named, Shown;
    CandidateIffPreferred(fields, 0);
    assert CANDIDATES[0..] == CANDIDATES;
    FirstCandidateIs(fields, 0);
    if fields != [] { var i := ShownName(fields); } else { NoneIsNamed(); }
  }

  lemma NoneIsNamed()
    ensures forall name :: !Named([], name)
  {
  }

  lemma {:induction false} FirstTextIs(fields: seq<Column>)
    ensures FirstText(fields).Some? <==> exists i :: 0 <= i < |fields| && TextColumn(fields[i])
    ensures FirstText(fields).Some? ==>
      exists i :: 0 <= i < |fields| && TextColumn(fields[i]) && fields[i].name == FirstText(fields).value
        && forall j :: 0 <= j < i ==> !TextColumn(fields[j])
  {
    if fields != [] {
      var init, last := fields[..|fields| - 1], |fields| - 1;
      FirstTextIs(init);
      if FirstText(init).Some? {
        var i :| 0 <= i < |init| && TextColumn(init[i]) && init[i].name == FirstText(init).value
          && forall j :: 0 <= j < i ==> !TextColumn(init[j]);
        assert TextColumn(fields[i]) && forall j :: 0 <= j < i ==> fields[j] == init[j];
      } else {
        assert forall j :: 0 <= j < last ==> fields[j] == init[j];
      }
    }
  }

  lemma ShownName(fields: seq<Column>) returns (i: nat)
    requires fields != []
    ensures Shown(fields, i) && forall j :: Shown(fields, j) ==> j == i
    ensures !HasPreferred(fields) ==> DisplayField(fields) == fields[i].name
  {
    FirstTextIs(fields);
    CandidateIffPreferred(fields, 0);
    assert CANDIDATES[0..] == CANDIDATES;
    if FirstText(fields).Some? {
      i :| 0 <= i < |fields| && TextColumn(fields[i]) && fields[i].name == FirstText(fields).value
        && forall j :: 0 <= j < i ==> !TextColumn(fields[j]);
    } else {
      i := 0;
    }
  }

  lemma PreferredAreSafe(c: string)
    requires c in CANDIDATES
    ensures Safe(c)
  {
  }

  lemma PreferredIsSafe(fields: seq<Column>)
    requires HasPreferred(fields)
    ensures Safe(DisplayField(fields))
  {
    hide Safe;
    CandidateIffPreferred(fields, 0);
    assert CANDIDATES[0..] == CANDIDATES;
    PreferredAreSafe(DisplayField(fields));
  }

  /** The field is found afterwards exactly when the name it was picked by is a safe one. */
  lemma PickedNameDecides(fields: seq<Column>)
    requires fields != []
    ensures Named(Renamed(fields), DisplayField(fields)) <==> Safe(DisplayField(fields))
  {
    var d := DisplayField(fields);
    SafeIffFixed(d);
    assert fields[0].name == fields[0].name;
    var i :| 0 <= i < |fields| && fields[i].name == d;
    assert Renamed(fields)[i].name == SafeName(d, "");
    if Named(Renamed(fields), d) {
      var j :| 0 <= j < |fields| && Renamed(fields)[j].name == d;
      SafeNameIdempotent(fields[j].name, "");
    }
  }

  /** The display field is picked while the target's fields may still have their raw names.  It
  is a field of the target in the end exactly when one of the preferred names is among the raw
  ones, or else the first text field, or the first field where there is none, has a safe name. */
  lemma DisplayFieldExistsExactly(fields: seq<Column>)
    requires fields != []
    ensures Named(Renamed(fields), DisplayField(fields))
      <==> HasPreferred(fields) || exists i: nat :: Shown(fields, i) && Safe(fields[i].name)
  {
    hide Safe, Renamed, DisplayField, Shown, HasPreferred, Named;
    PickedNameDecides(fields);
    var i := ShownName(fields);
    if HasPreferred(fields) { PreferredIsSafe(fields); }
  }

  /** A display field that is gone once its entity is processed. */
  lemma DisplayFieldCanVanish()
    ensures var fields := [Column("userId", "string")];
      DisplayField(fields) == "userId" && !Named(Renamed(fields), DisplayField(fields))
  {
    var fields := [Column("userId", "string")];
    assert DisplayField(fields) == "userId" by {
      assert forall c <- CANDIDATES :: c != "userId";
      var candidate := FirstCandidate(fields, 0);
      assert forall i :: 0 <= i < |fields| ==> fields[i].name == "userId";
      assert candidate.None?;
      assert fields[..0] == [];
    }
    PickedNameDecides(fields);
    assert "userId"[4] == 'I' && !Plain('I');
  }

  /** So it always is one when the target was processed before. */
  lemma DisplayFieldOfProcessed(fields: seq<Column>)
    requires fields != []
    ensures Named(Renamed(fields), DisplayField(Renamed(fields)))
  {
  }
}
