/** `forge/normalize.py`: names, fully qualified names and graph edges.  Letters are ASCII. */
module Normalizer {
  import opened Naming
  import opened Splitting

  // ----- normalize_name -----

  function ToLower(c: char): char {
    if Upper(c) then 'a' + (c - 'A') else c
  }

  function LowerAll(s: string): (r: string)
    ensures |r| == |s|
  {
    if s == "" then "" else [ToLower(s[0])] + LowerAll(s[1..])
  }

  function UpperAll(s: string): (r: string)
    ensures |r| == |s|
  {
    if s == "" then "" else [ToUpper(s[0])] + UpperAll(s[1..])
  }

  /** `_PASCAL_SPLIT`: between a lower-case letter or digit and a capital, and before the last
  capital of a run when a lower-case letter follows it. */
  predicate Boundary(s: string, i: nat)
    requires 0 < i < |s|
  {
    || ((Lower(s[i - 1]) || Digit(s[i - 1])) && Upper(s[i]))
    || (Upper(s[i - 1]) && Upper(s[i]) && i + 1 < |s| && Lower(s[i + 1]))
  }

  /** `_PASCAL_SPLIT.sub("_", name)`, from position `i` on. */
  function Broken(s: string, i: nat): string
    requires i <= |s|
    decreases |s| - i
  {
    if i == |s| then ""
    else (if i > 0 && Boundary(s, i) then "_" else "") + [s[i]] + Broken(s, i + 1)
  }

  function NormalizeName(name: string): string {
    RightStrip(LeftStrip(Collapse(LowerAll(Broken(name, 0)))))
  }

  /** No capitals, no two underscores in a row. */
  predicate Tame(s: string) {
    && (forall i :: 0 <= i < |s| ==> !Upper(s[i]))
    && (forall i :: 0 < i < |s| ==> !(s[i - 1] == '_' && s[i] == '_'))
  }

  /** Tame, and no underscore at either end: what `normalize_name` is for. */
  predicate Normal(s: string) {
    Tame(s) && (s != "" ==> s[0] != '_' && s[|s| - 1] != '_')
  }

  /** What is left when case and underscores do not count. */
  function Bare(s: string): string {
    if s == "" then "" else (if s[0] == '_' then "" else [ToLower(s[0])]) + Bare(s[1..])
  }

  lemma {:induction false} BareAppend(a: string, b: string)
    ensures Bare(a + b) == Bare(a) + Bare(b)
  {
    if a == "" {
      assert a + b == b;
    } else {
      assert (a + b)[1..] == a[1..] + b;
      BareAppend(a[1..], b);
    }
  }

  lemma {:induction false} BrokenBare(s: string, i: nat)
    requires i <= |s|
    ensures Bare(Broken(s, i)) == Bare(s[i..])
    decreases |s| - i
  {
    if i < |s| {
      BrokenBare(s, i + 1);
      var mark := if i > 0 && Boundary(s, i) then "_" else "";
      assert Broken(s, i) == mark + ([s[i]] + Broken(s, i + 1));
      BareAppend(mark, [s[i]] + Broken(s, i + 1));
      assert ([s[i]] + Broken(s, i + 1))[1..] == Broken(s, i + 1);
      assert s[i..][1..] == s[i + 1..];
    }
  }

  lemma {:induction false} LowerAllBare(s: string)
    ensures Bare(LowerAll(s)) == Bare(s) && |LowerAll(s)| == |s|
    ensures forall i :: 0 <= i < |s| ==> LowerAll(s)[i] == ToLower(s[i])
  {
    if s != "" { LowerAllBare(s[1..]); }
  }

  lemma {:induction false} CollapseTame(s: string)
    requires forall i :: 0 <= i < |s| ==> !Upper(s[i])
    ensures Tame(Collapse(s)) && Bare(Collapse(s)) == Bare(s)
    ensures s != "" ==> Collapse(s) != "" && Collapse(s)[0] == s[0]
    ensures forall c <- Collapse(s) :: c in s
  {
    if |s| >= 2 {
      CollapseTame(s[1..]);
      var rest := Collapse(s[1..]);
      if !(s[0] == '_' && s[1] == '_') {
        assert ([s[0]] + rest)[1..] == rest;
      }
    }
  }

  lemma {:induction false} LeftStripNormal(s: string)
    requires Tame(s)
    ensures Tame(LeftStrip(s)) && Bare(LeftStrip(s)) == Bare(s)
    ensures LeftStrip(s) != "" ==> LeftStrip(s)[0] != '_'
    ensures forall c <- LeftStrip(s) :: c in s
  {
    if s != "" && s[0] == '_' { LeftStripNormal(s[1..]); }
  }

  lemma {:induction false} RightStripNormal(s: string)
    requires Tame(s) && (s != "" ==> s[0] != '_')
    ensures Normal(RightStrip(s)) && Bare(RightStrip(s)) == Bare(s)
    ensures forall c <- RightStrip(s) :: c in s
  {
    if s != "" && s[|s| - 1] == '_' {
      var init := s[..|s| - 1];
      RightStripNormal(init);
      assert s == init + "_";
      BareAppend(init, "_");
      assert Bare("_") == "";
    }
  }

  /** Every name comes out normal, and apart from case and underscores unchanged. */
  lemma NormalizeNameIsNormal(name: string)
    ensures Normal(NormalizeName(name)) && Bare(NormalizeName(name)) == Bare(name)
  {
    var broken := Broken(name, 0);
    BrokenBare(name, 0);
    assert name[0..] == name;
    LowerAllBare(broken);
    CollapseTame(LowerAll(broken));
    LeftStripNormal(Collapse(LowerAll(broken)));
    RightStripNormal(LeftStrip(Collapse(LowerAll(broken))));
  }

  lemma {:induction false} NothingToBreak(s: string, i: nat)
    requires i <= |s| && forall k :: 0 <= k < |s| ==> !Upper(s[k])
    ensures Broken(s, i) == s[i..]
    decreases |s| - i
  {
    if i < |s| {
      NothingToBreak(s, i + 1);
      assert s[i..] == [s[i]] + s[i + 1..];
    }
  }

  lemma {:induction false} NothingToLower(s: string)
    requires forall k :: 0 <= k < |s| ==> !Upper(s[k])
    ensures LowerAll(s) == s
  {
    if s != "" { NothingToLower(s[1..]); }
  }

  /** The names that normalisation leaves alone are the normal ones. */
  lemma NormalIffFixed(s: string)
    ensures NormalizeName(s) == s <==> Normal(s)
  {
    NormalizeNameIsNormal(s);
    if Normal(s) {
      NothingToBreak(s, 0);
      NothingToLower(s);
      CollapseCleanString(s);
    }
  }

  lemma NormalizeNameIdempotent(s: string)
    ensures NormalizeName(NormalizeName(s)) == NormalizeName(s)
  {
    NormalizeNameIsNormal(s);
    NormalIffFixed(NormalizeName(s));
  }

  // ----- Segments: a reference is split at its slashes -----

  predicate NoSlash(s: string) {
    '/' !in s
  }

  function NormalizeEach(parts: seq<string>): (r: seq<string>)
    ensures |r| == |parts| && forall i :: 0 <= i < |parts| ==> r[i] == NormalizeName(parts[i])
  {
    if parts == [] then [] else NormalizeEach(parts[..|parts| - 1]) + [NormalizeName(parts[|parts| - 1])]
  }

  lemma NormalizeNoSlash(s: string)
    requires NoSlash(s)
    ensures NoSlash(NormalizeName(s))
  {
    NormalizeNameIsNormal(s);
    BareSlash(s);
    BareSlash(NormalizeName(s));
  }

  lemma {:induction false} BareSlash(s: string)
    ensures NoSlash(s) <==> NoSlash(Bare(s))
  {
    if s != "" {
      BareSlash(s[1..]);
      assert s == [s[0]] + s[1..];
      assert s[0] != '_' ==> Bare(s) == [ToLower(s[0])] + Bare(s[1..]);
    }
  }

  // ----- normalize_fqn -----

  /** `_VALID_KINDS` */
  predicate IsKind(s: string) {
    s == "entity" || s == "workflow" || s == "page" || s == "route" || s == "agent" || s == "mixin" || s == "infra"
  }

  /** `domain` only ever enters through `normalize_name(domain)`. */
  function NormalizeFqnIn(ref: string, kind: string, domain: string): string {
    var parts := Parts('/', ref);
    if |parts| >= 3 && IsKind(parts[0]) then parts[0] + "/" + Joined('/', NormalizeEach(parts[1..]))
    else if |parts| == 2 then kind + "/" + NormalizeName(parts[0]) + "/" + NormalizeName(parts[1])
    else if |parts| == 1 then kind + "/" + domain + "/" + NormalizeName(parts[0])
    else kind + "/" + Joined('/', NormalizeEach(parts))
  }

  function NormalizeFqn(ref: string, kind: string, domain: string): string {
    NormalizeFqnIn(ref, kind, NormalizeName(domain))
  }

  /** A known kind, then at least two normal segments. */
  predicate IsFqn(s: string) {
    var parts := Parts('/', s);
    |parts| >= 3 && IsKind(parts[0]) && forall i :: 1 <= i < |parts| ==> Normal(parts[i])
  }

  lemma {:induction false} EachFixed(parts: seq<string>)
    requires forall i :: 0 <= i < |parts| ==> Normal(parts[i])
    ensures NormalizeEach(parts) == parts
  {
    forall i | 0 <= i < |parts| ensures NormalizeEach(parts)[i] == parts[i] { NormalIffFixed(parts[i]); }
  }

  lemma KindsHaveNoSlash(kind: string)
    requires IsKind(kind)
    ensures NoSlash(kind)
  {
    assert NoSlash("entity") && NoSlash("workflow") && NoSlash("page") && NoSlash("route");
    assert NoSlash("agent") && NoSlash("mixin") && NoSlash("infra");
  }

  lemma NormalizedParts(ref: string, kind: string, domain: string)
    requires |Parts('/', ref)| >= 3 && IsKind(Parts('/', ref)[0])
    ensures var parts := Parts('/', ref);
      var out := [parts[0]] + NormalizeEach(parts[1..]);
      NormalizeFqnIn(ref, kind, domain) == Joined('/', out) && Parts('/', Joined('/', out)) == out
  {
    var parts := Parts('/', ref);
    PartsRejoin('/', ref);
    var tail := parts[1..];
    var each := NormalizeEach(tail);
    forall i | 0 <= i < |each| ensures NoSlash(each[i]) { NormalizeNoSlash(tail[i]); }
    PartsOfJoined('/', [parts[0]] + each);
    JoinedCons('/', parts[0], each);
  }

  /** A reference that already begins with a kind and has three segments is left alone exactly
  when it is a fully qualified name. */
  lemma FqnIffFixed(ref: string, kind: string, domain: string)
    requires |Parts('/', ref)| >= 3 && IsKind(Parts('/', ref)[0])
    ensures NormalizeFqnIn(ref, kind, domain) == ref <==> IsFqn(ref)
  {
    hide NormalizeFqnIn, Normal, IsKind, Parts, Joined, NormalizeName;
    var parts := Parts('/', ref);
    var tail := parts[1..];
    var each := NormalizeEach(tail);
    NormalizedParts(ref, kind, domain);
    PartsRejoin('/', ref);
    assert [parts[0]] + tail == parts;
    if IsFqn(ref) {
      EachFixed(tail);
    }
    if NormalizeFqnIn(ref, kind, domain) == ref {
      forall i | 1 <= i < |parts| ensures Normal(parts[i]) {
        assert parts[i] == each[i - 1];
        NormalizeNameIsNormal(tail[i - 1]);
      }
    }
  }

  /** A normalised domain that stays normal when it is cut at its slashes: no underscore next
  to a slash. */
  predicate DomainSettles(domain: string) {
    forall i :: 0 < i < |domain| ==>
      && !(domain[i - 1] == '_' && domain[i] == '/')
      && !(domain[i - 1] == '/' && domain[i] == '_')
  }

  predicate AllNormal(parts: seq<string>, from: nat) {
    forall i :: from <= i < |parts| ==> Normal(parts[i])
  }

  predicate TameEnd(s: string) {
    Tame(s) && (s != "" ==> s[|s| - 1] != '_')
  }

  lemma {:induction false} SettledTail(s: string)
    ensures TameEnd(s) && DomainSettles(s) <==> TameEnd(Parts('/', s)[0]) && AllNormal(Parts('/', s), 1)
    ensures s != "" && s[0] != '/' ==> Parts('/', s)[0] != "" && Parts('/', s)[0][0] == s[0]
    ensures s == "" || s[0] == '/' ==> Parts('/', s)[0] == ""
  {
    if s != "" {
      var t := s[1..];
      var rest := Parts('/', t);
      SettledTail(t);
      assert s == [s[0]] + t;
      TameCons(s[0], t);
      SettleCons(s[0], t);
      if s[0] == '/' {
        assert Parts('/', s)[1..] == rest;
        assert AllNormal(Parts('/', s), 1) <==> Normal(rest[0]) && AllNormal(rest, 1) by {
          assert forall i :: 0 <= i < |rest| ==> Parts('/', s)[i + 1] == rest[i];
        }
      } else {
        TameCons(s[0], rest[0]);
        assert ([s[0]] + rest[0])[1..] == rest[0];
        assert forall i :: 1 <= i < |rest| ==> Parts('/', s)[i] == rest[i];
      }
    }
  }

  /** What one more character in front asks for. */
  lemma TameCons(c: char, t: string)
    ensures TameEnd([c] + t) <==> !Upper(c) && TameEnd(t) && !(c == '_' && (t == "" || t[0] == '_'))
  {
    var s := [c] + t;
    assert s[1..] == t;
    assert t != "" ==> s[|s| - 1] == t[|t| - 1];
    if TameEnd(s) {
      forall i | 0 < i < |t| ensures !(t[i - 1] == '_' && t[i] == '_') { assert !(s[i] == '_' && s[i + 1] == '_'); }
      forall i | 0 <= i < |t| ensures !Upper(t[i]) { assert !Upper(s[i + 1]); }
      assert !Upper(s[0]) && (t != "" ==> !(s[0] == '_' && s[1] == '_'));
    }
    if !Upper(c) && TameEnd(t) && !(c == '_' && (t == "" || t[0] == '_')) {
      forall i | 0 < i < |s| ensures !(s[i - 1] == '_' && s[i] == '_') {
        if i > 1 { assert !(t[i - 2] == '_' && t[i - 1] == '_'); }
      }
      forall i | 0 <= i < |s| ensures !Upper(s[i]) {
        if i > 0 { assert !Upper(t[i - 1]); }
      }
    }
  }

  lemma SettleCons(c: char, t: string)
    ensures DomainSettles([c] + t)
      <==> DomainSettles(t) && (t != "" ==> !(c == '_' && t[0] == '/') && !(c == '/' && t[0] == '_'))
  {
    var s := [c] + t;
    if DomainSettles(s) {
      forall i | 0 < i < |t| ensures !(t[i - 1] == '_' && t[i] == '/') && !(t[i - 1] == '/' && t[i] == '_') {
        assert s[i] == t[i - 1] && s[i + 1] == t[i];
        assert !(s[i] == '_' && s[i + 1] == '/');
      }
      if t != "" { assert !(s[0] == '_' && s[1] == '/') && !(s[0] == '/' && s[1] == '_'); }
    }
    if DomainSettles(t) && (t != "" ==> !(c == '_' && t[0] == '/') && !(c == '/' && t[0] == '_')) {
      forall i | 0 < i < |s| ensures !(s[i - 1] == '_' && s[i] == '/') && !(s[i - 1] == '/' && s[i] == '_') {
        if i > 1 {
          assert s[i - 1] == t[i - 2] && s[i] == t[i - 1];
          assert !(t[i - 2] == '_' && t[i - 1] == '/');
        }
      }
    }
  }

  /** A single segment takes the domain, which then is cut at its slashes. */
  lemma SettledIffNormal(domain: string)
    requires Normal(domain)
    ensures DomainSettles(domain) <==> AllNormal(Parts('/', domain), 0)
  {
    SettledTail(domain);
  }

  lemma SegmentPrefix(kind: string, rest: string)
    requires IsKind(kind)
    ensures Parts('/', kind + "/" + rest) == [kind] + Parts('/', rest)
  {
    KindsHaveNoSlash(kind);
    PartsOfPart('/', kind, rest);
  }

  /** What comes out of `normalize_fqn`: always a known kind and at least two segments. */
  lemma NormalizedSegments(ref: string, kind: string, domain: string)
    requires IsKind(kind)
    ensures var out := Parts('/', NormalizeFqnIn(ref, kind, domain));
      && |out| >= 3 && IsKind(out[0])
      && (|Parts('/', ref)| > 1 ==> AllNormal(out, 1))
      && (|Parts('/', ref)| == 1 ==> out == [kind] + Parts('/', domain) + [NormalizeName(ref)])
    ensures var parts, out := Parts('/', ref), Parts('/', NormalizeFqnIn(ref, kind, domain));
      var given := |parts| >= 3 && IsKind(parts[0]);
      && (|parts| > 1 && given ==> out == [parts[0]] + NormalizeEach(parts[1..]))
      && (|parts| > 1 && !given ==> out == [kind] + NormalizeEach(parts))
  {
    var parts := Parts('/', ref);
    PartsRejoin('/', ref);
    forall i | 0 <= i < |parts| ensures NoSlash(NormalizeName(parts[i])) && Normal(NormalizeName(parts[i])) {
      NormalizeNoSlash(parts[i]);
      NormalizeNameIsNormal(parts[i]);
    }
    if |parts| == 1 {
      SingleSegment(ref, kind, domain);
    } else if |parts| >= 3 && IsKind(parts[0]) {
      LongPath(parts[0], parts[1..]);
    } else if |parts| == 2 {
      LongPath(kind, parts);
      assert NormalizeEach(parts) == [NormalizeName(parts[0]), NormalizeName(parts[1])];
      assert [NormalizeName(parts[0]), NormalizeName(parts[1])][1..] == [NormalizeName(parts[1])];
      assert kind + "/" + Joined('/', NormalizeEach(parts)) == NormalizeFqnIn(ref, kind, domain);
    } else {
      LongPath(kind, parts);
    }
  }

  lemma LongPath(kind: string, parts: seq<string>)
    requires IsKind(kind) && |parts| >= 2 && forall i :: 0 <= i < |parts| ==> NoSlash(NormalizeName(parts[i]))
    ensures var out := Parts('/', kind + "/" + Joined('/', NormalizeEach(parts)));
      out == [kind] + NormalizeEach(parts) && AllNormal(out, 1)
  {
    SegmentPrefix(kind, Joined('/', NormalizeEach(parts)));
    PartsOfJoined('/', NormalizeEach(parts));
    forall i | 0 <= i < |parts| ensures Normal(NormalizeEach(parts)[i]) { NormalizeNameIsNormal(parts[i]); }
  }

  lemma SingleSegment(ref: string, kind: string, domain: string)
    requires IsKind(kind) && |Parts('/', ref)| == 1
    ensures Parts('/', NormalizeFqnIn(ref, kind, domain)) == [kind] + Parts('/', domain) + [NormalizeName(ref)]
  {
    PartsRejoin('/', ref);
    assert Parts('/', ref) == [ref];
    NormalizeNoSlash(ref);
    SegmentPrefix(kind, domain + "/" + NormalizeName(ref));
    assert kind + "/" + (domain + "/" + NormalizeName(ref)) == NormalizeFqnIn(ref, kind, domain);
    PartsAppend('/', domain, NormalizeName(ref));
  }

  /** Normalising a reference again changes nothing exactly when it names its own domain or the
  domain settles; every domain without a slash does. */
  lemma NormalizeFqnSettles(ref: string, kind: string, domain: string, again: string)
    requires IsKind(kind) && Normal(domain)
    ensures var once := NormalizeFqnIn(ref, kind, domain);
      NormalizeFqnIn(once, again, domain) == once <==> |Parts('/', ref)| > 1 || DomainSettles(domain)
  {
    hide NormalizeFqnIn, Parts, Normal, NormalizeName, DomainSettles, IsKind;
    var once := NormalizeFqnIn(ref, kind, domain);
    NormalizedSegments(ref, kind, domain);
    FqnIffFixed(once, again, domain);
    if |Parts('/', ref)| == 1 {
      NormalizeNameIsNormal(ref);
      SettledIffNormal(domain);
      var out, middle := Parts('/', once), Parts('/', domain);
      assert forall i :: 0 <= i < |middle| ==> out[i + 1] == middle[i];
      assert out[|out| - 1] == NormalizeName(ref);
    }
  }

  /** A domain that takes two rounds: entity/a_/b/x, then entity/a/b/x. */
  lemma SlashDomainTakesTwoRounds()
    ensures var once := NormalizeFqn("x", "entity", "a_/b"); NormalizeFqn(once, "entity", "a_/b") != once
  {
    var domain := "a_/b";
    assert Normal(domain);
    NormalIffFixed(domain);
    assert domain[1] == '_' && domain[2] == '/';
    PartsOfPart('/', "x", "");
    NormalizeFqnSettles("x", "entity", domain, "entity");
  }

  /** In particular, in a domain without a slash every reference is settled after one round. */
  lemma NoSlashIsIdempotent(ref: string, kind: string, domain: string, again: string)
    requires IsKind(kind) && Normal(domain) && NoSlash(domain)
    ensures NormalizeFqnIn(NormalizeFqnIn(ref, kind, domain), again, domain) == NormalizeFqnIn(ref, kind, domain)
  {
    hide NormalizeFqnIn;
    assert DomainSettles(domain);
    NormalizeFqnSettles(ref, kind, domain, again);
  }

  // ----- _normalize_requires_entry -----

  function Contains(s: string, word: string): bool {
    if |s| < |word| then false else s[..|word|] == word || (s != "" && Contains(s[1..], word))
  }

  /** The kind a `requires` entry is read as. */
  function InferredKind(ref: string): (kind: string)
    ensures IsKind(kind)
  {
    var parts := Parts('/', ref);
    var lower := LowerAll(ref);
    if IsKind(parts[0]) then parts[0]
    else if Contains(lower, "lifecycle") || Contains(lower, "workflow") || Contains(lower, "approval") then "workflow"
    else if Contains(lower, "mixin") || Contains(parts[0], "stdlib") then "mixin"
    else "entity"
  }

  predicate OccursAt(s: string, word: string, i: nat) {
    i + |word| <= |s| && s[i..i + |word|] == word
  }

  ghost predicate Occurs(s: string, word: string) {
    exists i: nat :: OccursAt(s, word, i)
  }

  lemma {:induction false} ContainsExactly(s: string, word: string)
    ensures Contains(s, word) <==> Occurs(s, word)
  {
    if |s| >= |word| {
      assert OccursAt(s, word, 0) <==> s[..|word|] == word;
      if s != "" {
        ContainsExactly(s[1..], word);
        OccursLater(s, word);
      }
    }
  }

  lemma OccursLater(s: string, word: string)
    requires s != ""
    ensures Occurs(s, word) <==> OccursAt(s, word, 0) || Occurs(s[1..], word)
  {
    forall i: nat | OccursAt(s, word, i) && i > 0 ensures OccursAt(s[1..], word, i - 1) {
      assert s[1..][i - 1..i - 1 + |word|] == s[i..i + |word|];
    }
    forall i: nat | OccursAt(s[1..], word, i) ensures OccursAt(s, word, i + 1) {
      assert s[1..][i..i + |word|] == s[i + 1..i + 1 + |word|];
    }
    hide OccursAt;
    if i: nat :| OccursAt(s[1..], word, i) { assert OccursAt(s, word, i + 1); }
  }

  /** A first segment that is a kind is taken for one; else a word for a workflow anywhere makes a
  workflow, a mixin anywhere or a first segment of the standard library a mixin, in any case. */
  lemma InferredKindExactly(ref: string)
    ensures var first, lower, kind := Parts('/', ref)[0], LowerAll(ref), InferredKind(ref);
      var workflow := Occurs(lower, "lifecycle") || Occurs(lower, "workflow") || Occurs(lower, "approval");
      var mixin := Occurs(lower, "mixin") || Occurs(first, "stdlib");
      && (IsKind(first) ==> kind == first)
      && (!IsKind(first) ==> (kind == "workflow" <==> workflow))
      && (!IsKind(first) ==> (kind == "mixin" <==> !workflow && mixin))
      && (!IsKind(first) ==> (kind == "entity" <==> !workflow && !mixin))
  {
    hide Contains, Occurs, Parts, LowerAll, IsKind;
    var first, lower := Parts('/', ref)[0], LowerAll(ref);
    ContainsExactly(lower, "lifecycle");
    ContainsExactly(lower, "workflow");
    ContainsExactly(lower, "approval");
    ContainsExactly(lower, "mixin");
    ContainsExactly(first, "stdlib");
    assert |"workflow"| == 8 && |"mixin"| == 5 && |"entity"| == 6;
  }

  function NormalizeRequiresIn(ref: string, domain: string): string {
    NormalizeFqnIn(ref, InferredKind(ref), domain)
  }

  lemma NormalizeRequiresSettles(ref: string, domain: string)
    requires Normal(domain)
    ensures var once := NormalizeRequiresIn(ref, domain);
      NormalizeRequiresIn(once, domain) == once <==> |Parts('/', ref)| > 1 || DomainSettles(domain)
  {
    NormalizeFqnSettles(ref, InferredKind(ref), domain, InferredKind(NormalizeRequiresIn(ref, domain)));
  }

  // ----- normalize_graph_edge -----

  function NormalizeEdge(edge: string): string {
    UpperAll(NormalizeName(edge))
  }

  /** An edge is the normalised name in capitals. */
  lemma EdgeIsRaised(edge: string)
    ensures NoLower(NormalizeEdge(edge)) && LowerAll(NormalizeEdge(edge)) == NormalizeName(edge)
  {
    hide NormalizeName;
    NormalizeNameIsNormal(edge);
    UpperAllAt(NormalizeName(edge));
    LowerAllUpperAll(NormalizeName(edge));
  }

  /** A digit directly before a letter. */
  predicate DigitThenLetter(s: string) {
    exists i :: 0 < i < |s| && Digit(s[i - 1]) && Lower(s[i])
  }

  lemma {:induction false} UpperAllAt(s: string)
    ensures |UpperAll(s)| == |s| && forall i :: 0 <= i < |s| ==> UpperAll(s)[i] == ToUpper(s[i])
  {
    if s != "" { UpperAllAt(s[1..]); }
  }

  lemma {:induction false} LowerAllUpperAll(s: string)
    requires forall k :: 0 <= k < |s| ==> !Upper(s[k])
    ensures LowerAll(UpperAll(s)) == s
  {
    if s != "" { LowerAllUpperAll(s[1..]); }
  }

  predicate NoLower(s: string) {
    forall k :: 0 <= k < |s| ==> !Lower(s[k])
  }

  /** A digit directly before a capital. */
  predicate DigitThenCapital(s: string) {
    exists i :: 0 < i < |s| && Digit(s[i - 1]) && Upper(s[i])
  }

  lemma CapitalCons(c: char, rest: string)
    requires !DigitThenCapital(rest) && !(rest != "" && Digit(c) && Upper(rest[0]))
    ensures !DigitThenCapital([c] + rest)
  {
    var s := [c] + rest;
    forall k | 0 < k < |s| ensures !(Digit(s[k - 1]) && Upper(s[k])) {
      if k > 1 { assert s[k - 1] == rest[k - 2] && s[k] == rest[k - 1]; }
    }
  }

  /** The break between a digit and a capital is always made. */
  lemma {:induction false} BrokenSeparates(s: string, i: nat)
    requires i <= |s|
    ensures !DigitThenCapital(Broken(s, i))
    ensures i == |s| ==> Broken(s, i) == ""
    ensures i < |s| ==> Broken(s, i) != "" && Broken(s, i)[0] == if i > 0 && Boundary(s, i) then '_' else s[i]
    decreases |s| - i
  {
    hide DigitThenCapital;
    if i == |s| {
      assert !DigitThenCapital("") by { NothingInEmpty(); }
    } else {
      BrokenSeparates(s, i + 1);
      var rest := Broken(s, i + 1);
      CapitalCons(s[i], rest);
      var core := [s[i]] + rest;
      if i > 0 && Boundary(s, i) {
        CapitalCons('_', core);
        assert Broken(s, i) == ['_'] + core;
      } else {
        assert Broken(s, i) == core;
      }
    }
  }

  lemma NothingInEmpty()
    ensures !DigitThenCapital("")
  {
  }

  lemma {:induction false} CollapseSeparates(s: string)
    requires !DigitThenLetter(s)
    ensures !DigitThenLetter(Collapse(s)) && (s != "" ==> Collapse(s) != "" && Collapse(s)[0] == s[0])
  {
    if |s| >= 2 {
      assert !DigitThenLetter(s[1..]) by {
        forall i | 0 < i < |s[1..]| ensures !(Digit(s[1..][i - 1]) && Lower(s[1..][i])) {
          assert !(Digit(s[i]) && Lower(s[i + 1]));
        }
      }
      CollapseSeparates(s[1..]);
      var rest := Collapse(s[1..]);
      if !(s[0] == '_' && s[1] == '_') {
        var c := [s[0]] + rest;
        forall i | 0 < i < |c| ensures !(Digit(c[i - 1]) && Lower(c[i])) {
          if i > 1 { assert c[i - 1] == rest[i - 2] && c[i] == rest[i - 1]; }
          else { assert !(Digit(s[0]) && Lower(s[1])); }
        }
      }
    }
  }

  lemma PartSeparates(s: string, i: nat, j: nat)
    requires !DigitThenLetter(s) && i <= j <= |s|
    ensures !DigitThenLetter(s[i..j])
  {
    forall k | 0 < k < |s[i..j]| ensures !(Digit(s[i..j][k - 1]) && Lower(s[i..j][k])) {
      assert !(Digit(s[i + k - 1]) && Lower(s[i + k]));
    }
  }

  lemma {:induction false} StripSeparates(s: string)
    requires !DigitThenLetter(s)
    ensures !DigitThenLetter(RightStrip(s))
  {
    if s != "" && s[|s| - 1] == '_' {
      PartSeparates(s, 0, |s| - 1);
      assert s[0..|s| - 1] == s[..|s| - 1];
      StripSeparates(s[..|s| - 1]);
    }
  }

  lemma {:induction false} LeftStripSeparates(s: string)
    requires !DigitThenLetter(s)
    ensures !DigitThenLetter(LeftStrip(s))
  {
    if s != "" && s[0] == '_' {
      PartSeparates(s, 1, |s|);
      assert s[1..|s|] == s[1..];
      LeftStripSeparates(s[1..]);
    }
  }

  /** Normalising an all-capitals edge leaves no digit before a letter. */
  lemma CapitalsSeparate(s: string)
    requires NoLower(s)
    ensures !DigitThenLetter(NormalizeName(s))
  {
    var b := Broken(s, 0);
    BrokenSeparates(s, 0);
    BrokenNoLower(s, 0);
    LowerAllBare(b);
    forall i | 0 < i < |LowerAll(b)| ensures !(Digit(LowerAll(b)[i - 1]) && Lower(LowerAll(b)[i])) {
      assert !(Digit(b[i - 1]) && Upper(b[i]));
    }
    CollapseSeparates(LowerAll(b));
    LeftStripSeparates(Collapse(LowerAll(b)));
    StripSeparates(LeftStrip(Collapse(LowerAll(b))));
  }

  lemma {:induction false} BrokenNoLower(s: string, i: nat)
    requires i <= |s| && NoLower(s)
    ensures NoLower(Broken(s, i))
    decreases |s| - i
  {
    if i < |s| { BrokenNoLower(s, i + 1); }
  }

  /** Without a digit before a letter, raising a normal name and breaking it again breaks
  nothing. */
  lemma {:induction false} RaisedUnbroken(s: string, i: nat)
    requires i <= |s| && Normal(s) && !DigitThenLetter(s)
    ensures Broken(UpperAll(s), i) == UpperAll(s)[i..]
    decreases |s| - i
  {
    if i < |s| {
      RaisedUnbroken(s, i + 1);
      if i > 0 { NoBoundaryRaised(s, i); }
      hide Boundary, Normal, DigitThenLetter, UpperAll;
      var raised := UpperAll(s);
      assert raised[i..] == [raised[i]] + raised[i + 1..];
    }
  }

  lemma NoBoundaryRaised(s: string, i: nat)
    requires 0 < i < |s| && Normal(s) && !DigitThenLetter(s)
    ensures !Boundary(UpperAll(s), i)
  {
    UpperAllAt(s);
    assert !(Digit(s[i - 1]) && Lower(s[i]));
  }

  lemma NormalIsTame(s: string)
    requires Normal(s)
    ensures Tame(s)
  {
  }

  /** `normalize_graph_edge` is settled after one application exactly when no digit comes
  directly before a letter in the normalised name. */
  lemma NormalizeEdgeSettles(edge: string)
    ensures NormalizeEdge(NormalizeEdge(edge)) == NormalizeEdge(edge) <==> !DigitThenLetter(NormalizeName(edge))
  {
    hide NormalizeName, DigitThenLetter, Normal;
    var n := NormalizeName(edge);
    var raised := UpperAll(n);
    NormalizeNameIsNormal(edge);
    assert Tame(n) by { NormalIsTame(n); }
    UpperAllAt(n);
    LowerAllUpperAll(n);
    if DigitThenLetter(n) {
      CapitalsSeparate(raised);
      NormalizeNameIsNormal(raised);
      NormalIsTame(NormalizeName(raised));
      LowerAllUpperAll(NormalizeName(raised));
    } else {
      RaisedComesBack(n);
    }
  }

  lemma RaisedComesBack(n: string)
    requires Normal(n) && !DigitThenLetter(n)
    ensures NormalizeName(UpperAll(n)) == n
  {
    RaisedUnbroken(n, 0);
    LowerAllUpperAll(n);
    assert UpperAll(n)[0..] == UpperAll(n);
    NormalIffFixed(n);
    CollapseCleanString(n);
  }

  /** An edge that takes two rounds: first V2X, then V2_X. */
  lemma EdgeTakesTwoRounds()
    ensures NormalizeEdge(NormalizeEdge("v2x")) != NormalizeEdge("v2x")
  {
    var s := "v2x";
    assert Normal(s);
    NormalIffFixed(s);
    assert Digit(s[1]) && Lower(s[2]);
    NormalizeEdgeSettles(s);
  }
}
