/** `extractor/analyzers/typescript_types.py`: the bracket matcher and the two splitters, which
step over string literals with the regular expression `(['"])(?:\\.|(?!\1).)*\1`. */
module TypeSplitter {
  import opened Splitting

  // ----- The regular expression, as a backtracking matcher runs it -----

  /** Where the literal ends whose body continues at `p`, or -1.  At a reverse solidus the
  matcher first tries to take the next character with it, then to take it alone. */
  function LiteralEnd(text: string, p: nat, quote: char): (end: int)
    ensures end == -1 || p < end <= |text|
    decreases |text| - p
  {
    if p >= |text| then -1
    else
      var pair :=
        if text[p] == '\\' && p + 1 < |text| && text[p + 1] != '\n' then LiteralEnd(text, p + 2, quote) else -1;
      if pair >= 0 then pair
      else
        var single := if text[p] != quote && text[p] != '\n' then LiteralEnd(text, p + 1, quote) else -1;
        if single >= 0 then single
        else if text[p] == quote then p + 1
        else -1
  }

  predicate Quote(c: char) {
    c == '"' || c == '\''
  }

  /** `_STRING_LITERAL.match(text, i)`: its end, or -1.  A back-tick never starts a match. */
  function Match(text: string, i: nat): (end: int)
    requires i < |text|
    ensures end == -1 || i < end <= |text|
  {
    if Quote(text[i]) then LiteralEnd(text, i + 1, text[i]) else -1
  }

  /** The next position either loop looks at: past a literal, or past one character. */
  function Next(text: string, i: nat): (j: nat)
    requires i < |text|
    ensures i < j <= |text|
  {
    if Match(text, i) >= 0 then Match(text, i) else i + 1
  }

  /** The character at `i`, unless a literal starts there. */
  predicate Bare(text: string, i: nat)
    requires i < |text|
  {
    Match(text, i) < 0
  }

  // ----- _matching_brace -----

  /** How braces nest over the positions from `from` on, up to `until`. */
  function Nesting(text: string, from: nat, until: nat): int
    decreases |text| - from
  {
    if from >= |text| || from >= until then 0
    else
      (if Bare(text, from) && text[from] == '{' then 1 else if Bare(text, from) && text[from] == '}' then -1 else 0)
      + Nesting(text, Next(text, from), until)
  }

  /** The loop's positions. */
  predicate Visited(text: string, from: nat, i: nat)
    decreases |text| - from
  {
    if i == from then true
    else if from >= |text| || i < from then false
    else Visited(text, Next(text, from), i)
  }

  /** A bare closing brace where the nesting since `start` comes back to zero. */
  predicate Closes(text: string, start: nat, i: nat) {
    && i < |text| && Visited(text, start, i) && Bare(text, i) && text[i] == '}'
    && Nesting(text, start, i) == 1
  }

  lemma {:induction false} VisitNext(text: string, from: nat, i: nat)
    requires Visited(text, from, i) && i < |text|
    ensures Visited(text, from, Next(text, i))
    ensures forall j :: Visited(text, from, j) && i < j ==> Next(text, i) <= j
    decreases |text| - from
  {
    if i == from {
      forall j | Visited(text, from, j) && i < j ensures Next(text, i) <= j {
        VisitedAfter(text, Next(text, from), j);
      }
    } else {
      VisitedAfter(text, Next(text, from), i);
      VisitNext(text, Next(text, from), i);
      forall j | Visited(text, from, j) && i < j ensures Next(text, i) <= j {
        assert Visited(text, Next(text, from), j);
      }
    }
  }

  lemma VisitedAfter(text: string, from: nat, i: nat)
    requires Visited(text, from, i)
    ensures from <= i
  {
  }

  lemma {:induction false} NestingNext(text: string, from: nat, i: nat)
    requires Visited(text, from, i) && i < |text|
    ensures Nesting(text, from, Next(text, i)) == Nesting(text, from, i)
      + (if Bare(text, i) && text[i] == '{' then 1 else if Bare(text, i) && text[i] == '}' then -1 else 0)
    decreases |text| - from
  {
    if i != from {
      VisitedAfter(text, Next(text, from), i);
      NestingNext(text, Next(text, from), i);
    } else {
      assert Nesting(text, Next(text, i), Next(text, i)) == 0;
    }
  }

  /** `_matching_brace`: the first closing brace that brings the nesting back to zero, and -1
  exactly when there is none. */
  method MatchingBrace(text: string, start: nat) returns (r: int)
    requires start <= |text|
    ensures r >= 0 ==> Closes(text, start, r) && forall i :: 0 <= i < r ==> !Closes(text, start, i)
    ensures r < 0 ==> r == -1 && forall i: nat :: !Closes(text, start, i)
  {
    hide Nesting, Next, Visited;
    var depth, i := 0, start;
    Begin(text, start);
    while i < |text|
      invariant i <= |text| && Visited(text, start, i) && depth == Nesting(text, start, i)
      invariant forall j :: 0 <= j < i ==> !Closes(text, start, j)
      decreases |text| - i
    {
      var c := text[i];
      VisitNext(text, start, i);
      NestingNext(text, start, i);
      OneStep(text, i);
      ghost var was := i;
      if Quote(c) || c == '`' {
        var end := Match(text, i);
        if end >= 0 {
          i := end;
        } else {
          i := i + 1;
        }
        continue;
      }
      if c == '{' {
        depth := depth + 1;
      } else if c == '}' {
        depth := depth - 1;
        if depth == 0 {
          return i;
        }
      }
      i := i + 1;
    }
    r := -1;
  }

  lemma Begin(text: string, start: nat)
    ensures Visited(text, start, start) && Nesting(text, start, start) == 0
    ensures forall j: nat :: j < start ==> !Visited(text, start, j)
  {
  }

  lemma OneStep(text: string, i: nat)
    requires i < |text|
    ensures Next(text, i) == if Match(text, i) >= 0 then Match(text, i) else i + 1
  {
  }

  // ----- Literals that close within their own text -----

  /** Where a literal ends when every reverse solidus takes the next character with it. */
  function StrictEnd(text: string, p: nat, quote: char): (end: int)
    ensures end == -1 || p < end <= |text|
    decreases |text| - p
  {
    if p >= |text| || text[p] == '\n' then -1
    else if text[p] == '\\' then
      if p + 1 < |text| && text[p + 1] != '\n' then StrictEnd(text, p + 2, quote) else -1
    else if text[p] == quote then p + 1
    else StrictEnd(text, p + 1, quote)
  }

  // ----- A literal in its part, and in the whole text -----

  /** How a literal being read at `p` can run past the end of its part before the matcher settles
  for an end inside: with how many characters of the text after it, none or one, which a
  reverse solidus at the end takes along. */
  function Overruns(part: string, p: nat, quote: char): (r: set<nat>)
    requires p <= |part| + 1
    ensures r <= {0, 1}
    decreases |part| + 1 - p
  {
    if p >= |part| then {p - |part|}
    else
      var pairs := part[p] == '\\' && (p + 1 == |part| || part[p + 1] != '\n');
      var taken := if pairs then Overruns(part, p + 2, quote) else {};
      if pairs && LiteralEnd(part, p + 2, quote) >= 0 then taken
      else taken + if part[p] != quote && part[p] != '\n' then Overruns(part, p + 1, quote) else {}
  }

  /** The text after a part closes a literal that comes out of it with `x` characters taken. */
  predicate ClosesLater(post: string, x: nat, quote: char) {
    (x == 1 && post != "" ==> post[0] != '\n') && LiteralEnd(post, x, quote) >= 0
  }

  ghost predicate RunsOver(part: string, p: nat, quote: char, post: string)
    requires p <= |part| + 1
  {
    exists x <- Overruns(part, p, quote) :: ClosesLater(post, x, quote)
  }

  lemma {:induction false} EndShifts(pre: string, post: string, p: nat, quote: char)
    ensures LiteralEnd(pre + post, |pre| + p, quote)
      == if LiteralEnd(post, p, quote) < 0 then -1 else |pre| + LiteralEnd(post, p, quote)
    decreases |post| - p
  {
    if p < |post| {
      assert (pre + post)[|pre| + p] == post[p];
      if p + 1 < |post| { assert (pre + post)[|pre| + p + 1] == post[p + 1]; }
      EndShifts(pre, post, p + 2, quote);
      EndShifts(pre, post, p + 1, quote);
    }
  }

  predicate Pairs(text: string, p: nat)
    requires p < |text|
  {
    text[p] == '\\' && p + 1 < |text| && text[p + 1] != '\n'
  }

  predicate Single(text: string, p: nat, quote: char)
    requires p < |text|
  {
    text[p] != quote && text[p] != '\n'
  }

  lemma EndUnfolds(text: string, p: nat, quote: char)
    requires p < |text|
    ensures LiteralEnd(text, p, quote)
      == if Pairs(text, p) && LiteralEnd(text, p + 2, quote) >= 0 then LiteralEnd(text, p + 2, quote)
         else if Single(text, p, quote) && LiteralEnd(text, p + 1, quote) >= 0 then LiteralEnd(text, p + 1, quote)
         else if text[p] == quote then p + 1 else -1
  {
  }

  lemma RunsOverUnfolds(part: string, p: nat, quote: char, post: string)
    requires p < |part|
    ensures var pairs := Pairs(part, p) || (part[p] == '\\' && p + 1 == |part|);
      RunsOver(part, p, quote, post) <==>
        || (pairs && RunsOver(part, p + 2, quote, post))
        || (!(pairs && LiteralEnd(part, p + 2, quote) >= 0)
            && Single(part, p, quote) && RunsOver(part, p + 1, quote, post))
  {
  }

  lemma EndAfterPart(pre: string, part: string, post: string, p: nat, quote: char)
    requires |part| <= p <= |part| + 1 && (p == |part| + 1 ==> post == "" || post[0] != '\n')
    ensures var end := LiteralEnd(pre + part + post, |pre| + p, quote);
      && (RunsOver(part, p, quote, post) <==> end >= 0) && (end >= 0 ==> end > |pre| + |part|)
      && LiteralEnd(part, p, quote) == -1
  {
    assert pre + part + post == (pre + part) + post;
    EndShifts(pre + part, post, p - |part|, quote);
    assert RunsOver(part, p, quote, post) <==> ClosesLater(post, p - |part|, quote);
  }

  lemma SameCharacter(pre: string, part: string, post: string, p: nat, quote: char)
    requires p < |part|
    ensures var text := pre + part + post;
      && text[|pre| + p] == part[p] && Single(text, |pre| + p, quote) == Single(part, p, quote)
      && (p + 1 < |part| ==> Pairs(text, |pre| + p) == Pairs(part, p))
      && (p + 1 == |part| ==> (Pairs(text, |pre| + p) <==> part[p] == '\\' && post != "" && post[0] != '\n'))
  {
  }

  lemma NothingAfter(part: string, quote: char, post: string)
    requires post == "" || post[0] == '\n'
    ensures !RunsOver(part, |part| + 1, quote, post)
    ensures LiteralEnd(part, |part| + 1, quote) == -1
  {
  }

  /** In the whole text a literal ends where it ends in its part, unless it can run over and the
  text after the part closes it. */
  lemma {:induction false} EndInContext(pre: string, part: string, post: string, p: nat, quote: char)
    requires p <= |part| + 1 && (p == |part| + 1 ==> post == "" || post[0] != '\n')
    ensures var end := LiteralEnd(pre + part + post, |pre| + p, quote);
      if RunsOver(part, p, quote, post) then end > |pre| + |part|
      else end == if LiteralEnd(part, p, quote) < 0 then -1 else |pre| + LiteralEnd(part, p, quote)
    decreases |part| + 1 - p
  {
    hide LiteralEnd, RunsOver, Single, Pairs;
    if p >= |part| {
      EndAfterPart(pre, part, post, p, quote);
    } else {
      SameCharacter(pre, part, post, p, quote);
      EndUnfolds(pre + part + post, |pre| + p, quote);
      EndUnfolds(part, p, quote);
      RunsOverUnfolds(part, p, quote, post);
      EndInContext(pre, part, post, p + 1, quote);
      if p + 1 < |part| || (post != "" && post[0] != '\n') {
        EndInContext(pre, part, post, p + 2, quote);
      } else {
        NothingAfter(part, quote, post);
      }
      if p + 1 == |part| { NotPairs(part, p, quote); }
    }
  }

  lemma NotPairs(part: string, p: nat, quote: char)
    requires p + 1 == |part|
    ensures !Pairs(part, p) && LiteralEnd(part, p + 2, quote) == -1
  {
  }

  /** A literal that closes by strict reading never runs over. */
  lemma {:induction false} StrictStays(part: string, p: nat, quote: char)
    requires Quote(quote) && StrictEnd(part, p, quote) >= 0
    ensures LiteralEnd(part, p, quote) == StrictEnd(part, p, quote) && Overruns(part, p, quote) == {}
    decreases |part| - p
  {
    if part[p] == '\\' {
      StrictStays(part, p + 2, quote);
    } else if part[p] != quote {
      StrictStays(part, p + 1, quote);
    }
  }

  /** So it is matched the same whatever follows it. */
  lemma StrictIsMatched(pre: string, part: string, post: string, p: nat, quote: char)
    requires Quote(quote) && StrictEnd(part, p, quote) >= 0
    ensures LiteralEnd(pre + part + post, |pre| + p, quote) == |pre| + StrictEnd(part, p, quote)
  {
    StrictStays(part, p, quote);
    EndInContext(pre, part, post, p, quote);
  }

  /** Braces nest and literals close, from position `i` on with `depth` braces open. */
  predicate Nested(body: string, i: nat, depth: nat)
    decreases |body| - i
  {
    if i >= |body| then depth == 0
    else if Quote(body[i]) then
      StrictEnd(body, i + 1, body[i]) >= 0 && Nested(body, StrictEnd(body, i + 1, body[i]), depth)
    else if body[i] == '{' then Nested(body, i + 1, depth + 1)
    else if body[i] == '}' then depth > 0 && Nested(body, i + 1, depth - 1)
    else Nested(body, i + 1, depth)
  }

  lemma {:induction false} NothingClosesInside(pre: string, body: string, post: string, start: nat, i: nat, depth: nat)
    requires Nested(body, i, depth) && i <= |body|
    requires var text := pre + body + post;
      Visited(text, start, |pre| + i) && Nesting(text, start, |pre| + i) == depth + 1
    ensures var text := pre + body + post;
      && Visited(text, start, |pre| + |body|) && Nesting(text, start, |pre| + |body|) == 1
      && forall j :: |pre| + i <= j < |pre| + |body| ==> !Closes(text, start, j)
    decreases |body| - i
  {
    hide Visited, Nesting;
    if i < |body| {
      var text, at := pre + body + post, |pre| + i;
      assert text[at] == body[i];
      if Quote(body[i]) { StrictIsMatched(pre, body, post, i + 1, body[i]); }
      VisitNext(text, start, at);
      NestingNext(text, start, at);
      var depth' := if body[i] == '{' then depth + 1 else if body[i] == '}' then depth - 1 else depth;
      NothingClosesInside(pre, body, post, start, Next(text, at) - |pre|, depth');
    }
  }

  /** A block whose braces nest and whose literals close is matched by its own closing brace. */
  lemma BlockIsMatched(pre: string, body: string, post: string, i: nat)
    requires Nested(body, 0, 0)
    ensures var text := pre + "{" + body + "}" + post; var end := |pre| + 1 + |body|;
      Closes(text, |pre|, end) && (i < end ==> !Closes(text, |pre|, i))
  {
    hide Nested;
    var text := pre + "{" + body + "}" + post;
    var before, after := pre + "{", "}" + post;
    assert text == before + body + after;
    assert text[|pre|] == '{' && text[|before| + |body|] == '}';
    Begin(text, |pre|);
    VisitNext(text, |pre|, |pre|);
    NestingNext(text, |pre|, |pre|);
    NothingClosesInside(before, body, after, |pre|, 0, 0);
  }

  // ----- The splitters -----

  /** Brackets of four kinds, one counter, never below zero. */
  function Depth(depth: nat, c: char): nat {
    if c in "{[(<" then depth + 1
    else if c in "}])>" then if depth > 0 then depth - 1 else 0
    else depth
  }

  /** Put `s` in front of the first part. */
  function Glue(s: string, parts: seq<string>): (r: seq<string>)
    requires parts != []
    ensures |r| == |parts|
  {
    [s + parts[0]] + parts[1..]
  }

  /** The parts of the text from `i` on, cut at every separator at depth zero. */
  function Split(text: string, separators: string, i: nat, depth: nat): (parts: seq<string>)
    ensures parts != []
    decreases |text| - i
  {
    if i >= |text| then [""]
    else if Match(text, i) >= 0 then
      Glue(text[i..Match(text, i)], Split(text, separators, Match(text, i), depth))
    else
      var d := Depth(depth, text[i]);
      if d == 0 && text[i] in separators then [""] + Split(text, separators, i + 1, d)
      else Glue([text[i]], Split(text, separators, i + 1, d))
  }

  /** The white space of ASCII, as `str.strip` sees it. */
  predicate Space(c: char) {
    c == ' ' || '\t' <= c <= '\r' || 28 as char <= c <= 31 as char
  }

  function StripLeft(s: string): string {
    if s != "" && Space(s[0]) then StripLeft(s[1..]) else s
  }

  function StripRight(s: string): string {
    if s != "" && Space(s[|s| - 1]) then StripRight(s[..|s| - 1]) else s
  }

  /** `str.strip()` */
  function Strip(s: string): string {
    StripRight(StripLeft(s))
  }

  function NonBlank(parts: seq<string>): seq<string> {
    if parts == [] then []
    else NonBlank(parts[..|parts| - 1]) + (if Strip(parts[|parts| - 1]) != "" then [parts[|parts| - 1]] else [])
  }

  function Stripped(parts: seq<string>): seq<string> {
    if parts == [] then []
    else
      var last := Strip(parts[|parts| - 1]);
      Stripped(parts[..|parts| - 1]) + (if last != "" then [last] else [])
  }

  lemma GlueNothing(s: string, parts: seq<string>)
    requires parts != []
    ensures Glue("", parts) == parts && Glue(s, [""]) == [s]
  {
    assert "" + parts[0] == parts[0] && s + "" == s;
  }

  lemma GlueTwice(a: string, b: string, parts: seq<string>)
    requires parts != []
    ensures Glue(a, Glue(b, parts)) == Glue(a + b, parts)
  {
    assert a + (b + parts[0]) == (a + b) + parts[0];
  }

  lemma StartAgain(done: seq<string>, current: string, rest: seq<string>)
    requires rest != []
    ensures done + Glue(current, [""] + rest) == (done + [current]) + Glue("", rest)
  {
    assert current + "" == current && "" + rest[0] == rest[0];
  }

  /** The loop of both splitters. */
  method SplitLoop(text: string, separators: string) returns (parts: seq<string>)
    ensures parts == Split(text, separators, 0, 0)
  {
    hide Match, Depth, Glue;
    parts := [];
    var current := "";
    var depth: nat, i: nat := 0, 0;
    GlueNothing("", Split(text, separators, 0, 0));
    while i < |text|
      invariant i <= |text|
      invariant parts + Glue(current, Split(text, separators, i, depth)) == Split(text, separators, 0, 0)
      decreases |text| - i
    {
      var c := text[i];
      var end := Match(text, i);
      if end >= 0 {
        GlueTwice(current, text[i..end], Split(text, separators, end, depth));
        current := current + text[i..end];
        i := end;
        continue;
      }
      depth := Depth(depth, c);
      if depth == 0 && c in separators {
        StartAgain(parts, current, Split(text, separators, i + 1, depth));
        parts := parts + [current];
        current := "";
      } else {
        GlueTwice(current, [c], Split(text, separators, i + 1, depth));
        current := current + [c];
      }
      i := i + 1;
    }
    GlueNothing(current, [""]);
    parts := parts + [current];
  }

  /** `_split_union` */
  method SplitUnion(text: string) returns (parts: seq<string>)
    ensures parts == NonBlank(Split(text, "|", 0, 0))
  {
    var all := SplitLoop(text, "|");
    parts := [];
    for i := 0 to |all|
      invariant parts == NonBlank(all[..i])
    {
      assert all[..i + 1][..i] == all[..i];
      if Strip(all[i]) != "" { parts := parts + [all[i]]; }
    }
    assert all[..|all|] == all;
  }

  const MEMBER_SEPARATORS := ";,\n"

  /** `_split_members` */
  method SplitMembers(body: string) returns (members: seq<string>)
    ensures members == Stripped(Split(body, MEMBER_SEPARATORS, 0, 0))
  {
    var all := SplitLoop(body, MEMBER_SEPARATORS);
    members := [];
    for i := 0 to |all|
      invariant members == Stripped(all[..i])
    {
      assert all[..i + 1][..i] == all[..i];
      if Strip(all[i]) != "" { members := members + [Strip(all[i])]; }
    }
    assert all[..|all|] == all;
  }

  // ----- Splitting undoes joining -----

  lemma {:induction false} JoinGlue(s: string, parts: seq<string>, separator: char)
    requires parts != []
    ensures Joined(separator, Glue(s, parts)) == s + Joined(separator, parts)
  {
    var glued := Glue(s, parts);
    assert glued[1..] == parts[1..];
    if |parts| > 1 {
      var rest := [separator] + Joined(separator, parts[1..]);
      assert s + (parts[0] + rest) == (s + parts[0]) + rest;
    }
  }

  /** On every text the cut parts, blank ones included, join back to the text: nothing but
  separators is lost. */
  lemma {:induction false} SplitLosesNothing(text: string, separator: char, i: nat, depth: nat)
    requires i <= |text|
    ensures Joined(separator, Split(text, [separator], i, depth)) == text[i..]
    decreases |text| - i
  {
    hide Match, Depth, LiteralEnd, Joined, Glue;
    if i == |text| {
      JoinedOne(separator, "");
    } else {
      var end := Match(text, i);
      if end >= 0 {
        SplitLosesNothing(text, separator, end, depth);
        JoinGlue(text[i..end], Split(text, [separator], end, depth), separator);
        assert text[i..] == text[i..end] + text[end..];
      } else {
        var d := Depth(depth, text[i]);
        var rest := Split(text, [separator], i + 1, d);
        SplitLosesNothing(text, separator, i + 1, d);
        assert text[i..] == [text[i]] + text[i + 1..];
        if d == 0 && text[i] == separator {
          JoinedCons(separator, "", rest);
        } else {
          JoinGlue([text[i]], rest, separator);
        }
      }
    }
  }

  /** A part that can stand alone: on its own it is one part, with its brackets balanced as the
  counter counts them. */
  predicate Alone(part: string, separators: string, i: nat, depth: nat)
    decreases |part| - i
  {
    if i >= |part| then depth == 0
    else if Match(part, i) >= 0 then Alone(part, separators, Match(part, i), depth)
    else
      var d := Depth(depth, part[i]);
      !(d == 0 && part[i] in separators) && Alone(part, separators, i + 1, d)
  }

  /** No quotation mark of the part starts a literal that the text after the part would close. */
  ghost predicate Settled(part: string, post: string, i: nat)
    decreases |part| - i
  {
    i < |part| ==>
      && (Quote(part[i]) ==> !RunsOver(part, i + 1, part[i], post))
      && Settled(part, post, Next(part, i))
  }

  /** One turn of the splitter inside such a part. */
  lemma AloneStep(pre: string, part: string, post: string, separators: string, i: nat, depth: nat)
    returns (next: nat, d: nat)
    requires Alone(part, separators, i, depth) && i < |part|
    requires Quote(part[i]) ==> !RunsOver(part, i + 1, part[i], post)
    ensures next == Next(part, i) && Alone(part, separators, next, d)
    ensures var text := pre + part + post;
      Split(text, separators, |pre| + i, depth) == Glue(part[i..next], Split(text, separators, |pre| + next, d))
  {
    hide Glue, LiteralEnd, RunsOver;
    var text := pre + part + post;
    assert text[|pre| + i] == part[i];
    if Quote(part[i]) { EndInContext(pre, part, post, i + 1, part[i]); }
    next, d := Next(part, i), if Match(part, i) >= 0 then depth else Depth(depth, part[i]);
    assert next == i + 1 ==> part[i..next] == [part[i]];
    assert text[|pre| + i..|pre| + next] == part[i..next];
  }

  lemma {:induction false} AloneIsKept(pre: string, part: string, post: string, separators: string, i: nat, depth: nat)
    requires Alone(part, separators, i, depth) && Settled(part, post, i) && i <= |part|
    ensures var text := pre + part + post;
      Split(text, separators, |pre| + i, depth) == Glue(part[i..], Split(text, separators, |pre| + |part|, 0))
    decreases |part| - i
  {
    hide Split, Glue;
    var text := pre + part + post;
    var rest := Split(text, separators, |pre| + |part|, 0);
    if i == |part| {
      GlueNothing("", rest);
      assert part[i..] == "";
    } else {
      var next, d := AloneStep(pre, part, post, separators, i, depth);
      AloneIsKept(pre, part, post, separators, next, d);
      assert part[i..] == part[i..next] + part[next..];
      GlueTwice(part[i..next], part[next..], rest);
    }
  }

  /** Otherwise the part comes back longer than it was. */
  lemma {:induction false} AloneIsSwallowed(pre: string, part: string, post: string, separators: string, i: nat, depth: nat)
    requires Alone(part, separators, i, depth) && !Settled(part, post, i) && i <= |part|
    ensures var first := Split(pre + part + post, separators, |pre| + i, depth)[0];
      |first| > |part| - i && exists c :: c in first && Quote(c)
    decreases |part| - i
  {
    hide Split;
    var text := pre + part + post;
    assert text[|pre| + i] == part[i];
    if Quote(part[i]) && RunsOver(part, i + 1, part[i], post) {
      EndInContext(pre, part, post, i + 1, part[i]);
      LiteralFirst(text, separators, |pre| + i, depth);
    } else {
      var next, d := AloneStep(pre, part, post, separators, i, depth);
      AloneIsSwallowed(pre, part, post, separators, next, d);
      var rest := Split(text, separators, |pre| + next, d);
      var c :| c in rest[0] && Quote(c);
      assert c in part[i..next] + rest[0];
    }
  }

  lemma LiteralFirst(text: string, separators: string, i: nat, depth: nat)
    requires i < |text| && Match(text, i) >= 0
    ensures var first := Split(text, separators, i, depth)[0];
      |first| >= Match(text, i) - i && text[i] in first && Quote(text[i])
  {
    var end := Match(text, i);
    var rest := Split(text, separators, end, depth);
    assert text[i..end][0] == text[i] && (text[i..end] + rest[0])[0] == text[i];
  }

  /** The same with every literal closed within the part by strict reading, as every language
  that escapes with a reverse solidus reads it. */
  predicate Whole(part: string, separators: string, i: nat, depth: nat)
    decreases |part| - i
  {
    if i >= |part| then depth == 0
    else if Quote(part[i]) then
      StrictEnd(part, i + 1, part[i]) >= 0 && Whole(part, separators, StrictEnd(part, i + 1, part[i]), depth)
    else
      var d := Depth(depth, part[i]);
      !(d == 0 && part[i] in separators) && Whole(part, separators, i + 1, d)
  }

  /** Such a part stands alone, and whatever follows leaves it alone. */
  lemma {:induction false} WholeIsSettled(part: string, post: string, separators: string, i: nat, depth: nat)
    requires Whole(part, separators, i, depth)
    ensures Alone(part, separators, i, depth) && Settled(part, post, i)
    decreases |part| - i
  {
    if i < |part| {
      if Quote(part[i]) {
        StrictStays(part, i + 1, part[i]);
        WholeIsSettled(part, post, separators, StrictEnd(part, i + 1, part[i]), depth);
      } else {
        WholeIsSettled(part, post, separators, i + 1, Depth(depth, part[i]));
      }
    }
  }

  /** Parts with a separator after each but the last, whichever separators those are. */
  function JoinWith(parts: seq<string>, between: string): string
    requires |parts| == |between| + 1
  {
    if |parts| == 1 then parts[0] else parts[0] + [between[0]] + JoinWith(parts[1..], between[1..])
  }

  predicate AllWhole(parts: seq<string>, separators: string) {
    forall i :: 0 <= i < |parts| ==> Whole(parts[i], separators, 0, 0)
  }

  lemma SeparatorSplits(text: string, separators: string, i: nat)
    requires i < |text| && text[i] in separators && !Quote(text[i]) && Depth(0, text[i]) == 0
    ensures Split(text, separators, i, 0) == [""] + Split(text, separators, i + 1, 0)
  {
  }

  predicate PlainSeparators(separators: string) {
    forall c <- separators :: !Quote(c) && Depth(0, c) == 0
  }

  lemma WholeIsKept(pre: string, part: string, post: string, separators: string)
    requires Whole(part, separators, 0, 0)
    ensures var text := pre + part + post;
      Split(text, separators, |pre|, 0) == Glue(part, Split(text, separators, |pre| + |part|, 0))
  {
    hide Split, Glue;
    WholeIsSettled(part, post, separators, 0, 0);
    AloneIsKept(pre, part, post, separators, 0, 0);
    assert part[0..] == part;
  }

  lemma SplitEnd(text: string, separators: string)
    ensures Split(text, separators, |text|, 0) == [""]
  {
  }

  lemma GlueFirst(parts: seq<string>)
    requires parts != []
    ensures Glue(parts[0], [""] + parts[1..]) == parts
  {
    assert parts[0] + "" == parts[0];
  }

  lemma {:induction false} SplitUndoesJoin(pre: string, parts: seq<string>, between: string, separators: string)
    requires |parts| == |between| + 1 && AllWhole(parts, separators) && PlainSeparators(separators)
    requires forall c <- between :: c in separators
    ensures Split(pre + JoinWith(parts, between), separators, |pre|, 0) == parts
    decreases |parts|
  {
    hide Whole, Alone, Settled, Split, Depth, Match, Glue;
    var text := pre + JoinWith(parts, between);
    if |parts| == 1 {
      assert text == pre + parts[0] + "";
      WholeIsKept(pre, parts[0], "", separators);
      SplitEnd(text, separators);
      GlueNothing(parts[0], [""]);
      assert parts == [parts[0]];
    } else {
      var tail := [between[0]] + JoinWith(parts[1..], between[1..]);
      assert text == pre + parts[0] + tail;
      WholeIsKept(pre, parts[0], tail, separators);
      var at := |pre| + |parts[0]|;
      assert text[at] == between[0] && between[0] in between;
      SeparatorSplits(text, separators, at);
      var pre' := pre + parts[0] + [between[0]];
      assert text == pre' + JoinWith(parts[1..], between[1..]);
      SplitUndoesJoin(pre', parts[1..], between[1..], separators);
      GlueFirst(parts);
    }
  }

  lemma {:induction false} AllNonBlank(parts: seq<string>)
    requires forall p <- parts :: Strip(p) != ""
    ensures NonBlank(parts) == parts
  {
    hide Strip;
    if parts != [] {
      var init, last := parts[..|parts| - 1], parts[|parts| - 1];
      assert last in parts && forall p <- init :: p in parts;
      AllNonBlank(init);
      assert NonBlank(parts) == NonBlank(init) + [last];
      assert parts == init + [last];
    }
  }

  lemma {:induction false} JoinIsJoinWith(parts: seq<string>, separator: char) returns (between: string)
    requires parts != []
    ensures |parts| == |between| + 1 && (forall c <- between :: c == separator)
    ensures JoinWith(parts, between) == Joined(separator, parts)
  {
    if |parts| == 1 {
      between := "";
    } else {
      var rest := JoinIsJoinWith(parts[1..], separator);
      between := [separator] + rest;
      assert between[1..] == rest;
    }
  }

  /** In particular for parts whose literals close by strict reading, whatever follows. */
  lemma UnionRoundTrip(parts: seq<string>)
    requires parts != [] && AllWhole(parts, "|") && forall p <- parts :: Strip(p) != ""
    ensures NonBlank(Split(Joined('|', parts), "|", 0, 0)) == parts
  {
    var between := JoinIsJoinWith(parts, '|');
    assert "" + JoinWith(parts, between) == Joined('|', parts);
    SplitUndoesJoin("", parts, between, "|");
    AllNonBlank(parts);
  }

  lemma {:induction false} InkIsKeptLeft(s: string, c: char)
    requires c in s && !Space(c)
    ensures c in StripLeft(s)
  {
    if Space(s[0]) {
      assert c in s[1..];
      InkIsKeptLeft(s[1..], c);
    }
  }

  lemma {:induction false} InkIsKeptRight(s: string, c: char)
    requires c in s && !Space(c)
    ensures c in StripRight(s)
  {
    if Space(s[|s| - 1]) {
      assert c in s[..|s| - 1];
      InkIsKeptRight(s[..|s| - 1], c);
    }
  }

  lemma InkIsKept(s: string, c: char)
    requires c in s && !Space(c)
    ensures Strip(s) != ""
  {
    InkIsKeptLeft(s, c);
    InkIsKeptRight(StripLeft(s), c);
  }

  lemma {:induction false} NonBlankCons(part: string, rest: seq<string>)
    requires Strip(part) != ""
    ensures NonBlank([part] + rest) == [part] + NonBlank(rest)
  {
    hide Strip;
    var all := [part] + rest;
    if rest == [] {
      assert all == [part] && all[..0] == [];
    } else {
      NonBlankCons(part, rest[..|rest| - 1]);
      assert all[..|all| - 1] == [part] + rest[..|rest| - 1];
    }
  }

  /** Each part is settled by the text after it. */
  ghost predicate AllSettled(parts: seq<string>)
    requires parts != []
  {
    if |parts| == 1 then Settled(parts[0], "", 0)
    else Settled(parts[0], "|" + Joined('|', parts[1..]), 0) && AllSettled(parts[1..])
  }

  lemma FirstIsSwallowed(pre: string, part: string, post: string)
    requires Alone(part, "|", 0, 0) && !Settled(part, post, 0)
    ensures var found := NonBlank(Split(pre + part + post, "|", |pre|, 0));
      found != [] && found[0] != part
  {
    hide Split, Strip;
    AloneIsSwallowed(pre, part, post, "|", 0, 0);
    var all := Split(pre + part + post, "|", |pre|, 0);
    var c :| c in all[0] && Quote(c);
    InkIsKept(all[0], c);
    NonBlankCons(all[0], all[1..]);
    assert all == [all[0]] + all[1..];
  }

  lemma KeptAndCut(pre: string, part: string, post: string)
    requires Alone(part, "|", 0, 0) && Settled(part, post, 0)
    ensures var text := pre + part + post;
      && (post == "" ==> Split(text, "|", |pre|, 0) == [part])
      && (post != "" && post[0] == '|' ==>
            Split(text, "|", |pre|, 0) == [part] + Split(text, "|", |pre| + |part| + 1, 0))
  {
    hide Alone, Settled;
    var text, at := pre + part + post, |pre| + |part|;
    AloneIsKept(pre, part, post, "|", 0, 0);
    assert part[0..] == part;
    if post == "" {
      assert Split(text, "|", at, 0) == [""];
      GlueNothing(part, [""]);
    } else if post[0] == '|' {
      assert text[at] == '|';
      SeparatorSplits(text, "|", at);
      var rest := Split(text, "|", at + 1, 0);
      assert part + "" == part && ([""] + rest)[1..] == rest;
    }
  }

  lemma {:induction false} SplitUndoesJoinExactly(pre: string, parts: seq<string>)
    requires parts != [] && (forall p <- parts :: Alone(p, "|", 0, 0) && Strip(p) != "")
    ensures NonBlank(Split(pre + Joined('|', parts), "|", |pre|, 0)) == parts <==> AllSettled(parts)
    decreases |parts|
  {
    hide Split, NonBlank, Settled, Strip, Alone;
    var part := parts[0];
    if |parts| == 1 {
      assert pre + Joined('|', parts) == pre + part + "" && parts == [part];
      if Settled(part, "", 0) {
        KeptAndCut(pre, part, "");
        AllNonBlank([part]);
      } else {
        FirstIsSwallowed(pre, part, "");
      }
    } else {
      var rest := parts[1..];
      var post, pre' := "|" + Joined('|', rest), pre + part + "|";
      assert pre + Joined('|', parts) == pre + part + post;
      assert pre' + Joined('|', rest) == pre + part + post;
      if Settled(part, post, 0) {
        KeptAndCut(pre, part, post);
        SplitUndoesJoinExactly(pre', rest);
        NonBlankCons(part, Split(pre + part + post, "|", |pre'|, 0));
        assert parts == [part] + rest;
      } else {
        FirstIsSwallowed(pre, part, post);
      }
    }
  }

  /** `_split_union` undoes joining with `|`, for non-blank parts that each stand alone, exactly
  when no quotation mark in a part starts a literal that the text after the part closes. */
  lemma UnionRoundTripExactly(parts: seq<string>)
    requires parts != [] && (forall p <- parts :: Alone(p, "|", 0, 0) && Strip(p) != "")
    ensures NonBlank(Split(Joined('|', parts), "|", 0, 0)) == parts <==> AllSettled(parts)
  {
    SplitUndoesJoinExactly("", parts);
    assert "" + Joined('|', parts) == Joined('|', parts);
  }

  /** `_split_members` recovers the stripped members, whichever separators were between. */
  lemma MembersRoundTrip(members: seq<string>, between: string)
    requires |members| == |between| + 1 && AllWhole(members, MEMBER_SEPARATORS)
    requires forall c <- between :: c in MEMBER_SEPARATORS
    ensures Stripped(Split(JoinWith(members, between), MEMBER_SEPARATORS, 0, 0)) == Stripped(members)
  {
    assert "" + JoinWith(members, between) == JoinWith(members, between);
    SplitUndoesJoin("", members, between, MEMBER_SEPARATORS);
  }

  /** `"a\"`, whose last two characters are a reverse solidus and a quotation mark. */
  const LOOSE: string := ['"', 'a', '\\', '"']

  const TIGHT: string := ['"', 'b', '"']

  lemma LooseMatches()
    ensures Match(LOOSE, 0) == 4 && Match(TIGHT, 0) == 3
    ensures Match(LOOSE + "|" + TIGHT, 0) == 6
    ensures Match(LOOSE + "|" + TIGHT, 6) == -1 && Match(LOOSE + "|" + TIGHT, 7) == -1
  {
    var text := LOOSE + "|" + TIGHT;
    assert LiteralEnd(LOOSE, 4, '"') == -1 && LiteralEnd(LOOSE, 3, '"') == 4;
    assert LiteralEnd(LOOSE, 2, '"') == 4;
    assert LiteralEnd(TIGHT, 2, '"') == 3;
    assert text[4] == '|' && text[5] == '"' && text[6] == 'b' && text[7] == '"' && |text| == 8;
    assert LiteralEnd(text, 5, '"') == 6;
    assert LiteralEnd(text, 4, '"') == 6;
    assert LiteralEnd(text, 2, '"') == 6;
    assert LiteralEnd(text, 8, '"') == -1;
  }

  /** That each part's literal closes on its own is not enough: once more text follows, the
  matcher reads the first part's reverse solidus as escaping its closing quotation mark, and
  both parts come back as one. */
  lemma LooseQuotesDoNotSplit()
    ensures Match(LOOSE, 0) == |LOOSE| && Match(TIGHT, 0) == |TIGHT|
    ensures NonBlank(Split(Joined('|', [LOOSE, TIGHT]), "|", 0, 0)) == [Joined('|', [LOOSE, TIGHT])]
  {
    hide Match;
    LooseMatches();
    var text := LOOSE + "|" + TIGHT;
    assert Joined('|', [LOOSE, TIGHT][1..]) == TIGHT;
    assert Joined('|', [LOOSE, TIGHT]) == text;
    assert Depth(0, 'b') == 0 && Depth(0, '"') == 0 && text[6] == 'b' && text[7] == '"';
    assert Split(text, "|", 8, 0) == [""];
    assert Split(text, "|", 7, 0) == ["\""] by { GlueNothing("\"", [""]); }
    assert text[6..] == [text[6]] + "\"" && Glue([text[6]], ["\""]) == [[text[6]] + "\""];
    assert Split(text, "|", 6, 0) == Glue([text[6]], Split(text, "|", 7, 0));
    assert Split(text, "|", 6, 0) == [text[6..]];
    assert Split(text, "|", 0, 0) == [text] by { assert text == text[0..6] + text[6..]; }
    assert text[0] == '"' && text[7] == '"';
    assert Strip(text) == text;
    assert NonBlank([text][..0]) == [];
  }
}
