/** `engine/structured.py`: finding the balanced `{...}` objects in a model's reply. */
module JsonScanner {
  datatype Span = Span(start: nat, end: nat)

  // ----- The specification: where in the text the lexer is -----

  datatype Mode = Outside | InString | Escaped

  function NextMode(m: Mode, c: char): Mode {
    match m
    case Outside => if c == '"' then InString else Outside
    case InString => if c == '\\' then Escaped else if c == '"' then Outside else InString
    case Escaped => InString
  }

  /** The lexer's mode before character `i`. */
  function ModeAt(text: string, i: nat): Mode
    requires i <= |text|
  {
    if i == 0 then Outside else NextMode(ModeAt(text, i - 1), text[i - 1])
  }

  function NextLevel(m: Mode, level: nat, c: char): nat {
    if m == Outside && c == '{' then level + 1
    else if m == Outside && c == '}' && level > 0 then level - 1
    else level
  }

  /** How many braces are open before character `i`; a stray closing brace is ignored. */
  function LevelAt(text: string, i: nat): nat
    requires i <= |text|
  {
    if i == 0 then 0 else NextLevel(ModeAt(text, i - 1), LevelAt(text, i - 1), text[i - 1])
  }

  /** A brace opened at level 0, up to the first return to level 0. */
  ghost predicate IsSpan(text: string, s: Span) {
    && s.start < s.end <= |text|
    && ModeAt(text, s.start) == Outside && text[s.start] == '{'
    && LevelAt(text, s.start) == 0 && LevelAt(text, s.end) == 0
    && forall k :: s.start < k < s.end ==> LevelAt(text, k) > 0
  }

  ghost predicate Ordered(spans: seq<Span>) {
    && (forall i :: 0 <= i < |spans| ==> spans[i].start < spans[i].end)
    && (forall i, j :: 0 <= i < j < |spans| ==> spans[i].end <= spans[j].start)
  }

  /** The spans that end within the first `i` characters have been reported. */
  ghost predicate Reported(text: string, i: nat, spans: seq<Span>)
    requires i <= |text|
  {
    && Ordered(spans)
    && (forall s <- spans :: IsSpan(text, s) && s.end <= i)
    && (forall s :: IsSpan(text, s) && s.end <= i ==> s in spans)
  }

  /** `start` remembers where the open object began. */
  ghost predicate Opened(text: string, i: nat, start: int, spans: seq<Span>)
    requires i <= |text|
  {
    if LevelAt(text, i) == 0 then start == -1
    else
      && 0 <= start < i && text[start] == '{'
      && ModeAt(text, start) == Outside && LevelAt(text, start) == 0
      && (forall k :: start < k <= i ==> LevelAt(text, k) > 0)
      && (forall s <- spans :: s.end <= start)
  }

  lemma SameStart(text: string, a: Span, b: Span)
    requires IsSpan(text, a) && IsSpan(text, b) && a.end == b.end
    ensures a == b
  {
  }

  /** No object ends with character `i` unless the level drops to 0 there. */
  lemma NothingEnds(text: string, i: nat, spans: seq<Span>)
    requires i < |text| && Reported(text, i, spans)
    requires LevelAt(text, i) == 0 || LevelAt(text, i + 1) > 0
    ensures Reported(text, i + 1, spans)
  {
  }

  lemma OneEnds(text: string, i: nat, spans: seq<Span>, start: int)
    requires i < |text| && Reported(text, i, spans) && Opened(text, i, start, spans)
    requires LevelAt(text, i) > 0 && LevelAt(text, i + 1) == 0
    ensures Reported(text, i + 1, spans + [Span(start, i + 1)])
  {
    var last := Span(start, i + 1);
    assert IsSpan(text, last);
    forall s | IsSpan(text, s) && s.end <= i + 1 ensures s in spans + [last] {
      if s.end == i + 1 { SameStart(text, s, last); }
    }
  }

  /** `_balanced_object_spans` */
  method BalancedObjectSpans(text: string) returns (spans: seq<Span>)
    ensures Ordered(spans) && forall s :: s in spans <==> IsSpan(text, s)
  {
    hide IsSpan, Ordered;
    spans := [];
    var depth, start := 0, -1;
    var inString, escaped := false, false;
    NothingYet(text);
    for i := 0 to |text|
      invariant depth == LevelAt(text, i)
      invariant ModeAt(text, i) == (if !inString then Outside else if escaped then Escaped else InString)
      invariant escaped ==> inString
      invariant Reported(text, i, spans) && Opened(text, i, start, spans)
    {
      var ch := text[i];
      ghost var was, level, open := spans, depth, start;
      if inString {
        if escaped {
          escaped := false;
        } else if ch == '\\' {
          escaped := true;
        } else if ch == '"' {
          inString := false;
        }
      } else if ch == '"' {
        inString := true;
      } else if ch == '{' {
        if depth == 0 { start := i; }
        depth := depth + 1;
      } else if ch == '}' {
        if depth > 0 {
          depth := depth - 1;
          if depth == 0 && start >= 0 {
            OneEnds(text, i, spans, start);
            spans := spans + [Span(start, i + 1)];
            start := -1;
          }
        }
      }
      if level == 0 || depth > 0 { NothingEnds(text, i, was); }
    }
    AllReported(text, spans);
  }

  lemma NothingYet(text: string)
    ensures Reported(text, 0, [])
  {
  }

  lemma AllReported(text: string, spans: seq<Span>)
    requires Reported(text, |text|, spans)
    ensures Ordered(spans) && forall s :: s in spans <==> IsSpan(text, s)
  {
  }

  // ----- JSON text -----

  /** A JSON value; numbers and the three literal names are kept as they are written. */
  datatype Json =
    | Atom(text: string)
    | Text(value: string)
    | Array(items: seq<Json>)
    | Object(members: seq<Member>)

  datatype Member = Member(name: string, value: Json)

  /** How a printer lays JSON out: the escape of each character, and the white space it puts
  around commas, colons and brackets. */
  datatype Printer = Printer(escape: char -> string, gap: string) {
    ghost predicate Ok() {
      && Plain(gap)
      && forall c :: EscapeOk(escape(c))
    }
  }

  /** Section 7 of RFC 8259: a unit stands for itself unless it is a quotation mark or a reverse
  solidus, or is written as a reverse solidus, one more character, and possibly hex digits. */
  predicate UnitOk(e: string) {
    || (|e| == 1 && e[0] != '"' && e[0] != '\\')
    || (|e| >= 2 && e[0] == '\\' && forall i :: 2 <= i < |e| ==> e[i] != '"' && e[i] != '\\')
  }

  /** A character is one unit, or two when it lies outside the Basic Multilingual Plane and is
  written as a surrogate pair. */
  ghost predicate EscapeOk(e: string) {
    UnitOk(e) || exists n: nat :: n <= |e| && UnitOk(e[..n]) && UnitOk(e[n..])
  }

  /** U+1F600 as twelve characters, the default of `json.dumps`. */
  lemma SurrogatePairIsAnEscape()
    ensures EscapeOk(['\\', 'u', 'd', '8', '3', 'd', '\\', 'u', 'd', 'e', '0', '0'])
  {
    var e := ['\\', 'u', 'd', '8', '3', 'd', '\\', 'u', 'd', 'e', '0', '0'];
    assert UnitOk(e[..6]) && UnitOk(e[6..]);
  }

  /** Neither quotation marks nor braces. */
  predicate Plain(s: string) {
    forall i :: 0 <= i < |s| ==> s[i] != '"' && s[i] != '{' && s[i] != '}'
  }

  function Escaping(p: Printer, s: string): string {
    if s == "" then "" else Escaping(p, s[..|s| - 1]) + p.escape(s[|s| - 1])
  }

  function Quoted(p: Printer, s: string): string {
    "\"" + Escaping(p, s) + "\""
  }

  ghost predicate Printable(j: Json) {
    match j
    case Atom(text) => Plain(text)
    case Text(_) => true
    case Array(items) => forall i :: 0 <= i < |items| ==> Printable(items[i])
    case Object(members) => forall i :: 0 <= i < |members| ==> Printable(members[i].value)
  }

  function Print(p: Printer, j: Json): string
    decreases j
  {
    match j
    case Atom(text) => text
    case Text(value) => Quoted(p, value)
    case Array(items) => "[" + p.gap + PrintItems(p, items, |items|) + p.gap + "]"
    case Object(members) => "{" + Inner(p, members) + "}"
  }

  function Comma(p: Printer, n: nat): string {
    if n == 1 then "" else "," + p.gap
  }

  function PrintItems(p: Printer, items: seq<Json>, n: nat): string
    requires n <= |items|
    decreases items, n
  {
    if n == 0 then "" else PrintItems(p, items, n - 1) + Comma(p, n) + Print(p, items[n - 1])
  }

  function PrintMembers(p: Printer, members: seq<Member>, n: nat): string
    requires n <= |members|
    decreases members, n
  {
    if n == 0 then ""
    else
      var m := members[n - 1];
      PrintMembers(p, members, n - 1) + Comma(p, n) + Quoted(p, m.name) + (p.gap + ":" + p.gap) + Print(p, m.value)
  }

  /** What a printed object has between its braces. */
  function Inner(p: Printer, members: seq<Member>): string
    decreases members, |members| + 1
  {
    p.gap + PrintMembers(p, members, |members|) + p.gap
  }

  // ----- Scanning a printed value -----

  /** The lexer before character `i`, when it starts in mode `m` with `level` open braces. */
  datatype Lexer = Lexer(mode: Mode, level: nat)

  function Step(l: Lexer, c: char): Lexer {
    Lexer(NextMode(l.mode, c), NextLevel(l.mode, l.level, c))
  }

  function Run(l: Lexer, s: string): Lexer {
    if s == "" then l else Step(Run(l, s[..|s| - 1]), s[|s| - 1])
  }

  lemma {:induction false} RunAppend(l: Lexer, a: string, b: string)
    ensures Run(l, a + b) == Run(Run(l, a), b)
  {
    if b == "" {
      assert a + b == a;
    } else {
      RunAppend(l, a, b[..|b| - 1]);
      assert (a + b)[..|a + b| - 1] == a + b[..|b| - 1];
    }
  }

  /** From mode `m` with `level` braces open, `s` comes back there and never closes one of
  those braces on the way. */
  ghost predicate Keeps(m: Mode, s: string, level: nat) {
    && Run(Lexer(m, level), s) == Lexer(m, level)
    && forall k :: 0 <= k <= |s| ==> Run(Lexer(m, level), s[..k]).level >= level
  }

  lemma KeepsAppend(m: Mode, a: string, b: string, level: nat)
    requires Keeps(m, a, level) && Keeps(m, b, level)
    ensures Keeps(m, a + b, level)
  {
    var l := Lexer(m, level);
    RunAppend(l, a, b);
    forall k | 0 <= k <= |a + b| ensures Run(l, (a + b)[..k]).level >= level {
      if k <= |a| {
        assert (a + b)[..k] == a[..k];
      } else {
        assert (a + b)[..k] == a + b[..k - |a|];
        RunAppend(l, a, b[..k - |a|]);
      }
    }
  }

  /** Characters that do not move the lexer out of mode `m` nor change the level. */
  predicate Idle(m: Mode, s: string) {
    forall i :: 0 <= i < |s| ==> s[i] != '"' && if m == Outside then s[i] != '{' && s[i] != '}' else s[i] != '\\'
  }

  lemma {:induction false} IdleKeeps(m: Mode, s: string, level: nat)
    requires m != Escaped && Idle(m, s)
    ensures Keeps(m, s, level)
  {
    if s == "" {
      assert s[..0] == "";
    } else {
      var init := s[..|s| - 1];
      IdleKeeps(m, init, level);
      forall k | 0 <= k <= |s| ensures Run(Lexer(m, level), s[..k]).level >= level {
        if k < |s| { assert s[..k] == init[..k]; } else { assert s[..k] == s; }
      }
    }
  }

  lemma UnitKeeps(e: string, level: nat)
    requires UnitOk(e)
    ensures Keeps(InString, e, level)
  {
    if |e| == 1 {
      IdleKeeps(InString, e, level);
    } else {
      var head, tail := e[..2], e[2..];
      var l := Lexer(InString, level);
      assert head[..0] == "" && head[..1][..0] == "" && head[..2] == head;
      assert Run(l, head[..1]) == Lexer(Escaped, level);
      assert Run(l, head) == l;
      assert Keeps(InString, head, level);
      IdleKeeps(InString, tail, level);
      KeepsAppend(InString, head, tail, level);
      assert e == head + tail;
    }
  }

  lemma EscapeKeeps(e: string, level: nat)
    requires EscapeOk(e)
    ensures Keeps(InString, e, level)
  {
    hide Keeps, UnitOk;
    if UnitOk(e) {
      UnitKeeps(e, level);
    } else {
      var n: nat :| n <= |e| && UnitOk(e[..n]) && UnitOk(e[n..]);
      UnitKeeps(e[..n], level);
      UnitKeeps(e[n..], level);
      KeepsAppend(InString, e[..n], e[n..], level);
      assert e == e[..n] + e[n..];
    }
  }

  lemma {:induction false} EscapingKeeps(p: Printer, s: string, level: nat)
    requires p.Ok()
    ensures Keeps(InString, Escaping(p, s), level)
  {
    if s == "" {
      IdleKeeps(InString, "", level);
    } else {
      EscapingKeeps(p, s[..|s| - 1], level);
      EscapeKeeps(p.escape(s[|s| - 1]), level);
      KeepsAppend(InString, Escaping(p, s[..|s| - 1]), p.escape(s[|s| - 1]), level);
    }
  }

  /** `open`, then something that keeps the inner state, then `close`. */
  lemma Wrapped(open: char, m: Mode, s: string, close: char, level: nat, inner: nat)
    requires Step(Lexer(Outside, level), open) == Lexer(m, inner) && inner >= level
    requires Step(Lexer(m, inner), close) == Lexer(Outside, level)
    requires Keeps(m, s, inner)
    ensures Keeps(Outside, [open] + s + [close], level)
    ensures forall k :: 1 <= k <= |s| + 1 ==> Run(Lexer(Outside, level), ([open] + s + [close])[..k]).level >= inner
  {
    var l, all := Lexer(Outside, level), [open] + s + [close];
    assert [open][..0] == "" && Run(l, [open]) == Lexer(m, inner);
    forall k | 1 <= k <= |s| + 1 ensures Run(l, all[..k]).level >= inner {
      assert all[..k] == [open] + s[..k - 1];
      RunAppend(l, [open], s[..k - 1]);
    }
    assert all[..|s| + 1] == [open] + s;
    RunAppend(l, [open], s);
    assert all[..|all|] == all && all[..0] == "";
  }

  lemma QuotedKeeps(p: Printer, s: string, level: nat)
    requires p.Ok()
    ensures Keeps(Outside, Quoted(p, s), level)
  {
    EscapingKeeps(p, s, level);
    Wrapped('"', InString, Escaping(p, s), '"', level, level);
  }

  lemma {:induction false} PrintKeeps(p: Printer, j: Json, level: nat)
    requires p.Ok() && Printable(j)
    ensures Keeps(Outside, Print(p, j), level)
    decreases j
  {
    hide Keeps;
    match j
    case Atom(text) => IdleKeeps(Outside, text, level);
    case Text(value) => QuotedKeeps(p, value, level);
    case Array(items) =>
      ItemsKeep(p, items, |items|, level);
      IdleKeeps(Outside, "[", level);
      IdleKeeps(Outside, p.gap, level);
      IdleKeeps(Outside, "]", level);
      KeepsAppend(Outside, "[", p.gap, level);
      KeepsAppend(Outside, "[" + p.gap, PrintItems(p, items, |items|), level);
      KeepsAppend(Outside, "[" + p.gap + PrintItems(p, items, |items|), p.gap, level);
      KeepsAppend(Outside, "[" + p.gap + PrintItems(p, items, |items|) + p.gap, "]", level);
    case Object(members) =>
      InnerKeeps(p, members, level + 1);
      Wrapped('{', Outside, Inner(p, members), '}', level, level + 1);
  }

  lemma {:induction false} ItemsKeep(p: Printer, items: seq<Json>, n: nat, level: nat)
    requires p.Ok() && n <= |items| && forall i :: 0 <= i < |items| ==> Printable(items[i])
    ensures Keeps(Outside, PrintItems(p, items, n), level)
    decreases items, n
  {
    hide Keeps;
    if n == 0 {
      IdleKeeps(Outside, "", level);
    } else {
      ItemsKeep(p, items, n - 1, level);
      IdleKeeps(Outside, Comma(p, n), level);
      PrintKeeps(p, items[n - 1], level);
      KeepsAppend(Outside, PrintItems(p, items, n - 1), Comma(p, n), level);
      KeepsAppend(Outside, PrintItems(p, items, n - 1) + Comma(p, n), Print(p, items[n - 1]), level);
    }
  }

  lemma {:induction false} MembersKeep(p: Printer, members: seq<Member>, n: nat, level: nat)
    requires p.Ok() && n <= |members| && forall i :: 0 <= i < |members| ==> Printable(members[i].value)
    ensures Keeps(Outside, PrintMembers(p, members, n), level)
    decreases members, n
  {
    hide Keeps;
    if n == 0 {
      IdleKeeps(Outside, "", level);
    } else {
      var m := members[n - 1];
      var colon := p.gap + ":" + p.gap;
      MembersKeep(p, members, n - 1, level);
      IdleKeeps(Outside, Comma(p, n), level);
      QuotedKeeps(p, m.name, level);
      IdleKeeps(Outside, colon, level);
      PrintKeeps(p, m.value, level);
      var a := PrintMembers(p, members, n - 1);
      KeepsAppend(Outside, a, Comma(p, n), level);
      KeepsAppend(Outside, a + Comma(p, n), Quoted(p, m.name), level);
      KeepsAppend(Outside, a + Comma(p, n) + Quoted(p, m.name), colon, level);
      KeepsAppend(Outside, a + Comma(p, n) + Quoted(p, m.name) + colon, Print(p, m.value), level);
    }
  }

  lemma {:induction false} InnerKeeps(p: Printer, members: seq<Member>, level: nat)
    requires p.Ok() && forall i :: 0 <= i < |members| ==> Printable(members[i].value)
    ensures Keeps(Outside, Inner(p, members), level)
    decreases members, |members| + 1
  {
    hide Keeps;
    MembersKeep(p, members, |members|, level);
    IdleKeeps(Outside, p.gap, level);
    KeepsAppend(Outside, p.gap, PrintMembers(p, members, |members|), level);
    KeepsAppend(Outside, p.gap + PrintMembers(p, members, |members|), p.gap, level);
  }

  // ----- Prose around an object -----

  lemma {:induction false} LevelInProse(text: string, from: nat, until: nat)
    requires from <= until <= |text| && Idle(Outside, text[from..until])
    requires ModeAt(text, from) == Outside && LevelAt(text, from) == 0
    ensures forall k :: from <= k <= until ==> ModeAt(text, k) == Outside && LevelAt(text, k) == 0
    decreases until
  {
    if from < until {
      var init := text[from..until - 1];
      assert forall i :: 0 <= i < |init| ==> init[i] == text[from..until][i];
      LevelInProse(text, from, until - 1);
      assert text[until - 1] == text[from..until][until - 1 - from];
      assert ModeAt(text, until) == NextMode(ModeAt(text, until - 1), text[until - 1]) == Outside;
      assert LevelAt(text, until) == NextLevel(Outside, LevelAt(text, until - 1), text[until - 1]) == 0;
    }
  }

  /** Whatever printer wrote it, a JSON object embedded in prose without quotation marks and
  braces is found, whole, and nothing else is. */
  lemma PrintedObjectIsFound(p: Printer, before: string, members: seq<Member>, after: string, s: Span)
    requires p.Ok() && Printable(Object(members)) && Plain(before) && Plain(after)
    ensures var printed := Print(p, Object(members));
      IsSpan(before + printed + after, s) <==> s == Span(|before|, |before| + |printed|)
  {
    hide Keeps, Printable;
    var printed := Print(p, Object(members));
    var text := before + printed + after;
    var lo, hi := |before|, |before| + |printed|;
    assert text[0..lo] == before && text[lo..hi] == printed && text[hi..|text|] == after;
    LevelInProse(text, 0, lo);
    ObjectLevels(p, members, text, lo);
    LevelInProse(text, hi, |text|);
    if IsSpan(text, s) {
      assert LevelAt(text, s.start + 1) == 1;
      assert s.start == lo;
    }
  }

  lemma KeepsEnds(s: string, level: nat)
    requires Keeps(Outside, s, level)
    ensures Run(Lexer(Outside, level), s) == Lexer(Outside, level)
  {
  }

  lemma {:induction false} RunWithin(text: string, lo: nat, s: string)
    requires lo + |s| <= |text| && text[lo..lo + |s|] == s
    ensures Run(Lexer(ModeAt(text, lo), LevelAt(text, lo)), s) == Lexer(ModeAt(text, lo + |s|), LevelAt(text, lo + |s|))
  {
    if s != "" {
      var init := s[..|s| - 1];
      assert text[lo..lo + |init|] == init;
      RunWithin(text, lo, init);
      assert text[lo + |s| - 1] == s[|s| - 1];
    }
  }

  lemma ObjectLevels(p: Printer, members: seq<Member>, text: string, lo: nat)
    requires p.Ok() && Printable(Object(members)) && lo + |Print(p, Object(members))| <= |text|
    requires text[lo..lo + |Print(p, Object(members))|] == Print(p, Object(members))
    requires ModeAt(text, lo) == Outside && LevelAt(text, lo) == 0
    ensures var hi := lo + |Print(p, Object(members))|;
      && text[lo] == '{' && hi >= lo + 2
      && ModeAt(text, hi) == Outside && LevelAt(text, hi) == 0
      && forall k :: lo < k < hi ==> LevelAt(text, k) > 0
  {
    hide Keeps, Inner, Run;
    var printed := Print(p, Object(members));
    InnerKeeps(p, members, 1);
    Wrapped('{', Outside, Inner(p, members), '}', 0, 1);
    assert printed == ['{'] + Inner(p, members) + ['}'];
    assert text[lo] == printed[0];
    KeepsEnds(printed, 0);
    RunWithin(text, lo, printed);
    forall k | lo < k < lo + |printed| ensures LevelAt(text, k) > 0 {
      assert text[lo..k] == printed[..k - lo];
      RunWithin(text, lo, printed[..k - lo]);
      assert Run(Lexer(Outside, 0), printed[..k - lo]).level >= 1;
    }
  }

  lemma OnlyOne(spans: seq<Span>, only: Span)
    requires Ordered(spans) && spans != [] && forall i :: 0 <= i < |spans| ==> spans[i] == only
    ensures spans == [only]
  {
    var last := spans[|spans| - 1];
    assert last == only && spans[0] == only;
  }

  /** So the scanner returns that one span. */
  lemma PrintedObjectIsTheResult(p: Printer, before: string, members: seq<Member>, after: string, spans: seq<Span>)
    requires p.Ok() && Printable(Object(members)) && Plain(before) && Plain(after)
    requires var text := before + Print(p, Object(members)) + after;
      Ordered(spans) && forall s :: s in spans <==> IsSpan(text, s)
    ensures spans == [Span(|before|, |before| + |Print(p, Object(members))|)]
  {
    hide IsSpan, Plain, Printable;
    var only := Span(|before|, |before| + |Print(p, Object(members))|);
    forall s ensures s in spans <==> s == only { PrintedObjectIsFound(p, before, members, after, s); }
    assert only in spans;
    forall i | 0 <= i < |spans| ensures spans[i] == only { assert spans[i] in spans; }
    OnlyOne(spans, only);
  }

  // ----- Texts of several parts -----

  /** The text ends outside of strings and objects. */
  predicate Settled(text: string) {
    ModeAt(text, |text|) == Outside && LevelAt(text, |text|) == 0
  }

  lemma {:induction false} FrontLexes(a: string, b: string, k: nat)
    requires k <= |a|
    ensures ModeAt(a + b, k) == ModeAt(a, k) && LevelAt(a + b, k) == LevelAt(a, k)
  {
    if k > 0 {
      FrontLexes(a, b, k - 1);
      assert (a + b)[k - 1] == a[k - 1];
    }
  }

  lemma {:induction false} BackLexes(a: string, b: string, k: nat)
    requires Settled(a) && k <= |b|
    ensures ModeAt(a + b, |a| + k) == ModeAt(b, k) && LevelAt(a + b, |a| + k) == LevelAt(b, k)
  {
    if k == 0 {
      FrontLexes(a, b, |a|);
    } else {
      BackLexes(a, b, k - 1);
      assert (a + b)[|a| + k - 1] == b[k - 1];
    }
  }

  function Behind(s: Span, n: nat): Span
    requires n <= s.start && n <= s.end
  {
    Span(s.start - n, s.end - n)
  }

  /** Behind a settled text the scan starts anew: its objects are those of the two parts. */
  lemma SpansCompose(a: string, b: string, s: Span)
    requires Settled(a) && s.start < s.end
    ensures IsSpan(a + b, s) <==> IsSpan(a, s) || (s.start >= |a| && IsSpan(b, Behind(s, |a|)))
    ensures Settled(a + b) <==> Settled(b)
  {
    hide ModeAt, LevelAt, IsSpan;
    BackLexes(a, b, |b|);
    assert |a| + |b| == |a + b|;
    if s.start < |a| {
      SpansBefore(a, b, s);
    } else {
      SpansBehind(a, b, s);
      EndsWithin(a, s);
    }
  }

  lemma EndsWithin(a: string, s: Span)
    requires s.start >= |a|
    ensures !IsSpan(a, s)
  {
  }

  lemma SpansBefore(a: string, b: string, s: Span)
    requires s.start < s.end && s.start < |a| && Settled(a)
    ensures IsSpan(a + b, s) <==> IsSpan(a, s)
  {
    hide ModeAt, LevelAt;
    forall k: nat | k <= |a| ensures ModeAt(a + b, k) == ModeAt(a, k) && LevelAt(a + b, k) == LevelAt(a, k) {
      FrontLexes(a, b, k);
    }
    assert (a + b)[s.start] == a[s.start];
    if IsSpan(a + b, s) {
      assert LevelAt(a + b, |a|) == 0;
      assert s.end <= |a|;
      forall k | s.start < k < s.end ensures LevelAt(a, k) > 0 { assert LevelAt(a + b, k) > 0; }
    }
    if IsSpan(a, s) {
      forall k | s.start < k < s.end ensures LevelAt(a + b, k) > 0 { assert LevelAt(a, k) > 0; }
    }
  }

  lemma SpansBehind(a: string, b: string, s: Span)
    requires |a| <= s.start < s.end && Settled(a)
    ensures IsSpan(a + b, s) <==> IsSpan(b, Behind(s, |a|))
  {
    hide ModeAt, LevelAt;
    forall k: nat | |a| <= k <= |a + b|
      ensures ModeAt(a + b, k) == ModeAt(b, k - |a|) && LevelAt(a + b, k) == LevelAt(b, k - |a|)
    {
      BackLexes(a, b, k - |a|);
    }
    assert s.end <= |a + b| ==> (a + b)[s.start] == b[s.start - |a|];
    var n, t := |a|, Behind(s, |a|);
    if IsSpan(a + b, s) {
      forall k | t.start < k < t.end ensures LevelAt(b, k) > 0 { assert LevelAt(a + b, k + n) > 0; }
    }
    if IsSpan(b, t) {
      forall k | s.start < k < s.end ensures LevelAt(a + b, k) > 0 { assert LevelAt(b, k - n) > 0; }
    }
  }

  /** A closing brace without an opening one is nothing. */
  lemma StrayBraceIsNothing(s: Span)
    ensures Settled("}") && !IsSpan("}", s)
  {
    assert ModeAt("}", 0) == Outside && LevelAt("}", 0) == 0;
  }

  /** In prose too, what stands between quotation marks is no object. */
  lemma QuotedIsNothing(w: string, s: Span)
    requires forall i :: 0 <= i < |w| ==> w[i] != '"' && w[i] != '\\'
    ensures var quoted := "\"" + w + "\""; Settled(quoted) && !IsSpan(quoted, s)
  {
    var quoted := "\"" + w + "\"";
    assert quoted[0] == '"' && quoted[|w| + 1] == '"';
    assert ModeAt(quoted, 0) == Outside && LevelAt(quoted, 0) == 0;
    InsideQuotes(quoted, w, |w|);
    assert IsSpan(quoted, s) ==> s.start <= |w| + 1;
    if 0 < s.start <= |w| + 1 { InsideQuotes(quoted, w, s.start - 1); }
  }

  lemma {:induction false} InsideQuotes(quoted: string, w: string, k: nat)
    requires forall i :: 0 <= i < |w| ==> w[i] != '"' && w[i] != '\\'
    requires quoted == "\"" + w + "\"" && k <= |w|
    ensures ModeAt(quoted, k + 1) == InString && LevelAt(quoted, k + 1) == 0
  {
    if k == 0 {
      assert quoted[0] == '"';
      assert ModeAt(quoted, 0) == Outside && LevelAt(quoted, 0) == 0;
    } else {
      InsideQuotes(quoted, w, k - 1);
      assert quoted[k] == w[k - 1];
    }
  }

  /** An object that is never closed hides whatever comes after it. */
  lemma UnclosedIsNothing(text: string, s: Span)
    requires text != "" && text[0] == '{' && forall k :: 0 < k <= |text| ==> LevelAt(text, k) > 0
    ensures !IsSpan(text, s)
  {
    assert LevelAt(text, 0) == 0;
  }
}
