/** `forge/targets/naming.py`: the identifiers generators derive from a contract's name.

Characters beyond ASCII only matter through two questions, whether the regular expression
class `\w` has them and whether they are digits; both answers are parameters. */
module Naming {
  predicate Lower(c: char) { 'a' <= c <= 'z' }
  predicate Upper(c: char) { 'A' <= c <= 'Z' }
  predicate Digit(c: char) { '0' <= c <= '9' }
  predicate Alnum(c: char) { Lower(c) || Upper(c) || Digit(c) }
  predicate Ascii(c: char) { c < 128 as char }

  function ToUpper(c: char): char {
    if Lower(c) then 'A' + (c - 'a') else c
  }

  /** `re.split(r"[^A-Za-z0-9]+", name)`, every segment with its first letter raised. */
  function Pascal(name: string, segmentStart: bool): string {
    if name == "" then ""
    else if !Alnum(name[0]) then Pascal(name[1..], true)
    else [if segmentStart then ToUpper(name[0]) else name[0]] + Pascal(name[1..], false)
  }

  function PascalCase(name: string): string {
    Pascal(name, true)
  }

  function Pluralize(name: string): string {
    var n := |name|;
    if n > 1 && name[n - 1] == 'y' && name[n - 2] !in "aeiou" then name[..n - 1] + "ies"
    else if n > 0 && (name[n - 1] in "sxz" || (n > 1 && name[n - 1] == 'h' && name[n - 2] in "sc")) then name + "es"
    else name + "s"
  }

  function ClassName(name: string, domain: string, multi: bool): string {
    if multi then PascalCase(domain) + PascalCase(name) else PascalCase(name)
  }

  function TableName(name: string, domain: string, multi: bool): (t: string)
    ensures t != ""
  {
    if multi then domain + "_" + Pluralize(name) else Pluralize(name)
  }

  function ModuleSlug(u: Unicode, name: string, domain: string, multi: bool): string {
    if multi then domain + "_" + PyIdentifier(u, name) else PyIdentifier(u, name)
  }

  // ----- py_identifier -----

  /** Which characters beyond ASCII are word characters and which of those are digits. */
  datatype Unicode = Unicode(word: char -> bool, digit: char -> bool) {
    predicate Word(c: char) {
      if Ascii(c) then Alnum(c) || c == '_' else word(c)
    }

    predicate IsDigit(c: char) {
      if Ascii(c) then Digit(c) else digit(c)
    }
  }

  /** `keyword.kwlist` and `keyword.softkwlist`. */
  const KEYWORDS: set<string> := {
    "False", "None", "True", "and", "as", "assert", "async", "await", "break", "class", "continue", "def",
    "del", "elif", "else", "except", "finally", "for", "from", "global", "if", "import", "in", "is", "lambda",
    "nonlocal", "not", "or", "pass", "raise", "return", "try", "while", "with", "yield",
    "_", "case", "match", "type"}

  /** `re.sub(r"\W+", "_", raw)` */
  function Squash(u: Unicode, raw: string, inRun: bool): string {
    if raw == "" then ""
    else if u.Word(raw[0]) then [raw[0]] + Squash(u, raw[1..], false)
    else (if inRun then "" else "_") + Squash(u, raw[1..], true)
  }

  function LeftStrip(s: string): string {
    if s != "" && s[0] == '_' then LeftStrip(s[1..]) else s
  }

  function RightStrip(s: string): string {
    if s != "" && s[|s| - 1] == '_' then RightStrip(s[..|s| - 1]) else s
  }

  /** `re.sub(r"_{2,}", "_", s)` */
  function Collapse(s: string): string {
    if |s| < 2 then s
    else if s[0] == '_' && s[1] == '_' then Collapse(s[1..])
    else [s[0]] + Collapse(s[1..])
  }

  function Cleaned(u: Unicode, raw: string): string {
    Collapse(RightStrip(LeftStrip(Squash(u, raw, false))))
  }

  function Fenced(u: Unicode, cleaned: string): string {
    var named := if cleaned == "" then "x" else cleaned;
    var started := if u.IsDigit(named[0]) then "x" + named else named;
    if started in KEYWORDS then started + "_" else started
  }

  function PyIdentifier(u: Unicode, raw: string): string {
    Fenced(u, Cleaned(u, raw))
  }

  /** Word characters only, no underscore at either end, no two in a row. */
  ghost predicate Clean(u: Unicode, s: string) {
    && (forall i :: 0 <= i < |s| ==> u.Word(s[i]))
    && (s != "" ==> s[0] != '_' && s[|s| - 1] != '_')
    && (forall i :: 0 < i < |s| ==> !(s[i - 1] == '_' && s[i] == '_'))
  }

  ghost function Words(u: Unicode, s: string): set<char> {
    set c <- s | u.Word(c) && c != '_'
  }

  lemma {:induction false} SquashWords(u: Unicode, raw: string, inRun: bool)
    ensures forall c <- Squash(u, raw, inRun) :: u.Word(c)
    ensures Words(u, Squash(u, raw, inRun)) == Words(u, raw)
  {
    if raw != "" {
      SquashWords(u, raw[1..], !u.Word(raw[0]));
      assert raw == [raw[0]] + raw[1..];
      assert Words(u, raw) == Words(u, raw[1..]) + (if u.Word(raw[0]) && raw[0] != '_' then {raw[0]} else {});
    }
  }

  lemma {:induction false} LeftStripWords(u: Unicode, s: string)
    requires forall c <- s :: u.Word(c)
    ensures forall c <- LeftStrip(s) :: u.Word(c)
    ensures Words(u, LeftStrip(s)) == Words(u, s)
    ensures LeftStrip(s) != "" ==> LeftStrip(s)[0] != '_'
  {
    if s != "" && s[0] == '_' { LeftStripWords(u, s[1..]); }
  }

  lemma {:induction false} RightStripWords(u: Unicode, s: string)
    requires forall c <- s :: u.Word(c)
    ensures forall c <- RightStrip(s) :: u.Word(c)
    ensures Words(u, RightStrip(s)) == Words(u, s)
    ensures RightStrip(s) != "" ==> RightStrip(s)[|RightStrip(s)| - 1] != '_' && RightStrip(s)[0] == s[0]
  {
    if s != "" && s[|s| - 1] == '_' { RightStripWords(u, s[..|s| - 1]); }
  }

  lemma {:induction false} CollapseClean(u: Unicode, s: string)
    requires forall c <- s :: u.Word(c)
    ensures |Collapse(s)| <= |s| && (s != "" ==> Collapse(s) != "" && Collapse(s)[0] == s[0])
    ensures s != "" ==> Collapse(s)[|Collapse(s)| - 1] == s[|s| - 1]
    ensures forall c <- Collapse(s) :: u.Word(c)
    ensures Words(u, Collapse(s)) == Words(u, s)
    ensures forall i :: 0 < i < |Collapse(s)| ==> !(Collapse(s)[i - 1] == '_' && Collapse(s)[i] == '_')
  {
    if |s| >= 2 {
      CollapseClean(u, s[1..]);
      assert s == [s[0]] + s[1..];
      assert Words(u, s) == Words(u, s[1..]) + (if s[0] != '_' then {s[0]} else {});
    }
  }

  lemma CleanedIsClean(u: Unicode, raw: string)
    ensures Clean(u, Cleaned(u, raw)) && Words(u, Cleaned(u, raw)) == Words(u, raw)
  {
    var a := Squash(u, raw, false);
    SquashWords(u, raw, false);
    LeftStripWords(u, a);
    RightStripWords(u, LeftStrip(a));
    CollapseClean(u, RightStrip(LeftStrip(a)));
  }

  predicate LegalIdentifier(u: Unicode, s: string) {
    && s != "" && !u.IsDigit(s[0]) && s !in KEYWORDS
    && (forall i :: 0 <= i < |s| ==> u.Word(s[i]))
  }

  lemma NoKeywordEndsInUnderscore(s: string)
    requires s != ""
    ensures s + "_" !in KEYWORDS
  {
    var t := s + "_";
    assert |t| >= 2 && t[|t| - 1] == '_';
  }

  /** For every input the result is a legal, non-reserved identifier.  It is an ASCII one, which
  the documentation promises too, exactly when the input has no word character beyond ASCII. */
  lemma PyIdentifierIsLegal(u: Unicode, raw: string)
    ensures LegalIdentifier(u, PyIdentifier(u, raw))
    ensures (forall c <- PyIdentifier(u, raw) :: Ascii(c)) <==> (forall c <- raw :: u.Word(c) ==> Ascii(c))
  {
    CleanedIsClean(u, raw);
    var cleaned := Cleaned(u, raw);
    var named := if cleaned == "" then "x" else cleaned;
    var started := if u.IsDigit(named[0]) then "x" + named else named;
    NoKeywordEndsInUnderscore(started);
    var r := PyIdentifier(u, raw);
    forall c | c in raw && u.Word(c) && !Ascii(c) ensures c in r {
      assert c in Words(u, raw);
    }
    forall c | c in r && !Ascii(c) ensures c in raw && u.Word(c) {
      assert c in cleaned;
      assert c in Words(u, cleaned);
    }
  }

  /** A name of one letter beyond ASCII keeps it. */
  lemma PyIdentifierCanLeaveAscii()
    ensures var u := Unicode(c => c == 233 as char, _ => false);
      exists c :: c in PyIdentifier(u, [233 as char]) && !Ascii(c)
  {
    var u := Unicode(c => c == 233 as char, _ => false);
    assert u.Word(233 as char) && !Ascii(233 as char) && (233 as char) in [233 as char];
    PyIdentifierIsLegal(u, [233 as char]);
  }

  lemma {:induction false} SquashCleanString(u: Unicode, s: string)
    requires forall c <- s :: u.Word(c)
    ensures Squash(u, s, false) == s
  {
    if s != "" { SquashCleanString(u, s[1..]); }
  }

  lemma {:induction false} CollapseCleanString(s: string)
    requires forall i :: 0 < i < |s| ==> !(s[i - 1] == '_' && s[i] == '_')
    ensures Collapse(s) == s
  {
    if |s| >= 2 {
      forall i | 0 < i < |s[1..]| ensures !(s[1..][i - 1] == '_' && s[1..][i] == '_') {
        assert !(s[i] == '_' && s[i + 1] == '_');
      }
      assert !(s[0] == '_' && s[1] == '_');
      CollapseCleanString(s[1..]);
    }
  }

  lemma CleanIsFixed(u: Unicode, s: string)
    requires Clean(u, s)
    ensures Cleaned(u, s) == s && (s != "" ==> Cleaned(u, s + "_") == s)
  {
    SquashCleanString(u, s);
    CollapseCleanString(s);
    if s != "" {
      SquashCleanString(u, s + "_");
      assert (s + "_")[..|s|] == s;
    }
  }

  /** Deriving an identifier from an identifier changes nothing. */
  lemma PyIdentifierIdempotent(u: Unicode, raw: string)
    ensures PyIdentifier(u, PyIdentifier(u, raw)) == PyIdentifier(u, raw)
  {
    CleanedIsClean(u, raw);
    var cleaned := Cleaned(u, raw);
    var named := if cleaned == "" then "x" else cleaned;
    var started := if u.IsDigit(named[0]) then "x" + named else named;
    assert Clean(u, started) by {
      if u.IsDigit(named[0]) {
        forall i | 0 < i < |started| ensures !(started[i - 1] == '_' && started[i] == '_') {
          assert i > 1 ==> started[i - 1] == named[i - 2] && started[i] == named[i - 1];
        }
      }
    }
    CleanIsFixed(u, started);
  }
}
