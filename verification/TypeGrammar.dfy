/** What the splitters of `extractor/analyzers/typescript_types.py` do with types as they are
written: names, string literals and nested brackets of the four kinds. */
module TypeGrammar {
  import opened Splitting
  import opened TypeSplitter

  datatype Bracket = Round | Square | Curly | Angle {
    function Open(): char {
      match this
      case Round => '('
      case Square => '['
      case Curly => '{'
      case Angle => '<'
    }

    function Close(): char {
      match this
      case Round => ')'
      case Square => ']'
      case Curly => '}'
      case Angle => '>'
    }
  }

  datatype Piece =
    | Name(text: string)
    | Literal(quote: char, body: string)
    | Bracketed(bracket: Bracket, inner: seq<Piece>)

  function PrintOne(p: Piece): string
    decreases p
  {
    match p
    case Name(text) => text
    case Literal(quote, body) => [quote] + body + [quote]
    case Bracketed(bracket, inner) => [bracket.Open()] + Print(inner) + [bracket.Close()]
  }

  function Print(ps: seq<Piece>): string
    decreases ps
  {
    if ps == [] then "" else PrintOne(ps[0]) + Print(ps[1..])
  }

  predicate NoBracket(c: char) {
    c != '(' && c != ')' && c != '[' && c != ']' && c != '{' && c != '}' && c != '<' && c != '>'
  }

  /** Names have no quotation marks and brackets, literals are on one line and have no escapes;
  a separator may stand inside of brackets and literals only. */
  predicate Fine(p: Piece, separators: string, top: bool)
    decreases p
  {
    match p
    case Name(text) => forall c <- text :: !Quote(c) && NoBracket(c) && (top ==> c !in separators)
    case Literal(quote, body) => Quote(quote) && forall c <- body :: c != quote && c != '\\' && c != '\n'
    case Bracketed(_, inner) => AllFine(inner, separators, false)
  }

  predicate AllFine(ps: seq<Piece>, separators: string, top: bool)
    decreases ps
  {
    ps == [] || (Fine(ps[0], separators, top) && AllFine(ps[1..], separators, top))
  }

  predicate NoBrackets(separators: string) {
    forall c <- separators :: !Quote(c) && NoBracket(c)
  }

  lemma DepthIs(depth: nat, c: char)
    ensures NoBracket(c) ==> Depth(depth, c) == depth
    ensures forall b: Bracket :: Depth(depth, b.Open()) == depth + 1 && Depth(depth + 1, b.Close()) == depth
  {
    assert forall x :: x in "{[(<" <==> x == '{' || x == '[' || x == '(' || x == '<';
    assert forall x :: x in "}])>" <==> x == '}' || x == ']' || x == ')' || x == '>';
  }

  /** One character that is no quotation mark. */
  lemma WholeStep(text: string, separators: string, i: nat, depth: nat)
    requires i < |text| && !Quote(text[i])
    requires !(Depth(depth, text[i]) == 0 && text[i] in separators)
    ensures Whole(text, separators, i, depth) == Whole(text, separators, i + 1, Depth(depth, text[i]))
  {
  }

  lemma {:induction false} NameIsSkipped(pre: string, name: string, post: string, separators: string, k: nat, depth: nat)
    requires k <= |name| && Fine(Name(name), separators, depth == 0)
    ensures var text := pre + name + post;
      Whole(text, separators, |pre| + k, depth) == Whole(text, separators, |pre| + |name|, depth)
    decreases |name| - k
  {
    hide Whole, Depth;
    if k < |name| {
      var text := pre + name + post;
      assert text[|pre| + k] == name[k] && name[k] in name;
      DepthIs(depth, name[k]);
      WholeStep(text, separators, |pre| + k, depth);
      NameIsSkipped(pre, name, post, separators, k + 1, depth);
    }
  }

  lemma {:induction false} LiteralCloses(text: string, p: nat, body: string, quote: char, k: nat)
    requires k <= |body| && p + |body| < |text| && text[p..p + |body|] == body && text[p + |body|] == quote
    requires Quote(quote) && forall c <- body :: c != quote && c != '\\' && c != '\n'
    ensures StrictEnd(text, p + k, quote) == p + |body| + 1
    decreases |body| - k
  {
    if k < |body| {
      assert text[p + k] == body[k] && body[k] in body;
      LiteralCloses(text, p, body, quote, k + 1);
    }
  }

  lemma {:induction false} PieceIsSkipped(pre: string, p: Piece, post: string, separators: string, depth: nat)
    requires NoBrackets(separators) && Fine(p, separators, depth == 0)
    ensures var text := pre + PrintOne(p) + post;
      Whole(text, separators, |pre|, depth) == Whole(text, separators, |pre| + |PrintOne(p)|, depth)
    decreases p
  {
    match p
    case Name(text) => NameIsSkipped(pre, text, post, separators, 0, depth);
    case Literal(quote, body) =>
      var text := pre + PrintOne(p) + post;
      assert text[|pre|] == quote && text[|pre| + 1..|pre| + 1 + |body|] == body;
      LiteralCloses(text, |pre| + 1, body, quote, 0);
    case Bracketed(bracket, inner) => BracketIsSkipped(pre, bracket, inner, post, separators, depth);
  }

  lemma {:induction false} BracketIsSkipped(
    pre: string, bracket: Bracket, inner: seq<Piece>, post: string, separators: string, depth: nat)
    requires NoBrackets(separators) && AllFine(inner, separators, false)
    ensures var printed := [bracket.Open()] + Print(inner) + [bracket.Close()];
      var text := pre + printed + post;
      Whole(text, separators, |pre|, depth) == Whole(text, separators, |pre| + |printed|, depth)
    decreases inner, 1
  {
    hide Whole, Depth, Print, AllFine;
    var open, close := bracket.Open(), bracket.Close();
    var body := Print(inner);
    var text := pre + ([open] + body + [close]) + post;
    var before, after := pre + [open], [close] + post;
    assert text == before + body + after;
    assert text[|pre|] == open && text[|before| + |body|] == close;
    assert !Quote(open) && !Quote(close) && open !in separators && close !in separators by {
      BracketsAreNone(bracket, separators);
    }
    DepthIs(depth, open);
    WholeStep(text, separators, |pre|, depth);
    PiecesAreSkipped(before, inner, after, separators, depth + 1);
    WholeStep(text, separators, |before| + |body|, depth + 1);
  }

  lemma BracketsAreNone(bracket: Bracket, separators: string)
    requires NoBrackets(separators)
    ensures !Quote(bracket.Open()) && bracket.Open() !in separators
    ensures !Quote(bracket.Close()) && bracket.Close() !in separators
  {
  }

  lemma {:induction false} PiecesAreSkipped(pre: string, ps: seq<Piece>, post: string, separators: string, depth: nat)
    requires NoBrackets(separators) && AllFine(ps, separators, depth == 0)
    ensures var text := pre + Print(ps) + post;
      Whole(text, separators, |pre|, depth) == Whole(text, separators, |pre| + |Print(ps)|, depth)
    decreases ps, 0
  {
    hide Whole, Depth, NoBrackets;
    if ps != [] {
      var first, rest := PrintOne(ps[0]), Print(ps[1..]);
      PieceIsSkipped(pre, ps[0], rest + post, separators, depth);
      PiecesAreSkipped(pre + first, ps[1..], post, separators, depth);
      assert pre + Print(ps) + post == pre + first + (rest + post) == (pre + first) + rest + post;
    }
  }

  /** A printed type is one part, whatever it has inside of brackets. */
  lemma PrintedIsWhole(ps: seq<Piece>, separators: string)
    requires NoBrackets(separators) && AllFine(ps, separators, true)
    ensures Whole(Print(ps), separators, 0, 0)
  {
    PiecesAreSkipped("", ps, "", separators, 0);
    assert "" + Print(ps) + "" == Print(ps);
  }

  function PrintEach(types: seq<seq<Piece>>): (r: seq<string>)
    ensures |r| == |types| && forall i :: 0 <= i < |types| ==> r[i] == Print(types[i])
  {
    seq(|types|, i requires 0 <= i < |types| => Print(types[i]))
  }

  predicate AllTypes(types: seq<seq<Piece>>, separators: string) {
    forall i :: 0 <= i < |types| ==> AllFine(types[i], separators, true)
  }

  lemma AllPrintedWhole(types: seq<seq<Piece>>, separators: string)
    requires NoBrackets(separators) && AllTypes(types, separators)
    ensures AllWhole(PrintEach(types), separators)
  {
    forall i | 0 <= i < |types| ensures Whole(PrintEach(types)[i], separators, 0, 0) {
      PrintedIsWhole(types[i], separators);
    }
  }

  /** Splitting a union gives back the types that were joined, but for the blank ones. */
  lemma UnionOfTypes(types: seq<seq<Piece>>)
    requires types != [] && AllTypes(types, "|")
    ensures NonBlank(Split(Joined('|', PrintEach(types)), "|", 0, 0)) == NonBlank(PrintEach(types))
  {
    hide Split, NonBlank;
    assert NoBrackets("|") by { assert forall c <- "|" :: c == '|'; }
    AllPrintedWhole(types, "|");
    var parts := PrintEach(types);
    var between := JoinIsJoinWith(parts, '|');
    assert "" + JoinWith(parts, between) == Joined('|', parts);
    SplitUndoesJoin("", parts, between, "|");
  }

  /** And splitting members, whichever separators were between. */
  lemma MembersOfTypes(types: seq<seq<Piece>>, between: string)
    requires |types| == |between| + 1 && AllTypes(types, MEMBER_SEPARATORS)
    requires forall c <- between :: c in MEMBER_SEPARATORS
    ensures Stripped(Split(JoinWith(PrintEach(types), between), MEMBER_SEPARATORS, 0, 0)) == Stripped(PrintEach(types))
  {
    hide Split, Stripped;
    assert NoBrackets(MEMBER_SEPARATORS) by {
      assert forall c <- MEMBER_SEPARATORS :: c == ';' || c == ',' || c == '\n';
    }
    AllPrintedWhole(types, MEMBER_SEPARATORS);
    MembersRoundTrip(PrintEach(types), between);
  }

  // ----- str.strip -----

  predicate AllSpace(s: string) {
    forall c <- s :: Space(c)
  }

  lemma {:induction false} StripLeftExactly(s: string) returns (l: string)
    ensures AllSpace(l) && s == l + StripLeft(s) && (StripLeft(s) != "" ==> !Space(StripLeft(s)[0]))
  {
    if s != "" && Space(s[0]) {
      var rest := StripLeftExactly(s[1..]);
      l := [s[0]] + rest;
    } else {
      l := "";
    }
  }

  lemma {:induction false} StripRightExactly(s: string) returns (r: string)
    ensures AllSpace(r) && s == StripRight(s) + r
    ensures StripRight(s) != "" ==> !Space(StripRight(s)[|StripRight(s)| - 1]) && StripRight(s)[0] == s[0]
  {
    if s != "" && Space(s[|s| - 1]) {
      var rest := StripRightExactly(s[..|s| - 1]);
      r := rest + [s[|s| - 1]];
    } else {
      r := "";
    }
  }

  /** Stripping takes off white space at both ends, all of it and nothing else. */
  lemma StripExactly(s: string) returns (l: string, r: string)
    ensures AllSpace(l) && AllSpace(r) && s == l + Strip(s) + r
    ensures var t := Strip(s); t != "" ==> !Space(t[0]) && !Space(t[|t| - 1])
    ensures Strip(s) == "" <==> AllSpace(s)
  {
    l := StripLeftExactly(s);
    r := StripRightExactly(StripLeft(s));
    var t := Strip(s);
    if t != "" {
      assert s[|l|] == t[0] && s[|l|] in s;
    } else {
      assert s == l + r;
    }
  }

  /** Blank parts are dropped, the others kept in their order. */
  lemma {:induction false} NonBlankAppend(a: seq<string>, b: seq<string>)
    ensures NonBlank(a + b) == NonBlank(a) + NonBlank(b)
  {
    hide Strip;
    if b == [] {
      assert a + b == a;
    } else {
      var last := b[|b| - 1];
      NonBlankAppend(a, b[..|b| - 1]);
      assert (a + b)[..|a + b| - 1] == a + b[..|b| - 1] && (a + b)[|a + b| - 1] == last;
    }
  }

  lemma {:induction false} StrippedAppend(a: seq<string>, b: seq<string>)
    ensures Stripped(a + b) == Stripped(a) + Stripped(b)
  {
    hide Strip;
    if b == [] {
      assert a + b == a;
    } else {
      var last := b[|b| - 1];
      StrippedAppend(a, b[..|b| - 1]);
      assert (a + b)[..|a + b| - 1] == a + b[..|b| - 1] && (a + b)[|a + b| - 1] == last;
    }
  }

  lemma OnePart(part: string)
    ensures NonBlank([part]) == if AllSpace(part) then [] else [part]
    ensures Stripped([part]) == if AllSpace(part) then [] else [Strip(part)]
  {
    var l, r := StripExactly(part);
    hide Strip;
    assert [part][..0] == [];
  }
}
