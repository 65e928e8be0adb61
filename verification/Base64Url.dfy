/** `_b64e` and `_b64d` (`healer/security.py`): section 5 of RFC 4648 without padding. */
module Base64Url {
  import opened Collections

  type Byte = n: nat | n < 256

  type Sextet = n: nat | n < 64

  function Letter(n: Sextet): char {
    if n < 26 then 'A' + n as char
    else if n < 52 then 'a' + (n - 26) as char
    else if n < 62 then '0' + (n - 52) as char
    else if n == 62 then '-'
    else '_'
  }

  /** What the decoder reads: the two letters of the ordinary alphabet count as well. */
  function Value(c: char): Option<Sextet> {
    if 'A' <= c <= 'Z' then Some((c - 'A') as int)
    else if 'a' <= c <= 'z' then Some((c - 'a') as int + 26)
    else if '0' <= c <= '9' then Some((c - '0') as int + 52)
    else if c == '-' || c == '+' then Some(62)
    else if c == '_' || c == '/' then Some(63)
    else None
  }

  lemma LetterValue(n: Sextet)
    ensures Value(Letter(n)) == Some(n) && Letter(n) != '=' && Letter(n) != '.'
  {
  }

  /** `base64.urlsafe_b64encode` */
  function Padded(raw: seq<Byte>): string {
    if raw == [] then ""
    else if |raw| == 1 then [Letter(raw[0] / 4), Letter(raw[0] % 4 * 16), '=', '=']
    else if |raw| == 2 then
      [Letter(raw[0] / 4), Letter(raw[0] % 4 * 16 + raw[1] / 16), Letter(raw[1] % 16 * 4), '=']
    else
      [Letter(raw[0] / 4), Letter(raw[0] % 4 * 16 + raw[1] / 16),
       Letter(raw[1] % 16 * 4 + raw[2] / 64), Letter(raw[2] % 64)] + Padded(raw[3..])
  }

  /** `.rstrip(b"=")` */
  function StripPadding(s: string): string {
    if s != "" && s[|s| - 1] == '=' then StripPadding(s[..|s| - 1]) else s
  }

  function Encode(raw: seq<Byte>): string {
    StripPadding(Padded(raw))
  }

  /** The lenient decoder of `base64.urlsafe_b64decode`, which drops characters outside the
  alphabet: `quad` counts the letters of the current group, `left` holds its pending bits. */
  function DecodeFrom(text: string, quad: nat, pads: nat, left: nat): Option<seq<Byte>>
    requires quad < 4
    decreases text
  {
    if text == "" then
      if quad == 0 then Some([]) else None
    else
      var rest := text[1..];
      if text[0] == '=' then
        if quad >= 2 && quad + pads + 1 >= 4 then Some([]) else DecodeFrom(rest, quad, pads + 1, left)
      else
        match Value(text[0])
        case None => DecodeFrom(rest, quad, pads, left)
        case Some(v) =>
          if quad == 0 then DecodeFrom(rest, 1, 0, v)
          else
            var byte: Byte :=
              (if quad == 1 then left * 4 + v / 16 else if quad == 2 then left * 16 + v / 4 else left * 64 + v) % 256;
            var keep := if quad == 1 then v % 16 else if quad == 2 then v % 4 else 0;
            var tail := DecodeFrom(rest, (quad + 1) % 4, 0, keep);
            if tail.None? then None else Some([byte] + tail.value)
  }

  function Padding(n: nat): string {
    if n == 0 then "" else Padding(n - 1) + "="
  }

  /** `_b64d`: pads to a multiple of four, then decodes. */
  function Decode(text: string): Option<seq<Byte>> {
    DecodeFrom(text + Padding(Missing(|text|)), 0, 0, 0)
  }

  // ----- Round trip -----

  /** One letter of a group. */
  lemma DecodeLetter(n: Sextet, rest: string, quad: nat, pads: nat, left: nat)
    requires 1 <= quad < 4
    ensures var byte: Byte :=
        (if quad == 1 then left * 4 + n / 16 else if quad == 2 then left * 16 + n / 4 else left * 64 + n) % 256;
      var keep := if quad == 1 then n % 16 else if quad == 2 then n % 4 else 0;
      var tail := DecodeFrom(rest, (quad + 1) % 4, 0, keep);
      DecodeFrom([Letter(n)] + rest, quad, pads, left) == if tail.None? then None else Some([byte] + tail.value)
  {
    LetterValue(n);
    assert ([Letter(n)] + rest)[1..] == rest;
  }

  lemma DecodeFirst(n: Sextet, rest: string, pads: nat, left: nat)
    ensures DecodeFrom([Letter(n)] + rest, 0, pads, left) == DecodeFrom(rest, 1, 0, n)
  {
    LetterValue(n);
    assert ([Letter(n)] + rest)[1..] == rest;
  }

  lemma SplitBytes(a: Byte, b: Byte, c: Byte)
    ensures a / 4 * 4 + (a % 4 * 16 + b / 16) / 16 == a && (a % 4 * 16 + b / 16) % 16 == b / 16
    ensures b / 16 * 16 + (b % 16 * 4 + c / 64) / 4 == b && (b % 16 * 4 + c / 64) % 4 == c / 64
    ensures c / 64 * 64 + c % 64 == c
  {
  }

  lemma DecodeGroup(a: Byte, b: Byte, c: Byte, rest: string, left: nat)
    ensures var tail := DecodeFrom(rest, 0, 0, 0);
      DecodeFrom([Letter(a / 4), Letter(a % 4 * 16 + b / 16), Letter(b % 16 * 4 + c / 64), Letter(c % 64)] + rest,
                 0, 0, left)
      == if tail.None? then None else Some([a, b, c] + tail.value)
  {
    hide DecodeFrom, Letter;
    SplitBytes(a, b, c);
    var l0, l1, l2, l3 := Letter(a / 4), Letter(a % 4 * 16 + b / 16), Letter(b % 16 * 4 + c / 64), Letter(c % 64);
    assert [l0, l1, l2, l3] + rest == [l0] + ([l1] + ([l2] + ([l3] + rest)));
    DecodeFirst(a / 4, [l1] + ([l2] + ([l3] + rest)), 0, left);
    DecodeLetter(a % 4 * 16 + b / 16, [l2] + ([l3] + rest), 1, 0, a / 4);
    DecodeLetter(b % 16 * 4 + c / 64, [l3] + rest, 2, 0, b / 16);
    DecodeLetter(c % 64, rest, 3, 0, c / 64);
    var tail := DecodeFrom(rest, 0, 0, 0);
    if tail.Some? { assert [a] + ([b] + ([c] + tail.value)) == [a, b, c] + tail.value; }
  }

  /** What the decoder and the stripping make of one or two padding characters. */
  lemma PaddingFacts()
    ensures Padding(0) == "" && Padding(1) == "=" && Padding(2) == "=="
    ensures StripPadding("==") == "" && StripPadding("=") == "" && StripPadding("") == ""
    ensures DecodeFrom("==", 2, 0, 0) == Some([]) && DecodeFrom("=", 3, 0, 0) == Some([])
  {
    var two, one := "==", "=";
    assert two[1..] == one && one[1..] == "" && two[..1] == one && one[..0] == "";
    assert Padding(1) == Padding(0) + "=";
    assert Padding(2) == Padding(1) + "=";
  }

  /** The last group, with its padding. */
  lemma DecodeOne(a: Byte, pad: string)
    requires DecodeFrom(pad, 2, 0, 0) == Some([])
    ensures DecodeFrom([Letter(a / 4)] + ([Letter(a % 4 * 16)] + pad), 0, 0, 0) == Some([a])
  {
    hide DecodeFrom, Letter;
    SplitBytes(a, 0, 0);
    DecodeFirst(a / 4, [Letter(a % 4 * 16)] + pad, 0, 0);
    DecodeLetter(a % 4 * 16, pad, 1, 0, a / 4);
    assert [a] + [] == [a];
  }

  lemma DecodeTwo(a: Byte, b: Byte, pad: string)
    requires DecodeFrom(pad, 3, 0, 0) == Some([])
    ensures DecodeFrom([Letter(a / 4)] + ([Letter(a % 4 * 16 + b / 16)] + ([Letter(b % 16 * 4)] + pad)), 0, 0, 0)
      == Some([a, b])
  {
    hide DecodeFrom, Letter;
    SplitBytes(a, b, 0);
    DecodeFirst(a / 4, [Letter(a % 4 * 16 + b / 16)] + ([Letter(b % 16 * 4)] + pad), 0, 0);
    DecodeLetter(a % 4 * 16 + b / 16, [Letter(b % 16 * 4)] + pad, 1, 0, a / 4);
    DecodeLetter(b % 16 * 4, pad, 2, 0, b / 16);
    assert [a] + ([b] + []) == [a, b];
  }

  lemma DecodeLast(raw: seq<Byte>)
    requires |raw| == 1 || |raw| == 2
    ensures DecodeFrom(Padded(raw), 0, 0, 0) == Some(raw)
  {
    PaddingFacts();
    hide DecodeFrom, Letter, Padding, StripPadding;
    if |raw| == 1 {
      DecodeOne(raw[0], "==");
      assert raw == [raw[0]];
      PaddedOne(raw[0]);
    } else {
      DecodeTwo(raw[0], raw[1], "=");
      assert raw == [raw[0], raw[1]];
      PaddedTwo(raw[0], raw[1]);
    }
  }

  lemma PaddedOne(a: Byte)
    ensures Padded([a]) == [Letter(a / 4)] + ([Letter(a % 4 * 16)] + "==")
  {
    hide Letter;
  }

  lemma PaddedTwo(a: Byte, b: Byte)
    ensures Padded([a, b])
      == [Letter(a / 4)] + ([Letter(a % 4 * 16 + b / 16)] + ([Letter(b % 16 * 4)] + "="))
  {
    hide Letter;
  }

  lemma {:induction false} DecodePadded(raw: seq<Byte>)
    ensures DecodeFrom(Padded(raw), 0, 0, 0) == Some(raw)
  {
    hide Letter;
    if |raw| == 1 || |raw| == 2 {
      DecodeLast(raw);
    } else if raw != [] {
      DecodePadded(raw[3..]);
      DecodeGroup(raw[0], raw[1], raw[2], Padded(raw[3..]), 0);
      assert raw == [raw[0], raw[1], raw[2]] + raw[3..];
    }
  }

  /** The letters of the first group. */
  function Head(raw: seq<Byte>): string
    requires raw != []
  {
    if |raw| == 1 then [Letter(raw[0] / 4), Letter(raw[0] % 4 * 16)]
    else if |raw| == 2 then [Letter(raw[0] / 4), Letter(raw[0] % 4 * 16 + raw[1] / 16), Letter(raw[1] % 16 * 4)]
    else
      [Letter(raw[0] / 4), Letter(raw[0] % 4 * 16 + raw[1] / 16),
       Letter(raw[1] % 16 * 4 + raw[2] / 64), Letter(raw[2] % 64)]
  }

  predicate Lettered(s: string) {
    '=' !in s && '.' !in s
  }

  lemma HeadShape(raw: seq<Byte>)
    requires raw != []
    ensures Lettered(Head(raw)) && |Head(raw)| == (if |raw| < 3 then |raw| + 1 else 4)
    ensures Padded(raw) == Head(raw) + (if |raw| == 1 then "==" else if |raw| == 2 then "=" else Padded(raw[3..]))
  {
    LetterValue(raw[0] / 4);
    LetterValue(if |raw| == 1 then raw[0] % 4 * 16 else raw[0] % 4 * 16 + raw[1] / 16);
    if |raw| > 1 { LetterValue(if |raw| == 2 then raw[1] % 16 * 4 else raw[1] % 16 * 4 + raw[2] / 64); }
    if |raw| > 2 { LetterValue(raw[2] % 64); }
    hide Letter;
  }

  lemma ShapeStep(head: string, tail: string, inner: string, k: nat)
    requires head != "" && Lettered(head) && Lettered(inner)
    requires tail == inner + Padding(k) && StripPadding(tail) == inner
    ensures StripPadding(head + tail) == head + inner && Lettered(head + inner)
    ensures head + tail == head + inner + Padding(k)
  {
    hide Padding, StripPadding;
    assert head[|head| - 1] in head;
    StripBehind(head, tail);
  }

  /** How much padding brings `n` to a multiple of four. */
  function Missing(n: nat): nat {
    (4 - n % 4) % 4
  }

  lemma MissingFacts(n: nat)
    ensures Missing(n + 4) == Missing(n) && Missing(0) == 0 && Missing(2) == 2 && Missing(3) == 1
  {
  }

  ghost predicate Shape(padded: string) {
    var letters := StripPadding(padded);
    Lettered(letters) && padded == letters + Padding(Missing(|letters|))
  }

  lemma ShapeOfTail(head: string, tail: string)
    requires |head| == 4 && Lettered(head) && Shape(tail)
    ensures Shape(head + tail)
  {
    hide Padding, StripPadding, Lettered, Missing;
    var inner := StripPadding(tail);
    MissingFacts(|inner|);
    ShapeStep(head, tail, inner, Missing(|inner|));
  }

  lemma ShapeOfLast(head: string, pad: string)
    requires Lettered(head) && ((|head| == 2 && pad == "==") || (|head| == 3 && pad == "="))
    ensures Shape(head + pad)
  {
    PaddingFacts();
    MissingFacts(0);
    NoLetters();
    ShapeStep(head, pad, "", |pad|);
    assert head + "" == head;
  }

  /** Letters, then as much padding as makes the length a multiple of four. */
  lemma {:induction false} PaddedShape(raw: seq<Byte>)
    ensures Shape(Padded(raw))
  {
    if raw == [] {
      PaddingFacts();
      MissingFacts(0);
    } else {
      HeadShape(raw);
      hide Padded, Head, Shape, Lettered;
      if |raw| == 1 {
        ShapeOfLast(Head(raw), "==");
      } else if |raw| == 2 {
        ShapeOfLast(Head(raw), "=");
      } else {
        PaddedShape(raw[3..]);
        ShapeOfTail(Head(raw), Padded(raw[3..]));
      }
    }
  }

  lemma NoLetters()
    ensures Lettered("")
  {
  }

  lemma {:induction false} StripBehind(head: string, s: string)
    requires head != "" && head[|head| - 1] != '='
    ensures StripPadding(head + s) == head + StripPadding(s)
  {
    if s == "" {
      assert head + s == head;
    } else if s[|s| - 1] == '=' {
      StripBehind(head, s[..|s| - 1]);
      assert (head + s)[..|head + s| - 1] == head + s[..|s| - 1];
    }
  }

  /** Decoding inverts encoding, for every byte string; and an encoding has no dot in it. */
  lemma RoundTrip(raw: seq<Byte>)
    ensures Decode(Encode(raw)) == Some(raw) && '.' !in Encode(raw)
  {
    PaddedShape(raw);
    DecodePadded(raw);
  }

  lemma EncodeInjective(a: seq<Byte>, b: seq<Byte>)
    requires Encode(a) == Encode(b)
    ensures a == b
  {
    RoundTrip(a);
    RoundTrip(b);
  }

  /** The test vectors for one, two and three bytes in section 10 of RFC 4648. */
  lemma OneByteVector()
    ensures Encode([102]) == "Zg"
  {
    PaddingFacts();
    assert Padded([102]) == "Zg==";
    StripBehind("Zg", "==");
    hide Padded;
    assert "Zg" + "==" == "Zg==" && "Zg" + "" == "Zg";
  }

  lemma TwoByteVector()
    ensures Encode([102, 111]) == "Zm8"
  {
    PaddingFacts();
    assert Padded([102, 111]) == "Zm8=";
    StripBehind("Zm8", "=");
    hide Padded;
    assert "Zm8" + "=" == "Zm8=" && "Zm8" + "" == "Zm8";
  }

  lemma ThreeByteVector()
    ensures Encode([102, 111, 111]) == "Zm9v"
  {
    assert Padded([102, 111, 111]) == "Zm9v" by {
      assert [102, 111, 111][3..] == [];
    }
  }

  /** The two letters the URL-safe alphabet has of its own. */
  lemma UrlSafeLetters()
    ensures Encode([251, 255]) == "-_8"
  {
    PaddingFacts();
    assert Padded([251, 255]) == "-_8=";
    StripBehind("-_8", "=");
    hide Padded;
    assert "-_8" + "=" == "-_8=" && "-_8" + "" == "-_8";
  }
}
