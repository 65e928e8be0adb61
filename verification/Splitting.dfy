/** Python's `str.split` and `str.join` on one character. */
module Splitting {
  /** `s.split(c)` */
  function Parts(c: char, s: string): (parts: seq<string>)
    ensures parts != []
  {
    if s == "" then [""]
    else
      var rest := Parts(c, s[1..]);
      if s[0] == c then [""] + rest else [[s[0]] + rest[0]] + rest[1..]
  }

  /** `c.join(parts)` */
  function Joined(c: char, parts: seq<string>): string
    requires parts != []
  {
    if |parts| == 1 then parts[0] else parts[0] + [c] + Joined(c, parts[1..])
  }

  lemma {:induction false} PartsOfPart(c: char, s: string, rest: string)
    requires c !in s
    ensures Parts(c, s) == [s]
    ensures Parts(c, s + [c] + rest) == [s] + Parts(c, rest)
  {
    var all := s + [c] + rest;
    if s == "" {
      assert all[1..] == rest;
    } else {
      PartsOfPart(c, s[1..], rest);
      assert all[1..] == s[1..] + [c] + rest;
      assert s == [s[0]] + s[1..];
    }
  }

  /** Splitting undoes joining, for parts without the separator. */
  lemma {:induction false} PartsOfJoined(c: char, parts: seq<string>)
    requires parts != [] && forall i :: 0 <= i < |parts| ==> c !in parts[i]
    ensures Parts(c, Joined(c, parts)) == parts
  {
    if |parts| == 1 {
      PartsOfPart(c, parts[0], "");
    } else {
      PartsOfJoined(c, parts[1..]);
      PartsOfPart(c, parts[0], Joined(c, parts[1..]));
    }
  }

  /** Joining undoes splitting, and no part has the separator. */
  lemma {:induction false} PartsRejoin(c: char, s: string)
    ensures forall i :: 0 <= i < |Parts(c, s)| ==> c !in Parts(c, s)[i]
    ensures Joined(c, Parts(c, s)) == s
  {
    if s != "" {
      PartsRejoin(c, s[1..]);
      var rest := Parts(c, s[1..]);
      assert s == [s[0]] + s[1..];
      if s[0] == c {
        assert ([""] + rest)[1..] == rest;
      } else {
        var glued := [[s[0]] + rest[0]] + rest[1..];
        assert glued[1..] == rest[1..];
        if |rest| > 1 { assert Joined(c, glued) == [s[0]] + (rest[0] + [c] + Joined(c, rest[1..])); }
      }
    }
  }

  lemma {:induction false} PartsAppend(c: char, a: string, s: string)
    requires c !in s
    ensures Parts(c, a + [c] + s) == Parts(c, a) + [s]
  {
    var all := a + [c] + s;
    if a == "" {
      assert all[1..] == s;
      PartsOfPart(c, s, "");
    } else {
      PartsAppend(c, a[1..], s);
      assert all[1..] == a[1..] + [c] + s;
    }
  }

  lemma JoinedOne(c: char, s: string)
    ensures Joined(c, [s]) == s
  {
  }

  lemma JoinedCons(c: char, s: string, rest: seq<string>)
    requires rest != []
    ensures Joined(c, [s] + rest) == s + [c] + Joined(c, rest)
  {
    assert ([s] + rest)[1..] == rest;
  }
}
