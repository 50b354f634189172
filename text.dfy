/** The Python string operations the validators use (str.replace(' ', ''),
    str.strip(), str.isdigit(), the `in` substring test and str.join), written
    over Dafny strings, each with a reference characterisation proved about it. */
module Text {

  /** The characters for which Python's str.isspace() holds, which are the
      characters str.strip() with no argument removes. */
  predicate IsWhitespace(c: char) {
    || c == ' '
    || '\t' <= c <= '\r'
    || '\U{1C}' <= c <= '\U{1F}'
    || c == '\U{85}'
    || c == '\U{A0}'
    || c == '\U{1680}'
    || '\U{2000}' <= c <= '\U{200A}'
    || c == '\U{2028}'
    || c == '\U{2029}'
    || c == '\U{202F}'
    || c == '\U{205F}'
    || c == '\U{3000}'
  }

  /** A decimal digit, restricted to ASCII '0' to '9'. */
  predicate IsAsciiDigit(c: char) {
    '0' <= c <= '9'
  }

  /** Python's s.isdigit(): false on the empty string, otherwise true when
      every character is a digit. */
  predicate IsDigits(s: string) {
    s != [] && forall c :: c in s ==> IsAsciiDigit(c)
  }

  /** Every character of s is whitespace (vacuously so for ""). */
  ghost predicate IsBlank(s: string) {
    forall i :: 0 <= i < |s| ==> IsWhitespace(s[i])
  }

  /** How many characters of s are not the space ' '. */
  ghost function NonSpaceCount(s: string): int {
    |s| - multiset(s)[' ']
  }

  // ---------------------------------------------------------------------
  // s.replace(' ', '')

  /** s with every space character ' ' removed; other whitespace is kept. */
  function RemoveSpaces(s: string): (r: string)
    ensures |r| <= |s|
    ensures ' ' !in r
  {
    if s == [] then []
    else if s[0] == ' ' then RemoveSpaces(s[1..])
    else [s[0]] + RemoveSpaces(s[1..])
  }

  /** The compacted string holds exactly the characters of the input other
      than ' '. */
  lemma {:induction false} RemoveSpacesChars(s: string)
    ensures forall c :: c in RemoveSpaces(s) <==> c in s && c != ' '
  {
    if s != [] {
      assert s == [s[0]] + s[1..];
      RemoveSpacesChars(s[1..]);
    }
  }

  /** Removing spaces from a concatenation removes them from each part, so
      the characters that remain keep their order. */
  lemma {:induction false} RemoveSpacesConcat(a: string, b: string)
    ensures RemoveSpaces(a + b) == RemoveSpaces(a) + RemoveSpaces(b)
  {
    if a == [] {
      assert a + b == b;
    } else {
      assert (a + b)[0] == a[0];
      assert (a + b)[1..] == a[1..] + b;
      RemoveSpacesConcat(a[1..], b);
    }
  }

  /** Removing spaces keeps every other character with its multiplicity. */
  lemma {:induction false} RemoveSpacesMultiset(s: string)
    ensures multiset(RemoveSpaces(s)) == multiset(s)[' ' := 0]
  {
    if s != [] {
      assert s == [s[0]] + s[1..];
      RemoveSpacesMultiset(s[1..]);
    }
  }

  /** The compacted string is exactly as long as the number of non-space
      characters of the input. */
  lemma {:induction false} RemoveSpacesLength(s: string)
    ensures |RemoveSpaces(s)| == NonSpaceCount(s)
  {
    if s != [] {
      assert s == [s[0]] + s[1..];
      RemoveSpacesLength(s[1..]);
    }
  }

  /** A string without spaces is left as it is, and only such a string. */
  lemma {:induction false} RemoveSpacesIdentity(s: string)
    ensures RemoveSpaces(s) == s <==> ' ' !in s
  {
    if s != [] && ' ' !in s {
      assert ' ' !in s[1..];
      RemoveSpacesIdentity(s[1..]);
    }
  }

  /** Compaction is idempotent. */
  lemma RemoveSpacesIdempotent(s: string)
    ensures RemoveSpaces(RemoveSpaces(s)) == RemoveSpaces(s)
  {
    RemoveSpacesIdentity(RemoveSpaces(s));
  }

  // ---------------------------------------------------------------------
  // s.strip()

  /** s without its longest all-whitespace prefix. */
  function TrimStart(s: string): (r: string)
    ensures |r| <= |s| && r == s[|s| - |r|..]
    ensures forall k :: 0 <= k < |s| - |r| ==> IsWhitespace(s[k])
    ensures r == [] || !IsWhitespace(r[0])
  {
    if s != [] && IsWhitespace(s[0]) then TrimStart(s[1..]) else s
  }

  /** s without its longest all-whitespace suffix. */
  function TrimEnd(s: string): (r: string)
    ensures |r| <= |s| && r == s[..|r|]
    ensures forall k :: |r| <= k < |s| ==> IsWhitespace(s[k])
    ensures r == [] || !IsWhitespace(r[|r| - 1])
  {
    if s != [] && IsWhitespace(s[|s| - 1]) then TrimEnd(s[..|s| - 1]) else s
  }

  /** Python's s.strip(): leading and trailing whitespace removed. The
      result is a slice of s, everything around it is whitespace, and it
      neither starts nor ends with whitespace. */
  function Strip(s: string): (r: string)
    ensures |r| <= |s|
    ensures exists i :: 0 <= i && i + |r| <= |s| && r == s[i..i + |r|]
                        && IsBlank(s[..i]) && IsBlank(s[i + |r|..])
    ensures r == [] || (!IsWhitespace(r[0]) && !IsWhitespace(r[|r| - 1]))
  {
    var t := TrimStart(s);
    var r := TrimEnd(t);
    var i := |s| - |t|;
    assert IsBlank(s[..i]);
    assert r == s[i..i + |r|];
    assert IsBlank(s[i + |r|..]);
    r
  }

  /** s.strip() == '' holds exactly of the strings made only of whitespace. */
  lemma StripEmptyIff(s: string)
    ensures Strip(s) == [] <==> IsBlank(s)
  {
  }

  // ---------------------------------------------------------------------
  // sub in s

  /** sub occurs in s starting at position i. */
  ghost predicate OccursAt(s: string, sub: string, i: int) {
    0 <= i && i + |sub| <= |s| && s[i..i + |sub|] == sub
  }

  /** Python's `sub in s`, scanning s from the left. */
  function Contains(s: string, sub: string): bool
    decreases |s|
  {
    if |sub| > |s| then false
    else if s[..|sub|] == sub then true
    else Contains(s[1..], sub)
  }

  /** The scan finds sub exactly when sub occurs at some position of s. */
  lemma {:induction false} ContainsIff(s: string, sub: string)
    ensures Contains(s, sub) <==> exists i :: OccursAt(s, sub, i)
    decreases |s|
  {
    if |sub| > |s| {
      assert forall i :: !OccursAt(s, sub, i);
    } else if s[..|sub|] == sub {
      assert OccursAt(s, sub, 0);
    } else {
      ContainsIff(s[1..], sub);
      if Contains(s[1..], sub) {
        var i :| OccursAt(s[1..], sub, i);
        assert s[i + 1..i + 1 + |sub|] == s[1..][i..i + |sub|];
        assert OccursAt(s, sub, i + 1);
      } else {
        forall i | OccursAt(s, sub, i) ensures false {
          assert i != 0;
          assert s[1..][i - 1..i - 1 + |sub|] == s[i..i + |sub|];
          assert OccursAt(s[1..], sub, i - 1);
        }
      }
    }
  }

  /** Python's `any(term in s for term in terms)`: true exactly when one of
      the terms occurs somewhere in s. */
  function ContainsAny(s: string, terms: seq<string>): (b: bool)
    ensures b <==> exists term, i :: term in terms && OccursAt(s, term, i)
  {
    if terms == [] then false
    else
      ContainsIff(s, terms[0]);
      assert forall term :: term in terms <==> term == terms[0] || term in terms[1..];
      Contains(s, terms[0]) || ContainsAny(s, terms[1..])
  }

  /** A string cannot contain a substring that has a character it lacks. */
  lemma MissingCharNotContained(s: string, sub: string, c: char)
    requires c in sub && c !in s
    ensures !Contains(s, sub)
  {
    ContainsIff(s, sub);
  }

  // ---------------------------------------------------------------------
  // sep.join(items)

  /** Python's sep.join(items). */
  function Join(sep: string, items: seq<string>): string
  {
    if |items| == 0 then ""
    else if |items| == 1 then items[0]
    else items[0] + sep + Join(sep, items[1..])
  }

  /** Joining four items puts the separator between each pair. */
  lemma JoinFour(sep: string, a: string, b: string, c: string, d: string)
    ensures Join(sep, [a, b, c, d]) == a + sep + b + sep + c + sep + d
  {
    assert [a, b, c, d][1..] == [b, c, d];
    assert [b, c, d][1..] == [c, d];
    assert [c, d][1..] == [d];
    assert Join(sep, [c, d]) == c + sep + d;
    assert Join(sep, [b, c, d]) == b + sep + (c + sep + d);
    assert Join(sep, [a, b, c, d]) == a + sep + (b + sep + (c + sep + d));
  }

  /** The joined string starts with the first item, and every item occurs
      in it. */
  lemma {:induction false} JoinNamesItems(sep: string, items: seq<string>, k: int)
    requires 0 <= k < |items|
    ensures OccursAt(Join(sep, items), items[0], 0)
    ensures exists i :: OccursAt(Join(sep, items), items[k], i)
  {
    var j := Join(sep, items);
    if |items| == 1 {
      assert j[0..|items[0]|] == items[0];
    } else {
      assert j[0..|items[0]|] == items[0];
      if k == 0 {
        assert OccursAt(j, items[k], 0);
      } else {
        var rest := Join(sep, items[1..]);
        JoinNamesItems(sep, items[1..], k - 1);
        var i :| OccursAt(rest, items[1..][k - 1], i);
        var off := |items[0]| + |sep|;
        assert j == items[0] + sep + rest;
        assert j[off + i..off + i + |items[k]|] == rest[i..i + |items[k]|];
        assert OccursAt(j, items[k], off + i);
      }
    }
  }
}
