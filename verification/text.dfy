/**
  String helpers the portal relies on: JavaScript's `String.prototype.trim`,
  the case folding behind the store's case-insensitive title match, the
  upper-casing of an avatar initial and the unescaping of literal `\n`
  pairs in project content.
 */
module Text {

  /** The characters JavaScript's `trim` removes (WhiteSpace and LineTerminator). */
  predicate IsWhiteSpace(c: char) {
    var n := c as int;
    n == 0x09 || n == 0x0A || n == 0x0B || n == 0x0C || n == 0x0D || n == 0x20
    || n == 0xA0 || n == 0x1680 || (0x2000 <= n <= 0x200A) || n == 0x2028
    || n == 0x2029 || n == 0x202F || n == 0x205F || n == 0x3000 || n == 0xFEFF
  }

  predicate AllWhiteSpace(s: string) {
    forall i :: 0 <= i < |s| ==> IsWhiteSpace(s[i])
  }

  /** Drops leading white space. */
  function TrimStart(s: string): (r: string)
    ensures |r| <= |s| && r == s[|s| - |r|..]
    ensures r == [] || !IsWhiteSpace(r[0])
    ensures forall i :: 0 <= i < |s| - |r| ==> IsWhiteSpace(s[i])
  {
    if |s| > 0 && IsWhiteSpace(s[0]) then TrimStart(s[1..]) else s
  }

  /** Drops trailing white space. */
  function TrimEnd(s: string): (r: string)
    ensures |r| <= |s| && r == s[..|r|]
    ensures r == [] || !IsWhiteSpace(r[|r| - 1])
    ensures forall i :: |r| <= i < |s| ==> IsWhiteSpace(s[i])
  {
    if |s| > 0 && IsWhiteSpace(s[|s| - 1]) then TrimEnd(s[..|s| - 1]) else s
  }

  /** `r` occurs in `s` starting at index `a`. */
  predicate InfixAt(r: string, s: string, a: int) {
    0 <= a <= |s| - |r| && r == s[a..a + |r|]
  }

  /**
    JavaScript's `s.trim()`: the infix of `s` left after dropping the white
    space at both ends; it neither starts nor ends with white space.
   */
  function Trim(s: string): (r: string)
    ensures |r| <= |s|
    ensures r == [] <==> AllWhiteSpace(s)
    ensures r != [] ==> !IsWhiteSpace(r[0]) && !IsWhiteSpace(r[|r| - 1])
    ensures exists a :: InfixAt(r, s, a) && AllWhiteSpace(s[..a]) && AllWhiteSpace(s[a + |r|..])
  {
    var t := TrimStart(s);
    var r := TrimEnd(t);
    TrimParts(s, t, r);
    r
  }

  /**
    The pieces `Trim` cuts `s` into: the white space `TrimStart` dropped, the
    result at offset `|s| - |t|`, and the white space `TrimEnd` dropped.
   */
  lemma TrimParts(s: string, t: string, r: string)
    requires |t| <= |s| && t == s[|s| - |t|..] && (t == [] || !IsWhiteSpace(t[0]))
    requires forall i :: 0 <= i < |s| - |t| ==> IsWhiteSpace(s[i])
    requires |r| <= |t| && r == t[..|r|]
    requires forall i :: |r| <= i < |t| ==> IsWhiteSpace(t[i])
    ensures var a := |s| - |t|;
      InfixAt(r, s, a) && AllWhiteSpace(s[..a]) && AllWhiteSpace(s[a + |r|..])
    ensures r == [] <==> AllWhiteSpace(s)
  {
    var a := |s| - |t|;
    SliceOfSuffix(s, t, r);
    WhiteSpacePrefix(s, a);
    WhiteSpaceSuffix(t, |r|);
    if r == [] {
      WhiteSpaceJoin(s, a);
    }
    if t != [] {
      assert t[0] == s[a];
    }
  }

  lemma SliceOfSuffix(s: string, t: string, r: string)
    requires |t| <= |s| && t == s[|s| - |t|..]
    requires |r| <= |t| && r == t[..|r|]
    ensures r == s[|s| - |t|..|s| - |t| + |r|]
    ensures s[|s| - |t| + |r|..] == t[|r|..]
  {
  }

  lemma WhiteSpacePrefix(s: string, a: int)
    requires 0 <= a <= |s|
    requires forall i :: 0 <= i < a ==> IsWhiteSpace(s[i])
    ensures AllWhiteSpace(s[..a])
  {
    assert forall i :: 0 <= i < a ==> s[..a][i] == s[i];
  }

  lemma WhiteSpaceSuffix(t: string, b: int)
    requires 0 <= b <= |t|
    requires forall i :: b <= i < |t| ==> IsWhiteSpace(t[i])
    ensures AllWhiteSpace(t[b..])
  {
    assert forall i :: 0 <= i < |t| - b ==> t[b..][i] == t[b + i];
  }

  lemma WhiteSpaceJoin(s: string, a: int)
    requires 0 <= a <= |s|
    requires AllWhiteSpace(s[..a]) && AllWhiteSpace(s[a..])
    ensures AllWhiteSpace(s)
  {
    forall i | 0 <= i < |s|
      ensures IsWhiteSpace(s[i])
    {
      if i < a {
        assert s[i] == s[..a][i];
      } else {
        assert s[i] == s[a..][i - a];
      }
    }
  }

  /** Trimming a trimmed string changes nothing. */
  lemma TrimIdempotent(s: string)
    ensures Trim(Trim(s)) == Trim(s)
  {
    var r := Trim(s);
    if r != [] {
      assert TrimStart(r) == r;
      assert TrimEnd(r) == r;
    }
  }

  /** Simple lower-case mapping of one character, for Basic Latin and Latin-1 letters. */
  function LowerChar(c: char): char {
    var n := c as int;
    if (0x41 <= n <= 0x5A) || (0xC0 <= n <= 0xDE && n != 0xD7) then (n + 0x20) as char else c
  }

  /** Character-wise lower-casing. */
  function Lower(s: string): (r: string)
    ensures |r| == |s|
    ensures forall i :: 0 <= i < |s| ==> r[i] == LowerChar(s[i])
  {
    if |s| == 0 then [] else [LowerChar(s[0])] + Lower(s[1..])
  }

  /** Case-insensitive equality of two whole strings, as an `ilike` without wildcards decides it. */
  predicate EqualsIgnoreCase(a: string, b: string) {
    Lower(a) == Lower(b)
  }

  /** Two strings match case-insensitively exactly when they agree letter by letter after folding. */
  lemma EqualsIgnoreCaseCharwise(a: string, b: string)
    ensures EqualsIgnoreCase(a, b) <==>
      |a| == |b| && forall i :: 0 <= i < |a| ==> LowerChar(a[i]) == LowerChar(b[i])
  {
    if |a| == |b| && forall i :: 0 <= i < |a| ==> LowerChar(a[i]) == LowerChar(b[i]) {
      assert forall i :: 0 <= i < |a| ==> Lower(a)[i] == Lower(b)[i];
    }
  }

  /**
    JavaScript's `toUpperCase` of a one-character string, for Basic Latin and
    Latin-1 input: `ß` becomes the two letters `SS`, `ÿ` becomes U+0178 and
    `µ` becomes U+039C; anything else outside the letter ranges is unchanged.
   */
  function UpperChar(c: char): (r: string)
    ensures |r| == 1 || (c as int == 0xDF && r == "SS")
  {
    var n := c as int;
    if 0x61 <= n <= 0x7A || (0xE0 <= n <= 0xFE && n != 0xF7) then [(n - 0x20) as char]
    else if n == 0xFF then [0x178 as char]
    else if n == 0xB5 then [0x39C as char]
    else if n == 0xDF then "SS"
    else [c]
  }

  /** Upper-casing then lower-casing gives back a Basic Latin or Latin-1 lower-case letter. */
  lemma UpperThenLower(c: char)
    requires 0x61 <= c as int <= 0x7A || (0xE0 <= c as int <= 0xFE && c as int != 0xF7)
    ensures |UpperChar(c)| == 1 && LowerChar(UpperChar(c)[0]) == c
  {
  }

  /** Whether `s` holds a backslash directly followed by the letter `n`. */
  predicate HasEscapePair(s: string) {
    exists i :: 0 <= i < |s| - 1 && s[i] == '\\' && s[i + 1] == 'n'
  }

  /**
    `s.replace(/\\n/g, '\n')`: every backslash-`n` pair, scanned left to right
    without overlap, becomes one newline character.
   */
  function UnescapeNewlines(s: string): (r: string)
    ensures |r| <= |s|
  {
    if |s| >= 2 && s[0] == '\\' && s[1] == 'n' then ['\n'] + UnescapeNewlines(s[2..])
    else if |s| == 0 then []
    else [s[0]] + UnescapeNewlines(s[1..])
  }

  /** The inverse direction: every newline becomes a backslash-`n` pair. */
  function EscapeNewlines(s: string): (r: string)
    ensures |r| >= |s|
  {
    if |s| == 0 then []
    else if s[0] == '\n' then ['\\', 'n'] + EscapeNewlines(s[1..])
    else [s[0]] + EscapeNewlines(s[1..])
  }

  lemma {:induction false} UnescapeHead(s: string)
    requires |s| > 0
    ensures |UnescapeNewlines(s)| > 0
    ensures UnescapeNewlines(s)[0] == (if |s| >= 2 && s[0] == '\\' && s[1] == 'n' then '\n' else s[0])
  {
  }

  /** After unescaping, no backslash-`n` pair is left over. */
  lemma {:induction false} UnescapeLeavesNoPair(s: string)
    ensures !HasEscapePair(UnescapeNewlines(s))
  {
    if |s| >= 2 && s[0] == '\\' && s[1] == 'n' {
      UnescapeLeavesNoPair(s[2..]);
      var rest := UnescapeNewlines(s[2..]);
      assert UnescapeNewlines(s) == ['\n'] + rest;
      NoPairCons('\n', rest);
    } else if |s| > 0 {
      UnescapeLeavesNoPair(s[1..]);
      var rest := UnescapeNewlines(s[1..]);
      assert UnescapeNewlines(s) == [s[0]] + rest;
      if s[0] == '\\' && |s| >= 2 {
        UnescapeHead(s[1..]);
      }
      NoPairCons(s[0], rest);
    }
  }

  lemma NoPairCons(c: char, rest: string)
    requires !HasEscapePair(rest)
    requires c == '\\' ==> rest == [] || rest[0] != 'n'
    ensures !HasEscapePair([c] + rest)
  {
    var t := [c] + rest;
    forall i | 0 <= i < |t| - 1
      ensures !(t[i] == '\\' && t[i + 1] == 'n')
    {
      if i > 0 {
        assert t[i] == rest[i - 1] && t[i + 1] == rest[i];
      }
    }
  }

  lemma {:induction false} EscapeHead(s: string)
    requires |s| > 0
    ensures |EscapeNewlines(s)| > 0
    ensures EscapeNewlines(s)[0] == (if s[0] == '\n' then '\\' else s[0])
  {
  }

  /** Escaping then unescaping restores every text that has no backslash-`n` pair of its own. */
  lemma {:induction false} UnescapeEscape(s: string)
    requires !HasEscapePair(s)
    ensures UnescapeNewlines(EscapeNewlines(s)) == s
  {
    if |s| > 0 {
      var tail := s[1..];
      forall i | 0 <= i < |tail| - 1
        ensures !(tail[i] == '\\' && tail[i + 1] == 'n')
      {
        assert tail[i] == s[i + 1] && tail[i + 1] == s[i + 2];
      }
      UnescapeEscape(tail);
      var e := EscapeNewlines(tail);
      if s[0] == '\n' {
        assert EscapeNewlines(s) == ['\\', 'n'] + e;
        assert (['\\', 'n'] + e)[2..] == e;
      } else {
        assert EscapeNewlines(s) == [s[0]] + e;
        assert ([s[0]] + e)[1..] == e;
        if s[0] == '\\' && |tail| > 0 {
          assert tail[0] != 'n';
          EscapeHead(tail);
        }
      }
    }
  }

  /** Unescaping then escaping restores every text without a literal newline. */
  lemma {:induction false} EscapeUnescape(s: string)
    requires forall i :: 0 <= i < |s| ==> s[i] != '\n'
    ensures EscapeNewlines(UnescapeNewlines(s)) == s
  {
    if |s| >= 2 && s[0] == '\\' && s[1] == 'n' {
      EscapeUnescape(s[2..]);
      assert UnescapeNewlines(s) == ['\n'] + UnescapeNewlines(s[2..]);
      assert (['\n'] + UnescapeNewlines(s[2..]))[1..] == UnescapeNewlines(s[2..]);
      assert s == ['\\', 'n'] + s[2..];
    } else if |s| > 0 {
      EscapeUnescape(s[1..]);
      assert UnescapeNewlines(s) == [s[0]] + UnescapeNewlines(s[1..]);
      assert ([s[0]] + UnescapeNewlines(s[1..]))[1..] == UnescapeNewlines(s[1..]);
      assert s == [s[0]] + s[1..];
    }
  }
}
