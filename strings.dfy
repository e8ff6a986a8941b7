/** String operations the application borrows from JavaScript and from the
    store's ILIKE operator: whitespace trimming, ASCII case folding,
    substring search, character filtering, and replacing runs of characters
    by one hyphen. */
module Strings {

  /** JavaScript's WhiteSpace and LineTerminator code points: the characters
      String.prototype.trim removes and the regular expression class \s
      matches. */
  predicate IsSpace(c: char) { c in Whitespace }

  const Whitespace: set<char> := {
    '\t', '\n', '\U{000B}', '\U{000C}', '\r', ' ', '\U{00A0}', '\U{1680}',
    '\U{2000}', '\U{2001}', '\U{2002}', '\U{2003}', '\U{2004}', '\U{2005}', '\U{2006}',
    '\U{2007}', '\U{2008}', '\U{2009}', '\U{200A}',
    '\U{2028}', '\U{2029}', '\U{202F}', '\U{205F}', '\U{3000}', '\U{FEFF}'
  }

  /** Nothing but whitespace. */
  predicate AllSpace(s: string) { forall i :: 0 <= i < |s| ==> IsSpace(s[i]) }

  predicate IsUpperAscii(c: char) { 'A' <= c <= 'Z' }

  predicate IsHyphen(c: char) { c == '-' }

  /** What is left of s once the characters satisfying p are dropped from
      its start. */
  function DropLeading(s: string, p: char -> bool): (r: string)
    ensures |r| <= |s| && r == s[|s| - |r|..]
    ensures forall i :: 0 <= i < |s| - |r| ==> p(s[i])
    ensures r == [] || !p(r[0])
  {
    if s != [] && p(s[0]) then DropLeading(s[1..], p) else s
  }

  /** What is left of s once the characters satisfying p are dropped from
      its end. */
  function DropTrailing(s: string, p: char -> bool): (r: string)
    ensures |r| <= |s| && r == s[..|r|]
    ensures forall i :: |r| <= i < |s| ==> p(s[i])
    ensures r == [] || !p(r[|r| - 1])
  {
    if s != [] && p(s[|s| - 1]) then DropTrailing(s[..|s| - 1], p) else s
  }

  /** String.prototype.trimStart. */
  function TrimStart(s: string): (r: string)
    ensures |r| <= |s| && r == s[|s| - |r|..]
    ensures forall i :: 0 <= i < |s| - |r| ==> IsSpace(s[i])
    ensures r == [] || !IsSpace(r[0])
  {
    DropLeading(s, IsSpace)
  }

  /** String.prototype.trimEnd. */
  function TrimEnd(s: string): (r: string)
    ensures |r| <= |s| && r == s[..|r|]
    ensures forall i :: |r| <= i < |s| ==> IsSpace(s[i])
    ensures r == [] || !IsSpace(r[|r| - 1])
  {
    DropTrailing(s, IsSpace)
  }

  /** r is the slice of s that starts at a, and only whitespace lies before
      and after it. */
  predicate WhitespaceAround(s: string, a: int, r: string) {
    0 <= a && a + |r| <= |s| && r == s[a..a + |r|] && AllSpace(s[..a]) && AllSpace(s[a + |r|..])
  }

  /** String.prototype.trim: the text between the leading and the trailing
      whitespace. */
  function Trim(s: string): (r: string)
    ensures |r| <= |s|
    ensures r == [] || (!IsSpace(r[0]) && !IsSpace(r[|r| - 1]))
    ensures forall c :: c in r ==> c in s
  {
    var t := TrimStart(s);
    var r := TrimEnd(t);
    TrimParts(s, t, r);
    r
  }

  /** Trimming cuts s in one piece: the result is the slice of s that starts
      where trimStart's result starts, and only whitespace lies outside it. */
  lemma TrimIsMiddle(s: string)
    ensures WhitespaceAround(s, |s| - |TrimStart(s)|, Trim(s))
  {
    var t := TrimStart(s);
    TrimParts(s, t, TrimEnd(t));
  }

  /** Where trimEnd after trimStart cuts the string: t is what trimStart
      leaves of s and r what trimEnd leaves of t. */
  lemma TrimParts(s: string, t: string, r: string)
    requires |t| <= |s| && t == s[|s| - |t|..]
    requires forall i :: 0 <= i < |s| - |t| ==> IsSpace(s[i])
    requires |r| <= |t| && r == t[..|r|]
    requires forall i :: |r| <= i < |t| ==> IsSpace(t[i])
    requires t == [] || !IsSpace(t[0])
    requires r == [] || !IsSpace(r[|r| - 1])
    ensures r == [] || (!IsSpace(r[0]) && !IsSpace(r[|r| - 1]))
    ensures WhitespaceAround(s, |s| - |t|, r)
    ensures forall c :: c in r ==> c in s
  {
    var a := |s| - |t|;
    PrefixOfSuffix(s, t, r);
    if r != [] {
      assert r[0] == t[0];
    }
    var tail := s[a + |r|..];
    forall i | 0 <= i < |tail| ensures IsSpace(tail[i]) {
      assert tail[i] == t[|r| + i];
    }
    var head := s[..a];
    forall i | 0 <= i < |head| ensures IsSpace(head[i]) {
      assert head[i] == s[i];
    }
  }

  /** A prefix r of a suffix t of s is the slice of s where t starts. */
  lemma PrefixOfSuffix<T>(s: seq<T>, t: seq<T>, r: seq<T>)
    requires |t| <= |s| && t == s[|s| - |t|..]
    requires |r| <= |t| && r == t[..|r|]
    ensures var a := |s| - |t|;
            && r == s[a..a + |r|]
            && (forall i :: a <= i < |s| ==> s[i] == t[i - a])
            && (forall c :: c in r ==> c in s)
  {
    var a := |s| - |t|;
    forall c | c in r ensures c in s {
      var k :| 0 <= k < |r| && r[k] == c;
      assert s[a + k] == c;
    }
  }

  /** The JavaScript test `!s.trim()`: nothing but whitespace. */
  predicate IsBlank(s: string) { Trim(s) == [] }

  /** A string is blank exactly when every character of it is whitespace. */
  lemma BlankIffAllSpace(s: string)
    ensures IsBlank(s) <==> forall i :: 0 <= i < |s| ==> IsSpace(s[i])
  {
  }

  /** A string whose two ends are not whitespace is left alone by trim. */
  lemma TrimUnpadded(s: string)
    requires s == [] || (!IsSpace(s[0]) && !IsSpace(s[|s| - 1]))
    ensures Trim(s) == s
  {
  }

  /** A trimmed string has nothing left to trim. */
  lemma TrimIdempotent(s: string)
    ensures Trim(Trim(s)) == Trim(s)
  {
    TrimUnpadded(Trim(s));
  }

  /** ASCII case folding; other characters are kept. */
  function LowerChar(c: char): (d: char)
    ensures !IsUpperAscii(d)
    ensures !IsUpperAscii(c) ==> d == c
  {
    if IsUpperAscii(c) then (c as int + 32) as char else c
  }

  /** String.prototype.toLowerCase, restricted to ASCII letters. */
  function Lower(s: string): (r: string)
    ensures |r| == |s|
    ensures forall i :: 0 <= i < |s| ==> r[i] == LowerChar(s[i])
  {
    seq(|s|, i requires 0 <= i < |s| => LowerChar(s[i]))
  }

  /** A string with no upper-case ASCII letter is its own lower case. */
  lemma LowerOfLower(s: string)
    requires forall i :: 0 <= i < |s| ==> !IsUpperAscii(s[i])
    ensures Lower(s) == s
  {
  }

  /** ILIKE with a pattern holding no wildcard: equality up to case. */
  predicate EqualsIgnoreCase(a: string, b: string) { Lower(a) == Lower(b) }

  predicate IsPrefix(p: string, s: string) { |p| <= |s| && s[..|p|] == p }

  predicate OccursAt(n: string, h: string, i: int) {
    0 <= i && i + |n| <= |h| && h[i..i + |n|] == n
  }

  /** The needle appears somewhere in the haystack. */
  predicate IsInfix(n: string, h: string)
    decreases |h|
  {
    IsPrefix(n, h) || (h != [] && IsInfix(n, h[1..]))
  }

  /** IsInfix means an occurrence at some position, in both directions. */
  lemma {:induction false} InfixIffOccurs(n: string, h: string)
    ensures IsInfix(n, h) <==> exists i :: OccursAt(n, h, i)
    decreases |h|
  {
    if IsPrefix(n, h) {
      assert OccursAt(n, h, 0);
    } else if h != [] {
      InfixIffOccurs(n, h[1..]);
      if IsInfix(n, h[1..]) {
        var i :| OccursAt(n, h[1..], i);
        assert h[i + 1..i + 1 + |n|] == h[1..][i..i + |n|];
        assert OccursAt(n, h, i + 1);
      }
      if exists i :: OccursAt(n, h, i) {
        var i :| OccursAt(n, h, i);
        assert h[1..][i - 1..i - 1 + |n|] == h[i..i + |n|];
        assert OccursAt(n, h[1..], i - 1);
      }
    }
  }

  /** ILIKE '%needle%': the needle appears in the haystack up to case. */
  predicate ContainsIgnoreCase(h: string, n: string) { IsInfix(Lower(n), Lower(h)) }

  /** String.prototype.replace with a global regular expression that matches
      single characters: the characters `drop` holds are removed. */
  function RemoveChars(s: string, drop: char -> bool): (r: string)
    ensures |r| <= |s|
    ensures forall i :: 0 <= i < |r| ==> !drop(r[i]) && r[i] in s
    ensures (forall i :: 0 <= i < |s| ==> !drop(s[i])) ==> r == s
  {
    if s == [] then []
    else
      var rest := RemoveChars(s[1..], drop);
      assert forall c :: c in rest ==> c in s;
      if drop(s[0]) then rest else [s[0]] + rest
  }

  /** No two hyphens stand next to each other. */
  predicate NoDoubleHyphen(s: string) {
    forall i :: 0 < i < |s| ==> !(s[i - 1] == '-' && s[i] == '-')
  }

  /** String.prototype.replace(/[run]+/g, "-"): every maximal run of
      characters that `run` holds becomes one hyphen. `afterRun` says
      that the character before `s` ended such a run. */
  function ReplaceRuns(s: string, run: char -> bool, afterRun: bool): (r: string)
    ensures forall i :: 0 <= i < |r| ==> r[i] == '-' || (r[i] in s && !run(r[i]))
    ensures run('-') ==> NoDoubleHyphen(r)
    ensures run('-') && afterRun ==> r == [] || r[0] != '-'
  {
    if s == [] then []
    else
      var rest := ReplaceRuns(s[1..], run, run(s[0]));
      assert forall c :: c in s[1..] ==> c in s;
      if !run(s[0]) then [s[0]] + rest
      else if afterRun then rest
      else "-" + rest
  }

  /** With nothing to replace, ReplaceRuns is the identity. */
  lemma {:induction false} ReplaceRunsNone(s: string, run: char -> bool, afterRun: bool)
    requires forall i :: 0 <= i < |s| ==> !run(s[i])
    ensures ReplaceRuns(s, run, afterRun) == s
  {
    if s != [] {
      ReplaceRunsNone(s[1..], run, false);
    }
  }

  /** Squeezing hyphen runs leaves a string without double hyphens alone. */
  lemma {:induction false} ReplaceHyphenRunsNone(s: string, afterRun: bool)
    requires NoDoubleHyphen(s)
    requires afterRun ==> s == [] || s[0] != '-'
    ensures ReplaceRuns(s, IsHyphen, afterRun) == s
  {
    if s != [] {
      assert NoDoubleHyphen(s[1..]) by {
        forall i | 0 < i < |s[1..]| ensures !(s[1..][i - 1] == '-' && s[1..][i] == '-') {
          assert s[1..][i - 1] == s[i] && s[1..][i] == s[i + 1];
        }
      }
      if |s| > 1 && s[0] == '-' {
        assert !(s[0] == '-' && s[1] == '-');
      }
      ReplaceHyphenRunsNone(s[1..], IsHyphen(s[0]));
    }
  }
}
