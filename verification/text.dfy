/**
 * The Python string operations the client relies on: `str.strip`, `str.split`
 * on a one-character separator, `str.replace` of one character, `str.join`
 * and the `in` substring test.
 */
module Text {

  /** The characters for which Python's `str.isspace()` holds; `str.strip()` with no argument drops them. */
  const Whitespace: set<char> := {
    '\t', '\n', '\U{000B}', '\U{000C}', '\r', '\U{001C}', '\U{001D}', '\U{001E}', '\U{001F}', ' ',
    '\U{0085}', '\U{00A0}', '\U{1680}', '\U{2000}', '\U{2001}', '\U{2002}', '\U{2003}', '\U{2004}',
    '\U{2005}', '\U{2006}', '\U{2007}', '\U{2008}', '\U{2009}', '\U{200A}', '\U{2028}', '\U{2029}',
    '\U{202F}', '\U{205F}', '\U{3000}'
  }

  /** Signs, the decimal point and digits are not whitespace. */
  lemma NumeralNotWhitespace(c: char)
    requires '-' <= c <= '9'
    ensures c !in Whitespace
  {
  }

  /** Drops every leading character that belongs to `chars`. */
  function StripLeft(s: string, chars: set<char>): string
  {
    if |s| > 0 && s[0] in chars then StripLeft(s[1..], chars) else s
  }

  /** Drops every trailing character that belongs to `chars`. */
  function StripRight(s: string, chars: set<char>): string
  {
    if |s| > 0 && s[|s| - 1] in chars then StripRight(s[..|s| - 1], chars) else s
  }

  /** Python's `s.strip(chars)`. */
  function Strip(s: string, chars: set<char>): string
  {
    StripRight(StripLeft(s, chars), chars)
  }

  /** `StripLeft` removes exactly the longest prefix made of `chars`. */
  lemma {:induction false} StripLeftSpec(s: string, chars: set<char>)
    ensures var r := StripLeft(s, chars);
      && |r| <= |s| && r == s[|s| - |r|..]
      && (forall i :: 0 <= i < |s| - |r| ==> s[i] in chars)
      && (|r| > 0 ==> r[0] !in chars)
    decreases |s|
  {
    if |s| > 0 && s[0] in chars {
      StripLeftSpec(s[1..], chars);
    }
  }

  /** `StripRight` removes exactly the longest suffix made of `chars`. */
  lemma {:induction false} StripRightSpec(s: string, chars: set<char>)
    ensures var r := StripRight(s, chars);
      && |r| <= |s| && r == s[..|r|]
      && (forall i :: |r| <= i < |s| ==> s[i] in chars)
      && (|r| > 0 ==> r[|r| - 1] !in chars)
    decreases |s|
  {
    if |s| > 0 && s[|s| - 1] in chars {
      StripRightSpec(s[..|s| - 1], chars);
    }
  }

  /** `s.strip(chars)` is the infix of `s` left once every leading and trailing character of `chars` is gone. */
  lemma StripSpec(s: string, chars: set<char>)
    ensures |StripLeft(s, chars)| <= |s|
    ensures var r := Strip(s, chars);
      && (|r| > 0 ==> r[0] !in chars && r[|r| - 1] !in chars)
      && var lo := |s| - |StripLeft(s, chars)|;
      && lo + |r| <= |s|
      && r == s[lo..lo + |r|]
      && (forall i :: 0 <= i < lo ==> s[i] in chars)
      && (forall i :: lo + |r| <= i < |s| ==> s[i] in chars)
  {
    StripLeftSpec(s, chars);
    StripRightSpec(StripLeft(s, chars), chars);
  }

  /** Text that neither starts nor ends with a character of `chars` is left as it is. */
  lemma StripUnchanged(s: string, chars: set<char>)
    requires |s| > 0 ==> s[0] !in chars && s[|s| - 1] !in chars
    ensures Strip(s, chars) == s
  {
  }

  /** Python's `s.strip()`. */
  function Trim(s: string): string
  {
    Strip(s, Whitespace)
  }

  /** Position of the first `c` in `s`, or `|s|` when there is none. */
  function IndexOf(s: string, c: char): (r: nat)
    ensures r <= |s|
    ensures r < |s| ==> s[r] == c
    ensures forall i :: 0 <= i < r ==> s[i] != c
  {
    if |s| == 0 then 0
    else if s[0] == c then 0
    else 1 + IndexOf(s[1..], c)
  }

  /** Python's `sep.join(parts)` for a one-character separator. */
  function Join(parts: seq<string>, sep: char): string
    requires |parts| >= 1
  {
    if |parts| == 1 then parts[0] else parts[0] + [sep] + Join(parts[1..], sep)
  }

  /** Python's `s.split(sep)` for a one-character separator: never empty, and no part holds `sep`. */
  function Split(s: string, sep: char): (r: seq<string>)
    ensures |r| >= 1
    ensures forall i :: 0 <= i < |r| ==> sep !in r[i]
    ensures Join(r, sep) == s
    decreases |s|
  {
    var k := IndexOf(s, sep);
    if k == |s| then [s] else [s[..k]] + Split(s[k + 1..], sep)
  }

  lemma {:induction false} IndexOfDelimited(a: string, sep: char, b: string)
    requires sep !in a
    ensures IndexOf(a + [sep] + b, sep) == |a|
  {
    var s := a + [sep] + b;
    assert s[|a|] == sep;
    assert forall i :: 0 <= i < |a| ==> s[i] == a[i];
  }

  /** Splitting undoes joining parts that do not contain the separator. */
  lemma {:induction false} SplitJoin(parts: seq<string>, sep: char)
    requires |parts| >= 1
    requires forall i :: 0 <= i < |parts| ==> sep !in parts[i]
    ensures Split(Join(parts, sep), sep) == parts
    decreases |parts|
  {
    if |parts| == 1 {
      assert IndexOf(parts[0], sep) == |parts[0]|;
    } else {
      var rest := Join(parts[1..], sep);
      var s := parts[0] + [sep] + rest;
      IndexOfDelimited(parts[0], sep, rest);
      assert s[..|parts[0]|] == parts[0];
      assert s[|parts[0]| + 1..] == rest;
      SplitJoin(parts[1..], sep);
      assert [parts[0]] + parts[1..] == parts;
    }
  }

  /** A join of separator-free parts holds one separator fewer than it has parts. */
  lemma {:induction false} JoinSeparatorCount(parts: seq<string>, sep: char)
    requires |parts| >= 1
    requires forall i :: 0 <= i < |parts| ==> sep !in parts[i]
    ensures multiset(Join(parts, sep))[sep] == |parts| - 1
    decreases |parts|
  {
    assert sep !in multiset(parts[0]);
    if |parts| > 1 {
      JoinSeparatorCount(parts[1..], sep);
      var rest := Join(parts[1..], sep);
      assert multiset(parts[0] + [sep] + rest) == multiset(parts[0]) + multiset{sep} + multiset(rest);
    }
  }

  /** The number of parts `s.split(sep)` yields is one more than the number of separators in `s`. */
  lemma SplitCount(s: string, sep: char)
    ensures |Split(s, sep)| == multiset(s)[sep] + 1
  {
    JoinSeparatorCount(Split(s, sep), sep);
  }

  /** Python's `s.replace(from, to)` for single characters. */
  function Replace(s: string, from: char, to: char): string
  {
    if |s| == 0 then "" else [if s[0] == from then to else s[0]] + Replace(s[1..], from, to)
  }

  /** Replacement works character by character. */
  lemma {:induction false} ReplaceSpec(s: string, from: char, to: char)
    ensures var r := Replace(s, from, to);
      && |r| == |s|
      && forall i :: 0 <= i < |s| ==> r[i] == (if s[i] == from then to else s[i])
    decreases |s|
  {
    if |s| > 0 {
      ReplaceSpec(s[1..], from, to);
    }
  }

  /** `pattern` occurs in `s` starting at index `i`. */
  predicate OccursAt(s: string, pattern: string, i: int)
  {
    0 <= i <= |s| - |pattern| && s[i..i + |pattern|] == pattern
  }

  /** Python's `pattern in s`. */
  predicate Contains(s: string, pattern: string)
  {
    exists i | 0 <= i <= |s| :: OccursAt(s, pattern, i)
  }

  lemma {:induction false} StripLeftReplace(s: string, chars: set<char>, from: char, to: char)
    requires from !in chars && to !in chars
    ensures StripLeft(Replace(s, from, to), chars) == Replace(StripLeft(s, chars), from, to)
    decreases |s|
  {
    if |s| > 0 {
      var t := Replace(s, from, to);
      assert t[1..] == Replace(s[1..], from, to);
      if s[0] in chars {
        StripLeftReplace(s[1..], chars, from, to);
      }
    }
  }

  lemma {:induction false} StripRightReplace(s: string, chars: set<char>, from: char, to: char)
    requires from !in chars && to !in chars
    ensures StripRight(Replace(s, from, to), chars) == Replace(StripRight(s, chars), from, to)
    decreases |s|
  {
    if |s| > 0 {
      var t := Replace(s, from, to);
      ReplaceSpec(s, from, to);
      ReplaceSpec(s[..|s| - 1], from, to);
      assert t[..|t| - 1] == Replace(s[..|s| - 1], from, to);
      if s[|s| - 1] in chars {
        StripRightReplace(s[..|s| - 1], chars, from, to);
      }
    }
  }

  /** Replacing a character that is not stripped commutes with stripping. */
  lemma StripReplace(s: string, chars: set<char>, from: char, to: char)
    requires from !in chars && to !in chars
    ensures Strip(Replace(s, from, to), chars) == Replace(Strip(s, chars), from, to)
  {
    StripLeftReplace(s, chars, from, to);
    StripRightReplace(StripLeft(s, chars), chars, from, to);
  }

}
