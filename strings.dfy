/**
 * The few Python string operations the application relies on, over `seq<char>`:
 * `str.isspace`, `str.lower`, `str.split(sep)`, `str.strip()`, `str.strip(chars)`,
 * `str.startswith`, the `in` substring test and the ordering `sorted` uses.
 * Only the ASCII part of Python's Unicode tables is modelled.
 */
module Strings {

  /** The ASCII characters for which Python's `str.isspace` holds; `\s` in a `re` pattern
      on a `str` matches the same characters. */
  const Whitespace: set<char> :=
    {' ', '\t', '\n', '\r', '\U{0B}', '\U{0C}', '\U{1C}', '\U{1D}', '\U{1E}', '\U{1F}'}

  predicate IsSpace(c: char) {
    c in Whitespace
  }

  /** `str.lower()` on one character. */
  function LowerChar(c: char): (r: char)
    ensures 'A' <= c <= 'Z' ==> r as int == c as int + 32
    ensures !('A' <= c <= 'Z') ==> r == c
  {
    if 'A' <= c <= 'Z' then (c as int + 32) as char else c
  }

  /** `str.lower()`. */
  function Lower(s: string): (r: string)
    ensures |r| == |s|
    ensures forall i :: 0 <= i < |s| ==> r[i] == LowerChar(s[i])
  {
    seq(|s|, i requires 0 <= i < |s| => LowerChar(s[i]))
  }

  predicate HasNoUpper(s: string) {
    forall i :: 0 <= i < |s| ==> !('A' <= s[i] <= 'Z')
  }

  lemma LowerIsIdempotent(s: string)
    ensures HasNoUpper(Lower(s))
    ensures Lower(Lower(s)) == Lower(s)
  {
  }

  lemma LowerDistributes(a: string, b: string)
    ensures Lower(a + b) == Lower(a) + Lower(b)
  {
  }

  /** `s.startswith(p)`. */
  predicate StartsWith(s: string, p: string) {
    |p| <= |s| && s[..|p|] == p
  }

  /** `t in s` for strings: `t` occurs in `s` as a contiguous substring. */
  predicate Occurs(t: string, s: string)
    decreases |s|
  {
    StartsWith(s, t) || (|s| > 0 && Occurs(t, s[1..]))
  }

  /** Index of the first occurrence of `c` in `s` (`s.index(c)`). */
  function IndexOf(s: string, c: char): (i: nat)
    requires c in s
    ensures i < |s| && s[i] == c && c !in s[..i]
  {
    if s[0] == c then 0 else 1 + IndexOf(s[1..], c)
  }

  /** `sep.join(parts)` with a one-character separator. */
  function Join(parts: seq<string>, sep: char): string
  {
    if |parts| == 0 then ""
    else if |parts| == 1 then parts[0]
    else parts[0] + [sep] + Join(parts[1..], sep)
  }

  /**
   * `s.split(sep)` with an explicit one-character separator: cut at every `sep`; an empty
   * string gives `[""]`. The pieces never contain `sep`, there is one more piece than
   * there are separators, and joining them with `sep` gives `s` back.
   */
  function Split(s: string, sep: char): (r: seq<string>)
    ensures |r| == multiset(s)[sep] + 1
    ensures forall i :: 0 <= i < |r| ==> sep !in r[i]
    ensures Join(r, sep) == s
    decreases |s|
  {
    if sep !in s then [s]
    else
      var i := IndexOf(s, sep);
      assert s == s[..i] + [sep] + s[i + 1..];
      [s[..i]] + Split(s[i + 1..], sep)
  }

  /** The text before the first `sep`: `s.split(sep)[0]`. */
  lemma SplitHead(s: string, sep: char)
    ensures sep in s ==> Split(s, sep)[0] == s[..IndexOf(s, sep)]
    ensures sep !in s ==> Split(s, sep) == [s]
  {
  }

  /**
   * The first two pieces of a split at a separator that occurs: the text before the first
   * `sep`, then the text after it up to the next `sep` (or the end).
   */
  lemma SplitFirstTwo(s: string, sep: char)
    requires sep in s
    ensures var i := IndexOf(s, sep); var rest := s[i + 1..];
      |Split(s, sep)| >= 2 && Split(s, sep)[0] == s[..i] &&
      Split(s, sep)[1] == (if sep in rest then rest[..IndexOf(rest, sep)] else rest)
  {
    var i := IndexOf(s, sep);
    var rest := s[i + 1..];
    assert Split(s, sep) == [s[..i]] + Split(rest, sep);
    SplitHead(rest, sep);
  }

  /** The first piece of a split is the text before the first separator, or all of it. */
  lemma SplitFirstPiece(s: string, sep: char)
    ensures var p := Split(s, sep)[0];
      |p| <= |s| && p == s[..|p|] && sep !in p && (|p| < |s| ==> s[|p|] == sep)
  {
    SplitHead(s, sep);
  }

  /** The second piece of a split is the first piece of what follows the first separator. */
  lemma SplitSecondPiece(s: string, sep: char)
    requires sep in s
    ensures |Split(s, sep)| >= 2 && Split(s, sep)[1] == Split(s[IndexOf(s, sep) + 1..], sep)[0]
  {
    SplitFirstTwo(s, sep);
    SplitHead(s[IndexOf(s, sep) + 1..], sep);
  }

  /** `s.lstrip(chars)`: drops the longest prefix made of characters of `cs`. */
  function TrimLeft(s: string, cs: set<char>): (r: string)
    ensures |r| <= |s| && r == s[|s| - |r|..]
    ensures forall i :: 0 <= i < |s| - |r| ==> s[i] in cs
    ensures r != [] ==> r[0] !in cs
  {
    if |s| > 0 && s[0] in cs then TrimLeft(s[1..], cs) else s
  }

  /** `s.rstrip(chars)`: drops the longest suffix made of characters of `cs`. */
  function TrimRight(s: string, cs: set<char>): (r: string)
    ensures |r| <= |s| && r == s[..|r|]
    ensures forall i :: |r| <= i < |s| ==> s[i] in cs
    ensures r != [] ==> r[|r| - 1] !in cs
  {
    if |s| > 0 && s[|s| - 1] in cs then TrimRight(s[..|s| - 1], cs) else s
  }

  /** `s.strip(chars)`: the part of `s` left once characters of `cs` are dropped from both ends. */
  function StripChars(s: string, cs: set<char>): (r: string)
  {
    TrimRight(TrimLeft(s, cs), cs)
  }

  /** `s.strip()`: strip whitespace from both ends. */
  function Strip(s: string): string {
    StripChars(s, Whitespace)
  }

  /**
   * What stripping promises: the result is a contiguous piece `s[i..j]` of the input, everything
   * cut off belongs to `cs`, and the result neither starts nor ends with a character of `cs`.
   */
  lemma StripCharsShape(s: string, cs: set<char>) returns (i: nat, j: nat)
    ensures i <= j <= |s| && StripChars(s, cs) == s[i..j]
    ensures forall k :: 0 <= k < i ==> s[k] in cs
    ensures forall k :: j <= k < |s| ==> s[k] in cs
    ensures var r := StripChars(s, cs); r != [] ==> r[0] !in cs && r[|r| - 1] !in cs
  {
    i := |s| - |TrimLeft(s, cs)|;
    j := TrimRightOfSuffix(s, i, cs);
    StripCharsEnds(s, cs);
  }

  lemma StripCharsEnds(s: string, cs: set<char>)
    ensures var r := StripChars(s, cs); r != [] ==> r[0] !in cs && r[|r| - 1] !in cs
  {
    var l := TrimLeft(s, cs);
    var r := TrimRight(l, cs);
    if r != [] {
      assert r[0] == l[0];
    }
  }

  lemma TrimRightOfSuffix(s: string, i: nat, cs: set<char>) returns (j: nat)
    requires i <= |s|
    ensures i <= j <= |s| && TrimRight(s[i..], cs) == s[i..j]
    ensures forall k :: j <= k < |s| ==> s[k] in cs
  {
    var l := s[i..];
    var r := TrimRight(l, cs);
    j := i + |r|;
    assert r == l[..|r|];
    forall k | j <= k < |s|
      ensures s[k] in cs
    {
      assert s[k] == l[k - i];
    }
  }

  /** A string with no character of `cs` at either end is left as it is. */
  lemma StripCharsNoop(s: string, cs: set<char>)
    requires s == [] || (s[0] !in cs && s[|s| - 1] !in cs)
    ensures StripChars(s, cs) == s
  {
  }

  /**
   * Python's `<` on `str`: lexicographic comparison by code point, a proper prefix sorting
   * first. (Dafny's `<` on sequences means "proper prefix" and is not this order.)
   */
  predicate Less(a: string, b: string)
    decreases |a|
  {
    if |a| == 0 then |b| > 0
    else if |b| == 0 then false
    else if a[0] == b[0] then Less(a[1..], b[1..])
    else a[0] < b[0]
  }

  lemma {:induction false} LessIrreflexive(a: string)
    ensures !Less(a, a)
    decreases |a|
  {
    if |a| > 0 {
      LessIrreflexive(a[1..]);
    }
  }

  lemma {:induction false} LessTransitive(a: string, b: string, c: string)
    requires Less(a, b) && Less(b, c)
    ensures Less(a, c)
    decreases |a|
  {
    if |a| > 0 && a[0] == b[0] && b[0] == c[0] {
      LessTransitive(a[1..], b[1..], c[1..]);
    }
  }

  /** Any two different strings are ordered one way or the other, and never both ways. */
  lemma {:induction false} LessTotal(a: string, b: string)
    ensures a != b <==> (Less(a, b) || Less(b, a))
    ensures !(Less(a, b) && Less(b, a))
    decreases |a|
  {
    if |a| == 0 || |b| == 0 {
    } else if a[0] == b[0] {
      LessTotal(a[1..], b[1..]);
      assert a == [a[0]] + a[1..] && b == [b[0]] + b[1..];
    }
  }
}
