/**
 * The Python `str` operations the version code relies on: `%d`, `int()`, `strip`,
 * `startswith`, `endswith`, `split`, `replace(old, new, 1)` and code-point ordering.
 */
module PyStr {

  predicate IsDigit(c: char) { '0' <= c <= '9' }

  predicate AllDigits(s: string) {
    forall i :: 0 <= i < |s| ==> IsDigit(s[i])
  }

  function DigitChar(d: nat): (c: char)
    requires d < 10
    ensures IsDigit(c) && c as int - '0' as int == d
  {
    ('0' as int + d) as char
  }

  /** `"%d" % n` for a non-negative n: its decimal digits, without leading zeros. */
  function NatToString(n: nat): (s: string)
    ensures |s| > 0 && AllDigits(s)
    ensures s[0] == '0' ==> n == 0
    decreases n
  {
    if n < 10 then [DigitChar(n)] else NatToString(n / 10) + [DigitChar(n % 10)]
  }

  /** `int(s)` for a string of decimal digits. */
  function DigitsValue(s: string): nat
    requires AllDigits(s)
    decreases |s|
  {
    if s == [] then 0 else 10 * DigitsValue(s[..|s| - 1]) + (s[|s| - 1] as int - '0' as int)
  }

  /** Reading back the decimal rendering of n gives n. */
  lemma {:induction false} NatToStringRoundTrip(n: nat)
    ensures DigitsValue(NatToString(n)) == n
    decreases n
  {
    var s := NatToString(n);
    if n >= 10 {
      NatToStringRoundTrip(n / 10);
      assert s[..|s| - 1] == NatToString(n / 10);
    }
  }

  /** Distinct numbers render differently. */
  lemma NatToStringInjective(m: nat, n: nat)
    requires NatToString(m) == NatToString(n)
    ensures m == n
  {
    NatToStringRoundTrip(m);
    NatToStringRoundTrip(n);
  }

  /**
   * The characters `str.isspace` accepts, which `str.strip()` removes: the ASCII tab, line
   * feed, vertical tab, form feed, carriage return, the separators U+001C to U+001F and the
   * space, and the Unicode spaces and line and paragraph separators.
   */
  const Whitespace: set<char> := {
    '\t', '\n', '\U{000B}', '\U{000C}', '\r', '\U{001C}', '\U{001D}', '\U{001E}', '\U{001F}', ' ',
    '\U{0085}', '\U{00A0}', '\U{1680}', '\U{2000}', '\U{2001}', '\U{2002}', '\U{2003}', '\U{2004}',
    '\U{2005}', '\U{2006}', '\U{2007}', '\U{2008}', '\U{2009}', '\U{200A}', '\U{2028}', '\U{2029}',
    '\U{202F}', '\U{205F}', '\U{3000}'}

  /** Drops the leading characters that are in cs. */
  function TrimStart(s: string, cs: set<char>): (r: string)
    ensures |r| <= |s| && r == s[|s| - |r|..]
    ensures forall j :: 0 <= j < |s| - |r| ==> s[j] in cs
    ensures r == [] || r[0] !in cs
  {
    if s != [] && s[0] in cs then TrimStart(s[1..], cs) else s
  }

  /** Drops the trailing characters that are in cs. */
  function TrimEnd(s: string, cs: set<char>): (r: string)
    ensures |r| <= |s| && r == s[..|r|]
    ensures forall j :: |r| <= j < |s| ==> s[j] in cs
    ensures r == [] || r[|r| - 1] !in cs
  {
    if s != [] && s[|s| - 1] in cs then TrimEnd(s[..|s| - 1], cs) else s
  }

  /** `s.strip(chars)`: both ends trimmed of the characters in cs. */
  function StripChars(s: string, cs: set<char>): string {
    TrimEnd(TrimStart(s, cs), cs)
  }

  /** `s.strip()`. */
  function Strip(s: string): string {
    StripChars(s, Whitespace)
  }

  lemma TrimStartNoop(s: string, cs: set<char>)
    requires s == [] || s[0] !in cs
    ensures TrimStart(s, cs) == s
  {
  }

  lemma TrimEndNoop(s: string, cs: set<char>)
    requires s == [] || s[|s| - 1] !in cs
    ensures TrimEnd(s, cs) == s
  {
  }

  /** A string that neither starts nor ends with a character of cs is its own strip. */
  lemma StripCharsNoop(s: string, cs: set<char>)
    requires s == [] || (s[0] !in cs && s[|s| - 1] !in cs)
    ensures StripChars(s, cs) == s
  {
    TrimStartNoop(s, cs);
    TrimEndNoop(s, cs);
  }

  lemma StripNoop(s: string)
    requires s == [] || (s[0] !in Whitespace && s[|s| - 1] !in Whitespace)
    ensures Strip(s) == s
  {
    StripCharsNoop(s, Whitespace);
  }

  /** Stripping a string enclosed by two stripped characters leaves what they enclose. */
  lemma StripEnclosed(open: char, s: string, close: char, cs: set<char>)
    requires open in cs && close in cs
    requires s == [] || (s[0] !in cs && s[|s| - 1] !in cs)
    ensures StripChars([open] + s + [close], cs) == s
  {
    assert ([open] + s + [close])[1..] == s + [close];
    if s == [] {
      assert s + [close] == [close] && [close][1..] == [];
    } else {
      TrimStartNoop(s + [close], cs);
    }
    assert (s + [close])[..|s|] == s;
    TrimEndNoop(s, cs);
  }

  /** Stripping twice strips nothing more. */
  lemma {:induction false} StripCharsIdempotent(s: string, cs: set<char>)
    ensures StripChars(StripChars(s, cs), cs) == StripChars(s, cs)
  {
    var t := StripChars(s, cs);
    var u := TrimStart(s, cs);
    if t != [] {
      assert t == u[..|t|];
      assert t[0] == u[0];
    }
    TrimStartNoop(t, cs);
    TrimEndNoop(t, cs);
  }

  /** The result of stripping neither starts nor ends with a stripped character. */
  lemma {:induction false} StripCharsEnds(s: string, cs: set<char>)
    ensures var t := StripChars(s, cs); t == [] || (t[0] !in cs && t[|t| - 1] !in cs)
  {
    var t := StripChars(s, cs);
    var u := TrimStart(s, cs);
    if t != [] {
      assert t == u[..|t|];
      assert t[0] == u[0];
    }
  }

  predicate StartsWith(s: string, prefix: string) {
    |prefix| <= |s| && s[..|prefix|] == prefix
  }

  predicate EndsWith(s: string, suffix: string) {
    |suffix| <= |s| && s[|s| - |suffix|..] == suffix
  }

  /** Position of the first occurrence of c. */
  function IndexOf(s: string, c: char): (i: nat)
    requires c in s
    ensures i < |s| && s[i] == c && c !in s[..i]
  {
    if s[0] == c then 0
    else
      assert c in s[1..] by { var k :| 0 <= k < |s| && s[k] == c; assert s[1..][k - 1] == c; }
      var j := IndexOf(s[1..], c);
      assert s[..j + 1] == [s[0]] + s[1..][..j];
      j + 1
  }

  /** The first c in A c B, where A has no c, is the one after A. */
  lemma {:induction false} IndexOfAfter(a: string, c: char, b: string)
    requires c !in a
    ensures c in a + [c] + b && IndexOf(a + [c] + b, c) == |a|
    decreases |a|
  {
    var s := a + [c] + b;
    assert s[|a|] == c;
    if a != [] {
      assert s[1..] == a[1..] + [c] + b;
      IndexOfAfter(a[1..], c, b);
    }
  }

  /** `s.split(sep)` for a one-character separator: the pieces between separators, empty ones included. */
  function Split(s: string, sep: char): (parts: seq<string>)
    ensures |parts| > 0
    ensures forall k :: 0 <= k < |parts| ==> sep !in parts[k]
    decreases |s|
  {
    if sep !in s then [s]
    else
      var i := IndexOf(s, sep);
      [s[..i]] + Split(s[i + 1..], sep)
  }

  /** `sep.join(parts)`. */
  function Join(parts: seq<string>, sep: char): string
    requires |parts| > 0
  {
    if |parts| == 1 then parts[0] else parts[0] + [sep] + Join(parts[1..], sep)
  }

  /** Splitting loses nothing: joining the pieces with the separator gives the string back. */
  lemma {:induction false} JoinSplit(s: string, sep: char)
    ensures Join(Split(s, sep), sep) == s
    decreases |s|
  {
    if sep in s {
      var i := IndexOf(s, sep);
      JoinSplit(s[i + 1..], sep);
      var parts := Split(s, sep);
      assert parts[1..] == Split(s[i + 1..], sep);
      assert s == s[..i] + [sep] + s[i + 1..];
    }
  }

  /** And joining pieces free of the separator, then splitting, gives the pieces back. */
  lemma {:induction false} SplitJoin(parts: seq<string>, sep: char)
    requires |parts| > 0
    requires forall k :: 0 <= k < |parts| ==> sep !in parts[k]
    ensures Split(Join(parts, sep), sep) == parts
    decreases |parts|
  {
    if |parts| > 1 {
      var rest := Join(parts[1..], sep);
      var s := parts[0] + [sep] + rest;
      assert Join(parts, sep) == s;
      IndexOfAfter(parts[0], sep, rest);
      SplitJoin(parts[1..], sep);
      assert s[..|parts[0]|] == parts[0] && s[|parts[0]| + 1..] == rest;
      assert parts == [parts[0]] + parts[1..];
    }
  }

  /** `s.replace(c, replacement, 1)` for a one-character pattern. */
  function ReplaceFirst(s: string, c: char, replacement: string): string {
    if c !in s then s else var i := IndexOf(s, c); s[..i] + replacement + s[i + 1..]
  }

  /** Replacing the first c in A c B, where A has no c, gives A replacement B. */
  lemma ReplaceFirstAt(a: string, c: char, b: string, replacement: string)
    requires c !in a
    ensures ReplaceFirst(a + [c] + b, c, replacement) == a + replacement + b
  {
    var s := a + [c] + b;
    IndexOfAfter(a, c, b);
    assert s[..|a|] == a && s[|a| + 1..] == b;
  }

  /** Two single replacements of c in A c B c C, where A and B have no c, replace the two c's in turn. */
  lemma ReplaceFirstTwice(a: string, b: string, e: string, c: char, r1: string, r2: string)
    requires c !in a && c !in b && c !in r1
    ensures ReplaceFirst(ReplaceFirst(a + [c] + b + [c] + e, c, r1), c, r2) == a + r1 + b + r2 + e
  {
    assert a + [c] + b + [c] + e == a + [c] + (b + [c] + e);
    ReplaceFirstAt(a, c, b + [c] + e, r1);
    assert a + r1 + (b + [c] + e) == (a + r1 + b) + [c] + e;
    assert c !in a + r1 + b;
    ReplaceFirstAt(a + r1 + b, c, e, r2);
  }

  function CountChar(s: string, c: char): (n: nat)
    ensures n == 0 <==> c !in s
  {
    if s == [] then 0 else (if s[0] == c then 1 else 0) + CountChar(s[1..], c)
  }

  lemma {:induction false} CountCharAppend(a: string, b: string, c: char)
    ensures CountChar(a + b, c) == CountChar(a, c) + CountChar(b, c)
    decreases |a|
  {
    if a == [] {
      assert a + b == b;
    } else {
      assert (a + b)[1..] == a[1..] + b;
      CountCharAppend(a[1..], b, c);
    }
  }

  /** Replacing the first c by a string without c removes exactly one c. */
  lemma {:induction false} ReplaceFirstCount(s: string, c: char, replacement: string)
    requires c in s && c !in replacement
    ensures CountChar(ReplaceFirst(s, c, replacement), c) == CountChar(s, c) - 1
  {
    var i := IndexOf(s, c);
    assert s == s[..i] + [c] + s[i + 1..];
    CountCharAppend(s[..i] + [c], s[i + 1..], c);
    CountCharAppend(s[..i], [c], c);
    CountCharAppend(s[..i] + replacement, s[i + 1..], c);
    CountCharAppend(s[..i], replacement, c);
  }

  /** Python's ordering of strings: code point by code point, a proper prefix first. */
  predicate LexLessEq(a: string, b: string)
    decreases |a|
  {
    a == [] || (b != [] && (a[0] < b[0] || (a[0] == b[0] && LexLessEq(a[1..], b[1..]))))
  }

  lemma {:induction false} LexTotal(a: string, b: string)
    ensures LexLessEq(a, b) || LexLessEq(b, a)
    decreases |a|
  {
    if a != [] && b != [] && a[0] == b[0] {
      LexTotal(a[1..], b[1..]);
    }
  }

  lemma {:induction false} LexReflexive(a: string)
    ensures LexLessEq(a, a)
    decreases |a|
  {
    if a != [] {
      LexReflexive(a[1..]);
    }
  }

  lemma {:induction false} LexTransitive(a: string, b: string, c: string)
    requires LexLessEq(a, b) && LexLessEq(b, c)
    ensures LexLessEq(a, c)
    decreases |a|
  {
    if a != [] && a[0] == b[0] && b[0] == c[0] {
      LexTransitive(a[1..], b[1..], c[1..]);
    }
  }

  lemma {:induction false} LexAntisymmetric(a: string, b: string)
    requires LexLessEq(a, b) && LexLessEq(b, a)
    ensures a == b
    decreases |a|
  {
    if a != [] {
      LexAntisymmetric(a[1..], b[1..]);
      assert a == [a[0]] + a[1..] && b == [b[0]] + b[1..];
    }
  }

  predicate Sorted(s: seq<string>) {
    forall i, j :: 0 <= i < j < |s| ==> LexLessEq(s[i], s[j])
  }

  /** A string at most every element of a sorted list can go in front of it. */
  lemma ConsSorted(x: string, s: seq<string>)
    requires Sorted(s)
    requires forall j :: 0 <= j < |s| ==> LexLessEq(x, s[j])
    ensures Sorted([x] + s)
  {
    assert forall i, j :: 0 < i < j <= |s| ==> ([x] + s)[i] == s[i - 1] && ([x] + s)[j] == s[j - 1];
  }

  /** Inserts x into a sorted list before the first element it does not exceed. */
  function Insert(x: string, s: seq<string>): (r: seq<string>)
    requires Sorted(s)
    ensures Sorted(r) && multiset(r) == multiset(s) + multiset{x}
  {
    if s == [] then [x]
    else if LexLessEq(x, s[0]) then
      assert Sorted([x] + s) by {
        forall j | 0 <= j < |s| ensures LexLessEq(x, s[j]) {
          if j > 0 { LexTransitive(x, s[0], s[j]); }
        }
        ConsSorted(x, s);
      }
      [x] + s
    else
      var rest := Insert(x, s[1..]);
      assert s == [s[0]] + s[1..];
      InsertBelow(x, s, rest);
      ConsSorted(s[0], rest);
      [s[0]] + rest
  }

  /** Everything in the insertion into the tail of s is at least the head of s. */
  lemma InsertBelow(x: string, s: seq<string>, rest: seq<string>)
    requires Sorted(s) && s != [] && !LexLessEq(x, s[0])
    requires multiset(rest) == multiset(s[1..]) + multiset{x}
    ensures forall j :: 0 <= j < |rest| ==> LexLessEq(s[0], rest[j])
  {
    LexTotal(x, s[0]);
    forall j | 0 <= j < |rest| ensures LexLessEq(s[0], rest[j]) {
      assert rest[j] in multiset(rest);
      if rest[j] != x {
        assert rest[j] in multiset(s[1..]);
        var k :| 0 <= k < |s[1..]| && s[1..][k] == rest[j];
        assert s[k + 1] == rest[j];
      }
    }
  }

  /** `sorted(xs)`: insertion sort, a sorted permutation of the input. */
  function Sort(s: seq<string>): (r: seq<string>)
    ensures Sorted(r) && multiset(r) == multiset(s)
  {
    if s == [] then []
    else
      assert s == [s[0]] + s[1..];
      Insert(s[0], Sort(s[1..]))
  }

  /** Sorting keeps exactly the members it was given. */
  lemma SortMembers(s: seq<string>)
    ensures forall t :: t in Sort(s) <==> t in s
  {
    forall t
      ensures t in Sort(s) <==> t in s
    {
      assert t in s <==> t in multiset(s);
      assert t in Sort(s) <==> t in multiset(Sort(s));
    }
  }
}
