/** String primitives of the Python and JavaScript runtimes that the modelled code
    relies on: whitespace, strip, split, join, whitespace-run splitting, ASCII case
    mapping, substring search and replacement, and the UTF-8 length of a string. */
module Text {

  /** Python's notion of whitespace (str.isspace, str.strip, str.split() and the
      regular-expression class \s on str patterns). */
  predicate IsSpace(c: char) {
    ('\t' <= c <= '\r') || ('\U{1C}' <= c <= '\U{20}') || c == '\U{85}' || c == '\U{A0}'
    || c == '\U{1680}' || ('\U{2000}' <= c <= '\U{200A}') || c == '\U{2028}' || c == '\U{2029}'
    || c == '\U{202F}' || c == '\U{205F}' || c == '\U{3000}'
  }

  /** A character below U+0020. */
  predicate IsControl(c: char) {
    (c as int) < 32
  }

  /** Some character is below U+0020. */
  predicate HasControl(s: string) {
    exists k :: 0 <= k < |s| && IsControl(s[k])
  }

  lemma HasControlAppend(a: string, b: string)
    ensures HasControl(a + b) <==> HasControl(a) || HasControl(b)
  {
    if HasControl(a + b) {
      var k :| 0 <= k < |a + b| && IsControl((a + b)[k]);
      if k >= |a| {
        assert b[k - |a|] == (a + b)[k];
      }
    }
    if HasControl(b) {
      var k :| 0 <= k < |b| && IsControl(b[k]);
      assert (a + b)[|a| + k] == b[k];
    }
    if HasControl(a) {
      var k :| 0 <= k < |a| && IsControl(a[k]);
      assert (a + b)[k] == a[k];
    }
  }

  /** True when every character is whitespace: Python's `not s.strip()`. */
  predicate Blank(s: string) {
    forall i :: 0 <= i < |s| ==> IsSpace(s[i])
  }

  /** The number of whitespace characters at the start of s. */
  function LeadingSpaces(s: string): (n: nat)
    ensures n <= |s|
    decreases |s|
  {
    if s != [] && IsSpace(s[0]) then 1 + LeadingSpaces(s[1..]) else 0
  }

  /** The number of whitespace characters at the end of s. */
  function TrailingSpaces(s: string): (n: nat)
    ensures n <= |s|
    decreases |s|
  {
    if s != [] && IsSpace(s[|s| - 1]) then 1 + TrailingSpaces(s[..|s| - 1]) else 0
  }

  /** The leading whitespace is blank and is followed by the end or a non-space. */
  lemma {:induction false} LeadingSpacesShape(s: string)
    ensures Blank(s[..LeadingSpaces(s)])
    ensures LeadingSpaces(s) == |s| || !IsSpace(s[LeadingSpaces(s)])
    decreases |s|
  {
    if s != [] && IsSpace(s[0]) {
      LeadingSpacesShape(s[1..]);
      assert s[..LeadingSpaces(s)] == [s[0]] + s[1..][..LeadingSpaces(s[1..])];
    }
  }

  /** The trailing whitespace is blank and is preceded by the start or a non-space. */
  lemma {:induction false} TrailingSpacesShape(s: string)
    ensures Blank(s[|s| - TrailingSpaces(s)..])
    ensures TrailingSpaces(s) == |s| || !IsSpace(s[|s| - TrailingSpaces(s) - 1])
    decreases |s|
  {
    if s != [] && IsSpace(s[|s| - 1]) {
      var init := s[..|s| - 1];
      TrailingSpacesShape(init);
      var m := TrailingSpaces(init);
      assert TrailingSpaces(s) == m + 1;
      var tail := s[|s| - (m + 1)..];
      assert tail == init[|init| - m..] + [s[|s| - 1]];
      forall k | 0 <= k < |tail| ensures IsSpace(tail[k]) {
        if k < m {
          assert tail[k] == init[|init| - m..][k];
        }
      }
      if m < |init| {
        assert s[|s| - (m + 1) - 1] == init[|init| - m - 1];
      }
    }
  }

  /** Python's str.lstrip() with no argument. */
  function TrimStart(s: string): string {
    s[LeadingSpaces(s)..]
  }

  /** Python's str.rstrip() with no argument. */
  function TrimEnd(s: string): string {
    s[..|s| - TrailingSpaces(s)]
  }

  /** Python's str.strip() with no argument. */
  function Strip(s: string): string {
    TrimEnd(TrimStart(s))
  }

  /** Strip removes exactly the leading and trailing whitespace: the result is an
      infix of the input with blank margins, and it neither starts nor ends with
      whitespace. */
  lemma StripShape(s: string)
    ensures exists i, j :: 0 <= i <= j <= |s| && Strip(s) == s[i..j] && Blank(s[..i]) && Blank(s[j..])
    ensures Strip(s) == [] || (!IsSpace(Strip(s)[0]) && !IsSpace(Strip(s)[|Strip(s)| - 1]))
  {
    var t := TrimStart(s);
    var r := TrimEnd(t);
    LeadingSpacesShape(s);
    TrailingSpacesShape(t);
    var i := LeadingSpaces(s);
    var m := TrailingSpaces(t);
    var j := i + |r|;
    assert t == s[i..];
    assert |r| == |t| - m;
    assert r == s[i..j];
    assert s[j..] == t[|t| - m..];
    assert Blank(s[..i]) && Blank(s[j..]);
    if r != [] {
      assert r[0] == t[0];
      assert r[|r| - 1] == t[|t| - m - 1];
    }
  }

  /** A stripped, non-empty string begins and ends with a non-space. */
  lemma StrippedEnds(s: string)
    requires s != [] && Strip(s) == s
    ensures !IsSpace(s[0]) && !IsSpace(s[|s| - 1])
  {
    StripShape(s);
  }

  /** A leading space makes no difference to the stripped result. */
  lemma StripSpaceBefore(c: char, x: string)
    requires IsSpace(c)
    ensures Strip([c] + x) == Strip(x)
  {
    var s := [c] + x;
    assert s[1..] == x;
    assert TrimStart(s) == TrimStart(x);
  }

  /** A string is stripped to nothing exactly when it is blank. */
  lemma StripEmptyIffBlank(s: string)
    ensures Strip(s) == [] <==> Blank(s)
  {
    var t := TrimStart(s);
    LeadingSpacesShape(s);
    TrailingSpacesShape(t);
    if Strip(s) == [] {
      assert s == s[..LeadingSpaces(s)] + t;
      assert t == t[|t| - TrailingSpaces(t)..];
    }
  }

  /** A string with no whitespace at either end strips to itself. */
  lemma StripUnpadded(s: string)
    requires s == [] || (!IsSpace(s[0]) && !IsSpace(s[|s| - 1]))
    ensures Strip(s) == s
  {
  }

  lemma StripIdempotent(s: string)
    ensures Strip(Strip(s)) == Strip(s)
  {
    StripShape(s);
    StripUnpadded(Strip(s));
  }

  /** The characters of Strip(s) are characters of s. */
  lemma StripChars(s: string, k: int)
    requires 0 <= k < |Strip(s)|
    ensures Strip(s)[k] in s
  {
    StripShape(s);
    var i, j :| 0 <= i <= j <= |s| && Strip(s) == s[i..j];
    assert Strip(s)[k] == s[i + k];
  }

  /** Stripping adds no character. */
  lemma StripNoNewChars(s: string, c: char)
    requires c !in s
    ensures c !in Strip(s)
  {
    if c in Strip(s) {
      var k :| 0 <= k < |Strip(s)| && Strip(s)[k] == c;
      StripChars(s, k);
    }
  }

  predicate StartsWith(s: string, prefix: string) {
    |prefix| <= |s| && s[..|prefix|] == prefix
  }

  /** Python's `sub in s`. */
  predicate Contains(s: string, sub: string) {
    exists i :: 0 <= i <= |s| && OccursAt(s, sub, i)
  }

  /** `sub` occurs in `s` starting at index i. */
  predicate OccursAt(s: string, sub: string, i: int) {
    0 <= i <= |s| - |sub| && s[i..i + |sub|] == sub
  }

  /** Python's str.split(sep) for a non-empty separator: the pieces between the
      non-overlapping occurrences of sep found from the left. */
  function SplitOn(s: string, sep: string): (r: seq<string>)
    requires sep != []
    ensures |r| >= 1
    decreases |s|
  {
    if StartsWith(s, sep) then [[]] + SplitOn(s[|sep|..], sep)
    else if s == [] then [[]]
    else
      var rest := SplitOn(s[1..], sep);
      [[s[0]] + rest[0]] + rest[1..]
  }

  /** Python's str.split(c) for a one-character separator. */
  function Split(s: string, c: char): (r: seq<string>)
    ensures |r| >= 1
    decreases |s|
  {
    if s == [] then [[]]
    else
      var rest := Split(s[1..], c);
      if s[0] == c then [[]] + rest else [[s[0]] + rest[0]] + rest[1..]
  }

  /** Python's sep.join(parts). */
  function Join(parts: seq<string>, sep: string): string
    decreases |parts|
  {
    if |parts| == 0 then []
    else if |parts| == 1 then parts[0]
    else parts[0] + sep + Join(parts[1..], sep)
  }

  lemma {:induction false} JoinAppend(parts: seq<string>, x: string, sep: string)
    ensures Join(parts + [x], sep) == if parts == [] then x else Join(parts, sep) + sep + x
    decreases |parts|
  {
    if |parts| > 1 {
      assert (parts + [x])[1..] == parts[1..] + [x];
      JoinAppend(parts[1..], x, sep);
    } else if |parts| == 1 {
      assert parts + [x] == [parts[0], x];
    }
  }

  /** The pieces of a one-character split never hold the separator, and joining
      them back with it gives the original string. */
  lemma {:induction false} SplitJoin(s: string, c: char)
    ensures Join(Split(s, c), [c]) == s
    ensures forall k :: 0 <= k < |Split(s, c)| ==> c !in Split(s, c)[k]
    decreases |s|
  {
    if s == [] {
    } else if s[0] == c {
      SplitJoin(s[1..], c);
      assert Split(s, c) == [[]] + Split(s[1..], c);
    } else {
      SplitJoin(s[1..], c);
      var rest := Split(s[1..], c);
      assert Split(s, c) == [[s[0]] + rest[0]] + rest[1..];
      if |rest| > 1 {
        assert rest == [rest[0]] + rest[1..];
        assert Join(rest, [c]) == rest[0] + [c] + Join(rest[1..], [c]);
      }
    }
  }

  /** Splitting a join of separator-free pieces gives the pieces back. */
  lemma {:induction false} JoinSplit(parts: seq<string>, c: char)
    requires |parts| >= 1
    requires forall k :: 0 <= k < |parts| ==> c !in parts[k]
    ensures Split(Join(parts, [c]), c) == parts
    decreases |parts|, |parts[0]|
  {
    if parts[0] == [] {
      if |parts| == 1 {
      } else {
        var j := Join(parts, [c]);
        assert j == [c] + Join(parts[1..], [c]);
        assert j[0] == c;
        assert j[1..] == Join(parts[1..], [c]);
        JoinSplit(parts[1..], c);
        assert parts == [[]] + parts[1..];
      }
    } else {
      var p := parts[0];
      var parts' := [p[1..]] + parts[1..];
      var j := Join(parts, [c]);
      assert p[0] != c by { assert p[0] in p; }
      assert j == [p[0]] + Join(parts', [c]) by {
        if |parts| == 1 {
        } else {
          assert parts'[1..] == parts[1..];
        }
      }
      assert j[0] != c;
      assert j[1..] == Join(parts', [c]);
      forall k | 0 <= k < |parts'| ensures c !in parts'[k] {
        if k == 0 {
          assert forall x :: x in p[1..] ==> x in p;
        } else {
          assert parts'[k] == parts[k];
        }
      }
      JoinSplit(parts', c);
      assert [p[0]] + p[1..] == p;
    }
  }

  /** Splitting a string that does not contain the separator gives the string itself. */
  lemma {:induction false} SplitNoSeparator(s: string, c: char)
    requires c !in s
    ensures Split(s, c) == [s]
  {
    JoinSplit([s], c);
  }

  /** A string ending in the separator splits into one more piece, the empty one. */
  lemma SplitAppendSeparator(s: string, c: char)
    ensures Split(s + [c], c) == Split(s, c) + [[]]
  {
    var parts := Split(s, c);
    SplitJoin(s, c);
    JoinAppend(parts, [], [c]);
    assert Join(parts + [[]], [c]) == s + [c];
    JoinSplit(parts + [[]], c);
  }

  /** The longest prefix without whitespace. */
  function TakeWord(s: string): (w: string)
    ensures |w| <= |s| && w == s[..|w|]
    ensures forall k :: 0 <= k < |w| ==> !IsSpace(w[k])
    ensures |w| == |s| || IsSpace(s[|w|])
    decreases |s|
  {
    if s == [] || IsSpace(s[0]) then [] else [s[0]] + TakeWord(s[1..])
  }

  /** The longest prefix holding no character of stop. */
  function TakeUntil(s: string, stop: set<char>): (r: string)
    ensures |r| <= |s| && r == s[..|r|]
    ensures forall k :: 0 <= k < |r| ==> r[k] !in stop
    ensures |r| == |s| || s[|r|] in stop
    decreases |s|
  {
    if s == [] || s[0] in stop then [] else [s[0]] + TakeUntil(s[1..], stop)
  }

  /** A string without stop characters is taken whole. */
  lemma {:induction false} TakeUntilAll(s: string, stop: set<char>)
    requires forall k :: 0 <= k < |s| ==> s[k] !in stop
    ensures TakeUntil(s, stop) == s
    decreases |s|
  {
    if s != [] {
      var tl := s[1..];
      assert forall k :: 0 <= k < |tl| ==> tl[k] == s[k + 1];
      TakeUntilAll(tl, stop);
      assert s == [s[0]] + tl;
    }
  }

  /** Before a stop character, the prefix is exactly what precedes it. */
  lemma TakeUntilOf(a: string, b: string, stop: set<char>)
    requires forall k :: 0 <= k < |a| ==> a[k] !in stop
    requires b != [] && b[0] in stop
    ensures TakeUntil(a + b, stop) == a
  {
    var r, s := TakeUntil(a + b, stop), a + b;
    assert forall k :: 0 <= k < |a| ==> s[k] == a[k];
    assert s[|a|] == b[0];
    assert |r| == |a|;
    assert s[..|a|] == a;
  }

  /** Python's str.split() with no argument: the maximal runs of non-whitespace. */
  function Words(s: string): (r: seq<string>)
    ensures forall k :: 0 <= k < |r| ==> r[k] != [] && forall m :: 0 <= m < |r[k]| ==> !IsSpace(r[k][m])
    decreases |s|
  {
    var t := TrimStart(s);
    if t == [] then []
    else
      LeadingSpacesShape(s);
      var w := TakeWord(t);
      [w] + Words(t[|w|..])
  }

  /** A string has no words exactly when it is blank. */
  lemma WordsEmptyIffBlank(s: string)
    ensures Words(s) == [] <==> Blank(s)
  {
    var t := TrimStart(s);
    LeadingSpacesShape(s);
    assert s == s[..LeadingSpaces(s)] + t;
  }

  function UpperChar(c: char): char {
    if 'a' <= c <= 'z' then (c as int - 32) as char else c
  }

  function LowerChar(c: char): char {
    if 'A' <= c <= 'Z' then (c as int + 32) as char else c
  }

  /** str.upper() on the ASCII letters. */
  function Upper(s: string): (r: string)
    ensures |r| == |s| && forall k :: 0 <= k < |s| ==> r[k] == UpperChar(s[k])
  {
    seq(|s|, k requires 0 <= k < |s| => UpperChar(s[k]))
  }

  /** str.lower() on the ASCII letters. */
  function Lower(s: string): (r: string)
    ensures |r| == |s| && forall k :: 0 <= k < |s| ==> r[k] == LowerChar(s[k])
  {
    seq(|s|, k requires 0 <= k < |s| => LowerChar(s[k]))
  }

  lemma UpperIdempotent(s: string)
    ensures Upper(Upper(s)) == Upper(s)
  {
  }

  /** Case-insensitive containment as SQL ILIKE '%q%' performs it when q holds no
      wildcard character. */
  predicate ContainsIgnoreCase(s: string, q: string) {
    Contains(Lower(s), Lower(q))
  }

  /** Every string lies inside itself and the empty string inside every string. */
  lemma ContainsEmpty(s: string)
    ensures Contains(s, [])
  {
    assert OccursAt(s, [], 0);
  }

  /** s.replace(old, new) for a one-character `old`. */
  function ReplaceChar(s: string, from: char, to: char): (r: string)
    ensures |r| == |s| && forall k :: 0 <= k < |s| ==> r[k] == (if s[k] == from then to else s[k])
  {
    seq(|s|, k requires 0 <= k < |s| => if s[k] == from then to else s[k])
  }

  /** s.replace(pat, rep) for a non-empty pattern: every non-overlapping occurrence
      found from the left is replaced. */
  function ReplaceAll(s: string, pat: string, rep: string): string
    requires pat != []
    decreases |s|
  {
    if StartsWith(s, pat) then rep + ReplaceAll(s[|pat|..], pat, rep)
    else if s == [] then []
    else [s[0]] + ReplaceAll(s[1..], pat, rep)
  }

  /** Number of bytes UTF-8 uses for one code point. */
  function Utf8Width(c: char): (n: nat)
    ensures 1 <= n <= 4
  {
    if (c as int) < 0x80 then 1
    else if (c as int) < 0x800 then 2
    else if (c as int) < 0x10000 then 3
    else 4
  }

  /** len(s.encode('utf-8')). */
  function Utf8Len(s: string): (n: nat)
    decreases |s|
  {
    if s == [] then 0 else Utf8Width(s[0]) + Utf8Len(s[1..])
  }

  /** The byte length lies between the number of code points and four times it. */
  lemma {:induction false} Utf8LenBounds(s: string)
    ensures |s| <= Utf8Len(s) <= 4 * |s|
    decreases |s|
  {
    if s != [] {
      Utf8LenBounds(s[1..]);
    }
  }

  lemma {:induction false} Utf8LenAppend(a: string, b: string)
    ensures Utf8Len(a + b) == Utf8Len(a) + Utf8Len(b)
    decreases |a|
  {
    if a != [] {
      assert (a + b)[1..] == a[1..] + b;
      assert (a + b)[0] == a[0];
      Utf8LenAppend(a[1..], b);
    } else {
      assert a + b == b;
    }
  }

  /** An ASCII-only string takes one byte per character. */
  lemma {:induction false} Utf8LenAscii(s: string)
    requires forall k :: 0 <= k < |s| ==> (s[k] as int) < 0x80
    ensures Utf8Len(s) == |s|
    decreases |s|
  {
    if s != [] {
      Utf8LenAscii(s[1..]);
    }
  }

  function DigitChar(d: nat): char
    requires d < 10
  {
    ('0' as int + d) as char
  }

  /** Decimal rendering of a natural number, as Python's str(n) and f-strings give it. */
  function NatToString(n: nat): (r: string)
    ensures r != []
    decreases n
  {
    if n < 10 then [DigitChar(n)] else NatToString(n / 10) + [DigitChar(n % 10)]
  }

  /** JavaScript's notion of whitespace (String.prototype.trim). */
  predicate IsJsSpace(c: char) {
    ('\t' <= c <= '\r') || c == ' ' || c == '\U{A0}' || c == '\U{1680}'
    || ('\U{2000}' <= c <= '\U{200A}') || c == '\U{2028}' || c == '\U{2029}'
    || c == '\U{202F}' || c == '\U{205F}' || c == '\U{3000}' || c == '\U{FEFF}'
  }

  /** JavaScript's `!s.trim()`. */
  predicate JsBlank(s: string) {
    forall i :: 0 <= i < |s| ==> IsJsSpace(s[i])
  }
}
