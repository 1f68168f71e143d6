/**
 * The parts of Python's `str` that the plugin relies on, as Python 3.3 (the interpreter of
 * Sublime Text 3's plugin host) defines them, on `string` (a sequence of characters):
 * `strip()`, `find`/`rfind` of one character, slicing with negative and out-of-range
 * bounds, `split` on a one-character separator, `join`, `splitlines`, `replace`, `'%d' %`
 * and `int()` on a decimal field.
 */
module PyStrings {
  import opened Wrappers

  // ---------------------------------------------------------------------------
  // strip()

  /** The characters for which `str.isspace()` holds in Python 3.3 (Unicode 6.1, where U+180E is
      still a space separator); `strip()` removes exactly these. */
  predicate IsSpace(c: char) {
    c == ' ' || '\t' <= c <= '\r' || '\U{1c}' <= c <= '\U{1f}' || c == '\U{85}' || c == '\U{a0}'
    || c == '\U{1680}' || c == '\U{180e}' || '\U{2000}' <= c <= '\U{200a}' || c == '\U{2028}' || c == '\U{2029}'
    || c == '\U{202f}' || c == '\U{205f}' || c == '\U{3000}'
  }

  /** The index of the first character at or after i that is not whitespace, or |s|. */
  function SkipSpaces(s: string, i: nat): (k: nat)
    requires i <= |s|
    ensures i <= k <= |s|
    ensures forall j :: i <= j < k ==> IsSpace(s[j])
    ensures k == |s| || !IsSpace(s[k])
    decreases |s| - i
  {
    if i == |s| || !IsSpace(s[i]) then i else SkipSpaces(s, i + 1)
  }

  /** The index just past the last character before j, and not before lo, that is not
      whitespace, or lo. */
  function SkipSpacesBack(s: string, lo: nat, j: nat): (k: nat)
    requires lo <= j <= |s|
    ensures lo <= k <= j
    ensures forall m :: k <= m < j ==> IsSpace(s[m])
    ensures k == lo || !IsSpace(s[k - 1])
    decreases j
  {
    if j == lo || !IsSpace(s[j - 1]) then j else SkipSpacesBack(s, lo, j - 1)
  }

  /** Where the text `strip()` keeps starts. */
  function StripStart(s: string): nat
    ensures StripStart(s) <= |s|
  {
    SkipSpaces(s, 0)
  }

  /** Where the text `strip()` keeps ends. */
  function StripEnd(s: string): (hi: nat)
    ensures StripStart(s) <= hi <= |s|
  {
    SkipSpacesBack(s, StripStart(s), |s|)
  }

  /** `s.strip()`: s with its leading and trailing whitespace removed. */
  function Strip(s: string): (r: string)
    ensures r == [] || (!IsSpace(r[0]) && !IsSpace(r[|r| - 1]))
  {
    s[StripStart(s)..StripEnd(s)]
  }

  /** What strip removes is whitespace at the two ends, and what it keeps is the slice between. */
  lemma StripRemovesOnlyEnds(s: string)
    ensures var lo, hi := StripStart(s), StripEnd(s);
      Strip(s) == s[lo..hi]
      && (forall i :: 0 <= i < lo ==> IsSpace(s[i]))
      && (forall i :: hi <= i < |s| ==> IsSpace(s[i]))
  {
  }

  /** A string without whitespace at either end is its own strip; in particular strip is idempotent. */
  lemma StripUnchanged(s: string)
    requires s == [] || (!IsSpace(s[0]) && !IsSpace(s[|s| - 1]))
    ensures Strip(s) == s
  {
  }

  /** s is all whitespace. */
  predicate AllSpace(s: string) {
    forall i :: 0 <= i < |s| ==> IsSpace(s[i])
  }

  /** Strip keeps exactly the text between whitespace at both ends: the result does not depend
      on how much whitespace surrounds it. */
  lemma StripFramed(a: string, r: string, b: string)
    requires AllSpace(a) && AllSpace(b)
    requires r == [] || (!IsSpace(r[0]) && !IsSpace(r[|r| - 1]))
    ensures Strip(a + r + b) == r
  {
    var s := a + r + b;
    var lo, hi := StripStart(s), StripEnd(s);
    if r == [] {
      assert forall i :: 0 <= i < |s| ==> IsSpace(s[i]);
    } else {
      assert s[|a|] == r[0] && s[|a| + |r| - 1] == r[|r| - 1];
      assert forall i :: |a| + |r| <= i < |s| ==> IsSpace(s[i]);
      assert lo == |a|;
      assert hi == |a| + |r|;
      assert s[lo..hi] == r;
    }
  }

  /** Trailing whitespace does not change what strip keeps. */
  lemma StripAppendSpace(s: string, c: char)
    requires IsSpace(c)
    ensures Strip(s + [c]) == Strip(s)
  {
    StripRemovesOnlyEnds(s);
    var lo, hi := StripStart(s), StripEnd(s);
    assert s + [c] == s[..lo] + s[lo..hi] + (s[hi..] + [c]);
    StripFramed(s[..lo], s[lo..hi], s[hi..] + [c]);
  }

  // ---------------------------------------------------------------------------
  // find, rfind and slicing

  /** s does not contain c. */
  predicate Avoids(s: string, c: char) {
    forall j :: 0 <= j < |s| ==> s[j] != c
  }

  /** `s.find(c)`: the index of the first c in s, or -1. */
  function Find(s: string, c: char): (r: int)
    ensures -1 <= r < |s|
    ensures r < 0 <==> Avoids(s, c)
    ensures 0 <= r ==> s[r] == c && Avoids(s[..r], c)
    decreases |s|
  {
    if s == [] then -1
    else if s[0] == c then 0
    else
      var k := Find(s[1..], c);
      assert k >= 0 ==> s[..k + 1] == [s[0]] + s[1..][..k];
      if k < 0 then -1 else k + 1
  }

  /** `s.rfind(c)`: the index of the last c in s, or -1. */
  function RFind(s: string, c: char): (r: int)
    ensures -1 <= r < |s|
    ensures r < 0 <==> Avoids(s, c)
    ensures 0 <= r ==> s[r] == c && Avoids(s[r + 1..], c)
    decreases |s|
  {
    if s == [] then -1
    else if s[|s| - 1] == c then |s| - 1
    else
      var k := RFind(s[..|s| - 1], c);
      assert k >= 0 ==> s[k + 1..] == s[..|s| - 1][k + 1..] + [s[|s| - 1]];
      k
  }

  /** The index a bound `i` of the slice `s[lo:hi]` stands for, in a string of length n. */
  function SliceBound(i: int, n: nat): (r: nat)
    ensures r <= n
    ensures 0 <= i <= n ==> r == i
    ensures i < 0 && 0 <= n + i ==> r == n + i
  {
    if i < 0 then (if i + n < 0 then 0 else i + n) else if i > n then n else i
  }

  /** `s[lo:hi]`: negative bounds count from the end, bounds are clamped, and a reversed range is empty. */
  function Slice(s: string, lo: int, hi: int): (r: string)
    ensures |r| <= |s|
    ensures 0 <= lo <= hi <= |s| ==> r == s[lo..hi]
    ensures 0 <= lo <= |s| <= hi ==> r == s[lo..]
    ensures -|s| <= hi < 0 && 0 <= lo <= |s| + hi ==> r == s[lo..|s| + hi]
    ensures -|s| <= hi < 0 && |s| + hi <= lo ==> r == []
    ensures 0 <= hi <= lo ==> r == []
  {
    var a, b := SliceBound(lo, |s|), SliceBound(hi, |s|);
    if a <= b then s[a..b] else []
  }

  // ---------------------------------------------------------------------------
  // split and join

  /** `s.split(d)` for a one-character separator: the pieces between the occurrences of d. */
  function Split(s: string, d: char): (parts: seq<string>)
    ensures |parts| >= 1
    decreases |s|
  {
    var k := Find(s, d);
    if k < 0 then [s] else [s[..k]] + Split(s[k + 1..], d)
  }

  /** No piece of a split holds the separator. */
  lemma {:induction false} SplitAvoids(s: string, d: char)
    ensures forall i :: 0 <= i < |Split(s, d)| ==> Avoids(Split(s, d)[i], d)
    decreases |s|
  {
    var k := Find(s, d);
    if k >= 0 {
      var first, rest := s[..k], Split(s[k + 1..], d);
      SplitAvoids(s[k + 1..], d);
      assert Split(s, d) == [first] + rest;
      forall i | 0 < i <= |rest| ensures Avoids(([first] + rest)[i], d) {
        ConsIndex(first, rest, i);
      }
    }
  }

  /** `sep.join(parts)`. */
  function Join(parts: seq<string>, sep: string): string
    decreases |parts|
  {
    if parts == [] then [] else if |parts| == 1 then parts[0] else parts[0] + sep + Join(parts[1..], sep)
  }

  /** Joining is cons-wise. */
  lemma JoinCons(a: string, rest: seq<string>, sep: string)
    ensures Join([a] + rest, sep) == if rest == [] then a else a + sep + Join(rest, sep)
  {
    assert ([a] + rest)[1..] == rest;
  }

  /** Joining one more piece appends the separator and the piece. */
  lemma {:induction false} JoinSnoc(parts: seq<string>, x: string, sep: string)
    ensures Join(parts + [x], sep) == if parts == [] then x else Join(parts, sep) + sep + x
    decreases |parts|
  {
    if parts != [] {
      var tail := parts[1..];
      assert parts + [x] == [parts[0]] + (tail + [x]);
      assert parts == [parts[0]] + tail;
      JoinCons(parts[0], tail + [x], sep);
      JoinSnoc(tail, x, sep);
      JoinCons(parts[0], tail, sep);
      if tail != [] {
        var a, j := parts[0] + sep, Join(tail, sep);
        AppendAssoc(a, j + sep, x);
        AppendAssoc(a, j, sep);
      }
    }
  }

  /** A concatenation holds c exactly when one of its parts does. */
  lemma AvoidsAppend(a: string, b: string, c: char)
    ensures Avoids(a + b, c) <==> Avoids(a, c) && Avoids(b, c)
  {
    if Avoids(a, c) && Avoids(b, c) {
      forall i | |a| <= i < |a + b| ensures (a + b)[i] != c {
        assert (a + b)[i] == b[i - |a|];
      }
    }
    if Avoids(a + b, c) {
      forall i | 0 <= i < |b| ensures b[i] != c {
        assert (a + b)[|a| + i] == b[i];
      }
      forall i | 0 <= i < |a| ensures a[i] != c {
        assert (a + b)[i] == a[i];
      }
    }
  }

  /** The first separator of `a + [d] + b` is the one after a, when a holds none. */
  lemma FindFirstSeparator(a: string, d: char, b: string)
    requires Avoids(a, d)
    ensures Find(a + [d] + b, d) == |a|
  {
    var s := a + [d] + b;
    assert s[..|a|] == a && s[|a|] == d;
  }

  /** The last separator of `a + [d] + b` is the one before b, when b holds none. */
  lemma RFindLastSeparator(a: string, d: char, b: string)
    requires Avoids(b, d)
    ensures RFind(a + [d] + b, d) == |a|
  {
    var s := a + [d] + b;
    assert s[|a| + 1..] == b && s[|a|] == d;
  }

  /** A join of pieces and a separator that all avoid c avoids c. */
  lemma {:induction false} JoinAvoids(parts: seq<string>, sep: string, c: char)
    requires forall i :: 0 <= i < |parts| ==> Avoids(parts[i], c)
    requires Avoids(sep, c)
    ensures Avoids(Join(parts, sep), c)
    decreases |parts|
  {
    if |parts| > 1 {
      JoinAvoids(parts[1..], sep, c);
    }
  }

  /** Splitting `a + [d] + b`, where a holds no d, gives a and then the pieces of b. */
  lemma SplitCons(a: string, d: char, b: string)
    requires Avoids(a, d)
    ensures Split(a + [d] + b, d) == [a] + Split(b, d)
  {
    var s := a + [d] + b;
    FindFirstSeparator(a, d, b);
    assert s[..|a|] == a && s[|a| + 1..] == b;
  }

  /** Joining the pieces of a split with the separator gives back the string. */
  lemma {:induction false} SplitThenJoin(s: string, d: char)
    ensures Join(Split(s, d), [d]) == s
    decreases |s|
  {
    var k := Find(s, d);
    if k >= 0 {
      var a, b := s[..k], s[k + 1..];
      assert s == a + [d] + b;
      SplitCons(a, d, b);
      SplitThenJoin(b, d);
      JoinCons(a, Split(b, d), [d]);
    }
  }

  /** Split is the inverse of join: pieces free of the separator come back unchanged. */
  lemma {:induction false} JoinThenSplit(parts: seq<string>, d: char)
    requires parts != []
    requires forall i :: 0 <= i < |parts| ==> Avoids(parts[i], d)
    ensures Split(Join(parts, [d]), d) == parts
    decreases |parts|
  {
    var a, tail := parts[0], parts[1..];
    assert parts == [a] + tail;
    if tail != [] {
      JoinCons(a, tail, [d]);
      SplitCons(a, d, Join(tail, [d]));
      JoinThenSplit(tail, d);
    }
  }

  // ---------------------------------------------------------------------------
  // splitlines

  /** The line boundaries of Python's `str.splitlines`. */
  predicate IsLineBreak(c: char) {
    c == '\n' || c == '\r' || c == '\U{0b}' || c == '\U{0c}' || '\U{1c}' <= c <= '\U{1e}'
    || c == '\U{85}' || c == '\U{2028}' || c == '\U{2029}'
  }

  /** What may end a line: nothing (the last line), one boundary character, or "\r\n". */
  predicate IsTerminator(t: string) {
    t == [] || (|t| == 1 && IsLineBreak(t[0])) || t == "\r\n"
  }

  /** The index of the first line boundary in s, or |s| when there is none. */
  function BreakAt(s: string): (k: nat)
    ensures k <= |s|
    decreases |s|
  {
    if s == [] || IsLineBreak(s[0]) then 0 else 1 + BreakAt(s[1..])
  }

  /** BreakAt stops at the first line boundary. */
  lemma {:induction false} BreakAtFirst(s: string)
    ensures forall i :: 0 <= i < BreakAt(s) ==> !IsLineBreak(s[i])
    ensures BreakAt(s) < |s| ==> IsLineBreak(s[BreakAt(s)])
    decreases |s|
  {
    if s != [] && !IsLineBreak(s[0]) {
      BreakAtFirst(s[1..]);
      forall i | 1 <= i < BreakAt(s) ensures !IsLineBreak(s[i]) {
        assert s[i] == s[1..][i - 1];
      }
    }
  }

  /** The length of the first line of s together with its terminator. */
  function LineLength(s: string): (n: nat)
    requires s != []
    ensures BreakAt(s) <= n <= |s| && 0 < n
  {
    var k := BreakAt(s);
    if k == |s| then |s|
    else if s[k] == '\r' && k + 1 < |s| && s[k + 1] == '\n' then k + 2
    else k + 1
  }

  /** What follows the first line's text, up to LineLength, is a terminator. */
  lemma LineTerminator(s: string)
    requires s != []
    ensures IsTerminator(s[BreakAt(s)..LineLength(s)])
  {
    var k := BreakAt(s);
    if k < |s| && s[k] == '\r' && k + 1 < |s| && s[k + 1] == '\n' {
      assert s[k..k + 2] == "\r\n";
    }
  }

  /** `s.splitlines(True)`: the lines of s, each with its terminator. */
  function SplitLinesKeepEnds(s: string): seq<string>
    decreases |s|
  {
    if s == [] then [] else [s[..LineLength(s)]] + SplitLinesKeepEnds(s[LineLength(s)..])
  }

  /** The lines with their terminators make up s. */
  lemma {:induction false} SplitLinesKeepEndsJoin(s: string)
    ensures Join(SplitLinesKeepEnds(s), []) == s
    decreases |s|
  {
    if s != [] {
      var n := LineLength(s);
      var first, rest := s[..n], SplitLinesKeepEnds(s[n..]);
      assert SplitLinesKeepEnds(s) == [first] + rest;
      SplitLinesKeepEndsJoin(s[n..]);
      JoinCons(first, rest, []);
      assert s == first + s[n..];
    }
  }

  /** Each line with its terminator holds at least one character. */
  lemma {:induction false} SplitLinesKeepEndsNonEmpty(s: string, i: nat)
    requires i < |SplitLinesKeepEnds(s)|
    ensures SplitLinesKeepEnds(s)[i] != []
    decreases |s|
  {
    var n := LineLength(s);
    if i > 0 {
      SplitLinesKeepEndsNonEmpty(s[n..], i - 1);
    }
  }

  /** p is empty or ends a line: its last character is a line boundary that s does not extend
      (a '\r' followed by '\n' would be one "\r\n" boundary). */
  predicate EndsLine(p: string, s: string) {
    p == [] || (IsLineBreak(p[|p| - 1]) && (p[|p| - 1] == '\r' ==> s == [] || s[0] != '\n'))
  }

  /** A string with no line boundary. */
  predicate NoLineBreak(s: string) {
    forall i :: 0 <= i < |s| ==> !IsLineBreak(s[i])
  }

  /** A boundary inside p is found before anything appended to p. */
  lemma {:induction false} BreakAtPrefix(p: string, s: string)
    requires BreakAt(p) < |p|
    ensures BreakAt(p + s) == BreakAt(p)
    decreases |p|
  {
    if !IsLineBreak(p[0]) {
      assert (p + s)[1..] == p[1..] + s;
      BreakAtPrefix(p[1..], s);
    }
  }

  /** With no boundary in p, the first boundary of p + s is the first of s. */
  lemma {:induction false} BreakAtPastPrefix(p: string, s: string)
    requires NoLineBreak(p)
    ensures BreakAt(p + s) == |p| + BreakAt(s)
    decreases |p|
  {
    if p == [] {
      assert p + s == s;
    } else {
      assert (p + s)[1..] == p[1..] + s;
      BreakAtPastPrefix(p[1..], s);
    }
  }

  /** The first line of a string that ends a line is the first line of anything that follows it. */
  lemma LineLengthAppend(p: string, s: string)
    requires p != [] && EndsLine(p, s)
    ensures LineLength(p + s) == LineLength(p)
  {
    BreakAtFirst(p);
    BreakAtPrefix(p, s);
  }

  lemma AppendAssoc<T>(a: seq<T>, b: seq<T>, c: seq<T>)
    ensures a + (b + c) == (a + b) + c
  {
  }

  /** Slicing p + s within p. */
  lemma AppendSlices<T>(p: seq<T>, s: seq<T>, n: nat)
    requires n <= |p|
    ensures (p + s)[..n] == p[..n] && (p + s)[n..] == p[n..] + s
  {
  }

  /** The two parts of a concatenation, sliced back out. */
  lemma AppendParts<T>(a: seq<T>, b: seq<T>)
    ensures (a + b)[..|a|] == a && (a + b)[|a|..] == b
  {
  }

  /** A sequence is its two slices at k, put back together. */
  lemma SliceParts<T>(s: seq<T>, k: nat)
    requires k <= |s|
    ensures s[..k] + s[k..] == s
  {
  }

  /** A non-empty sequence is its front and its last element. */
  lemma ConsIndex<T>(x: T, r: seq<T>, i: nat) requires 0 < i <= |r| ensures ([x] + r)[i] == r[i - 1] {}
  lemma CancelSuffix<T>(a: seq<T>, b: seq<T>, c: seq<T>) requires a + c == b + c ensures a == b {
    assert a == (a + c)[..|a|];
  }
  lemma FrontLast<T>(s: seq<T>)
    requires s != []
    ensures s[..|s| - 1] + [s[|s| - 1]] == s
  {
  }

  /** splitlines(True) of a concatenation whose first part ends a line: the lines of each part. */
  lemma {:induction false} SplitLinesKeepEndsAppend(p: string, s: string)
    requires EndsLine(p, s)
    ensures SplitLinesKeepEnds(p + s) == SplitLinesKeepEnds(p) + SplitLinesKeepEnds(s)
    decreases |p|
  {
    if p == [] {
      assert p + s == s;
    } else {
      var n := LineLength(p);
      var rest := p[n..];
      assert SplitLinesKeepEnds(p + s) == [p[..n]] + SplitLinesKeepEnds(rest + s) by {
        LineLengthAppend(p, s);
        AppendSlices(p, s, n);
      }
      assert SplitLinesKeepEnds(rest + s) == SplitLinesKeepEnds(rest) + SplitLinesKeepEnds(s) by {
        assert rest != [] ==> rest[|rest| - 1] == p[|p| - 1];
        SplitLinesKeepEndsAppend(rest, s);
      }
      assert SplitLinesKeepEnds(p) == [p[..n]] + SplitLinesKeepEnds(rest);
      AppendAssoc([p[..n]], SplitLinesKeepEnds(rest), SplitLinesKeepEnds(s));
    }
  }

  /** The first line of s, when others follow it, ends a line. */
  lemma FirstLineEnds(s: string)
    requires s != [] && LineLength(s) < |s|
    ensures EndsLine(s[..LineLength(s)], s[LineLength(s)..])
  {
    BreakAtFirst(s);
  }

  /** When other lines follow the first line of s, appending to s leaves that first line as
      it is. */
  lemma FirstLineKept(s: string, t: string)
    requires s != [] && LineLength(s) < |s|
    ensures LineLength(s + t) == LineLength(s)
    ensures (s + t)[..LineLength(s)] == s[..LineLength(s)]
    ensures (s + t)[LineLength(s)..] == s[LineLength(s)..] + t
  {
    BreakAtPrefix(s, t);
    AppendSlices(s, t, LineLength(s));
  }

  /** A non-empty string with no boundary is one line. */
  lemma NoBreakIsOneLine(x: string)
    requires x != [] && NoLineBreak(x)
    ensures SplitLinesKeepEnds(x) == [x]
  {
    BreakAtPastPrefix(x, []);
    assert x + [] == x;
    assert x[LineLength(x)..] == [];
  }

  /** A string whose only boundary is its final '\n' is one line. */
  lemma NewlineEndsOneLine(x: string)
    requires NoLineBreak(x)
    ensures SplitLinesKeepEnds(x + "\n") == [x + "\n"]
  {
    var y := x + "\n";
    BreakAtPastPrefix(x, "\n");
    assert BreakAt("\n") == 0;
    assert LineLength(y) == |y|;
    assert y[..|y|] == y && y[|y|..] == [];
  }

  /** Replacing the last element of [a] + r is replacing the last element of r. */
  lemma ReplaceLast<T>(a: T, r: seq<T>, y: T)
    requires r != []
    ensures [a] + (r[..|r| - 1] + [y]) == ([a] + r)[..|r|] + [y]
  {
  }

  /** Appending '\n' to a string whose last line has no terminator gives that line one. */
  lemma {:induction false} AppendNewline(s: string)
    requires s != [] && !IsLineBreak(s[|s| - 1])
    ensures var lines := SplitLinesKeepEnds(s);
      lines != [] && SplitLinesKeepEnds(s + "\n") == lines[..|lines| - 1] + [lines[|lines| - 1] + "\n"]
    decreases |s|
  {
    var n := LineLength(s);
    if n == |s| {
      BreakAtFirst(s);
      assert NoLineBreak(s);
      assert s[..n] == s && s[n..] == [];
      assert SplitLinesKeepEnds(s) == [s];
      NewlineEndsOneLine(s);
    } else {
      var rest := s[n..];
      FirstLineKept(s, "\n");
      assert rest[|rest| - 1] == s[|s| - 1];
      AppendNewline(rest);
      var r := SplitLinesKeepEnds(rest);
      assert SplitLinesKeepEnds(s) == [s[..n]] + r;
      assert SplitLinesKeepEnds(s + "\n") == [s[..n]] + SplitLinesKeepEnds(rest + "\n");
      ReplaceLast(s[..n], r, r[|r| - 1] + "\n");
    }
  }

  /** `s.splitlines()`: the lines of s without their terminators. */
  function SplitLines(s: string): (lines: seq<string>)
    ensures |lines| == |SplitLinesKeepEnds(s)|
    decreases |s|
  {
    if s == [] then [] else [s[..BreakAt(s)]] + SplitLines(s[LineLength(s)..])
  }

  /** A line of text and the same line with its terminator: the text holds no line boundary,
      and what follows it is a terminator. */
  predicate LineAndTerminator(line: string, kept: string) {
    |line| <= |kept| && kept == line + kept[|line|..] && IsTerminator(kept[|line|..])
    && forall j :: 0 <= j < |line| ==> !IsLineBreak(line[j])
  }

  /** The first lines of `s.splitlines()` and of `s.splitlines(True)`. */
  lemma FirstLineDropsTerminator(s: string)
    requires s != []
    ensures LineAndTerminator(s[..BreakAt(s)], s[..LineLength(s)])
  {
    var n, k := LineLength(s), BreakAt(s);
    BreakAtFirst(s);
    LineTerminator(s);
    var kept, line := s[..n], s[..k];
    assert kept[|line|..] == s[k..n];
    assert kept == line + s[k..n];
  }

  /** Line i of `s.splitlines()` is line i of `s.splitlines(True)` without its terminator,
      and holds no line boundary. */
  lemma {:induction false} SplitLinesDropsTerminators(s: string, i: nat)
    requires i < |SplitLines(s)|
    ensures LineAndTerminator(SplitLines(s)[i], SplitLinesKeepEnds(s)[i])
    decreases |s|
  {
    var n := LineLength(s);
    var rest, restKept := SplitLines(s[n..]), SplitLinesKeepEnds(s[n..]);
    assert SplitLines(s) == [s[..BreakAt(s)]] + rest;
    assert SplitLinesKeepEnds(s) == [s[..n]] + restKept;
    if i == 0 {
      FirstLineDropsTerminator(s);
    } else {
      SplitLinesDropsTerminators(s[n..], i - 1);
      ConsIndex(s[..BreakAt(s)], rest, i);
      ConsIndex(s[..n], restKept, i);
    }
  }

  /** Every line of `s.splitlines(True)` but the last is non-empty and ends with a line
      boundary, and a '\r' ending one is not followed by '\n' (the two would make one "\r\n"
      boundary): lines end exactly where boundaries do. */
  lemma {:induction false} SplitLinesKeepEndsBoundaries(s: string, i: nat)
    requires i + 1 < |SplitLinesKeepEnds(s)|
    ensures SplitLinesKeepEnds(s)[i] != []
    ensures EndsLine(SplitLinesKeepEnds(s)[i], SplitLinesKeepEnds(s)[i + 1])
    decreases |s|
  {
    var n := LineLength(s);
    var t := s[n..];
    var restKept := SplitLinesKeepEnds(t);
    assert SplitLinesKeepEnds(s) == [s[..n]] + restKept;
    if i == 0 {
      assert t != [];
      FirstLineEnds(s);
      assert restKept[0] == t[..LineLength(t)];
      assert restKept[0][0] == t[0];
    } else {
      SplitLinesKeepEndsBoundaries(t, i - 1);
      ConsIndex(s[..n], restKept, i);
      ConsIndex(s[..n], restKept, i + 1);
    }
  }

  // ---------------------------------------------------------------------------
  // replace

  /** `s.replace(a, b)` for one-character a and b. */
  function ReplaceChar(s: string, a: char, b: char): (r: string)
    ensures |r| == |s|
  {
    seq(|s|, i requires 0 <= i < |s| => if s[i] == a then b else s[i])
  }

  /** Replacing a by b removes every a, and replacing back restores s when b did not occur in it. */
  lemma ReplaceCharInverse(s: string, a: char, b: char)
    requires a != b && b !in s
    ensures a !in ReplaceChar(s, a, b)
    ensures ReplaceChar(ReplaceChar(s, a, b), b, a) == s
  {
    var r := ReplaceChar(s, a, b);
    forall i | 0 <= i < |s| ensures r[i] != a && ReplaceChar(r, b, a)[i] == s[i] {
      assert s[i] != b;
    }
  }

  /** pat occurs in s at index i. */
  predicate OccursAt(pat: string, s: string, i: int) {
    0 <= i && i + |pat| <= |s| && s[i..i + |pat|] == pat
  }

  ghost predicate Occurs(pat: string, s: string) {
    exists i :: OccursAt(pat, s, i)
  }

  /** `s.replace(pat, '')`: the non-overlapping occurrences of pat, found left to right, removed. */
  function RemoveAll(s: string, pat: string): (r: string)
    requires pat != []
    ensures |r| <= |s|
    decreases |s|
  {
    if |s| < |pat| then s
    else if s[..|pat|] == pat then RemoveAll(s[|pat|..], pat)
    else [s[0]] + RemoveAll(s[1..], pat)
  }

  /** When pat does not start s, it occurs in s exactly when it occurs in s without its first
      character. */
  lemma OccursInTail(pat: string, s: string)
    requires pat != [] && |pat| <= |s| && s[..|pat|] != pat
    ensures Occurs(pat, s) <==> Occurs(pat, s[1..])
  {
    if Occurs(pat, s) {
      var i :| OccursAt(pat, s, i);
      assert i != 0;
      assert s[1..][i - 1..i - 1 + |pat|] == s[i..i + |pat|];
      assert OccursAt(pat, s[1..], i - 1);
    }
    if Occurs(pat, s[1..]) {
      var i :| OccursAt(pat, s[1..], i);
      assert s[1..][i..i + |pat|] == s[i + 1..i + 1 + |pat|];
      assert OccursAt(pat, s, i + 1);
    }
  }

  /** Removing pat changes s exactly when pat occurs in s. */
  lemma {:induction false} RemoveAllUnchanged(s: string, pat: string)
    requires pat != []
    ensures RemoveAll(s, pat) == s <==> !Occurs(pat, s)
    decreases |s|
  {
    if |s| < |pat| {
      assert forall i :: !OccursAt(pat, s, i);
    } else if s[..|pat|] == pat {
      assert OccursAt(pat, s, 0);
    } else {
      RemoveAllUnchanged(s[1..], pat);
      OccursInTail(pat, s);
      var tail := RemoveAll(s[1..], pat);
      assert RemoveAll(s, pat) == [s[0]] + tail;
      assert s == [s[0]] + s[1..];
      assert [s[0]] + tail == s ==> tail == ([s[0]] + tail)[1..];
    }
  }

  /** A leading occurrence of pat is removed, and the rest is treated on its own. */
  lemma RemoveAllPrefixed(pat: string, r: string)
    requires pat != []
    ensures RemoveAll(pat + r, pat) == RemoveAll(r, pat)
  {
    assert (pat + r)[..|pat|] == pat;
    assert (pat + r)[|pat|..] == r;
  }

  // ---------------------------------------------------------------------------
  // decimal numbers: '%d' % n and int(s)

  predicate IsDigit(c: char) {
    '0' <= c <= '9'
  }

  predicate AllDigits(s: string) {
    forall i :: 0 <= i < |s| ==> IsDigit(s[i])
  }

  /** The value of a string of decimal digits. */
  function DigitsValue(s: string): nat
    requires AllDigits(s)
    decreases |s|
  {
    if s == [] then 0 else 10 * DigitsValue(s[..|s| - 1]) + (s[|s| - 1] as int - '0' as int)
  }

  /** `'%d' % n` for a non-negative n: one or more decimal digits. */
  function DecimalString(n: nat): (s: string)
    ensures s != [] && AllDigits(s)
    decreases n
  {
    if n < 10 then [(n + '0' as int) as char]
    else DecimalString(n / 10) + [(n % 10 + '0' as int) as char]
  }

  /** Reading back the digits that '%d' writes gives the number. */
  lemma {:induction false} DecimalRoundTrip(n: nat)
    ensures DigitsValue(DecimalString(n)) == n
    decreases n
  {
    if n >= 10 {
      var s := DecimalString(n);
      assert s[..|s| - 1] == DecimalString(n / 10);
      DecimalRoundTrip(n / 10);
    }
  }

  /** `'%d' % i` for any integer. */
  function IntString(i: int): string {
    if i < 0 then "-" + DecimalString(-i) else DecimalString(i)
  }

  /** The whitespace `int()` skips around its digits in Python 3.3: ASCII space and `\t` to
      `\r`, and every non-ASCII character for which `isspace()` holds (those are turned into a
      space before the digits are read). The separators U+001C to U+001F, which `strip()`
      removes, are not skipped. */
  predicate IsIntSpace(c: char) {
    IsSpace(c) && !('\U{1c}' <= c <= '\U{1f}')
  }

  predicate AllIntSpace(s: string) {
    forall i :: 0 <= i < |s| ==> IsIntSpace(s[i])
  }

  /** s without the whitespace `int()` skips at its two ends. */
  function IntTrim(s: string): (r: string)
    ensures r == [] || (!IsIntSpace(r[0]) && !IsIntSpace(r[|r| - 1]))
    ensures |r| <= |s|
    ensures s != [] && !IsIntSpace(s[0]) ==> r != [] && r[0] == s[0]
    decreases |s|
  {
    if s != [] && IsIntSpace(s[0]) then IntTrim(s[1..])
    else if s != [] && IsIntSpace(s[|s| - 1]) then IntTrim(s[..|s| - 1])
    else s
  }

  /** IntTrim keeps exactly the text between skipped whitespace at both ends. */
  lemma {:induction false} IntTrimFramed(a: string, r: string, b: string)
    requires AllIntSpace(a) && AllIntSpace(b)
    requires r == [] || (!IsIntSpace(r[0]) && !IsIntSpace(r[|r| - 1]))
    ensures IntTrim(a + r + b) == r
    decreases |a| + |b|
  {
    var s := a + r + b;
    if a != [] {
      assert s[0] == a[0] && s[1..] == a[1..] + r + b;
      IntTrimFramed(a[1..], r, b);
    } else if r == [] && b != [] {
      assert s == b && s[1..] == [] + [] + b[1..];
      IntTrimFramed([], [], b[1..]);
    } else if b != [] {
      assert s[0] == r[0] && s[|s| - 1] == b[|b| - 1];
      assert s[..|s| - 1] == [] + r + b[..|b| - 1];
      IntTrimFramed([], r, b[..|b| - 1]);
    } else {
      assert s == r;
    }
  }

  /** `int(s)` on a decimal literal: optional surrounding whitespace, an optional sign and one
      or more ASCII digits; None where Python raises ValueError. */
  function ParseInt(s: string): (r: Option<int>)
    ensures r.Some? ==> IntTrim(s) != []
  {
    var t := IntTrim(s);
    if t == [] then None
    else if t[0] == '-' || t[0] == '+' then
      if t[1..] != [] && AllDigits(t[1..]) then
        var v: int := DigitsValue(t[1..]);
        Some(if t[0] == '-' then -v else v)
      else None
    else if AllDigits(t) then Some(DigitsValue(t))
    else None
  }

  /** `int()` reads back what `'%d'` writes, whatever whitespace surrounds it. */
  lemma ParseIntFramed(a: string, i: int, b: string)
    requires AllIntSpace(a) && AllIntSpace(b)
    ensures ParseInt(a + IntString(i) + b) == Some(i)
  {
    var s := IntString(i);
    var n: nat := if i < 0 then -i else i;
    var digits := DecimalString(n);
    DecimalRoundTrip(n);
    assert IsDigit(digits[0]) && IsDigit(digits[|digits| - 1]);
    if i < 0 {
      assert s[0] == '-' && s[1..] == digits && s[|s| - 1] == digits[|digits| - 1];
    } else {
      assert s == digits;
    }
    IntTrimFramed(a, s, b);
  }

  /** `int('%d' % i) == i`. */
  lemma ParseIntRoundTrip(i: int)
    ensures ParseInt(IntString(i)) == Some(i)
  {
    ParseIntFramed([], i, []);
    assert [] + IntString(i) + [] == IntString(i);
  }

  /** A leading separator U+001C to U+001F, which `strip()` would remove, makes `int()` fail. */
  lemma ParseIntRejectsSeparator(c: char, t: string)
    requires '\U{1c}' <= c <= '\U{1f}'
    ensures IsSpace(c) && ParseInt([c] + t) == None
  {
    assert ([c] + t)[0] == c;
  }
}
