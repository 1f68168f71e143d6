/**
 * The editor commands with the editor left out: the import statement for the type under the
 * caret and where it goes in the buffer (`JebScriptAddImportCommand`), the documentation page
 * of that type (`JebViewDocCommand`), and the choice of completion list
 * (`JebAutocomplete.on_query_completions`). The caret's line, offset and the buffer are plain
 * parameters; the edit and the address are returned instead of being applied.
 */
module Commands {
  import opened Wrappers
  import opened PyStrings
  import opened Catalogue

  // ---------------------------------------------------------------------------
  // the import statement

  /** `'from %s import %s' % (t[0:pos], t[pos + 1:])`, with pos the last '.' of t. */
  function ImportLine(t: string): string {
    var pos := RFind(t, '.');
    "from " + Slice(t, 0, pos) + " import " + Slice(t, pos + 1, |t|)
  }

  /** A qualified name is cut at its last dot: everything before it is imported from, the
      undotted rest is what is imported. */
  lemma ImportLineOfQualified(p: string, n: string)
    requires Avoids(n, '.')
    ensures ImportLine(p + "." + n) == "from " + p + " import " + n
  {
    var t := p + "." + n;
    assert t == p + ['.'] + n;
    RFindLastSeparator(p, '.', n);
    assert t[..|p|] == p && t[|p| + 1..] == n;
  }

  /** A name without a dot: rfind gives -1, so `t[0:-1]` drops the last character and the whole
      name follows `import`. */
  lemma ImportLineOfUndotted(t: string)
    requires t != [] && Avoids(t, '.')
    ensures ImportLine(t) == "from " + t[..|t| - 1] + " import " + t
  {
    assert t[0..|t|] == t;
  }

  predicate StartsWith(s: string, prefix: string) {
    |prefix| <= |s| && s[..|prefix|] == prefix
  }

  /** A stripped line that holds an import statement. */
  predicate IsImport(t: string) {
    StartsWith(t, "from ") || StartsWith(t, "import ")
  }

  /** An import line is neither blank nor a comment. */
  lemma ImportIsNotBlank(t: string)
    requires IsImport(t)
    ensures !IsBlankOrComment(t)
  {
    if StartsWith(t, "from ") {
      assert t[0] == "from "[0];
    } else {
      assert t[0] == "import "[0];
    }
  }

  /** The lines, each stripped. */
  function StripAll(lines: seq<string>): (texts: seq<string>)
    ensures |texts| == |lines|
  {
    if lines == [] then [] else [Strip(lines[0])] + StripAll(lines[1..])
  }

  /** Line i of the stripped lines is line i stripped. */
  lemma {:induction false} StripAllAt(lines: seq<string>, i: nat)
    requires i < |lines|
    ensures StripAll(lines)[i] == Strip(lines[i])
    decreases i
  {
    if i > 0 {
      StripAllAt(lines[1..], i - 1);
    }
  }

  /** The number of blank or comment lines the buffer starts with, counted on its stripped
      lines. */
  function Lead(texts: seq<string>): (k: nat)
    ensures k <= |texts|
    decreases |texts|
  {
    if texts == [] || !IsBlankOrComment(texts[0]) then 0 else 1 + Lead(texts[1..])
  }

  /** Lead counts exactly the blank and comment lines before the first other line. */
  lemma {:induction false} LeadSpec(texts: seq<string>)
    ensures forall i :: 0 <= i < Lead(texts) ==> IsBlankOrComment(texts[i])
    ensures Lead(texts) == |texts| || !IsBlankOrComment(texts[Lead(texts)])
    decreases |texts|
  {
    if texts != [] && IsBlankOrComment(texts[0]) {
      LeadSpec(texts[1..]);
      forall i | 1 <= i < Lead(texts) ensures IsBlankOrComment(texts[i]) {
        assert texts[i] == texts[1..][i - 1];
      }
    }
  }

  /** Up to the end of the leading blank and comment lines, a line is within them exactly when
      it is blank or a comment. */
  lemma LeadStep(texts: seq<string>, i: nat)
    requires i < |texts| && i <= Lead(texts)
    ensures IsBlankOrComment(texts[i]) <==> i < Lead(texts)
  {
    LeadSpec(texts);
  }

  /** The first k lines are a header: blank and comment lines, then import lines only. */
  predicate Header(texts: seq<string>, k: nat) {
    k <= |texts| && forall i :: Lead(texts) <= i < k ==> IsImport(texts[i])
  }

  /** The header of k lines cannot be extended by the next line. */
  predicate MaximalHeader(texts: seq<string>, k: nat) {
    Header(texts, k) && !(k < |texts| && Header(texts, k + 1))
  }

  /** A header that cannot be extended is the longest one: the end of the header is unique. */
  lemma MaximalHeaderIsLongest(texts: seq<string>, k: nat)
    requires MaximalHeader(texts, k)
    ensures forall j: nat :: Header(texts, j) ==> j <= k
  {
  }

  /** None of the first k lines is the import line. */
  predicate Passed(texts: seq<string>, impline: string, k: nat)
    requires k <= |texts|
  {
    forall m :: 0 <= m < k && IsImport(texts[m]) ==> texts[m] != impline
  }

  /** The import line already stands in the header. */
  ghost predicate ImportPresent(texts: seq<string>, impline: string) {
    exists i :: 0 <= i < |texts| && Header(texts, i) && IsImport(texts[i]) && texts[i] == impline
  }

  /** The offset of the end of the buffer's longest header, given as the number of its lines. */
  ghost predicate HeaderEnd(lines: seq<string>, k: nat, at: nat) {
    MaximalHeader(StripAll(lines), k) && at == |Join(lines[..k], [])|
  }

  /** The joined lines of p + r are those of p, then those of r. */
  lemma {:induction false} JoinLinesAppend(p: seq<string>, r: seq<string>)
    ensures Join(p + r, []) == Join(p, []) + Join(r, [])
    decreases |p|
  {
    if p == [] {
      assert p + r == r;
    } else {
      var a, q := p[0], p[1..];
      assert p + r == [a] + (q + r);
      assert p == [a] + q;
      JoinLinesAppend(q, r);
      JoinCons(a, q + r, []);
      JoinCons(a, q, []);
      assert a + [] == a;
      if q == [] {
        assert q + r == r;
      } else {
        calc {
          Join(p + r, []);
          a + Join(q + r, []);
          a + (Join(q, []) + Join(r, []));
          { AppendAssoc(a, Join(q, []), Join(r, [])); }
          (a + Join(q, [])) + Join(r, []);
          Join(p, []) + Join(r, []);
        }
      }
    }
  }

  /** The length of the first i lines together. */
  function Offset(lines: seq<string>, i: nat): nat
    requires i <= |lines|
  {
    if i == 0 then 0 else Offset(lines, i - 1) + |lines[i - 1]|
  }

  /** Offset is the length of the first i lines joined. */
  lemma {:induction false} OffsetIsPrefixLength(lines: seq<string>, i: nat)
    requires i <= |lines|
    ensures Offset(lines, i) == |Join(lines[..i], [])|
    decreases i
  {
    if i == 0 {
      assert lines[..i] == [];
    } else {
      OffsetIsPrefixLength(lines, i - 1);
      assert lines[..i] == lines[..i - 1] + [lines[i - 1]];
      JoinLinesAppend(lines[..i - 1], [lines[i - 1]]);
    }
  }

  /** The end of a longest header is the offset of the line after it. */
  lemma HeaderEndOffset(lines: seq<string>, k: nat, at: nat)
    requires HeaderEnd(lines, k, at)
    ensures k <= |lines| && at == Offset(lines, k)
  {
    assert k <= |StripAll(lines)|;
    OffsetIsPrefixLength(lines, k);
  }

  /** A blank or comment line before any import, or an import line other than the import line,
      extends the header the scan has passed; the scan has seen an import after it exactly when
      it had before or this line is not blank. */
  lemma ScanStep(texts: seq<string>, impline: string, i: nat)
    requires i < |texts| && Header(texts, i) && Passed(texts, impline, i)
    requires IsBlankOrComment(texts[i]) ==> i <= Lead(texts)
    requires IsBlankOrComment(texts[i]) || (IsImport(texts[i]) && texts[i] != impline)
    ensures Header(texts, i + 1) && Passed(texts, impline, i + 1)
    ensures Lead(texts) < i + 1 <==> Lead(texts) < i || !IsBlankOrComment(texts[i])
  {
    LeadSpec(texts);
    if IsImport(texts[i]) {
      ImportIsNotBlank(texts[i]);
    }
  }

  /** A blank or comment line after an import, or a line that is neither, ends the header. */
  lemma HeaderStops(texts: seq<string>, i: nat)
    requires i <= |texts| && Header(texts, i)
    requires i < |texts| ==>
      (IsBlankOrComment(texts[i]) && Lead(texts) < i) || (!IsBlankOrComment(texts[i]) && !IsImport(texts[i]))
    ensures MaximalHeader(texts, i)
    ensures i < |texts| ==> !IsImport(texts[i])
  {
    if i < |texts| && IsImport(texts[i]) {
      ImportIsNotBlank(texts[i]);
    }
    LeadSpec(texts);
  }

  /** The scan stopped at line k (or ran out of lines), so no header line at or beyond k holds
      the import line. */
  lemma NoImportPastEnd(texts: seq<string>, impline: string, k: nat)
    requires MaximalHeader(texts, k) && Passed(texts, impline, k)
    requires k < |texts| ==> !IsImport(texts[k])
    ensures !ImportPresent(texts, impline)
  {
  }

  /** The scan stops at line i, a blank or comment line after an import or a line that is
      neither, or runs out of lines at i: the header ends there, and the import line is not in
      it. */
  lemma StopAt(texts: seq<string>, impline: string, i: nat)
    requires i <= |texts| && Header(texts, i) && Passed(texts, impline, i)
    requires i < |texts| ==>
      (IsBlankOrComment(texts[i]) && Lead(texts) < i) || (!IsBlankOrComment(texts[i]) && !IsImport(texts[i]))
    ensures MaximalHeader(texts, i) && !ImportPresent(texts, impline)
  {
    HeaderStops(texts, i);
    NoImportPastEnd(texts, impline, i);
  }

  /** Where the scan stops at the end of a longest header, the offset it has counted is that
      header's end. */
  lemma ScanEnd(lines: seq<string>, i: nat)
    requires i <= |lines| && MaximalHeader(StripAll(lines), i)
    ensures HeaderEnd(lines, i, Offset(lines, i))
  {
    OffsetIsPrefixLength(lines, i);
  }

  /** Where the scan stops at line i without having met the import line, it returns the end of
      a longest header, and the import line is not in the header. */
  lemma ScanStops(lines: seq<string>, impline: string, i: nat)
    requires i <= |lines| && Header(StripAll(lines), i) && Passed(StripAll(lines), impline, i)
    requires var texts := StripAll(lines);
      i < |texts| ==>
      (IsBlankOrComment(texts[i]) && Lead(texts) < i) || (!IsBlankOrComment(texts[i]) && !IsImport(texts[i]))
    ensures !ImportPresent(StripAll(lines), impline)
    ensures exists k :: HeaderEnd(lines, k, Offset(lines, i))
  {
    StopAt(StripAll(lines), impline, i);
    ScanEnd(lines, i);
  }

  /** `line.strip()` for line i of the buffer: line i of the stripped lines. */
  method StripLine(lines: seq<string>, i: nat) returns (t: string)
    requires i < |lines|
    ensures t == StripAll(lines)[i]
  {
    t := Strip(lines[i]);
    StripAllAt(lines, i);
  }

  /** An import line of the header that is the import line itself: the import is present. */
  lemma FoundAt(texts: seq<string>, impline: string, i: nat)
    requires i < |texts| && Header(texts, i) && IsImport(texts[i]) && texts[i] == impline
    ensures ImportPresent(texts, impline)
  {
  }

  /**
   * The scan of `JebScriptAddImportCommand.run` over the lines of the buffer, terminators kept
   * (`buf.splitlines(True)`): blank and comment lines are passed while no import has been seen,
   * import lines are passed, and the first other line stops the scan. It returns None when it
   * meets the import line itself, and otherwise the offset just after the lines it passed.
   */
  method InsertionPoint(lines: seq<string>, impline: string) returns (r: Option<nat>)
    ensures r.None? <==> ImportPresent(StripAll(lines), impline)
    ensures r.Some? ==> exists k :: HeaderEnd(lines, k, r.value)
  {
    ghost var texts := StripAll(lines);
    var foundimport := false;
    var inspoint: nat := 0;
    var i := 0;
    while i < |lines|
      invariant 0 <= i <= |lines|
      invariant Header(texts, i) && Passed(texts, impline, i)
      invariant foundimport <==> Lead(texts) < i
      invariant inspoint == Offset(lines, i)
    {
      var line := lines[i];
      var line2 := StripLine(lines, i);
      if IsBlankOrComment(line2) {
        if foundimport {
          ScanStops(lines, impline, i);
          return Some(inspoint);
        }
      } else if IsImport(line2) {
        if line2 == impline {
          FoundAt(texts, impline, i);
          return None;
        }
        foundimport := true;
      } else {
        ScanStops(lines, impline, i);
        return Some(inspoint);
      }
      inspoint := inspoint + |line|;
      ScanStep(texts, impline, i);
      i := i + 1;
    }
    ScanStops(lines, impline, i);
    return Some(inspoint);
  }

  /** An edit: text to insert at an offset of the buffer. */
  datatype Insertion = Insertion(at: nat, text: string)

  /** The type the command works on: the qualified name `simpletypenames` gives the word under
      the caret, when the word and that name are non-empty. */
  function QualifiedName(simpleTypeNames: map<string, string>, word: string): Option<string> {
    if word != [] && word in simpleTypeNames && simpleTypeNames[word] != [] then Some(simpleTypeNames[word])
    else None
  }

  /** `JebScriptAddImportCommand.run`: inserts the type's import line, with a newline, at the end
      of the buffer's header, unless the header already holds it. */
  method AddImport(simpleTypeNames: map<string, string>, word: string, buf: string) returns (edit: Option<Insertion>)
    ensures edit.None? <==>
      QualifiedName(simpleTypeNames, word).None?
      || ImportPresent(StripAll(SplitLinesKeepEnds(buf)), ImportLine(QualifiedName(simpleTypeNames, word).value))
    ensures edit.Some? ==>
      && QualifiedName(simpleTypeNames, word).Some?
      && edit.value.text == ImportLine(QualifiedName(simpleTypeNames, word).value) + "\n"
      && exists k :: HeaderEnd(SplitLinesKeepEnds(buf), k, edit.value.at)
  {
    if word == [] || word !in simpleTypeNames {
      return None;
    }
    var t := simpleTypeNames[word];
    if t == [] {
      return None;
    }
    var pos := RFind(t, '.');
    var impline := "from " + Slice(t, 0, pos) + " import " + Slice(t, pos + 1, |t|);
    var inspoint := InsertionPoint(SplitLinesKeepEnds(buf), impline);
    if inspoint.None? {
      return None;
    }
    return Some(Insertion(inspoint.value, impline + "\n"));
  }

  /** The first k lines joined are a prefix of all the lines joined. */
  lemma JoinLinesPrefix(lines: seq<string>, k: nat)
    requires k <= |lines|
    ensures Join(lines, []) == Join(lines[..k], []) + Join(lines[k..], [])
  {
    assert lines == lines[..k] + lines[k..];
    JoinLinesAppend(lines[..k], lines[k..]);
  }

  /** The insertion offset lies in the buffer and at the start of a line: the text before it is
      exactly the header's lines, terminators included. */
  lemma InsertionAtLineStart(buf: string, k: nat, at: nat)
    requires HeaderEnd(SplitLinesKeepEnds(buf), k, at)
    ensures at <= |buf| && buf[..at] == Join(SplitLinesKeepEnds(buf)[..k], [])
  {
    SplitLinesKeepEndsJoin(buf);
    JoinLinesPrefix(SplitLinesKeepEnds(buf), k);
  }

  // ---------------------------------------------------------------------------
  // the buffer after the insertion

  /** The buffer with an edit applied, as `view.insert` leaves it. */
  function Inserted(buf: string, e: Insertion): (r: string)
    requires e.at <= |buf|
    ensures |r| == |buf| + |e.text|
  {
    buf[..e.at] + e.text + buf[e.at..]
  }

  /** An import line starts with a letter: neither whitespace nor a line boundary. */
  lemma ImportStart(t: string)
    requires IsImport(t)
    ensures t != [] && !IsSpace(t[0]) && !IsLineBreak(t[0])
  {
    if StartsWith(t, "from ") {
      assert t[0] == "from "[0];
    } else {
      assert t[0] == "import "[0];
    }
  }

  /** A non-empty run of lines splits off its first line. */
  lemma NextLine(t: string, rest: seq<string>)
    requires SplitLinesKeepEnds(t) == rest && rest != []
    ensures t != [] && rest[0] == t[..LineLength(t)] && rest[1..] == SplitLinesKeepEnds(t[LineLength(t)..])
  {
  }

  /** Dropping the text of the first k lines leaves the remaining lines. */
  lemma {:induction false} DropLines(s: string, k: nat)
    requires k <= |SplitLinesKeepEnds(s)|
    ensures Offset(SplitLinesKeepEnds(s), k) <= |s|
    ensures SplitLinesKeepEnds(s[Offset(SplitLinesKeepEnds(s), k)..]) == SplitLinesKeepEnds(s)[k..]
    decreases k
  {
    var lines := SplitLinesKeepEnds(s);
    if k == 0 {
      assert s[0..] == s && lines[0..] == lines;
    } else {
      DropLines(s, k - 1);
      var m := Offset(lines, k - 1);
      var rest := lines[k - 1..];
      var t := s[m..];
      NextLine(t, rest);
      var n := LineLength(t);
      assert Offset(lines, k) == m + n by {
        assert rest[0] == lines[k - 1];
      }
      assert SplitLinesKeepEnds(s[m + n..]) == lines[k..] by {
        assert rest[1..] == lines[k..];
        assert t[n..] == s[m + n..];
      }
      var o := Offset(lines, k);
      assert s[o..] == s[m + n..];
    }
  }

  /** Where one line of the buffer ends and the next begins, the first ends with a line
      boundary that the second does not extend. */
  lemma LineBoundary(s: string, k: nat)
    requires k <= |SplitLinesKeepEnds(s)|
    ensures Offset(SplitLinesKeepEnds(s), k) <= |s|
    ensures 0 < k < |SplitLinesKeepEnds(s)| ==>
      EndsLine(s[..Offset(SplitLinesKeepEnds(s), k)], s[Offset(SplitLinesKeepEnds(s), k)..])
  {
    var lines := SplitLinesKeepEnds(s);
    assert Offset(lines, k) <= |s| by {
      DropLines(s, k);
    }
    if 0 < k < |lines| {
      var m := Offset(lines, k - 1);
      var rest := lines[k - 1..];
      assert SplitLinesKeepEnds(s[m..]) == rest by {
        DropLines(s, k - 1);
      }
      var t := s[m..];
      NextLine(t, rest);
      var n := LineLength(t);
      var o := Offset(lines, k);
      assert o == m + n by {
        assert rest[0] == lines[k - 1];
      }
      assert t[n..] != [] by {
        assert rest[1..] == lines[k..];
      }
      FirstLineEnds(t);
      EndsLineShift(s, m, n);
    }
  }

  /** A line boundary after n characters of s[m..] is one after m + n characters of s. */
  lemma EndsLineShift(s: string, m: nat, n: nat)
    requires m <= |s| && 0 < n <= |s| - m
    requires EndsLine(s[m..][..n], s[m..][n..])
    ensures EndsLine(s[..m + n], s[m + n..])
  {
    assert s[..m + n][m + n - 1] == s[m..][..n][n - 1];
    assert s[m + n..] == s[m..][n..];
  }

  /** The text of the first k lines, when a line boundary follows it, splits into those lines. */
  lemma SplitBefore(s: string, k: nat)
    requires k <= |SplitLinesKeepEnds(s)|
    requires Offset(SplitLinesKeepEnds(s), k) <= |s|
    requires EndsLine(s[..Offset(SplitLinesKeepEnds(s), k)], s[Offset(SplitLinesKeepEnds(s), k)..])
    ensures SplitLinesKeepEnds(s[..Offset(SplitLinesKeepEnds(s), k)]) == SplitLinesKeepEnds(s)[..k]
  {
    var lines := SplitLinesKeepEnds(s);
    var n := Offset(lines, k);
    DropLines(s, k);
    SliceParts(s, n);
    SplitLinesKeepEndsAppend(s[..n], s[n..]);
    SliceParts(lines, k);
    CancelSuffix(SplitLinesKeepEnds(s[..n]), lines[..k], lines[k..]);
  }

  /** Stripping the lines of a concatenation strips each part. */
  lemma {:induction false} StripAllAppend(a: seq<string>, b: seq<string>)
    ensures StripAll(a + b) == StripAll(a) + StripAll(b)
    decreases |a|
  {
    if a == [] {
      assert a + b == b;
    } else {
      var c := a + b;
      assert c[0] == a[0] && c[1..] == a[1..] + b;
      assert StripAll(c) == [Strip(a[0])] + StripAll(a[1..] + b);
      StripAllAppend(a[1..], b);
      assert StripAll(a) == [Strip(a[0])] + StripAll(a[1..]);
      AppendAssoc([Strip(a[0])], StripAll(a[1..]), StripAll(b));
    }
  }

  /** The leading blank and comment lines of a concatenation: those of the first part, and
      those of the second too when the first part is all blank or comments. */
  lemma {:induction false} LeadAppend(p: seq<string>, q: seq<string>)
    ensures Lead(p + q) == if Lead(p) < |p| then Lead(p) else |p| + Lead(q)
    decreases |p|
  {
    if p == [] {
      assert p + q == q;
    } else {
      assert (p + q)[0] == p[0];
      assert (p + q)[1..] == p[1..] + q;
      if IsBlankOrComment(p[0]) {
        LeadAppend(p[1..], q);
      }
    }
  }

  /** An import line put right after a header stands in the header of the new lines. */
  lemma ImportPresentAfterInsert(texts: seq<string>, k: nat, impline: string, u: seq<string>)
    requires Header(texts, k) && IsImport(impline)
    requires u == texts[..k] + [impline] + texts[k..]
    ensures ImportPresent(u, impline)
  {
    ImportIsNotBlank(impline);
    assert Lead([impline] + texts[k..]) == 0;
    AppendAssoc(texts[..k], [impline], texts[k..]);
    LeadAppend(texts[..k], [impline] + texts[k..]);
    assert texts == texts[..k] + texts[k..];
    LeadAppend(texts[..k], texts[k..]);
    assert u[k] == impline;
    assert forall i :: 0 <= i < k ==> u[i] == texts[i];
    assert Header(u, k);
  }

  /** One line, stripped. */
  lemma StripAllOne(x: string)
    ensures StripAll([x]) == [Strip(x)]
  {
    assert [x][1..] == [];
  }

  /** Stripping the lines of an insertion strips each part. */
  lemma StripAllInsert(lines: seq<string>, k: nat, x: string)
    requires k <= |lines|
    ensures StripAll(lines[..k] + [x] + lines[k..]) == StripAll(lines)[..k] + [Strip(x)] + StripAll(lines)[k..]
  {
    var p, q := lines[..k], lines[k..];
    var a, b := StripAll(p), StripAll(q);
    assert StripAll(p + [x] + q) == a + [Strip(x)] + b by {
      StripAllOne(x);
      StripAllAppend(p + [x], q);
      StripAllAppend(p, [x]);
    }
    assert StripAll(lines)[..k] == a && StripAll(lines)[k..] == b by {
      SliceParts(lines, k);
      StripAllAppend(p, q);
      AppendParts(a, b);
    }
  }

  /** A stripped line with its newline strips back to itself. */
  lemma StripNewline(x: string)
    requires x != [] && !IsSpace(x[0]) && !IsSpace(x[|x| - 1])
    ensures Strip(x + "\n") == x
  {
    assert [] + x + "\n" == x + "\n";
    StripFramed([], x, "\n");
  }

  /** Inserted where a line starts, the import line and its newline become one more line
      between the lines before and the lines after. */
  lemma InsertAtLineStart(buf: string, x: string, k: nat, at: nat)
    requires x != [] && !IsLineBreak(x[0]) && NoLineBreak(x)
    requires k <= |SplitLinesKeepEnds(buf)| && at == Offset(SplitLinesKeepEnds(buf), k)
    requires at <= |buf| && (at == 0 || IsLineBreak(buf[at - 1]))
    ensures var lines := SplitLinesKeepEnds(buf);
      SplitLinesKeepEnds(buf[..at] + (x + "\n") + buf[at..]) == lines[..k] + [x + "\n"] + lines[k..]
  {
    var lines := SplitLinesKeepEnds(buf);
    var p, s := buf[..at], buf[at..];
    var y := x + "\n";
    TerminatedHeaderEnd(buf, k, at);
    NewlineEndsOneLine(x);
    SplitLinesKeepEndsAppend(y, s);
    assert (y + s)[0] == x[0];
    SplitLinesKeepEndsAppend(p, y + s);
    AppendAssoc(p, y, s);
    AppendAssoc(lines[..k], [y], lines[k..]);
  }

  /** A header that ends at a line start splits the buffer into the header's lines and the
      rest, at a line boundary. */
  lemma TerminatedHeaderEnd(buf: string, k: nat, at: nat)
    requires k <= |SplitLinesKeepEnds(buf)| && at == Offset(SplitLinesKeepEnds(buf), k)
    requires at <= |buf| && (at == 0 || IsLineBreak(buf[at - 1]))
    ensures var lines := SplitLinesKeepEnds(buf);
      && k <= |lines|
      && EndsLine(buf[..at], buf[at..])
      && SplitLinesKeepEnds(buf[..at]) == lines[..k]
      && SplitLinesKeepEnds(buf[at..]) == lines[k..]
  {
    var lines := SplitLinesKeepEnds(buf);
    assert SplitLinesKeepEnds(buf[at..]) == lines[k..] by {
      DropLines(buf, k);
    }
    assert EndsLine(buf[..at], buf[at..]) by {
      LineBoundary(buf, k);
      assert k == |lines| ==> buf[at..] == [];
    }
    SplitBefore(buf, k);
  }

  /** A header that ends after a character other than a line boundary ends with the buffer's
      last line, which has no terminator. */
  lemma UnterminatedHeaderEnd(buf: string, k: nat, at: nat)
    requires k <= |SplitLinesKeepEnds(buf)| && at == Offset(SplitLinesKeepEnds(buf), k)
    requires 0 < at <= |buf| && !IsLineBreak(buf[at - 1])
    ensures k == |SplitLinesKeepEnds(buf)| && at == |buf|
  {
    var lines := SplitLinesKeepEnds(buf);
    assert !EndsLine(buf[..at], buf[at..]) by {
      assert buf[..at][at - 1] == buf[at - 1];
    }
    assert k != 0;
    LineBoundary(buf, k);
    assert buf[at..] == [] by {
      DropLines(buf, k);
      assert SplitLinesKeepEnds(buf[at..]) == [];
    }
  }

  /** After a last line without a terminator, "\n" ends that line and the import line and its
      newline follow as a line of their own. */
  lemma InsertAfterLastLine(buf: string, x: string, k: nat, at: nat)
    requires NoLineBreak(x)
    requires k <= |SplitLinesKeepEnds(buf)| && at == Offset(SplitLinesKeepEnds(buf), k)
    requires 0 < at <= |buf| && !IsLineBreak(buf[at - 1])
    ensures var lines := SplitLinesKeepEnds(buf);
      && at == |buf| && k == |lines| && lines != []
      && SplitLinesKeepEnds(buf[..at] + ("\n" + x + "\n") + buf[at..])
         == lines[..|lines| - 1] + [lines[|lines| - 1] + "\n"] + [x + "\n"]
  {
    UnterminatedHeaderEnd(buf, k, at);
    var y := x + "\n";
    assert buf[..at] + ("\n" + x + "\n") + buf[at..] == (buf + "\n") + y by {
      assert buf[..at] == buf && buf[at..] == [];
      AppendAssoc("\n", x, "\n");
      AppendAssoc(buf, "\n", y);
    }
    AppendNewline(buf);
    NewlineEndsOneLine(x);
    SplitLinesKeepEndsAppend(buf + "\n", y);
  }

  /** The lines after "\n" ends the last one and a line x follows, stripped: the old lines
      stripped, then x stripped. */
  lemma StripAllTerminateLast(lines: seq<string>, x: string)
    requires lines != []
    ensures StripAll(lines[..|lines| - 1] + [lines[|lines| - 1] + "\n"] + [x]) == StripAll(lines) + [Strip(x)]
  {
    var m := |lines| - 1;
    var p, y := lines[..m], lines[m];
    var a := StripAll(p);
    assert StripAll(p + [y + "\n"] + [x]) == a + [Strip(y + "\n")] + [Strip(x)] by {
      StripAllOne(y + "\n");
      StripAllOne(x);
      StripAllAppend(p + [y + "\n"], [x]);
      StripAllAppend(p, [y + "\n"]);
    }
    assert StripAll(lines) == a + [Strip(y)] by {
      FrontLast(lines);
      StripAllOne(y);
      StripAllAppend(p, [y]);
    }
    StripAppendSpace(y, '\n');
  }

  /** The corrected edit: when the header's end is not at a line start (its last line has no
      terminator), a newline first ends that line; then the import line and its newline. */
  function OwnLineText(buf: string, at: nat, impline: string): string
    requires at <= |buf|
  {
    if 0 < at && !IsLineBreak(buf[at - 1]) then "\n" + impline + "\n" else impline + "\n"
  }

  /** The corrected edit at a line start is the import line and its newline; elsewhere a
      newline comes first. */
  lemma OwnLineTextCases(buf: string, at: nat, impline: string)
    requires at <= |buf|
    ensures at == 0 || IsLineBreak(buf[at - 1]) ==> OwnLineText(buf, at, impline) == impline + "\n"
    ensures 0 < at && !IsLineBreak(buf[at - 1]) ==> OwnLineText(buf, at, impline) == "\n" + impline + "\n"
  {
  }

  /**
   * With the corrected edit the command is idempotent: after the insertion the header holds
   * the import line, so the next run finds it and inserts nothing.
   */
  lemma OwnLineInsertionIsFound(buf: string, impline: string, k: nat, at: nat)
    requires IsImport(impline) && NoLineBreak(impline) && !IsSpace(impline[|impline| - 1])
    requires HeaderEnd(SplitLinesKeepEnds(buf), k, at)
    ensures at <= |buf|
    ensures ImportPresent(StripAll(SplitLinesKeepEnds(Inserted(buf, Insertion(at, OwnLineText(buf, at, impline))))), impline)
  {
    StrippedAfterOwnLine(buf, impline, k, at);
    ImportPresentAfterInsert(StripAll(SplitLinesKeepEnds(buf)), k, impline,
      StripAll(SplitLinesKeepEnds(Inserted(buf, Insertion(at, OwnLineText(buf, at, impline))))));
  }

  /** The stripped lines after the corrected edit: the header's, the import line, then the
      rest. */
  lemma StrippedAfterOwnLine(buf: string, impline: string, k: nat, at: nat)
    requires IsImport(impline) && NoLineBreak(impline) && !IsSpace(impline[|impline| - 1])
    requires HeaderEnd(SplitLinesKeepEnds(buf), k, at)
    ensures at <= |buf|
    ensures var texts := StripAll(SplitLinesKeepEnds(buf));
      k <= |texts|
      && StripAll(SplitLinesKeepEnds(Inserted(buf, Insertion(at, OwnLineText(buf, at, impline)))))
         == texts[..k] + [impline] + texts[k..]
  {
    InsertionAtLineStart(buf, k, at);
    ImportStart(impline);
    var text := OwnLineText(buf, at, impline);
    OwnLineTextCases(buf, at, impline);
    HeaderEndOffset(SplitLinesKeepEnds(buf), k, at);
    if at == 0 || IsLineBreak(buf[at - 1]) {
      StrippedAtLineStart(buf, impline, k, at, text);
    } else {
      StrippedAfterLastLine(buf, impline, k, at, text);
    }
  }

  /** The stripped lines after the insertion at a line start: the header's, the import line,
      then the rest. */
  lemma StrippedAtLineStart(buf: string, impline: string, k: nat, at: nat, text: string)
    requires text == impline + "\n"
    requires impline != [] && !IsSpace(impline[0]) && !IsLineBreak(impline[0])
    requires NoLineBreak(impline) && !IsSpace(impline[|impline| - 1])
    requires k <= |SplitLinesKeepEnds(buf)| && at == Offset(SplitLinesKeepEnds(buf), k)
    requires at <= |buf| && (at == 0 || IsLineBreak(buf[at - 1]))
    ensures var texts := StripAll(SplitLinesKeepEnds(buf));
      k <= |texts|
      && StripAll(SplitLinesKeepEnds(Inserted(buf, Insertion(at, text)))) == texts[..k] + [impline] + texts[k..]
  {
    var lines := SplitLinesKeepEnds(buf);
    InsertAtLineStart(buf, impline, k, at);
    StripAllInsert(lines, k, impline + "\n");
    StripNewline(impline);
  }

  /** The stripped lines after the insertion behind an unterminated last line: the old ones,
      then the import line. */
  lemma StrippedAfterLastLine(buf: string, impline: string, k: nat, at: nat, text: string)
    requires text == "\n" + impline + "\n"
    requires impline != [] && !IsSpace(impline[0])
    requires NoLineBreak(impline) && !IsSpace(impline[|impline| - 1])
    requires k <= |SplitLinesKeepEnds(buf)| && at == Offset(SplitLinesKeepEnds(buf), k)
    requires 0 < at <= |buf| && !IsLineBreak(buf[at - 1])
    ensures var texts := StripAll(SplitLinesKeepEnds(buf));
      k == |texts|
      && StripAll(SplitLinesKeepEnds(Inserted(buf, Insertion(at, text)))) == texts[..k] + [impline] + texts[k..]
  {
    var lines := SplitLinesKeepEnds(buf);
    var texts := StripAll(lines);
    InsertAfterLastLine(buf, impline, k, at);
    StripAllTerminateLast(lines, impline + "\n");
    StripNewline(impline);
    assert texts[..k] == texts && texts[k..] == [];
  }

  /** `JebScriptAddImportCommand.run` with the corrected edit: the same scan, and a newline
      before the import line where the header's last line has none. */
  method AddImportOnOwnLine(simpleTypeNames: map<string, string>, word: string, buf: string) returns (edit: Option<Insertion>)
    ensures edit.None? <==>
      QualifiedName(simpleTypeNames, word).None?
      || ImportPresent(StripAll(SplitLinesKeepEnds(buf)), ImportLine(QualifiedName(simpleTypeNames, word).value))
    ensures edit.Some? ==>
      && QualifiedName(simpleTypeNames, word).Some?
      && edit.value.at <= |buf|
      && edit.value.text == OwnLineText(buf, edit.value.at, ImportLine(QualifiedName(simpleTypeNames, word).value))
      && exists k :: HeaderEnd(SplitLinesKeepEnds(buf), k, edit.value.at)
  {
    var e := AddImport(simpleTypeNames, word, buf);
    if e.None? {
      return None;
    }
    var at := e.value.at;
    ghost var k :| HeaderEnd(SplitLinesKeepEnds(buf), k, at);
    InsertionAtLineStart(buf, k, at);
    ghost var impline := ImportLine(QualifiedName(simpleTypeNames, word).value);
    OwnLineTextCases(buf, at, impline);
    var text := e.value.text;
    if 0 < at && !IsLineBreak(buf[at - 1]) {
      AppendAssoc("\n", impline, "\n");
      text := "\n" + text;
    }
    return Some(Insertion(at, text));
  }

  /** A line without a boundary and without surrounding whitespace, alone in the buffer, is
      one line that strips to itself, with or without a newline after it. */
  lemma BareLine(x: string)
    requires x != [] && NoLineBreak(x) && !IsSpace(x[0]) && !IsSpace(x[|x| - 1])
    ensures SplitLinesKeepEnds(x) == [x] && StripAll([x]) == [x]
    ensures StripAll(SplitLinesKeepEnds(x + "\n")) == [x]
  {
    NoBreakIsOneLine(x);
    NewlineEndsOneLine(x);
    assert [] + x + [] == x;
    StripFramed([], x, []);
    StripNewline(x);
    StripAllOne(x);
    StripAllOne(x + "\n");
  }

  /** A buffer that is one import line, other than the import line sought, does not hold it,
      so the command inserts. */
  lemma OneLineLacksImport(line: string, impline: string)
    requires IsImport(line) && NoLineBreak(line) && !IsSpace(line[|line| - 1]) && line != impline
    ensures !ImportPresent(StripAll(SplitLinesKeepEnds(line)), impline)
  {
    ImportStart(line);
    BareLine(line);
    NotPresentInOneLine(line, impline);
  }

  /**
   * The edit as written: a buffer that is a single import line without a terminator, other
   * than the import line, does not hold it, and the import line is inserted right after it on
   * the same line, so the header still does not hold it and the next run inserts it again.
   */
  lemma GluedImport(line: string, impline: string, at: nat)
    requires IsImport(line) && NoLineBreak(line) && !IsSpace(line[|line| - 1]) && line != impline
    requires IsImport(impline) && NoLineBreak(impline) && !IsSpace(impline[|impline| - 1])
    requires exists k :: HeaderEnd(SplitLinesKeepEnds(line), k, at)
    ensures !ImportPresent(StripAll(SplitLinesKeepEnds(line)), impline)
    ensures at == |line|
    ensures !ImportPresent(StripAll(SplitLinesKeepEnds(Inserted(line, Insertion(at, impline + "\n")))), impline)
  {
    OneLineLacksImport(line, impline);
    ImportStart(line);
    ImportStart(impline);
    assert at == |line| by {
      BareLine(line);
      var k :| HeaderEnd(SplitLinesKeepEnds(line), k, at);
      SingleHeaderLineEnd(line, k, at);
    }
    assert Inserted(line, Insertion(at, impline + "\n")) == line + impline + "\n" by {
      InsertedAtEnd(line, impline + "\n");
      AppendAssoc(line, impline, "\n");
    }
    GluedLacksImport(line, impline);
  }

  /** The glued buffer is one line, the two import lines run together, which is not the
      import line. */
  lemma GluedLacksImport(line: string, impline: string)
    requires IsImport(line) && NoLineBreak(line) && !IsSpace(line[|line| - 1])
    requires IsImport(impline) && NoLineBreak(impline) && !IsSpace(impline[|impline| - 1])
    ensures !ImportPresent(StripAll(SplitLinesKeepEnds(line + impline + "\n")), impline)
  {
    ImportStart(line);
    ImportStart(impline);
    var glued := line + impline;
    assert NoLineBreak(glued) && glued[0] == line[0] && glued[|glued| - 1] == impline[|impline| - 1];
    BareLine(glued);
    NotPresentInOneLine(glued, impline);
  }

  /** An insertion at the end of the buffer appends. */
  lemma InsertedAtEnd(buf: string, text: string)
    ensures Inserted(buf, Insertion(|buf|, text)) == buf + text
  {
    assert buf[..|buf|] == buf && buf[|buf|..] == [];
  }

  /** A buffer that is one import line ends its header at its end. */
  lemma SingleHeaderLineEnd(line: string, k: nat, at: nat)
    requires IsImport(line) && SplitLinesKeepEnds(line) == [line] && StripAll([line]) == [line]
    requires HeaderEnd(SplitLinesKeepEnds(line), k, at)
    ensures at == |line|
  {
    assert Header([line], 1);
    assert k == 1 && [line][..1] == [line];
  }

  /** A single line other than the import line does not hold it. */
  lemma NotPresentInOneLine(t: string, impline: string)
    requires t != impline
    ensures !ImportPresent([t], impline)
  {
  }

  /** An import line stays one with anything appended to it. */
  lemma ImportExtended(line: string, rest: string)
    requires IsImport(line)
    ensures IsImport(line + rest)
  {
    if StartsWith(line, "from ") {
      assert (line + rest)[..5] == line[..5];
    } else {
      assert (line + rest)[..7] == line[..7];
    }
  }

  /**
   * The run after the glued edit: the glued line now ends with a newline and is the whole
   * header, so the header ends at the end of the buffer, and the import line inserted there
   * stands on a line of its own, where the run after that finds it.
   */
  lemma GluedThenOwnLine(line: string, impline: string, at: nat)
    requires IsImport(line) && NoLineBreak(line) && !IsSpace(line[|line| - 1])
    requires IsImport(impline) && NoLineBreak(impline) && !IsSpace(impline[|impline| - 1])
    requires exists k :: HeaderEnd(SplitLinesKeepEnds(line + impline + "\n"), k, at)
    ensures at == |line + impline + "\n"|
    ensures ImportPresent(StripAll(SplitLinesKeepEnds(Inserted(line + impline + "\n", Insertion(at, impline + "\n")))), impline)
  {
    var glued := line + impline;
    ImportStart(line);
    ImportStart(impline);
    ImportExtended(line, impline);
    assert NoLineBreak(glued) && glued[0] == line[0] && glued[|glued| - 1] == impline[|impline| - 1];
    var k :| HeaderEnd(SplitLinesKeepEnds(glued + "\n"), k, at);
    TerminatedImportEnd(glued, k, at);
    OwnLineTextCases(glued + "\n", at, impline);
    OwnLineInsertionIsFound(glued + "\n", impline, k, at);
  }

  /** A buffer that is one import line with its newline ends its header at its end. */
  lemma TerminatedImportEnd(t: string, k: nat, at: nat)
    requires IsImport(t) && NoLineBreak(t) && !IsSpace(t[0]) && !IsSpace(t[|t| - 1])
    requires HeaderEnd(SplitLinesKeepEnds(t + "\n"), k, at)
    ensures at == |t + "\n"|
  {
    BareLine(t);
    NewlineEndsOneLine(t);
    ImportIsNotBlank(t);
    assert Header([t], 1);
    assert k == 1 && [t + "\n"][..1] == [t + "\n"];
  }

  /** "from x import B" and "from a import B" are import lines: no line boundary, no whitespace
      at their ends. */
  lemma FromImportLines(line: string, impline: string)
    requires line == "from x import B" && impline == "from a import B"
    ensures IsImport(line) && NoLineBreak(line) && !IsSpace(line[|line| - 1])
    ensures IsImport(impline) && NoLineBreak(impline) && !IsSpace(impline[|impline| - 1])
  {
    assert line[..5] == "from " && impline[..5] == "from ";
  }

  /** The catalogue files the simple name "B" under "a.B", whose import line is "from a import B". */
  lemma ImportOfB(simpleTypeNames: map<string, string>, word: string)
    requires simpleTypeNames == map["B" := "a.B"] && word == "B"
    ensures QualifiedName(simpleTypeNames, word) == Some("a.B")
    ensures ImportLine("a.B") == "from a import B"
  {
    assert Avoids("B", '.');
    assert "a" + "." + "B" == "a.B";
    ImportLineOfQualified("a", "B");
  }

  /**
   * The instance: the buffer "from x import B" without a newline, the caret on "B", and the
   * catalogue filing "B" under "a.B". The import line "from a import B" lands at offset 15,
   * glued to "B"; the next run does not find it and inserts it again, on a line of its own.
   */
  lemma GluedImportOfB(simpleTypeNames: map<string, string>, word: string, buf: string, impline: string, at: nat, at2: nat)
    requires simpleTypeNames == map["B" := "a.B"] && word == "B"
    requires buf == "from x import B" && impline == ImportLine("a.B")
    requires exists k :: HeaderEnd(SplitLinesKeepEnds(buf), k, at)
    requires exists k :: HeaderEnd(SplitLinesKeepEnds(buf + impline + "\n"), k, at2)
    ensures QualifiedName(simpleTypeNames, word) == Some("a.B")
    ensures !ImportPresent(StripAll(SplitLinesKeepEnds(buf)), impline)
    ensures at == 15 && Inserted(buf, Insertion(at, impline + "\n")) == buf + impline + "\n"
    ensures !ImportPresent(StripAll(SplitLinesKeepEnds(Inserted(buf, Insertion(at, impline + "\n")))), impline)
    ensures at2 == |buf + impline + "\n"|
    ensures ImportPresent(StripAll(SplitLinesKeepEnds(Inserted(buf + impline + "\n", Insertion(at2, impline + "\n")))), impline)
  {
    ImportOfB(simpleTypeNames, word);
    FromImportLines(buf, impline);
    GluedImport(buf, impline, at);
    InsertedAtEnd(buf, impline + "\n");
    AppendAssoc(buf, impline, "\n");
    GluedThenOwnLine(buf, impline, at2);
  }

  /**
   * Three runs of the command as written on a buffer that is one import line without a
   * terminator, other than the type's import line: the first glues the import line to the
   * buffer's line, the second inserts it again at the end, on a line of its own, and the third
   * finds it and inserts nothing.
   */
  method RunsOnGluedLine(simpleTypeNames: map<string, string>, word: string, line: string, impline: string)
    returns (first: Option<Insertion>, second: Option<Insertion>, third: Option<Insertion>)
    requires IsImport(line) && NoLineBreak(line) && !IsSpace(line[|line| - 1])
    requires QualifiedName(simpleTypeNames, word).Some?
    requires impline == ImportLine(QualifiedName(simpleTypeNames, word).value)
    requires IsImport(impline) && NoLineBreak(impline) && !IsSpace(impline[|impline| - 1]) && line != impline
    ensures first == Some(Insertion(|line|, impline + "\n"))
    ensures second == Some(Insertion(|line| + |impline + "\n"|, impline + "\n"))
    ensures third == None
  {
    OneLineLacksImport(line, impline);
    first := AddImport(simpleTypeNames, word, line);
    assert first == Some(Insertion(|line|, impline + "\n")) by {
      GluedImport(line, impline, first.value.at);
    }
    second, third := RunsAfterGlue(simpleTypeNames, word, line, impline);
  }


  /** The second run's edit on the glued buffer: the import line at the end of the buffer, where
      the next run finds it. */
  lemma SecondRunOnGlued(line: string, impline: string, e: Insertion, k: nat)
    requires IsImport(line) && NoLineBreak(line) && !IsSpace(line[|line| - 1])
    requires IsImport(impline) && NoLineBreak(impline) && !IsSpace(impline[|impline| - 1])
    requires e.text == impline + "\n"
    requires HeaderEnd(SplitLinesKeepEnds(line + impline + "\n"), k, e.at)
    ensures e == Insertion(|line| + |impline + "\n"|, impline + "\n")
    ensures ImportPresent(StripAll(SplitLinesKeepEnds(Inserted(line + impline + "\n", e))), impline)
  {
    GluedThenOwnLine(line, impline, e.at);
  }

  /** The second and third runs on the glued buffer: the second inserts the import line at the
      end, on a line of its own, and the third finds it. */
  method RunsAfterGlue(simpleTypeNames: map<string, string>, word: string, line: string, impline: string)
    returns (second: Option<Insertion>, third: Option<Insertion>)
    requires IsImport(line) && NoLineBreak(line) && !IsSpace(line[|line| - 1])
    requires QualifiedName(simpleTypeNames, word).Some?
    requires impline == ImportLine(QualifiedName(simpleTypeNames, word).value)
    requires IsImport(impline) && NoLineBreak(impline) && !IsSpace(impline[|impline| - 1])
    ensures second == Some(Insertion(|line| + |impline + "\n"|, impline + "\n"))
    ensures third == None
  {
    var glued := line + impline + "\n";
    GluedLacksImport(line, impline);
    second := AddImport(simpleTypeNames, word, glued);
    ghost var k :| HeaderEnd(SplitLinesKeepEnds(glued), k, second.value.at);
    SecondRunOnGlued(line, impline, second.value, k);
    third := AddImport(simpleTypeNames, word, Inserted(glued, second.value));
  }


  /** The three runs on the buffer "from x import B", with the caret on "B" and "B" filed
      under "a.B": insertions at offsets 15 and 31, then none. */
  method RunsOnGluedBuffer() returns (first: Option<Insertion>, second: Option<Insertion>, third: Option<Insertion>)
    ensures first == Some(Insertion(15, "from a import B\n"))
    ensures second == Some(Insertion(31, "from a import B\n"))
    ensures third == None
  {
    var names := map["B" := "a.B"];
    var buf := "from x import B";
    var impline := "from a import B";
    assert QualifiedName(names, "B") == Some("a.B") && ImportLine("a.B") == impline by {
      ImportOfB(names, "B");
    }
    FromImportLines(buf, impline);
    assert impline + "\n" == "from a import B\n" && |buf| == 15 && |impline + "\n"| == 16;
    first, second, third := RunsOnGluedLine(names, "B", buf, impline);
  }

  // ---------------------------------------------------------------------------
  // the documentation page

  const ApidocUrl: string := "https://www.pnfsoftware.com/jeb/apidoc"

  /** The page of qualified name t, whose record names its package: the package with its dots
      made slashes, then the rest of t after the package and its dot, then `.html`. */
  function DocUrl(rec: TypeRecord, t: string): string {
    var pkg := rec.packageName;
    ApidocUrl + "/reference/" + ReplaceChar(pkg, '.', '/') + "/" + Slice(t, |pkg| + 1, |t|) + ".html"
  }

  /** For a name `package.Local` the page is `package/as/path/Local.html`; a nested type keeps its
      dots in the file name. */
  lemma DocUrlOfQualified(rec: TypeRecord, local: string)
    ensures DocUrl(rec, rec.packageName + "." + local)
         == ApidocUrl + "/reference/" + ReplaceChar(rec.packageName, '.', '/') + "/" + local + ".html"
  {
    var t := rec.packageName + "." + local;
    assert t[|rec.packageName| + 1..] == local;
  }

  /** Two types whose package and local names hold no '/' have the same page only when they
      have the same package and local name. */
  lemma DocUrlInjective(r1: TypeRecord, l1: string, r2: TypeRecord, l2: string)
    requires Avoids(r1.packageName, '/') && Avoids(l1, '/')
    requires Avoids(r2.packageName, '/') && Avoids(l2, '/')
    requires DocUrl(r1, r1.packageName + "." + l1) == DocUrl(r2, r2.packageName + "." + l2)
    ensures r1.packageName == r2.packageName && l1 == l2
  {
    DocUrlOfQualified(r1, l1);
    DocUrlOfQualified(r2, l2);
    var pre := ApidocUrl + "/reference/";
    var x1 := ReplaceChar(r1.packageName, '.', '/') + "/" + l1;
    var x2 := ReplaceChar(r2.packageName, '.', '/') + "/" + l2;
    var a1, a2 := ReplaceChar(r1.packageName, '.', '/'), ReplaceChar(r2.packageName, '.', '/');
    AppendAssoc(pre, a1, "/");
    AppendAssoc(pre, a1 + "/", l1);
    AppendAssoc(pre, a2, "/");
    AppendAssoc(pre, a2 + "/", l2);
    assert pre + x1 + ".html" == pre + x2 + ".html";
    CancelSuffix(pre + x1, pre + x2, ".html");
    assert x1 == (pre + x1)[|pre|..] && x2 == (pre + x2)[|pre|..];
    DocPathInjective(r1.packageName, l1, r2.packageName, l2);
  }

  /** The path part of the page, after the common prefix: the package with its dots made
      slashes, then '/' and the local name. */
  lemma DocPathInjective(p1: string, l1: string, p2: string, l2: string)
    requires Avoids(p1, '/') && Avoids(p2, '/') && Avoids(l1, '/') && Avoids(l2, '/')
    requires ReplaceChar(p1, '.', '/') + "/" + l1 == ReplaceChar(p2, '.', '/') + "/" + l2
    ensures p1 == p2 && l1 == l2
  {
    var a1, a2 := ReplaceChar(p1, '.', '/'), ReplaceChar(p2, '.', '/');
    assert a1 + "/" + l1 == a1 + ['/'] + l1;
    assert a2 + "/" + l2 == a2 + ['/'] + l2;
    RFindLastSeparator(a1, '/', l1);
    RFindLastSeparator(a2, '/', l2);
    var path := a1 + "/" + l1;
    assert a1 == path[..|a1|] && a2 == path[..|a2|];
    assert l1 == path[|a1| + 1..] && l2 == path[|a2| + 1..];
    ReplaceCharInverse(p1, '.', '/');
    ReplaceCharInverse(p2, '.', '/');
  }

  /** `JebViewDocCommand.run`: the page of the type the word under the caret names. Every loaded
      catalogue has each qualified name of `simpletypenames` among `typenames`, so the lookup
      `typenames[t]` cannot fail. */
  function ViewDoc(idx: Index, word: string): (url: Option<string>)
    requires Consistent(idx)
    ensures url.Some? <==> QualifiedName(idx.simpleTypeNames, word).Some?
    ensures url.Some? ==> var t := QualifiedName(idx.simpleTypeNames, word).value;
      t in idx.typeNames && idx.typeNames[t].typeName == t && url.value == DocUrl(idx.typeNames[t], t)
  {
    match QualifiedName(idx.simpleTypeNames, word)
    case None => None
    case Some(t) => Some(DocUrl(idx.typeNames[t], t))
  }

  // ---------------------------------------------------------------------------
  // the completion list

  /** The two lists the index offers. */
  datatype CompletionList = TypeList(types: seq<Completion>) | MethodList(methods: set<Completion>)

  predicate IsBlank(c: char) {
    c == ' ' || c == '\t'
  }

  /** `line[offset_in_line - 1]`: the character before the caret, and at offset 0 the line's last
      character, as Python's index -1 reads it. */
  function CharBefore(line: string, offset: nat): char
    requires line != [] && offset <= |line|
  {
    if offset > 0 then line[offset - 1] else line[|line| - 1]
  }

  /** `on_query_completions`: the type list on a line without a dot or after a blank, the method
      list otherwise. */
  function QueryCompletions(idx: Index, line: string, offset: nat): (r: CompletionList)
    requires offset <= |line|
    ensures r == TypeList(idx.typeCompletions) || r == MethodList(idx.methodCompletions)
  {
    if Find(line, '.') < 0 || IsBlank(CharBefore(line, offset)) then TypeList(idx.typeCompletions)
    else MethodList(idx.methodCompletions)
  }

  /** Method completions are offered exactly on a line with a dot, with the caret after a
      character other than a blank. */
  lemma MethodsOnDottedLines(idx: Index, line: string, offset: nat)
    requires offset <= |line|
    ensures QueryCompletions(idx, line, offset).MethodList? <==>
      (exists j :: 0 <= j < |line| && line[j] == '.') && !IsBlank(CharBefore(line, offset))
  {
    if exists j :: 0 <= j < |line| && line[j] == '.' {
      assert !Avoids(line, '.');
    }
  }

  /** The caret just after a dot gets the method list. */
  lemma MethodsAfterDot(idx: Index, line: string, offset: nat)
    requires 0 < offset <= |line| && line[offset - 1] == '.'
    ensures QueryCompletions(idx, line, offset) == MethodList(idx.methodCompletions)
  {
    assert !Avoids(line, '.');
  }

  /** At offset 0 on a dotted line the choice depends on the line's last character. */
  lemma ChoiceAtLineStart(idx: Index, line: string)
    requires !Avoids(line, '.')
    ensures QueryCompletions(idx, line, 0).TypeList? <==> IsBlank(line[|line| - 1])
  {
  }
}
