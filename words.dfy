/**
 * The word under the caret (`get_word`, `is_classname_character`) and the check on the
 * class name a new script is created with (`isValidJebScriptName`).
 */
module Words {
  import opened Wrappers

  /** A member of `alphabet`: an ASCII letter. */
  predicate IsLetter(c: char) {
    'A' <= c <= 'Z' || 'a' <= c <= 'z'
  }

  /** A member of `alphanums`: an ASCII letter or digit. */
  predicate IsAlnum(c: char) {
    IsLetter(c) || '0' <= c <= '9'
  }

  /** `is_classname_character`: a member of `javachars`, [A-Za-z0-9_]. */
  predicate IsClassnameChar(c: char) {
    IsAlnum(c) || c == '_'
  }

  /** The end of the run of identifier characters that starts at k. */
  function RunEnd(line: string, k: nat): (e: nat)
    requires k <= |line|
    ensures k <= e <= |line|
    ensures forall j :: k <= j < e ==> IsClassnameChar(line[j])
    ensures e == |line| || !IsClassnameChar(line[e])
    decreases |line| - k
  {
    if k == |line| || !IsClassnameChar(line[k]) then k else RunEnd(line, k + 1)
  }

  /** The start of the run of identifier characters that ends at k. */
  function RunStart(line: string, k: nat): (b: nat)
    requires k <= |line|
    ensures b <= k
    ensures forall j :: b <= j < k ==> IsClassnameChar(line[j])
    ensures b == 0 || !IsClassnameChar(line[b - 1])
  {
    if k == 0 || !IsClassnameChar(line[k - 1]) then k else RunStart(line, k - 1)
  }

  /**
   * `get_word(line, k, dir)`: with dir 0 the identifier run through offset k; with dir -1 only
   * the part left of k, and None when the character at k would extend it; with dir +1 only
   * the part right of k, and None when the character before k would extend it.
   */
  function Word(line: string, k: nat, dir: int): Option<string>
    requires k <= |line|
  {
    if dir < 0 && k < |line| && IsClassnameChar(line[k]) then None
    else if dir > 0 && 0 < k && IsClassnameChar(line[k - 1]) then None
    else
      var lo := if dir <= 0 then RunStart(line, k) else k;
      var hi := if dir >= 0 then RunEnd(line, k) else k;
      Some(line[lo..hi])
  }

  /** The scan of `get_word`: right from the offset while identifier characters follow, then
      left from the offset while they precede it. */
  method GetWord(line: string, offset: nat, dir: int) returns (w: Option<string>)
    requires offset <= |line|
    ensures w == Word(line, offset, dir)
  {
    var i := offset;
    if dir >= 0 {
      while i < |line|
        invariant offset <= i <= |line|
        invariant RunEnd(line, i) == RunEnd(line, offset)
      {
        if !IsClassnameChar(line[i]) {
          break;
        }
        i := i + 1;
      }
    } else {
      if offset < |line| && IsClassnameChar(line[offset]) {
        return None;
      }
    }

    var i0: int := offset - 1;
    if dir <= 0 {
      while i0 >= 0
        invariant -1 <= i0 < offset
        invariant RunStart(line, i0 + 1) == RunStart(line, offset)
      {
        if !IsClassnameChar(line[i0]) {
          break;
        }
        i0 := i0 - 1;
      }
    } else {
      if i0 >= 0 && IsClassnameChar(line[i0]) {
        return None;
      }
    }

    return Some(line[i0 + 1..i]);
  }

  /** With dir 0 the word is the run of identifier characters that touches the offset, bounded
      on each side by a line end or a character outside [A-Za-z0-9_]. */
  lemma WordIsRunAtOffset(line: string, k: nat)
    requires k <= |line|
    ensures var lo, hi := RunStart(line, k), RunEnd(line, k);
      lo <= k <= hi && Word(line, k, 0) == Some(line[lo..hi])
      && (forall j :: lo <= j < hi ==> IsClassnameChar(line[j]))
      && (lo == 0 || !IsClassnameChar(line[lo - 1]))
      && (hi == |line| || !IsClassnameChar(line[hi]))
  {
  }

  /** The run is maximal: every slice of identifier characters that touches the offset lies
      inside the word. */
  lemma WordIsMaximal(line: string, k: nat, lo: nat, hi: nat)
    requires lo <= k <= hi <= |line|
    requires forall j :: lo <= j < hi ==> IsClassnameChar(line[j])
    ensures RunStart(line, k) <= lo && hi <= RunEnd(line, k)
  {
  }

  /** The one-sided scans agree with the two-sided one: with dir -1 a word exists exactly when
      nothing extends it to the right of the offset, and then it is the dir-0 word; the same
      holds for dir +1 on the left. */
  lemma OneSidedWords(line: string, k: nat)
    requires k <= |line|
    ensures Word(line, k, -1).Some? <==> RunEnd(line, k) == k
    ensures Word(line, k, -1).Some? ==> Word(line, k, -1) == Word(line, k, 0)
    ensures Word(line, k, 1).Some? <==> RunStart(line, k) == k
    ensures Word(line, k, 1).Some? ==> Word(line, k, 1) == Word(line, k, 0)
  {
  }

  /** A line that is all identifier characters up to k has its run start at 0. */
  lemma {:induction false} RunStartOfIdentifier(line: string, k: nat)
    requires k <= |line|
    requires forall j :: 0 <= j < k ==> IsClassnameChar(line[j])
    ensures RunStart(line, k) == 0
    decreases k
  {
    if k > 0 {
      RunStartOfIdentifier(line, k - 1);
    }
  }

  // ---------------------------------------------------------------------------
  // isValidJebScriptName

  /** A legal script name: an ASCII letter followed by ASCII letters and digits. */
  predicate ValidScriptName(s: string) {
    s != [] && IsLetter(s[0]) && forall i :: 1 <= i < |s| ==> IsAlnum(s[i])
  }

  /** `isValidJebScriptName`: checks the first character, then the others one at a time. */
  method IsValidJebScriptName(s: string) returns (ok: bool)
    ensures ok <==> ValidScriptName(s)
  {
    if s == [] {
      return false;
    }
    if !IsLetter(s[0]) {
      return false;
    }
    var i := 1;
    while i < |s|
      invariant 1 <= i <= |s|
      invariant forall j :: 1 <= j < i ==> IsAlnum(s[j])
    {
      if !IsAlnum(s[i]) {
        return false;
      }
      i := i + 1;
    }
    return true;
  }

  /** A legal script name is one identifier: with the caret at its end, the word under the
      caret is the whole name. */
  lemma ValidScriptNameIsWord(s: string)
    requires ValidScriptName(s)
    ensures Word(s, |s|, 0) == Some(s)
  {
    RunStartOfIdentifier(s, |s|);
    assert s[0..|s|] == s;
  }

  /** With the caret on the '.' of `foo.bar`, the right scan stops at once but the left scan
      still runs, so the word is `foo`. */
  lemma WordBeforeDot()
    ensures Word("foo.bar", 3, 0) == Some("foo")
  {
    var line := "foo.bar";
    assert !IsClassnameChar(line[3]);
    assert RunEnd(line, 3) == 3;
    assert IsClassnameChar(line[0]) && IsClassnameChar(line[1]) && IsClassnameChar(line[2]);
    assert RunStart(line, 1) == 0;
    assert RunStart(line, 2) == 0;
    assert RunStart(line, 3) == 0;
    assert line[0..3] == "foo";
  }

  /** With the caret at the end of `from x import B`, the word under it is `B`. */
  lemma WordAtImportEnd()
    ensures Word("from x import B", 15, 0) == Some("B")
  {
    var line := "from x import B";
    assert RunEnd(line, 15) == 15;
    assert !IsClassnameChar(line[13]) && IsClassnameChar(line[14]);
    assert RunStart(line, 14) == 14;
    assert RunStart(line, 15) == 14;
    assert line[14..15] == "B";
  }
}
