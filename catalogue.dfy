/**
 * The API catalogue and the lookups built from it (`JebGlobals.__init__`), as functions.
 *
 * A catalogue line is stripped; blank lines and `#` comments are skipped; any other line is
 * a record of ten `;`-separated fields whose last four are `|`-separated lists. Every method
 * and constructor string `name(a1:T1,...,an:Tn)` of a record yields a MethodName (display
 * signature, snippet template, owner). The first error of any line aborts the whole load.
 *
 * The load is stated in two stages: each line is read into an Entry (or skipped, or fails),
 * then the entries are folded, in line order, into an Index.
 */
module Catalogue {
  import opened Wrappers
  import opened PyStrings

  /** One catalogue record: the dictionary `__init__` builds for each line. */
  datatype TypeRecord = TypeRecord(
    typeType: string,
    category: int,
    simpleTypeName: string,
    packageName: string,
    typeName: string,
    superType: string,
    interfaces: seq<string>,
    constructors: seq<string>,
    methods: seq<string>,
    fields: seq<string>)

  /** An entry of `methodnames`: display signature, snippet template and owning simple type name. */
  datatype MethodName = MethodName(display: string, template: string, owner: string)

  /** A completion entry `[caption, text inserted]`. */
  datatype Completion = Completion(caption: string, insertion: string)

  /** Why a load fails: an IndexError on a short record, a ValueError from `int()` on the
      category, or the `Bad method` exception on a method string without '('. */
  datatype CatalogueError = MissingField(line: string) | BadCategory(field: string) | BadMethod(signature: string)

  /** What a record line contributes: its record and the method names of its members. */
  datatype Entry = Entry(rec: TypeRecord, sigs: seq<MethodName>)

  /** The state of a JebGlobals object: `simpletypenames`, `typenames`, `methodnames`,
      `actlist` and `acmlist`. */
  datatype Index = Index(
    simpleTypeNames: map<string, string>,
    typeNames: map<string, TypeRecord>,
    methodNames: set<MethodName>,
    typeCompletions: seq<Completion>,
    methodCompletions: set<Completion>)

  const EmptyIndex := Index(map[], map[], {}, [], {})

  /** The namespace prefix left out of the hint of a type completion. */
  const HintPrefix := "com.pnfsoftware.jeb."

  // ---------------------------------------------------------------------------
  // split

  /** The plugin's `split(s, delim)`: no pieces at all for the empty string, otherwise
      `s.split(delim)`. */
  function SafeSplit(s: string, d: char): (parts: seq<string>)
    ensures parts == [] <==> s == []
  {
    if s == [] then [] else Split(s, d)
  }

  /** Joining the pieces gives the string back, and no piece holds the separator. */
  lemma SafeSplitThenJoin(s: string, d: char)
    ensures Join(SafeSplit(s, d), [d]) == s
    ensures forall i :: 0 <= i < |SafeSplit(s, d)| ==> Avoids(SafeSplit(s, d)[i], d)
  {
    SplitThenJoin(s, d);
    SplitAvoids(s, d);
  }

  /** Splitting a join gives the pieces back, for every list of pieces free of the separator
      except the single empty piece [""] (whose join is the empty string, split into []). */
  lemma SafeSplitOfJoin(parts: seq<string>, d: char)
    requires forall i :: 0 <= i < |parts| ==> Avoids(parts[i], d)
    ensures SafeSplit(Join(parts, [d]), d) == parts <==> parts != [[]]
  {
    if |parts| > 1 {
      JoinCons(parts[0], parts[1..], [d]);
      JoinThenSplit(parts, d);
    } else if |parts| == 1 && parts[0] != [] {
      JoinThenSplit(parts, d);
    }
  }

  // ---------------------------------------------------------------------------
  // records

  /** A stripped line that holds nothing: blank or a comment. The catalogue loop skips such
      lines, and the import scan passes over them before the first import. */
  predicate IsBlankOrComment(t: string) {
    t == [] || t[0] == '#'
  }

  /** A catalogue line that contributes nothing. */
  predicate IsSkipped(line: string) {
    IsBlankOrComment(Strip(line))
  }

  /** A line is skipped exactly when the text between the whitespace at its ends is empty or
      starts with '#'. */
  lemma SkippedFramed(a: string, t: string, b: string)
    requires AllSpace(a) && AllSpace(b)
    requires t == [] || (!IsSpace(t[0]) && !IsSpace(t[|t| - 1]))
    ensures IsSkipped(a + t + b) <==> t == [] || t[0] == '#'
  {
    StripFramed(a, t, b);
  }

  /** The record on a stripped line, failing as Python does: too few fields for `elts[1]`,
      then a category `int()` rejects, then too few fields for `elts[2]` to `elts[9]`. */
  function ParseRecord(t: string): (r: Result<TypeRecord, CatalogueError>)
    ensures r.Success? <==> |Split(t, ';')| >= 10 && ParseInt(Split(t, ';')[1]).Some?
    ensures r.Failure? && |Split(t, ';')| >= 2 && ParseInt(Split(t, ';')[1]).None? ==>
      r.error == BadCategory(Split(t, ';')[1])
  {
    var elts := Split(t, ';');
    if |elts| < 2 then Failure(MissingField(t))
    else
      match ParseInt(elts[1])
      case None => Failure(BadCategory(elts[1]))
      case Some(category) =>
        if |elts| < 10 then Failure(MissingField(t))
        else
          Success(TypeRecord(elts[0], category, elts[2], elts[3], elts[4], elts[5],
            SafeSplit(elts[6], '|'), SafeSplit(elts[7], '|'),
            SafeSplit(elts[8], '|'), SafeSplit(elts[9], '|')))
  }

  /** The fields of the catalogue line that describes a record. */
  function RecordFields(rec: TypeRecord): (elts: seq<string>)
    ensures |elts| == 10
  {
    [rec.typeType, IntString(rec.category), rec.simpleTypeName, rec.packageName,
     rec.typeName, rec.superType, Join(rec.interfaces, "|"), Join(rec.constructors, "|"),
     Join(rec.methods, "|"), Join(rec.fields, "|")]
  }

  /** The catalogue line that describes a record. */
  function FormatRecord(rec: TypeRecord): string {
    Join(RecordFields(rec), ";")
  }

  /** A list field that survives the round trip: no element holds ';' or '|', and the list
      is not the single empty string. */
  predicate WritableList(l: seq<string>) {
    l != [[]] && forall i :: 0 <= i < |l| ==> Avoids(l[i], ';') && Avoids(l[i], '|')
  }

  /** A record whose fields hold no separator, so that its line describes it exactly. */
  predicate Writable(rec: TypeRecord) {
    Avoids(rec.typeType, ';') && Avoids(rec.simpleTypeName, ';') && Avoids(rec.packageName, ';')
    && Avoids(rec.typeName, ';') && Avoids(rec.superType, ';')
    && WritableList(rec.interfaces) && WritableList(rec.constructors)
    && WritableList(rec.methods) && WritableList(rec.fields)
  }

  lemma WritableListJoin(l: seq<string>)
    requires WritableList(l)
    ensures Avoids(Join(l, "|"), ';')
    ensures SafeSplit(Join(l, "|"), '|') == l
  {
    JoinAvoids(l, "|", ';');
    SafeSplitOfJoin(l, '|');
  }

  lemma IntStringAvoids(i: int, c: char)
    requires !IsDigit(c) && c != '-'
    ensures Avoids(IntString(i), c)
  {
    var digits := DecimalString(if i < 0 then -i else i);
    assert AllDigits(digits);
  }

  /** The fields of a writable record's line split apart again. */
  lemma SplitRecordFields(rec: TypeRecord)
    requires Writable(rec)
    ensures Split(FormatRecord(rec), ';') == RecordFields(rec)
  {
    WritableListJoin(rec.interfaces);
    WritableListJoin(rec.constructors);
    WritableListJoin(rec.methods);
    WritableListJoin(rec.fields);
    IntStringAvoids(rec.category, ';');
    var elts := RecordFields(rec);
    assert forall i :: 0 <= i < |elts| ==> Avoids(elts[i], ';');
    JoinThenSplit(elts, ';');
  }

  /** Reading the line of a record gives the record back. */
  lemma ParseFormattedRecord(rec: TypeRecord)
    requires Writable(rec)
    ensures ParseRecord(FormatRecord(rec)) == Success(rec)
  {
    SplitRecordFields(rec);
    ParseIntRoundTrip(rec.category);
    WritableListJoin(rec.interfaces);
    WritableListJoin(rec.constructors);
    WritableListJoin(rec.methods);
    WritableListJoin(rec.fields);
  }

  // ---------------------------------------------------------------------------
  // method signatures

  /** The strings of the arguments of a method string whose '(' is at pos:
      `split(method[pos+1:method.find(')')], ',')`, with Python's slicing. */
  function ArgStrings(m: string, pos: nat): seq<string> {
    SafeSplit(Slice(m, pos + 1, Find(m, ')')), ',')
  }

  /** `arg.split(':')[0]`: the argument's name, before its first ':'. */
  function ArgName(arg: string): string {
    Split(arg, ':')[0]
  }

  function ArgNames(args: seq<string>): (names: seq<string>)
    ensures |names| == |args|
  {
    seq(|args|, i requires 0 <= i < |args| => ArgName(args[i]))
  }

  /** The snippet field `${k:name}`. */
  function Placeholder(k: nat, name: string): string {
    "${" + DecimalString(k) + ":" + name + "}"
  }

  /** How the editor reads the number of a snippet field `${N:text}`: the integer between `${`
      and the first ':'. */
  function FieldNumber(f: string): Option<int> {
    if |f| < 3 || f[..2] != "${" || f[|f| - 1] != '}' then None
    else
      var body := f[2..|f| - 1];
      var c := Find(body, ':');
      if c < 0 then None else ParseInt(body[..c])
  }

  /** The number `'%d'` writes into a field reads back as that number. */
  lemma PlaceholderNumber(k: nat, name: string)
    ensures FieldNumber(Placeholder(k, name)) == Some(k)
  {
    var d := DecimalString(k);
    var f := Placeholder(k, name);
    assert f == "${" + (d + [':'] + (name + "}"));
    var body := d + [':'] + name;
    assert f[..2] == "${" && f[|f| - 1] == '}';
    assert f[2..|f| - 1] == body;
    assert Avoids(d, ':') by { assert forall i :: 0 <= i < |d| ==> IsDigit(d[i]); }
    FindFirstSeparator(d, ':', name);
    assert body[..|d|] == d;
    ParseIntRoundTrip(k);
    assert IntString(k) == d;
  }

  /** The snippet fields of the arguments, one per argument. The ensures only spell out the
      fields for the callers' proofs; what the fields mean, that the editor reads them as
      1, 2, ... in argument order, is stated by PlaceholdersNumbered. */
  function Placeholders(names: seq<string>): (fields: seq<string>)
    ensures |fields| == |names|
    ensures forall k :: 0 <= k < |names| ==> fields[k] == Placeholder(k + 1, names[k])
  {
    seq(|names|, k requires 0 <= k < |names| => Placeholder(k + 1, names[k]))
  }

  /** The editor numbers the fields of a template 1, 2, ... in argument order. */
  lemma PlaceholdersNumbered(names: seq<string>)
    ensures forall k :: 0 <= k < |names| ==> FieldNumber(Placeholders(names)[k]) == Some(k + 1)
  {
    forall k | 0 <= k < |names| ensures FieldNumber(Placeholders(names)[k]) == Some(k + 1) {
      PlaceholderNumber(k + 1, names[k]);
    }
  }

  /** `name(a1, ..., an)`. */
  function Display(name: string, names: seq<string>): string {
    name + "(" + Join(names, ", ") + ")"
  }

  /** `name(${1:a1}, ..., ${n:an})`. */
  function Template(name: string, names: seq<string>): string {
    name + "(" + Join(Placeholders(names), ", ") + ")"
  }

  /** The method name of a method or constructor string, or the `Bad method` error when it has
      no '('. */
  function Signature(m: string, owner: string): (r: Result<MethodName, CatalogueError>)
    ensures r.Failure? <==> Avoids(m, '(')
    ensures r.Failure? ==> r.error == BadMethod(m)
    ensures r.Success? ==> r.value.owner == owner
  {
    var pos := Find(m, '(');
    if pos < 0 then Failure(BadMethod(m))
    else
      var names := ArgNames(ArgStrings(m, pos));
      Success(MethodName(Display(m[..pos], names), Template(m[..pos], names), owner))
  }

  /** The catalogue's spelling `a1:T1,...,an:Tn` of an argument list. */
  function ArgList(names: seq<string>, types: seq<string>): (args: seq<string>)
    requires |names| == |types|
    ensures |args| == |names|
  {
    seq(|names|, i requires 0 <= i < |names| => names[i] + ":" + types[i])
  }

  /** The catalogue's spelling `name(a1:T1,...,an:Tn)` of a method. */
  function MethodString(name: string, names: seq<string>, types: seq<string>): string
    requires |names| == |types|
  {
    name + "(" + Join(ArgList(names, types), ",") + ")"
  }

  /** Without ')', `method.find(')')` is -1 and the argument text is `method[pos+1:-1]`: it runs to
      the string's last character, which it leaves out. */
  lemma ArgStringsWithoutClose(m: string, pos: nat)
    requires pos < |m| && Avoids(m, ')')
    ensures pos + 1 < |m| ==> ArgStrings(m, pos) == SafeSplit(m[pos + 1..|m| - 1], ',')
    ensures pos + 1 == |m| ==> ArgStrings(m, pos) == []
  {
    assert Find(m, ')') == -1;
    var t := Slice(m, pos + 1, -1);
    assert ArgStrings(m, pos) == SafeSplit(t, ',');
    if pos + 1 < |m| {
      assert t == m[pos + 1..|m| - 1];
    } else {
      assert t == [];
    }
  }

  /** A method string `name(` + arg + c that lacks its ')' loses its last character c: the rest is
      read as the one argument arg. */
  lemma MissingCloseOneArg(name: string, arg: string, c: char, owner: string)
    requires Avoids(name, '(') && Avoids(name, ')') && c != ')'
    requires arg != [] && Avoids(arg, ',') && Avoids(arg, ':') && Avoids(arg, ')')
    ensures Signature(name + "(" + arg + [c], owner)
         == Success(MethodName(name + "(" + arg + ")", name + "(${1:" + arg + "})", owner))
  {
    var m := name + "(" + arg + [c];
    UnclosedParts(name, arg, c, m);
    OneArgNames(m, |name|, arg);
    ArgPlaceholder(name, arg);
  }

  /** Where `name(` + arg + c puts its '(' and its argument text, and that it holds no ')'. */
  lemma UnclosedParts(name: string, arg: string, c: char, m: string)
    requires Avoids(name, '(') && Avoids(name, ')') && Avoids(arg, ')') && c != ')'
    requires m == name + "(" + arg + [c]
    ensures Find(m, '(') == |name| && m[..|name|] == name
    ensures Avoids(m, ')') && |name| + 1 < |m| && m[|name| + 1..|m| - 1] == arg
  {
    assert m == name + ['('] + (arg + [c]);
    FindFirstSeparator(name, '(', arg + [c]);
    var head := name + "(";
    AvoidsAppend(name, "(", ')');
    AvoidsAppend(head, arg, ')');
    AvoidsAppend(head + arg, [c], ')');
    assert m[..|head + arg|] == head + arg;
    assert (head + arg)[|head|..] == arg;
  }

  /** The argument text arg, free of ',' and ':', is one argument named arg. */
  lemma OneArgNames(m: string, pos: nat, arg: string)
    requires pos + 1 < |m| && Avoids(m, ')') && m[pos + 1..|m| - 1] == arg
    requires arg != [] && Avoids(arg, ',') && Avoids(arg, ':')
    ensures ArgNames(ArgStrings(m, pos)) == [arg]
  {
    ArgStringsWithoutClose(m, pos);
    assert Split(arg, ',') == [arg] && Split(arg, ':') == [arg];
  }

  /** The display and template of a one-argument method name. */
  lemma ArgPlaceholder(name: string, arg: string)
    ensures Display(name, [arg]) == name + "(" + arg + ")"
    ensures Template(name, [arg]) == name + "(${1:" + arg + "})"
  {
    assert DecimalString(1) == "1";
    var f := Placeholder(1, arg);
    assert f == "${1:" + arg + "}";
    assert Placeholders([arg]) == [f];
    assert Join([f], ", ") == f && Join([arg], ", ") == arg;
  }

  /** The method string `f(ab`, whose ')' is missing, is read as the method `f(a)`. */
  lemma MissingCloseDropsLastChar(owner: string)
    ensures Signature("f(ab", owner) == Success(MethodName("f(a)", "f(${1:a})", owner))
  {
    assert Avoids("f", '(') && Avoids("f", ')');
    assert Avoids("a", ',') && Avoids("a", ':') && Avoids("a", ')');
    MissingCloseOneArg("f", "a", 'b', owner);
    assert "f" + "(" + "a" + ['b'] == "f(ab";
    assert "f" + "(" + "a" + ")" == "f(a)";
    assert "f" + "(${1:" + "a" + "})" == "f(${1:a})";
  }

  /** The name before ':' of one argument `a:T`. */
  lemma ArgNameOf(a: string, t: string)
    requires Avoids(a, ':')
    ensures ArgName(a + ":" + t) == a
  {
    SplitCons(a, ':', t);
  }

  /** Names free of ',', ':' and ')' and types free of ',' and ')': the conditions under which
      an argument list reads back. */
  predicate PlainArgs(names: seq<string>, types: seq<string>) {
    |names| == |types|
    && (forall i :: 0 <= i < |names| ==> Avoids(names[i], ',') && Avoids(names[i], ':') && Avoids(names[i], ')'))
    && (forall i :: 0 <= i < |types| ==> Avoids(types[i], ',') && Avoids(types[i], ')'))
  }

  /** An argument list reads back as its argument names. */
  lemma ArgListNames(names: seq<string>, types: seq<string>)
    requires PlainArgs(names, types)
    ensures Avoids(Join(ArgList(names, types), ","), ')')
    ensures SafeSplit(Join(ArgList(names, types), ","), ',') == ArgList(names, types)
    ensures ArgNames(ArgList(names, types)) == names
  {
    var args := ArgList(names, types);
    forall i | 0 <= i < |args| ensures Avoids(args[i], ')') && Avoids(args[i], ',') {
      assert args[i] == names[i] + ":" + types[i];
    }
    JoinAvoids(args, ",", ')');
    assert args != [[]] by {
      if |args| == 1 {
        assert args[0][|names[0]|] == ':';
      }
    }
    SafeSplitOfJoin(args, ',');
    forall i | 0 <= i < |names| ensures ArgName(args[i]) == names[i] {
      ArgNameOf(names[i], types[i]);
    }
  }

  /** For a method string `name(a1:T1,...,an:Tn)` the display signature is `name(a1, ..., an)`
      and the template `name(${1:a1}, ..., ${n:an})`; with no arguments both are `name()`. */
  lemma SignatureOfMethodString(name: string, names: seq<string>, types: seq<string>, owner: string)
    requires Avoids(name, '(') && Avoids(name, ')')
    requires PlainArgs(names, types)
    ensures Signature(MethodString(name, names, types), owner)
         == Success(MethodName(Display(name, names), Template(name, names), owner))
  {
    var inner := Join(ArgList(names, types), ",");
    var m := MethodString(name, names, types);
    ArgListNames(names, types);
    assert m == name + "(" + (inner + ")");
    FindFirstSeparator(name, '(', inner + ")");
    JoinAvoids([name, inner], "(", ')');
    assert Join([name, inner], "(") == name + "(" + inner;
    assert m == (name + "(" + inner) + ")" + [];
    FindFirstSeparator(name + "(" + inner, ')', []);
    assert m[..|name|] == name;
    assert Slice(m, |name| + 1, |name| + 1 + |inner|) == inner;
  }

  // ---------------------------------------------------------------------------
  // reading the lines

  /** The members of a record whose signatures are collected, in the order `methods + constructors`. */
  function Members(rec: TypeRecord): seq<string> {
    rec.methods + rec.constructors
  }

  /** f applied to each string, in order; the first failure aborts with its error. */
  function MapAll<T>(f: string -> Result<T, CatalogueError>, ms: seq<string>): (r: Result<seq<T>, CatalogueError>)
    ensures r.Success? ==> |r.value| == |ms|
    decreases |ms|
  {
    if ms == [] then Success([])
    else
      match f(ms[0])
      case Failure(e) => Failure(e)
      case Success(x) =>
        match MapAll(f, ms[1..])
        case Failure(e) => Failure(e)
        case Success(rest) => Success([x] + rest)
  }

  /** The map succeeds exactly when f succeeds on every string, and then holds f's values;
      otherwise its error is that of the first string f fails on. */
  lemma {:induction false} MapAllSpec<T>(f: string -> Result<T, CatalogueError>, ms: seq<string>)
    ensures MapAll(f, ms).Success? <==> forall i :: 0 <= i < |ms| ==> f(ms[i]).Success?
    ensures MapAll(f, ms).Success? ==> forall i :: 0 <= i < |ms| ==> f(ms[i]) == Success(MapAll(f, ms).value[i])
    ensures MapAll(f, ms).Failure? ==>
      exists i :: 0 <= i < |ms|
        && (forall j :: 0 <= j < i ==> f(ms[j]).Success?)
        && f(ms[i]) == Failure(MapAll(f, ms).error)
    decreases |ms|
  {
    if ms != [] {
      MapAllSpec(f, ms[1..]);
      assert forall i :: 1 <= i < |ms| ==> ms[i] == ms[1..][i - 1];
      if MapAll(f, ms).Failure? && f(ms[0]).Success? {
        var i :| 0 <= i < |ms[1..]|
          && (forall j :: 0 <= j < i ==> f(ms[1..][j]).Success?)
          && f(ms[1..][i]) == Failure(MapAll(f, ms[1..]).error);
        assert f(ms[i + 1]) == Failure(MapAll(f, ms).error);
      }
    }
  }

  /** When f succeeds on every string of ms and on x, mapping ms + [x] appends f's value on x. */
  lemma {:induction false} MapAllSnoc<T>(f: string -> Result<T, CatalogueError>, ms: seq<string>, x: string, xs: seq<T>, y: T)
    requires MapAll(f, ms) == Success(xs) && f(x) == Success(y)
    ensures MapAll(f, ms + [x]) == Success(xs + [y])
    decreases |ms|
  {
    if ms == [] {
      assert ms + [x] == [x] && [x][1..] == [];
      assert xs + [y] == [y] + [];
    } else {
      assert (ms + [x])[0] == ms[0] && (ms + [x])[1..] == ms[1..] + [x];
      var rest := MapAll(f, ms[1..]).value;
      MapAllSnoc(f, ms[1..], x, rest, y);
      assert xs == [f(ms[0]).value] + rest;
      assert [f(ms[0]).value] + (rest + [y]) == xs + [y];
    }
  }

  /** The same, for the first i + 1 strings of ms: one step of a loop that applies f in order. */
  lemma MapAllPrefixStep<T>(f: string -> Result<T, CatalogueError>, ms: seq<string>, i: nat, xs: seq<T>, y: T)
    requires i < |ms| && MapAll(f, ms[..i]) == Success(xs) && f(ms[i]) == Success(y)
    ensures MapAll(f, ms[..i + 1]) == Success(xs + [y])
  {
    assert ms[..i] + [ms[i]] == ms[..i + 1];
    MapAllSnoc(f, ms[..i], ms[i], xs, y);
  }

  /** When f succeeds on the strings before index i and fails on string i, mapping ms fails with
      that error, whatever follows. */
  lemma {:induction false} MapAllStopsAt<T>(f: string -> Result<T, CatalogueError>, ms: seq<string>, i: nat)
    requires i < |ms| && MapAll(f, ms[..i]).Success? && f(ms[i]).Failure?
    ensures MapAll(f, ms) == Failure(f(ms[i]).error)
    decreases i
  {
    if i > 0 {
      assert ms[..i][0] == ms[0] && ms[..i][1..] == ms[1..][..i - 1];
      assert ms[1..][i - 1] == ms[i];
      MapAllStopsAt(f, ms[1..], i - 1);
    }
  }

  /** Signature, for one owner. */
  function SignatureOf(owner: string): string -> Result<MethodName, CatalogueError> {
    m => Signature(m, owner)
  }

  /** The method names of ms, in order; the first string without '(' aborts with its error. */
  function Signatures(owner: string, ms: seq<string>): Result<seq<MethodName>, CatalogueError> {
    MapAll(SignatureOf(owner), ms)
  }

  /** The method names are collected exactly when every member holds '(', one per member; the
      error is the `Bad method` of the first member without '('. */
  lemma SignaturesSpec(owner: string, ms: seq<string>)
    ensures Signatures(owner, ms).Success? <==> forall i :: 0 <= i < |ms| ==> !Avoids(ms[i], '(')
    ensures Signatures(owner, ms).Success? ==>
      |Signatures(owner, ms).value| == |ms|
      && forall i :: 0 <= i < |ms| ==> Signature(ms[i], owner) == Success(Signatures(owner, ms).value[i])
    ensures Signatures(owner, ms).Failure? ==>
      exists i :: 0 <= i < |ms| && Avoids(ms[i], '(')
        && (forall j :: 0 <= j < i ==> !Avoids(ms[j], '('))
        && Signatures(owner, ms).error == BadMethod(ms[i])
  {
    var f := SignatureOf(owner);
    MapAllSpec(f, ms);
    if Signatures(owner, ms).Failure? {
      var i :| 0 <= i < |ms|
        && (forall j :: 0 <= j < i ==> f(ms[j]).Success?)
        && f(ms[i]) == Failure(MapAll(f, ms).error);
      assert Signature(ms[i], owner).Failure?;
    }
  }

  /** One line: skipped (None), a record and its method names, or the line's error. */
  function LineEntry(line: string): Result<Option<Entry>, CatalogueError> {
    if IsSkipped(line) then Success(None)
    else
      match ParseRecord(Strip(line))
      case Failure(e) => Failure(e)
      case Success(rec) =>
        match Signatures(rec.simpleTypeName, Members(rec))
        case Failure(e) => Failure(e)
        case Success(sigs) => Success(Some(Entry(rec, sigs)))
  }

  /** The values f gives the lines, in line order: a line f maps to None contributes nothing,
      and the first line f fails on aborts with its error. */
  function Collect<T>(f: string -> Result<Option<T>, CatalogueError>, lines: seq<string>): Result<seq<T>, CatalogueError>
    decreases |lines|
  {
    if lines == [] then Success([])
    else
      match f(lines[0])
      case Failure(e) => Failure(e)
      case Success(o) =>
        match Collect(f, lines[1..])
        case Failure(e) => Failure(e)
        case Success(es) => Success((if o.Some? then [o.value] else []) + es)
  }

  /** The collection succeeds exactly when f succeeds on every line; otherwise its error is
      that of the first line f fails on. */
  lemma {:induction false} CollectSucceeds<T>(f: string -> Result<Option<T>, CatalogueError>, lines: seq<string>)
    ensures Collect(f, lines).Success? <==> forall i :: 0 <= i < |lines| ==> f(lines[i]).Success?
    ensures Collect(f, lines).Failure? ==>
      exists i :: 0 <= i < |lines|
        && (forall j :: 0 <= j < i ==> f(lines[j]).Success?)
        && f(lines[i]) == Failure(Collect(f, lines).error)
    decreases |lines|
  {
    if lines != [] {
      CollectSucceeds(f, lines[1..]);
      assert forall i :: 1 <= i < |lines| ==> lines[i] == lines[1..][i - 1];
      if Collect(f, lines).Failure? && f(lines[0]).Success? {
        var i :| 0 <= i < |lines[1..]|
          && (forall j :: 0 <= j < i ==> f(lines[1..][j]).Success?)
          && f(lines[1..][i]) == Failure(Collect(f, lines[1..]).error);
        assert f(lines[i + 1]) == Failure(Collect(f, lines).error);
      }
    }
  }

  /** The lines that satisfy keep, in order. */
  function Filter(keep: string -> bool, lines: seq<string>): (r: seq<string>)
    ensures forall i :: 0 <= i < |r| ==> keep(r[i])
    decreases |lines|
  {
    if lines == [] then []
    else if keep(lines[0]) then [lines[0]] + Filter(keep, lines[1..])
    else Filter(keep, lines[1..])
  }

  /** When f gives a value exactly on the lines keep selects, the values are those of the
      selected lines, one each, in order. */
  lemma {:induction false} CollectSelected<T>(f: string -> Result<Option<T>, CatalogueError>, keep: string -> bool, lines: seq<string>)
    requires Collect(f, lines).Success?
    requires forall i :: 0 <= i < |lines| ==> (f(lines[i]).Success? && f(lines[i]).value.Some? <==> keep(lines[i]))
    ensures var es, kept := Collect(f, lines).value, Filter(keep, lines);
      |es| == |kept| && forall k :: 0 <= k < |es| ==> f(kept[k]) == Success(Some(es[k]))
    decreases |lines|
  {
    if lines != [] {
      assert forall i :: 1 <= i < |lines| ==> lines[i] == lines[1..][i - 1];
      CollectSelected(f, keep, lines[1..]);
    }
  }

  /** A line that does not stop the load: blank, a comment, or a well-formed record all of
      whose method and constructor strings hold '('. */
  predicate LineOk(line: string) {
    IsSkipped(line)
    || (ParseRecord(Strip(line)).Success?
        && forall i :: 0 <= i < |Members(ParseRecord(Strip(line)).value)| ==>
             !Avoids(Members(ParseRecord(Strip(line)).value)[i], '('))
  }

  /** A line is read exactly when it is LineOk, and it then yields an entry exactly when it is
      not blank or a comment. */
  lemma LineEntrySucceeds(line: string)
    ensures LineEntry(line).Success? <==> LineOk(line)
    ensures LineEntry(line).Success? && LineEntry(line).value.Some? <==> LineOk(line) && !IsSkipped(line)
  {
    if !IsSkipped(line) && ParseRecord(Strip(line)).Success? {
      var rec := ParseRecord(Strip(line)).value;
      SignaturesSpec(rec.simpleTypeName, Members(rec));
    }
  }

  /** A line that is neither blank nor a comment. */
  predicate IsRecordLine(line: string) {
    !IsSkipped(line)
  }

  /** Whether the catalogue's lines are all read, and the error of the first that is not. */
  lemma LinesSucceed(lines: seq<string>)
    ensures Collect(LineEntry, lines).Success? <==> forall i :: 0 <= i < |lines| ==> LineOk(lines[i])
    ensures Collect(LineEntry, lines).Failure? ==>
      exists i :: 0 <= i < |lines| && !LineOk(lines[i])
        && (forall j :: 0 <= j < i ==> LineOk(lines[j]))
        && LineEntry(lines[i]) == Failure(Collect(LineEntry, lines).error)
  {
    forall i | 0 <= i < |lines| ensures LineEntry(lines[i]).Success? <==> LineOk(lines[i]) {
      LineEntrySucceeds(lines[i]);
    }
    CollectSucceeds(LineEntry, lines);
  }

  /** One entry per record line, in line order: blank and comment lines contribute nothing. */
  lemma EntriesOfRecordLines(lines: seq<string>)
    requires Collect(LineEntry, lines).Success?
    ensures var es, kept := Collect(LineEntry, lines).value, Filter(IsRecordLine, lines);
      |es| == |kept| && forall k :: 0 <= k < |es| ==> LineEntry(kept[k]) == Success(Some(es[k]))
  {
    CollectSucceeds(LineEntry, lines);
    forall i | 0 <= i < |lines|
      ensures LineEntry(lines[i]).Success? && LineEntry(lines[i]).value.Some? <==> IsRecordLine(lines[i])
    {
      LineEntrySucceeds(lines[i]);
    }
    CollectSelected(LineEntry, IsRecordLine, lines);
  }

  // ---------------------------------------------------------------------------
  // building the index

  /** The completion offered for a type: `simple + '\t' + hint`, inserting the simple name. */
  function TypeCompletion(rec: TypeRecord): Completion {
    Completion(rec.simpleTypeName + "\t" + RemoveAll(rec.typeName, HintPrefix), rec.simpleTypeName)
  }

  /** The completion offered for a method: `display + '\t' + owner`, inserting the template. */
  function MethodCompletion(m: MethodName): Completion {
    Completion(m.display + "\t" + m.owner, m.template)
  }

  function MethodCompletions(names: set<MethodName>): set<Completion> {
    set m | m in names :: MethodCompletion(m)
  }

  /** The method names of a sequence, as the set that keeps them. */
  function NameSet(sigs: seq<MethodName>): set<MethodName> {
    set m | m in sigs
  }

  /** Adding one more method name to the sequence adds it to the set. */
  lemma NameSetSnoc(sigs: seq<MethodName>, x: MethodName)
    ensures NameSet(sigs + [x]) == NameSet(sigs) + {x}
  {
  }

  /** What one record line adds: its method names, its two map entries (later lines overwrite
      earlier ones) and its type completion. */
  function AddEntry(idx: Index, e: Entry): (r: Index)
    ensures Consistent(idx) ==> Consistent(r)
  {
    idx.(simpleTypeNames := idx.simpleTypeNames[e.rec.simpleTypeName := e.rec.typeName],
         typeNames := idx.typeNames[e.rec.typeName := e.rec],
         methodNames := idx.methodNames + NameSet(e.sigs),
         typeCompletions := idx.typeCompletions + [TypeCompletion(e.rec)])
  }

  /** The entries added one at a time, in order. */
  function Build(idx: Index, es: seq<Entry>): (r: Index)
    ensures r.methodCompletions == idx.methodCompletions
    ensures idx.methodNames <= r.methodNames
    decreases |es|
  {
    if es == [] then idx else Build(AddEntry(idx, es[0]), es[1..])
  }

  /** The loop over the lines of a catalogue, from idx. */
  function Load(idx: Index, lines: seq<string>): Result<Index, CatalogueError> {
    match Collect(LineEntry, lines)
    case Failure(e) => Failure(e)
    case Success(es) => Success(Build(idx, es))
  }

  /** The loop one line at a time: a skipped line leaves the index as it is, a record line adds
      its entry, a line in error stops the loop with its error. */
  lemma LoadCons(idx: Index, lines: seq<string>)
    requires lines != []
    ensures Load(idx, lines) ==
      match LineEntry(lines[0])
      case Failure(e) => Failure(e)
      case Success(None) => Load(idx, lines[1..])
      case Success(Some(e)) => Load(AddEntry(idx, e), lines[1..])
  {
    if LineEntry(lines[0]).Success? && Collect(LineEntry, lines[1..]).Success? {
      var es := Collect(LineEntry, lines[1..]).value;
      match LineEntry(lines[0]).value
      case None => assert [] + es == es;
      case Some(e) => assert ([e] + es)[1..] == es;
    }
  }

  /** `JebGlobals(text)`: the lines of the catalogue folded from the empty index, then one
      method completion per method name. */
  function ParseCatalogue(text: string): Result<Index, CatalogueError> {
    match Load(EmptyIndex, SplitLines(text))
    case Failure(e) => Failure(e)
    case Success(idx) => Success(idx.(methodCompletions := MethodCompletions(idx.methodNames)))
  }

  // ---------------------------------------------------------------------------
  // what a load produces

  /** A catalogue loads exactly when each of its lines is blank, a comment, or a well-formed
      record whose method strings all hold '(': one bad line anywhere aborts the whole load. */
  lemma LoadSucceeds(text: string)
    ensures ParseCatalogue(text).Success? <==> forall line :: line in SplitLines(text) ==> LineOk(line)
  {
    LinesSucceed(SplitLines(text));
  }

  /** The hint of a type in the `com.pnfsoftware.jeb.` namespace is the rest of its name, when the
      prefix does not occur again in it. */
  lemma TypeCompletionHint(rec: TypeRecord, rest: string)
    requires rec.typeName == HintPrefix + rest && !Occurs(HintPrefix, rest)
    ensures TypeCompletion(rec) == Completion(rec.simpleTypeName + "\t" + rest, rec.simpleTypeName)
  {
    RemoveAllPrefixed(HintPrefix, rest);
    RemoveAllUnchanged(rest, HintPrefix);
  }

  /** `com.pnfsoftware.jeb.client.api.IScript` is offered with the hint `client.api.IScript`. */
  lemma IScriptHint(rec: TypeRecord)
    requires rec.typeName == "com.pnfsoftware.jeb.client.api.IScript"
    ensures TypeCompletion(rec).caption == rec.simpleTypeName + "\tclient.api.IScript"
  {
    var rest := "client.api.IScript";
    assert rec.typeName == HintPrefix + rest;
    RemoveAllPrefixed(HintPrefix, rest);
  }

  function TypeCompletions(es: seq<Entry>): (r: seq<Completion>)
    ensures |r| == |es|
  {
    seq(|es|, i requires 0 <= i < |es| => TypeCompletion(es[i].rec))
  }

  /** The type completions are one per record, in line order. */
  lemma {:induction false} TypeCompletionsInOrder(idx: Index, es: seq<Entry>)
    ensures Build(idx, es).typeCompletions == idx.typeCompletions + TypeCompletions(es)
    decreases |es|
  {
    if es != [] {
      TypeCompletionsInOrder(AddEntry(idx, es[0]), es[1..]);
      assert TypeCompletions(es) == [TypeCompletion(es[0].rec)] + TypeCompletions(es[1..]);
    }
  }

  /** A simple name no entry declares keeps the value it had before. */
  lemma {:induction false} SimpleTypeNameUnmentioned(idx: Index, es: seq<Entry>, s: string)
    requires forall k :: 0 <= k < |es| ==> es[k].rec.simpleTypeName != s
    ensures s in Build(idx, es).simpleTypeNames <==> s in idx.simpleTypeNames
    ensures s in idx.simpleTypeNames ==> Build(idx, es).simpleTypeNames[s] == idx.simpleTypeNames[s]
    decreases |es|
  {
    if es != [] {
      SimpleTypeNameUnmentioned(AddEntry(idx, es[0]), es[1..], s);
    }
  }

  /** Last write wins: a simple name maps to the qualified name of the last record that
      declares it. */
  lemma {:induction false} SimpleTypeNameLastWins(idx: Index, es: seq<Entry>, k: nat)
    requires k < |es|
    requires forall j :: k < j < |es| ==> es[j].rec.simpleTypeName != es[k].rec.simpleTypeName
    ensures es[k].rec.simpleTypeName in Build(idx, es).simpleTypeNames
    ensures Build(idx, es).simpleTypeNames[es[k].rec.simpleTypeName] == es[k].rec.typeName
    decreases |es|
  {
    if k == 0 {
      SimpleTypeNameUnmentioned(AddEntry(idx, es[0]), es[1..], es[0].rec.simpleTypeName);
    } else {
      SimpleTypeNameLastWins(AddEntry(idx, es[0]), es[1..], k - 1);
    }
  }

  /** A qualified name no entry declares keeps the record it had before. */
  lemma {:induction false} TypeNameUnmentioned(idx: Index, es: seq<Entry>, q: string)
    requires forall k :: 0 <= k < |es| ==> es[k].rec.typeName != q
    ensures q in Build(idx, es).typeNames <==> q in idx.typeNames
    ensures q in idx.typeNames ==> Build(idx, es).typeNames[q] == idx.typeNames[q]
    decreases |es|
  {
    if es != [] {
      TypeNameUnmentioned(AddEntry(idx, es[0]), es[1..], q);
    }
  }

  /** Last write wins: a qualified name maps to the last record that declares it. */
  lemma {:induction false} TypeNameLastWins(idx: Index, es: seq<Entry>, k: nat)
    requires k < |es|
    requires forall j :: k < j < |es| ==> es[j].rec.typeName != es[k].rec.typeName
    ensures es[k].rec.typeName in Build(idx, es).typeNames
    ensures Build(idx, es).typeNames[es[k].rec.typeName] == es[k].rec
    decreases |es|
  {
    if k == 0 {
      TypeNameUnmentioned(AddEntry(idx, es[0]), es[1..], es[0].rec.typeName);
    } else {
      TypeNameLastWins(AddEntry(idx, es[0]), es[1..], k - 1);
    }
  }

  /** `methodnames` holds exactly the method names it held before and those of the entries. */
  lemma {:induction false} MethodNamesOfEntries(idx: Index, es: seq<Entry>, x: MethodName)
    ensures x in Build(idx, es).methodNames <==> x in idx.methodNames || exists k :: 0 <= k < |es| && x in es[k].sigs
    decreases |es|
  {
    if es != [] {
      MethodNamesOfEntries(AddEntry(idx, es[0]), es[1..], x);
      if exists k :: 0 <= k < |es| && x in es[k].sigs {
        var k :| 0 <= k < |es| && x in es[k].sigs;
        if k > 0 {
          assert x in es[1..][k - 1].sigs;
        }
      }
      if exists k :: 0 <= k < |es[1..]| && x in es[1..][k].sigs {
        var k :| 0 <= k < |es[1..]| && x in es[1..][k].sigs;
        assert x in es[k + 1].sigs;
      }
    }
  }

  /** Every simple name maps to a key of `typenames`, and every record is filed under its own
      qualified name, so a documentation lookup never misses. */
  ghost predicate Consistent(idx: Index) {
    (forall s :: s in idx.simpleTypeNames ==> idx.simpleTypeNames[s] in idx.typeNames)
    && (forall q :: q in idx.typeNames ==> idx.typeNames[q].typeName == q)
  }

  lemma {:induction false} BuildConsistent(idx: Index, es: seq<Entry>)
    requires Consistent(idx)
    ensures Consistent(Build(idx, es))
    decreases |es|
  {
    if es != [] {
      BuildConsistent(AddEntry(idx, es[0]), es[1..]);
    }
  }

  lemma LoadConsistent(text: string)
    requires ParseCatalogue(text).Success?
    ensures Consistent(ParseCatalogue(text).value)
  {
    BuildConsistent(EmptyIndex, Collect(LineEntry, SplitLines(text)).value);
  }

  /** Captions keep method names apart when owners hold no tab: two method names with the same
      completion are the same method name. */
  lemma MethodCompletionInjective(m1: MethodName, m2: MethodName)
    requires Avoids(m1.owner, '\t') && Avoids(m2.owner, '\t')
    requires MethodCompletion(m1) == MethodCompletion(m2)
    ensures m1 == m2
  {
    var c1, c2 := m1.display + "\t" + m1.owner, m2.display + "\t" + m2.owner;
    assert c1 == MethodCompletion(m1).caption == MethodCompletion(m2).caption == c2;
    RFindLastSeparator(m1.display, '\t', m1.owner);
    RFindLastSeparator(m2.display, '\t', m2.owner);
    var n := |m1.display|;
    assert n == |m2.display|;
    assert m1.display == c1[..n] && m2.display == c2[..n];
    assert m1.owner == c1[n + 1..] && m2.owner == c2[n + 1..];
  }

  /** With tab-free owners, `acmlist` holds exactly one entry per method name. */
  lemma {:induction false} MethodCompletionsCount(names: set<MethodName>)
    requires forall m :: m in names ==> Avoids(m.owner, '\t')
    ensures |MethodCompletions(names)| == |names|
    decreases |names|
  {
    if names != {} {
      var m :| m in names;
      var rest := names - {m};
      MethodCompletionsCount(rest);
      assert MethodCompletions(names) == MethodCompletions(rest) + {MethodCompletion(m)};
      if MethodCompletion(m) in MethodCompletions(rest) {
        var m' :| m' in rest && MethodCompletion(m') == MethodCompletion(m);
        MethodCompletionInjective(m, m');
      }
    }
  }
}
