/**
 * `JebGlobals`: the object that reads the catalogue and holds the lookups, with the fields
 * its constructor fills in place. Each method is proved against the functions of Catalogue:
 * after a successful load the object's state is exactly `ParseCatalogue(text)`.
 */
module Globals {
  import opened Wrappers
  import opened PyStrings
  import opened Catalogue

  class JebGlobals {
    /** Type completions, in catalogue order. */
    var actlist: seq<Completion>
    /** Method completions. */
    var acmlist: set<Completion>
    var simpletypenames: map<string, string>
    var typenames: map<string, TypeRecord>
    var methodnames: set<MethodName>

    /** The lookups the object holds. */
    function State(): Index
      reads this
    {
      Index(simpletypenames, typenames, methodnames, actlist, acmlist)
    }

    /** The empty lists, maps and set `__init__` starts from. */
    constructor()
      ensures State() == EmptyIndex
    {
      actlist := [];
      acmlist := {};
      simpletypenames := map[];
      typenames := map[];
      methodnames := {};
    }

    /** The display signature and snippet template of a method name and its arguments, built
        argument by argument as `__init__` does. */
    static method FormatArgs(mname: string, args: seq<string>) returns (display: string, template: string)
      ensures display == Display(mname, ArgNames(args))
      ensures template == Template(mname, ArgNames(args))
    {
      ghost var names := ArgNames(args);
      ghost var fields := Placeholders(names);
      display := mname + "(";
      template := mname + "(";
      assert names[..0] == [] && fields[..0] == [];
      var iarg := 0;
      while iarg < |args|
        invariant 0 <= iarg <= |args|
        invariant display == mname + "(" + Join(names[..iarg], ", ")
        invariant template == mname + "(" + Join(fields[..iarg], ", ")
      {
        JoinStep(mname + "(", names, iarg);
        JoinStep(mname + "(", fields, iarg);
        if iarg >= 1 {
          display := display + ", ";
          template := template + ", ";
        }
        var argname := ArgName(args[iarg]);
        assert argname == names[iarg];
        display := display + argname;
        template := template + Placeholder(iarg + 1, argname);
        assert Placeholder(iarg + 1, argname) == fields[iarg];
        iarg := iarg + 1;
      }
      assert names[..|args|] == names && fields[..|args|] == fields;
      display := display + ")";
      template := template + ")";
    }

    /** The method name of one method string; a string without '(' is the `Bad method` error. */
    static method FormatSignature(m: string, owner: string) returns (r: Result<MethodName, CatalogueError>)
      ensures r == Signature(m, owner)
    {
      var pos := Find(m, '(');
      if pos < 0 {
        return Failure(BadMethod(m));
      }
      var display, template := FormatArgs(m[..pos], ArgStrings(m, pos));
      return Success(MethodName(display, template, owner));
    }

    /** The loop over a record's `methods + constructors`: adds each one's method name to
        `methodnames`, and stops with the `Bad method` error of the first without '('. */
    method AddMethods(owner: string, members: seq<string>) returns (err: Option<CatalogueError>)
      modifies this`methodnames
      ensures Signatures(owner, members).Failure? ==> err == Some(Signatures(owner, members).error)
      ensures Signatures(owner, members).Success? ==>
        err == None && methodnames == old(methodnames) + NameSet(Signatures(owner, members).value)
    {
      ghost var sigs: seq<MethodName> := [];
      assert members[..0] == [];
      var i := 0;
      while i < |members|
        invariant 0 <= i <= |members|
        invariant Signatures(owner, members[..i]) == Success(sigs)
        invariant methodnames == old(methodnames) + NameSet(sigs)
      {
        var sig := FormatSignature(members[i], owner);
        if sig.Failure? {
          MapAllStopsAt(SignatureOf(owner), members, i);
          return Some(sig.error);
        }
        MapAllPrefixStep(SignatureOf(owner), members, i, sigs, sig.value);
        methodnames := methodnames + {sig.value};
        NameSetSnoc(sigs, sig.value);
        sigs := sigs + [sig.value];
        i := i + 1;
        assert Signatures(owner, members[..i]) == Success(sigs);
      }
      assert members[..i] == members;
      return None;
    }

    /** What a record line adds: its method names, then its two map entries and its type
        completion. On a `Bad method` error the names added so far stay in `methodnames`, as the
        exception leaves them. */
    method AddRecord(rec: TypeRecord) returns (err: Option<CatalogueError>)
      modifies this
      ensures match Signatures(rec.simpleTypeName, Members(rec))
        case Failure(e) => err == Some(e)
        case Success(sigs) => err == None && State() == AddEntry(old(State()), Entry(rec, sigs))
    {
      err := AddMethods(rec.simpleTypeName, Members(rec));
      if err.Some? {
        return;
      }
      simpletypenames := simpletypenames[rec.simpleTypeName := rec.typeName];
      typenames := typenames[rec.typeName := rec];
      actlist := actlist + [TypeCompletion(rec)];
    }

    /** One iteration of the loop over the catalogue's lines. A blank or comment line changes
        nothing; a record line adds its entry; a line in error returns its error. */
    method AddLine(line: string) returns (err: Option<CatalogueError>)
      modifies this
      ensures match LineEntry(line)
        case Failure(e) => err == Some(e)
        case Success(None) => err == None && State() == old(State())
        case Success(Some(e)) => err == None && State() == AddEntry(old(State()), e)
    {
      var t := Strip(line);
      if t == [] || t[0] == '#' {
        return None;
      }
      match ParseRecord(t) {
        case Failure(e) => return Some(e);
        case Success(rec) => err := AddRecord(rec);
      }
    }

    /** The loop over `methodnames` that fills `acmlist`, one method name at a time. */
    method AddMethodCompletions()
      modifies this
      ensures acmlist == old(acmlist) + MethodCompletions(methodnames)
      ensures actlist == old(actlist) && methodnames == old(methodnames)
      ensures simpletypenames == old(simpletypenames) && typenames == old(typenames)
    {
      var rest := methodnames;
      while rest != {}
        invariant rest <= methodnames
        invariant acmlist == old(acmlist) + MethodCompletions(methodnames - rest)
        invariant actlist == old(actlist) && methodnames == old(methodnames)
        invariant simpletypenames == old(simpletypenames) && typenames == old(typenames)
        decreases |rest|
      {
        var m :| m in rest;
        assert MethodCompletions(methodnames - (rest - {m}))
            == MethodCompletions(methodnames - rest) + {MethodCompletion(m)};
        acmlist := acmlist + {MethodCompletion(m)};
        rest := rest - {m};
      }
      assert methodnames - rest == methodnames;
    }

    /** `JebGlobals()`: reads every line of the catalogue text, then the method completions.
        It fails with the error of the first line in error, as the constructor raises. */
    static method Load(text: string) returns (r: Result<JebGlobals, CatalogueError>)
      ensures r.Success? <==> ParseCatalogue(text).Success?
      ensures r.Success? ==> fresh(r.value) && r.value.State() == ParseCatalogue(text).value
      ensures r.Failure? ==> ParseCatalogue(text) == Failure(r.error)
    {
      var g := new JebGlobals();
      var lines := SplitLines(text);
      var i := 0;
      while i < |lines|
        invariant 0 <= i <= |lines|
        invariant fresh(g)
        invariant Catalogue.Load(g.State(), lines[i..]) == Catalogue.Load(EmptyIndex, lines)
        invariant g.acmlist == {}
      {
        LoadCons(g.State(), lines[i..]);
        var err := g.AddLine(lines[i]);
        if err.Some? {
          return Failure(err.value);
        }
        assert lines[i..][1..] == lines[i + 1..];
        i := i + 1;
      }
      assert lines[i..] == [];
      g.AddMethodCompletions();
      return Success(g);
    }
  }

  /** Appending piece i (after ", " unless it is the first) to a prefix of the join of the
      first i pieces gives the join of the first i + 1. */
  lemma JoinStep(head: string, parts: seq<string>, i: nat)
    requires i < |parts|
    ensures head + Join(parts[..i + 1], ", ")
         == (if i >= 1 then head + Join(parts[..i], ", ") + ", " else head + Join(parts[..i], ", ")) + parts[i]
  {
    assert parts[..i + 1] == parts[..i] + [parts[i]];
    JoinSnoc(parts[..i], parts[i], ", ");
    if i == 0 {
      assert parts[..i] == [];
    }
  }
}
