# JEB Script Development Helper — a Dafny model

This project models the logic of `jeb_helper.py`, a Sublime Text 3 plugin that helps write
Python scripts for the JEB decompiler. The editor, the browser and the network are left out.
The caret's line, its offset in the line and the buffer's text are plain parameters, and the
plugin's effects (an insertion, an address to open) are returned as values.

The modules follow the plugin's parts:

- `PyStrings` (`pystrings.dfy`): the parts of Python's `str` that the plugin relies on, as
  Python 3.3 (the interpreter of Sublime Text 3's plugin host) defines them. These are
  `strip()` with `isspace()`'s exact character set (Unicode 6.1, so U+180E counts as a space), `find`/`rfind` of one
  character, slicing with negative and clamped bounds, `split` on one character, `join`,
  `splitlines()` and `splitlines(True)` with every line boundary Python knows, `replace`,
  `'%d' %` and `int()`. `int()` skips a narrower set of whitespace than `strip()`: it does
  not skip the separators U+001C to U+001F.
- `Catalogue` (`catalogue.dfy`): `JebGlobals.__init__` as functions. Each catalogue line is
  either skipped, read into an entry (a record plus the method names of its methods and
  constructors), or fails. The entries are then folded, in line order, into the five lookups.
- `Globals` (`globals.dfy`): the class `JebGlobals`. Its fields are updated in place by
  methods that follow the constructor's loops, each proved against `Catalogue`. After a
  successful load the object's state is exactly `Catalogue.ParseCatalogue(text)`, and a
  failing load yields the error of the first bad line.
- `Words` (`words.dfy`): `get_word`, `is_classname_character` and `isValidJebScriptName`,
  as loops proved against run-of-identifier functions.
- `Commands` (`commands.dfy`) holds three commands:
  - `JebScriptAddImportCommand`: the import line for the type under the caret, and the scan
    of the buffer's leading block of blank, comment and import lines that decides where the
    line goes;
  - `JebViewDocCommand`: the documentation address;
  - `JebAutocomplete.on_query_completions`: the choice between the two completion lists.
- `Wrappers` (`wrappers.dfy`): `Option` and `Result`.

The key results:
- A formatted record line parses back to the record.
- `split` followed by `join` gives the string back, and `join` then the plugin's `split`
  gives the pieces back.
- A catalogue loads exactly when each of its lines is blank, a comment, or a well-formed
  record whose method strings all hold `(`.
- The last record wins in both maps, `actlist` follows line order, and `acmlist` holds one
  entry per method name.
- The word under the caret is the maximal identifier run that touches the offset.
- The add-import scan reports "already there" exactly when the import line stands in the
  buffer's longest leading header, and otherwise it returns the end of that header.
- With the corrected edit (see Findings), a second run of the command finds the line the
  first one inserted.

## Model

| member | source | states |
|---|---|---|
| PyStrings.Strip | jeb_helper.py:65 | `line.strip()`: the result is empty or starts and ends with a character that is not whitespace |
| PyStrings.StripRemovesOnlyEnds | jeb_helper.py:65 | strip keeps exactly the slice between a whitespace-only prefix and a whitespace-only suffix |
| PyStrings.StripFramed | jeb_helper.py:65 | whitespace around a text without whitespace at its ends is removed, and the text is left as it is |
| PyStrings.StripAppendSpace | jeb_helper.py:161 | a trailing whitespace character, such as a line terminator, does not change the stripped line |
| PyStrings.Find | jeb_helper.py:83 | `method.find('(')` is the first `(`, or -1 exactly when there is none |
| PyStrings.RFind | jeb_helper.py:151 | `t.rfind('.')` is the last `.`, or -1 exactly when there is none |
| PyStrings.Slice | jeb_helper.py:87 | Python slicing: within bounds it is the plain slice; an end past the string is clamped to it; a negative end counts from the end of the string; a reversed range is empty |
| PyStrings.Split | jeb_helper.py:69 | `line.split(';')`: at least one piece; `SplitAvoids`, `SplitThenJoin` and `JoinThenSplit` state what the pieces are |
| PyStrings.SplitLines | jeb_helper.py:64 | `text.splitlines()`: `SplitLinesDropsTerminators` ties each line to the corresponding line of `splitlines(True)`, and `SplitLinesKeepEndsBoundaries` states where those lines end |
| PyStrings.SplitLinesKeepEnds | jeb_helper.py:160 | `buf.splitlines(True)`: `SplitLinesKeepEndsJoin` states that its lines make up the buffer, and `SplitLinesKeepEndsBoundaries` that each line but the last ends exactly at a line boundary |
| PyStrings.SplitLinesKeepEndsBoundaries | jeb_helper.py:160 | every line but the last is non-empty and ends with a line boundary, and one ending in `\r` is not followed by a line starting with `\n` (the two would be one `\r\n` boundary) |
| PyStrings.RemoveAll | jeb_helper.py:118 | `typename.replace('com.pnfsoftware.jeb.', '')`: never longer than the name; `RemoveAllUnchanged` and `RemoveAllPrefixed` state its result |
| PyStrings.RemoveAllPrefixed | jeb_helper.py:118 | a leading occurrence of the prefix is removed, and the rest of the name is treated on its own |
| PyStrings.IntTrim | jeb_helper.py:71 | the whitespace `int()` skips, removed at both ends: the result is empty or starts and ends with a character `int()` does not skip, and it starts with the field's first character when that one is not skipped |
| PyStrings.IntTrimFramed | jeb_helper.py:71 | the trimmed text does not depend on how much skipped whitespace surrounds it |
| PyStrings.ParseInt | jeb_helper.py:71 | `int(elts[1])`: a value only when something other than skipped whitespace is left; `ParseIntFramed` states that it reads back what `'%d'` writes |
| PyStrings.ParseIntFramed | jeb_helper.py:71 | `int()` reads back the `'%d'` form of every integer, with any whitespace `int()` skips around it |
| PyStrings.ParseIntRejectsSeparator | jeb_helper.py:71 | a field starting with one of U+001C to U+001F, which `strip()` removes, is not an integer |
| PyStrings.SplitAvoids | jeb_helper.py:69 | no piece of `line.split(';')` holds the separator |
| PyStrings.SplitThenJoin | jeb_helper.py:69 | joining the pieces of a split with the separator gives the string back |
| PyStrings.JoinThenSplit | jeb_helper.py:69 | splitting the join of a non-empty list of pieces that avoid the separator gives the pieces back |
| PyStrings.SplitLinesKeepEndsJoin | jeb_helper.py:160 | the lines of `buf.splitlines(True)` concatenated are the buffer |
| PyStrings.SplitLinesDropsTerminators | jeb_helper.py:64 | line i of `splitlines()` is line i of `splitlines(True)` without its terminator, and holds no line boundary |
| PyStrings.ReplaceChar | jeb_helper.py:191 | `replace('.', '/')`: the same length as the name; `ReplaceCharInverse` states that it leaves no dot and can be undone |
| PyStrings.ReplaceCharInverse | jeb_helper.py:191 | `replace('.', '/')` leaves no dot, and replacing back restores a package name without `/` |
| PyStrings.RemoveAllUnchanged | jeb_helper.py:118 | removing `com.pnfsoftware.jeb.` changes the name exactly when the prefix occurs in it |
| PyStrings.DecimalRoundTrip | jeb_helper.py:71 | the decimal digits of n read back as n |
| PyStrings.ParseIntRoundTrip | jeb_helper.py:71 | `int()` reads back the `'%d'` form of every integer, negative ones included |
| Catalogue.SafeSplit | jeb_helper.py:324-325 | the plugin's `split` gives no pieces exactly for the empty string |
| Catalogue.SafeSplitThenJoin | jeb_helper.py:322-325 | joining the pieces of the plugin's `split` gives the string back, and no piece holds the separator |
| Catalogue.SafeSplitOfJoin | jeb_helper.py:322-325 | the plugin's `split` of a join gives the pieces back exactly when they are not the single empty string |
| Catalogue.WritableListJoin | jeb_helper.py:76-79 | a `\|`-joined list field holds no `;` and splits back into the list |
| Catalogue.SplitRecordFields | jeb_helper.py:69-79 | a formatted record line splits on `;` into its ten fields |
| Catalogue.ParseFormattedRecord | jeb_helper.py:69-79 | the record read from a formatted record line is the record that was formatted |
| Catalogue.PlaceholderNumber | jeb_helper.py:96 | the number `'%d'` writes into a snippet field `${N:name}` reads back as N |
| Catalogue.PlaceholdersNumbered | jeb_helper.py:90-96 | the editor reads the fields of a template as numbered 1, 2, ... in argument order |
| Catalogue.Signature | jeb_helper.py:83-99 | a method string fails with `Bad method` exactly when it holds no `(`; otherwise its owner is the record's simple name |
| Catalogue.ParseRecord | jeb_helper.py:69-79 | a stripped line is a record exactly when it has at least ten `;`-separated fields and its second field is an integer; with two or more fields and a non-integer second field it fails with that field as the bad category |
| Catalogue.ArgStringsWithoutClose | jeb_helper.py:87 | in a method string without `)`, `find` gives -1 and the argument text runs from after `(` to the string's last character, which is left out |
| Catalogue.MissingCloseOneArg | jeb_helper.py:83-99 | a method string `name(` + arg + c with no `)` is read as the method `name(arg)`, losing its last character c |
| Catalogue.MissingCloseDropsLastChar | jeb_helper.py:83-99 | the instance: `f(ab` gives display `f(a)` and template `f(${1:a})` |
| Catalogue.ArgStrings | jeb_helper.py:87 | `split(method[pos+1:method.find(')')], ',')`; `ArgListNames` states what it yields for a closed argument list, and `ArgStringsWithoutClose` for one without `)` |
| Catalogue.ArgName | jeb_helper.py:94 | `arg.split(':')[0]`; `ArgNameOf` states that it is the text before the first `:` |
| Catalogue.Placeholder | jeb_helper.py:96 | the field `'${%d:%s}' % (iarg + 1, argname)`; `PlaceholderNumber` states that the editor reads its number back |
| Catalogue.Display | jeb_helper.py:88-99 | the text `mname_with_args` accumulates; `Globals.JebGlobals.FormatArgs` proves that the loop builds it, and `SignatureOfMethodString` states it for a method string |
| Catalogue.Template | jeb_helper.py:88-99 | the text `mname_with_args_tpl` accumulates; `Globals.JebGlobals.FormatArgs` proves that the loop builds it, and `PlaceholdersNumbered` states how its fields are numbered |
| Catalogue.ArgNameOf | jeb_helper.py:94 | an argument `a:T` with no `:` in a is named a |
| Catalogue.ArgListNames | jeb_helper.py:87-94 | the argument list of a method string splits back into its arguments, and their names are the given names |
| Catalogue.SignatureOfMethodString | jeb_helper.py:86-99 | `name(a1:T1,...,an:Tn)`, with plain names and types, gives display `name(a1, ..., an)`, template `name(${1:a1}, ..., ${n:an})` and the record as owner |
| Catalogue.MapAllSpec | jeb_helper.py:82-85 | the loop over members succeeds exactly when every member does; otherwise it fails with the error of the first that fails |
| Catalogue.MapAllStopsAt | jeb_helper.py:82-85 | a failure after successes ends the loop with that failure |
| Catalogue.Members | jeb_helper.py:82 | `methods + constructors`; `SignaturesSpec` states that their method names come in this order |
| Catalogue.SignaturesSpec | jeb_helper.py:82-85 | a record's members all yield method names exactly when each holds `(`; otherwise the load fails with `Bad method` for the first that does not |
| Catalogue.CollectSucceeds | jeb_helper.py:64-119 | the loop over lines succeeds exactly when every line does, and otherwise fails with the first line's error |
| Catalogue.IsSkipped | jeb_helper.py:65-67 | the lines the loop skips, blank or a comment once stripped; `SkippedFramed` states it on the raw line |
| Catalogue.SkippedFramed | jeb_helper.py:65-67 | a line is skipped exactly when the text between the whitespace at its ends is empty or starts with `#` |
| Catalogue.LineEntry | jeb_helper.py:64-100 | one iteration of the loop over lines; `LineEntrySucceeds` states when it yields an entry, nothing or an error |
| Catalogue.LineEntrySucceeds | jeb_helper.py:64-85 | a line is accepted exactly when it is skipped or a well-formed record whose members hold `(`, and yields an entry exactly when it is a record |
| Catalogue.LinesSucceed | jeb_helper.py:64-85 | a sequence of lines loads exactly when every line is acceptable, and otherwise fails with the error of the first bad line |
| Catalogue.EntriesOfRecordLines | jeb_helper.py:64-119 | the entries are one per record line, in line order; blank and comment lines add nothing |
| Catalogue.LoadCons | jeb_helper.py:64-67 | one step of the loop: a skipped line leaves the index as it is, a record line adds its entry, and a bad line stops with its error |
| Catalogue.ParseCatalogue | jeb_helper.py:56-123 | the whole constructor; `LoadSucceeds` states when it succeeds, and `LoadConsistent`, `EntriesOfRecordLines` and the `LastWins` lemmas state what it builds |
| Catalogue.LoadSucceeds | jeb_helper.py:56-123 | a catalogue loads exactly when each of its lines is blank, a comment, or a well-formed record whose method strings all hold `(` |
| Catalogue.NameSetSnoc | jeb_helper.py:100 | adding a method name to `methodnames` adds exactly that element |
| Catalogue.AddEntry | jeb_helper.py:100-119 | what a record line adds keeps `simpletypenames` pointing into `typenames`, with each record filed under its own qualified name |
| Catalogue.Build | jeb_helper.py:64-119 | the loop over lines leaves `acmlist` untouched (it is filled afterwards) and only adds to `methodnames` |
| Catalogue.TypeCompletion | jeb_helper.py:117-119 | the completion of a type; `TypeCompletionHint` states its hint |
| Catalogue.TypeCompletionHint | jeb_helper.py:117-119 | a type `com.pnfsoftware.jeb.` + rest, where the prefix does not occur again in rest, is offered as `simple\trest`, inserting the simple name |
| Catalogue.IScriptHint | jeb_helper.py:118-119 | `com.pnfsoftware.jeb.client.api.IScript` gets the hint `client.api.IScript` |
| Catalogue.MethodCompletion | jeb_helper.py:122-123 | the completion of a method name; `MethodCompletionInjective` states that it keeps method names apart |
| Catalogue.TypeCompletions | jeb_helper.py:117-119 | one type completion per entry, in entry order; `TypeCompletionsInOrder` states that `actlist` is extended by exactly these |
| Catalogue.TypeCompletionsInOrder | jeb_helper.py:117-119 | `actlist` is extended by one `[simple + '\t' + hint, simple]` per entry, in order |
| Catalogue.SimpleTypeNameUnmentioned | jeb_helper.py:114 | `simpletypenames[s]` is untouched by records with another simple name |
| Catalogue.SimpleTypeNameLastWins | jeb_helper.py:114 | `simpletypenames[s]` is the qualified name of the last record whose simple name is s |
| Catalogue.TypeNameUnmentioned | jeb_helper.py:115 | `typenames[q]` is untouched by records with another qualified name |
| Catalogue.TypeNameLastWins | jeb_helper.py:115 | `typenames[q]` is the last record whose qualified name is q |
| Catalogue.MethodNamesOfEntries | jeb_helper.py:100 | a method name is in `methodnames` exactly when it was there before or belongs to one of the entries added |
| Catalogue.BuildConsistent | jeb_helper.py:114-115 | each qualified name in `simpletypenames` is a key of `typenames`, whose record has that qualified name; each step keeps this |
| Catalogue.LoadConsistent | jeb_helper.py:114-115 | every loaded catalogue satisfies that consistency, so the lookup `g.typenames[t]` of the documentation command never fails |
| Catalogue.MethodCompletionInjective | jeb_helper.py:123 | two method names with tab-free owners that give the same `acmlist` entry are the same |
| Catalogue.MethodCompletions | jeb_helper.py:121-123 | one `[display + '\t' + owner, template]` per method name; `MethodCompletionInjective` and `MethodCompletionsCount` state that it keeps method names apart |
| Catalogue.MethodCompletionsCount | jeb_helper.py:121-123 | with tab-free owners, `acmlist` holds exactly one entry per method name |
| Globals.JebGlobals.constructor | jeb_helper.py:57-62 | the lists, maps and set start empty |
| Globals.JebGlobals.FormatArgs | jeb_helper.py:86-99 | the two accumulators built argument by argument are the display signature and the snippet template of the argument names |
| Globals.JebGlobals.FormatSignature | jeb_helper.py:83-99 | the method name built from one method string, or its `Bad method` error |
| Globals.JebGlobals.AddMethods | jeb_helper.py:82-100 | adds the method names of all members to `methodnames`, or returns the first `Bad method` error |
| Globals.JebGlobals.AddRecord | jeb_helper.py:82-119 | on success the state is the old state plus the record's entry: method names, both map entries and one type completion |
| Globals.JebGlobals.AddLine | jeb_helper.py:64-119 | a skipped line leaves the state unchanged, a record line adds its entry, and a bad line returns its error |
| Globals.JebGlobals.AddMethodCompletions | jeb_helper.py:121-123 | `acmlist` gains exactly the completion of every method name, and nothing else changes |
| Globals.JebGlobals.Load | jeb_helper.py:56-123 | succeeds exactly when `ParseCatalogue` does, with a fresh object whose state is its result; otherwise it returns the same error |
| Words.IsClassnameChar | jeb_helper.py:303-306 | `is_classname_character`: the characters of `javachars`, ASCII letters, digits and `_` |
| Words.Word | jeb_helper.py:276-297 | the word `get_word` returns; `WordIsRunAtOffset`, `WordIsMaximal` and `OneSidedWords` state what it is |
| Words.WordBeforeDot | jeb_helper.py:276-297 | with the caret on the `.` of `foo.bar` and dir 0, the word is `foo` |
| Words.WordAtImportEnd | jeb_helper.py:276-297 | with the caret at the end of `from x import B` and dir 0, the word is `B` |
| Words.RunEnd | jeb_helper.py:278-282 | the scan right stops at the first non-identifier character or at the end of the line |
| Words.RunStart | jeb_helper.py:287-292 | the scan left stops after the last non-identifier character or at the line's start |
| Words.GetWord | jeb_helper.py:276-297 | the two loops of `get_word` compute `Word(line, offset, dir)` for every direction |
| Words.WordIsRunAtOffset | jeb_helper.py:276-297 | with dir 0 the word is all identifier characters, touches the offset, and is bounded by a line end or a non-identifier character on each side |
| Words.WordIsMaximal | jeb_helper.py:276-297 | every identifier slice that touches the offset lies inside the word |
| Words.OneSidedWords | jeb_helper.py:283-285 | dir -1 gives None exactly when an identifier character is at the offset, and dir +1 exactly when one is before it; otherwise both agree with dir 0 |
| Words.IsValidJebScriptName | jeb_helper.py:307-319 | true exactly for a non-empty name that starts with an ASCII letter and continues with ASCII letters and digits |
| Words.ValidScriptNameIsWord | jeb_helper.py:304-319 | a valid script name is a single identifier: with the caret at its end it is the word under the caret |
| Commands.QualifiedName | jeb_helper.py:147-149 | the qualified name `simpletypenames.get(word)`, present only for a non-empty word with a non-empty entry |
| Commands.ImportLine | jeb_helper.py:151-154 | the import line of a qualified name; `ImportLineOfQualified` and `ImportLineOfUndotted` state it |
| Commands.ImportLineOfQualified | jeb_helper.py:151-154 | for `p.n` with no dot in n, the import line is `from p import n` |
| Commands.ImportLineOfUndotted | jeb_helper.py:151-154 | for a name without a dot, `t[0:-1]` drops its last character and the whole name follows `import` |
| Commands.IsImport | jeb_helper.py:167 | `line2.startswith('from ') or line2.startswith('import ')`; `ImportIsNotBlank` states that such a line is neither blank nor a comment, so the scan's branches do not overlap |
| Commands.LeadSpec | jeb_helper.py:162-165 | the leading count covers exactly the blank and comment lines before the first other line |
| Commands.MaximalHeaderIsLongest | jeb_helper.py:160-175 | a header that cannot be extended is the longest, so the end the scan finds is unique |
| Commands.ScanStep | jeb_helper.py:162-172 | a blank or comment line before any import, or another import line, extends the header the scan has passed |
| Commands.StopAt | jeb_helper.py:163-175 | where the scan stops without meeting the import line, the header ends and does not hold it |
| Commands.StripLine | jeb_helper.py:161 | `line.strip()` of line i is line i of the stripped lines |
| Commands.InsertionPoint | jeb_helper.py:156-175 | None exactly when the stripped import line stands in the buffer's longest header; otherwise the offset of that header's end |
| Commands.AddImport | jeb_helper.py:145-178 | no edit exactly when the word names no type or the header already holds the import line; otherwise the import line and a newline at the header's end |
| Commands.InsertionAtLineStart | jeb_helper.py:156-175 | the offset lies in the buffer, and the text before it is exactly the header's lines with their terminators |
| Commands.Inserted | jeb_helper.py:178 | the buffer after `view.insert`, longer by the inserted text; `StripAllInsert` and `ImportPresentAfterInsert` state what the next scan sees |
| Commands.ImportPresentAfterInsert | jeb_helper.py:160-172 | an import line placed right after a header is found by the scan |
| Commands.StripAllInsert | jeb_helper.py:161 | stripping the lines after one is inserted inserts that line stripped |
| Commands.OwnLineInsertionIsFound | jeb_helper.py:156-178 | after the corrected edit the header holds the import line, so a second run of the command inserts nothing |
| Commands.AddImportOnOwnLine | jeb_helper.py:145-178 | the command with the corrected edit: the same decision as `AddImport`, with a newline first where the header's last line has no terminator |
| Commands.OneLineLacksImport | jeb_helper.py:160-175 | a buffer that is one import line other than the import line sought does not hold it, so the command inserts |
| Commands.GluedImport | jeb_helper.py:156-178 | as written, a buffer that is one import line without a terminator, other than the import line, does not hold it; the import line is glued to its end, and the next run does not find it |
| Commands.GluedLacksImport | jeb_helper.py:160-175 | the glued buffer is one line, the two imports run together, and the scan does not find the import line in it |
| Commands.GluedThenOwnLine | jeb_helper.py:156-178 | the run after the glued edit: the header now ends at the buffer's end, after a newline, and the import line inserted there is on a line of its own, which the run after that finds |
| Commands.SecondRunOnGlued | jeb_helper.py:156-178 | on the glued buffer the second run's edit is the import line at the buffer's end, and the run after that finds it |
| Commands.ImportOfB | jeb_helper.py:147-154 | a catalogue filing `B` under `a.B` gives, for the word `B`, the import line `from a import B` |
| Commands.GluedImportOfB | jeb_helper.py:145-178 | the instance: buffer `from x import B` without a newline, caret on `B` (the word there is `B` by `Words.WordAtImportEnd`), `B` filed under `a.B`; the buffer does not hold `from a import B`, the first run inserts at offset 15, glued to `B`, the next run does not find it and inserts it again at the buffer's end, where the run after that finds it |
| Commands.RunsOnGluedLine | jeb_helper.py:145-178 | three runs of the command as written on a buffer that is one unterminated import line other than the import line: the first inserts at the line's end, the second at the buffer's end, the third nothing |
| Commands.RunsAfterGlue | jeb_helper.py:145-178 | the second and third of those runs, on the glued buffer |
| Commands.RunsOnGluedBuffer | jeb_helper.py:145-178 | on `from x import B` with `B` filed under `a.B`, the three runs give `from a import B` plus a newline at offset 15, the same at offset 31, and then no edit |
| Commands.DocUrl | jeb_helper.py:191-194 | the documentation page of a type; `DocUrlOfQualified` and `DocUrlInjective` state it |
| Commands.DocUrlOfQualified | jeb_helper.py:191-194 | the page of `package.Local` is the package with dots made slashes, then `/Local.html` |
| Commands.DocUrlInjective | jeb_helper.py:191-194 | two types `package.Local` whose package and local names hold no `/` have the same documentation page only when package and local name agree |
| Commands.ViewDoc | jeb_helper.py:183-194 | an address exactly when the word names a type; the type's record is found and the address is its page |
| Commands.QueryCompletions | jeb_helper.py:136-140 | the result is one of the index's two lists |
| Commands.MethodsOnDottedLines | jeb_helper.py:136-140 | the method list exactly on a line with a dot, when the character before the caret is not a blank |
| Commands.MethodsAfterDot | jeb_helper.py:136-140 | the caret just after a dot always gets the method list |
| Commands.CharBefore | jeb_helper.py:136 | `line[offset_in_line - 1]`, which at offset 0 is the line's last character; `ChoiceAtLineStart` states its effect |
| Commands.ChoiceAtLineStart | jeb_helper.py:136 | at offset 0 on a dotted line, Python's `line[-1]` decides: the type list exactly when the line ends with a blank |

## Left out

- The Sublime Text API is not modelled: `view.sel`, `view.line`, `view.substr`, `view.insert`, `load_resource`, `load_settings`. The caret's line and offset, the buffer and the catalogue text are parameters, and the insertion is returned as a value.
- `api_text` and its fallback from the user's copy of the catalogue to the package's copy: resource loading is I/O.
- `log` and the `verbose` setting: they only print.
- `webbrowser.open_new_tab`: the model computes the address only.
- `JebUpdateApidocFile`: a network download and a file write.
- `JebCreateNewScriptCommand`: the script template inserted into a new window is editor UI. The name check it uses, `isValidJebScriptName`, is modelled.
- The global `g` and `plugin_loaded`: lifecycle wiring. The commands take the loaded index as a parameter.
- The unused counter `point` of the import scan: nothing reads it.
- Globals.JebGlobals.AddMethodCompletions: `acmlist` is modelled as a set, because the Python list's order comes from iterating a `set` and is unspecified. As a set it also merges two method names whose completions coincide. That can happen only when an owner holds a tab; the Python list keeps one entry per method name even then. This is why `Catalogue.MethodCompletionsCount` requires tab-free owners.
- PyStrings.ParseInt: accepts the surrounding whitespace Python 3.3's `int()` skips, an optional sign and ASCII digits. It does not accept the non-ASCII decimal digits that `int()` also accepts.
- Globals.JebGlobals.Load: when a line fails, the constructor's exception means no object is produced. The method names added before the failure are therefore not observable and are not stated.
- Words.GetWord: requires the offset to lie within the line. The caret always does, and Python would raise an `IndexError` for an offset past the end.
- Commands.ViewDoc: requires the index to be consistent, which every loaded catalogue is (`Catalogue.LoadConsistent`).
- `get_word` with dir 0 and the caret just after `foo` in `foo.bar` gives `foo`, not the empty string: the left scan runs even when the character at the caret is `.` (`Words.WordBeforeDot`).

## Findings

| source | as written | input that shows it | evidently intended | confidence | as-written member | corrected member |
|---|---|---|---|---|---|---|
| jeb_helper.py:156-178 | the import line is inserted at the end of the header even when the header's last line has no terminator, so it is glued onto that line | buffer `from x import B` without a newline, caret on `B`, and `simpletypenames["B"] == "a.B"`: the insertion at offset 15 gives `from x import Bfrom a import B` plus a newline, which breaks the existing import and is not an import of `a.B`; the next run does not find it and inserts it again, on a line of its own | the import on a line of its own, so that a second run of the command finds it and inserts nothing | high (not executed) | Commands.GluedImport | Commands.AddImportOnOwnLine |
