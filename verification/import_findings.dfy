/** Two ways `updateImportsInFile` as written departs from what it evidently means to do, each
    shown on a concrete family of inputs, and the corrected rewrite the rest of the model can be
    compared with: only the import the names were read from is rewritten, and the rebuilt
    statement is inserted literally. */
module ImportFindings {
  import opened Wrappers
  import opened Text
  import opened RegExpSearch
  import opened ImportPattern
  import opened ImportRewrite

  /** `s.replace(regex, () => text)` with a non-global expression: the first match, if any, is
      replaced by `text` taken literally. */
  function ReplaceFirst(f: Sticky, s: string, text: string): (r: string)
    ensures Exec(f, s).None? ==> r == s
    ensures Exec(f, s).Some? ==> HasAt(r, Exec(f, s).value.start, text)
  {
    match Exec(f, s)
    case None => s
    case Some(m) => s[..m.start] + text + s[m.end..]
  }

  /** The corrected rewrite: as `UpdateImportsInFile`, but each import is rewritten only at the
      first match, the one its names were read from, and without template expansion. */
  function UpdateImportsInFileFixed(content: string, symbol: string): (r: Outcome)
    ensures r.changed <==> symbol in CoreNames(content)
    ensures !r.changed ==> r.content == content
  {
    var coreMatch := Exec(Matcher(CoreModule), content);
    var componentsMatch := Exec(Matcher(ComponentsModule), content);
    var coreImports := NamesOf(content, coreMatch);
    var componentsImports := NamesOf(content, componentsMatch);
    if symbol !in coreImports then Outcome(content, false)
    else
      var core := Remove(coreImports, symbol);
      var components := AppendIfAbsent(componentsImports, symbol);
      var afterCore := ReplaceFirst(Matcher(CoreModule), content, Rebuilt(core, CoreModule));
      var afterComponents := ReplaceFirst(Matcher(ComponentsModule), afterCore, Rebuilt(components, ComponentsModule));
      if componentsMatch.None? && |components| > 0 then
        Outcome(Statement(components, ComponentsModule) + "\n" + afterComponents, true)
      else Outcome(afterComponents, true)
  }

  /** On a file with one core import, no components import, and no `$` in the names, the two
      rewrites agree: the correction changes nothing where the original behaves. */
  lemma FixedAgrees(content: string, symbol: string)
    requires Exec(Matcher(CoreModule), content).Some?
    requires Exec(Matcher(ComponentsModule), content).None?
    requires var m := Exec(Matcher(CoreModule), content).value;
             && ImportFree(content[..m.start])
             && FirstMatchFrom(Matcher(CoreModule), content, m.end).None?
             && '$' !in content[m.namesStart..m.namesEnd]
    ensures UpdateImportsInFileFixed(content, symbol) == UpdateImportsInFile(content, symbol)
  {
    if symbol in CoreNames(content) {
      RelocateIntoNewImport(content, symbol);
      RelocateFixed(content, symbol);
    }
  }

  /** The corrected rewrite on a file without a components import, whatever follows the first core
      import and whatever its names hold: that import alone is rewritten, the text after it is
      kept as it is, and the new components import is put in front. */
  lemma RelocateFixed(content: string, symbol: string)
    requires Exec(Matcher(CoreModule), content).Some?
    requires Exec(Matcher(ComponentsModule), content).None?
    requires ImportFree(content[..Exec(Matcher(CoreModule), content).value.start])
    requires symbol in CoreNames(content)
    ensures var m := Exec(Matcher(CoreModule), content).value;
            UpdateImportsInFileFixed(content, symbol)
              == Outcome(Statement([symbol], ComponentsModule) + "\n" + content[..m.start]
                         + Rebuilt(Remove(CoreNames(content), symbol), CoreModule) + content[m.end..], true)
  {
    hide ParseNames, Trim, Statement, Remove, Rebuilt, ReplaceFirst, Exec;
    var m := Exec(Matcher(CoreModule), content).value;
    var core := Rebuilt(Remove(CoreNames(content), symbol), CoreModule);
    var afterCore := content[..m.start] + core + content[m.end..];
    FixedCoreRewritten(content, symbol);
    assert ReplaceFirst(Matcher(CoreModule), content, core) == afterCore;
    FixedNoComponents(content, symbol);
    assert ComponentsNames(content) == [];
    assert AppendIfAbsent([], symbol) == [symbol];
    assert ReplaceFirst(Matcher(ComponentsModule), afterCore, Rebuilt([symbol], ComponentsModule)) == afterCore;
  }

  /** On a file with one core import followed by one components import, nothing before the core
      import that could start an import, and no `$` in either name list, the two rewrites agree. */
  lemma FixedAgreesExisting(content: string, symbol: string)
    requires Exec(Matcher(CoreModule), content).Some? && Exec(Matcher(ComponentsModule), content).Some?
    requires var m := Exec(Matcher(CoreModule), content).value;
             && m.end <= Exec(Matcher(ComponentsModule), content).value.start
             && ImportFree(content[..m.start])
             && FirstMatchFrom(Matcher(CoreModule), content, m.end).None?
             && '$' !in content[m.namesStart..m.namesEnd]
    requires var m := Exec(Matcher(ComponentsModule), content).value;
             && FirstMatchFrom(Matcher(ComponentsModule), content, m.end).None?
             && '$' !in content[m.namesStart..m.namesEnd]
    ensures UpdateImportsInFileFixed(content, symbol) == UpdateImportsInFile(content, symbol)
  {
    if symbol in CoreNames(content) {
      RelocateIntoExistingImport(content, symbol);
      RelocateFixedExisting(content, symbol);
    }
  }

  /** The corrected rewrite on a file whose core import comes before its only components import,
      whatever the core imports after the first and whatever the names hold: the first core
      import is rewritten in place without the symbol, the components import in place with the
      symbol appended once, and the text around and between them is kept. */
  lemma RelocateFixedExisting(content: string, symbol: string)
    requires Exec(Matcher(CoreModule), content).Some? && Exec(Matcher(ComponentsModule), content).Some?
    requires var m := Exec(Matcher(CoreModule), content).value;
             && m.end <= Exec(Matcher(ComponentsModule), content).value.start
             && ImportFree(content[..m.start])
    requires FirstMatchFrom(Matcher(ComponentsModule), content, Exec(Matcher(ComponentsModule), content).value.end).None?
    requires symbol in CoreNames(content)
    ensures var mc := Exec(Matcher(CoreModule), content).value;
            var mp := Exec(Matcher(ComponentsModule), content).value;
            UpdateImportsInFileFixed(content, symbol)
              == Outcome(content[..mc.start] + Rebuilt(Remove(CoreNames(content), symbol), CoreModule)
                         + content[mc.end..mp.start]
                         + Statement(AppendIfAbsent(ComponentsNames(content), symbol), ComponentsModule)
                         + content[mp.end..], true)
  {
    var components := AppendIfAbsent(ComponentsNames(content), symbol);
    assert Rebuilt(components, ComponentsModule) == Statement(components, ComponentsModule);
    hide ParseNames, Trim, Statement, Remove, Rebuilt, CoreNames, ComponentsNames, FirstMatchFrom, MatchAt, MatchPrefix, ImportFree, UpdateImportsInFileFixed, ReplaceFirst;
    var mc := Exec(Matcher(CoreModule), content).value;
    var mp := Exec(Matcher(ComponentsModule), content).value;
    var core := Rebuilt(Remove(CoreNames(content), symbol), CoreModule);
    var lead := content[..mc.start] + core;
    var x := content[mc.end..];
    var template := Rebuilt(components, ComponentsModule);
    FixedCoreRewritten(content, symbol);
    assert ReplaceFirst(Matcher(CoreModule), content, core) == lead + x;
    FixedLeadClean(content, symbol, x);
    ExecAfterLead(Matcher(ComponentsModule), content, mc.end, lead);
    var moved := Exec(Matcher(ComponentsModule), lead + x).value;
    assert moved.start == |lead| + mp.start - mc.end && moved.end == |lead| + mp.end - mc.end;
    ReplaceFirstAt(Matcher(ComponentsModule), lead + x, template, moved);
    SplitAround(lead, content, mc.end, mp.start, mp.end, moved.start, moved.end);
    var out := lead + content[mc.end..mp.start] + template + content[mp.end..];
    assert ReplaceFirst(Matcher(ComponentsModule), lead + x, template) == out;
    UnfoldFixedExisting(content, symbol, lead + x, lead + content[mc.end..mp.start] + template + content[mp.end..]);
  }

  /** The corrected rewrite on a file with a components import, once the results of both
      rewrites are known. */
  lemma UnfoldFixedExisting(content: string, symbol: string, afterCore: string, afterComponents: string)
    requires symbol in CoreNames(content)
    requires Exec(Matcher(ComponentsModule), content).Some?
    requires ReplaceFirst(Matcher(CoreModule), content, Rebuilt(Remove(CoreNames(content), symbol), CoreModule)) == afterCore
    requires ReplaceFirst(Matcher(ComponentsModule), afterCore,
               Rebuilt(AppendIfAbsent(ComponentsNames(content), symbol), ComponentsModule)) == afterComponents
    ensures UpdateImportsInFileFixed(content, symbol) == Outcome(afterComponents, true)
  {
  }

  /** The first match of a text is found again, moved, after its head up to a cut before it is
      replaced by a lead without matches. */
  lemma ExecAfterLead(f: Sticky, s: string, cut: nat, lead: string)
    requires Exec(f, s).Some? && cut <= Exec(f, s).value.start
    requires FirstMatchFrom(f, s, Exec(f, s).value.end).None?
    requires forall p :: 0 <= p < |lead| ==> MatchAt(f, lead + s[cut..], p).None?
    ensures var m := Exec(f, s).value;
            Exec(f, lead + s[cut..])
              == Some(Match(|lead| + m.start - cut, |lead| + m.namesStart - cut, |lead| + m.namesEnd - cut, |lead| + m.end - cut))
  {
    hide FirstMatchFrom, MatchAt;
    ExecAfterClean(f, lead, s[cut..]);
    ExecSuffix(f, s, cut);
  }

  /** Replacing the first match, once it is known. */
  lemma ReplaceFirstAt(f: Sticky, s: string, text: string, m: Match)
    requires Exec(f, s) == Some(m)
    ensures ReplaceFirst(f, s, text) == s[..m.start] + text + s[m.end..]
  {
  }

  /** The text before the first core import and that import rewritten hold no components match. */
  lemma FixedLeadClean(content: string, symbol: string, tail: string)
    requires Exec(Matcher(CoreModule), content).Some?
    requires ImportFree(content[..Exec(Matcher(CoreModule), content).value.start])
    ensures var lead := content[..Exec(Matcher(CoreModule), content).value.start] + Rebuilt(Remove(CoreNames(content), symbol), CoreModule);
            forall p :: 0 <= p < |lead| ==> MatchAt(Matcher(ComponentsModule), lead + tail, p).None?
  {
    var m := Exec(Matcher(CoreModule), content).value;
    CoreNamesValid(content, symbol);
    ModulesApart();
    LeadRebuiltNoMatch(content[..m.start], Remove(CoreNames(content), symbol), CoreModule, ComponentsModule, 45, tail);
  }

  /** The slices around a span of the suffix of a text after a new lead. */
  lemma SplitAround(lead: string, s: string, cut: nat, a: nat, b: nat, i: nat, j: nat)
    requires cut <= a <= b <= |s| && i == |lead| + a - cut && j == |lead| + b - cut
    ensures (lead + s[cut..])[..i] == lead + s[cut..a]
    ensures (lead + s[cut..])[j..] == s[b..]
  {
  }

  lemma FixedCoreRewritten(content: string, symbol: string)
    requires Exec(Matcher(CoreModule), content).Some?
    ensures var m := Exec(Matcher(CoreModule), content).value;
            var text := Rebuilt(Remove(CoreNames(content), symbol), CoreModule);
            ReplaceFirst(Matcher(CoreModule), content, text) == content[..m.start] + text + content[m.end..]
  {
  }

  lemma FixedNoComponents(content: string, symbol: string)
    requires Exec(Matcher(CoreModule), content).Some?
    requires Exec(Matcher(ComponentsModule), content).None?
    requires ImportFree(content[..Exec(Matcher(CoreModule), content).value.start])
    ensures var m := Exec(Matcher(CoreModule), content).value;
            Exec(Matcher(ComponentsModule),
                 content[..m.start] + Rebuilt(Remove(CoreNames(content), symbol), CoreModule) + content[m.end..]).None?
  {
    var m := Exec(Matcher(CoreModule), content).value;
    CoreNamesValid(content, symbol);
    ModulesApart();
    NoMatchInRest(Matcher(ComponentsModule), content, m.end);
    SpliceNoMatch(content[..m.start], Remove(CoreNames(content), symbol), CoreModule, ComponentsModule, 45, content[m.end..]);
  }

  /** The corrected rewrite run again on its own output changes nothing, when names remain in the
      core import or it was the only one. */
  lemma RelocateFixedTwice(content: string, symbol: string)
    requires Exec(Matcher(CoreModule), content).Some?
    requires Exec(Matcher(ComponentsModule), content).None?
    requires var m := Exec(Matcher(CoreModule), content).value;
             && ImportFree(content[..m.start])
             && (Remove(CoreNames(content), symbol) == [] ==> FirstMatchFrom(Matcher(CoreModule), content, m.end).None?)
    requires symbol in CoreNames(content)
    ensures var once := UpdateImportsInFileFixed(content, symbol).content;
            UpdateImportsInFileFixed(once, symbol) == Outcome(once, false)
  {
    RelocateFixed(content, symbol);
    RelocatedText(content, symbol);
  }

  // ---------------------------------------------------------------------------------------------
  // Finding 1: the global replace rewrites every core import with the first one's names.

  /** The text `<first>\n<second>` of two core imports written as the script writes them. */
  function TwoImports(first: seq<string>, second: seq<string>): string
    requires first != [] && second != []
  {
    Statement(first, CoreModule) + ("\n" + Statement(second, CoreModule))
  }

  /** The first core import of a file that starts with a written statement is that statement. */
  lemma LeadingStatement(names: seq<string>, spec: string, rest: string)
    requires ValidNames(names) && names != []
    ensures var s := Statement(names, spec) + rest;
            && Exec(Matcher(spec), s) == Some(Match(0, 8, 10 + |Join(names, ", ")|, |Statement(names, spec)|))
            && NamesOf(s, Exec(Matcher(spec), s)) == names
  {
    LeadingExec(names, spec, rest);
    LeadingNames(names, spec, rest);
  }

  lemma LeadingExec(names: seq<string>, spec: string, rest: string)
    requires ValidNames(names)
    ensures var s := Statement(names, spec) + rest;
            Exec(Matcher(spec), s) == Some(Match(0, 8, 10 + |Join(names, ", ")|, |Statement(names, spec)|))
  {
    StatementMatches(names, spec, rest);
    ExecAt(Matcher(spec), Statement(names, spec) + rest, 0);
  }

  lemma LeadingNames(names: seq<string>, spec: string, rest: string)
    requires ValidNames(names) && names != []
    ensures var s := Statement(names, spec) + rest;
            NamesOf(s, Some(Match(0, 8, 10 + |Join(names, ", ")|, |Statement(names, spec)|))) == names
  {
    var s := Statement(names, spec) + rest;
    var close := 10 + |Join(names, ", ")|;
    StatementLayout(names, spec, rest);
    ParseNamesRoundTrip(names, s[8..close]);
  }

  /** No components import in text made of written core statements and a line break. */
  lemma TwoImportsNoComponents(first: seq<string>, second: seq<string>)
    requires ValidNames(first) && ValidNames(second)
    ensures Exec(Matcher(ComponentsModule), Rebuilt(first, CoreModule) + ("\n" + Rebuilt(second, CoreModule))).None?
  {
    ModulesApart();
    ImportFreeWithoutI("\n");
    var tail := Rebuilt(second, CoreModule);
    SpliceNoMatch("\n", second, CoreModule, ComponentsModule, 45, "");
    assert "\n" + tail + "" == "\n" + tail;
    SpliceNoMatch("", first, CoreModule, ComponentsModule, 45, "\n" + tail);
    assert "" + Rebuilt(first, CoreModule) + ("\n" + tail) == Rebuilt(first, CoreModule) + ("\n" + tail);
    ExecNone(Matcher(ComponentsModule), Rebuilt(first, CoreModule) + ("\n" + tail));
  }

  lemma TwoImportsComponentsFree(first: seq<string>, second: seq<string>)
    requires ValidNames(first) && ValidNames(second) && first != [] && second != []
    ensures Exec(Matcher(ComponentsModule), TwoImports(first, second)).None?
  {
    TwoImportsNoComponents(first, second);
  }

  /** The global core replace on two written imports puts the same rebuilt text in both places. */
  lemma TwoImportsReplaced(first: seq<string>, second: seq<string>, text: string)
    requires ValidNames(first) && ValidNames(second) && first != [] && second != []
    requires NoDollar(text)
    ensures ReplaceAll(Matcher(CoreModule), TwoImports(first, second), text) == text + ("\n" + text)
  {
    var s := TwoImports(first, second);
    LeadingExec(first, CoreModule, "\n" + Statement(second, CoreModule));
    ReplaceLeading(Matcher(CoreModule), s, text);
    SecondOfTwo(first, second, text);
  }

  /** The search resumed after the first written import finds the second, and nothing after it. */
  lemma SecondOfTwo(first: seq<string>, second: seq<string>, text: string)
    requires ValidNames(first) && ValidNames(second) && first != [] && second != []
    requires NoDollar(text)
    ensures var a := Statement(first, CoreModule);
            ReplaceFrom(Matcher(CoreModule), TwoImports(first, second), |a|, text) == "\n" + text
  {
    var b := Statement(second, CoreModule);
    ImportFreeWithoutI("\n");
    ImportFreeNoMatch("\n", b, CoreModule);
    LeadingExec(second, CoreModule, "");
    assert b + "" == b;
    ReplaceAfterGap(Matcher(CoreModule), Statement(first, CoreModule), "\n", b, text);
  }

  /** As written: moving a symbol out of the first of two core imports rewrites the second one as
      well, with the first one's remaining names; the second import's own names are lost. */
  lemma SecondCoreImportOverwritten(first: seq<string>, second: seq<string>, symbol: string)
    requires ValidNames(first) && ValidNames(second) && first != [] && second != []
    requires NamesFreeOf(first, '$')
    requires symbol in first
    ensures var rest := Rebuilt(Remove(first, symbol), CoreModule);
            UpdateImportsInFile(TwoImports(first, second), symbol)
              == Outcome(Statement([symbol], ComponentsModule) + "\n" + (rest + ("\n" + rest)), true)
  {
    var s := TwoImports(first, second);
    var core := Remove(first, symbol);
    var rest := Rebuilt(core, CoreModule);
    TwoImportsNames(first, second);
    TwoImportsComponentsFree(first, second);
    RemoveKeeps(first, symbol, '$');
    ModulesApart();
    StatementNoDollar(core, CoreModule);
    TwoImportsReplaced(first, second, rest);
    TwoImportsNoComponents(core, core);
    UnfoldNewImport(s, symbol, rest + ("\n" + rest));
  }

  /** The names of two written core imports are those of the first. */
  lemma TwoImportsNames(first: seq<string>, second: seq<string>)
    requires ValidNames(first) && ValidNames(second) && first != [] && second != []
    ensures CoreNames(TwoImports(first, second)) == first
  {
    LeadingStatement(first, CoreModule, "\n" + Statement(second, CoreModule));
  }

  /** `updateImportsInFile` on a file without a components import, once the result of the core
      replace is known and holds no components import either. */
  lemma UnfoldNewImport(content: string, symbol: string, afterCore: string)
    requires symbol in CoreNames(content)
    requires Exec(Matcher(ComponentsModule), content).None?
    requires ReplaceAll(Matcher(CoreModule), content, Rebuilt(Remove(CoreNames(content), symbol), CoreModule)) == afterCore
    requires Exec(Matcher(ComponentsModule), afterCore).None?
    ensures UpdateImportsInFile(content, symbol) == Outcome(Statement([symbol], ComponentsModule) + "\n" + afterCore, true)
  {
    ReplaceNone(Matcher(ComponentsModule), afterCore, Rebuilt([symbol], ComponentsModule));
    assert AppendIfAbsent([], symbol) == [symbol];
  }

  /** Corrected: the second core import is kept as it was. */
  lemma SecondCoreImportKept(first: seq<string>, second: seq<string>, symbol: string)
    requires ValidNames(first) && ValidNames(second) && first != [] && second != []
    requires symbol in first
    ensures UpdateImportsInFileFixed(TwoImports(first, second), symbol)
              == Outcome(Statement([symbol], ComponentsModule) + "\n"
                         + (Rebuilt(Remove(first, symbol), CoreModule) + ("\n" + Statement(second, CoreModule))), true)
  {
    var s := TwoImports(first, second);
    var a := Statement(first, CoreModule);
    var b := "\n" + Statement(second, CoreModule);
    var text := Rebuilt(Remove(first, symbol), CoreModule);
    TwoImportsNames(first, second);
    TwoImportsComponentsFree(first, second);
    LeadingExec(first, CoreModule, b);
    FirstImportReplaced(a, b, text);
    RemoveKeeps(first, symbol, '}');
    TwoImportsNoComponents(Remove(first, symbol), second);
    UnfoldFixedNewImport(s, symbol, text + b);
  }

  /** Replacing a match that spans the whole first part of a text keeps the second part. */
  lemma FirstImportReplaced(a: string, b: string, text: string)
    requires Exec(Matcher(CoreModule), a + b).Some?
    requires Exec(Matcher(CoreModule), a + b).value.start == 0 && Exec(Matcher(CoreModule), a + b).value.end == |a|
    ensures ReplaceFirst(Matcher(CoreModule), a + b, text) == text + b
  {
    assert (a + b)[..0] == [] && (a + b)[|a|..] == b;
  }

  /** The corrected rewrite on a file without a components import, once the result of the core
      rewrite is known and holds no components import either. */
  lemma UnfoldFixedNewImport(content: string, symbol: string, afterCore: string)
    requires symbol in CoreNames(content)
    requires Exec(Matcher(ComponentsModule), content).None?
    requires ReplaceFirst(Matcher(CoreModule), content, Rebuilt(Remove(CoreNames(content), symbol), CoreModule)) == afterCore
    requires Exec(Matcher(ComponentsModule), afterCore).None?
    ensures UpdateImportsInFileFixed(content, symbol) == Outcome(Statement([symbol], ComponentsModule) + "\n" + afterCore, true)
  {
    assert AppendIfAbsent([], symbol) == [symbol];
  }

  // ---------------------------------------------------------------------------------------------
  // Finding 2: the rebuilt statement is a replacement template, so `$` in a name is expanded.

  /** The template `import { $$<x> } from "<spec>";` is expanded to `import { $<x> } from "<spec>";`. */
  lemma DoubleDollarCollapses(x: string, spec: string, s: string, mt: Match)
    requires NoDollar(x) && NoDollar(spec) && WellPlaced(mt, |s|)
    ensures Substitute(Statement(["$$" + x], spec), s, mt) == Statement(["$" + x], spec)
  {
    hide Statement;
    var tail := x + " } from \"" + spec + "\";";
    DollarStatements(x, spec);
    SubstituteFreePrefix("import { ", "$$" + tail, s, mt);
    EscapedDollar(tail, s, mt);
  }

  lemma DollarStatements(x: string, spec: string)
    requires NoDollar(x) && NoDollar(spec)
    ensures var tail := x + " } from \"" + spec + "\";";
            && NoDollar(tail)
            && Statement(["$$" + x], spec) == "import { " + ("$$" + tail)
            && Statement(["$" + x], spec) == "import { " + ("$" + tail)
  {
    var tail := x + " } from \"" + spec + "\";";
    assert Statement(["$$" + x], spec) == "import { " + ("$$" + tail);
    assert Statement(["$" + x], spec) == "import { " + ("$" + tail);
  }

  /** `$$` followed by text free of `$` stands for one `$` and that text. */
  lemma EscapedDollar(tail: string, s: string, mt: Match)
    requires NoDollar(tail) && WellPlaced(mt, |s|)
    ensures Substitute("$$" + tail, s, mt) == "$" + tail
  {
    assert ("$$" + tail)[2..] == tail;
  }

  /** The file `import { $$Icon, X } from "<core>";` the findings below start from. */
  function DollarFile(): string {
    Statement(["$$Icon", "X"], CoreModule)
  }

  lemma DollarNamesValid()
    ensures ValidNames(["$$Icon", "X"]) && ValidNames(["$Icon"]) && ValidNames(["$$Icon"])
  {
    assert Trimmed("$$Icon") && ',' !in "$$Icon" && '}' !in "$$Icon";
    assert Trimmed("$Icon") && ',' !in "$Icon" && '}' !in "$Icon";
  }

  /** As written: moving `X` out of `import { $$Icon, X } from "<core>";` leaves the core import
      naming `$Icon`, an identifier the file never imported. */
  lemma DollarNameCorrupted()
    ensures UpdateImportsInFile(DollarFile(), "X")
              == Outcome(Statement(["X"], ComponentsModule) + "\n" + Statement(["$Icon"], CoreModule), true)
  {
    var names := ["$$Icon", "X"];
    DollarNamesValid();
    DollarFileNames();
    assert Remove(names, "X") == ["$$Icon"];
    DollarNoComponents(names);
    DollarCoreReplaced();
    DollarNoComponents(["$Icon"]);
    UnfoldNewImport(DollarFile(), "X", Statement(["$Icon"], CoreModule));
  }

  lemma DollarFileNames()
    ensures Exec(Matcher(CoreModule), DollarFile()) == Some(Match(0, 8, 10 + |Join(["$$Icon", "X"], ", ")|, |DollarFile()|))
    ensures CoreNames(DollarFile()) == ["$$Icon", "X"]
  {
    DollarNamesValid();
    LeadingStatement(["$$Icon", "X"], CoreModule, "");
    assert DollarFile() + "" == DollarFile();
  }

  /** The core replace on the file turns its `$$` into `$`. */
  lemma DollarCoreReplaced()
    ensures ReplaceAll(Matcher(CoreModule), DollarFile(), Rebuilt(["$$Icon"], CoreModule)) == Statement(["$Icon"], CoreModule)
  {
    var s := DollarFile();
    var template := Rebuilt(["$$Icon"], CoreModule);
    DollarFileNames();
    var m := Exec(Matcher(CoreModule), s).value;
    ModulesApart();
    assert template == Statement(["$$Icon"], CoreModule);
    DollarSpelling();
    DoubleDollarCollapses("Icon", CoreModule, s, m);
    assert Substitute(template, s, m) == Statement(["$Icon"], CoreModule);
    WholeMatchReplaced(Matcher(CoreModule), s, template);
  }

  lemma DollarSpelling()
    ensures "$$" + "Icon" == "$$Icon" && "$" + "Icon" == "$Icon" && NoDollar("Icon")
  {
  }

  /** `replace` on a text that is one whole match: the substituted template. */
  lemma WholeMatchReplaced(f: Sticky, s: string, template: string)
    requires Exec(f, s).Some? && Exec(f, s).value.start == 0 && Exec(f, s).value.end == |s|
    ensures ReplaceAll(f, s, template) == Substitute(template, s, Exec(f, s).value)
  {
    var m := Exec(f, s).value;
    ReplaceFromStep(f, s, 0, template);
    ReplaceAtEnd(f, s, template);
    assert s[0..m.start] == [];
  }

  lemma DollarNoComponents(names: seq<string>)
    requires ValidNames(names) && names != []
    ensures Exec(Matcher(ComponentsModule), Statement(names, CoreModule)).None?
  {
    var t := "" + Rebuilt(names, CoreModule) + "";
    ModulesApart();
    SpliceNoMatch("", names, CoreModule, ComponentsModule, 45, "");
    ExecNone(Matcher(ComponentsModule), t);
    assert t == Statement(names, CoreModule);
  }

  /** Corrected: the remaining name is written back as it was read. */
  lemma DollarNameKept()
    ensures UpdateImportsInFileFixed(DollarFile(), "X")
              == Outcome(Statement(["X"], ComponentsModule) + "\n" + Statement(["$$Icon"], CoreModule), true)
  {
    hide ParseNames, Trim, Substitute, MatchPrefix, Run, UpdateImportsInFileFixed, FirstMatchFrom, MatchAt;
    var s := DollarFile();
    DollarNamesValid();
    LeadingStatement(["$$Icon", "X"], CoreModule, "");
    assert s + "" == s;
    assert Remove(["$$Icon", "X"], "X") == ["$$Icon"];
    DollarNoComponents(["$$Icon", "X"]);
    assert s[..0] == [] && ImportFree([]);
    RelocateFixed(s, "X");
    assert s[|s|..] == [];
  }
}
