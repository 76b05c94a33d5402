/** `updateImportsInFile`: moves one named import from the design-system core package's import
    statement to the components package's, as text surgery on the file content. Reading and
    writing the file are left to the caller: the model maps the old content to the new one and
    says whether the file is written. */
module ImportRewrite {
  import opened Wrappers
  import opened Text
  import opened RegExpSearch
  import opened ImportPattern

  /** `text.split(",").map((i) => i.trim()).filter(Boolean)`. */
  function ParseNames(text: string): (r: seq<string>)
    ensures forall i :: 0 <= i < |r| ==> r[i] != [] && Trimmed(r[i]) && ',' !in r[i]
  {
    Clean(Split(text, ','))
  }

  /** Trims every piece and drops the ones left empty, keeping the order. */
  function Clean(pieces: seq<string>): (r: seq<string>)
    requires forall i :: 0 <= i < |pieces| ==> ',' !in pieces[i]
    ensures forall i :: 0 <= i < |r| ==> r[i] != [] && Trimmed(r[i]) && ',' !in r[i]
    ensures |r| <= |pieces|
    decreases |pieces|
  {
    if pieces == [] then []
    else
      var p := Trim(pieces[0]);
      var rest := Clean(pieces[1..]);
      if p == [] then rest
      else
        assert ',' !in p by {
          if ',' in p {
            TrimKeeps(pieces[0], ',');
          }
        }
        [p] + rest
  }

  /** What a well-formed entry of a name list looks like: what `ParseNames` can return, and
      free of the `}` that would end the brace text. */
  predicate ValidName(x: string) {
    x != [] && Trimmed(x) && ',' !in x && '}' !in x
  }

  predicate ValidNames(names: seq<string>) {
    forall i :: 0 <= i < |names| ==> ValidName(names[i])
  }

  /** `list.filter((i) => i !== x)`. */
  function Remove(xs: seq<string>, x: string): (r: seq<string>)
    ensures x !in r
    ensures forall y :: y in r <==> y in xs && y != x
    ensures |r| <= |xs|
    decreases |xs|
  {
    if xs == [] then []
    else if xs[0] == x then Remove(xs[1..], x)
    else [xs[0]] + Remove(xs[1..], x)
  }

  /** `if (!list.includes(x)) list.push(x)`. */
  function AppendIfAbsent(xs: seq<string>, x: string): (r: seq<string>)
    ensures x in r
    ensures forall y :: y in r <==> y in xs || y == x
    ensures |xs| <= |r| <= |xs| + 1 && r[..|xs|] == xs
  {
    if x in xs then xs else xs + [x]
  }

  /** The statement the script writes: `import { a, b } from "<spec>";`, double quotes and `, `
      separators whatever the original looked like. */
  function Statement(names: seq<string>, spec: string): string {
    "import { " + Join(names, ", ") + " } from \"" + spec + "\";"
  }

  /** The replacement for a rebuilt list: its statement, or nothing when the list is empty. */
  function Rebuilt(names: seq<string>, spec: string): string {
    if |names| > 0 then Statement(names, spec) else ""
  }

  /** The name list of an `exec` result; none when there is no match. */
  function NamesOf(s: string, m: Option<Match>): seq<string>
    requires m.Some? ==> WellPlaced(m.value, |s|)
  {
    match m
    case None => []
    case Some(mt) => ParseNames(s[mt.namesStart..mt.namesEnd])
  }

  /** The first core import statement of s and its name list. */
  function CoreNames(s: string): seq<string> {
    NamesOf(s, Exec(Matcher(CoreModule), s))
  }

  function ComponentsNames(s: string): seq<string> {
    NamesOf(s, Exec(Matcher(ComponentsModule), s))
  }

  /** The new content and whether the file is written (the function's return value). */
  datatype Outcome = Outcome(content: string, changed: bool)

  /** `updateImportsInFile(filepath, symbol)` on a file holding `content`. */
  function UpdateImportsInFile(content: string, symbol: string): (r: Outcome)
    ensures r.changed <==> symbol in CoreNames(content)
    ensures !r.changed ==> r.content == content
    ensures r.changed && Exec(Matcher(ComponentsModule), content).None? ==>
              Statement([symbol], ComponentsModule) + "\n" <= r.content
  {
    var coreMatch := Exec(Matcher(CoreModule), content);
    var componentsMatch := Exec(Matcher(ComponentsModule), content);
    var coreImports := NamesOf(content, coreMatch);
    var componentsImports := NamesOf(content, componentsMatch);
    if symbol !in coreImports then Outcome(content, false)
    else
      var core := Remove(coreImports, symbol);
      var components := AppendIfAbsent(componentsImports, symbol);
      var afterCore := ReplaceAll(Matcher(CoreModule), content, Rebuilt(core, CoreModule));
      var afterComponents := ReplaceAll(Matcher(ComponentsModule), afterCore, Rebuilt(components, ComponentsModule));
      if componentsMatch.None? && |components| > 0 then
        Outcome(Statement(components, ComponentsModule) + "\n" + afterComponents, true)
      else Outcome(afterComponents, true)
  }

  /** `}` cannot occur in a list joined from names free of it. */
  lemma {:induction false} JoinFree(names: seq<string>, c: char)
    requires forall i :: 0 <= i < |names| ==> c !in names[i]
    requires c != ',' && c != ' '
    ensures c !in Join(names, ", ")
    decreases |names|
  {
    if |names| > 1 {
      JoinFree(names[1..], c);
      assert Join(names, ", ") == names[0] + ", " + Join(names[1..], ", ");
    }
  }

  /** Where each part of `Statement(names, spec)` lies: with J the joined names, the brace text
      is s[8..close] with close = 10 + |J|, `from` starts at close + 2, the quotes are at
      close + 7 and close + 8 + |spec|, and the statement ends after its `;`. */
  lemma StatementLayout(names: seq<string>, spec: string, rest: string)
    requires ValidNames(names)
    ensures var s := Statement(names, spec) + rest;
            var close := 10 + |Join(names, ", ")|;
            && |Statement(names, spec)| == close + 10 + |spec|
            && s[..|Statement(names, spec)|] == Statement(names, spec) && s[|Statement(names, spec)|..] == rest
            && HasAt(s, 0, "import") && s[6] == ' ' && s[7] == '{' && s[8] == ' '
            && s[8..close] == " " + Join(names, ", ") + " "
            && '}' !in s[8..close] && '}' !in s[..close] && s[close] == '}' && s[close + 1] == ' '
            && HasAt(s, close + 2, "from") && s[close + 6] == ' ' && s[close + 7] == '"'
            && HasAt(s, close + 8, spec) && s[close + 8 + |spec|] == '"' && s[close + 9 + |spec|] == ';'
  {
    StatementHeadLayout(names, spec, rest);
    StatementTailLayout(names, spec, rest);
  }

  /** The statement up to its `}`. */
  lemma StatementHeadLayout(names: seq<string>, spec: string, rest: string)
    requires ValidNames(names)
    ensures var s := Statement(names, spec) + rest;
            var close := 10 + |Join(names, ", ")|;
            && |Statement(names, spec)| == close + 10 + |spec|
            && s[..|Statement(names, spec)|] == Statement(names, spec) && s[|Statement(names, spec)|..] == rest
            && HasAt(s, 0, "import") && s[6] == ' ' && s[7] == '{' && s[8] == ' '
            && s[8..close] == " " + Join(names, ", ") + " "
            && '}' !in s[8..close] && '}' !in s[..close] && s[close] == '}'
  {
    hide ParseNames, MatchPrefix, Run;
    var j := Join(names, ", ");
    var stmt := Statement(names, spec);
    var s := stmt + rest;
    var close := 10 + |j|;
    JoinFree(names, '}');
    assert stmt == "import { " + j + " } from \"" + spec + "\";";
    assert s[..|stmt|] == stmt && s[|stmt|..] == rest;
    assert s[..6] == "import";
    assert s[8..close] == " " + j + " ";
    assert s[..close] == "import {" + s[8..close];
  }

  /** The statement after its `}`: ` from "<spec>";`. */
  lemma StatementTailLayout(names: seq<string>, spec: string, rest: string)
    ensures var s := Statement(names, spec) + rest;
            var close := 10 + |Join(names, ", ")|;
            && close + 10 + |spec| <= |s|
            && s[close + 1] == ' ' && HasAt(s, close + 2, "from") && s[close + 6] == ' ' && s[close + 7] == '"'
            && HasAt(s, close + 8, spec) && s[close + 8 + |spec|] == '"' && s[close + 9 + |spec|] == ';'
  {
    hide ParseNames, MatchPrefix, Run, Statement;
    var close := 10 + |Join(names, ", ")|;
    var tail := " from \"" + spec + "\";";
    var s := Statement(names, spec) + rest;
    StatementParts(names, spec, rest);
    var u := tail + rest;
    assert s[close + 1..] == u;
    assert u[..7] == " from \"" && u[7..7 + |spec|] == spec && u[7 + |spec|..9 + |spec|] == "\";";
  }

  /** A statement the script writes is matched, at its start, by the pattern of its own module:
      the match covers the whole statement and captures the text between its braces. */
  lemma StatementMatches(names: seq<string>, spec: string, rest: string)
    requires ValidNames(names)
    ensures var s := Statement(names, spec) + rest;
            MatchAt(Matcher(spec), s, 0) == Some(Match(0, 8, 10 + |Join(names, ", ")|, |Statement(names, spec)|))
  {
    var s := Statement(names, spec) + rest;
    StatementHead(names, spec, rest);
    StatementTail(names, spec, rest);
    assert s[0..] == s;
  }

  /** The matcher reads `import {`, the names and `}` of a written statement. */
  lemma StatementHead(names: seq<string>, spec: string, rest: string)
    requires ValidNames(names)
    ensures var s := Statement(names, spec) + rest;
            var close := 10 + |Join(names, ", ")|;
            close + 1 <= |s| && Run(s, 0, Pattern(spec), 0, 0) == Run(s, close + 1, Pattern(spec)[3..], 8, close)
  {
    var s := Statement(names, spec) + rest;
    var close := 10 + |Join(names, ", ")|;
    StatementLayout(names, spec, rest);
    var p := Pattern(spec);
    SkipSpacesAt(s, 6, 7);
    FindCloseAt(s, 8, close);
    assert Run(s, 0, p, 0, 0) == Run(s, 6, p[1..], 0, 0);
    assert Run(s, 6, p[1..], 0, 0) == Run(s, 7, p[2..], 0, 0);
  }

  /** The matcher reads the rest of a written statement, `from "<spec>";`, up to its end. */
  lemma StatementTail(names: seq<string>, spec: string, rest: string)
    requires ValidNames(names)
    ensures var s := Statement(names, spec) + rest;
            var close := 10 + |Join(names, ", ")|;
            close + 1 <= |s| && Run(s, close + 1, Pattern(spec)[3..], 8, close) == Some(Match(0, 8, close, |Statement(names, spec)|))
  {
    StatementLayout(names, spec, rest);
    StatementFrom(names, spec, rest);
    StatementQuoted(names, spec, rest);
  }

  /** The tail of a written statement up to its opening quote. */
  lemma StatementFrom(names: seq<string>, spec: string, rest: string)
    requires ValidNames(names)
    ensures var s := Statement(names, spec) + rest;
            var close := 10 + |Join(names, ", ")|;
            close + 7 <= |s| && Run(s, close + 1, Pattern(spec)[3..], 8, close) == Run(s, close + 7, Pattern(spec)[6..], 8, close)
  {
    hide ParseNames, MatchPrefix;
    var s := Statement(names, spec) + rest;
    var close := 10 + |Join(names, ", ")|;
    StatementLayout(names, spec, rest);
    var p := Pattern(spec);
    SkipSpacesAt(s, close + 1, close + 2);
    SkipSpacesAt(s, close + 6, close + 7);
    assert Run(s, close + 1, p[3..], 8, close) == Run(s, close + 2, p[4..], 8, close);
    assert Run(s, close + 2, p[4..], 8, close) == Run(s, close + 6, p[5..], 8, close);
    assert Run(s, close + 6, p[5..], 8, close) == Run(s, close + 7, p[6..], 8, close);
  }

  /** The quoted module of a written statement and its `;`. */
  lemma StatementQuoted(names: seq<string>, spec: string, rest: string)
    requires ValidNames(names)
    ensures var s := Statement(names, spec) + rest;
            var close := 10 + |Join(names, ", ")|;
            close + 7 <= |s| && Run(s, close + 7, Pattern(spec)[6..], 8, close) == Some(Match(0, 8, close, |Statement(names, spec)|))
  {
    hide ParseNames, MatchPrefix;
    var s := Statement(names, spec) + rest;
    var close := 10 + |Join(names, ", ")|;
    var n := |Statement(names, spec)|;
    StatementLayout(names, spec, rest);
    var p := Pattern(spec);
    assert Run(s, close + 7, p[6..], 8, close) == Run(s, close + 8, p[7..], 8, close);
    assert Run(s, close + 8, p[7..], 8, close) == Run(s, close + 8 + |spec|, p[8..], 8, close);
    assert Run(s, close + 8 + |spec|, p[8..], 8, close) == Run(s, close + 9 + |spec|, p[9..], 8, close);
    assert Run(s, close + 9 + |spec|, p[9..], 8, close) == Run(s, n, p[10..], 8, close);
    assert p[10..] == [];
  }

  /** The pieces `split(",")` cuts `" " + Join(names, ", ") + " "` into. */
  function PadPieces(names: seq<string>): (r: seq<string>)
    requires names != []
    ensures |r| == |names|
    decreases |names|
  {
    if |names| == 1 then [" " + names[0] + " "] else [" " + names[0]] + PadPieces(names[1..])
  }

  lemma {:induction false} JoinPadPieces(names: seq<string>)
    requires names != []
    ensures Join(PadPieces(names), ",") == " " + Join(names, ", ") + " "
    decreases |names|
  {
    if |names| > 1 {
      JoinPadPieces(names[1..]);
      var pieces := PadPieces(names);
      assert pieces[1..] == PadPieces(names[1..]);
      assert Join(pieces, ",") == " " + names[0] + "," + Join(PadPieces(names[1..]), ",");
    }
  }

  lemma {:induction false} CleanPadPieces(names: seq<string>)
    requires names != [] && ValidNames(names)
    ensures forall i :: 0 <= i < |PadPieces(names)| ==> ',' !in PadPieces(names)[i]
    ensures Clean(PadPieces(names)) == names
    decreases |names|
  {
    hide Trim;
    var pieces := PadPieces(names);
    if |names| == 1 {
      TrimPadded(" ", names[0], " ");
      assert ',' !in pieces[0];
    } else {
      CleanPadPieces(names[1..]);
      assert pieces[1..] == PadPieces(names[1..]);
      TrimPadded(" ", names[0], "");
      assert " " + names[0] + "" == pieces[0];
      assert ',' !in pieces[0];
      assert names == [names[0]] + names[1..];
    }
  }

  /** Parsing inverts the rebuilt statement's list: the brace text of `Statement(names, spec)`
      parses back to `names`. */
  lemma ParseNamesRoundTrip(names: seq<string>, text: string)
    requires names != [] && ValidNames(names)
    requires text == " " + Join(names, ", ") + " "
    ensures ParseNames(text) == names
  {
    JoinPadPieces(names);
    CleanPadPieces(names);
    SplitJoin(PadPieces(names), ',');
  }

  /** No match of another module's pattern starts in a written statement up to its `}`: any
      such match would read the same braces, then expect its own module where `spec` is. */
  lemma StatementOtherBefore(names: seq<string>, spec: string, other: string, k: nat, rest: string, p: nat)
    requires ValidNames(names)
    requires k < |spec| && k < |other| && spec[k] != other[k]
    requires p <= 10 + |Join(names, ", ")|
    ensures MatchAt(Matcher(other), Statement(names, spec) + rest, p).None?
  {
    var s := Statement(names, spec) + rest;
    var close := 10 + |Join(names, ", ")|;
    StatementLayout(names, spec, rest);
    var t := s[p..];
    if MatchPrefix(t, other).Some? {
      var c := close - p;
      assert t[..c] == s[p..close];
      forall i | 0 <= i < c
        ensures t[..c][i] != '}'
      {
        assert t[..c][i] == s[..close][p + i];
      }
      assert t[c] == '}';
      SameBraces(t, other, c);
      assert t[c + 1] == ' ' && t[c + 2] == 'f' && t[c + 6] == ' ' && t[c + 7] == '"' by {
        assert s[close + 2..close + 6][0] == 'f';
      }
      ModuleAfterClose(t, other, c);
      assert false;
    }
    assert Matcher(other)(t) == MatchPrefix(t, other);
  }

  /** A match at index 0 reads its brace text up to the first `}` of t. */
  lemma SameBraces(t: string, spec: string, c: nat)
    requires MatchPrefix(t, spec).Some?
    requires c < |t| && t[c] == '}' && '}' !in t[..c]
    ensures MatchPrefix(t, spec).value.namesEnd == c
  {
    var brace, from, quote := MatchPrefixShape(t, spec);
    forall i | 0 <= i < 6
      ensures t[i] != '}'
    {
      assert t[i] == t[..6][i];
    }
    assert brace < c;
    forall i | brace + 1 <= i < c
      ensures t[i] != '}'
    {
      assert t[..c][i] == t[i];
    }
    FindCloseAt(t, brace + 1, c);
  }

  /** After the brace text and ` from "`, a match at index 0 reads its module. */
  lemma ModuleAfterClose(t: string, spec: string, c: nat)
    requires MatchPrefix(t, spec).Some? && MatchPrefix(t, spec).value.namesEnd == c
    requires c + 8 <= |t| && t[c + 1] == ' ' && t[c + 2] == 'f' && t[c + 6] == ' ' && t[c + 7] == '"'
    ensures HasAt(t, c + 8, spec)
  {
    var brace, from, quote := MatchPrefixShape(t, spec);
    SkipSpacesAt(t, c + 1, c + 2);
    SkipSpacesAt(t, c + 6, c + 7);
  }

  /** Another module's pattern matches nowhere inside a written statement: up to the `}` it
      would need its own module after the same braces, and the text after the `}` holds no
      `import`. */
  lemma StatementOtherModule(names: seq<string>, spec: string, other: string, k: nat, rest: string)
    requires ValidNames(names) && ImportFree(spec)
    requires k < |spec| && k < |other| && spec[k] != other[k]
    ensures forall p :: 0 <= p < |Statement(names, spec)| ==> MatchAt(Matcher(other), Statement(names, spec) + rest, p).None?
  {
    forall p | 0 <= p < |Statement(names, spec)|
      ensures MatchAt(Matcher(other), Statement(names, spec) + rest, p).None?
    {
      if p <= 10 + |Join(names, ", ")| {
        StatementOtherBefore(names, spec, other, k, rest, p);
      } else {
        StatementOtherAfter(names, spec, other, rest, p);
      }
    }
  }

  /** No match of any pattern starts in ` from "<spec>";`, the part of a statement after its `}`. */
  lemma StatementOtherAfter(names: seq<string>, spec: string, other: string, rest: string, p: nat)
    requires ImportFree(spec)
    requires 10 + |Join(names, ", ")| < p < |Statement(names, spec)|
    ensures MatchAt(Matcher(other), Statement(names, spec) + rest, p).None?
  {
    hide MatchPrefix, ParseNames, Statement;
    var tail := " from \"" + spec + "\";";
    var head := "import { " + Join(names, ", ") + " }";
    StatementParts(names, spec, rest);
    TailImportFree(spec);
    ImportFreeNoMatch(tail, rest, other);
    MatchAtLocal(Matcher(other), head, tail + rest, p - |head|);
  }

  /** A statement is its head up to the `}` followed by its tail. */
  lemma StatementParts(names: seq<string>, spec: string, rest: string)
    ensures Statement(names, spec) + rest
              == "import { " + Join(names, ", ") + " }" + ((" from \"" + spec + "\";") + rest)
    ensures |"import { " + Join(names, ", ") + " }"| == 11 + |Join(names, ", ")|
  {
  }

  lemma TailImportFree(spec: string)
    requires ImportFree(spec)
    ensures ImportFree(" from \"" + spec + "\";")
  {
    ImportFreeConcat(" from \"", spec);
    ImportFreeConcat(" from \"" + spec, "\";");
  }


  /** Text in which `i` never occurs is import-free. */
  lemma ImportFreeWithoutI(x: string)
    requires 'i' !in x
    ensures ImportFree(x)
  {
    forall k | 0 <= k < |x|
      ensures x[k] != 'i'
    {
      assert x[k] in x;
    }
  }

  /** The two hard-coded modules: neither holds the start of `import` or a `$`, and they first
      differ at index 45. */
  lemma ModulesApart()
    ensures ImportFree(CoreModule) && ImportFree(ComponentsModule)
    ensures NoDollar(CoreModule) && NoDollar(ComponentsModule)
    ensures 45 < |CoreModule| && 45 < |ComponentsModule| && CoreModule[45] != ComponentsModule[45]
  {
    FamilyClean();
    assert ImportFree("core") && ImportFree("components");
    assert NoDollar("core") && NoDollar("components");
    ImportFreeConcat(Family, "core");
    ImportFreeConcat(Family, "components");
    FreeConcat(Family, "core", '$');
    FreeConcat(Family, "components", '$');
    assert |Family| == 43;
    assert CoreModule[45] == "core"[2];
    assert ComponentsModule[45] == "components"[2];
  }

  /** The shared prefix of the two modules holds neither the start of `import` nor a `$`. */
  lemma FamilyClean()
    ensures ImportFree(Family) && NoDollar(Family)
  {
    assert ImportFree(Scope) && ImportFree("nx-lib-design-system-");
    ImportFreeConcat(Scope, "nx-lib-design-system-");
    assert '$' !in Scope && '$' !in "nx-lib-design-system-";
    FreeConcat(Scope, "nx-lib-design-system-", '$');
  }

  /** A character absent from two strings is absent from their concatenation. */
  lemma FreeConcat(a: string, b: string, c: char)
    requires c !in a && c !in b
    ensures c !in a + b
  {
  }

  /** Every entry of `names` is free of the character c. */
  predicate NamesFreeOf(names: seq<string>, c: char) {
    forall i :: 0 <= i < |names| ==> c !in names[i]
  }

  lemma {:induction false} CleanFreeOf(pieces: seq<string>, c: char)
    requires forall i :: 0 <= i < |pieces| ==> ',' !in pieces[i]
    requires forall i :: 0 <= i < |pieces| ==> c !in pieces[i]
    ensures NamesFreeOf(Clean(pieces), c)
    decreases |pieces|
  {
    if pieces != [] {
      CleanFreeOf(pieces[1..], c);
      if c in Trim(pieces[0]) {
        TrimKeeps(pieces[0], c);
      }
    }
  }

  /** A character absent from the brace text is absent from every parsed name. */
  lemma ParseNamesFreeOf(text: string, c: char)
    requires c !in text
    ensures NamesFreeOf(ParseNames(text), c)
  {
    var pieces := Split(text, ',');
    SplitChars(text, ',', c);
    CleanFreeOf(pieces, c);
  }

  /** The names of a match are well-formed entries: the brace text holds no `}`. */
  lemma NamesOfValid(s: string, m: Option<Match>)
    requires m.Some? ==> WellPlaced(m.value, |s|) && Braced(s, m.value.namesStart, m.value.namesEnd)
    ensures ValidNames(NamesOf(s, m))
  {
    if m.Some? {
      ParseNamesFreeOf(s[m.value.namesStart..m.value.namesEnd], '}');
    }
  }

  /** Removing an entry keeps every property each entry had. */
  lemma RemoveKeeps(xs: seq<string>, x: string, c: char)
    requires ValidNames(xs) && NamesFreeOf(xs, c)
    ensures ValidNames(Remove(xs, x)) && NamesFreeOf(Remove(xs, x), c)
  {
    var r := Remove(xs, x);
    forall i | 0 <= i < |r|
      ensures ValidName(r[i]) && c !in r[i]
    {
      assert r[i] in xs;
      var j :| 0 <= j < |xs| && xs[j] == r[i];
    }
  }

  /** A written statement holds no `$` when neither its names nor its module do. */
  lemma StatementNoDollar(names: seq<string>, spec: string)
    requires NamesFreeOf(names, '$') && NoDollar(spec)
    ensures NoDollar(Rebuilt(names, spec))
  {
    JoinFree(names, '$');
  }

  /** Absence of matches in the text after a match carries over to that text on its own. */
  lemma NoMatchInRest(f: Sticky, s: string, e: nat)
    requires e <= |s|
    requires forall q :: e <= q <= |s| ==> MatchAt(f, s, q).None?
    ensures forall q :: 0 <= q <= |s| - e ==> MatchAt(f, s[e..], q).None?
  {
    forall q | 0 <= q <= |s| - e
      ensures MatchAt(f, s[e..], q).None?
    {
      assert s == s[..e] + s[e..];
      MatchAtLocal(f, s[..e], s[e..], q);
    }
  }

  /** Text made of an import-free part, a rebuilt statement of module `spec` and a part without
      matches of module `other` holds no match of `other`. */
  lemma SpliceNoMatch(pre: string, names: seq<string>, spec: string, other: string, k: nat, rest: string)
    requires ImportFree(pre) && ValidNames(names) && ImportFree(spec)
    requires k < |spec| && k < |other| && spec[k] != other[k]
    requires forall q :: 0 <= q <= |rest| ==> MatchAt(Matcher(other), rest, q).None?
    ensures forall p :: 0 <= p <= |pre + Rebuilt(names, spec) + rest| ==>
              MatchAt(Matcher(other), pre + Rebuilt(names, spec) + rest, p).None?
  {
    var r := Rebuilt(names, spec);
    SpliceFront(pre, r + rest, other);
    if r != [] {
      StatementOtherModule(names, spec, other, k, rest);
    }
    SpliceMiddle(pre, r, rest, other);
    SpliceBack(pre + r, rest, other);
    assert pre + (r + rest) == pre + r + rest;
  }

  lemma SpliceFront(pre: string, rest: string, other: string)
    requires ImportFree(pre)
    ensures forall p :: 0 <= p < |pre| ==> MatchAt(Matcher(other), pre + rest, p).None?
  {
    ImportFreeNoMatch(pre, rest, other);
  }

  lemma SpliceMiddle(pre: string, r: string, rest: string, other: string)
    requires forall p :: 0 <= p < |r| ==> MatchAt(Matcher(other), r + rest, p).None?
    ensures forall p :: |pre| <= p < |pre| + |r| ==> MatchAt(Matcher(other), pre + (r + rest), p).None?
  {
    forall p | |pre| <= p < |pre| + |r|
      ensures MatchAt(Matcher(other), pre + (r + rest), p).None?
    {
      MatchAtLocal(Matcher(other), pre, r + rest, p - |pre|);
    }
  }

  lemma SpliceBack(pre: string, rest: string, other: string)
    requires forall q :: 0 <= q <= |rest| ==> MatchAt(Matcher(other), rest, q).None?
    ensures forall p :: |pre| <= p <= |pre + rest| ==> MatchAt(Matcher(other), pre + rest, p).None?
  {
    forall p | |pre| <= p <= |pre + rest|
      ensures MatchAt(Matcher(other), pre + rest, p).None?
    {
      MatchAtLocal(Matcher(other), pre, rest, p - |pre|);
    }
  }

  /** The brace text of the first match of a module holds no `}`. */
  lemma ExecBraced(s: string, spec: string)
    requires Exec(Matcher(spec), s).Some?
    ensures var m := Exec(Matcher(spec), s).value;
            WellPlaced(m, |s|) && Braced(s, m.namesStart, m.namesEnd)
  {
    var m := Exec(Matcher(spec), s).value;
    var t := s[m.start..];
    assert Matcher(spec)(t) == MatchPrefix(t, spec);
    assert t[m.namesStart - m.start..m.namesEnd - m.start] == s[m.namesStart..m.namesEnd];
  }

  /** The names of the first core import are well-formed entries, and so are those left after a removal. */
  lemma CoreNamesValid(content: string, symbol: string)
    requires Exec(Matcher(CoreModule), content).Some?
    ensures ValidNames(CoreNames(content)) && ValidNames(Remove(CoreNames(content), symbol))
  {
    ExecBraced(content, CoreModule);
    NamesOfValid(content, Exec(Matcher(CoreModule), content));
    RemoveKeeps(CoreNames(content), symbol, '}');
  }

  /** What the first core match of a file yields once its hypotheses hold: well-formed names
      free of `$`, and a rebuilt statement free of `$`. */
  lemma CoreNamesClean(content: string, symbol: string)
    requires Exec(Matcher(CoreModule), content).Some?
    requires var m := Exec(Matcher(CoreModule), content).value;
             '$' !in content[m.namesStart..m.namesEnd]
    ensures ValidNames(CoreNames(content)) && NamesFreeOf(CoreNames(content), '$')
    ensures ValidNames(Remove(CoreNames(content), symbol))
    ensures NoDollar(Rebuilt(Remove(CoreNames(content), symbol), CoreModule))
  {
    var m := Exec(Matcher(CoreModule), content).value;
    ExecBraced(content, CoreModule);
    NamesOfValid(content, Some(m));
    ParseNamesFreeOf(content[m.namesStart..m.namesEnd], '$');
    RemoveKeeps(CoreNames(content), symbol, '$');
    ModulesApart();
    StatementNoDollar(Remove(CoreNames(content), symbol), CoreModule);
  }

  /** The text after the core import once the core import is rewritten, in a file with one core
      import and nothing before it that could start an import. */
  lemma CoreRewritten(content: string, symbol: string)
    requires Exec(Matcher(CoreModule), content).Some?
    requires var m := Exec(Matcher(CoreModule), content).value;
             && FirstMatchFrom(Matcher(CoreModule), content, m.end).None?
             && '$' !in content[m.namesStart..m.namesEnd]
    ensures var m := Exec(Matcher(CoreModule), content).value;
            ReplaceAll(Matcher(CoreModule), content, Rebuilt(Remove(CoreNames(content), symbol), CoreModule))
              == content[..m.start] + Rebuilt(Remove(CoreNames(content), symbol), CoreModule) + content[m.end..]
  {
    CoreNamesClean(content, symbol);
    ReplaceSingle(Matcher(CoreModule), content, Rebuilt(Remove(CoreNames(content), symbol), CoreModule));
  }

  /** In a file with exactly one core import, not preceded by anything that could start an import,
      no components import, and no `$` in the names: moving a listed symbol rewrites the core
      import in place, with the symbol gone (or deletes it when nothing is left), and puts a new
      components import of just the symbol, and a line break, in front of everything. */
  lemma RelocateIntoNewImport(content: string, symbol: string)
    requires Exec(Matcher(CoreModule), content).Some?
    requires Exec(Matcher(ComponentsModule), content).None?
    requires var m := Exec(Matcher(CoreModule), content).value;
             && ImportFree(content[..m.start])
             && FirstMatchFrom(Matcher(CoreModule), content, m.end).None?
             && '$' !in content[m.namesStart..m.namesEnd]
    requires symbol in CoreNames(content)
    ensures var m := Exec(Matcher(CoreModule), content).value;
            UpdateImportsInFile(content, symbol)
              == Outcome(Statement([symbol], ComponentsModule) + "\n" + content[..m.start]
                         + Rebuilt(Remove(CoreNames(content), symbol), CoreModule) + content[m.end..], true)
  {
    hide ParseNames, Trim, MatchPrefix, Substitute, Statement, Remove;
    var m := Exec(Matcher(CoreModule), content).value;
    var core := Remove(CoreNames(content), symbol);
    var afterCore := content[..m.start] + Rebuilt(core, CoreModule) + content[m.end..];
    assert ComponentsNames(content) == [];
    assert AppendIfAbsent([], symbol) == [symbol];
    CoreRewritten(content, symbol);
    assert ReplaceAll(Matcher(CoreModule), content, Rebuilt(core, CoreModule)) == afterCore;
    NoComponentsAfterCore(content, symbol);
    ReplaceNone(Matcher(ComponentsModule), afterCore, Rebuilt([symbol], ComponentsModule));
  }

  /** Rewriting the core import creates no components import, when nothing before it could start
      an import and the file had none. */
  lemma NoComponentsAfterCore(content: string, symbol: string)
    requires Exec(Matcher(CoreModule), content).Some?
    requires var m := Exec(Matcher(CoreModule), content).value;
             && ImportFree(content[..m.start])
             && '$' !in content[m.namesStart..m.namesEnd]
    requires forall q :: Exec(Matcher(CoreModule), content).value.end <= q <= |content| ==>
               MatchAt(Matcher(ComponentsModule), content, q).None?
    ensures var m := Exec(Matcher(CoreModule), content).value;
            Exec(Matcher(ComponentsModule),
                 content[..m.start] + Rebuilt(Remove(CoreNames(content), symbol), CoreModule) + content[m.end..]).None?
  {
    var m := Exec(Matcher(CoreModule), content).value;
    var core := Remove(CoreNames(content), symbol);
    CoreNamesClean(content, symbol);
    ModulesApart();
    NoMatchInRest(Matcher(ComponentsModule), content, m.end);
    SpliceNoMatch(content[..m.start], core, CoreModule, ComponentsModule, 45, content[m.end..]);
  }

  /** Before a rebuilt statement preceded by text without matches, the first match of its module
      is the statement itself and its names parse back to the list it was written from; with an
      empty list there is no statement, and without matches after it there is no match at all. */
  lemma NamesAfterRebuild(lead: string, names: seq<string>, spec: string, rest: string)
    requires ValidNames(names)
    requires forall p :: 0 <= p < |lead| ==> MatchAt(Matcher(spec), lead + Rebuilt(names, spec) + rest, p).None?
    requires names == [] ==> forall q :: 0 <= q <= |rest| ==> MatchAt(Matcher(spec), rest, q).None?
    ensures var s := lead + Rebuilt(names, spec) + rest;
            NamesOf(s, Exec(Matcher(spec), s)) == names
  {
    if names == [] {
      assert lead + Rebuilt(names, spec) + rest == lead + rest;
      NamesAfterEmpty(lead, spec, rest);
    } else {
      assert Rebuilt(names, spec) == Statement(names, spec);
      NamesAfterStatement(lead, names, spec, rest);
    }
  }

  lemma NamesAfterEmpty(lead: string, spec: string, rest: string)
    requires forall p :: 0 <= p < |lead| ==> MatchAt(Matcher(spec), lead + rest, p).None?
    requires forall q :: 0 <= q <= |rest| ==> MatchAt(Matcher(spec), rest, q).None?
    ensures Exec(Matcher(spec), lead + rest).None?
  {
    SpliceBack(lead, rest, spec);
  }

  lemma NamesAfterStatement(lead: string, names: seq<string>, spec: string, rest: string)
    requires ValidNames(names) && names != []
    requires forall p :: 0 <= p < |lead| ==> MatchAt(Matcher(spec), lead + Statement(names, spec) + rest, p).None?
    ensures var s := lead + Statement(names, spec) + rest;
            NamesOf(s, Exec(Matcher(spec), s)) == names
  {
    var s := lead + Statement(names, spec) + rest;
    var close := 10 + |Join(names, ", ")|;
    hide ParseNames;
    var n := |Statement(names, spec)|;
    StatementFound(lead, names, spec, rest);
    var m := Exec(Matcher(spec), s);
    assert m == Some(Match(|lead|, |lead| + 8, |lead| + close, |lead| + n));
    StatementParses(lead, names, spec, rest);
    NamesOfSome(s, |lead|, close, n, names);
  }

  /** The brace text of a rebuilt statement, wherever it stands, parses back to its names. */
  lemma StatementParses(lead: string, names: seq<string>, spec: string, rest: string)
    requires ValidNames(names) && names != []
    ensures var s := lead + Statement(names, spec) + rest;
            var close := 10 + |Join(names, ", ")|;
            8 < close < |Statement(names, spec)| && |lead| + |Statement(names, spec)| <= |s|
            && ParseNames(s[|lead| + 8..|lead| + close]) == names
  {
    var s := lead + Statement(names, spec) + rest;
    var close := 10 + |Join(names, ", ")|;
    StatementSlice(lead, names, spec, rest);
    ParseNamesRoundTrip(names, s[|lead| + 8..|lead| + close]);
  }

  lemma NamesOfSome(s: string, a: nat, close: nat, n: nat, names: seq<string>)
    requires 8 < close < n && a + n <= |s| && ParseNames(s[a + 8..a + close]) == names
    ensures NamesOf(s, Some(Match(a, a + 8, a + close, a + n))) == names
  {
    hide ParseNames;
    var mt := Match(a, a + 8, a + close, a + n);
    assert WellPlaced(mt, |s|);
    var text := s[mt.namesStart..mt.namesEnd];
    assert text == s[a + 8..a + close];
    NamesOfMatch(s, mt);
  }

  lemma NamesOfMatch(s: string, mt: Match)
    requires WellPlaced(mt, |s|)
    ensures NamesOf(s, Some(mt)) == ParseNames(s[mt.namesStart..mt.namesEnd])
  {
  }

  lemma StatementFound(lead: string, names: seq<string>, spec: string, rest: string)
    requires ValidNames(names)
    requires forall p :: 0 <= p < |lead| ==> MatchAt(Matcher(spec), lead + Statement(names, spec) + rest, p).None?
    ensures var s := lead + Statement(names, spec) + rest;
            Exec(Matcher(spec), s) == Some(Match(|lead|, |lead| + 8, |lead| + 10 + |Join(names, ", ")|, |lead| + |Statement(names, spec)|))
  {
    var r := Statement(names, spec);
    var s := lead + r + rest;
    assert s == lead + (r + rest);
    StatementMatches(names, spec, rest);
    MatchAtLocal(Matcher(spec), lead, r + rest, 0);
    ExecAt(Matcher(spec), s, |lead|);
  }

  lemma StatementSlice(lead: string, names: seq<string>, spec: string, rest: string)
    requires ValidNames(names)
    ensures var close := 10 + |Join(names, ", ")|;
            var s := lead + Statement(names, spec) + rest;
            |lead| + close <= |s| && close < |Statement(names, spec)|
            && s[|lead| + 8..|lead| + close] == " " + Join(names, ", ") + " "
  {
    var r := Statement(names, spec);
    var close := 10 + |Join(names, ", ")|;
    StatementLayout(names, spec, rest);
    assert (lead + r + rest)[|lead| + 8..|lead| + close] == (r + rest)[8..close];
  }

  /** Text led by an import statement of another module and then import-free text holds no match
      of `other` in that lead. */
  lemma LeadNoMatch(names: seq<string>, spec: string, other: string, k: nat, x: string, tail: string)
    requires ValidNames(names) && ImportFree(spec) && ImportFree(x)
    requires k < |spec| && k < |other| && spec[k] != other[k]
    ensures forall p :: 0 <= p < |Statement(names, spec) + x| ==>
              MatchAt(Matcher(other), Statement(names, spec) + x + tail, p).None?
  {
    var st := Statement(names, spec);
    StatementOtherModule(names, spec, other, k, x + tail);
    SpliceFront(x, tail, other);
    SpliceMiddle(st, x, tail, other);
    assert st + (x + tail) == st + x + tail;
  }

  /** After a relocation into a new components import, the file's first core import lists the
      remaining names. */
  lemma RelocatedCoreNames(content: string, symbol: string)
    requires Exec(Matcher(CoreModule), content).Some?
    requires Exec(Matcher(ComponentsModule), content).None?
    requires var m := Exec(Matcher(CoreModule), content).value;
             && ImportFree(content[..m.start])
             && FirstMatchFrom(Matcher(CoreModule), content, m.end).None?
             && '$' !in content[m.namesStart..m.namesEnd]
    requires symbol in CoreNames(content)
    ensures CoreNames(UpdateImportsInFile(content, symbol).content) == Remove(CoreNames(content), symbol)
  {
    RelocateIntoNewImport(content, symbol);
    RelocatedText(content, symbol);
  }

  /** The first core import of a relocated text: the rebuilt statement when names remain, and
      otherwise none when the original had a single core import. */
  lemma RelocatedText(content: string, symbol: string)
    requires Exec(Matcher(CoreModule), content).Some?
    requires var m := Exec(Matcher(CoreModule), content).value;
             && ImportFree(content[..m.start])
             && (Remove(CoreNames(content), symbol) == [] ==> FirstMatchFrom(Matcher(CoreModule), content, m.end).None?)
    requires symbol in CoreNames(content)
    ensures var m := Exec(Matcher(CoreModule), content).value;
            var core := Remove(CoreNames(content), symbol);
            CoreNames(Statement([symbol], ComponentsModule) + "\n" + content[..m.start] + Rebuilt(core, CoreModule) + content[m.end..]) == core
  {
    var m := Exec(Matcher(CoreModule), content).value;
    var core := Remove(CoreNames(content), symbol);
    var lead := Statement([symbol], ComponentsModule) + "\n" + content[..m.start];
    var rest := content[m.end..];
    CoreNamesValid(content, symbol);
    NewImportLead(content, symbol, Rebuilt(core, CoreModule) + rest);
    assert lead + (Rebuilt(core, CoreModule) + rest) == lead + Rebuilt(core, CoreModule) + rest;
    if core == [] {
      NoMatchInRest(Matcher(CoreModule), content, m.end);
    }
    NamesAfterRebuild(lead, core, CoreModule, rest);
  }

  /** The new components import and the text before the old core import hold no core match. */
  lemma NewImportLead(content: string, symbol: string, tail: string)
    requires Exec(Matcher(CoreModule), content).Some?
    requires ImportFree(content[..Exec(Matcher(CoreModule), content).value.start])
    requires symbol in CoreNames(content) && ValidNames(CoreNames(content))
    ensures var lead := Statement([symbol], ComponentsModule) + "\n" + content[..Exec(Matcher(CoreModule), content).value.start];
            forall p :: 0 <= p < |lead| ==> MatchAt(Matcher(CoreModule), lead + tail, p).None?
  {
    var pre := content[..Exec(Matcher(CoreModule), content).value.start];
    ModulesApart();
    ImportFreeWithoutI("\n");
    ImportFreeConcat("\n", pre);
    assert ValidName(symbol) by {
      var i :| 0 <= i < |CoreNames(content)| && CoreNames(content)[i] == symbol;
    }
    LeadNoMatch([symbol], ComponentsModule, CoreModule, 45, "\n" + pre, tail);
    assert Statement([symbol], ComponentsModule) + "\n" + pre == Statement([symbol], ComponentsModule) + ("\n" + pre);
  }

  /** Running the update again on its own output changes nothing: the symbol has left the core
      import. */
  lemma RelocateTwice(content: string, symbol: string)
    requires Exec(Matcher(CoreModule), content).Some?
    requires Exec(Matcher(ComponentsModule), content).None?
    requires var m := Exec(Matcher(CoreModule), content).value;
             && ImportFree(content[..m.start])
             && FirstMatchFrom(Matcher(CoreModule), content, m.end).None?
             && '$' !in content[m.namesStart..m.namesEnd]
    requires symbol in CoreNames(content)
    ensures var once := UpdateImportsInFile(content, symbol).content;
            UpdateImportsInFile(once, symbol) == Outcome(once, false)
  {
    RelocatedCoreNames(content, symbol);
  }

  /** The core import, rewritten, and the text before it hold no components match, whatever follows. */
  lemma CoreLeadNoComponents(content: string, symbol: string, lead: string, tail: string)
    requires Exec(Matcher(CoreModule), content).Some?
    requires var m := Exec(Matcher(CoreModule), content).value;
             ImportFree(content[..m.start]) && '$' !in content[m.namesStart..m.namesEnd]
    requires lead == content[..Exec(Matcher(CoreModule), content).value.start] + Rebuilt(Remove(CoreNames(content), symbol), CoreModule)
    ensures forall p :: 0 <= p < |lead| ==> MatchAt(Matcher(ComponentsModule), lead + tail, p).None?
  {
    var m := Exec(Matcher(CoreModule), content).value;
    CoreNamesClean(content, symbol);
    ModulesApart();
    LeadRebuiltNoMatch(content[..m.start], Remove(CoreNames(content), symbol), CoreModule, ComponentsModule, 45, tail);
  }

  /** Import-free text followed by a rebuilt statement of module `spec` holds no match of `other`,
      whatever follows. */
  lemma LeadRebuiltNoMatch(pre: string, names: seq<string>, spec: string, other: string, k: nat, tail: string)
    requires ImportFree(pre) && ValidNames(names) && ImportFree(spec)
    requires k < |spec| && k < |other| && spec[k] != other[k]
    ensures forall p :: 0 <= p < |pre + Rebuilt(names, spec)| ==>
              MatchAt(Matcher(other), pre + Rebuilt(names, spec) + tail, p).None?
  {
    var r := Rebuilt(names, spec);
    SpliceFront(pre, r + tail, other);
    if r != [] {
      StatementOtherModule(names, spec, other, k, tail);
    }
    SpliceMiddle(pre, r, tail, other);
    assert pre + (r + tail) == pre + r + tail;
  }

  /** Appending keeps every property each entry and the appended one have. */
  lemma AppendKeeps(xs: seq<string>, x: string, c: char)
    requires NamesFreeOf(xs, c) && c !in x
    ensures NamesFreeOf(AppendIfAbsent(xs, x), c)
  {
  }

  /** The rebuilt components statement holds no `$` when neither brace text does. */
  lemma ComponentsTemplateClean(content: string, symbol: string)
    requires Exec(Matcher(CoreModule), content).Some? && Exec(Matcher(ComponentsModule), content).Some?
    requires var m := Exec(Matcher(CoreModule), content).value;
             '$' !in content[m.namesStart..m.namesEnd]
    requires var m := Exec(Matcher(ComponentsModule), content).value;
             '$' !in content[m.namesStart..m.namesEnd]
    requires symbol in CoreNames(content)
    ensures NoDollar(Rebuilt(AppendIfAbsent(ComponentsNames(content), symbol), ComponentsModule))
  {
    var m := Exec(Matcher(ComponentsModule), content).value;
    CoreNamesClean(content, symbol);
    assert '$' !in symbol by {
      var i :| 0 <= i < |CoreNames(content)| && CoreNames(content)[i] == symbol;
    }
    ParseNamesFreeOf(content[m.namesStart..m.namesEnd], '$');
    AppendKeeps(ComponentsNames(content), symbol, '$');
    ModulesApart();
    StatementNoDollar(AppendIfAbsent(ComponentsNames(content), symbol), ComponentsModule);
  }

  /** In a file with one core import followed by one components import, nothing before the core
      import that could start an import, and no `$` in either name list: moving a listed symbol
      rewrites the core import in place without it (deleting it when nothing is left), and
      rewrites the components import in place with the symbol at the end of its list (once);
      the text around and between them is kept. */
  lemma RelocateIntoExistingImport(content: string, symbol: string)
    requires Exec(Matcher(CoreModule), content).Some? && Exec(Matcher(ComponentsModule), content).Some?
    requires var m := Exec(Matcher(CoreModule), content).value;
             && m.end <= Exec(Matcher(ComponentsModule), content).value.start
             && ImportFree(content[..m.start])
             && FirstMatchFrom(Matcher(CoreModule), content, m.end).None?
             && '$' !in content[m.namesStart..m.namesEnd]
    requires var m := Exec(Matcher(ComponentsModule), content).value;
             && FirstMatchFrom(Matcher(ComponentsModule), content, m.end).None?
             && '$' !in content[m.namesStart..m.namesEnd]
    requires symbol in CoreNames(content)
    ensures var mc := Exec(Matcher(CoreModule), content).value;
            var mp := Exec(Matcher(ComponentsModule), content).value;
            UpdateImportsInFile(content, symbol)
              == Outcome(content[..mc.start] + Rebuilt(Remove(CoreNames(content), symbol), CoreModule)
                         + content[mc.end..mp.start]
                         + Statement(AppendIfAbsent(ComponentsNames(content), symbol), ComponentsModule)
                         + content[mp.end..], true)
  {
    CoreRewritten(content, symbol);
    ComponentsRewritten(content, symbol);
  }

  /** The components replacement on the text left by the core replacement. */
  lemma ComponentsRewritten(content: string, symbol: string)
    requires Exec(Matcher(CoreModule), content).Some? && Exec(Matcher(ComponentsModule), content).Some?
    requires var m := Exec(Matcher(CoreModule), content).value;
             && m.end <= Exec(Matcher(ComponentsModule), content).value.start
             && ImportFree(content[..m.start])
             && '$' !in content[m.namesStart..m.namesEnd]
    requires var m := Exec(Matcher(ComponentsModule), content).value;
             && FirstMatchFrom(Matcher(ComponentsModule), content, m.end).None?
             && '$' !in content[m.namesStart..m.namesEnd]
    requires symbol in CoreNames(content)
    ensures var mc := Exec(Matcher(CoreModule), content).value;
            var mp := Exec(Matcher(ComponentsModule), content).value;
            var lead := content[..mc.start] + Rebuilt(Remove(CoreNames(content), symbol), CoreModule);
            var template := Rebuilt(AppendIfAbsent(ComponentsNames(content), symbol), ComponentsModule);
            ReplaceAll(Matcher(ComponentsModule), lead + content[mc.end..], template)
              == lead + content[mc.end..mp.start] + template + content[mp.end..]
  {
    var mc := Exec(Matcher(CoreModule), content).value;
    var mp := Exec(Matcher(ComponentsModule), content).value;
    var lead := content[..mc.start] + Rebuilt(Remove(CoreNames(content), symbol), CoreModule);
    var template := Rebuilt(AppendIfAbsent(ComponentsNames(content), symbol), ComponentsModule);
    CoreLeadNoComponents(content, symbol, lead, content[mc.end..]);
    ComponentsTemplateClean(content, symbol);
    ReplaceAfterLead(Matcher(ComponentsModule), content, mc.end, lead, template);
  }

  /** After a relocation into an existing components import that leaves names in the core
      import, the file's first core import lists the remaining names. */
  lemma RelocatedExistingCoreNames(content: string, symbol: string)
    requires Exec(Matcher(CoreModule), content).Some? && Exec(Matcher(ComponentsModule), content).Some?
    requires var m := Exec(Matcher(CoreModule), content).value;
             && m.end <= Exec(Matcher(ComponentsModule), content).value.start
             && ImportFree(content[..m.start])
             && FirstMatchFrom(Matcher(CoreModule), content, m.end).None?
             && '$' !in content[m.namesStart..m.namesEnd]
    requires var m := Exec(Matcher(ComponentsModule), content).value;
             && FirstMatchFrom(Matcher(ComponentsModule), content, m.end).None?
             && '$' !in content[m.namesStart..m.namesEnd]
    requires symbol in CoreNames(content) && Remove(CoreNames(content), symbol) != []
    ensures CoreNames(UpdateImportsInFile(content, symbol).content) == Remove(CoreNames(content), symbol)
  {
    hide ParseNames, Trim, Statement, Remove, Rebuilt, UpdateImportsInFile, CoreNames, ComponentsNames, FirstMatchFrom, MatchAt, MatchPrefix, ImportFree;
    var mc := Exec(Matcher(CoreModule), content).value;
    var mp := Exec(Matcher(ComponentsModule), content).value;
    var core := Remove(CoreNames(content), symbol);
    var pre := content[..mc.start];
    var rest := content[mc.end..mp.start]
                + Statement(AppendIfAbsent(ComponentsNames(content), symbol), ComponentsModule)
                + content[mp.end..];
    RelocateIntoExistingImport(content, symbol);
    assert UpdateImportsInFile(content, symbol).content == pre + Rebuilt(core, CoreModule) + rest;
    CoreNamesValid(content, symbol);
    ImportFreeLeadNames(pre, core, rest);
  }

  /** A rebuilt core statement preceded by import-free text is the first core import. */
  lemma ImportFreeLeadNames(pre: string, core: seq<string>, rest: string)
    requires ImportFree(pre) && ValidNames(core) && core != []
    ensures CoreNames(pre + Rebuilt(core, CoreModule) + rest) == core
  {
    SpliceFront(pre, Rebuilt(core, CoreModule) + rest, CoreModule);
    assert pre + (Rebuilt(core, CoreModule) + rest) == pre + Rebuilt(core, CoreModule) + rest;
    NamesAfterRebuild(pre, core, CoreModule, rest);
  }

  /** Running the update again on its own output changes nothing, for a file that already had a
      components import and keeps names in its core import. */
  lemma RelocateTwiceExisting(content: string, symbol: string)
    requires Exec(Matcher(CoreModule), content).Some? && Exec(Matcher(ComponentsModule), content).Some?
    requires var m := Exec(Matcher(CoreModule), content).value;
             && m.end <= Exec(Matcher(ComponentsModule), content).value.start
             && ImportFree(content[..m.start])
             && FirstMatchFrom(Matcher(CoreModule), content, m.end).None?
             && '$' !in content[m.namesStart..m.namesEnd]
    requires var m := Exec(Matcher(ComponentsModule), content).value;
             && FirstMatchFrom(Matcher(ComponentsModule), content, m.end).None?
             && '$' !in content[m.namesStart..m.namesEnd]
    requires symbol in CoreNames(content) && Remove(CoreNames(content), symbol) != []
    ensures var once := UpdateImportsInFile(content, symbol).content;
            UpdateImportsInFile(once, symbol) == Outcome(once, false)
  {
    RelocatedExistingCoreNames(content, symbol);
  }

  /** Cleaning works piece by piece: the list of a concatenation is the lists of its parts. */
  lemma {:induction false} CleanConcat(a: seq<string>, b: seq<string>)
    requires forall i :: 0 <= i < |a| ==> ',' !in a[i]
    requires forall i :: 0 <= i < |b| ==> ',' !in b[i]
    ensures Clean(a + b) == Clean(a) + Clean(b)
    decreases |a|
  {
    hide Trim;
    if a == [] {
      assert a + b == b;
    } else {
      assert (a + b)[0] == a[0] && (a + b)[1..] == a[1..] + b;
      CleanConcat(a[1..], b);
    }
  }

  /** One piece yields its trimmed text, or nothing when only whitespace remains. */
  lemma CleanPiece(p: string)
    requires ',' !in p
    ensures Clean([p]) == if Trim(p) == [] then [] else [Trim(p)]
  {
    assert [p][1..] == [];
  }

  /** An aliased entry `<symbol> as <alias>` is one name, not the symbol: parsing a list holding
      it keeps the whole entry, so the symbol is not found there. */
  lemma AliasIsOneName(symbol: string, alias: string)
    requires ValidName(symbol) && ValidName(alias)
    ensures ParseNames(" " + symbol + " as " + alias + " ") == [symbol + " as " + alias]
    ensures symbol !in ParseNames(" " + symbol + " as " + alias + " ")
  {
    var entry := symbol + " as " + alias;
    AliasValid(symbol, alias);
    OneNameParses(entry);
    assert " " + symbol + " as " + alias + " " == " " + entry + " ";
    assert |entry| > |symbol|;
  }

  /** A lone valid name between spaces parses to itself. */
  lemma OneNameParses(entry: string)
    requires ValidName(entry)
    ensures ParseNames(" " + entry + " ") == [entry]
  {
    assert ValidNames([entry]);
    assert Join([entry], ", ") == entry;
    ParseNamesRoundTrip([entry], " " + entry + " ");
  }

  lemma AliasValid(symbol: string, alias: string)
    requires ValidName(symbol) && ValidName(alias)
    ensures ValidName(symbol + " as " + alias)
  {
    var entry := symbol + " as " + alias;
    assert entry[0] == symbol[0];
    assert entry[|entry| - 1] == alias[|alias| - 1];
    assert ',' !in " as " && '}' !in " as ";
    assert entry == symbol + (" as " + alias);
  }

  /** Removal is a filter: it works part by part, so the names kept stay in their order. */
  lemma {:induction false} RemoveConcat(a: seq<string>, b: seq<string>, x: string)
    ensures Remove(a + b, x) == Remove(a, x) + Remove(b, x)
    decreases |a|
  {
    hide Trim;
    if a == [] {
      assert a + b == b;
    } else {
      assert (a + b)[0] == a[0] && (a + b)[1..] == a[1..] + b;
      RemoveConcat(a[1..], b, x);
    }
  }

  /** A list without the symbol is left as it is. */
  lemma {:induction false} RemoveAbsent(xs: seq<string>, x: string)
    requires x !in xs
    ensures Remove(xs, x) == xs
    decreases |xs|
  {
    if xs != [] {
      assert xs[1..] + [] == xs[1..];
      assert x !in xs[1..] by {
        assert forall k :: 0 <= k < |xs| - 1 ==> xs[1..][k] == xs[k + 1];
      }
      RemoveAbsent(xs[1..], x);
    }
  }

  /** No entry occurs twice. */
  predicate Distinct(xs: seq<string>) {
    forall i, j :: 0 <= i < j < |xs| ==> xs[i] != xs[j]
  }

  /** Appending only when absent never duplicates a name, and a second append changes nothing. */
  lemma AppendDistinct(xs: seq<string>, x: string)
    requires Distinct(xs)
    ensures Distinct(AppendIfAbsent(xs, x))
    ensures AppendIfAbsent(AppendIfAbsent(xs, x), x) == AppendIfAbsent(xs, x)
  {
    if x !in xs {
      var r := xs + [x];
      forall i, j | 0 <= i < j < |r|
        ensures r[i] != r[j]
      {
        if j == |xs| {
          assert r[i] == xs[i];
        }
      }
    }
  }
}
