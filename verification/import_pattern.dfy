/** The regular expression the import rewrite searches with,
      import\s*{([^}]+)}\s*from\s*['"]<spec>['"];?
    as a list of tokens read by a greedy matcher, shown to find exactly what the regular
    expression finds. */
module ImportPattern {
  import opened Wrappers
  import opened Text
  import opened RegExpSearch

  /** The npm scope of the design system's packages, and the prefix their names share. */
  const Scope: string := "@britishairways-nexus/"
  const Family: string := Scope + "nx-lib-design-system-"

  /** The two module specifiers the script hard-codes. */
  const CoreModule: string := Family + "core"
  const ComponentsModule: string := Family + "components"

  predicate IsQuote(c: char) {
    c == '\'' || c == '"'
  }

  /** `\s*` taken greedily from index i: the first index at or after i that is not white space. */
  function SkipSpaces(s: string, i: nat): (j: nat)
    requires i <= |s|
    ensures i <= j <= |s|
    ensures forall k :: i <= k < j ==> IsSpace(s[k])
    ensures j == |s| || !IsSpace(s[j])
    decreases |s| - i
  {
    if i < |s| && IsSpace(s[i]) then SkipSpaces(s, i + 1) else i
  }

  /** `[^}]+` taken greedily from index i: the first index at or after i holding `}`, or |s|. */
  function FindClose(s: string, i: nat): (j: nat)
    requires i <= |s|
    ensures i <= j <= |s|
    ensures '}' !in s[i..j]
    ensures j == |s| || s[j] == '}'
    decreases |s| - i
  {
    if i < |s| && s[i] != '}' then
      var j := FindClose(s, i + 1);
      assert s[i..j] == [s[i]] + s[i + 1..j];
      j
    else i
  }

  lemma {:induction false} SkipSpacesAt(s: string, i: nat, j: nat)
    requires i <= j <= |s|
    requires forall k :: i <= k < j ==> IsSpace(s[k])
    requires j == |s| || !IsSpace(s[j])
    ensures SkipSpaces(s, i) == j
    decreases j - i
  {
    if i < j {
      SkipSpacesAt(s, i + 1, j);
    }
  }

  lemma {:induction false} FindCloseAt(s: string, i: nat, j: nat)
    requires i <= j <= |s|
    requires forall k :: i <= k < j ==> s[k] != '}'
    requires j == |s| || s[j] == '}'
    ensures FindClose(s, i) == j
    decreases j - i
  {
    if i < j {
      FindCloseAt(s, i + 1, j);
    }
  }

  /** The pieces of the regular expression, each read from where the previous one stopped. */
  datatype Token =
    | Word(w: string)   // exactly the text w
    | Blanks            // \s*
    | BraceList         // {([^}]+)} : the capture group with its braces
    | Quote             // ['"]
    | OptSemicolon      // ;?

  /** `import\s*{([^}]+)}\s*from\s*['"]<spec>['"];?` as a token list. The two quotes are read
      independently, so `'` may close `"`. */
  function Pattern(spec: string): seq<Token> {
    [Word("import"), Blanks, BraceList, Blanks, Word("from"), Blanks, Quote, Word(spec), Quote, OptSemicolon]
  }

  /** t[open] is `{`, t[close] is the first `}` after it, and there is text between them. */
  predicate BraceSpan(t: string, open: nat, close: nat) {
    open + 1 < close < |t| && t[open] == '{' && t[close] == '}' && '}' !in t[open + 1..close]
  }

  /** t[lo..hi] is a non-empty brace text: `{` just before it, `}` just after it, no `}` inside. */
  predicate Braced(t: string, lo: nat, hi: nat) {
    0 < lo && BraceSpan(t, lo - 1, hi)
  }

  /** Some token of `toks` is the capture group. */
  predicate Captures(toks: seq<Token>)
    decreases |toks|
  {
    toks != [] && (toks[0].BraceList? || Captures(toks[1..]))
  }

  /** Reads `toks` from index pos of t, each token taking its longest extent; t[lo..hi] is the
      capture found so far. The match found is relative to t: it starts at 0. */
  function Run(t: string, pos: nat, toks: seq<Token>, lo: nat, hi: nat): (r: Option<Match>)
    requires pos <= |t|
    ensures r.Some? ==> r.value.start == 0 && pos <= r.value.end <= |t|
    decreases |toks|
  {
    if toks == [] then Some(Match(0, lo, hi, pos))
    else
      var rest := toks[1..];
      match toks[0]
      case Word(w) => if HasAt(t, pos, w) then Run(t, pos + |w|, rest, lo, hi) else None
      case Blanks => Run(t, SkipSpaces(t, pos), rest, lo, hi)
      case BraceList =>
        if pos < |t| && t[pos] == '{' then
          var close := FindClose(t, pos + 1);
          if close == |t| || close == pos + 1 then None else Run(t, close + 1, rest, pos + 1, close)
        else None
      case Quote => if pos < |t| && IsQuote(t[pos]) then Run(t, pos + 1, rest, lo, hi) else None
      case OptSemicolon => if pos < |t| && t[pos] == ';' then Run(t, pos + 1, rest, lo, hi) else Run(t, pos, rest, lo, hi)
  }

  /** The capture of a successful reading is the brace text the BraceList token read, or the
      capture passed in when there is no such token. */
  lemma {:induction false} RunCaptures(t: string, pos: nat, toks: seq<Token>, lo: nat, hi: nat)
    requires pos <= |t|
    requires Run(t, pos, toks, lo, hi).Some?
    ensures var m := Run(t, pos, toks, lo, hi).value;
            if Captures(toks) then Braced(t, m.namesStart, m.namesEnd) && pos < m.namesStart && m.namesEnd < m.end
            else m.namesStart == lo && m.namesEnd == hi
    decreases |toks|
  {
    hide SkipSpaces, FindClose, HasAt;
    if toks != [] {
      var rest := toks[1..];
      if toks[0].BraceList? {
        var close := FindClose(t, pos + 1);
        RunCaptures(t, close + 1, rest, pos + 1, close);
      } else {
        hide Braced;
        match toks[0]
        case Word(w) =>
          RunCaptures(t, pos + |w|, rest, lo, hi);
        case Blanks =>
          RunCaptures(t, SkipSpaces(t, pos), rest, lo, hi);
        case Quote =>
          RunCaptures(t, pos + 1, rest, lo, hi);
        case OptSemicolon =>
          if pos < |t| && t[pos] == ';' {
            RunCaptures(t, pos + 1, rest, lo, hi);
          } else {
            RunCaptures(t, pos, rest, lo, hi);
          }
      }
    }
  }

  /** The regular expression's own reading of t[pos..m.end] by `toks`, any extent allowed for
      each token: `\s*` takes any run of white space, `;?` takes or skips a `;`. */
  ghost predicate Reads(t: string, pos: nat, toks: seq<Token>, lo: nat, hi: nat, m: Match)
    decreases |toks|
  {
    if toks == [] then pos <= |t| && m == Match(0, lo, hi, pos)
    else
      match toks[0]
      case Word(w) => HasAt(t, pos, w) && Reads(t, pos + |w|, toks[1..], lo, hi, m)
      case Blanks =>
        exists j :: pos <= j <= |t| && AllSpace(t[pos..j]) && Reads(t, j, toks[1..], lo, hi, m)
      case BraceList =>
        exists j: nat :: BraceSpan(t, pos, j) && Reads(t, j + 1, toks[1..], pos + 1, j, m)
      case Quote => pos < |t| && IsQuote(t[pos]) && Reads(t, pos + 1, toks[1..], lo, hi, m)
      case OptSemicolon =>
        Reads(t, pos, toks[1..], lo, hi, m) || (pos < |t| && t[pos] == ';' && Reads(t, pos + 1, toks[1..], lo, hi, m))
  }

  /** A token that cannot begin with white space. */
  predicate Solid(tok: Token) {
    match tok
    case Word(w) => w != [] && !IsSpace(w[0])
    case BraceList => true
    case Quote => true
    case _ => false
  }

  /** Every `\s*` is followed by a solid token and `;?` comes last: then reading each token
      greedily, without backtracking, finds what the regular expression finds. */
  predicate WellFormed(toks: seq<Token>) {
    forall i :: 0 <= i < |toks| ==> FitsAt(toks, i)
  }

  /** The token at index i is a `\s*` followed by a solid token, a `;?` at the end, or any other token. */
  predicate FitsAt(toks: seq<Token>, i: nat)
    requires i < |toks|
  {
    (toks[i].Blanks? ==> i + 1 < |toks| && Solid(toks[i + 1])) && (toks[i].OptSemicolon? ==> i == |toks| - 1)
  }

  lemma PatternWellFormed(spec: string)
    ensures WellFormed(Pattern(spec))
  {
    var p := Pattern(spec);
    forall i | 0 <= i < |p|
      ensures FitsAt(p, i)
    {
      assert "from"[0] == 'f';
    }
  }

  /** A reading that starts with a solid token starts on a character that is not white space. */
  lemma ReadsSolid(t: string, pos: nat, toks: seq<Token>, lo: nat, hi: nat, m: Match)
    requires toks != [] && Solid(toks[0])
    requires Reads(t, pos, toks, lo, hi, m)
    ensures pos < |t| && !IsSpace(t[pos])
  {
    if toks[0].Word? {
      assert t[pos..pos + |toks[0].w|][0] == t[pos];
    }
  }

  /** Soundness: what the greedy reader returns is a reading of the regular expression. */
  lemma {:induction false} RunSound(t: string, pos: nat, toks: seq<Token>, lo: nat, hi: nat)
    requires pos <= |t|
    requires Run(t, pos, toks, lo, hi).Some?
    ensures Reads(t, pos, toks, lo, hi, Run(t, pos, toks, lo, hi).value)
    decreases |toks|
  {
    if toks != [] {
      var rest := toks[1..];
      match toks[0]
      case Word(w) =>
        RunSound(t, pos + |w|, rest, lo, hi);
      case Blanks =>
        var j := SkipSpaces(t, pos);
        RunSound(t, j, rest, lo, hi);
        assert AllSpace(t[pos..j]);
      case BraceList =>
        var close := FindClose(t, pos + 1);
        RunSound(t, close + 1, rest, pos + 1, close);
        assert BraceSpan(t, pos, close);
      case Quote =>
        RunSound(t, pos + 1, rest, lo, hi);
      case OptSemicolon =>
        if pos < |t| && t[pos] == ';' {
          RunSound(t, pos + 1, rest, lo, hi);
        } else {
          RunSound(t, pos, rest, lo, hi);
        }
    }
  }

  /** The greedy reader finds a reading's capture, and ends where it ends or one `;` later. */
  predicate Finds(t: string, pos: nat, toks: seq<Token>, lo: nat, hi: nat, m: Match) {
    && pos <= |t| && Run(t, pos, toks, lo, hi).Some?
    && Run(t, pos, toks, lo, hi).value.namesStart == m.namesStart
    && Run(t, pos, toks, lo, hi).value.namesEnd == m.namesEnd
    && (Run(t, pos, toks, lo, hi).value.end == m.end
        || (Run(t, pos, toks, lo, hi).value.end == m.end + 1 && m.end < |t| && t[m.end] == ';'))
  }

  /** Completeness: on a well-formed token list, every reading of the regular expression is
      found by the greedy reader with the same capture, and the reader's end differs from the
      reading's only by a `;` the reading skipped. */
  lemma {:induction false} RunComplete(t: string, pos: nat, toks: seq<Token>, lo: nat, hi: nat, m: Match)
    requires WellFormed(toks)
    requires Reads(t, pos, toks, lo, hi, m)
    ensures Finds(t, pos, toks, lo, hi, m)
    decreases |toks|, 2
  {
    if toks == [] {
      assert Run(t, pos, toks, lo, hi) == Some(m);
    } else {
      WellFormedRest(toks);
      if toks[0].Blanks? {
        RunCompleteBlanks(t, pos, toks, lo, hi, m);
      } else if toks[0].OptSemicolon? {
        RunCompleteLast(t, pos, toks, lo, hi, m);
      } else {
        RunCompleteSolid(t, pos, toks, lo, hi, m);
      }
    }
  }

  /** A word, the capture group or a quote: each has one extent, so the reader reads what the
      reading read. */
  lemma {:induction false} RunCompleteSolid(t: string, pos: nat, toks: seq<Token>, lo: nat, hi: nat, m: Match)
    requires toks != [] && (toks[0].Word? || toks[0].BraceList? || toks[0].Quote?) && WellFormed(toks[1..])
    requires Reads(t, pos, toks, lo, hi, m)
    ensures Finds(t, pos, toks, lo, hi, m)
    decreases |toks|, 1
  {
    var rest := toks[1..];
    if toks[0].BraceList? {
      RunCompleteBrace(t, pos, toks, lo, hi, m);
    } else if toks[0].Word? {
      RunComplete(t, pos + |toks[0].w|, rest, lo, hi, m);
      assert Run(t, pos, toks, lo, hi) == Run(t, pos + |toks[0].w|, rest, lo, hi);
    } else {
      RunComplete(t, pos + 1, rest, lo, hi, m);
      assert Run(t, pos, toks, lo, hi) == Run(t, pos + 1, rest, lo, hi);
    }
  }

  lemma {:induction false} RunCompleteBrace(t: string, pos: nat, toks: seq<Token>, lo: nat, hi: nat, m: Match)
    requires toks != [] && toks[0].BraceList? && WellFormed(toks[1..])
    requires Reads(t, pos, toks, lo, hi, m)
    ensures Finds(t, pos, toks, lo, hi, m)
    decreases |toks|, 0
  {
    var rest := toks[1..];
    var j: nat :| BraceSpan(t, pos, j) && Reads(t, j + 1, rest, pos + 1, j, m);
    RunBraceStep(t, pos, toks, lo, hi, j);
    RunComplete(t, j + 1, rest, pos + 1, j, m);
  }

  /** The capture group read up to the first `}`. */
  lemma RunBraceStep(t: string, pos: nat, toks: seq<Token>, lo: nat, hi: nat, j: nat)
    requires toks != [] && toks[0].BraceList? && BraceSpan(t, pos, j)
    ensures Run(t, pos, toks, lo, hi) == Run(t, j + 1, toks[1..], pos + 1, j)
  {
    FindCloseAt(t, pos + 1, j);
  }

  lemma WellFormedRest(toks: seq<Token>)
    requires toks != [] && WellFormed(toks)
    ensures WellFormed(toks[1..])
  {
    var rest := toks[1..];
    forall i | 0 <= i < |rest|
      ensures FitsAt(rest, i)
    {
      assert rest[i] == toks[i + 1];
      assert FitsAt(toks, i + 1);
      if i + 1 < |rest| {
        assert rest[i + 1] == toks[i + 2];
      }
    }
  }

  /** `\s*` followed by a solid token: the reading's run of white space is all there is. */
  lemma {:induction false} RunCompleteBlanks(t: string, pos: nat, toks: seq<Token>, lo: nat, hi: nat, m: Match)
    requires toks != [] && toks[0].Blanks? && WellFormed(toks) && WellFormed(toks[1..])
    requires Reads(t, pos, toks, lo, hi, m)
    ensures Finds(t, pos, toks, lo, hi, m)
    decreases |toks|, 0
  {
    var rest := toks[1..];
    var j :| pos <= j <= |t| && AllSpace(t[pos..j]) && Reads(t, j, rest, lo, hi, m);
    assert FitsAt(toks, 0);
    assert rest[0] == toks[1];
    ReadsSolid(t, j, rest, lo, hi, m);
    forall k | pos <= k < j
      ensures IsSpace(t[k])
    {
      assert t[pos..j][k - pos] == t[k];
    }
    SkipSpacesAt(t, pos, j);
    RunComplete(t, j, rest, lo, hi, m);
  }

  /** `;?` comes last: the reader takes the `;` whether or not the reading did. */
  lemma RunCompleteLast(t: string, pos: nat, toks: seq<Token>, lo: nat, hi: nat, m: Match)
    requires toks != [] && toks[0].OptSemicolon? && WellFormed(toks)
    requires Reads(t, pos, toks, lo, hi, m)
    ensures Finds(t, pos, toks, lo, hi, m)
  {
    var rest := toks[1..];
    assert FitsAt(toks, 0);
    assert rest == [];
    assert Reads(t, pos, rest, lo, hi, m) ==> m == Match(0, lo, hi, pos);
    assert Reads(t, pos + 1, rest, lo, hi, m) ==> m == Match(0, lo, hi, pos + 1);
  }

  /** The pattern tried at index 0 of t; positions are relative to t. */
  function MatchPrefix(t: string, spec: string): (r: Option<Match>)
    ensures r.Some? ==> r.value.start == 0 && WellPlaced(r.value, |t|) && Braced(t, r.value.namesStart, r.value.namesEnd)
  {
    assert Captures(Pattern(spec)[2..]);
    assert Captures(Pattern(spec));
    var r := Run(t, 0, Pattern(spec), 0, 0);
    if r.Some? then RunCaptures(t, 0, Pattern(spec), 0, 0); r else r
  }

  /** The matcher finds a match at index 0 exactly when the regular expression has a reading
      there, with the capture every reading shares, taking the final `;` whenever one is there. */
  lemma MatchPrefixIsRegex(t: string, spec: string, m: Match)
    requires Reads(t, 0, Pattern(spec), 0, 0, m)
    ensures MatchPrefix(t, spec).Some?
    ensures MatchPrefix(t, spec).value.namesStart == m.namesStart && MatchPrefix(t, spec).value.namesEnd == m.namesEnd
    ensures MatchPrefix(t, spec).value.end == m.end || (MatchPrefix(t, spec).value.end == m.end + 1 && t[m.end] == ';')
  {
    PatternWellFormed(spec);
    RunComplete(t, 0, Pattern(spec), 0, 0, m);
  }

  lemma MatchPrefixIsReading(t: string, spec: string)
    requires MatchPrefix(t, spec).Some?
    ensures Reads(t, 0, Pattern(spec), 0, 0, MatchPrefix(t, spec).value)
  {
    RunSound(t, 0, Pattern(spec), 0, 0);
  }

  /** How a match at index 0 lies in t: `import`, white space up to the `{` at `brace`, the brace
      text up to the first `}`, white space up to `from`, white space up to the opening quote at
      `quote`, the module, the closing quote and the optional `;`. */
  lemma MatchPrefixShape(t: string, spec: string) returns (brace: nat, from: nat, quote: nat)
    requires MatchPrefix(t, spec).Some?
    ensures var m := MatchPrefix(t, spec).value;
            && HasAt(t, 0, "import") && |t| >= 6
            && brace == SkipSpaces(t, 6) && brace < |t| && t[brace] == '{'
            && m.namesStart == brace + 1 && m.namesEnd == FindClose(t, brace + 1) && m.namesEnd < |t|
            && from == SkipSpaces(t, m.namesEnd + 1) && HasAt(t, from, "from")
            && quote == SkipSpaces(t, from + 4) && quote + 1 + |spec| < |t| && IsQuote(t[quote])
            && HasAt(t, quote + 1, spec) && IsQuote(t[quote + 1 + |spec|])
            && (m.end == quote + 2 + |spec| || (m.end == quote + 3 + |spec| && t[quote + 2 + |spec|] == ';'))
  {
    var close;
    brace, close := ShapeHead(t, spec);
    from, quote := ShapeTail(t, spec, close + 1, brace + 1, close);
  }

  /** The first three tokens of a match at index 0: `import`, white space and the braces. */
  lemma ShapeHead(t: string, spec: string) returns (brace: nat, close: nat)
    requires MatchPrefix(t, spec).Some?
    ensures HasAt(t, 0, "import") && |t| >= 6
    ensures brace == SkipSpaces(t, 6) && brace < |t| && t[brace] == '{'
    ensures close == FindClose(t, brace + 1) && close < |t|
    ensures MatchPrefix(t, spec) == Run(t, close + 1, Pattern(spec)[3..], brace + 1, close)
  {
    hide SkipSpaces, FindClose, Braced, WellPlaced, Captures;
    var p := Pattern(spec);
    assert HasAt(t, 0, "import");
    assert Run(t, 0, p, 0, 0) == Run(t, 6, p[1..], 0, 0);
    brace := SkipSpaces(t, 6);
    assert Run(t, 6, p[1..], 0, 0) == Run(t, brace, p[2..], 0, 0);
    assert brace < |t| && t[brace] == '{';
    close := FindClose(t, brace + 1);
  }

  /** The remaining tokens: white space, `from`, white space, the quoted module and `;?`. */
  lemma ShapeTail(t: string, spec: string, pos: nat, lo: nat, hi: nat) returns (from: nat, quote: nat)
    requires pos <= |t|
    requires Run(t, pos, Pattern(spec)[3..], lo, hi).Some?
    ensures var m := Run(t, pos, Pattern(spec)[3..], lo, hi).value;
            && m.namesStart == lo && m.namesEnd == hi
            && from == SkipSpaces(t, pos) && HasAt(t, from, "from")
            && quote == SkipSpaces(t, from + 4) && quote + 1 + |spec| < |t| && IsQuote(t[quote])
            && HasAt(t, quote + 1, spec) && IsQuote(t[quote + 1 + |spec|])
            && (m.end == quote + 2 + |spec| || (m.end == quote + 3 + |spec| && t[quote + 2 + |spec|] == ';'))
  {
    from, quote := ShapeFrom(t, spec, pos, lo, hi);
    ShapeQuoted(t, spec, quote, lo, hi);
  }

  /** White space, `from` and white space, up to the opening quote. */
  lemma ShapeFrom(t: string, spec: string, pos: nat, lo: nat, hi: nat) returns (from: nat, quote: nat)
    requires pos <= |t|
    requires Run(t, pos, Pattern(spec)[3..], lo, hi).Some?
    ensures from == SkipSpaces(t, pos) && HasAt(t, from, "from")
    ensures quote == SkipSpaces(t, from + 4)
    ensures Run(t, pos, Pattern(spec)[3..], lo, hi) == Run(t, quote, Pattern(spec)[6..], lo, hi)
  {
    var p := Pattern(spec);
    from := SkipSpaces(t, pos);
    assert Run(t, pos, p[3..], lo, hi) == Run(t, from, p[4..], lo, hi);
    assert HasAt(t, from, "from");
    assert Run(t, from, p[4..], lo, hi) == Run(t, from + 4, p[5..], lo, hi);
    quote := SkipSpaces(t, from + 4);
    assert Run(t, from + 4, p[5..], lo, hi) == Run(t, quote, p[6..], lo, hi);
  }

  /** The quoted module and the optional `;`. */
  lemma ShapeQuoted(t: string, spec: string, quote: nat, lo: nat, hi: nat)
    requires quote <= |t|
    requires Run(t, quote, Pattern(spec)[6..], lo, hi).Some?
    ensures var m := Run(t, quote, Pattern(spec)[6..], lo, hi).value;
            && m.namesStart == lo && m.namesEnd == hi
            && quote + 1 + |spec| < |t| && IsQuote(t[quote])
            && HasAt(t, quote + 1, spec) && IsQuote(t[quote + 1 + |spec|])
            && (m.end == quote + 2 + |spec| || (m.end == quote + 3 + |spec| && t[quote + 2 + |spec|] == ';'))
  {
    var p := Pattern(spec);
    assert quote < |t| && IsQuote(t[quote]);
    assert Run(t, quote, p[6..], lo, hi) == Run(t, quote + 1, p[7..], lo, hi);
    assert HasAt(t, quote + 1, spec);
    var after := quote + 1 + |spec|;
    assert Run(t, quote + 1, p[7..], lo, hi) == Run(t, after, p[8..], lo, hi);
    assert after < |t| && IsQuote(t[after]);
    assert Run(t, after, p[8..], lo, hi) == Run(t, after + 1, p[9..], lo, hi);
    assert p[10..] == [];
  }

  /** The import pattern for module `spec` as a sticky matcher, ready for `exec` and `replace`. */
  function Matcher(spec: string): Sticky {
    t => MatchPrefix(t, spec)
  }

  /** Text in which no `i` is followed by `m` and that does not end in `i`: the word `import`
      cannot start anywhere in it, whatever follows. */
  predicate ImportFree(x: string) {
    (forall k :: 0 <= k < |x| - 1 ==> !(x[k] == 'i' && x[k + 1] == 'm'))
    && (x == [] || x[|x| - 1] != 'i')
  }

  /** Two import-free texts joined stay import-free: the first does not end in `i`. */
  lemma ImportFreeConcat(a: string, b: string)
    requires ImportFree(a) && ImportFree(b)
    ensures ImportFree(a + b)
  {
    forall k | 0 <= k < |a + b| - 1
      ensures !((a + b)[k] == 'i' && (a + b)[k + 1] == 'm')
    {
      if k + 1 < |a| {
        assert (a + b)[k] == a[k] && (a + b)[k + 1] == a[k + 1];
      } else if k + 1 == |a| {
        assert (a + b)[k] == a[k];
      } else {
        assert (a + b)[k] == b[k - |a|] && (a + b)[k + 1] == b[k + 1 - |a|];
      }
    }
  }

  /** No match of any module starts inside import-free text. */
  lemma ImportFreeNoMatch(x: string, y: string, spec: string)
    requires ImportFree(x)
    ensures forall p :: 0 <= p < |x| ==> MatchAt(Matcher(spec), x + y, p).None?
  {
    forall p | 0 <= p < |x|
      ensures MatchAt(Matcher(spec), x + y, p).None?
    {
      var t := (x + y)[p..];
      if |t| >= 6 {
        assert t[0] == x[p];
        if p + 1 < |x| {
          assert t[1] == x[p + 1];
          assert !(x[p] == 'i' && x[p + 1] == 'm');
        } else {
          assert x[p] != 'i';
        }
        assert t[..6] != "import" by {
          assert "import"[0] == 'i' && "import"[1] == 'm';
          assert t[..6][0] == t[0] && t[..6][1] == t[1];
        }
      }
      assert !HasAt(t, 0, "import");
    }
  }
}
