/** JavaScript's `RegExp.prototype.exec` and `String.prototype.replace` with the `g` flag and a
    string template, for any regular expression with one capture group, given as a sticky
    matcher: a function that tries the expression at index 0 of a text. */
module RegExpSearch {
  import opened Wrappers
  import opened Text

  /** One match, as positions in the searched string: the match is s[start..end] and the
      capture group is s[namesStart..namesEnd]. */
  datatype Match = Match(start: nat, namesStart: nat, namesEnd: nat, end: nat)

  /** The expression tried at index 0 of a text; the match it reports is relative to that text. */
  type Sticky = string -> Option<Match>

  /** The positions of `mt` lie in order inside a string of length n; in particular the match
      is not empty. */
  predicate WellPlaced(mt: Match, n: nat) {
    mt.start < mt.namesStart < mt.namesEnd < mt.end <= n
  }

  function Shift(mt: Match, d: nat): Match {
    Match(mt.start + d, mt.namesStart + d, mt.namesEnd + d, mt.end + d)
  }

  function ShiftOpt(r: Option<Match>, d: nat): Option<Match> {
    match r
    case None => None
    case Some(mt) => Some(Shift(mt, d))
  }

  /** The expression tried at index p of s. Only a non-empty match that starts where it was
      tried counts: a matcher reporting anything else is read as not matching there. */
  function MatchAt(f: Sticky, s: string, p: nat): (r: Option<Match>)
    requires p <= |s|
    ensures r.Some? ==> r.value.start == p && WellPlaced(r.value, |s|)
    ensures r.Some? ==> f(s[p..]) == Some(Match(0, r.value.namesStart - p, r.value.namesEnd - p, r.value.end - p))
  {
    match f(s[p..])
    case Some(mt) => if mt.start == 0 && WellPlaced(mt, |s| - p) then Some(Shift(mt, p)) else None
    case None => None
  }

  /** The search from index i: the match at the leftmost index at or after i where the
      expression matches. */
  function FirstMatchFrom(f: Sticky, s: string, i: nat): (r: Option<Match>)
    requires i <= |s|
    ensures r.Some? ==> i <= r.value.start <= |s| && MatchAt(f, s, r.value.start) == r
    ensures r.Some? ==> forall q :: i <= q < r.value.start ==> MatchAt(f, s, q).None?
    ensures r.None? ==> forall q :: i <= q <= |s| ==> MatchAt(f, s, q).None?
    decreases |s| - i
  {
    var here := MatchAt(f, s, i);
    if here.Some? then here
    else if i == |s| then None
    else FirstMatchFrom(f, s, i + 1)
  }

  /** `regex.exec(s)` on a fresh global expression (lastIndex 0). */
  function Exec(f: Sticky, s: string): (r: Option<Match>)
    ensures r.Some? ==> r.value.start <= |s| && MatchAt(f, s, r.value.start) == r
    ensures r.Some? ==> forall q :: 0 <= q < r.value.start ==> MatchAt(f, s, q).None?
    ensures r.None? ==> forall q :: 0 <= q <= |s| ==> MatchAt(f, s, q).None?
  {
    FirstMatchFrom(f, s, 0)
  }

  predicate NoDollar(t: string) {
    '$' !in t
  }

  /** The GetSubstitution operation of ECMA-262 (section 22.1.3.19.1 of the 2023 edition) for an
      expression with one capture group and no named groups: how `replace` turns its template
      into the text put in place of match `mt` of `s`. `$$` is a dollar sign, `$&` the match,
      `` $` `` the text before it, `$'` the text after it; `$1` (also when a digit follows) and
      `$01` the capture; `$00`, `$0`, `$2` ... `$9`, `$<` and a lone `$` stand for themselves. */
  function Substitute(template: string, s: string, mt: Match): (r: string)
    requires WellPlaced(mt, |s|)
    ensures NoDollar(template) ==> r == template
    decreases |template|
  {
    if template == [] then []
    else if template[0] != '$' || |template| == 1 then [template[0]] + Substitute(template[1..], s, mt)
    else
      var c := template[1];
      var rest := template[2..];
      if c == '$' then "$" + Substitute(rest, s, mt)
      else if c == '&' then s[mt.start..mt.end] + Substitute(rest, s, mt)
      else if c == '`' then s[..mt.start] + Substitute(rest, s, mt)
      else if c == '\'' then s[mt.end..] + Substitute(rest, s, mt)
      else if IsDigit(c) then
        if rest != [] && IsDigit(rest[0]) && c == '0' && rest[0] == '1' then
          s[mt.namesStart..mt.namesEnd] + Substitute(rest[1..], s, mt)
        else if rest != [] && IsDigit(rest[0]) && c == '0' && rest[0] == '0' then
          "$00" + Substitute(rest[1..], s, mt)
        else if c == '1' then
          s[mt.namesStart..mt.namesEnd] + Substitute(rest, s, mt)
        else
          ['$', c] + Substitute(rest, s, mt)
      else [template[0]] + Substitute(template[1..], s, mt)
  }

  /** Text free of `$` passes through substitution unchanged, whatever follows it. */
  lemma {:induction false} SubstituteFreePrefix(x: string, y: string, s: string, mt: Match)
    requires WellPlaced(mt, |s|)
    requires NoDollar(x)
    ensures Substitute(x + y, s, mt) == x + Substitute(y, s, mt)
    decreases |x|
  {
    hide Substitute;
    if x == [] {
      assert x + y == y;
    } else {
      calc {
        Substitute(x + y, s, mt);
        == { FreeHead(x, y); SubstitutePlain(x + y, x[1..] + y, s, mt); }
        [x[0]] + Substitute(x[1..] + y, s, mt);
        == { FreeHead(x, y); SubstituteFreePrefix(x[1..], y, s, mt); }
        [x[0]] + (x[1..] + Substitute(y, s, mt));
        == { assert x == [x[0]] + x[1..]; }
        x + Substitute(y, s, mt);
      }
    }
  }

  lemma FreeHead(x: string, y: string)
    requires x != [] && NoDollar(x)
    ensures (x + y)[0] == x[0] != '$' && (x + y)[1..] == x[1..] + y && NoDollar(x[1..])
  {
    assert x[0] in x;
  }

  /** A character other than `$` stands for itself. */
  lemma SubstitutePlain(t: string, tail: string, s: string, mt: Match)
    requires WellPlaced(mt, |s|) && t != [] && t[0] != '$' && t[1..] == tail
    ensures Substitute(t, s, mt) == [t[0]] + Substitute(tail, s, mt)
  {
  }

  /** `s.replace(regex, template)` with the `g` flag, from index i: every match found scanning
      left to right, each search resuming where the previous match ended, is replaced by the
      substituted template. */
  function ReplaceFrom(f: Sticky, s: string, i: nat, template: string): string
    requires i <= |s|
    decreases |s| - i
  {
    match FirstMatchFrom(f, s, i)
    case None => s[i..]
    case Some(mt) => s[i..mt.start] + Substitute(template, s, mt) + ReplaceFrom(f, s, mt.end, template)
  }

  function ReplaceAll(f: Sticky, s: string, template: string): string {
    ReplaceFrom(f, s, 0, template)
  }

  /** Without a match the text comes back unchanged. */
  lemma ReplaceWithoutMatch(f: Sticky, s: string, i: nat, template: string)
    requires i <= |s|
    requires forall q :: i <= q <= |s| ==> MatchAt(f, s, q).None?
    ensures ReplaceFrom(f, s, i, template) == s[i..]
  {
  }

  /** Whether the expression matches at an index depends only on the text from that index on. */
  lemma MatchAtLocal(f: Sticky, a: string, b: string, p: nat)
    requires p <= |b|
    ensures MatchAt(f, a + b, |a| + p) == ShiftOpt(MatchAt(f, b, p), |a|)
  {
    assert (a + b)[|a| + p..] == b[p..];
  }

  /** The search from an index inside the second part of a string is the search in that part. */
  lemma {:induction false} FirstMatchFromLocal(f: Sticky, a: string, b: string, i: nat)
    requires i <= |b|
    ensures FirstMatchFrom(f, a + b, |a| + i) == ShiftOpt(FirstMatchFrom(f, b, i), |a|)
    decreases |b| - i
  {
    MatchAtLocal(f, a, b, i);
    if MatchAt(f, b, i).None? && i < |b| {
      FirstMatchFromLocal(f, a, b, i + 1);
    }
  }

  /** A stretch of indices where the expression never matches is passed over by the search. */
  lemma {:induction false} FirstMatchFromSkip(f: Sticky, s: string, i: nat, j: nat)
    requires i <= j <= |s|
    requires forall q :: i <= q < j ==> MatchAt(f, s, q).None?
    ensures FirstMatchFrom(f, s, i) == FirstMatchFrom(f, s, j)
    decreases j - i
  {
    if i < j {
      FirstMatchFromSkip(f, s, i + 1, j);
    }
  }

  /** One step of `replace`: the text up to the next match, its replacement, and the rest. */
  lemma ReplaceFromStep(f: Sticky, s: string, i: nat, template: string)
    requires i <= |s|
    ensures FirstMatchFrom(f, s, i).None? ==> ReplaceFrom(f, s, i, template) == s[i..]
    ensures FirstMatchFrom(f, s, i).Some? ==>
              var mt := FirstMatchFrom(f, s, i).value;
              ReplaceFrom(f, s, i, template) == s[i..mt.start] + Substitute(template, s, mt) + ReplaceFrom(f, s, mt.end, template)
  {
  }

  /** With a template free of `$`, replacing in the second part of a string is replacing in that part. */
  lemma {:induction false} ReplaceFromLocal(f: Sticky, a: string, b: string, i: nat, template: string)
    requires i <= |b|
    requires NoDollar(template)
    ensures ReplaceFrom(f, a + b, |a| + i, template) == ReplaceFrom(f, b, i, template)
    decreases |b| - i, 1
  {
    FirstMatchFromLocal(f, a, b, i);
    if FirstMatchFrom(f, b, i).None? {
      ReplaceFromStep(f, b, i, template);
      ReplaceFromStep(f, a + b, |a| + i, template);
      SliceShift(a, b, i, |b|);
    } else {
      ReplaceLocalAt(f, a, b, i, FirstMatchFrom(f, b, i).value, template);
    }
  }

  /** The step of `ReplaceFromLocal` at a match. */
  lemma {:induction false} ReplaceLocalAt(f: Sticky, a: string, b: string, i: nat, mt: Match, template: string)
    requires i <= |b| && NoDollar(template)
    requires FirstMatchFrom(f, b, i) == Some(mt)
    requires FirstMatchFrom(f, a + b, |a| + i) == Some(Shift(mt, |a|))
    ensures ReplaceFrom(f, a + b, |a| + i, template) == ReplaceFrom(f, b, i, template)
    decreases |b| - i, 0
  {
    hide ReplaceFrom, FirstMatchFrom, MatchAt, Substitute;
    var moved := Shift(mt, |a|);
    ReplaceStepAt(f, a + b, |a| + i, moved, template);
    ReplaceStepAt(f, b, i, mt, template);
    ReplaceFromLocal(f, a, b, mt.end, template);
    SliceShift(a, b, i, mt.start);
    Glue((a + b)[|a| + i..moved.start], b[i..mt.start], template,
         ReplaceFrom(f, a + b, moved.end, template), ReplaceFrom(f, b, mt.end, template));
  }

  lemma Glue(x1: string, x2: string, t: string, y1: string, y2: string)
    requires x1 == x2 && y1 == y2
    ensures x1 + t + y1 == x2 + t + y2
  {
  }

  /** One step of the replacement with a template free of `$`. */
  lemma ReplaceStepAt(f: Sticky, s: string, i: nat, mt: Match, template: string)
    requires i <= |s| && FirstMatchFrom(f, s, i) == Some(mt)
    requires NoDollar(template)
    ensures i <= mt.start <= mt.end <= |s|
    ensures ReplaceFrom(f, s, i, template) == s[i..mt.start] + template + ReplaceFrom(f, s, mt.end, template)
  {
    ReplaceFromStep(f, s, i, template);
  }

  lemma SliceShift(a: string, b: string, i: nat, j: nat)
    requires i <= j <= |b|
    ensures (a + b)[|a| + i..|a| + j] == b[i..j]
    ensures (a + b)[|a| + i..] == b[i..]
  {
  }

  /** The search finds the first index where the expression matches. */
  lemma ExecAt(f: Sticky, s: string, p: nat)
    requires p <= |s| && MatchAt(f, s, p).Some?
    requires forall q :: 0 <= q < p ==> MatchAt(f, s, q).None?
    ensures Exec(f, s) == MatchAt(f, s, p)
  {
  }

  /** After a stretch where the expression never matches, the search is the search in the rest. */
  lemma ExecAfterClean(f: Sticky, a: string, b: string)
    requires forall p :: 0 <= p < |a| ==> MatchAt(f, a + b, p).None?
    ensures Exec(f, a + b) == ShiftOpt(Exec(f, b), |a|)
  {
    FirstMatchFromSkip(f, a + b, 0, |a|);
    FirstMatchFromLocal(f, a, b, 0);
  }

  /** `replace` with `g` on a text holding exactly one match replaces just that match, by the
      substituted template. */
  lemma ReplaceSingle(f: Sticky, s: string, template: string)
    requires Exec(f, s).Some?
    requires FirstMatchFrom(f, s, Exec(f, s).value.end).None?
    ensures var m := Exec(f, s).value;
            ReplaceAll(f, s, template) == s[..m.start] + Substitute(template, s, m) + s[m.end..]
  {
    var m := Exec(f, s).value;
    ReplaceFromStep(f, s, 0, template);
    ReplaceFromStep(f, s, m.end, template);
    assert s[0..m.start] == s[..m.start];
  }

  /** `replace` on a text without a match returns it unchanged. */
  lemma ReplaceNone(f: Sticky, s: string, template: string)
    requires Exec(f, s).None?
    ensures ReplaceAll(f, s, template) == s
  {
    ReplaceWithoutMatch(f, s, 0, template);
    assert s[0..] == s;
  }

  /** The search in a suffix cut before the first match finds that match, moved, and nothing after it
      when the whole text has nothing after it. */
  lemma ExecSuffix(f: Sticky, s: string, cut: nat)
    requires Exec(f, s).Some? && cut <= Exec(f, s).value.start
    requires FirstMatchFrom(f, s, Exec(f, s).value.end).None?
    ensures var m := Exec(f, s).value;
            && Exec(f, s[cut..]) == Some(Match(m.start - cut, m.namesStart - cut, m.namesEnd - cut, m.end - cut))
            && FirstMatchFrom(f, s[cut..], m.end - cut).None?
  {
    hide FirstMatchFrom, MatchAt, Substitute;
    var m := Exec(f, s).value;
    assert s == s[..cut] + s[cut..];
    ExecAfterClean(f, s[..cut], s[cut..]);
    FirstMatchFromLocal(f, s[..cut], s[cut..], m.end - cut);
  }

  /** `replace` on a text whose only match lies after a stretch without matches. */
  lemma ReplaceSingleAfter(f: Sticky, a: string, b: string, template: string)
    requires forall p :: 0 <= p < |a| ==> MatchAt(f, a + b, p).None?
    requires Exec(f, b).Some? && FirstMatchFrom(f, b, Exec(f, b).value.end).None?
    requires NoDollar(template)
    ensures var m := Exec(f, b).value;
            ReplaceAll(f, a + b, template) == a + b[..m.start] + template + b[m.end..]
  {
    hide FirstMatchFrom, MatchAt, ReplaceAll, ReplaceFrom, Substitute;
    var m := Exec(f, b).value;
    ExecAfterClean(f, a, b);
    FirstMatchFromLocal(f, a, b, m.end);
    ReplaceSingle(f, a + b, template);
    assert (a + b)[..|a| + m.start] == a + b[..m.start];
    assert (a + b)[|a| + m.end..] == b[m.end..];
  }

  /** `replace` on a suffix of a text, cut before its only match, put behind a new lead in which
      the expression never matches: the match is replaced and everything else kept. */
  lemma ReplaceAfterLead(f: Sticky, s: string, cut: nat, lead: string, template: string)
    requires Exec(f, s).Some? && cut <= Exec(f, s).value.start
    requires FirstMatchFrom(f, s, Exec(f, s).value.end).None?
    requires forall p :: 0 <= p < |lead| ==> MatchAt(f, lead + s[cut..], p).None?
    requires NoDollar(template)
    ensures var m := Exec(f, s).value;
            ReplaceAll(f, lead + s[cut..], template) == lead + s[cut..m.start] + template + s[m.end..]
  {
    hide Exec, FirstMatchFrom, MatchAt, ReplaceAll, ReplaceFrom, Substitute;
    var m := Exec(f, s).value;
    var x := s[cut..];
    ExecSuffix(f, s, cut);
    ReplaceSingleAfter(f, lead, x, template);
    assert x[..m.start - cut] == s[cut..m.start];
    assert x[m.end - cut..] == s[m.end..];
  }

  /** With no index where the expression matches, the search finds nothing. */
  lemma ExecNone(f: Sticky, s: string)
    requires forall p :: 0 <= p <= |s| ==> MatchAt(f, s, p).None?
    ensures Exec(f, s).None?
  {
  }

  /** The first step of `replace`: the text before the first match, its replacement, and the
      replace resumed after it. */
  lemma ReplaceAllStep(f: Sticky, s: string, template: string)
    requires Exec(f, s).Some?
    ensures var m := Exec(f, s).value;
            ReplaceAll(f, s, template) == s[..m.start] + Substitute(template, s, m) + ReplaceFrom(f, s, m.end, template)
  {
    ReplaceFromStep(f, s, 0, template);
    assert s[0..Exec(f, s).value.start] == s[..Exec(f, s).value.start];
  }

  /** `replace` on a text that starts with a match: the template, then the replace resumed after it. */
  lemma ReplaceLeading(f: Sticky, s: string, template: string)
    requires Exec(f, s).Some? && Exec(f, s).value.start == 0 && NoDollar(template)
    ensures ReplaceAll(f, s, template) == template + ReplaceFrom(f, s, Exec(f, s).value.end, template)
  {
    ReplaceAllStep(f, s, template);
    assert s[..0] == [];
  }

  /** `replace` resumed at index |a| of `a + (g + b)`, where no match starts in the gap g and b is
      one whole match: the gap is kept and b replaced. */
  lemma ReplaceAfterGap(f: Sticky, a: string, g: string, b: string, template: string)
    requires forall p :: 0 <= p < |g| ==> MatchAt(f, g + b, p).None?
    requires Exec(f, b).Some? && Exec(f, b).value.start == 0 && Exec(f, b).value.end == |b|
    requires NoDollar(template)
    ensures ReplaceFrom(f, a + (g + b), |a|, template) == g + template
  {
    var s := a + (g + b);
    var m := Shift(Shift(Exec(f, b).value, |g|), |a|);
    GapSearch(f, a, g, b);
    assert FirstMatchFrom(f, s, |a|) == Some(m);
    ReplaceLast(f, s, |a|, m, template);
    GapSlice(a, g, b, m.start);
  }

  /** `replace` resumed at i when the next match runs to the end of the text. */
  lemma ReplaceLast(f: Sticky, s: string, i: nat, m: Match, template: string)
    requires i <= |s| && FirstMatchFrom(f, s, i) == Some(m) && m.end == |s|
    requires NoDollar(template)
    ensures ReplaceFrom(f, s, i, template) == s[i..m.start] + template
  {
    ReplaceFromStep(f, s, i, template);
    ReplaceAtEnd(f, s, template);
  }

  lemma GapSlice(a: string, g: string, b: string, k: nat)
    requires k == |a| + |g|
    ensures (a + (g + b))[|a|..k] == g
  {
  }

  lemma GapSearch(f: Sticky, a: string, g: string, b: string)
    requires forall p :: 0 <= p < |g| ==> MatchAt(f, g + b, p).None?
    ensures FirstMatchFrom(f, a + (g + b), |a|) == ShiftOpt(ShiftOpt(Exec(f, b), |g|), |a|)
  {
    ExecAfterClean(f, g, b);
    FirstMatchFromLocal(f, a, g + b, 0);
  }

  /** Nothing is left to replace at the end of a text: matches are never empty. */
  lemma ReplaceAtEnd(f: Sticky, s: string, template: string)
    ensures ReplaceFrom(f, s, |s|, template) == []
  {
    assert MatchAt(f, s, |s|).None?;
  }
}
