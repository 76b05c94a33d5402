/** `validateNxLibDesignSystemVersion`: is the components library a project depends on at least
    the configured minimum version? The manifest is given already parsed, the minimum as the
    configured version string. */
module VersionGate {
  import opened Wrappers
  import opened Text
  import ImportPattern

  /** A parsed `package.json`: each dependency map may be absent. Entries are version strings. */
  datatype Manifest = Manifest(dependencies: Option<map<string, string>>, devDependencies: Option<map<string, string>>)

  /** What reading `package.json` finds: no file, text `JSON.parse` rejects, or a manifest. */
  datatype PackageFile = Missing | Malformed | Parsed(manifest: Manifest)

  /** How the call ends: a boolean result, or the exception `JSON.parse` raises. */
  datatype Verdict = Returns(eligible: bool) | Throws

  /** The value JavaScript's `Number` gives a version piece: a non-negative integer or NaN. */
  datatype Num = Finite(value: nat) | NaN

  /** The entry of `package` in one optional map, when it is truthy: present and not "". */
  function Entry(deps: Option<map<string, string>>, package: string): (r: Option<string>)
    ensures r.Some? <==> deps.Some? && package in deps.value && deps.value[package] != ""
    ensures r.Some? ==> r.value == deps.value[package]
  {
    if deps.Some? && package in deps.value && deps.value[package] != "" then Some(deps.value[package]) else None
  }

  /** `(pkg.dependencies && pkg.dependencies[name]) || (pkg.devDependencies && pkg.devDependencies[name])`,
      read as truthy or not: the entry of `dependencies`, and that of `devDependencies` exactly when
      the first map has no truthy entry (it is absent, lacks the package, or maps it to ""). */
  function VersionEntry(m: Manifest): (r: Option<string>)
    ensures Entry(m.dependencies, ImportPattern.ComponentsModule).Some? ==>
              r == Some(m.dependencies.value[ImportPattern.ComponentsModule])
    ensures Entry(m.dependencies, ImportPattern.ComponentsModule).None? ==>
              r == Entry(m.devDependencies, ImportPattern.ComponentsModule)
    ensures r.None? <==>
              (Entry(m.dependencies, ImportPattern.ComponentsModule).None? && Entry(m.devDependencies, ImportPattern.ComponentsModule).None?)
    ensures r.Some? ==> r.value != ""
  {
    var fromDeps := Entry(m.dependencies, ImportPattern.ComponentsModule);
    if fromDeps.Some? then fromDeps else Entry(m.devDependencies, ImportPattern.ComponentsModule)
  }

  /** `version.replace(/^[^\d]*\/, "")`: the leading run of characters other than ASCII digits
      is dropped, the rest kept as it is. */
  function StripLeading(s: string): (r: string)
    ensures |r| <= |s| && r == s[|s| - |r|..]
    ensures forall k :: 0 <= k < |s| - |r| ==> !IsDigit(s[k])
    ensures r == [] || IsDigit(r[0])
    decreases |s|
  {
    if s != [] && !IsDigit(s[0]) then StripLeading(s[1..]) else s
  }

  predicate AllDigits(s: string) {
    forall k :: 0 <= k < |s| ==> IsDigit(s[k])
  }

  /** The decimal value of a string of digits. */
  function DigitsValue(s: string): nat
    requires AllDigits(s)
  {
    if s == [] then 0 else 10 * DigitsValue(s[..|s| - 1]) + (s[|s| - 1] as int - '0' as int)
  }

  /** `Number(piece)`: the empty string is 0, a string of digits its decimal value, anything
      else NaN. */
  function ToNumber(s: string): (r: Num)
    ensures r.Finite? <==> AllDigits(s)
  {
    if AllDigits(s) then Finite(DigitsValue(s)) else NaN
  }

  /** `const [major, minor] = text.split(".").map(Number)`: a missing minor is `Number(undefined)`, NaN. */
  function MajorMinor(text: string): (Num, Num) {
    var pieces := Split(text, '.');
    (ToNumber(pieces[0]), if |pieces| > 1 then ToNumber(pieces[1]) else NaN)
  }

  /** `>`, `===` and `>=` on numbers: every comparison with NaN is false. */
  predicate Greater(a: Num, b: Num) {
    a.Finite? && b.Finite? && a.value > b.value
  }

  predicate Same(a: Num, b: Num) {
    a.Finite? && b.Finite? && a.value == b.value
  }

  predicate AtLeast(a: Num, b: Num) {
    a.Finite? && b.Finite? && a.value >= b.value
  }

  /** `major > minMajor || (major === minMajor && minor >= minMinor)`. */
  predicate Eligible(version: (Num, Num), minimum: (Num, Num)) {
    Greater(version.0, minimum.0) || (Same(version.0, minimum.0) && AtLeast(version.1, minimum.1))
  }

  /** `validateNxLibDesignSystemVersion(projectPath)` against the configured minimum `minVersion`. */
  function Validate(file: PackageFile, minVersion: string): (r: Verdict)
    ensures file.Missing? ==> r == Returns(false)
    ensures r.Throws? <==> file.Malformed?
    ensures file.Parsed? && VersionEntry(file.manifest).None? ==> r == Returns(false)
  {
    match file
    case Missing => Returns(false)
    case Malformed => Throws
    case Parsed(m) =>
      match VersionEntry(m)
      case None => Returns(false)
      case Some(version) => Returns(Eligible(MajorMinor(StripLeading(version)), MajorMinor(minVersion)))
  }

  /** Stripping inverts prefixing a version with non-digits: only that prefix goes. */
  lemma {:induction false} StripLeadingPrefix(p: string, v: string)
    requires forall k :: 0 <= k < |p| ==> !IsDigit(p[k])
    requires v == [] || IsDigit(v[0])
    ensures StripLeading(p + v) == v
    decreases |p|
  {
    if p != [] {
      assert (p + v)[0] == p[0] && (p + v)[1..] == p[1..] + v;
      StripLeadingPrefix(p[1..], v);
    } else {
      assert p + v == v;
    }
  }

  /** The first two dot-separated pieces, whatever follows the second. */
  lemma MajorMinorOf(a: string, b: string, rest: string)
    requires AllDigits(a) && AllDigits(b)
    requires rest == [] || rest[0] == '.'
    ensures MajorMinor(a + "." + b + rest) == (ToNumber(a), ToNumber(b))
  {
    DigitsNoDot(a);
    DigitsNoDot(b);
    var tail := b + rest;
    assert a + "." + b + rest == a + ("." + tail);
    var pieces := Split(a + ("." + tail), '.');
    var afterA := Split("." + tail, '.');
    var afterDot := Split(tail, '.');
    SplitFreeFront(a, "." + tail, '.');
    assert pieces == [a + afterA[0]] + afterA[1..];
    DotFront(tail);
    assert afterA == [[]] + afterDot;
    SplitFreeFront(b, rest, '.');
    EmptyFirstPiece(rest);
    assert afterDot[0] == b + [] == b;
    assert pieces[0] == a + [] == a;
    assert |pieces| > 1 && pieces[1] == b;
  }

  lemma DotFront(t: string)
    ensures Split("." + t, '.') == [[]] + Split(t, '.')
  {
    assert ("." + t)[0] == '.' && ("." + t)[1..] == t;
  }

  lemma EmptyFirstPiece(rest: string)
    requires rest == [] || rest[0] == '.'
    ensures Split(rest, '.')[0] == []
  {
    if rest != [] {
      DotFront(rest[1..]);
      assert rest == "." + rest[1..];
    }
  }

  lemma DigitsNoDot(s: string)
    requires AllDigits(s)
    ensures '.' !in s
  {
    assert forall k :: 0 <= k < |s| ==> s[k] != '.';
  }

  /** The decision once a truthy version entry is found. */
  lemma ValidateParsed(m: Manifest, version: string, minVersion: string)
    requires VersionEntry(m) == Some(version)
    ensures Validate(Parsed(m), minVersion) == Returns(Eligible(MajorMinor(StripLeading(version)), MajorMinor(minVersion)))
  {
  }

  /** The decision on a version written `<prefix><major>.<minor><rest>` where the prefix holds no
      digit and the rest is empty or starts a further piece: the project is eligible exactly when
      its major version is above the minimum's, or equal to it with the minor version at least the
      minimum's. The prefix and everything from the patch on, in the version and in the minimum
      alike, play no part. */
  lemma EligibleIff(m: Manifest, version: string, prefix: string, major: string, minor: string, rest: string,
                    minVersion: string, minMajor: string, minMinor: string, minRest: string)
    requires VersionEntry(m) == Some(version) && version == prefix + (major + "." + minor + rest)
    requires forall k :: 0 <= k < |prefix| ==> !IsDigit(prefix[k])
    requires major != [] && AllDigits(major) && AllDigits(minor)
    requires rest == [] || rest[0] == '.'
    requires minVersion == minMajor + "." + minMinor + minRest && AllDigits(minMajor) && AllDigits(minMinor)
    requires minRest == [] || minRest[0] == '.'
    ensures Validate(Parsed(m), minVersion) == Returns(
              DigitsValue(major) > DigitsValue(minMajor)
              || (DigitsValue(major) == DigitsValue(minMajor) && DigitsValue(minor) >= DigitsValue(minMinor)))
  {
    var stripped := major + "." + minor + rest;
    ValidateParsed(m, version, minVersion);
    StripLeadingPrefix(prefix, stripped);
    assert StripLeading(version) == stripped;
    MajorMinorOf(major, minor, rest);
    MajorMinorOf(minMajor, minMinor, minRest);
    EligibleDigits(major, minor, minMajor, minMinor);
  }

  /** Against the documented minimum `3.11.0`: `^3.11.2` is eligible, `~3.10.9` is not. */
  lemma DocumentedMinimum(m: Manifest, n: Manifest)
    requires VersionEntry(m) == Some("^3.11.2") && VersionEntry(n) == Some("~3.10.9")
    ensures Validate(Parsed(m), "3.11.0") == Returns(true)
    ensures Validate(Parsed(n), "3.11.0") == Returns(false)
  {
    hide Validate, Split, StripLeading, MajorMinor, VersionEntry, DigitsValue, AllDigits;
    PieceValues();
    assert "^3.11.2" == "^" + ("3" + "." + "11" + ".2");
    assert "~3.10.9" == "~" + ("3" + "." + "10" + ".9");
    assert "3.11.0" == "3" + "." + "11" + ".0";
    EligibleIff(m, "^3.11.2", "^", "3", "11", ".2", "3.11.0", "3", "11", ".0");
    EligibleIff(n, "~3.10.9", "~", "3", "10", ".9", "3.11.0", "3", "11", ".0");
  }

  lemma PieceValues()
    ensures AllDigits("3") && AllDigits("10") && AllDigits("11")
    ensures DigitsValue("3") == 3 && DigitsValue("10") == 10 && DigitsValue("11") == 11
  {
    assert "3"[..0] == [] && "10"[..1] == "1" && "11"[..1] == "1" && "1"[..0] == [];
  }

  lemma EligibleDigits(major: string, minor: string, minMajor: string, minMinor: string)
    requires AllDigits(major) && AllDigits(minor) && AllDigits(minMajor) && AllDigits(minMinor)
    ensures Eligible((ToNumber(major), ToNumber(minor)), (ToNumber(minMajor), ToNumber(minMinor)))
            == (DigitsValue(major) > DigitsValue(minMajor)
                || (DigitsValue(major) == DigitsValue(minMajor) && DigitsValue(minor) >= DigitsValue(minMinor)))
  {
    hide DigitsValue;
  }

  lemma MinimumOf(minVersion: string, minMajor: string, minMinor: string)
    requires minVersion == minMajor + "." + minMinor && AllDigits(minMajor) && AllDigits(minMinor)
    ensures MajorMinor(minVersion) == (ToNumber(minMajor), ToNumber(minMinor))
  {
    MajorMinorOf(minMajor, minMinor, []);
    assert minMajor + "." + minMinor + [] == minVersion;
  }

  /** A version with no minor piece compares its minor as NaN: `"3"` meets a `2.x` minimum but not
      a `3.x` one. */
  lemma MajorOnly(m: Manifest)
    requires VersionEntry(m) == Some("3")
    ensures Validate(Parsed(m), "2.0") == Returns(true)
    ensures Validate(Parsed(m), "3.0") == Returns(false)
  {
    MajorOnlyAgainst(m, "2.0");
    MajorOnlyAgainst(m, "3.0");
    MinimumSmall();
  }

  lemma MajorOnlyAgainst(m: Manifest, minVersion: string)
    requires VersionEntry(m) == Some("3")
    ensures Validate(Parsed(m), minVersion) == Returns(Eligible((Finite(3), NaN), MajorMinor(minVersion)))
  {
    ValidateParsed(m, "3", minVersion);
    StripDigitsFirst("3");
    LoneMajor();
  }

  lemma StripDigitsFirst(s: string)
    requires s == [] || IsDigit(s[0])
    ensures StripLeading(s) == s
  {
  }

  lemma MinimumSmall()
    ensures MajorMinor("2.0") == (Finite(2), Finite(0))
    ensures MajorMinor("3.0") == (Finite(3), Finite(0))
  {
    MinimumOf("2.0", "2", "0");
    MinimumOf("3.0", "3", "0");
    SmallDigits();
  }

  lemma LoneMajor()
    ensures MajorMinor("3") == (Finite(3), NaN)
  {
    SplitFreeFront("3", [], '.');
    assert "3" + [] == "3";
    SmallDigits();
  }

  lemma SmallDigits()
    ensures AllDigits("0") && AllDigits("2") && AllDigits("3")
    ensures DigitsValue("0") == 0 && DigitsValue("2") == 2 && DigitsValue("3") == 3
  {
    assert "0"[..0] == [] && "2"[..0] == [] && "3"[..0] == [];
  }
}
