# update-imports, modelled in Dafny

The update-imports scripts migrate the design system's imports across a fleet of Next.js
projects. For each project they:

- check that the project's `nx-lib-design-system-components` dependency is recent enough;
- walk the source tree;
- move each configured symbol from the
  `@britishairways-nexus/nx-lib-design-system-core` import to the
  `@britishairways-nexus/nx-lib-design-system-components` import of every file;
- run the checks;
- commit and push the result on a new branch;
- open a pull request.

This project models the logic at the centre of that process as pure Dafny functions and proves
properties about them:

- `Text`: JavaScript's `trim`, `split` on one character, and `join`. White space is the full
  ECMAScript `\s` set, WhiteSpace and LineTerminator.
- `RegExpSearch`: `RegExp.prototype.exec` and `String.prototype.replace` with the `g` flag for
  any expression with one capture group, given as a sticky matcher. It includes ECMAScript's
  GetSubstitution, which expands `$` patterns in a replacement string.
- `ImportPattern`: `import\s*{([^}]+)}\s*from\s*['"]<module>['"];?` as a greedy token reader.
  The reader is proved sound and complete against the regular expression's own reading, and
  every match of the search is pinned to the layout of its text.
- `ImportRewrite`: `updateImportsInFile` as `(content, symbol) -> (newContent, changed)`, with its
  name-list parser, the relocation, the rebuilt statements, and the prepended components import.
- `ImportFindings`: two ways the rewrite departs from its evident intent, each with a corrected
  rewrite (see Findings).
- `VersionGate`: `validateNxLibDesignSystemVersion` over an already parsed manifest.
- `WalkDir`: the `walkDir` generator over a finite directory tree.
- `RepoName`: `getRepoNameFromUrl`, with the search, greed and backtracking of its regular
  expression.
- `ProjectFlow`: `processProject` as the trace of external calls it issues. The outcome of
  every call is given as data.

In two places the model follows the code where a reader might expect otherwise:

- `exec` returns the leftmost index where the whole pattern matches, which is not always the
  leftmost `import`.
- The quotes around the module are read independently, so `'...\"` is accepted.

## Model

| member | source | states |
|---|---|---|
| Text.Trim | update-imports/functions/update-imports-in-file.ts:28 | the result has no white space at either end and is no longer than the input |
| Text.TrimKeeps | update-imports/functions/update-imports-in-file.ts:28 | trimming adds no character: every character of the result is in the input |
| Text.TrimPadded | update-imports/functions/update-imports-in-file.ts:28 | trimming inverts padding: a trimmed core surrounded by white space comes back exactly |
| Text.Split | update-imports/functions/update-imports-in-file.ts:27 | splitting yields at least one piece and no piece holds the separator |
| Text.SplitChars | update-imports/functions/update-imports-in-file.ts:27 | a character absent from the text is absent from every piece |
| Text.JoinSplit | update-imports/functions/update-imports-in-file.ts:27 | joining the pieces with the separator gives back the text split |
| Text.SplitJoin | update-imports/functions/update-imports-in-file.ts:27 | splitting inverts joining for pieces free of the separator |
| RegExpSearch.FirstMatchFrom | update-imports/functions/update-imports-in-file.ts:19-20 | the search returns a match at the leftmost index where the expression matches, and none only when it matches nowhere |
| RegExpSearch.Exec | update-imports/functions/update-imports-in-file.ts:19-20 | `exec` on a fresh global expression finds the leftmost match, and nothing only when no index matches |
| RegExpSearch.ExecAt | update-imports/functions/update-imports-in-file.ts:19-20 | a match at p with no match before p is what `exec` returns |
| RegExpSearch.Substitute | update-imports/functions/update-imports-in-file.ts:52-67 | a replacement string without `$` is inserted unchanged |
| RegExpSearch.SubstituteFreePrefix | update-imports/functions/update-imports-in-file.ts:52-67 | text without `$` passes through substitution unchanged, whatever follows it |
| RegExpSearch.ReplaceSingle | update-imports/functions/update-imports-in-file.ts:52-59 | on a text with exactly one match the global replace substitutes that match and keeps everything else |
| RegExpSearch.ReplaceNone | update-imports/functions/update-imports-in-file.ts:60-67 | on a text without a match the global replace returns the text unchanged |
| RegExpSearch.ReplaceFromLocal | update-imports/functions/update-imports-in-file.ts:52-67 | with a `$`-free replacement, replacing in the second part of a text is the same as replacing in that part alone |
| RegExpSearch.ReplaceFrom | update-imports/functions/update-imports-in-file.ts:52-67 | the global replace from an index; characterised by RegExpSearch.ReplaceSingle, RegExpSearch.ReplaceNone and RegExpSearch.ReplaceFromLocal |
| RegExpSearch.ReplaceAll | update-imports/functions/update-imports-in-file.ts:52-67 | `replace` with the `g` flag; characterised by RegExpSearch.ReplaceSingle and RegExpSearch.ReplaceNone |
| ImportPattern.SkipSpaces | update-imports/functions/update-imports-in-file.ts:15 | `\s*` taken greedily stops at the first character that is not white space |
| ImportPattern.FindClose | update-imports/functions/update-imports-in-file.ts:15 | `[^}]+` taken greedily stops at the first `}` or at the end |
| ImportPattern.RunSound | update-imports/functions/update-imports-in-file.ts:14-17 | whatever the greedy reader finds is a reading of the regular expression |
| ImportPattern.RunComplete | update-imports/functions/update-imports-in-file.ts:14-17 | every reading of the regular expression is found by the greedy reader, with the same capture, differing at most by a final `;` the reading skipped |
| ImportPattern.MatchPrefixIsRegex | update-imports/functions/update-imports-in-file.ts:14-17 | the matcher matches at index 0 exactly when the regular expression does, with the capture it has and the optional `;` taken |
| ImportPattern.MatchPrefixShape | update-imports/functions/update-imports-in-file.ts:14-17 | a match is `import`, white space, `{`, the brace text up to the first `}`, white space, `from`, white space, a quote, the module, a quote and an optional `;` |
| ImportPattern.ImportFreeNoMatch | update-imports/functions/update-imports-in-file.ts:14-17 | no match of either module starts inside text in which `import` cannot start |
| ImportRewrite.ParseNames | update-imports/functions/update-imports-in-file.ts:25-36 | every parsed name is non-empty, trimmed and free of `,` |
| ImportRewrite.Clean | update-imports/functions/update-imports-in-file.ts:28-29 | trimming then dropping empty pieces yields non-empty trimmed names, no more of them than pieces |
| ImportRewrite.CleanConcat | update-imports/functions/update-imports-in-file.ts:28-29 | trimming and filtering work piece by piece, in order |
| ImportRewrite.ParseNamesRoundTrip | update-imports/functions/update-imports-in-file.ts:25-57 | parsing the brace text of a rebuilt statement gives back its list of names |
| ImportRewrite.AliasIsOneName | update-imports/functions/update-imports-in-file.ts:26-39 | an aliased entry `S as A` stays one name, so the symbol S is not found in it |
| ImportRewrite.ParseNamesFreeOf | update-imports/functions/update-imports-in-file.ts:25-36 | a character absent from the brace text is absent from every name |
| ImportRewrite.NamesOfValid | update-imports/functions/update-imports-in-file.ts:25-36 | the names of a match are non-empty, trimmed and free of `,` and `}` |
| ImportRewrite.Remove | update-imports/functions/update-imports-in-file.ts:41 | the result no longer holds the symbol and holds every other name of the input, and nothing else |
| ImportRewrite.RemoveConcat | update-imports/functions/update-imports-in-file.ts:41 | removal works part by part, so the kept names stay in their order |
| ImportRewrite.RemoveAbsent | update-imports/functions/update-imports-in-file.ts:41 | a list without the symbol is returned unchanged |
| ImportRewrite.AppendIfAbsent | update-imports/functions/update-imports-in-file.ts:43-45 | the result holds the symbol and the input's names, extends the input, and grows by at most one |
| ImportRewrite.AppendDistinct | update-imports/functions/update-imports-in-file.ts:43-45 | appending never duplicates a name, and a second append changes nothing |
| ImportRewrite.UpdateImportsInFile | update-imports/functions/update-imports-in-file.ts:4-86 | the file changes exactly when the symbol is an entry of the first core import's list; otherwise the content is identical; with no components import, the result starts with `import { <symbol> } from "<components>";` and a line break |
| ImportRewrite.Statement | update-imports/functions/update-imports-in-file.ts:54-58 | the rebuilt import statement; characterised by ImportRewrite.StatementMatches and ImportRewrite.StatementParses, which prove it matches its own pattern and parses back to its names |
| ImportRewrite.Rebuilt | update-imports/functions/update-imports-in-file.ts:54-58 | the statement, or nothing for an empty list; characterised by ImportRewrite.NamesAfterRebuild |
| ImportRewrite.StatementMatches | update-imports/functions/update-imports-in-file.ts:55-65 | a rebuilt statement is matched by its own module's pattern, over its whole length, capturing the text between its braces |
| ImportRewrite.StatementParses | update-imports/functions/update-imports-in-file.ts:55-65 | the brace text of a rebuilt statement, wherever it stands, parses back to its names |
| ImportRewrite.StatementNoDollar | update-imports/functions/update-imports-in-file.ts:55-57 | a rebuilt statement holds no `$` when its names do not |
| ImportRewrite.CoreRewritten | update-imports/functions/update-imports-in-file.ts:52-59 | with a single core import whose names hold no `$`, the core replace rewrites that import in place and keeps the text around it |
| ImportRewrite.ComponentsRewritten | update-imports/functions/update-imports-in-file.ts:60-67 | after the core replace, a single components import is rewritten in place and the text around it is kept; for files whose core import comes before the components import with nothing before it that can start an `import`, whose symbol is listed in the core import, and with no `$` in either list |
| ImportRewrite.NamesAfterRebuild | update-imports/functions/update-imports-in-file.ts:19-59 | after a rebuilt statement, the first match of its module is that statement and its names are the list it was written from; when no match of the module starts in the text before the statement, and, for an empty list, none in the text after it |
| ImportRewrite.RelocateIntoNewImport | update-imports/functions/update-imports-in-file.ts:39-78 | with one core import and no components import, the core import is rewritten in place without the symbol (deleted when empty), and `import { <symbol> } from "<components>";` plus a line break is put in front |
| ImportRewrite.RelocateIntoExistingImport | update-imports/functions/update-imports-in-file.ts:39-78 | with one core import followed by one components import, each is rewritten in place: the core one without the symbol, the components one with the symbol appended once; the text between them is kept |
| ImportRewrite.RelocatedCoreNames | update-imports/functions/update-imports-in-file.ts:19-47 | after a relocation into a new components import, the file's first core import lists the remaining names; for files with one core import, no components import, nothing before the core import that can start an `import`, and no `$` in its names |
| ImportRewrite.RelocateTwice | update-imports/functions/update-imports-in-file.ts:39-59 | running the update again on its output returns false and changes nothing; for files with one core import, no components import, nothing before the core import that can start an `import`, and no `$` in its names |
| ImportRewrite.RelocatedExistingCoreNames | update-imports/functions/update-imports-in-file.ts:19-47 | after a relocation into an existing components import that leaves names in the core import, the file's first core import lists the remaining names; for files with one import per module, core first, nothing before it that can start an `import`, and no `$` in either list |
| ImportRewrite.RelocateTwiceExisting | update-imports/functions/update-imports-in-file.ts:39-67 | with an existing components import, running the update again on its output returns false and changes nothing, when names remain in the core import; same file conditions as the row above |
| ImportFindings.SecondCoreImportOverwritten | update-imports/functions/update-imports-in-file.ts:52-59 | as written, a second core import is replaced by the first one's remaining names |
| ImportFindings.SecondCoreImportKept | update-imports/functions/update-imports-in-file.ts:52-59 | corrected, the second core import is kept unchanged |
| ImportFindings.DoubleDollarCollapses | update-imports/functions/update-imports-in-file.ts:52-59 | a rebuilt statement naming `$$x` is inserted as `$x` |
| ImportFindings.DollarNameCorrupted | update-imports/functions/update-imports-in-file.ts:52-59 | as written, moving `X` out of `import { $$Icon, X }` leaves the core import naming `$Icon` |
| ImportFindings.DollarNameKept | update-imports/functions/update-imports-in-file.ts:52-59 | corrected, the remaining name `$$Icon` is written back as it was read |
| ImportFindings.UpdateImportsInFileFixed | update-imports/functions/update-imports-in-file.ts:4-86 | the corrected rewrite changes the file exactly when the symbol is in the first core import, and otherwise leaves it identical |
| ImportFindings.FixedAgrees | update-imports/functions/update-imports-in-file.ts:4-86 | on files with one core import, no components import, nothing before the core import that can start an `import`, and no `$` in its names, the corrected and original rewrites agree |
| ImportFindings.FixedAgreesExisting | update-imports/functions/update-imports-in-file.ts:4-86 | on files with one core import followed by one components import, nothing before the core import that can start an `import`, and no `$` in either list, the corrected and original rewrites agree |
| ImportFindings.RelocateFixed | update-imports/functions/update-imports-in-file.ts:39-78 | the corrected rewrite, on a file with no components import and nothing before its first core import that can start an `import`, rewrites only that core import and prepends the components import; any later core imports and any `$` in the names are kept as they are |
| ImportFindings.RelocateFixedExisting | update-imports/functions/update-imports-in-file.ts:39-78 | the corrected rewrite, on a file whose first core import comes before its only components import, with nothing before the core import that can start an `import`, rewrites the two imports in place and keeps the text around and between them; any later core imports and any `$` in the names are kept as they are |
| ImportFindings.RelocateFixedTwice | update-imports/functions/update-imports-in-file.ts:39-47 | the corrected rewrite run again on its output returns false; for files with no components import, nothing before the first core import that can start an `import`, and, when no names remain, a single core import |
| VersionGate.Entry | update-imports/functions/validate-lib-version.ts:17-25 | an entry is found exactly when the map is present and holds the package with a value other than `""` |
| VersionGate.VersionEntry | update-imports/functions/validate-lib-version.ts:17-25 | the version is taken from `dependencies`, and from `devDependencies` exactly when the first map has no truthy entry; it is never `""` |
| VersionGate.StripLeading | update-imports/functions/validate-lib-version.ts:33 | only the leading run of non-digits is dropped; the rest is kept and starts with a digit |
| VersionGate.StripLeadingPrefix | update-imports/functions/validate-lib-version.ts:33 | stripping a non-digit prefix from a version that starts with a digit gives back the version |
| VersionGate.ToNumber | update-imports/functions/validate-lib-version.ts:34-35 | `Number` of a piece is finite exactly when the piece is all digits |
| VersionGate.Validate | update-imports/functions/validate-lib-version.ts:10-43 | a missing file gives false; a malformed file throws, and only a malformed file does; no truthy entry gives false |
| VersionGate.MajorMinor | update-imports/functions/validate-lib-version.ts:34-35 | the numbers of the first two pieces; characterised by VersionGate.MajorMinorOf and VersionGate.MajorOnly |
| VersionGate.Eligible | update-imports/functions/validate-lib-version.ts:36 | the version comparison; characterised by VersionGate.EligibleIff |
| VersionGate.MajorMinorOf | update-imports/functions/validate-lib-version.ts:34-35 | the first two dot-separated pieces are read as major and minor, whatever follows |
| VersionGate.EligibleIff | update-imports/functions/validate-lib-version.ts:33-38 | the result is true exactly when major > minimum major, or the majors are equal and minor >= minimum minor; the prefix, and everything from the patch on in both the version and the minimum, play no part |
| VersionGate.DocumentedMinimum | update-imports/functions/validate-lib-version.ts:33-38 | against the minimum `3.11.0`, the entry `^3.11.2` is accepted and `~3.10.9` is rejected |
| VersionGate.MajorOnly | update-imports/functions/validate-lib-version.ts:34-38 | a version `"3"` has a NaN minor: it meets a `2.0` minimum and fails a `3.0` one |
| WalkDir.JoinPath | update-imports/functions/walk-dir.ts:6 | a joined path ends with the entry's name |
| WalkDir.Walk | update-imports/functions/walk-dir.ts:3-17 | every yielded path is a wanted file; characterised by WalkDir.WalkExactly against the reachable files |
| WalkDir.Visit | update-imports/functions/walk-dir.ts:6-15 | one entry's output: only wanted paths; characterised by WalkDir.SoundRoute and WalkDir.WalkComplete |
| WalkDir.WalkConcat | update-imports/functions/walk-dir.ts:5-15 | the output for a listing is the outputs of its parts, in listing order |
| WalkDir.PreOrder | update-imports/functions/walk-dir.ts:5-15 | depth-first pre-order: a directory's files come at its place in the listing, before later siblings |
| WalkDir.SkippedUnseen | update-imports/functions/walk-dir.ts:8-11 | the contents of `node_modules` and `.git` directories never affect the output |
| WalkDir.NoExtensions | update-imports/functions/walk-dir.ts:13-14 | an empty extension list yields nothing |
| WalkDir.SoundRoute | update-imports/functions/walk-dir.ts:5-15 | every yielded path is a wanted file reached without entering a skipped directory, its path joining the names along the way |
| WalkDir.WalkComplete | update-imports/functions/walk-dir.ts:5-15 | every wanted file reached without entering a skipped directory is yielded |
| WalkDir.WalkExactly | update-imports/functions/walk-dir.ts:5-15 | a path is yielded exactly when it is such a file |
| WalkDir.FileNamedLikeSkipped | update-imports/functions/walk-dir.ts:8-13 | only directories are pruned by name; a file called `node_modules` is filtered by extension |
| RepoName.Run | update-imports/functions/get-repo-name-from-url.ts:2 | a negated character class taken greedily stops at the first stop character or the end |
| RepoName.TryName | update-imports/functions/get-repo-name-from-url.ts:2 | backtracking over the name's length finds the longest name after which `(?:.git)?$` matches, or none |
| RepoName.TryOwner | update-imports/functions/get-repo-name-from-url.ts:2 | the owner must be the whole run up to the next `/`, and the name after it is the longest allowed |
| RepoName.MatchAt | update-imports/functions/get-repo-name-from-url.ts:2 | the expression matches at an index exactly when the URL is shaped so there, with the longest name |
| RepoName.Search | update-imports/functions/get-repo-name-from-url.ts:2 | the search finds the leftmost index where the expression matches |
| RepoName.GetRepoNameFromUrl | update-imports/functions/get-repo-name-from-url.ts:1-7 | the result is non-empty and free of `/` and `.`; the function throws exactly when no index is shaped as the expression requires |
| RepoName.LeftmostLongest | update-imports/functions/get-repo-name-from-url.ts:2-4 | the name returned is that of the leftmost match, the longest that match allows |
| RepoName.Hosted | update-imports/functions/get-repo-name-from-url.ts:2-4 | a remote `<lead>github?com[/:]<owner>/<name>[.git]` yields the name |
| RepoName.HttpsRemote | update-imports/functions/get-repo-name-from-url.ts:2-4 | `https://github.com/o/r.git` and `https://github.com/o/r` yield `r` |
| RepoName.SshRemote | update-imports/functions/get-repo-name-from-url.ts:2-4 | `git@github.com:o/r.git` yields `r` |
| RepoName.AnyHostSeparator | update-imports/functions/get-repo-name-from-url.ts:2 | the unescaped dot of the host accepts any character but a line terminator |
| RepoName.LineBreakInHost | update-imports/functions/get-repo-name-from-url.ts:2-6 | a line terminator in place of the dot makes the function throw |
| RepoName.TreePath | update-imports/functions/get-repo-name-from-url.ts:2-6 | `.../o/r/tree/main` makes the function throw |
| ProjectFlow.FirstFail | update-imports/functions/process-project.ts:45-104 | the number of calls that complete before the first one that throws |
| ProjectFlow.Issue | update-imports/functions/process-project.ts:41-88 | calls are issued in order up to and including the first that throws; the flag says whether all completed |
| ProjectFlow.Component | update-imports/functions/process-project.ts:46-104 | an exception escapes exactly when an update or check throws, and then no git command is issued; the gate and branch commands are never issued again |
| ProjectFlow.Components | update-imports/functions/process-project.ts:45-105 | the loop over the components only extends the trace, and adds no gate, branch read or branch creation step; characterised by ProjectFlow.ComponentsAllOk and ProjectFlow.LoopContinues |
| ProjectFlow.PullRequestStage | update-imports/functions/process-project.ts:119-213 | the pull request stage always restores the directory and returns; it returns false only when a token exists and building the client throws |
| ProjectFlow.ProcessProject | update-imports/functions/process-project.ts:18-214 | the directory is restored exactly when the function returns; a rejecting gate returns false after the gate alone; a throwing gate escapes |
| ProjectFlow.HappyPath | update-imports/functions/process-project.ts:29-213 | when every call completes: gate, branch read and created once, each component's updates of the same file list, checks and git commands in order, then the pull request; the result is true |
| ProjectFlow.ComponentsAllOk | update-imports/functions/process-project.ts:45-105 | when every call completes, the components are processed in list order with the same file list |
| ProjectFlow.BranchOnce | update-imports/functions/process-project.ts:41-44 | the branch is read and created once, before any file update, and never again |
| ProjectFlow.WorkFailureEscapes | update-imports/functions/process-project.ts:47-68 | a failing update or check stops the component at that call, issues no git command and no checkout, and ends the loop |
| ProjectFlow.CheckFailureEscapes | update-imports/functions/process-project.ts:45-71 | in the whole function, when an update or check of the first component throws, the exception escapes with the directory not restored and no checkout issued |
| ProjectFlow.ChecksFollowUpdates | update-imports/functions/process-project.ts:47-68 | the checks run, in the order lint, build, prettier:fix, prettier, after all updates, even when no file was modified |
| ProjectFlow.GitFailureReverts | update-imports/functions/process-project.ts:71-104 | a failing git command is followed by exactly one checkout of the original branch, and nothing escapes |
| ProjectFlow.GitFailuresStillReturn | update-imports/functions/process-project.ts:45-214 | in the whole function, when every call but git commands completes, the function returns true and restores the directory, however many git commands fail |
| ProjectFlow.ComponentsNoEscape | update-imports/functions/process-project.ts:45-105 | when every update and check completes, no exception escapes the loop |
| ProjectFlow.LoopContinues | update-imports/functions/process-project.ts:45-105 | after a git failure or success the loop goes on with the next component |
| ProjectFlow.ComponentPushed | update-imports/functions/process-project.ts:73-88 | the git sequence is status, add without the package files, commit `<message> - <component>`, and push to the branch |
| ProjectFlow.RunAimed | update-imports/functions/process-project.ts:44-135 | every push goes to the one configured branch, every checkout to the original branch, and every update is for a listed component |

## Left out

- The fleet driver `update-imports/main.ts` is left out. It covers cloning, the working
  directories, and the project counter, which are file-system plumbing. It passes the string
  `IMPORT_PATH` where `processProject` expects a list. The model takes the list as a
  `seq<string>`.
- `clone-repo.ts` and `run-git-command.ts` are thin wrappers around `execSync`. In
  `ProjectFlow`, each call they make is an outcome given as data: completed or threw.
- `find-next-projects.ts` (project discovery) and `config.ts` (constants) are left out. The
  configured values are the fields of `ProjectFlow.Config` and the `minVersion` parameter.
- Reading and writing the file in `updateImportsInFile` is left out. The function is modelled
  on the content, and the write happens exactly when `changed` is true. The log line is left out.
- `JSON.parse` is not modelled. The package file is given as `Missing`, `Malformed`, or an
  already parsed `Manifest` whose entries are strings.
- `VersionGate.ToNumber`: it models `Number` only for strings of ASCII digits (`""` is 0) and
  gives NaN for everything else. Hexadecimal, exponents, surrounding white space, signs and
  `Infinity` are not modelled. A digit string is read here as an exact natural number. The
  source's `Number` is a double: it rounds above 2^53 and gives `Infinity` from about 309 digits
  on. So the version `9007199254740993.0` against the minimum `9007199254740992.5` is accepted
  here, while in the source both majors round to 9007199254740992, and the minor 0 is below 5.
- `WalkDir.JoinPath`: it models `path.join` only for a root without `.`/`..` segments or
  doubled separators. The tree is given as data, finite, with entry names free of separators.
  Symbolic links, `statSync` errors and `readdirSync` errors are not modelled. An unreadable
  tree is a `None` tree, and the call escapes.
- The pull request is one step whose outcome is data. The Octokit client, the REST call, the
  remote-URL expression at process-project.ts:127 and the body text are left out. Whether the
  remote parses is part of `World`.
- `RepoName.GetRepoNameFromUrl`: strings are sequences of code points, while the source's
  expression has no `u` flag and reads UTF-16 code units. A character outside the Basic
  Multilingual Plane where `.` stands, as in `https://github😀com/o/r`, is accepted here as one
  character and yields `r`. The source's `.` takes only the high surrogate, `com` fails on the
  low one, and the function throws. The same holds for the `.` of the optional `.git` tail. The
  negated classes, `trim` and `split` give the same results either way.
- Logging and `process.chdir` are left out. Only whether the working directory was restored
  is tracked.
- `ImportRewrite.RelocateTwice`: the source promises nothing here, but the evident intent is
  that a second run returns false. This lemma proves it only when:
  - the file has one core import;
  - the file has no components import;
  - nothing before the core import can start an `import`;
  - the core import's names hold no `$`.

  Removing an import can join the surrounding text into a new match.
- `ImportRewrite.RelocateTwiceExisting`: covers the file that already has a components import,
  under the conditions of `ImportRewrite.RelocateIntoExistingImport`, but only when names remain
  in the core import. When the core import held only the symbol and is deleted, whether a new
  core match can form across the text between the two imports and the rewritten components
  import is not proved.
- `ImportRewrite.RelocatedCoreNames` and `ImportRewrite.RelocatedExistingCoreNames`: they state
  the remaining names only under the same conditions as `ImportRewrite.RelocateTwice` and
  `ImportRewrite.RelocateTwiceExisting` respectively.
- `ImportFindings.FixedAgrees` and `ImportFindings.FixedAgreesExisting`: they prove the corrected
  and original rewrites agree only on files with one import per module, the core import first,
  nothing before it that can start an `import`, and no `$` in the names. Other files are not
  covered, including files where the original behaves as intended.
- `ImportFindings.RelocateFixed` and `ImportFindings.RelocateFixedExisting`: they describe the
  corrected rewrite's output only when nothing before the first core import can start an
  `import`, and, for the second, when the components import comes after it and is the only one.
- `ImportFindings.RelocateFixedTwice`: it is proved only for files without a components import,
  with nothing before the first core import that can start an `import`, and with a single core
  import when no names remain.
- `ImportRewrite.CoreRewritten`: it is proved only for a single core import whose names hold no `$`.
  With a `$` the source does not keep the names as read; see `ImportFindings.DollarNameCorrupted`.
- `ImportRewrite.ComponentsRewritten`: it is proved only when the core import comes before the
  components import, nothing before the core import can start an `import`, the components
  import is the only one, the symbol is listed in the core import, and neither list holds `$`.
- `ImportRewrite.NamesAfterRebuild`: it is proved only when no match of the module starts in the
  text before the statement, and, for an empty list, none starts in the text after it. Otherwise
  an earlier match, or one formed by deleting the statement, is found first.
- `ImportRewrite.RelocateIntoNewImport` and `ImportRewrite.RelocateIntoExistingImport`: these
  describe the output only for files where:
  - each module has one import, with the core import first;
  - nothing before the core import can start an `import`;
  - the names hold no `$`.

  `UpdateImportsInFile` itself is defined for every input. The findings below cover the other
  cases.

## Findings

| source | as written | input that shows it | evidently intended | confidence | as-written member | corrected member |
|---|---|---|---|---|---|---|
| update-imports/functions/update-imports-in-file.ts:52-59 | the core expression has the `g` flag, so `replace` rewrites every core import with the names read from the first one | `import { A, X } from "<core>";\nimport { B } from "<core>";` with symbol `X`: the second import becomes `import { A } from "<core>";` and `B` is lost | only the import the names were read from is rewritten; the second keeps `B` | not executed | ImportFindings.SecondCoreImportOverwritten | ImportFindings.SecondCoreImportKept |
| update-imports/functions/update-imports-in-file.ts:52-67 | the rebuilt statement is passed to `replace` as a replacement string, so `$$`, `$&`, `` $` ``, `$'` and `$1` inside a name are expanded | `import { $$Icon, X } from "<core>";` with symbol `X`: the core import becomes `import { $Icon } from "<core>";` | the remaining names are written back literally | not executed | ImportFindings.DollarNameCorrupted | ImportFindings.DollarNameKept |

`ImportFindings.UpdateImportsInFileFixed` is the corrected rewrite. It replaces only the first
match of each module and inserts the rebuilt statement literally.
`ImportFindings.FixedAgrees` and `ImportFindings.FixedAgreesExisting` prove that it agrees
with the original on files with one import per module, the core import first, nothing before it
that can start an `import`, and no `$` in the names.
