/** `processProject`: the control flow around one project, as the trace of the external calls it
    issues. Every outside outcome is data: the package file and the directory tree read from disk,
    the branch `git rev-parse` reports, whether a token and a parsable remote exist, and for each
    call the trace holds, whether it completed or threw. */
module ProjectFlow {
  import opened Wrappers
  import VersionGate
  import WalkDir

  /** The configured values the function reads. */
  datatype Config = Config(
    extensions: seq<string>,
    branch: string,
    baseBranch: string,
    commitMessage: string,
    prTitle: string,
    validateVersion: bool,
    minVersion: string)

  /** Everything outside the function. `ok(i)` is the outcome of the call at index i of the trace:
      true when it completed, false when it threw. */
  datatype World = World(
    packageFile: VersionGate.PackageFile,
    tree: Option<seq<WalkDir.Entry>>,
    currentBranch: string,
    hasToken: bool,
    remoteParses: bool,
    ok: nat -> bool)

  /** The `npm run` scripts of the pre-commit checks. */
  datatype Script = Lint | Build | PrettierFix | Prettier

  /** The git commands issued. `Add` stages everything except `package.json` and `package-lock.json`. */
  datatype GitCommand =
    | RevParse
    | CreateBranch(name: string)
    | Status
    | Add
    | Commit(message: string)
    | Push(target: string)
    | Checkout(original: string)
    | RemoteUrl

  /** One external call: the version gate, a file update, a check, a git command, the construction
      of the API client, and the pull request. */
  datatype Step =
    | Validate
    | Update(file: string, component: string)
    | Check(script: Script)
    | Git(command: GitCommand)
    | Client
    | PullRequest(head: string, base: string, title: string)

  /** How the call ends: a promise resolved with a boolean, or an exception that escapes. */
  datatype Ending = Returned(value: bool) | Escaped

  /** The calls issued in order, how the function ends, and whether the working directory was
      changed back. */
  datatype Run = Run(trace: seq<Step>, ending: Ending, restored: bool)

  /** The command line of a git step, after `git `. */
  function GitText(c: GitCommand): string {
    match c
    case RevParse => "rev-parse --abbrev-ref HEAD"
    case CreateBranch(name) => "checkout -b " + name
    case Status => "status --porcelain"
    case Add => "add . ':!package.json' ':!package-lock.json'"
    case Commit(message) => "commit -m \"" + message + "\""
    case Push(target) => "push --set-upstream origin " + target
    case Checkout(original) => "checkout " + original
    case RemoteUrl => "config --get remote.origin.url"
  }

  /** The command line of a check. */
  function ScriptText(s: Script): string {
    match s
    case Lint => "npm run lint"
    case Build => "npm run build"
    case PrettierFix => "npm run prettier:fix"
    case Prettier => "npm run prettier"
  }

  /** Every call from index `from` up to `to` completes. */
  ghost predicate AllOk(ok: nat -> bool, from: nat, to: nat) {
    forall i: nat :: from <= i < to ==> ok(i)
  }

  /** How many of n calls from index `from` complete before the first that throws. */
  function FirstFail(ok: nat -> bool, from: nat, n: nat): (k: nat)
    ensures k <= n
    ensures forall i: nat :: from <= i < from + k ==> ok(i)
    ensures k < n ==> !ok(from + k)
    decreases n
  {
    if n == 0 || !ok(from) then 0 else 1 + FirstFail(ok, from + 1, n - 1)
  }

  /** How many of n calls are issued when calls are made in turn until one throws. */
  function Issued(ok: nat -> bool, from: nat, n: nat): (m: nat)
    ensures m <= n
  {
    var k := FirstFail(ok, from, n);
    if k < n then k + 1 else n
  }

  /** Issue `steps` one after another after `trace`, stopping after the first that throws: the
      calls issued, and whether every one completed. */
  function Issue(ok: nat -> bool, trace: seq<Step>, steps: seq<Step>): (r: (seq<Step>, bool))
    ensures r.0 == trace + steps[..Issued(ok, |trace|, |steps|)]
    ensures r.1 <==> AllOk(ok, |trace|, |trace| + |steps|)
    ensures trace <= r.0 && |r.0| <= |trace| + |steps|
    ensures forall i :: |trace| <= i < |r.0| ==> r.0[i] == steps[i - |trace|]
    decreases |steps|
  {
    if steps == [] then (trace, true)
    else if !ok(|trace|) then (trace + [steps[0]], false)
    else
      var r := Issue(ok, trace + [steps[0]], steps[1..]);
      IssuedStep(ok, trace, steps);
      r
  }

  /** Issuing a first call that completes, then the rest. */
  lemma IssuedStep(ok: nat -> bool, trace: seq<Step>, steps: seq<Step>)
    requires steps != [] && ok(|trace|)
    ensures trace + [steps[0]] + steps[1..][..Issued(ok, |trace| + 1, |steps| - 1)]
              == trace + steps[..Issued(ok, |trace|, |steps|)]
  {
    var k := Issued(ok, |trace| + 1, |steps| - 1);
    assert Issued(ok, |trace|, |steps|) == k + 1;
    assert steps[..k + 1] == [steps[0]] + steps[1..][..k];
  }

  /** `updateImportsInFile(filePath, component)` for every file of the list, in order. */
  function Updates(files: seq<string>, component: string): seq<Step> {
    seq(|files|, i requires 0 <= i < |files| => Update(files[i], component))
  }

  /** The checks, in the order they run. */
  function Checks(): seq<Step> {
    [Check(Lint), Check(Build), Check(PrettierFix), Check(Prettier)]
  }

  /** The updates and checks are not git commands, and none of them is the gate. */
  lemma WorkLater(files: seq<string>, component: string)
    ensures forall i :: 0 <= i < |Updates(files, component) + Checks()| ==>
              !(Updates(files, component) + Checks())[i].Git? && Later((Updates(files, component) + Checks())[i])
  {
  }

  /** The git sequence of one component. */
  function GitSteps(cfg: Config, component: string): seq<Step> {
    [Git(Status), Git(Add), Git(Commit(cfg.commitMessage + " - " + component)), Git(Push(cfg.branch))]
  }

  /** Steps the loop and the pull request stage may issue: never the gate, never the branch
      commands. */
  predicate Later(s: Step) {
    s != Validate && !(s.Git? && (s.command.RevParse? || s.command.CreateBranch?))
  }

  /** One component: the file updates and the checks, where a throw escapes the whole function;
      then the git sequence inside its `try`, where a throw issues one checkout of the original
      branch, whose own failure is ignored. The flag says whether an exception escapes. */
  function Component(cfg: Config, w: World, files: seq<string>, component: string, trace: seq<Step>): (r: (seq<Step>, bool))
    ensures trace <= r.0
    ensures r.1 <==> !AllOk(w.ok, |trace|, |trace| + |files| + 4)
    ensures r.1 ==> forall i :: |trace| <= i < |r.0| ==> !r.0[i].Git?
    ensures forall i :: |trace| <= i < |r.0| ==> Later(r.0[i])
  {
    var work := Updates(files, component) + Checks();
    WorkLater(files, component);
    var (t1, fine) := Issue(w.ok, trace, work);
    if !fine then (t1, true)
    else
      var (t2, pushed) := Issue(w.ok, t1, GitSteps(cfg, component));
      if pushed then (t2, false) else (t2 + [Git(Checkout(w.currentBranch))], false)
  }

  /** `for (const component of importMap)`: the components in order, the same file list for each,
      until an exception escapes. */
  function Components(cfg: Config, w: World, files: seq<string>, components: seq<string>, trace: seq<Step>): (r: (seq<Step>, bool))
    ensures trace <= r.0
    ensures forall i :: |trace| <= i < |r.0| ==> Later(r.0[i])
    decreases |components|
  {
    if components == [] then (trace, false)
    else
      var (t, escaped) := Component(cfg, w, files, components[0], trace);
      if escaped then (t, true) else Components(cfg, w, files, components[1..], t)
  }

  /** The pull request stage, inside the `try` whose `finally` restores the working directory: no
      token, a failing remote lookup, an unparsable remote and a rejected pull request all return
      true; only a client that cannot be built reaches the `catch` and returns false. */
  function PullRequestStage(cfg: Config, w: World, trace: seq<Step>): (r: Run)
    ensures r.restored && r.ending.Returned?
    ensures r.ending == Returned(false) <==> w.hasToken && !w.ok(|trace|)
    ensures trace <= r.trace
    ensures forall i :: |trace| <= i < |r.trace| ==> Later(r.trace[i])
  {
    if !w.hasToken then Run(trace, Returned(true), true)
    else if !w.ok(|trace|) then Run(trace + [Client], Returned(false), true)
    else
      var t := trace + [Client, Git(RemoteUrl)];
      if !w.ok(|trace| + 1) || !w.remoteParses then Run(t, Returned(true), true)
      else Run(t + [PullRequest(cfg.branch, cfg.baseBranch, cfg.prTitle)], Returned(true), true)
  }

  /** The steps before the loop: the gate when it is enabled. */
  function GateSteps(cfg: Config): seq<Step> {
    if cfg.validateVersion then [Validate] else []
  }

  /** The gate is enabled and `JSON.parse` throws on the package file. */
  predicate GateThrows(cfg: Config, w: World) {
    cfg.validateVersion && VersionGate.Validate(w.packageFile, cfg.minVersion).Throws?
  }

  /** The gate is enabled and finds the project ineligible. */
  predicate GateRejects(cfg: Config, w: World) {
    cfg.validateVersion && VersionGate.Validate(w.packageFile, cfg.minVersion) == VersionGate.Returns(false)
  }

  /** `processProject(projectPath, importMap)`. */
  function ProcessProject(cfg: Config, w: World, importMap: seq<string>): (r: Run)
    ensures r.restored <==> r.ending.Returned?
    ensures GateRejects(cfg, w) ==> r == Run([Validate], Returned(false), true)
    ensures GateThrows(cfg, w) ==> r == Run([Validate], Escaped, false)
    ensures r.ending == Returned(false) ==> r.trace == [Validate] || (r.trace != [] && r.trace[|r.trace| - 1] == Client)
  {
    var gate := GateSteps(cfg);
    if GateThrows(cfg, w) then Run(gate, Escaped, false)
    else if GateRejects(cfg, w) then Run(gate, Returned(false), true)
    else if w.tree.None? then Run(gate, Escaped, false)
    else
      var files := WalkDir.Walk(".", w.tree.value, cfg.extensions);
      var (t, fine) := Issue(w.ok, gate, [Git(RevParse), Git(CreateBranch(cfg.branch))]);
      if !fine then Run(t, Escaped, false)
      else
        var (t2, escaped) := Components(cfg, w, files, importMap, t);
        if escaped then Run(t2, Escaped, false)
        else
          var r := PullRequestStage(cfg, w, t2);
          assert r.ending == Returned(false) ==> r.trace[|r.trace| - 1] == Client;
          r
  }

  /** Every call of a run that completes everything completes. */
  lemma IssueAllOk(ok: nat -> bool, trace: seq<Step>, steps: seq<Step>)
    requires AllOk(ok, |trace|, |trace| + |steps|)
    ensures Issue(ok, trace, steps) == (trace + steps, true)
  {
    assert steps[..|steps|] == steps;
  }

  /** The calls of the components, in order, when every call completes: for each component the
      updates of every file in list order, the four checks, and the four git commands. */
  function Blocks(cfg: Config, files: seq<string>, components: seq<string>): seq<Step>
    decreases |components|
  {
    if components == [] then []
    else Updates(files, components[0]) + Checks() + GitSteps(cfg, components[0]) + Blocks(cfg, files, components[1..])
  }

  lemma BlocksFirst(cfg: Config, files: seq<string>, components: seq<string>)
    requires components != []
    ensures Blocks(cfg, files, components)
              == Updates(files, components[0]) + Checks() + GitSteps(cfg, components[0]) + Blocks(cfg, files, components[1..])
  {
  }

  /** A component that lets no exception escape hands its trace on to the next. */
  lemma ComponentsNext(cfg: Config, w: World, files: seq<string>, components: seq<string>, trace: seq<Step>, after: seq<Step>)
    requires components != [] && Component(cfg, w, files, components[0], trace) == (after, false)
    ensures Components(cfg, w, files, components, trace) == Components(cfg, w, files, components[1..], after)
  {
  }

  /** The calls of the pull request stage when every call completes. */
  function Finale(cfg: Config, w: World): seq<Step> {
    if !w.hasToken then []
    else [Client, Git(RemoteUrl)] + (if w.remoteParses then [PullRequest(cfg.branch, cfg.baseBranch, cfg.prTitle)] else [])
  }

  /** One component when every call completes. */
  lemma ComponentAllOk(cfg: Config, w: World, files: seq<string>, component: string, trace: seq<Step>)
    requires forall i: nat :: w.ok(i)
    ensures Component(cfg, w, files, component, trace)
              == (trace + (Updates(files, component) + Checks() + GitSteps(cfg, component)), false)
  {
    hide Updates, Issue, VersionGate.Validate;
    var work := Updates(files, component) + Checks();
    IssueAllOk(w.ok, trace, work);
    IssueAllOk(w.ok, trace + work, GitSteps(cfg, component));
    assert trace + work + GitSteps(cfg, component) == trace + (work + GitSteps(cfg, component));
  }

  lemma {:induction false} ComponentsAllOk(cfg: Config, w: World, files: seq<string>, components: seq<string>, trace: seq<Step>)
    requires forall i: nat :: w.ok(i)
    ensures Components(cfg, w, files, components, trace) == (trace + Blocks(cfg, files, components), false)
    decreases |components|
  {
    if components == [] {
      assert trace + [] == trace;
    } else {
      var block := Updates(files, components[0]) + Checks() + GitSteps(cfg, components[0]);
      ComponentsAllOk(cfg, w, files, components[1..], trace + block);
      ComponentsAllOkStep(cfg, w, files, components, trace);
    }
  }

  lemma ComponentsAllOkStep(cfg: Config, w: World, files: seq<string>, components: seq<string>, trace: seq<Step>)
    requires forall i: nat :: w.ok(i)
    requires components != []
    requires var block := Updates(files, components[0]) + Checks() + GitSteps(cfg, components[0]);
             Components(cfg, w, files, components[1..], trace + block)
               == (trace + block + Blocks(cfg, files, components[1..]), false)
    ensures Components(cfg, w, files, components, trace) == (trace + Blocks(cfg, files, components), false)
  {
    hide Component, Issue, Updates, Blocks, Components;
    var block := Updates(files, components[0]) + Checks() + GitSteps(cfg, components[0]);
    ComponentAllOk(cfg, w, files, components[0], trace);
    ComponentsNext(cfg, w, files, components, trace, trace + block);
    BlocksFirst(cfg, files, components);
    assert trace + block + Blocks(cfg, files, components[1..]) == trace + Blocks(cfg, files, components);
  }


  /** When the gate lets the project through, the tree can be listed and every call completes:
      the gate, the branch read and created once, each component in order with the same file
      list, and the pull request stage; the result is true and the directory restored. */
  lemma HappyPath(cfg: Config, w: World, importMap: seq<string>)
    requires cfg.validateVersion ==> VersionGate.Validate(w.packageFile, cfg.minVersion) == VersionGate.Returns(true)
    requires w.tree.Some?
    requires forall i: nat :: w.ok(i)
    ensures ProcessProject(cfg, w, importMap) == Run(
              GateSteps(cfg) + [Git(RevParse), Git(CreateBranch(cfg.branch))]
                + Blocks(cfg, WalkDir.Walk(".", w.tree.value, cfg.extensions), importMap) + Finale(cfg, w),
              Returned(true), true)
  {
    var files := WalkDir.Walk(".", w.tree.value, cfg.extensions);
    var t := GateSteps(cfg) + [Git(RevParse), Git(CreateBranch(cfg.branch))];
    IssueAllOk(w.ok, GateSteps(cfg), [Git(RevParse), Git(CreateBranch(cfg.branch))]);
    ComponentsAllOk(cfg, w, files, importMap, t);
    FinaleAllOk(cfg, w, t + Blocks(cfg, files, importMap));
  }

  lemma FinaleAllOk(cfg: Config, w: World, trace: seq<Step>)
    requires forall i: nat :: w.ok(i)
    ensures PullRequestStage(cfg, w, trace) == Run(trace + Finale(cfg, w), Returned(true), true)
  {
    if w.hasToken {
      if w.remoteParses {
        assert trace + [Client, Git(RemoteUrl)] + [PullRequest(cfg.branch, cfg.baseBranch, cfg.prTitle)] == trace + Finale(cfg, w);
      } else {
        assert trace + [Client, Git(RemoteUrl)] == trace + Finale(cfg, w);
      }
    } else {
      assert trace + [] == trace;
    }
  }

  /** The branch is read and then created exactly once, before any file update: the two commands
      follow the gate directly, and nothing after them is the gate or a branch command. */
  lemma BranchOnce(cfg: Config, w: World, importMap: seq<string>)
    ensures forall i :: 0 <= i < |ProcessProject(cfg, w, importMap).trace| && ProcessProject(cfg, w, importMap).trace[i].Update? ==>
              |GateSteps(cfg)| + 2 <= i
              && ProcessProject(cfg, w, importMap).trace[|GateSteps(cfg)|] == Git(RevParse)
              && ProcessProject(cfg, w, importMap).trace[|GateSteps(cfg)| + 1] == Git(CreateBranch(cfg.branch))
    ensures forall i :: |GateSteps(cfg)| + 2 <= i < |ProcessProject(cfg, w, importMap).trace| ==>
              Later(ProcessProject(cfg, w, importMap).trace[i])
  {
    hide VersionGate.Validate, WalkDir.Walk, Component, Updates, Issue, Components;
    var r := ProcessProject(cfg, w, importMap);
    var gate := GateSteps(cfg);
    var prelude := [Git(RevParse), Git(CreateBranch(cfg.branch))];
    if GateThrows(cfg, w) || GateRejects(cfg, w) || w.tree.None? {
      assert r.trace == gate;
    } else {
      var files := WalkDir.Walk(".", w.tree.value, cfg.extensions);
      var (t, fine) := Issue(w.ok, gate, prelude);
      if !fine {
        assert r.trace == t && |t| <= |gate| + 2;
        assert forall i :: 0 <= i < |t| ==> !t[i].Update?;
      } else {
        assert t == gate + prelude;
        var (t2, escaped) := Components(cfg, w, files, importMap, t);
        assert t <= r.trace;
        assert forall i :: |t| <= i < |r.trace| ==> Later(r.trace[i]);
      }
    }
  }

  /** Every call completes exactly when none fails before the n-th. */
  lemma {:induction false} FirstFailAll(ok: nat -> bool, from: nat, n: nat)
    ensures FirstFail(ok, from, n) == n <==> AllOk(ok, from, from + n)
    decreases n
  {
    if n > 0 && ok(from) {
      FirstFailAll(ok, from + 1, n - 1);
    }
  }

  /** A failing update or check ends the function: the calls of the component stop at the failing
      one, no git command follows (in particular no checkout of the original branch), and the
      remaining components are never started. */
  lemma WorkFailureEscapes(cfg: Config, w: World, files: seq<string>, component: string, rest: seq<string>, trace: seq<Step>)
    requires !AllOk(w.ok, |trace|, |trace| + |files| + 4)
    ensures FirstFail(w.ok, |trace|, |files| + 4) < |files| + 4
    ensures !w.ok(|trace| + FirstFail(w.ok, |trace|, |files| + 4))
    ensures Component(cfg, w, files, component, trace)
              == (trace + (Updates(files, component) + Checks())[..FirstFail(w.ok, |trace|, |files| + 4) + 1], true)
    ensures Components(cfg, w, files, [component] + rest, trace) == Component(cfg, w, files, component, trace)
  {
    FirstFailAll(w.ok, |trace|, |files| + 4);
    assert ([component] + rest)[0] == component;
  }

  /** When the updates and checks of a component complete, they were issued in full, in order,
      whatever the number of files (none included); the git sequence follows. */
  lemma ChecksFollowUpdates(cfg: Config, w: World, files: seq<string>, component: string, trace: seq<Step>)
    requires AllOk(w.ok, |trace|, |trace| + |files| + 4)
    ensures trace + Updates(files, component) + Checks() <= Component(cfg, w, files, component, trace).0
    ensures !Component(cfg, w, files, component, trace).1
  {
    hide VersionGate.Validate, WalkDir.Walk, Issue;
    IssueAllOk(w.ok, trace, Updates(files, component) + Checks());
    assert trace + Updates(files, component) + Checks() == trace + (Updates(files, component) + Checks());
  }

  /** A failing git command, the checks having passed, issues the git commands up to the failing
      one and then exactly one checkout of the original branch, and no exception escapes. */
  lemma GitFailureReverts(cfg: Config, w: World, files: seq<string>, component: string, trace: seq<Step>)
    requires AllOk(w.ok, |trace|, |trace| + |files| + 4)
    requires !AllOk(w.ok, |trace| + |files| + 4, |trace| + |files| + 8)
    ensures FirstFail(w.ok, |trace| + |files| + 4, 4) < 4
    ensures Component(cfg, w, files, component, trace)
              == (trace + (Updates(files, component) + Checks())
                    + GitSteps(cfg, component)[..FirstFail(w.ok, |trace| + |files| + 4, 4) + 1]
                    + [Git(Checkout(w.currentBranch))], false)
  {
    hide VersionGate.Validate, WalkDir.Walk, Component, Issue;
    var work := Updates(files, component) + Checks();
    var k := FirstFail(w.ok, |trace| + |files| + 4, 4);
    IssueAllOk(w.ok, trace, work);
    FirstFailAll(w.ok, |trace| + |files| + 4, 4);
    var tw, git := trace + work, GitSteps(cfg, component);
    assert |tw| == |trace| + |files| + 4;
    GitIssue(w.ok, tw, git, |trace| + |files| + 4, k);
    var t2 := tw + git[..k + 1];
    ComponentAfterWork(cfg, w, files, component, trace, t2);
  }

  /** The component once its updates and checks completed and its git commands stopped early. */
  lemma ComponentAfterWork(cfg: Config, w: World, files: seq<string>, component: string, trace: seq<Step>, t2: seq<Step>)
    requires Issue(w.ok, trace, Updates(files, component) + Checks()) == (trace + (Updates(files, component) + Checks()), true)
    requires Issue(w.ok, trace + (Updates(files, component) + Checks()), GitSteps(cfg, component)) == (t2, false)
    ensures Component(cfg, w, files, component, trace) == (t2 + [Git(Checkout(w.currentBranch))], false)
  {
  }

  lemma GitIssue(ok: nat -> bool, trace: seq<Step>, git: seq<Step>, from: nat, k: nat)
    requires |git| == 4 && from == |trace| && k == FirstFail(ok, from, 4) && k < 4
    ensures Issue(ok, trace, git) == (trace + git[..k + 1], false)
  {
    FirstFailAll(ok, from, 4);
  }

  /** After a component from which no exception escapes, whether its git commands completed or
      not, the loop goes on with the next component on the same trace. */
  lemma LoopContinues(cfg: Config, w: World, files: seq<string>, component: string, rest: seq<string>, trace: seq<Step>)
    requires AllOk(w.ok, |trace|, |trace| + |files| + 4)
    ensures Components(cfg, w, files, [component] + rest, trace)
              == Components(cfg, w, files, rest, Component(cfg, w, files, component, trace).0)
  {
    assert ([component] + rest)[0] == component && ([component] + rest)[1..] == rest;
    ComponentsNext(cfg, w, files, [component] + rest, trace, Component(cfg, w, files, component, trace).0);
  }

  /** A failing update or check of the first component, the branch commands having completed,
      ends the whole function with the exception: the working directory is not changed back and
      the original branch is never checked out. */
  lemma CheckFailureEscapes(cfg: Config, w: World, importMap: seq<string>)
    requires !GateThrows(cfg, w) && !GateRejects(cfg, w) && w.tree.Some?
    requires w.ok(|GateSteps(cfg)|) && w.ok(|GateSteps(cfg)| + 1)
    requires importMap != []
    requires var files := WalkDir.Walk(".", w.tree.value, cfg.extensions);
             !AllOk(w.ok, |GateSteps(cfg)| + 2, |GateSteps(cfg)| + 2 + |files| + 4)
    ensures ProcessProject(cfg, w, importMap).ending == Escaped
    ensures !ProcessProject(cfg, w, importMap).restored
    ensures forall i :: 0 <= i < |ProcessProject(cfg, w, importMap).trace| ==>
              !(ProcessProject(cfg, w, importMap).trace[i].Git? && ProcessProject(cfg, w, importMap).trace[i].command.Checkout?)
  {
    hide VersionGate.Validate, WalkDir.Walk, Component, Components, Updates, Issue;
    var files := WalkDir.Walk(".", w.tree.value, cfg.extensions);
    var gate := GateSteps(cfg);
    var t := gate + [Git(RevParse), Git(CreateBranch(cfg.branch))];
    assert AllOk(w.ok, |gate|, |gate| + 2);
    IssueAllOk(w.ok, gate, [Git(RevParse), Git(CreateBranch(cfg.branch))]);
    FirstComponentEscapes(cfg, w, files, importMap, t);
    var r := ProcessProject(cfg, w, importMap);
    assert r.trace == Components(cfg, w, files, importMap, t).0;
    assert forall i :: 0 <= i < |t| ==> !(t[i].Git? && t[i].command.Checkout?);
  }

  /** A failing update or check of the first component ends the loop with the exception, and the
      loop issued no git command. */
  lemma FirstComponentEscapes(cfg: Config, w: World, files: seq<string>, components: seq<string>, trace: seq<Step>)
    requires components != []
    requires !AllOk(w.ok, |trace|, |trace| + |files| + 4)
    ensures Components(cfg, w, files, components, trace).1
    ensures forall i :: |trace| <= i < |Components(cfg, w, files, components, trace).0| ==>
              !Components(cfg, w, files, components, trace).0[i].Git?
  {
    hide Component, Issue;
    WorkFailureEscapes(cfg, w, files, components[0], components[1..], trace);
    assert [components[0]] + components[1..] == components;
  }

  /** Git failures never stop the run: when every call issued that is not a git command
      completes (the file updates, the checks, the construction of the client) and the branch
      commands complete, every component is tried and the function returns true with the
      working directory changed back, however many git commands threw. */
  lemma GitFailuresStillReturn(cfg: Config, w: World, importMap: seq<string>)
    requires !GateThrows(cfg, w) && !GateRejects(cfg, w) && w.tree.Some?
    requires w.ok(|GateSteps(cfg)|) && w.ok(|GateSteps(cfg)| + 1)
    requires forall i :: 0 <= i < |ProcessProject(cfg, w, importMap).trace| && !ProcessProject(cfg, w, importMap).trace[i].Git? ==>
               w.ok(i)
    ensures ProcessProject(cfg, w, importMap).ending == Returned(true)
    ensures ProcessProject(cfg, w, importMap).restored
  {
    hide VersionGate.Validate, WalkDir.Walk, Component, Components, Updates, PullRequestStage;
    var files := WalkDir.Walk(".", w.tree.value, cfg.extensions);
    var gate := GateSteps(cfg);
    var t := gate + [Git(RevParse), Git(CreateBranch(cfg.branch))];
    assert AllOk(w.ok, |gate|, |gate| + 2);
    IssueAllOk(w.ok, gate, [Git(RevParse), Git(CreateBranch(cfg.branch))]);
    var (t2, escaped) := Components(cfg, w, files, importMap, t);
    var r := ProcessProject(cfg, w, importMap);
    if escaped {
      assert r.trace == t2;
    } else {
      assert r == PullRequestStage(cfg, w, t2);
    }
    ComponentsNoEscape(cfg, w, files, importMap, t, r.trace);
    assert r == PullRequestStage(cfg, w, t2);
    StageReturnsTrue(cfg, w, t2, r.trace);
  }

  /** No exception escapes the loop when every call it issues that is not a git command
      completes; `whole` is any trace the loop's trace is a prefix of. */
  lemma {:induction false} ComponentsNoEscape(cfg: Config, w: World, files: seq<string>, components: seq<string>, trace: seq<Step>, whole: seq<Step>)
    requires Components(cfg, w, files, components, trace).0 <= whole
    requires forall i :: |trace| <= i < |whole| && !whole[i].Git? ==> w.ok(i)
    ensures !Components(cfg, w, files, components, trace).1
    decreases |components|
  {
    if components != [] {
      var (t, escaped) := Component(cfg, w, files, components[0], trace);
      if escaped {
        WorkFailureEscapes(cfg, w, files, components[0], components[1..], trace);
        assert false;
      } else {
        ComponentsNext(cfg, w, files, components, trace, t);
        ComponentsNoEscape(cfg, w, files, components[1..], t, whole);
      }
    }
  }

  /** The pull request stage returns true when the construction of the client, if issued,
      completes: it is the one call of the stage that is not a git command and can make it
      return false. */
  lemma StageReturnsTrue(cfg: Config, w: World, trace: seq<Step>, whole: seq<Step>)
    requires PullRequestStage(cfg, w, trace).trace <= whole
    requires forall i :: |trace| <= i < |whole| && !whole[i].Git? ==> w.ok(i)
    ensures PullRequestStage(cfg, w, trace).ending == Returned(true)
  {
  }

  /** A component whose calls all complete issues its updates, checks and git commands in full,
      and no checkout. */
  lemma ComponentPushed(cfg: Config, w: World, files: seq<string>, component: string, trace: seq<Step>)
    requires AllOk(w.ok, |trace|, |trace| + |files| + 8)
    ensures Component(cfg, w, files, component, trace)
              == (trace + (Updates(files, component) + Checks()) + GitSteps(cfg, component), false)
  {
    var work := Updates(files, component) + Checks();
    IssueAllOk(w.ok, trace, work);
    IssueAllOk(w.ok, trace + work, GitSteps(cfg, component));
  }

  /** What a call names is fixed by the configuration and the world: every push and the pull
      request name the one new branch, every checkout the branch read at the start, and every
      update a component of the list. */
  predicate Aimed(cfg: Config, w: World, components: seq<string>, s: Step) {
    && (s.Git? && s.command.Push? ==> s.command.target == cfg.branch)
    && (s.Git? && s.command.Checkout? ==> s.command.original == w.currentBranch)
    && (s.PullRequest? ==> s.head == cfg.branch && s.base == cfg.baseBranch)
    && (s.Update? ==> s.component in components)
  }

  lemma ComponentAimed(cfg: Config, w: World, files: seq<string>, component: string, components: seq<string>, trace: seq<Step>)
    requires component in components
    ensures forall i :: |trace| <= i < |Component(cfg, w, files, component, trace).0| ==>
              Aimed(cfg, w, components, Component(cfg, w, files, component, trace).0[i])
  {
    var work := Updates(files, component) + Checks();
    assert forall j :: 0 <= j < |work| ==> Aimed(cfg, w, components, work[j]);
    var (t1, fine) := Issue(w.ok, trace, work);
    if fine {
      var git := GitSteps(cfg, component);
      assert forall j :: 0 <= j < |git| ==> Aimed(cfg, w, components, git[j]);
      var (t2, pushed) := Issue(w.ok, t1, git);
      assert forall i :: |trace| <= i < |t2| ==> Aimed(cfg, w, components, t2[i]);
    }
  }

  lemma {:induction false} ComponentsAimed(cfg: Config, w: World, files: seq<string>, components: seq<string>, all: seq<string>, trace: seq<Step>)
    requires forall c :: c in components ==> c in all
    ensures forall i :: |trace| <= i < |Components(cfg, w, files, components, trace).0| ==>
              Aimed(cfg, w, all, Components(cfg, w, files, components, trace).0[i])
    decreases |components|
  {
    if components != [] {
      var (t, escaped) := Component(cfg, w, files, components[0], trace);
      ComponentAimed(cfg, w, files, components[0], all, trace);
      if !escaped {
        ComponentsNext(cfg, w, files, components, trace, t);
        ComponentsAimed(cfg, w, files, components[1..], all, t);
      }
    }
  }

  /** Every call of a run is aimed: one branch name for every push, whatever happens. */
  lemma RunAimed(cfg: Config, w: World, importMap: seq<string>)
    ensures forall i :: 0 <= i < |ProcessProject(cfg, w, importMap).trace| ==>
              Aimed(cfg, w, importMap, ProcessProject(cfg, w, importMap).trace[i])
  {
    hide VersionGate.Validate, WalkDir.Walk, Issue, Components, PullRequestStage;
    var r := ProcessProject(cfg, w, importMap);
    if !(GateThrows(cfg, w) || GateRejects(cfg, w) || w.tree.None?) {
      var files := WalkDir.Walk(".", w.tree.value, cfg.extensions);
      var (t, fine) := Issue(w.ok, GateSteps(cfg), [Git(RevParse), Git(CreateBranch(cfg.branch))]);
      PreludeAimed(cfg, w, importMap);
      if fine {
        var (t2, escaped) := Components(cfg, w, files, importMap, t);
        ComponentsAimed(cfg, w, files, importMap, importMap, t);
        if !escaped {
          StageAimed(cfg, w, importMap, t2);
          assert r == PullRequestStage(cfg, w, t2);
        }
      }
    }
  }

  lemma PreludeAimed(cfg: Config, w: World, components: seq<string>)
    ensures var t := Issue(w.ok, GateSteps(cfg), [Git(RevParse), Git(CreateBranch(cfg.branch))]).0;
            forall i :: 0 <= i < |t| ==> Aimed(cfg, w, components, t[i])
  {
  }

  lemma StageAimed(cfg: Config, w: World, components: seq<string>, trace: seq<Step>)
    requires forall i :: 0 <= i < |trace| ==> Aimed(cfg, w, components, trace[i])
    ensures forall i :: 0 <= i < |PullRequestStage(cfg, w, trace).trace| ==>
              Aimed(cfg, w, components, PullRequestStage(cfg, w, trace).trace[i])
  {
  }
}
