/** The `walkDir` generator: the source files under a directory, found depth first in listing
    order, without entering `node_modules` or `.git`. The directory is given as a finite tree. */
module WalkDir {
  import opened Wrappers
  import opened Text

  /** An entry of a directory listing: a file, or a directory with its own ordered listing. */
  datatype Entry = File(name: string) | Dir(name: string, entries: seq<Entry>)

  /** Directories the walker never enters. Files of these names are not affected. */
  predicate Skipped(name: string) {
    name == "node_modules" || name == ".git"
  }

  /** `path.join(dir, name)` for a root without `.`/`..` segments or doubled separators, and a
      listing name (never empty, never holding a separator). */
  function JoinPath(dir: string, name: string): (r: string)
    ensures EndsWith(r, name)
  {
    if dir == "" || dir == "." then name
    else if EndsWith(dir, "/") then dir + name
    else dir + "/" + name
  }

  /** `extensions.some((ext) => filePath.endsWith(ext))`. */
  predicate Wanted(path: string, extensions: seq<string>) {
    exists i :: 0 <= i < |extensions| && EndsWith(path, extensions[i])
  }

  /** What `walkDir(dir, extensions)` yields for a directory whose listing is `entries`, in order. */
  function Walk(dir: string, entries: seq<Entry>, extensions: seq<string>): (r: seq<string>)
    ensures forall i :: 0 <= i < |r| ==> Wanted(r[i], extensions)
    decreases entries, 1
  {
    if entries == [] then []
    else Visit(dir, entries[0], extensions) + Walk(dir, entries[1..], extensions)
  }

  /** What one entry of a listing of `dir` contributes: a wanted file's path, or everything under a
      directory that is not skipped. */
  function Visit(dir: string, e: Entry, extensions: seq<string>): (r: seq<string>)
    ensures forall i :: 0 <= i < |r| ==> Wanted(r[i], extensions)
    decreases e, 0
  {
    var path := JoinPath(dir, e.name);
    match e
    case Dir(name, entries) => if Skipped(name) then [] else Walk(path, entries, extensions)
    case File(_) => if Wanted(path, extensions) then [path] else []
  }

  /** The reference definition: the file reached from a listing of `dir` by choosing the entry at
      each index of `route` in turn, passing only through directories that are not skipped, when it
      is a wanted file; its path joins the names along the route onto `dir`. */
  function Reach(dir: string, entries: seq<Entry>, route: seq<nat>, extensions: seq<string>): Option<string>
    decreases route
  {
    if route == [] || route[0] >= |entries| then None
    else
      var e := entries[route[0]];
      var path := JoinPath(dir, e.name);
      if |route| == 1 then (if e.File? && Wanted(path, extensions) then Some(path) else None)
      else if e.Dir? && !Skipped(e.name) then Reach(path, e.entries, route[1..], extensions)
      else None
  }

  /** The listing order is kept: the output for a listing is the outputs of its parts, in turn. */
  lemma {:induction false} WalkConcat(dir: string, a: seq<Entry>, b: seq<Entry>, extensions: seq<string>)
    ensures Walk(dir, a + b, extensions) == Walk(dir, a, extensions) + Walk(dir, b, extensions)
    decreases |a|
  {
    if a == [] {
      assert a + b == b;
    } else {
      assert (a + b)[0] == a[0] && (a + b)[1..] == a[1..] + b;
      WalkConcat(dir, a[1..], b, extensions);
    }
  }

  /** Depth-first pre-order: everything under a directory comes out at its place in the listing,
      after the entries before it and before the entries after it. */
  lemma PreOrder(dir: string, before: seq<Entry>, name: string, inner: seq<Entry>, after: seq<Entry>, extensions: seq<string>)
    requires !Skipped(name)
    ensures Walk(dir, before + [Dir(name, inner)] + after, extensions)
              == Walk(dir, before, extensions) + Walk(JoinPath(dir, name), inner, extensions) + Walk(dir, after, extensions)
  {
    var x, y, z := Walk(dir, before, extensions), Walk(JoinPath(dir, name), inner, extensions), Walk(dir, after, extensions);
    WalkConcat(dir, before + [Dir(name, inner)], after, extensions);
    WalkConcat(dir, before, [Dir(name, inner)], extensions);
    WalkOne(dir, Dir(name, inner), extensions);
    assert Walk(dir, before + [Dir(name, inner)], extensions) == x + y;
  }

  /** A one-entry listing yields what its entry contributes. */
  lemma WalkOne(dir: string, e: Entry, extensions: seq<string>)
    ensures Walk(dir, [e], extensions) == Visit(dir, e, extensions)
  {
    assert [e][1..] == [];
  }

  /** The walker never looks inside a skipped directory: whatever it holds, the output is that of
      the same directory emptied. */
  lemma SkippedUnseen(dir: string, before: seq<Entry>, name: string, inner: seq<Entry>, after: seq<Entry>, extensions: seq<string>)
    requires Skipped(name)
    ensures Walk(dir, before + [Dir(name, inner)] + after, extensions)
              == Walk(dir, before + [Dir(name, [])] + after, extensions)
  {
    WalkConcat(dir, before + [Dir(name, inner)], after, extensions);
    WalkConcat(dir, before, [Dir(name, inner)], extensions);
    WalkConcat(dir, before + [Dir(name, [])], after, extensions);
    WalkConcat(dir, before, [Dir(name, [])], extensions);
    WalkOne(dir, Dir(name, inner), extensions);
    WalkOne(dir, Dir(name, []), extensions);
  }

  /** With no extensions, nothing is yielded. */
  lemma {:induction false} NoExtensions(dir: string, entries: seq<Entry>)
    ensures Walk(dir, entries, []) == []
    decreases entries
  {
    if entries != [] {
      NoExtensions(dir, entries[1..]);
      match entries[0]
      case File(_) =>
      case Dir(name, inner) => NoExtensions(JoinPath(dir, name), inner);
    }
  }

  /** Soundness: every yielded path is a wanted file reached without entering a skipped directory;
      the route to it is returned. */
  lemma {:induction false} SoundRoute(dir: string, entries: seq<Entry>, extensions: seq<string>, k: nat)
    returns (route: seq<nat>)
    requires k < |Walk(dir, entries, extensions)|
    ensures Reach(dir, entries, route, extensions) == Some(Walk(dir, entries, extensions)[k])
    decreases entries
  {
    var e := entries[0];
    var here := Visit(dir, e, extensions);
    var later := Walk(dir, entries[1..], extensions);
    assert Walk(dir, entries, extensions) == here + later;
    var path := JoinPath(dir, e.name);
    if k < |here| {
      assert Walk(dir, entries, extensions)[k] == here[k];
      if e.File? {
        assert here == [path];
        route := [0];
        ReachFile(dir, entries, extensions);
      } else {
        assert !Skipped(e.name);
        var sub := SoundRoute(path, e.entries, extensions, k);
        route := [0] + sub;
        ReachInto(dir, entries, sub, extensions);
      }
    } else {
      assert Walk(dir, entries, extensions)[k] == later[k - |here|];
      var sub := SoundRoute(dir, entries[1..], extensions, k - |here|);
      ReachLater(dir, entries, sub, extensions);
      route := [sub[0] + 1] + sub[1..];
    }
  }

  lemma ReachFile(dir: string, entries: seq<Entry>, extensions: seq<string>)
    requires entries != [] && entries[0].File? && Wanted(JoinPath(dir, entries[0].name), extensions)
    ensures Reach(dir, entries, [0], extensions) == Some(JoinPath(dir, entries[0].name))
  {
  }

  /** A route into the first entry, a directory that is not skipped, is a route inside it. */
  lemma ReachInto(dir: string, entries: seq<Entry>, sub: seq<nat>, extensions: seq<string>)
    requires entries != [] && entries[0].Dir? && !Skipped(entries[0].name) && sub != []
    ensures Reach(dir, entries, [0] + sub, extensions) == Reach(JoinPath(dir, entries[0].name), entries[0].entries, sub, extensions)
  {
    assert ([0] + sub)[1..] == sub;
  }

  /** A route into the rest of a listing, moved one index on, reaches the same file. */
  lemma ReachLater(dir: string, entries: seq<Entry>, route: seq<nat>, extensions: seq<string>)
    requires entries != [] && route != []
    ensures Reach(dir, entries, [route[0] + 1] + route[1..], extensions) == Reach(dir, entries[1..], route, extensions)
  {
    var moved := [route[0] + 1] + route[1..];
    assert moved[1..] == route[1..];
  }

  /** Completeness: every wanted file reached without entering a skipped directory is yielded. */
  lemma {:induction false} WalkComplete(dir: string, entries: seq<Entry>, extensions: seq<string>, route: seq<nat>)
    requires Reach(dir, entries, route, extensions).Some?
    ensures Reach(dir, entries, route, extensions).value in Walk(dir, entries, extensions)
    decreases entries
  {
    hide JoinPath, Wanted, Skipped;
    var i := route[0];
    var p := Reach(dir, entries, route, extensions).value;
    var here := Visit(dir, entries[0], extensions);
    var later := Walk(dir, entries[1..], extensions);
    assert Walk(dir, entries, extensions) == here + later;
    if i == 0 {
      var e := entries[0];
      var path := JoinPath(dir, e.name);
      if |route| == 1 {
        assert e.File? && Wanted(path, extensions) && p == path;
        assert here == [path];
      } else {
        assert e.Dir? && !Skipped(e.name);
        assert route == [0] + route[1..];
        ReachInto(dir, entries, route[1..], extensions);
        WalkComplete(path, e.entries, extensions, route[1..]);
        assert here == Walk(path, e.entries, extensions);
      }
    } else {
      var sub := [i - 1] + route[1..];
      ReachLater(dir, entries, sub, extensions);
      assert [sub[0] + 1] + sub[1..] == route;
      WalkComplete(dir, entries[1..], extensions, sub);
    }
  }

  /** A path is yielded exactly when it is a wanted file reached without entering a skipped
      directory, its path joining the names along the way onto the root. */
  lemma WalkExactly(dir: string, entries: seq<Entry>, extensions: seq<string>, p: string)
    ensures p in Walk(dir, entries, extensions) <==> exists route :: Reach(dir, entries, route, extensions) == Some(p)
  {
    if p in Walk(dir, entries, extensions) {
      var k :| 0 <= k < |Walk(dir, entries, extensions)| && Walk(dir, entries, extensions)[k] == p;
      var route := SoundRoute(dir, entries, extensions, k);
    }
    if exists route :: Reach(dir, entries, route, extensions) == Some(p) {
      var route :| Reach(dir, entries, route, extensions) == Some(p);
      WalkComplete(dir, entries, extensions, route);
    }
  }

  /** Only directories are pruned by name: a file called `node_modules` is kept when an extension
      matches, here the empty one, which every path ends with. */
  lemma FileNamedLikeSkipped(dir: string)
    ensures Walk(dir, [File("node_modules")], [""]) == [JoinPath(dir, "node_modules")]
  {
    var path := JoinPath(dir, "node_modules");
    assert EndsWith(path, [""][0]);
    assert [File("node_modules")][1..] == [];
  }
}
