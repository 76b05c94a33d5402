/** `getRepoNameFromUrl`: the repository name in a GitHub remote URL, as the regular expression
    `github.com[/:]([^/]+)\/([^/.]+)(?:.git)?$` finds it with `String.prototype.match`: the
    leftmost index where the expression matches, the greedy quantifiers backtracking from their
    longest run, and the second capture returned. Both unescaped dots match any character except a
    line terminator. */
module RepoName {
  import opened Wrappers
  import opened Text

  /** The result: the repository name, or the error thrown when the expression does not match. */
  datatype RepoResult = Name(repo: string) | CannotParse

  predicate LineTerminator(c: char) {
    c == '\n' || c == '\r' || c == '\U{2028}' || c == '\U{2029}'
  }

  /** What the `.` atom accepts. Here it reads one code point; without the `u` flag the
      source's engine reads one UTF-16 code unit, half of a character outside the BMP. */
  predicate AnyChar(c: char) {
    !LineTerminator(c)
  }

  /** `github.com[/:]` at index p: eleven characters. */
  predicate HostAt(u: string, p: nat) {
    && p + 11 <= |u|
    && u[p..p + 6] == "github" && AnyChar(u[p + 6]) && u[p + 7..p + 10] == "com"
    && (u[p + 10] == '/' || u[p + 10] == ':')
  }

  /** `(?:.git)?$` at index j: any character and `git` ending the text, or the end itself. */
  predicate TailAt(u: string, j: nat)
    requires j <= |u|
  {
    (j + 4 == |u| && AnyChar(u[j]) && u[j + 1..] == "git") || j == |u|
  }

  /** A name ending at `nameEnd`, after the `/` at `slash`: non-empty, free of `/` and `.`, and
      followed by the tail. */
  predicate NameShaped(u: string, slash: nat, nameEnd: nat) {
    && slash + 1 < nameEnd <= |u|
    && (forall k :: slash + 1 <= k < nameEnd ==> u[k] != '/' && u[k] != '.')
    && TailAt(u, nameEnd)
  }

  /** The declarative reading of a match at p: the host, a non-empty owner free of `/` ending at the
      `/` at index `slash`, and a name u[slash + 1..nameEnd] with the tail after it. */
  predicate Shaped(u: string, p: nat, slash: nat, nameEnd: nat) {
    && HostAt(u, p) && p + 11 < slash < |u| && u[slash] == '/'
    && (forall k :: p + 11 <= k < slash ==> u[k] != '/')
    && NameShaped(u, slash, nameEnd)
  }

  /** The length of the run of characters outside `stops` starting at index i. */
  function Run(u: string, i: nat, stops: set<char>): (n: nat)
    requires i <= |u|
    ensures i + n <= |u|
    ensures forall k :: i <= k < i + n ==> u[k] !in stops
    ensures i + n == |u| || u[i + n] in stops
    decreases |u| - i
  {
    if i < |u| && u[i] !in stops then 1 + Run(u, i + 1, stops) else 0
  }

  /** `([^/.]+)` followed by the tail, trying the name's lengths from `len` down: where the first
      name after which the tail matches ends. */
  function TryName(u: string, start: nat, len: nat): (r: Option<nat>)
    requires start + len <= |u|
    ensures r.Some? ==> start < r.value <= start + len && TailAt(u, r.value)
    ensures r.Some? ==> forall e :: r.value < e <= start + len ==> !TailAt(u, e)
    ensures r.None? ==> forall e :: start < e <= start + len ==> !TailAt(u, e)
    decreases len
  {
    if len == 0 then None
    else if TailAt(u, start + len) then Some(start + len)
    else TryName(u, start, len - 1)
  }

  /** `([^/]+)\/` and the rest, trying the owner's lengths from `len` down: the `/` after the owner
      and where the name ends. Only the whole run can be followed by `/`. */
  function TryOwner(u: string, start: nat, len: nat): (r: Option<(nat, nat)>)
    requires start + len <= |u|
    requires forall k :: start <= k < start + len ==> u[k] != '/'
    ensures r.Some? ==> r.value.0 == start + len && len > 0 && start + len < |u| && u[start + len] == '/'
    ensures r.Some? ==> NameShaped(u, r.value.0, r.value.1)
    ensures r.Some? ==> forall e: nat :: NameShaped(u, r.value.0, e) ==> e <= r.value.1
    ensures r.None? ==> len == 0 || start + len == |u| || u[start + len] != '/'
                        || forall slash: nat, e: nat :: slash == start + len ==> !NameShaped(u, slash, e)
    decreases len
  {
    if len == 0 then None
    else if start + len < |u| && u[start + len] == '/' then
      var nameStart := start + len + 1;
      var run := Run(u, nameStart, {'/', '.'});
      match TryName(u, nameStart, run)
      case Some(e) => Some((start + len, e))
      case None => TryOwner(u, start, len - 1)
    else TryOwner(u, start, len - 1)
  }

  /** The expression tried at index p: the `/` after the owner and where the name ends; the name
      is the longest the tail allows. */
  function MatchAt(u: string, p: nat): (r: Option<(nat, nat)>)
    requires p <= |u|
    ensures r.Some? ==> Shaped(u, p, r.value.0, r.value.1)
    ensures r.Some? ==> forall e: nat :: Shaped(u, p, r.value.0, e) ==> e <= r.value.1
    ensures r.None? ==> forall slash: nat, e: nat :: !Shaped(u, p, slash, e)
  {
    if HostAt(u, p) then TryOwner(u, p + 11, Run(u, p + 11, {'/'})) else None
  }

  /** The search of `match`: the leftmost index from p on where the expression matches. */
  function Search(u: string, p: nat): (r: Option<(nat, nat, nat)>)
    requires p <= |u|
    ensures r.Some? ==> p <= r.value.0 <= |u| && MatchAt(u, r.value.0) == Some((r.value.1, r.value.2))
    ensures r.Some? ==> forall q :: p <= q < r.value.0 ==> MatchAt(u, q).None?
    ensures r.None? ==> forall q :: p <= q <= |u| ==> MatchAt(u, q).None?
    decreases |u| - p
  {
    var here := MatchAt(u, p);
    if here.Some? then Some((p, here.value.0, here.value.1))
    else if p == |u| then None
    else Search(u, p + 1)
  }

  /** `getRepoNameFromUrl(url)`: the second capture of the leftmost match, or the error. */
  function GetRepoNameFromUrl(u: string): (r: RepoResult)
    ensures r.Name? ==> r.repo != [] && '/' !in r.repo && '.' !in r.repo
    ensures r.CannotParse? <==> forall p: nat, slash: nat, e: nat :: !Shaped(u, p, slash, e)
  {
    match Search(u, 0)
    case Some(m) =>
      var name := u[m.1 + 1..m.2];
      assert forall k :: 0 <= k < |name| ==> name[k] == u[m.1 + 1 + k];
      assert Shaped(u, m.0, m.1, m.2);
      Name(name)
    case None =>
      NothingShaped(u);
      CannotParse
  }

  /** Only one `/` can close the owner at a given start: the first one after the host. */
  lemma SlashUnique(u: string, p: nat, s1: nat, e1: nat, s2: nat, e2: nat)
    requires Shaped(u, p, s1, e1) && Shaped(u, p, s2, e2)
    ensures s1 == s2
  {
    assert u[s1] == '/' && u[s2] == '/';
  }

  /** The name returned is that of the leftmost match, and of all names the tail allows there, the
      longest: any URL shaped so at p with nothing shaped before p yields exactly that name. */
  lemma LeftmostLongest(u: string, p: nat, slash: nat, e: nat)
    requires Shaped(u, p, slash, e)
    requires forall q: nat, s: nat, f: nat :: q < p ==> !Shaped(u, q, s, f)
    requires forall f: nat :: Shaped(u, p, slash, f) ==> f <= e
    ensures GetRepoNameFromUrl(u) == Name(u[slash + 1..e])
  {
    MatchAtShaped(u, p, slash, e);
    SearchFinds(u, 0, p);
    NameOfSearch(u, p, slash, e);
  }

  /** At an index where the expression is shaped, the matcher finds the one `/` and the longest
      name. */
  lemma MatchAtShaped(u: string, p: nat, slash: nat, e: nat)
    requires Shaped(u, p, slash, e)
    requires forall f: nat :: Shaped(u, p, slash, f) ==> f <= e
    ensures MatchAt(u, p) == Some((slash, e))
  {
    var m := MatchAt(u, p);
    if m.Some? {
      SlashUnique(u, p, m.value.0, m.value.1, slash, e);
      assert Shaped(u, p, slash, m.value.1);
    }
  }

  /** The result once the search stops at p. */
  lemma NameOfSearch(u: string, p: nat, slash: nat, e: nat)
    requires Search(u, 0) == Some((p, slash, e))
    ensures GetRepoNameFromUrl(u) == Name(u[slash + 1..e])
  {
  }

  /** From an index before p, with no match between, the search reaches p. */
  lemma {:induction false} SearchFinds(u: string, i: nat, p: nat)
    requires i <= p <= |u| && MatchAt(u, p).Some?
    requires forall q: nat, s: nat, f: nat :: q < p ==> !Shaped(u, q, s, f)
    ensures Search(u, i) == Some((p, MatchAt(u, p).value.0, MatchAt(u, p).value.1))
    decreases p - i
  {
    if i < p {
      NoShapedNoMatch(u, i);
      SearchFinds(u, i + 1, p);
    }
  }

  /** No match at an index where nothing is shaped. */
  lemma NoShapedNoMatch(u: string, i: nat)
    requires i <= |u|
    requires forall s: nat, f: nat :: !Shaped(u, i, s, f)
    ensures MatchAt(u, i).None?
  {
    var r := MatchAt(u, i);
  }

  /** When no index matches, nothing is shaped anywhere: the host needs eleven characters. */
  lemma NothingShaped(u: string)
    requires forall q :: 0 <= q <= |u| ==> MatchAt(u, q).None?
    ensures forall p: nat, slash: nat, e: nat :: !Shaped(u, p, slash, e)
  {
    forall p: nat, slash: nat, e: nat | p <= |u|
      ensures !Shaped(u, p, slash, e)
    {
      assert MatchAt(u, p).None?;
    }
  }

  /** The host's first four letters. */
  lemma HostLetters(u: string, q: nat)
    requires HostAt(u, q)
    ensures u[q] == 'g' && u[q + 1] == 'i' && u[q + 2] == 't' && u[q + 3] == 'h'
  {
    assert u[q..q + 6][0] == u[q] && u[q..q + 6][1] == u[q + 1];
    assert u[q..q + 6][2] == u[q + 2] && u[q..q + 6][3] == u[q + 3];
  }

  /** A remote written `<lead>github<c>com<sep><owner>/<name><tail>`, with no host starting inside
      the lead, a non-empty owner free of `/`, a non-empty name free of `/` and `.`, and the tail
      `.git` or nothing, yields the name. */
  lemma Hosted(u: string, lead: string, c: char, sep: char, owner: string, name: string, tail: string)
    requires u == lead + ("github" + [c] + "com" + [sep]) + owner + "/" + name + tail
    requires AnyChar(c) && (sep == '/' || sep == ':')
    requires owner != [] && '/' !in owner
    requires name != [] && '/' !in name && '.' !in name
    requires tail == ".git" || tail == ""
    requires forall q: nat :: q < |lead| ==> !HostAt(u, q)
    ensures GetRepoNameFromUrl(u) == Name(name)
  {
    var host := "github" + [c] + "com" + [sep];
    var p := |lead|;
    var slash := p + 11 + |owner|;
    var e := slash + 1 + |name|;
    HostedLayout(u, lead, host, owner, name, tail);
    assert u[p..p + 6] == host[..6] == "github";
    assert u[p + 7..p + 10] == host[7..10] == "com";
    assert HostAt(u, p);
    assert forall k :: p + 11 <= k < slash ==> u[k] == owner[k - p - 11];
    assert forall k :: slash + 1 <= k < e ==> u[k] == name[k - slash - 1];
    if tail == ".git" {
      assert u[e + 1..] == "git";
      assert u[e] == '.';
    }
    assert Shaped(u, p, slash, e);
    forall q: nat, s: nat, f: nat | q < p
      ensures !Shaped(u, q, s, f)
    {
      assert !HostAt(u, q);
    }
    LeftmostLongest(u, p, slash, e);
    assert u[slash + 1..e] == name;
  }

  /** Where each part of a hosted remote sits. */
  lemma HostedLayout(u: string, lead: string, host: string, owner: string, name: string, tail: string)
    requires u == lead + host + owner + "/" + name + tail && |host| == 11
    ensures |u| == |lead| + 12 + |owner| + |name| + |tail|
    ensures u[|lead|..|lead| + 11] == host
    ensures u[|lead| + 11..|lead| + 11 + |owner|] == owner
    ensures u[|lead| + 11 + |owner|] == '/'
    ensures u[|lead| + 12 + |owner|..|lead| + 12 + |owner| + |name|] == name
    ensures u[|lead| + 12 + |owner| + |name|..] == tail
  {
  }

  /** `https://github.com/<owner>/<name>.git` and `https://github.com/<owner>/<name>`. */
  lemma HttpsRemote(owner: string, name: string)
    requires owner != [] && '/' !in owner
    requires name != [] && '/' !in name && '.' !in name
    ensures GetRepoNameFromUrl("https://github.com/" + owner + "/" + name + ".git") == Name(name)
    ensures GetRepoNameFromUrl("https://github.com/" + owner + "/" + name) == Name(name)
  {
    HttpsRemoteTail(owner, name, ".git");
    HttpsRemoteTail(owner, name, "");
    assert "https://github.com/" + owner + "/" + name + "" == "https://github.com/" + owner + "/" + name;
  }

  lemma HttpsRemoteTail(owner: string, name: string, tail: string)
    requires owner != [] && '/' !in owner
    requires name != [] && '/' !in name && '.' !in name
    requires tail == ".git" || tail == ""
    ensures GetRepoNameFromUrl("https://github.com/" + owner + "/" + name + tail) == Name(name)
  {
    var u := "https://github.com/" + owner + "/" + name + tail;
    assert u == "https://" + ("github" + ['.'] + "com" + ['/']) + owner + "/" + name + tail;
    forall q: nat | q < 8
      ensures !HostAt(u, q)
    {
      assert u[q] == "https://"[q] != 'g';
      if HostAt(u, q) {
        HostLetters(u, q);
      }
    }
    Hosted(u, "https://", '.', '/', owner, name, tail);
  }

  /** No host starts where the text does not read `g..h`. */
  lemma NoHostAt(u: string, q: nat)
    requires q < |u|
    requires u[q] != 'g' || (q + 3 < |u| && u[q + 3] != 'h')
    ensures !HostAt(u, q)
  {
    if HostAt(u, q) {
      HostLetters(u, q);
    }
  }

  /** `git@github.com:<owner>/<name>.git`, the SSH form. */
  lemma SshRemote(owner: string, name: string)
    requires owner != [] && '/' !in owner
    requires name != [] && '/' !in name && '.' !in name
    ensures GetRepoNameFromUrl("git@github.com:" + owner + "/" + name + ".git") == Name(name)
  {
    var u := "git@github.com:" + owner + "/" + name + ".git";
    assert u == "git@" + ("github" + ['.'] + "com" + [':']) + owner + "/" + name + ".git";
    forall q: nat | q < 4
      ensures !HostAt(u, q)
    {
      if q == 0 {
        assert u[3] == '@';
      } else {
        assert u[q] == "git@"[q] != 'g';
      }
      NoHostAt(u, q);
    }
    Hosted(u, "git@", '.', ':', owner, name, ".git");
  }

  /** The unescaped dot of the host matches any character but a line terminator. */
  lemma AnyHostSeparator(c: char, owner: string, name: string)
    requires AnyChar(c) && owner != [] && '/' !in owner
    requires name != [] && '/' !in name && '.' !in name
    ensures GetRepoNameFromUrl("github" + [c] + "com/" + owner + "/" + name) == Name(name)
  {
    var u := "github" + [c] + "com/" + owner + "/" + name;
    assert u == [] + ("github" + [c] + "com" + ['/']) + owner + "/" + name + "";
    Hosted(u, [], c, '/', owner, name, "");
  }

  /** A line terminator where the host's dot stands is no match. */
  lemma LineBreakInHost()
    ensures GetRepoNameFromUrl("github\ncom/o/r") == CannotParse
  {
    var u := "github\ncom/o/r";
    LineBreakHosts();
    assert forall p: nat, slash: nat, e: nat :: !Shaped(u, p, slash, e);
  }

  /** The eleven characters of a host fit only at indices 0 to 3, and only index 0 reads `g`. */
  lemma LineBreakHosts()
    ensures forall p: nat :: !HostAt("github\ncom/o/r", p)
  {
    var u := "github\ncom/o/r";
    assert |u| == 14;
    forall p: nat | p + 11 <= |u|
      ensures !HostAt(u, p)
    {
      if p == 0 {
        assert !AnyChar(u[6]);
      } else {
        assert u[p] == "ith"[p - 1];
        NoHostAt(u, p);
      }
    }
  }

  /** A path after the name is no match: the name must reach the end, or `.git` must. */
  lemma TreePath()
    ensures GetRepoNameFromUrl("https://github.com/o/r/tree/main") == CannotParse
  {
    var u := "https://github.com/o/r/tree/main";
    TreePathHost();
    forall p: nat, slash: nat, e: nat
      ensures !Shaped(u, p, slash, e)
    {
      if p == 8 {
        TreePathAt8(slash, e);
      }
    }
  }

  /** The only host candidate of the remote with a path is at index 8. */
  lemma TreePathHost()
    ensures forall p: nat :: p != 8 ==> !HostAt("https://github.com/o/r/tree/main", p)
  {
    var u := "https://github.com/o/r/tree/main";
    forall p: nat | p != 8 && p < |u|
      ensures !HostAt(u, p)
    {
      assert u[p] != 'g';
      NoHostAt(u, p);
    }
  }

  /** At the host, the owner `o` ends at the `/` at index 20, and the name after it cannot reach
      past the `/` at index 22, where no tail can follow. */
  lemma TreePathAt8(slash: nat, e: nat)
    ensures !Shaped("https://github.com/o/r/tree/main", 8, slash, e)
  {
    var u := "https://github.com/o/r/tree/main";
    assert |u| == 32 && u[20] == '/' && u[22] == '/';
    if slash == 20 {
      assert e <= 22 || u[22] == '/';
      if e <= 22 {
        assert !TailAt(u, e) by {
          assert e + 4 != |u| && e != |u|;
        }
      }
    }
  }
}
