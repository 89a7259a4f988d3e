/** The check `git clone-project` applies to a repository URL before cloning:
    after trimming, the URL must have the shape `git@<host>:<org>/<repo>.git`
    with three non-empty single-line parts. */
module CloneProject {
  import opened Wrappers
  import opened Strings
  import RepoUrl

  datatype CloneError = UnsupportedRepositoryUrl

  function Message(e: CloneError): string {
    "Unsupported repository URL. Supported format: git@<host>:<org>/<repo>.git"
  }

  /** What the pattern `^git@(.+):(.+)/(.+)\.git$` asks of its three groups:
      non-empty, and no line break (the pattern's `.`). Unlike the stricter
      pattern of `Repo::parse`, colons and slashes are allowed anywhere. */
  predicate LooseParts(host: string, org: string, name: string) {
    && host != [] && '\n' !in host
    && org != [] && '\n' !in org
    && name != [] && '\n' !in name
  }

  /** The strings the pattern matches. */
  ghost predicate Supported(t: string) {
    exists host, org, name :: LooseParts(host, org, name) && t == RepoUrl.Assemble(host, org, name)
  }

  /** The pattern as a decision: between `git@` and `.git` lies a single line
      holding a colon after its first character and, at least two characters
      later and before its last character, a slash. The first such colon and
      the last such slash are the best candidates for the split. */
  predicate Accepts(t: string) {
    && |t| >= 8 && StartsWith(t, "git@") && EndsWith(t, ".git")
    && var m := t[4..|t| - 4];
    && '\n' !in m
    && match IndexOf(m, ':', 1)
      case None => false
      case Some(i) =>
        match LastIndexBefore(m, '/', |m| - 1)
        case None => false
        case Some(j) => j >= i + 2
  }

  /** Every accepted string has the shape. */
  lemma AcceptsSound(t: string)
    requires Accepts(t)
    ensures Supported(t)
  {
    var m := t[4..|t| - 4];
    var i := IndexOf(m, ':', 1).value;
    var j := LastIndexBefore(m, '/', |m| - 1).value;
    var host, org, name := m[..i], m[i + 1..j], m[j + 1..];
    Unwrap(t);
    SplitTwice(m, i, j);
    SliceSingleLine(m, 0, i);
    SliceSingleLine(m, i + 1, j);
    SliceSingleLine(m, j + 1, |m|);
    assert LooseParts(host, org, name);
  }

  /** A string between `git@` and `.git` is its middle wrapped in them. */
  lemma Unwrap(t: string)
    requires |t| >= 8 && StartsWith(t, "git@") && EndsWith(t, ".git")
    ensures t == "git@" + t[4..|t| - 4] + ".git"
  {
    assert t == t[..4] + t[4..|t| - 4] + t[|t| - 4..];
  }

  /** A middle cut at a colon and a later slash, wrapped, is the assembly of
      its three pieces. */
  lemma SplitTwice(m: string, i: nat, j: nat)
    requires i < j < |m| && m[i] == ':' && m[j] == '/'
    ensures "git@" + m + ".git" == RepoUrl.Assemble(m[..i], m[i + 1..j], m[j + 1..])
  {
    assert m == m[..i] + [m[i]] + m[i + 1..j] + [m[j]] + m[j + 1..];
  }

  lemma SliceSingleLine(m: string, lo: nat, hi: nat)
    requires lo <= hi <= |m| && '\n' !in m
    ensures '\n' !in m[lo..hi]
  {
    assert forall c :: c in m[lo..hi] ==> c in m;
  }

  /** Every string of the shape is accepted. */
  lemma AcceptsComplete(host: string, org: string, name: string)
    requires LooseParts(host, org, name)
    ensures Accepts(RepoUrl.Assemble(host, org, name))
  {
    var t := RepoUrl.Assemble(host, org, name);
    var m := host + ":" + org + "/" + name;
    assert t == "git@" + m + ".git";
    assert t[4..|t| - 4] == m;
    assert StartsWith(t, "git@") && EndsWith(t, ".git");
    var p, q := |host|, |host| + 1 + |org|;
    assert m[p] == ':' && m[q] == '/';
    assert '\n' !in m by {
      assert forall k :: 0 <= k < |m| ==> m[k] == '\n' ==>
        (k < p && host[k] == '\n') || (p < k < q && org[k - p - 1] == '\n')
        || (q < k && name[k - q - 1] == '\n');
    }
    var i := IndexOf(m, ':', 1);
    assert i.Some? && i.value <= p;
    var j := LastIndexBefore(m, '/', |m| - 1);
    assert j.Some? && j.value >= q;
  }

  /** `parse_repository`: the trimmed URL when it has the shape; otherwise
      the error naming the supported shape. */
  function ParseRepository(s: string): (r: Result<string, CloneError>)
    ensures r.Ok? ==> r.value == Trim(s)
    ensures r.Err? ==> r.error == UnsupportedRepositoryUrl
  {
    var t := Trim(s);
    if Accepts(t) then Ok(t) else Err(UnsupportedRepositoryUrl)
  }

  /** `parse_repository` accepts exactly the URLs whose trimmed form has the
      shape. */
  lemma ParseRepositoryAcceptsShape(s: string)
    ensures ParseRepository(s).Ok? <==> Supported(Trim(s))
  {
    var t := Trim(s);
    if Accepts(t) {
      AcceptsSound(t);
    }
    if Supported(t) {
      var host, org, name :| LooseParts(host, org, name) && t == RepoUrl.Assemble(host, org, name);
      AcceptsComplete(host, org, name);
    }
  }

  /** A URL `parse_repository` returned passes it again unchanged. */
  lemma ParseRepositoryIdempotent(s: string)
    requires ParseRepository(s).Ok?
    ensures ParseRepository(ParseRepository(s).value) == ParseRepository(s)
  {
    TrimIdempotent(s);
  }

  /** `validate_repository`: `parse_repository` with the URL dropped. */
  function ValidateRepository(s: string): (r: Result<(), CloneError>)
    ensures r.Ok? <==> ParseRepository(s).Ok?
    ensures r.Err? ==> r.error == UnsupportedRepositoryUrl
  {
    match ParseRepository(s)
    case Ok(_) => Ok(())
    case Err(e) => Err(e)
  }

  /** Every trimmed URL `Repo::parse` accepts, with a single-line host and
      organisation, passes `parse_repository` too. */
  lemma StrictImpliesLoose(url: string)
    requires IsTrimmed(url) && RepoUrl.Parse(url).Ok?
    requires '\n' !in RepoUrl.Parse(url).value.host && '\n' !in RepoUrl.Parse(url).value.org
    ensures ParseRepository(url) == Ok(url)
  {
    var r := RepoUrl.Parse(url).value;
    RepoUrl.ParseSound(url);
    AcceptsComplete(r.host, r.org, r.name);
  }

  /** The converse fails: the pattern of `parse_repository` lets through an
      organisation that starts with a slash (`git@h:/o/r.git`), which the
      pattern of `Repo::parse` refuses. */
  lemma LooseAcceptsWhatStrictRefuses(host: string, org: string, name: string)
    requires LooseParts(host, "/" + org, name) && ':' !in host
    ensures var url := RepoUrl.Assemble(host, "/" + org, name);
      ParseRepository(url) == Ok(url) && RepoUrl.Parse(url).Err?
  {
    var url := RepoUrl.Assemble(host, "/" + org, name);
    assert IsTrimmed(url) by {
      assert url[0] == 'g' && url[|url| - 1] == 't';
    }
    AcceptsComplete(host, "/" + org, name);
    var i := 4 + |host|;
    RepoUrl.AssembleSlices(host, "/" + org, name);
    RepoUrl.AssembleColon(host, "/" + org, name);
    assert url[i + 1] == '/';
    IndexOfAt(url, '/', i + 1, i + 1);
  }
}
