/** Browser discovery and deduplication (`find_browsers`, `find_browser` and the
    probes they run). The filesystem, `brew --prefix` and each executable's
    `--version` run are inputs, gathered in an `Env`; the parallel iterators of
    the program collect in input order, so every step here is sequential. */
module Browsers {
  import opened Wrappers
  import opened Strings
  import opened Paths
  import opened BrowserKind
  import opened SortedMap

  /** What running a program yielded: it could not be started, or it exited
      with a success flag, an exit code if the platform reports one, and its
      standard output (and whether that output was valid UTF-8). */
  datatype ProcessRun =
    | SpawnFailed
    | Exited(success: bool, code: Option<int>, stdout: string, utf8: bool)

  /** The machine as the search sees it. */
  datatype Env = Env(
    existing: set<Path>,              // `Path::exists`
    dirs: set<Path>,                  // `Path::is_dir`
    files: set<Path>,                 // `Path::is_file`
    listings: map<Path, seq<string>>, // entry names `read_dir` yields; absent: `read_dir` fails
    globs: map<string, Path>,         // first match of a glob pattern; absent: no match or a bad pattern
    runs: map<Path, ProcessRun>,      // `<path> --version`; absent: the program cannot be started
    brew: ProcessRun)                 // `brew --prefix`

  function Listing(env: Env, dir: Path): seq<string> {
    if dir in env.listings then env.listings[dir] else []
  }

  function Run(env: Env, path: Path): ProcessRun {
    if path in env.runs then env.runs[path] else SpawnFailed
  }

  /** A probe's find: an executable that looks like `kind` (`BrowserPath`). */
  datatype Candidate = Candidate(kind: Kind, path: Path)

  /** A resolved browser. */
  datatype Browser = Browser(name: string, kind: Kind, path: Path, version: string)

  /** Why one candidate could not be resolved. */
  datatype ResolveError =
    | SpawnError
    | NonZeroExit(code: int)
    | BadVersion(cause: VersionError)

  // ---------------------------------------------------------------------------
  // Version resolution

  /** `get_browser`: run `<path> --version`; on a zero exit parse the trimmed
      output with the kind's rule. */
  function GetBrowser(env: Env, kind: Kind, path: Path): (r: Result<Browser, ResolveError>)
    ensures r.Ok? <==> Run(env, path).Exited? && Run(env, path).success
                       && ParseVersion(kind, Trim(Run(env, path).stdout)).Ok?
    ensures r.Ok? ==> r.value == Browser(Name(kind), kind, path,
                                         ParseVersion(kind, Trim(Run(env, path).stdout)).value.1)
    ensures r.Ok? ==> IsTrimmed(r.value.version)
    ensures Run(env, path).SpawnFailed? ==> r == Err(SpawnError)
    ensures Run(env, path).Exited? && !Run(env, path).success
            ==> r == Err(NonZeroExit(Run(env, path).code.GetOr(-1)))
  {
    match Run(env, path)
    case SpawnFailed => Err(SpawnError)
    case Exited(success, code, stdout, _) =>
      if success then
        match ParseVersion(kind, Trim(stdout))
        case Ok((name, version)) => Ok(Browser(name, kind, path, version))
        case Err(e) => Err(BadVersion(e))
      else
        Err(NonZeroExit(code.GetOr(-1)))
  }

  /** One candidate resolved: the browser, or nothing when it fails. */
  function ResolveOne(env: Env, c: Candidate): (r: seq<Browser>)
    ensures |r| <= 1
    ensures r == [] <==> GetBrowser(env, c.kind, c.path).Err?
    ensures r != [] ==> GetBrowser(env, c.kind, c.path) == Ok(r[0])
  {
    match GetBrowser(env, c.kind, c.path)
    case Ok(b) => [b]
    case Err(_) => []
  }

  /** The candidates that resolve, in order, each resolved (`filter_map`). */
  function Resolve(env: Env, cs: seq<Candidate>): (r: seq<Browser>)
    ensures |r| <= |cs|
  {
    if cs == [] then []
    else Resolve(env, cs[..|cs| - 1]) + ResolveOne(env, cs[|cs| - 1])
  }

  /** Every resolved browser is what `get_browser` made of one of the
      candidates: its name is its kind's name and its version is trimmed. */
  lemma {:induction false} ResolvedFromCandidates(env: Env, cs: seq<Candidate>)
    ensures forall b :: b in Resolve(env, cs) ==>
      (exists c :: c in cs && GetBrowser(env, c.kind, c.path) == Ok(b))
      && b.name == Name(b.kind) && IsTrimmed(b.version)
  {
    if cs != [] {
      var init := cs[..|cs| - 1];
      ResolvedFromCandidates(env, init);
      forall b | b in Resolve(env, cs)
        ensures (exists c :: c in cs && GetBrowser(env, c.kind, c.path) == Ok(b))
                && b.name == Name(b.kind) && IsTrimmed(b.version)
      {
        if b in Resolve(env, init) {
          var c :| c in init && GetBrowser(env, c.kind, c.path) == Ok(b);
          assert c in cs;
        } else {
          assert cs[|cs| - 1] in cs;
        }
      }
    }
  }

  lemma ResolveStep(env: Env, cs: seq<Candidate>, i: nat)
    requires i < |cs|
    ensures Resolve(env, cs[..i + 1]) == Resolve(env, cs[..i]) + ResolveOne(env, cs[i])
  {
    assert cs[..i + 1][..i] == cs[..i];
  }

  lemma {:induction false} ResolveAppend(env: Env, xs: seq<Candidate>, ys: seq<Candidate>)
    ensures Resolve(env, xs + ys) == Resolve(env, xs) + Resolve(env, ys)
  {
    if ys == [] {
      assert xs + ys == xs;
    } else {
      var ys', c := ys[..|ys| - 1], ys[|ys| - 1];
      assert (xs + ys)[..|xs + ys| - 1] == xs + ys';
      assert (xs + ys)[|xs + ys| - 1] == c;
      ResolveAppend(env, xs, ys');
      assert Resolve(env, xs + ys) == Resolve(env, xs + ys') + ResolveOne(env, c);
      assert Resolve(env, ys) == Resolve(env, ys') + ResolveOne(env, c);
    }
  }

  /** Conversely, every candidate that `get_browser` resolves contributes its
      browser. */
  lemma {:induction false} ResolveComplete(env: Env, cs: seq<Candidate>, c: Candidate)
    requires c in cs && GetBrowser(env, c.kind, c.path).Ok?
    ensures GetBrowser(env, c.kind, c.path).value in Resolve(env, cs)
  {
    var init, last := cs[..|cs| - 1], cs[|cs| - 1];
    var before := Resolve(env, init);
    if c == last {
      assert Resolve(env, cs) == before + ResolveOne(env, c);
    } else {
      InInitOrLast(cs, c);
      ResolveComplete(env, init, c);
      assert Resolve(env, cs) == before + ResolveOne(env, last);
    }
  }

  /** A candidate that fails to resolve (cannot be started, exits non-zero,
      prints something its kind's rule refuses) is dropped, and the other
      candidates resolve exactly as they would without it. */
  lemma ResolveDropsFailure(env: Env, before: seq<Candidate>, bad: Candidate, after: seq<Candidate>)
    requires GetBrowser(env, bad.kind, bad.path).Err?
    ensures Resolve(env, before + [bad] + after) == Resolve(env, before + after)
  {
    ResolveAppend(env, before + [bad], after);
    ResolveAppend(env, before, [bad]);
    ResolveAppend(env, before, after);
    assert Resolve(env, [bad]) == [] by {
      assert [bad][..0] == [];
      assert ResolveOne(env, bad) == [];
    }
    assert Resolve(env, before + [bad]) == Resolve(env, before);
  }

  // ---------------------------------------------------------------------------
  // The two identity keys

  /** `Browser::version`: the version-identity key. */
  function VersionKey(b: Browser): string {
    b.name + " " + b.version
  }

  /** The longest of `names` (0 for none: `max().unwrap_or_default()`). */
  function MaxLen(names: seq<string>): (r: nat)
    ensures forall s :: s in names ==> |s| <= r
    ensures names != [] ==> exists s :: s in names && |s| == r
    ensures names == [] ==> r == 0
  {
    if names == [] then 0
    else
      var rest := MaxLen(names[1..]);
      if |names[0]| >= rest then |names[0]| else rest
  }

  function Names(ks: seq<Kind>): (r: seq<string>)
    ensures |r| == |ks| && forall i :: 0 <= i < |ks| ==> r[i] == Name(ks[i])
  {
    seq(|ks|, i requires 0 <= i < |ks| => Name(ks[i]))
  }

  /** Width of the name column: the longest name of ALL kinds, whichever kinds
      were asked for. */
  function NameWidth(): nat {
    MaxLen(Names(All()))
  }

  /** The name column is as wide as "Mozilla Firefox": 15. */
  lemma NameWidthIs15()
    ensures NameWidth() == 15
    ensures forall k :: |Name(k)| <= NameWidth()
  {
    var names := Names(All());
    assert forall i :: 0 <= i < |names| ==> |names[i]| <= 15 by {
      forall i | 0 <= i < |names| ensures |names[i]| <= 15 {
        NameLength(All()[i]);
      }
    }
    assert |names[3]| == 15 by {
      NameLength(Firefox);
    }
    MaxLenIs(names, 15, 3);
    assert forall k :: |Name(k)| <= 15 by {
      forall k ensures |Name(k)| <= 15 {
        NameLength(k);
      }
    }
  }

  /** The longest length is `w` when no name is longer and the one at `at`
      is that long. */
  lemma MaxLenIs(names: seq<string>, w: nat, at: nat)
    requires forall i :: 0 <= i < |names| ==> |names[i]| <= w
    requires at < |names| && |names[at]| == w
    ensures MaxLen(names) == w
  {
    assert names[at] in names;
    var s :| s in names && |s| == MaxLen(names);
    var j :| 0 <= j < |names| && names[j] == s;
  }

  lemma NameLength(k: Kind)
    ensures |Name(k)| <= 15
    ensures k == Firefox ==> |Name(k)| == 15
  {
  }

  /** `{:<width}`: left-aligned, padded with spaces to `width` characters. */
  function PadEnd(s: string, width: nat): (r: string)
    ensures |r| == if |s| < width then width else |s|
    ensures r[..|s|] == s
    ensures forall i :: |s| <= i < |r| ==> r[i] == ' '
  {
    if |s| < width then s + seq(width - |s|, _ => ' ') else s
  }

  /** `Display for Browser`, the full-identity key: name, version and path in
      aligned columns. */
  function DisplayLine(b: Browser): string {
    PadEnd(b.name, NameWidth()) + " " + PadEnd(b.version, 13) + " " + b.path
  }

  /** The key a listing mode deduplicates by. */
  function KeyOf(all: bool): Browser -> string {
    if all then DisplayLine else VersionKey
  }

  /** For resolved browsers the version key identifies kind and version: no
      kind's name followed by a space begins another kind's. */
  lemma VersionKeyIdentifies(b1: Browser, b2: Browser)
    requires b1.name == Name(b1.kind) && b2.name == Name(b2.kind)
    ensures VersionKey(b1) == VersionKey(b2) <==> b1.kind == b2.kind && b1.version == b2.version
  {
    if VersionKey(b1) == VersionKey(b2) {
      assert |Name(b1.kind)| >= 2 && |Name(b2.kind)| >= 2;
      assert VersionKey(b1)[..2] == Name(b1.kind)[..2];
      assert VersionKey(b2)[..2] == Name(b2.kind)[..2];
      NamesDiffer(b1.kind, b2.kind);
      var n := |b1.name| + 1;
      assert VersionKey(b1)[n..] == b1.version;
      assert VersionKey(b2)[n..] == b2.version;
    }
  }

  lemma NamesDiffer(k1: Kind, k2: Kind)
    requires Name(k1)[..2] == Name(k2)[..2]
    ensures k1 == k2
  {
    assert Name(k1)[0] == Name(k2)[0] && Name(k1)[1] == Name(k2)[1];
  }

  /** Two browsers that differ only in their path have different display
      lines, so the full-identity mode keeps both. */
  lemma DisplayLineSeparatesPaths(b1: Browser, b2: Browser)
    requires b1.name == b2.name && b1.version == b2.version && b1.path != b2.path
    ensures DisplayLine(b1) != DisplayLine(b2)
  {
    var head := PadEnd(b1.name, NameWidth()) + " " + PadEnd(b1.version, 13) + " ";
    assert DisplayLine(b1) == head + b1.path && DisplayLine(b2) == head + b2.path;
    assert DisplayLine(b1)[|head|..] == b1.path;
    assert DisplayLine(b2)[|head|..] == b2.path;
  }

  // ---------------------------------------------------------------------------
  // Deduplication

  /** The loop of `find_browsers` after the fact: insert every resolved browser
      into the map of the chosen mode, then read its values in key order. */
  function Deduplicate(bs: seq<Browser>, all: bool): seq<Browser> {
    Values(InsertAll(bs, KeyOf(all)))
  }

  /** One entry per distinct key, in strictly ascending key order, each entry
      the LAST browser with its key (`BTreeMap::insert` overwrites), and every
      resolved browser's key represented. */
  lemma DeduplicateProperties(bs: seq<Browser>, all: bool)
    ensures var r, key := Deduplicate(bs, all), KeyOf(all);
      && |r| == |KeySet(bs, key)|
      && (forall i, j :: 0 <= i < j < |r| ==> Less(key(r[i]), key(r[j])))
      && (forall i :: 0 <= i < |r| ==> LastWithKey(bs, key, key(r[i])) == Some(r[i]))
      && (forall b :: b in bs ==> exists i :: 0 <= i < |r| && key(r[i]) == key(b))
      && (r == [] <==> bs == [])
  {
    InsertAllValues(bs, KeyOf(all));
  }

  /** One version installed at two paths, version-identity mode: one entry
      is kept, the one seen last. */
  lemma SameVersionKeepsLast(b1: Browser, b2: Browser)
    requires b1.name == b2.name && b1.version == b2.version
    ensures Deduplicate([b1, b2], false) == [b2]
  {
    PairSameKey(b1, b2, VersionKey);
  }

  /** One version installed at two paths, full-identity mode: both entries
      are kept. */
  lemma SameVersionKeepsBoth(b1: Browser, b2: Browser)
    requires b1.name == b2.name && b1.version == b2.version && b1.path != b2.path
    ensures |Deduplicate([b1, b2], true)| == 2
    ensures multiset(Deduplicate([b1, b2], true)) == multiset{b1, b2}
  {
    DisplayLineSeparatesPaths(b1, b2);
    PairDistinctKeys(b1, b2, DisplayLine);
  }

  // ---------------------------------------------------------------------------
  // Probe 1: known locations

  /** `find_in_known_locations`: each requested kind whose `/Applications`
      executable exists, in the requested order. */
  function FindInKnownLocations(env: Env, kinds: seq<Kind>): seq<Candidate> {
    if kinds == [] then []
    else
      var k := kinds[0];
      (if ApplicationsPath(k) in env.existing then [Candidate(k, ApplicationsPath(k))] else [])
        + FindInKnownLocations(env, kinds[1..])
  }

  /** The known-location probe finds exactly the requested kinds whose
      `/Applications` executable exists, each at that path, no more candidates
      than kinds requested. */
  lemma {:induction false} KnownLocationsExact(env: Env, kinds: seq<Kind>)
    ensures var r := FindInKnownLocations(env, kinds);
      && |r| <= |kinds|
      && (forall c :: c in r ==> c.kind in kinds && c.path == ApplicationsPath(c.kind)
                                 && c.path in env.existing)
      && (forall k :: k in kinds && ApplicationsPath(k) in env.existing
                      ==> Candidate(k, ApplicationsPath(k)) in r)
  {
    if kinds != [] {
      var k, tail := kinds[0], kinds[1..];
      KnownLocationsExact(env, tail);
      var r, rest := FindInKnownLocations(env, kinds), FindInKnownLocations(env, tail);
      var found := Candidate(k, ApplicationsPath(k));
      assert r == (if found.path in env.existing then [found] else []) + rest;
      forall c | c in r
        ensures c.kind in kinds && c.path == ApplicationsPath(c.kind) && c.path in env.existing
      {
        if c in rest {
          assert c.kind in tail;
        }
      }
      forall k' | k' in kinds && ApplicationsPath(k') in env.existing
        ensures Candidate(k', ApplicationsPath(k')) in r
      {
        if k' != k {
          var n :| 0 <= n < |kinds| && kinds[n] == k';
          assert tail[n - 1] == k';
        }
      }
    }
  }

  // ---------------------------------------------------------------------------
  // Probe 2: Homebrew

  /** `detect_homebrew_prefix`: the trimmed output of a successful
      `brew --prefix` whose output is valid UTF-8. */
  function DetectHomebrewPrefix(run: ProcessRun): (r: Option<Path>)
    ensures r.Some? <==> run.Exited? && run.success && run.utf8
    ensures r.Some? ==> r.value == Trim(run.stdout) && IsTrimmed(r.value)
  {
    if run.Exited? && run.success && run.utf8 then Some(Trim(run.stdout)) else None
  }

  /** The entries among `names` that are files named exactly after some
      kind's executable (`Kind::with_path` on each). */
  function ExecutablesAmong(env: Env, dir: Path, names: seq<string>): seq<Candidate> {
    if names == [] then []
    else
      var n := names[0];
      (if Join(dir, n) in env.files && FromBin(n).Some? then [Candidate(FromBin(n).value, Join(dir, n))]
       else []) + ExecutablesAmong(env, dir, names[1..])
  }

  /** `ExecutablesAmong` keeps exactly the entries that are files named after
      some kind's executable, each tagged with that kind. */
  lemma {:induction false} ExecutablesAmongExact(env: Env, dir: Path, names: seq<string>)
    ensures var r := ExecutablesAmong(env, dir, names);
      && |r| <= |names|
      && (forall c :: c in r ==> Bin(c.kind) in names && c.path == Join(dir, Bin(c.kind))
                                 && c.path in env.files)
      && (forall n :: n in names && Join(dir, n) in env.files && FromBin(n).Some?
                      ==> Candidate(FromBin(n).value, Join(dir, n)) in r)
  {
    if names != [] {
      var n, tail := names[0], names[1..];
      ExecutablesAmongExact(env, dir, tail);
      var r, rest := ExecutablesAmong(env, dir, names), ExecutablesAmong(env, dir, tail);
      forall c | c in r
        ensures Bin(c.kind) in names && c.path == Join(dir, Bin(c.kind)) && c.path in env.files
      {
        if c in rest {
          assert Bin(c.kind) in tail;
        } else {
          FromBinOfBin(c.kind);
        }
      }
      forall n' | n' in names && Join(dir, n') in env.files && FromBin(n').Some?
        ensures Candidate(FromBin(n').value, Join(dir, n')) in r
      {
        if n' != n {
          var i :| 0 <= i < |names| && names[i] == n';
          assert tail[i - 1] == n';
        }
      }
    }
  }

  /** `find_executables_in_dir`: nothing unless `dir` is a directory; then its
      files whose name equals a kind's executable name exactly, whichever kinds
      were requested. */
  function FindExecutablesInDir(env: Env, dir: Path): (r: seq<Candidate>)
    ensures dir !in env.dirs ==> r == []
  {
    if dir !in env.dirs then [] else ExecutablesAmong(env, dir, Listing(env, dir))
  }

  /** The glob pattern `latest/<any>.app/Contents/MacOS/<bin>` under a Caskroom entry. */
  function CaskPattern(entry: Path, k: Kind): string {
    Join(Join(Join(entry, "latest"), "*.app/Contents/MacOS"), Bin(k))
  }

  /** A Caskroom entry (its lower-cased name `lowered`) matches `k` when the
      name contains `k`'s executable name and the glob finds a file. */
  predicate CaskMatch(env: Env, entry: Path, lowered: string, k: Kind) {
    Contains(lowered, Bin(k)) && CaskPattern(entry, k) in env.globs
  }

  /** `find_map` over the requested kinds for one Caskroom entry. */
  function CaskEntry(env: Env, entry: Path, lowered: string, kinds: seq<Kind>): (r: Option<Candidate>)
    ensures r.Some? ==> exists i :: 0 <= i < |kinds| && kinds[i] == r.value.kind
                          && CaskMatch(env, entry, lowered, kinds[i])
                          && r.value.path == env.globs[CaskPattern(entry, kinds[i])]
                          && forall j :: 0 <= j < i ==> !CaskMatch(env, entry, lowered, kinds[j])
    ensures r.None? ==> forall k :: k in kinds ==> !CaskMatch(env, entry, lowered, k)
  {
    if kinds == [] then None
    else if CaskMatch(env, entry, lowered, kinds[0]) then
      Some(Candidate(kinds[0], env.globs[CaskPattern(entry, kinds[0])]))
    else
      var r := CaskEntry(env, entry, lowered, kinds[1..]);
      assert r.Some? ==> exists i :: 0 <= i < |kinds| && kinds[i] == r.value.kind
                          && CaskMatch(env, entry, lowered, kinds[i])
                          && r.value.path == env.globs[CaskPattern(entry, kinds[i])]
                          && forall j :: 0 <= j < i ==> !CaskMatch(env, entry, lowered, kinds[j]) by {
        if r.Some? {
          var i :| 0 <= i < |kinds[1..]| && kinds[1..][i] == r.value.kind
                   && CaskMatch(env, entry, lowered, kinds[1..][i])
                   && r.value.path == env.globs[CaskPattern(entry, kinds[1..][i])]
                   && forall j :: 0 <= j < i ==> !CaskMatch(env, entry, lowered, kinds[1..][j]);
          assert forall j :: 0 <= j < i + 1 ==> !CaskMatch(env, entry, lowered, kinds[j]) by {
            forall j | 0 <= j < i + 1 ensures !CaskMatch(env, entry, lowered, kinds[j]) {
              if j > 0 {
                assert kinds[j] == kinds[1..][j - 1];
              }
            }
          }
        }
      }
      r
  }

  /** The Caskroom entries among `names`, each giving at most one candidate. */
  function CaskEntries(env: Env, caskroom: Path, names: seq<string>, kinds: seq<Kind>): (r: seq<Candidate>)
    ensures |r| <= |names|
  {
    if names == [] then []
    else
      var n := names[|names| - 1];
      match CaskEntry(env, Join(caskroom, n), ToLower(n), kinds)
      case Some(c) => CaskEntries(env, caskroom, names[..|names| - 1], kinds) + [c]
      case None => CaskEntries(env, caskroom, names[..|names| - 1], kinds)
  }

  /** Each Caskroom candidate is what `CaskEntry` gives for one of the entries:
      the first requested kind that matches that entry, at its first glob
      match. */
  lemma {:induction false} CaskEntriesMatch(env: Env, caskroom: Path, names: seq<string>, kinds: seq<Kind>)
    ensures forall c :: c in CaskEntries(env, caskroom, names, kinds) ==>
      exists n :: n in names && CaskEntry(env, Join(caskroom, n), ToLower(n), kinds) == Some(c)
  {
    if names != [] {
      var init, n := names[..|names| - 1], names[|names| - 1];
      CaskEntriesMatch(env, caskroom, init, kinds);
      forall c | c in CaskEntries(env, caskroom, names, kinds)
        ensures exists n :: n in names && CaskEntry(env, Join(caskroom, n), ToLower(n), kinds) == Some(c)
      {
        if c in CaskEntries(env, caskroom, init, kinds) {
          var n' :| n' in init && CaskEntry(env, Join(caskroom, n'), ToLower(n'), kinds) == Some(c);
          assert n' in names;
        } else {
          assert n in names;
        }
      }
    }
  }

  /** Hence each Caskroom candidate is of a requested kind whose executable
      name occurs in the lower-cased name of some entry. */
  lemma CaskEntriesKinds(env: Env, caskroom: Path, names: seq<string>, kinds: seq<Kind>)
    ensures forall c :: c in CaskEntries(env, caskroom, names, kinds) ==>
      c.kind in kinds && exists n :: n in names && Contains(ToLower(n), Bin(c.kind))
  {
    CaskEntriesMatch(env, caskroom, names, kinds);
    forall c | c in CaskEntries(env, caskroom, names, kinds)
      ensures c.kind in kinds && exists n :: n in names && Contains(ToLower(n), Bin(c.kind))
    {
      var n :| n in names && CaskEntry(env, Join(caskroom, n), ToLower(n), kinds) == Some(c);
      var i :| 0 <= i < |kinds| && kinds[i] == c.kind && CaskMatch(env, Join(caskroom, n), ToLower(n), kinds[i]);
    }
  }


  /** An element of a non-empty sequence is its last one or one before it. */
  lemma InInitOrLast<T>(xs: seq<T>, x: T)
    requires x in xs
    ensures x == xs[|xs| - 1] || x in xs[..|xs| - 1]
  {
    var k :| 0 <= k < |xs| && xs[k] == x;
    if k < |xs| - 1 {
      assert xs[..|xs| - 1][k] == x;
    }
  }

  /** Conversely, every entry that matches a requested kind contributes its
      candidate. */
  lemma {:induction false} CaskEntriesComplete(env: Env, caskroom: Path, names: seq<string>, kinds: seq<Kind>, n: string, c: Candidate)
    requires n in names && CaskEntry(env, Join(caskroom, n), ToLower(n), kinds) == Some(c)
    ensures c in CaskEntries(env, caskroom, names, kinds)
  {
    var init, last := names[..|names| - 1], names[|names| - 1];
    var before := CaskEntries(env, caskroom, init, kinds);
    if n == last {
      assert CaskEntries(env, caskroom, names, kinds) == before + [c];
    } else {
      InInitOrLast(names, n);
      CaskEntriesComplete(env, caskroom, init, kinds, n, c);
      match CaskEntry(env, Join(caskroom, last), ToLower(last), kinds)
      case Some(c') => assert CaskEntries(env, caskroom, names, kinds) == before + [c'];
      case None => assert CaskEntries(env, caskroom, names, kinds) == before;
    }
  }

  /** `scan_caskroom`: nothing unless the Caskroom is a directory; then at most
      one candidate per entry. */
  function ScanCaskroom(env: Env, caskroom: Path, kinds: seq<Kind>): (r: seq<Candidate>)
    ensures caskroom !in env.dirs ==> r == []
    ensures |r| <= |Listing(env, caskroom)|
  {
    if caskroom !in env.dirs then [] else CaskEntries(env, caskroom, Listing(env, caskroom), kinds)
  }

  /** When the Caskroom is a directory, every entry of it that matches a
      requested kind yields its candidate. */
  lemma ScanCaskroomComplete(env: Env, caskroom: Path, kinds: seq<Kind>, n: string, c: Candidate)
    requires caskroom in env.dirs && n in Listing(env, caskroom)
    requires CaskEntry(env, Join(caskroom, n), ToLower(n), kinds) == Some(c)
    ensures c in ScanCaskroom(env, caskroom, kinds)
  {
    CaskEntriesComplete(env, caskroom, Listing(env, caskroom), kinds, n, c);
  }

  /** Entry names are lower-cased before the substring test, so a kind whose
      executable name holds an upper-case letter never matches: only Firefox
      can be found in the Caskroom. */
  lemma CaskroomFindsOnlyFirefox(env: Env, caskroom: Path, kinds: seq<Kind>)
    ensures forall c :: c in ScanCaskroom(env, caskroom, kinds) ==> c.kind == Firefox && c.kind in kinds
  {
    CaskEntriesKinds(env, caskroom, Listing(env, caskroom), kinds);
    forall c | c in ScanCaskroom(env, caskroom, kinds) ensures c.kind == Firefox && c.kind in kinds {
      var n :| n in Listing(env, caskroom) && Contains(ToLower(n), Bin(c.kind));
      if c.kind != Firefox {
        assert IsAsciiUpper(Bin(c.kind)[0]);
        LowerNeverContainsUpper(n, Bin(c.kind), 0);
      }
    }
  }

  /** `find_in_homebrew`: the executables of `<prefix>/bin`, then the Caskroom
      finds. */
  function FindInHomebrew(env: Env, prefix: Path, kinds: seq<Kind>): seq<Candidate> {
    FindExecutablesInDir(env, Join(prefix, "bin")) + ScanCaskroom(env, Join(prefix, "Caskroom"), kinds)
  }

  /** The executables of `<prefix>/bin` are not filtered by the requested
      kinds: a `firefox` there is a candidate even when only other kinds were
      asked for. */
  lemma HomebrewBinIgnoresKinds(env: Env, prefix: Path, kinds: seq<Kind>)
    requires Join(prefix, "bin") in env.dirs && "firefox" in Listing(env, Join(prefix, "bin"))
    requires Join(Join(prefix, "bin"), "firefox") in env.files
    ensures Candidate(Firefox, Join(Join(prefix, "bin"), "firefox")) in FindInHomebrew(env, prefix, kinds)
  {
    var dir := Join(prefix, "bin");
    FromBinOfBin(Firefox);
    FindsExecutable(env, dir, Bin(Firefox));
  }

  /** A file in a directory named after a kind's executable is a candidate of
      that directory. */
  lemma FindsExecutable(env: Env, dir: Path, n: string)
    requires dir in env.dirs && n in Listing(env, dir) && Join(dir, n) in env.files && FromBin(n).Some?
    ensures Candidate(FromBin(n).value, Join(dir, n)) in FindExecutablesInDir(env, dir)
  {
    ExecutablesAmongExact(env, dir, Listing(env, dir));
  }

  // ---------------------------------------------------------------------------
  // Probe 3: custom directories

  /** Where a bundle keeps the executable of kind `k`. */
  function BundleExecutable(app: Path, k: Kind): Path {
    Join(Join(app, "Contents/MacOS"), Bin(k))
  }

  /** The first requested kind whose executable exists inside bundle `app`. */
  function FirstInstalled(env: Env, app: Path, kinds: seq<Kind>): Option<Candidate> {
    if kinds == [] then None
    else if BundleExecutable(app, kinds[0]) in env.existing then
      Some(Candidate(kinds[0], BundleExecutable(app, kinds[0])))
    else FirstInstalled(env, app, kinds[1..])
  }

  /** `FirstInstalled` gives a requested kind whose executable exists, with
      that path, and no earlier requested kind's executable exists; it gives
      nothing exactly when no requested kind's executable exists. */
  lemma {:induction false} FirstInstalledProperties(env: Env, app: Path, kinds: seq<Kind>)
    ensures var r := FirstInstalled(env, app, kinds);
      && (r.Some? ==> exists i :: 0 <= i < |kinds| && kinds[i] == r.value.kind
                        && r.value.path == BundleExecutable(app, kinds[i])
                        && r.value.path in env.existing
                        && forall j :: 0 <= j < i ==> BundleExecutable(app, kinds[j]) !in env.existing)
      && (r.None? <==> forall k :: k in kinds ==> BundleExecutable(app, k) !in env.existing)
  {
    if kinds == [] {
    } else if BundleExecutable(app, kinds[0]) in env.existing {
      assert kinds[0] in kinds;
    } else {
      var tail := kinds[1..];
      FirstInstalledProperties(env, app, tail);
      var r := FirstInstalled(env, app, tail);
      if r.Some? {
        var i :| 0 <= i < |tail| && tail[i] == r.value.kind
                 && r.value.path == BundleExecutable(app, tail[i])
                 && r.value.path in env.existing
                 && forall j :: 0 <= j < i ==> BundleExecutable(app, tail[j]) !in env.existing;
        assert kinds[i + 1] == tail[i];
        forall j | 0 <= j < i + 1 ensures BundleExecutable(app, kinds[j]) !in env.existing {
          if j > 0 {
            assert kinds[j] == tail[j - 1];
          }
        }
        assert tail[i] in kinds;
      } else {
        forall k | k in kinds ensures BundleExecutable(app, k) !in env.existing {
          if k != kinds[0] {
            var n :| 0 <= n < |kinds| && kinds[n] == k;
            assert tail[n - 1] == k;
          }
        }
      }
    }
  }

  /** The first-match rule determines its result. */
  lemma {:induction false} FirstInstalledAt(env: Env, app: Path, kinds: seq<Kind>, i: nat)
    requires i < |kinds| && BundleExecutable(app, kinds[i]) in env.existing
    requires forall j :: 0 <= j < i ==> BundleExecutable(app, kinds[j]) !in env.existing
    ensures FirstInstalled(env, app, kinds) == Some(Candidate(kinds[i], BundleExecutable(app, kinds[i])))
  {
    if i > 0 {
      FirstInstalledAt(env, app, kinds[1..], i - 1);
    }
  }

  /** The `for kind in kinds` loop of `find_in_custom_dirs` for one bundle:
      return at the first kind whose executable exists. */
  method BundleCandidate(env: Env, app: Path, kinds: seq<Kind>) returns (r: Option<Candidate>)
    ensures r == FirstInstalled(env, app, kinds)
  {
    for i := 0 to |kinds|
      invariant FirstInstalled(env, app, kinds[i..]) == FirstInstalled(env, app, kinds)
    {
      var exec := BundleExecutable(app, kinds[i]);
      if exec in env.existing {
        return Some(Candidate(kinds[i], exec));
      }
      assert kinds[i..][1..] == kinds[i + 1..];
    }
    return None;
  }

  /** One directory entry: a bundle (extension `app`) gives its first
      installed kind; anything else gives nothing. */
  function EntryCandidate(env: Env, base: Path, name: string, kinds: seq<Kind>): Option<Candidate> {
    if Extension(name) == Some("app") then FirstInstalled(env, Join(base, name), kinds) else None
  }

  /** The candidates from the entries `names` of directory `base`. */
  function DirCandidates(env: Env, base: Path, names: seq<string>, kinds: seq<Kind>): (r: seq<Candidate>)
    ensures |r| <= |names|
  {
    if names == [] then []
    else
      match EntryCandidate(env, base, names[|names| - 1], kinds)
      case Some(c) => DirCandidates(env, base, names[..|names| - 1], kinds) + [c]
      case None => DirCandidates(env, base, names[..|names| - 1], kinds)
  }

  lemma DirCandidatesStep(env: Env, base: Path, names: seq<string>, j: nat, kinds: seq<Kind>)
    requires j < |names|
    ensures DirCandidates(env, base, names[..j + 1], kinds)
         == DirCandidates(env, base, names[..j], kinds)
            + match EntryCandidate(env, base, names[j], kinds) case Some(c) => [c] case None => []
  {
    assert names[..j + 1][..j] == names[..j];
  }

  /** Each candidate of a directory is what one of its entries gives. */
  lemma {:induction false} DirCandidatesFromEntries(env: Env, base: Path, names: seq<string>, kinds: seq<Kind>)
    ensures forall c :: c in DirCandidates(env, base, names, kinds) ==>
      exists n :: n in names && EntryCandidate(env, base, n, kinds) == Some(c)
  {
    if names != [] {
      var init, n := names[..|names| - 1], names[|names| - 1];
      DirCandidatesFromEntries(env, base, init, kinds);
      forall c | c in DirCandidates(env, base, names, kinds)
        ensures exists n :: n in names && EntryCandidate(env, base, n, kinds) == Some(c)
      {
        if c in DirCandidates(env, base, init, kinds) {
          var n' :| n' in init && EntryCandidate(env, base, n', kinds) == Some(c);
          assert n' in names;
        } else {
          assert n in names;
        }
      }
    }
  }

  /** Conversely, every entry that gives a candidate contributes it. */
  lemma {:induction false} DirCandidatesComplete(env: Env, base: Path, names: seq<string>, kinds: seq<Kind>, n: string, c: Candidate)
    requires n in names && EntryCandidate(env, base, n, kinds) == Some(c)
    ensures c in DirCandidates(env, base, names, kinds)
  {
    var init, last := names[..|names| - 1], names[|names| - 1];
    var before := DirCandidates(env, base, init, kinds);
    if n == last {
      assert DirCandidates(env, base, names, kinds) == before + [c];
    } else {
      InInitOrLast(names, n);
      DirCandidatesComplete(env, base, init, kinds, n, c);
      match EntryCandidate(env, base, last, kinds)
      case Some(c') => assert DirCandidates(env, base, names, kinds) == before + [c'];
      case None => assert DirCandidates(env, base, names, kinds) == before;
    }
  }

  /** The candidates from every custom directory, directory by directory. */
  function CustomDirCandidates(env: Env, dirs: seq<Path>, kinds: seq<Kind>): seq<Candidate> {
    if dirs == [] then []
    else
      var d := dirs[|dirs| - 1];
      CustomDirCandidates(env, dirs[..|dirs| - 1], kinds) + DirCandidates(env, d, Listing(env, d), kinds)
  }

  /** Every custom-directory candidate comes from a bundle entry of one of the
      directories, and is that bundle's first installed requested kind. */
  lemma {:induction false} CustomDirCandidatesFromBundles(env: Env, dirs: seq<Path>, kinds: seq<Kind>)
    ensures forall c :: c in CustomDirCandidates(env, dirs, kinds) ==>
      exists d, n :: d in dirs && n in Listing(env, d) && Extension(n) == Some("app")
                     && FirstInstalled(env, Join(d, n), kinds) == Some(c)
  {
    if dirs != [] {
      var init, d := dirs[..|dirs| - 1], dirs[|dirs| - 1];
      CustomDirCandidatesFromBundles(env, init, kinds);
      forall c | c in CustomDirCandidates(env, dirs, kinds)
        ensures exists d, n :: d in dirs && n in Listing(env, d) && Extension(n) == Some("app")
                               && FirstInstalled(env, Join(d, n), kinds) == Some(c)
      {
        if c in CustomDirCandidates(env, init, kinds) {
          var d', n :| d' in init && n in Listing(env, d') && Extension(n) == Some("app")
                       && FirstInstalled(env, Join(d', n), kinds) == Some(c);
          assert d' in dirs;
        } else {
          DirCandidatesFromEntries(env, d, Listing(env, d), kinds);
          var n :| n in Listing(env, d) && EntryCandidate(env, d, n, kinds) == Some(c);
          assert d in dirs;
        }
      }
    }
  }

  /** Conversely, every bundle entry of a custom directory whose requested
      kind is installed contributes that candidate. */
  lemma {:induction false} CustomDirCandidatesComplete(env: Env, dirs: seq<Path>, kinds: seq<Kind>, d: Path, n: string, c: Candidate)
    requires d in dirs && n in Listing(env, d) && Extension(n) == Some("app")
    requires FirstInstalled(env, Join(d, n), kinds) == Some(c)
    ensures c in CustomDirCandidates(env, dirs, kinds)
  {
    var init, last := dirs[..|dirs| - 1], dirs[|dirs| - 1];
    if d == last {
      DirCandidatesComplete(env, d, Listing(env, d), kinds, n, c);
    } else {
      InInitOrLast(dirs, d);
      CustomDirCandidatesComplete(env, init, kinds, d, n, c);
    }
  }

  /** `find_in_custom_dirs`. */
  method FindInCustomDirs(env: Env, dirs: seq<Path>, kinds: seq<Kind>) returns (r: seq<Candidate>)
    ensures r == CustomDirCandidates(env, dirs, kinds)
  {
    r := [];
    var i := 0;
    while i < |dirs|
      invariant 0 <= i <= |dirs|
      invariant r == CustomDirCandidates(env, dirs[..i], kinds)
    {
      var found := FindInCustomDir(env, dirs[i], kinds);
      assert dirs[..i + 1][..i] == dirs[..i];
      r := r + found;
      i := i + 1;
    }
    assert dirs[..i] == dirs;
  }

  /** One directory of `find_in_custom_dirs`: its entries in listing order,
      each bundle giving its first installed requested kind. */
  method FindInCustomDir(env: Env, base: Path, kinds: seq<Kind>) returns (found: seq<Candidate>)
    ensures found == DirCandidates(env, base, Listing(env, base), kinds)
  {
    var names := Listing(env, base);
    found := [];
    var j := 0;
    while j < |names|
      invariant 0 <= j <= |names|
      invariant found == DirCandidates(env, base, names[..j], kinds)
    {
      var name := names[j];
      DirCandidatesStep(env, base, names, j, kinds);
      if Extension(name) == Some("app") {
        var c := BundleCandidate(env, Join(base, name), kinds);
        if c.Some? {
          found := found + [c.value];
        }
      }
      j := j + 1;
    }
    assert names[..j] == names;
  }

  // ---------------------------------------------------------------------------
  // The aggregator

  /** All candidates: known locations, then Homebrew (when `brew --prefix`
      answers), then the custom directories. */
  function Candidates(env: Env, dirs: seq<Path>, kinds: seq<Kind>): seq<Candidate> {
    FindInKnownLocations(env, kinds)
      + (match DetectHomebrewPrefix(env.brew)
         case Some(prefix) => FindInHomebrew(env, prefix, kinds)
         case None => [])
      + CustomDirCandidates(env, dirs, kinds)
  }

  /** What `find_browsers` returns. */
  function AllBrowsers(env: Env, dirs: seq<Path>, kinds: seq<Kind>, all: bool): seq<Browser> {
    Deduplicate(Resolve(env, Candidates(env, dirs, kinds)), all)
  }

  /** Every browser listed was resolved from a candidate by `get_browser`:
      the listing never holds a browser whose name is not its kind's name, or
      whose version its kind's rule did not produce. */
  lemma AllBrowsersResolved(env: Env, dirs: seq<Path>, kinds: seq<Kind>, all: bool)
    ensures forall b :: b in AllBrowsers(env, dirs, kinds, all) ==>
      var cs := Candidates(env, dirs, kinds);
      && b in Resolve(env, cs)
      && (exists c :: c in cs && GetBrowser(env, c.kind, c.path) == Ok(b))
      && b.name == Name(b.kind) && IsTrimmed(b.version)
  {
    var cs := Candidates(env, dirs, kinds);
    var bs := Resolve(env, cs);
    ResolvedFromCandidates(env, cs);
    InsertAllValues(bs, KeyOf(all));
    var r := AllBrowsers(env, dirs, kinds, all);
    forall b | b in r ensures b in bs {
      var i :| 0 <= i < |r| && r[i] == b;
      assert LastWithKey(bs, KeyOf(all), KeyOf(all)(r[i])) == Some(r[i]);
    }
  }

  /** `find_browsers`. Besides the browsers, returns the ones its "Found
      browser" debug line reports: those whose version key was new when
      inserted. */
  method FindBrowsers(env: Env, extraDirs: seq<Path>, kinds: seq<Kind>, all: bool)
    returns (browsers: seq<Browser>, reported: seq<Browser>)
    ensures browsers == AllBrowsers(env, extraDirs, kinds, all)
    ensures reported == NewlyInserted(Resolve(env, Candidates(env, extraDirs, kinds)), VersionKey)
  {
    var allKindPaths := RunProbes(env, extraDirs, kinds);
    var seenUnique, seenAll;
    seenUnique, seenAll, reported := CollectBrowsers(env, allKindPaths);
    if all {
      browsers := Values(seenAll);
      assert KeyOf(all) == DisplayLine;
    } else {
      browsers := Values(seenUnique);
      assert KeyOf(all) == VersionKey;
    }
  }

  /** The three probes of `find_browsers`, their candidates concatenated in
      probe order. */
  method RunProbes(env: Env, extraDirs: seq<Path>, kinds: seq<Kind>) returns (allKindPaths: seq<Candidate>)
    ensures allKindPaths == Candidates(env, extraDirs, kinds)
  {
    allKindPaths := FindInKnownLocations(env, kinds);
    var prefix := DetectHomebrewPrefix(env.brew);
    if prefix.Some? {
      allKindPaths := allKindPaths + FindInHomebrew(env, prefix.value, kinds);
    }
    var custom := FindInCustomDirs(env, extraDirs, kinds);
    allKindPaths := allKindPaths + custom;
  }

  /** The loop of `find_browsers`: resolve each candidate in turn and insert
      the browser into both maps, noting the ones new to the version-identity
      map. */
  method CollectBrowsers(env: Env, cs: seq<Candidate>)
    returns (seenUnique: seq<(string, Browser)>, seenAll: seq<(string, Browser)>, reported: seq<Browser>)
    ensures seenUnique == InsertAll(Resolve(env, cs), VersionKey)
    ensures seenAll == InsertAll(Resolve(env, cs), DisplayLine)
    ensures reported == NewlyInserted(Resolve(env, cs), VersionKey)
  {
    seenUnique, seenAll, reported := [], [], [];
    ghost var done: seq<Browser> := [];
    var i := 0;
    while i < |cs|
      invariant 0 <= i <= |cs|
      invariant done == Resolve(env, cs[..i])
      invariant seenUnique == InsertAll(done, VersionKey)
      invariant seenAll == InsertAll(done, DisplayLine)
      invariant reported == NewlyInserted(done, VersionKey)
    {
      ResolveStep(env, cs, i);
      seenUnique, seenAll, reported := CollectOne(env, cs[i], done, seenUnique, seenAll, reported);
      done := done + ResolveOne(env, cs[i]);
      i := i + 1;
    }
    assert cs[..i] == cs;
  }

  /** One turn of that loop: a candidate that resolves goes into both maps and
      is reported when its version key is new; one that fails changes
      nothing. */
  method CollectOne(env: Env, c: Candidate, ghost done: seq<Browser>,
                    seenUnique: seq<(string, Browser)>, seenAll: seq<(string, Browser)>, reported: seq<Browser>)
    returns (seenUnique': seq<(string, Browser)>, seenAll': seq<(string, Browser)>, reported': seq<Browser>)
    requires seenUnique == InsertAll(done, VersionKey) && seenAll == InsertAll(done, DisplayLine)
    requires reported == NewlyInserted(done, VersionKey)
    ensures seenUnique' == InsertAll(done + ResolveOne(env, c), VersionKey)
    ensures seenAll' == InsertAll(done + ResolveOne(env, c), DisplayLine)
    ensures reported' == NewlyInserted(done + ResolveOne(env, c), VersionKey)
  {
    var resolved := GetBrowser(env, c.kind, c.path);
    if resolved.Ok? {
      var browser := resolved.value;
      assert ResolveOne(env, c) == [browser];
      CollectStep(done, browser);
      var inserted := Insert(seenUnique, VersionKey(browser), browser);
      seenUnique' := inserted.0;
      reported' := reported;
      if inserted.1.None? {
        reported' := reported + [browser];
      }
      seenAll' := Insert(seenAll, DisplayLine(browser), browser).0;
    } else {
      assert done + ResolveOne(env, c) == done;
      seenUnique', seenAll', reported' := seenUnique, seenAll, reported;
    }
  }

  /** One browser more: both maps take it in, and it is reported when its
      version key was new. */
  lemma CollectStep(done: seq<Browser>, b: Browser)
    ensures var inserted := Insert(InsertAll(done, VersionKey), VersionKey(b), b);
      && InsertAll(done + [b], VersionKey) == inserted.0
      && InsertAll(done + [b], DisplayLine) == Insert(InsertAll(done, DisplayLine), DisplayLine(b), b).0
      && NewlyInserted(done + [b], VersionKey)
         == NewlyInserted(done, VersionKey) + if inserted.1.None? then [b] else []
  {
    InsertAllSnoc(done, b, VersionKey);
    InsertAllSnoc(done, b, DisplayLine);
  }

  /** What `find_browser` returns: the first entry of the version-identity
      listing for the one kind, or the error naming the kind. */
  function FirstBrowser(env: Env, dirs: seq<Path>, kind: Kind): Result<Browser, string> {
    var bs := AllBrowsers(env, dirs, [kind], false);
    if bs == [] then Err("No browser found for " + ShortName(kind)) else Ok(bs[0])
  }

  /** `find_browser`: the browser with the smallest version key among those
      the one-kind search resolves (the last one found under that key); an
      error naming the kind when nothing resolves. That search includes every
      executable of `<prefix>/bin`, whatever its kind. */
  method FindBrowser(env: Env, extraDirs: seq<Path>, kind: Kind) returns (r: Result<Browser, string>)
    ensures r == FirstBrowser(env, extraDirs, kind)
  {
    var browsers, _ := FindBrowsers(env, extraDirs, [kind], false);
    if |browsers| == 0 {
      return Err("No browser found for " + ShortName(kind));
    }
    r := Ok(browsers[0]);
  }

  /** `find_browser` fails exactly when no candidate of the one-kind search
      resolves (a search that includes every kind's executable in
      `<prefix>/bin`), and then names the kind; otherwise it gives a resolved
      browser, the last one found under its version key, whose key no other
      resolved browser's key precedes. */
  lemma FirstBrowserProperties(env: Env, dirs: seq<Path>, kind: Kind)
    ensures var r, resolved := FirstBrowser(env, dirs, kind), Resolve(env, Candidates(env, dirs, [kind]));
      && (r.Err? <==> resolved == [])
      && (r.Err? ==> r.error == "No browser found for " + ShortName(kind))
      && (r.Ok? ==> r.value in resolved
                    && LastWithKey(resolved, VersionKey, VersionKey(r.value)) == Some(r.value)
                    && forall b :: b in resolved ==> !Less(VersionKey(b), VersionKey(r.value)))
  {
    var resolved := Resolve(env, Candidates(env, dirs, [kind]));
    DeduplicateProperties(resolved, false);
    if resolved != [] {
      DeduplicateHeadIsLeast(resolved);
    }
  }

  /** Because `<prefix>/bin` is scanned without regard to the requested kind,
      a Firefox there that resolves makes `find_browser` succeed for every
      kind, Chrome included. */
  lemma FirstBrowserFromHomebrewBin(env: Env, dirs: seq<Path>, kind: Kind, prefix: Path)
    requires DetectHomebrewPrefix(env.brew) == Some(prefix)
    requires Join(prefix, "bin") in env.dirs && "firefox" in Listing(env, Join(prefix, "bin"))
    requires Join(Join(prefix, "bin"), "firefox") in env.files
    requires GetBrowser(env, Firefox, Join(Join(prefix, "bin"), "firefox")).Ok?
    ensures FirstBrowser(env, dirs, kind).Ok?
  {
    var c := Candidate(Firefox, Join(Join(prefix, "bin"), "firefox"));
    var cs := Candidates(env, dirs, [kind]);
    HomebrewBinIgnoresKinds(env, prefix, [kind]);
    assert c in cs;
    ResolveComplete(env, cs, c);
    FirstBrowserProperties(env, dirs, kind);
  }

  /** The first entry of the version-identity listing has the smallest key of
      all resolved browsers. */
  lemma DeduplicateHeadIsLeast(bs: seq<Browser>)
    requires bs != []
    ensures var r := Deduplicate(bs, false);
      r != [] && forall b :: b in bs ==> !Less(VersionKey(b), VersionKey(r[0]))
  {
    var r := Deduplicate(bs, false);
    DeduplicateProperties(bs, false);
    forall b | b in bs ensures !Less(VersionKey(b), VersionKey(r[0])) {
      var i :| 0 <= i < |r| && VersionKey(r[i]) == VersionKey(b);
      if i > 0 {
        LessAsymmetric(VersionKey(r[0]), VersionKey(b));
      } else {
        LessIrreflexive(VersionKey(b));
      }
    }
  }

  /** The error of `find_browser` ends with the kind's short name. */
  lemma NotFoundNamesKind(env: Env, dirs: seq<Path>, kind: Kind)
    requires FirstBrowser(env, dirs, kind).Err?
    ensures EndsWith(FirstBrowser(env, dirs, kind).error, ShortName(kind))
  {
    var msg := FirstBrowser(env, dirs, kind).error;
    assert msg[|msg| - |ShortName(kind)|..] == ShortName(kind);
  }
}
