/** The browser kind registry: the closed set of supported browsers, their fixed
    names, the inverse lookup by executable name, and the per-kind rule that
    turns `--version` output into a (name, version) pair. */
module BrowserKind {
  import opened Wrappers
  import opened Strings
  import opened Paths

  datatype Kind = Brave | Chrome | Edge | Firefox | Opera

  /** Every kind, once each, in declaration order (`Kind::all`). */
  function All(): (r: seq<Kind>)
    ensures forall k :: k in r <==> k.Brave? || k.Chrome? || k.Edge? || k.Firefox? || k.Opera?
    ensures forall i, j :: 0 <= i < j < |r| ==> r[i] != r[j]
  {
    [Brave, Chrome, Edge, Firefox, Opera]
  }

  /** Executable name inside the bundle. */
  function Bin(k: Kind): string {
    match k
    case Chrome => "Google Chrome"
    case Edge => "Microsoft Edge"
    case Brave => "Brave Browser"
    case Opera => "Opera"
    case Firefox => "firefox"
  }

  /** Application bundle name. */
  function App(k: Kind): string {
    match k
    case Chrome => "Google Chrome.app"
    case Edge => "Microsoft Edge.app"
    case Brave => "Brave Browser.app"
    case Opera => "Opera.app"
    case Firefox => "Firefox.app"
  }

  /** Display name, also the prefix of the `--version` output. */
  function Name(k: Kind): string {
    match k
    case Chrome => "Google Chrome"
    case Edge => "Microsoft Edge"
    case Brave => "Brave Browser"
    case Opera => "Opera"
    case Firefox => "Mozilla Firefox"
  }

  /** Short name, the `Display` of a kind. */
  function ShortName(k: Kind): string {
    match k
    case Chrome => "Chrome"
    case Edge => "Edge"
    case Brave => "Brave"
    case Opera => "Opera"
    case Firefox => "Firefox"
  }

  /** The first kind of `ks` whose executable name is `bin`. */
  function FindByBin(ks: seq<Kind>, bin: string): (r: Option<Kind>)
    ensures r.Some? ==> r.value in ks && Bin(r.value) == bin
    ensures r.None? ==> forall k :: k in ks ==> Bin(k) != bin
  {
    if ks == [] then None
    else if Bin(ks[0]) == bin then Some(ks[0])
    else FindByBin(ks[1..], bin)
  }

  /** `Kind::from_bin`: the kind whose executable name is `bin`; since the
      five executable names differ, it is the only one. */
  function FromBin(bin: string): (r: Option<Kind>)
    ensures forall k :: r == Some(k) <==> Bin(k) == bin
  {
    BinsDistinct();
    FindByBin(All(), bin)
  }

  lemma BinsDistinct()
    ensures forall k1, k2 :: Bin(k1) == Bin(k2) ==> k1 == k2
  {
    forall k1, k2 | Bin(k1) == Bin(k2) ensures k1 == k2 {
      assert Bin(k1)[..2] == Bin(k2)[..2];
    }
  }

  /** The inverse lookup undoes the forward one. */
  lemma FromBinOfBin(k: Kind)
    ensures FromBin(Bin(k)) == Some(k)
  {
  }

  /** `Kind::applications_path`: the executable inside the bundle under
      `/Applications`. */
  function ApplicationsPath(k: Kind): (r: Path)
    ensures r == "/Applications" + "/" + App(k) + "/" + "Contents/MacOS" + "/" + Bin(k)
  {
    NamesAreRelative(k);
    JoinChain("/Applications", App(k), "Contents/MacOS", Bin(k));
    Join(Join(Join("/Applications", App(k)), "Contents/MacOS"), Bin(k))
  }

  /** Bundle and executable names are single relative components. */
  lemma NamesAreRelative(k: Kind)
    ensures App(k) != [] && App(k)[0] != '/' && App(k)[|App(k)| - 1] == 'p'
    ensures Bin(k) != [] && Bin(k)[0] != '/'
  {
  }

  /** Different kinds have different `/Applications` paths. */
  lemma ApplicationsPathInjective(k1: Kind, k2: Kind)
    requires ApplicationsPath(k1) == ApplicationsPath(k2)
    ensures k1 == k2
  {
    AppInitial(k1);
    AppInitial(k2);
    match k1
    case Brave => assert App(k2)[0] == 'B';
    case Chrome => assert App(k2)[0] == 'G';
    case Edge => assert App(k2)[0] == 'M';
    case Firefox => assert App(k2)[0] == 'F';
    case Opera => assert App(k2)[0] == 'O';
  }

  lemma AppInitial(k: Kind)
    ensures ApplicationsPath(k)[14] == App(k)[0]
  {
    var head := "/Applications" + "/" + App(k);
    assert |App(k)| > 0;
    assert head[14] == App(k)[0];
    assert (head + "/" + "Contents/MacOS" + "/" + Bin(k))[14] == head[14];
  }

  /** The error `parse_version` raises: the trimmed output it could not parse. */
  datatype VersionError = InvalidVersion(output: string)

  /** `Kind::parse_version`. Opera prints the bare version, so its trimmed
      output is taken verbatim; every other kind's trimmed output must start
      with the kind's name, and the trimmed remainder is the version. */
  function ParseVersion(k: Kind, output: string): (r: Result<(string, string), VersionError>)
    ensures r.Ok? ==> r.value.0 == Name(k) && IsTrimmed(r.value.1)
    ensures k == Opera ==> r == Ok((Name(Opera), Trim(output)))
    ensures k != Opera ==> (r.Ok? <==> StartsWith(Trim(output), Name(k)))
    ensures k != Opera && r.Ok? ==> r.value.1 == Trim(Trim(output)[|Name(k)|..])
    ensures r.Err? ==> r.error == InvalidVersion(Trim(output))
  {
    var version := Trim(output);
    var name := Name(k);
    if k == Opera then Ok((name, version))
    else if StartsWith(version, name) then Ok((name, Trim(version[|name|..])))
    else Err(InvalidVersion(version))
  }

  /** Output `<name> <version>` yields the version back, for every kind that
      prints its name; Opera's bare version is returned as it is. */
  lemma ParseVersionRoundTrip(k: Kind, version: string)
    requires IsTrimmed(version)
    ensures k != Opera ==> ParseVersion(k, Name(k) + " " + version) == Ok((Name(k), version))
    ensures ParseVersion(Opera, version) == Ok((Name(Opera), version))
  {
    assert IsTrimmed(Name(k)) && Name(k) != [];
    StripHeadAfterSpace(Name(k), version);
  }

  /** Output that does not begin with the kind's name is refused by every kind
      but Opera, for instance `Unrelated Text 1.2.3`. */
  lemma ParseVersionRejectsUnrelated(k: Kind)
    requires k != Opera
    ensures ParseVersion(k, "Unrelated Text 1.2.3") == Err(InvalidVersion("Unrelated Text 1.2.3"))
  {
    assert IsTrimmed("Unrelated Text 1.2.3");
    assert "Unrelated Text 1.2.3"[0] != Name(k)[0];
  }
}
