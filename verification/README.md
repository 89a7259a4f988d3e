# af: browser discovery, repository URLs and the IDE table, in Dafny

`af` is a command-line toolbox for macOS. This project models four of its parts and proves properties of them.

- **Browser discovery** (`src/af/cmd/browser/structures.rs`). It covers:
  - the five supported browser kinds and their fixed names;
  - the three probes that look for browser executables:
    - the `/Applications` bundles;
    - Homebrew's `bin` directory and its `Caskroom`;
    - bundles inside user-supplied directories;
  - resolving each candidate by running `<executable> --version` and parsing the output with the kind's rule;
  - deduplicating the resolved browsers into an ordered map, keyed by either:
    - the version identity (`<name> <version>`), or
    - the full identity (the aligned display line, which includes the path);
  - `find_browser`, which takes the first browser of one kind.

  The file system, `brew --prefix` and every `--version` run are inputs, gathered in an `Env` value. Files: `browser_kind.dfy`, `browsers.dfy`, `paths.dfy`, `sorted_map.dfy`.
- **`Repo::parse` and `short_format`** (`src/af/repo.rs`). They take an SSH clone URL apart into host, organisation and name. File: `repo.dfy`.
- **The language → IDE table** with `get` and `list`. It appears both in `src/af/ides.rs` (written with the shared constants) and in `src/ides.rs` (written with literals). File: `ides.dfy`, with the constants in `consts.dfy`.
- **`parse_repository` / `validate_repository`** (`src/cmd/git/clone_project/mod.rs`). This is the looser URL check applied before cloning. File: `clone_project.dfy`.

Shared helpers live in `strings.dfy` and `wrappers.dfy`:
- Rust's `trim` over Unicode white space;
- prefix, suffix and substring tests;
- ASCII lower-casing;
- character search;
- the lexicographic order of `str`;
- `Option` and `Result`.

`BTreeMap` is modelled as a strictly sorted association list:
- `insert` overwrites and returns the previous value;
- `values` come in key order.

The properties proved include:
- the `find_browsers` listing has one entry per distinct key, in strictly ascending key order, and each entry is the last browser found with its key;
- the "Found browser" debug line reports exactly the first browser found under each version key;
- `find_browser` fails exactly when no candidate of its one-kind search resolves. That search includes every executable in Homebrew's `bin`, whatever its kind. Otherwise it returns the browser with the smallest version key.
- `parse_version` round-trips `<name> <version>`;
- `Repo::parse` accepts exactly the URLs of its pattern and gives their parts back;
- `parse_repository` accepts exactly the trimmed URLs of its looser pattern, and is idempotent;
- `list` returns the table's distinct IDEs, in ascending order, as its unit test states.

Three behaviours of the code are modelled as written and stated as lemmas:
- **Caskroom matches.** Caskroom entry names are lower-cased before they are compared with the kinds' executable names. Only Firefox's executable name is lower-case, so only Firefox can be found in the Caskroom (`Browsers.CaskroomFindsOnlyFirefox`).
- **Homebrew `bin` finds.** Executables found in Homebrew's `bin` directory are not filtered by the requested kinds (`Browsers.HomebrewBinIgnoresKinds`). So the candidates of a `find_browser` for one kind can include another kind's executable: a Firefox in `<prefix>/bin` that resolves makes `find_browser` succeed for every kind (`Browsers.FirstBrowserFromHomebrewBin`).
- **The two URL patterns disagree.** The pattern of `parse_repository` admits URLs that the pattern of `Repo::parse` in `src/af/repo.rs` refuses (`CloneProject.LooseAcceptsWhatStrictRefuses`).

## Model

| member | source | states |
|---|---|---|
| `BrowserKind.All` | src/af/cmd/browser/structures.rs:44-46 | every kind is listed, and no kind is listed twice |
| `BrowserKind.BinsDistinct` | src/af/cmd/browser/structures.rs:55-63 | no two kinds share an executable name |
| `BrowserKind.Bin` | src/af/cmd/browser/structures.rs:55-63 | the executable name of each kind, as the table lists it; `BinsDistinct` and `FromBinOfBin` state what the lookup needs of it |
| `BrowserKind.App` | src/af/cmd/browser/structures.rs:72-80 | the bundle name of each kind; `AppInitial` and `ApplicationsPathInjective` state what the path needs of it |
| `BrowserKind.Name` | src/af/cmd/browser/structures.rs:82-90 | the display name of each kind, which is also the prefix `parse_version` strips; `NameWidthIs15` and `VersionKeyIdentifies` state what the listing needs of it |
| `BrowserKind.ShortName` | src/af/cmd/browser/structures.rs:92-100 | the short name of each kind, used in `find_browser`'s error; `NotFoundNamesKind` states it ends the message |
| `BrowserKind.FindByBin` | src/af/cmd/browser/structures.rs:66-69 | `find` over the kinds: the result is a listed kind with that executable name; no result means no listed kind has it |
| `BrowserKind.FromBin` | src/af/cmd/browser/structures.rs:65-70 | `from_bin` yields `k` exactly when `k`'s executable name is the input |
| `BrowserKind.FromBinOfBin` | src/af/cmd/browser/structures.rs:48-53 | the inverse lookup recovers every kind from its executable name, so `with_path` recognises each kind's executable |
| `BrowserKind.ApplicationsPath` | src/af/cmd/browser/structures.rs:102-107 | the path is `/Applications/<app>/Contents/MacOS/<bin>` |
| `BrowserKind.ApplicationsPathInjective` | src/af/cmd/browser/structures.rs:72-80 | different kinds have different `/Applications` paths |
| `BrowserKind.ParseVersion` | src/af/cmd/browser/structures.rs:109-122 | the output is trimmed; Opera takes it verbatim; other kinds succeed iff it starts with the kind's name, and the version is the trimmed rest; the error carries the trimmed output |
| `BrowserKind.ParseVersionRoundTrip` | src/af/cmd/browser/structures.rs:110-120 | `<name> <version>` with a trimmed version parses back to `(name, version)` for every kind |
| `BrowserKind.ParseVersionRejectsUnrelated` | src/af/cmd/browser/structures.rs:117-121 | output that does not start with the name is refused by every kind but Opera |
| `Browsers.GetBrowser` | src/af/cmd/browser/structures.rs:214-242 | a browser iff the run exits successfully and its trimmed output parses; the browser's name, kind, path and version; a start failure; the exit code of a failed run, or -1 without one |
| `Browsers.ResolveOne` | src/af/cmd/browser/structures.rs:182-195 | a candidate gives a browser exactly when `get_browser` succeeds, and then that browser; nothing on an error |
| `Browsers.Resolve` | src/af/cmd/browser/structures.rs:181-195 | each candidate gives at most one browser |
| `Browsers.ResolveStep` | src/af/cmd/browser/structures.rs:181-195 | resolving one more candidate appends what that candidate gives |
| `Browsers.ResolvedFromCandidates` | src/af/cmd/browser/structures.rs:182-193 | every resolved browser is `get_browser`'s result for some candidate; its name is its kind's name and its version is trimmed |
| `Browsers.ResolveComplete` | src/af/cmd/browser/structures.rs:181-195 | conversely, every candidate that `get_browser` resolves contributes its browser |
| `Browsers.ResolveAppend` | src/af/cmd/browser/structures.rs:181-196 | candidates resolve independently: resolving a concatenation concatenates the results |
| `Browsers.ResolveDropsFailure` | src/af/cmd/browser/structures.rs:194 | a failing candidate is dropped without affecting the others |
| `Browsers.VersionKeyIdentifies` | src/af/cmd/browser/structures.rs:157-159 | for resolved browsers, equal version keys mean the same kind and the same version, and conversely |
| `Browsers.VersionKey` | src/af/cmd/browser/structures.rs:157-159 | `Browser::version`, `<name> <version>`; `VersionKeyIdentifies` states it identifies kind and version |
| `Browsers.DisplayLine` | src/af/cmd/browser/structures.rs:133-150 | the `Display` line: name padded to the widest kind name, version padded to 13, then the path; `DisplayLineSeparatesPaths` states it tells paths apart |
| `Browsers.MaxLen` | src/af/cmd/browser/structures.rs:141-146 | the result bounds every length and, for a non-empty input, is attained; 0 for none |
| `Browsers.NameWidthIs15` | src/af/cmd/browser/structures.rs:141-146 | the name column is 15 wide and fits every kind's name |
| `Browsers.PadEnd` | src/af/cmd/browser/structures.rs:137 | left alignment: the text, then spaces up to the width, never truncated |
| `Browsers.DisplayLineSeparatesPaths` | src/af/cmd/browser/structures.rs:133-150 | browsers that differ only in path have different display lines |
| `Browsers.DeduplicateHeadIsLeast` | src/af/cmd/browser/structures.rs:198-203 | a non-empty resolution gives a non-empty version listing whose head has the least version key of all resolved browsers |
| `Browsers.Deduplicate` | src/af/cmd/browser/structures.rs:178-203 | the values of the map built by inserting every resolved browser under the chosen key; `DeduplicateProperties` states what the listing holds |
| `Browsers.DeduplicateProperties` | src/af/cmd/browser/structures.rs:178-203 | the listing has one entry per distinct key, in strictly ascending key order, each the last browser with its key, every key represented, and it is empty only when nothing resolved |
| `Browsers.SameVersionKeepsLast` | src/af/cmd/browser/structures.rs:185-187 | one version at two paths: version identity keeps the one seen last |
| `Browsers.SameVersionKeepsBoth` | src/af/cmd/browser/structures.rs:192 | one version at two paths: full identity keeps both |
| `Browsers.FindInKnownLocations` | src/af/cmd/browser/structures.rs:245-252 | the requested kinds whose `/Applications` executable exists, in request order; `KnownLocationsExact` states it both ways |
| `Browsers.KnownLocationsExact` | src/af/cmd/browser/structures.rs:245-252 | exactly the requested kinds whose `/Applications` executable exists |
| `Browsers.DetectHomebrewPrefix` | src/af/cmd/browser/structures.rs:255-263 | a prefix iff `brew --prefix` succeeds with UTF-8 output; the prefix is that output, trimmed |
| `Browsers.ExecutablesAmongExact` | src/af/cmd/browser/structures.rs:346-353 | exactly the entries that are files named after some kind's executable, each tagged with that kind |
| `Browsers.ExecutablesAmong` | src/af/cmd/browser/structures.rs:346-353 | the entries that are files and name a kind's executable, each tagged with that kind, in listing order; `ExecutablesAmongExact` states it both ways |
| `Browsers.FindExecutablesInDir` | src/af/cmd/browser/structures.rs:341-345 | nothing unless the path is a directory |
| `Browsers.FindsExecutable` | src/af/cmd/browser/structures.rs:341-353 | in a directory, every file named after a kind's executable is a candidate of that kind |
| `Browsers.CaskEntry` | src/af/cmd/browser/structures.rs:289-305 | the first requested kind whose executable name occurs in the lower-cased entry name and whose glob matches, with that glob's first match; none if no kind does |
| `Browsers.CaskEntries` | src/af/cmd/browser/structures.rs:282-307 | at most one candidate per Caskroom entry; `CaskEntriesMatch` and `CaskEntriesComplete` state that the candidates are exactly what `CaskEntry` gives for the entries |
| `Browsers.CaskEntriesMatch` | src/af/cmd/browser/structures.rs:286-306 | every Caskroom candidate is what `CaskEntry` gives for one of the entries: the first requested kind matching that entry, at its first glob match |
| `Browsers.CaskEntriesKinds` | src/af/cmd/browser/structures.rs:286-292 | hence every Caskroom candidate is of a requested kind whose executable name occurs in some lower-cased entry name |
| `Browsers.CaskEntriesComplete` | src/af/cmd/browser/structures.rs:286-306 | conversely, every entry that matches a requested kind contributes its candidate |
| `Browsers.ScanCaskroom` | src/af/cmd/browser/structures.rs:277-281 | nothing unless the Caskroom is a directory; at most one candidate per entry; over the listing, `CaskEntriesMatch` states each candidate is `CaskEntry` of a listed entry and `ScanCaskroomComplete` states that every matching entry is found |
| `Browsers.ScanCaskroomComplete` | src/af/cmd/browser/structures.rs:277-307 | when the Caskroom is a directory, every entry of it that matches a requested kind yields its candidate |
| `Browsers.CaskroomFindsOnlyFirefox` | src/af/cmd/browser/structures.rs:287-290 | the Caskroom yields only Firefox candidates, and only when Firefox was requested |
| `Browsers.HomebrewBinIgnoresKinds` | src/af/cmd/browser/structures.rs:266-274 | a `firefox` file in `<prefix>/bin` is a candidate whatever kinds were requested |
| `Browsers.FindInHomebrew` | src/af/cmd/browser/structures.rs:266-274 | the `bin` executables followed by the Caskroom candidates; `HomebrewBinIgnoresKinds` and `CaskroomFindsOnlyFirefox` state what each part contributes |
| `Browsers.FirstInstalledProperties` | src/af/cmd/browser/structures.rs:326-333 | the first requested kind whose executable exists in the bundle, with that path; none if no kind's does |
| `Browsers.FirstInstalled` | src/af/cmd/browser/structures.rs:326-333 | the first requested kind whose executable exists in a bundle, with that path; `FirstInstalledProperties` states it both ways |
| `Browsers.FirstInstalledAt` | src/af/cmd/browser/structures.rs:326-331 | the first-match rule determines the result |
| `Browsers.BundleCandidate` | src/af/cmd/browser/structures.rs:326-333 | the early-return loop returns the first installed requested kind, as `FirstInstalled` specifies |
| `Browsers.EntryCandidate` | src/af/cmd/browser/structures.rs:318-334 | a directory entry with extension `app` gives its first installed requested kind; any other entry gives nothing |
| `Browsers.DirCandidates` | src/af/cmd/browser/structures.rs:313-336 | the candidates of a directory's entries in listing order, at most one per entry |
| `Browsers.DirCandidatesFromEntries` | src/af/cmd/browser/structures.rs:318-334 | each candidate of a directory is what one of its entries gives |
| `Browsers.DirCandidatesComplete` | src/af/cmd/browser/structures.rs:313-336 | conversely, every entry that gives a candidate contributes it |
| `Browsers.CustomDirCandidates` | src/af/cmd/browser/structures.rs:311-338 | the candidates of each custom directory in turn |
| `Browsers.CustomDirCandidatesFromBundles` | src/af/cmd/browser/structures.rs:311-338 | every custom-directory candidate comes from an entry with extension `app`, and is that bundle's first installed requested kind |
| `Browsers.CustomDirCandidatesComplete` | src/af/cmd/browser/structures.rs:311-338 | conversely, every bundle entry of a custom directory whose requested kind is installed contributes that candidate |
| `Browsers.FindInCustomDirs` | src/af/cmd/browser/structures.rs:311-338 | the nested loops collect the candidates directory by directory and entry by entry |
| `Browsers.FindInCustomDir` | src/af/cmd/browser/structures.rs:313-336 | the loop over one directory's entries returns that directory's candidates, in listing order |
| `Browsers.AllBrowsersResolved` | src/af/cmd/browser/structures.rs:163-204 | every listed browser was resolved from a candidate; its name is its kind's and its version is trimmed |
| `Browsers.Candidates` | src/af/cmd/browser/structures.rs:164-176 | the known-location candidates, then Homebrew's when a prefix is found, then the custom directories' |
| `Browsers.AllBrowsers` | src/af/cmd/browser/structures.rs:163-204 | what `find_browsers` returns: the deduplicated resolution of all candidates in the chosen mode |
| `Browsers.FindBrowsers` | src/af/cmd/browser/structures.rs:163-204 | the listing is the deduplicated resolution of all probes' candidates in the chosen mode; the browsers reported are those newly inserted under their version key |
| `Browsers.RunProbes` | src/af/cmd/browser/structures.rs:164-176 | the candidates of the known locations, then of Homebrew when a prefix is found, then of the extra directories, in that order |
| `Browsers.CollectStep` | src/af/cmd/browser/structures.rs:184-192 | inserting one more browser into both maps, and the report of a new version key, extend the maps built from those before it |
| `Browsers.CollectBrowsers` | src/af/cmd/browser/structures.rs:178-196 | the loop leaves both maps equal to inserting every resolved browser in order; it reports the browsers whose version key was new |
| `Browsers.CollectOne` | src/af/cmd/browser/structures.rs:182-195 | one turn of the loop: a candidate that resolves goes into both maps and is reported when its version key was new; a failing one changes nothing |
| `Browsers.FindBrowser` | src/af/cmd/browser/structures.rs:206-211 | returns what `FirstBrowser` specifies: the first entry of the version-identity listing for the one kind, or the error naming it |
| `Browsers.FirstBrowser` | src/af/cmd/browser/structures.rs:206-211 | the first entry of the version-identity listing for the one kind, or the error naming it; `FirstBrowserProperties` states what that entry is |
| `Browsers.FirstBrowserProperties` | src/af/cmd/browser/structures.rs:206-211 | an error iff no candidate of the one-kind search resolves (a search that includes every kind's executable in `<prefix>/bin`), naming the kind. Otherwise it returns a resolved browser that is the last one found under its key and has no smaller version key |
| `Browsers.FirstBrowserFromHomebrewBin` | src/af/cmd/browser/structures.rs:206-211 | a Firefox in `<prefix>/bin` that resolves makes `find_browser` succeed for any requested kind |
| `Browsers.NotFoundNamesKind` | src/af/cmd/browser/structures.rs:209 | the error message ends with the kind's short name |
| `Paths.Join` | src/af/cmd/browser/structures.rs:267-268 | a relative component is added after one separator; an absolute component replaces the base |
| `Paths.Extension` | src/af/cmd/browser/structures.rs:320 | `Path::extension`: the text after the last dot, none for a leading dot only or `..`; `AppExtension` states when it is `app` |
| `Paths.AppExtension` | src/af/cmd/browser/structures.rs:320 | a name has extension `app` iff it ends in `.app` after at least one character |
| `SortedMap.Insert` | src/af/cmd/browser/structures.rs:185-187 | the map stays sorted; it gains the key; it returns the previous value; the key now maps to the new value; other keys are unchanged; it grows by one iff the key was new |
| `SortedMap.Lookup` | src/af/cmd/browser/structures.rs:185-187 | `BTreeMap::get`: a value exactly when the key is present, and then the value stored under it |
| `SortedMap.InsertAllLookup` | src/af/cmd/browser/structures.rs:178-192 | after the inserts each key maps to the last element with that key |
| `SortedMap.InsertAllValues` | src/af/cmd/browser/structures.rs:198-203 | `values()` has one element per distinct key, in ascending key order, each the last element with its key |
| `SortedMap.Values` | src/af/cmd/browser/structures.rs:203 | the values of an association list, one per entry, in its order: `BTreeMap::values` here, and the table column `values()` yields in `list` (src/af/ides.rs:20) |
| `SortedMap.NewlyInsertedFirst` | src/af/cmd/browser/structures.rs:185-190 | each element reported as new is the first element with its key |
| `SortedMap.NewlyInsertedKeys` | src/af/cmd/browser/structures.rs:188-189 | every key is reported |
| `SortedMap.NewlyInsertedSize` | src/af/cmd/browser/structures.rs:185-189 | as many reports as entries in the map |
| `SortedMap.PairSameKey` | src/af/cmd/browser/structures.rs:186 | two elements with one key leave only the second |
| `SortedMap.PairDistinctKeys` | src/af/cmd/browser/structures.rs:192 | two elements with different keys are both kept |
| `Strings.Trim` | src/af/cmd/browser/structures.rs:110 | the result is a slice of the input with only white space outside it, and has no white space at either end; a trimmed string is unchanged |
| `Strings.TrimIdempotent` | src/cmd/git/clone_project/mod.rs:307 | trimming twice is trimming once |
| `Strings.StripHeadAfterSpace` | src/af/cmd/browser/structures.rs:117-120 | stripping the name from `<name> <tail>` and trimming gives the tail back |
| `Strings.ToLower` | src/af/cmd/browser/structures.rs:287 | the result has the same length, each character lower-cased, and no ASCII upper-case letter |
| `Strings.LowerNeverContainsUpper` | src/af/cmd/browser/structures.rs:287-290 | a pattern with an upper-case letter never occurs in a lower-cased string |
| `Strings.LessTransitive` | src/af/cmd/browser/structures.rs:178-179 | the key order of the maps is transitive |
| `Strings.LessTotal` | src/af/cmd/browser/structures.rs:203 | distinct keys are ordered one way or the other |
| `RepoUrl.Parse` | src/af/repo.rs:18-31 | an error quotes the URL; a success has user `git`, a colon-free host, a slash-free organisation and a single-line name, none empty |
| `RepoUrl.ParseSound` | src/af/repo.rs:19-29 | an accepted URL is `git@<host>:<org>/<name>.git`, built from exactly the parts returned |
| `RepoUrl.ShortFormat` | src/af/repo.rs:33-35 | `host/org/name`; `ShortFormatOfParsed` states its relation to the URL |
| `RepoUrl.ParseComplete` | src/af/repo.rs:19-29 | every URL of the pattern parses back to its own parts |
| `RepoUrl.ParseAcceptsPattern` | src/af/repo.rs:19-23 | accepted iff the URL matches the pattern |
| `RepoUrl.ShortFormatOfParsed` | src/af/repo.rs:33-35 | the short form is the URL without `git@` and `.git`, with the colon after the host made a slash |
| `RepoUrl.ShortFormatOfAssembled` | src/af/repo.rs:33-35 | for any parts, the URL built from them is the short form with `git@` and `.git` around it and the first slash made a colon |
| `RepoUrl.ParseRejectsHttps` | src/af/repo.rs:21-23 | an HTTPS URL is refused with `Invalid repository URL: <url>` |
| `Ides.Get` | src/af/ides.rs:15-17 | a result is an entry of the table; no result iff the language is not a key |
| `Ides.GetCases` | src/ides.rs:4-15 | both tables answer c and c++ with clion, go with goland, javascript with webstorm, ruby with rubymine, rust with rustrover, and nothing else |
| `Ides.List` | src/af/ides.rs:19-23 | the table's IDEs collected into an ordered set and read back; `ListProperties` states what it holds |
| `Ides.ListProperties` | src/af/ides.rs:19-23 | `list` is strictly ascending and holds exactly the IDEs the table names |
| `Ides.IncreasingUnique` | src/af/ides.rs:21-22 | an ordered set has one ascending enumeration |
| `Ides.ListIs` | src/ides.rs:17-21 | `list` is the one ascending sequence of the table's IDEs |
| `Ides.ListIsAllIdes` | src/af/ides.rs:25-28 | `list` of either table is `[clion, goland, rubymine, rustrover, webstorm]` |
| `Ides.GetIsListed` | src/ides.rs:13-21 | every IDE `get` returns is offered by `list` |
| `CloneProject.AcceptsSound` | src/cmd/git/clone_project/mod.rs:308-310 | an accepted URL has the shape `git@<host>:<org>/<repo>.git` with non-empty single-line parts |
| `CloneProject.Accepts` | src/cmd/git/clone_project/mod.rs:308-310 | the pattern `^git@(.+):(.+)/(.+)\.git$` as a decision; `AcceptsSound` and `AcceptsComplete` state it matches exactly the shape |
| `CloneProject.AcceptsComplete` | src/cmd/git/clone_project/mod.rs:308-310 | every URL of that shape is accepted |
| `CloneProject.ParseRepository` | src/cmd/git/clone_project/mod.rs:306-318 | success returns the trimmed URL; failure is the unsupported-URL error |
| `CloneProject.ParseRepositoryAcceptsShape` | src/cmd/git/clone_project/mod.rs:306-311 | accepted iff the trimmed URL has the shape |
| `CloneProject.ParseRepositoryIdempotent` | src/cmd/git/clone_project/mod.rs:307-311 | a returned URL passes again, unchanged |
| `CloneProject.ValidateRepository` | src/cmd/git/clone_project/mod.rs:320-322 | valid iff `parse_repository` accepts; the same error otherwise |
| `CloneProject.StrictImpliesLoose` | src/cmd/git/clone_project/mod.rs:308-310 | a trimmed URL that the pattern of `Repo::parse` (src/af/repo.rs:19) accepts, with single-line host and organisation, passes `parse_repository` unchanged |
| `CloneProject.LooseAcceptsWhatStrictRefuses` | src/cmd/git/clone_project/mod.rs:308-310 | for every colon-free host and single-line parts, a URL whose organisation starts with a slash (such as `git@h:/o/r.git`) passes `parse_repository` unchanged yet the pattern of `Repo::parse` (src/af/repo.rs:19) refuses it |

## Left out

- **Outside inputs.**
  - Processes, the file system and globbing are not modelled as code. Their outcomes are inputs in `Env`:
    - which paths exist and which are directories or files;
    - `read_dir` listings, where a missing listing stands for a failed `read_dir`;
    - the first match of each glob pattern;
    - the outcome of each `--version` run;
    - the `brew --prefix` run.
  - Listing order is whatever the input gives, as the OS decides it.
- **Concurrency.** The `rayon` parallel iterators (`par_iter`) are modelled as sequential. Their `collect` keeps input order, so the results are the same.
- **Logging.** `trace!` and `debug!` output is left out. The one exception is the set of browsers that the "Found browser" debug line reports; `Browsers.FindBrowsers` returns those.
- **Text handling.**
  - `Strings.ToLower`: lower-cases ASCII letters only. Rust's `to_lowercase` is full Unicode. Entry names with non-ASCII upper-case letters are not modelled.
  - Invalid UTF-8 is not modelled. `from_utf8_lossy` and `to_string_lossy` are taken to have already produced the `stdout` and entry-name strings. The `utf8` flag only gates `detect_homebrew_prefix`.
- **Paths.**
  - Paths are strings.
  - `Paths.Join`: models only what `Path::join` does here, on relative or absolute components. Normalisation (`.`, `..`, repeated separators) is not modelled.
  - The glob pattern is a string key of the `Env`; glob syntax is not interpreted.
- **Rendering.** Console styling (`console::style`) of the unsupported-URL message is left out. The message is the plain text.
- **Other parts of the program**, not part of this model:
  - `Repo::get_languages` and `Repo::find_ide` (GitHub API calls);
  - the `git clone-project` workflow (cloning, remotes, progress bars, opening an IDE);
  - the CLI argument parsing, the Alfred workflow, the `xtasks` generators, `dot.rs`, the shortcuts module and `utils.rs`.
- **The call site after `parse_repository`.** `git clone-project` then calls the `Repo::parse` of `src/repo.rs` (src/cmd/git/clone_project/mod.rs:90). That file is not part of this model. `CloneProject.StrictImpliesLoose` and `CloneProject.LooseAcceptsWhatStrictRefuses` compare with the pattern of `src/af/repo.rs`. They describe that call site only if `src/repo.rs` uses the same pattern.
- **Unused behaviour.**
  - `Kind`'s `Display` is modelled only as `ShortName`, in `find_browser`'s error message.
  - `Browser::path()` is an accessor and is not modelled.
