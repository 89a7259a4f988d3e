/** A repository reference taken apart from its SSH clone URL
    (`git@<host>:<org>/<name>.git`), and its short display form. */
module RepoUrl {
  import opened Wrappers
  import opened Strings
  import Consts

  /** `Repo`: the parts of a clone URL. The user name is always `git`. */
  datatype Repo = Repo(username: string, host: string, org: string, name: string)

  datatype RepoError = InvalidRepositoryUrl(url: string)

  function Message(e: RepoError): string {
    "Invalid repository URL: " + e.url
  }

  /** What the pattern `^git@([^:]+):([^/]+)/(.+?)\.git$` requires of the
      parts: a host with no colon, an organisation with no slash, a name with
      no line break (the pattern's `.`), none of them empty. */
  predicate ValidParts(host: string, org: string, name: string) {
    && host != [] && ':' !in host
    && org != [] && '/' !in org
    && name != [] && '\n' !in name
  }

  /** The URL the pattern describes. */
  function Assemble(host: string, org: string, name: string): string {
    "git@" + host + ":" + org + "/" + name + ".git"
  }

  /** `Repo::parse`. The host runs from after `git@` to the first colon, the
      organisation from there to the next slash, and the name is what is left
      before the final `.git`: a colon-free host and a slash-free organisation
      leave the pattern no other split. */
  function Parse(url: string): (r: Result<Repo, RepoError>)
    ensures r.Err? ==> r.error == InvalidRepositoryUrl(url)
    ensures r.Ok? ==> r.value.username == Consts.GIT && ValidParts(r.value.host, r.value.org, r.value.name)
  {
    if !StartsWith(url, "git@") then Err(InvalidRepositoryUrl(url))
    else match IndexOf(url, ':', 4)
      case None => Err(InvalidRepositoryUrl(url))
      case Some(i) =>
        if i == 4 then Err(InvalidRepositoryUrl(url))
        else match IndexOf(url, '/', i + 1)
          case None => Err(InvalidRepositoryUrl(url))
          case Some(j) =>
            var rest := url[j + 1..];
            if j == i + 1 || |rest| < 5 || !EndsWith(rest, ".git") then Err(InvalidRepositoryUrl(url))
            else
              var name := rest[..|rest| - 4];
              if '\n' in name then Err(InvalidRepositoryUrl(url))
              else Ok(Repo(Consts.GIT, url[4..i], url[i + 1..j], name))
  }

  /** `Repo::short_format`: `host/org/name`. */
  function ShortFormat(r: Repo): string {
    r.host + "/" + r.org + "/" + r.name
  }

  /** Whatever `parse` accepts is a URL of the pattern, and it returns exactly
      the parts the URL was built from. */
  lemma ParseSound(url: string)
    requires Parse(url).Ok?
    ensures var r := Parse(url).value;
      url == Assemble(r.host, r.org, r.name)
  {
    var i := IndexOf(url, ':', 4).value;
    var j := IndexOf(url, '/', i + 1).value;
    var r := Parse(url).value;
    assert r.host == url[4..i] && r.org == url[i + 1..j];
    assert r.name == url[j + 1..|url| - 4];
    Reassemble(url, i, j);
  }

  /** A URL cut at its `git@`, a colon, a slash and its `.git` is the
      assembly of the pieces between. */
  lemma Reassemble(url: string, i: nat, j: nat)
    requires 4 <= i < j && j + 5 <= |url| && url[i] == ':' && url[j] == '/'
    requires StartsWith(url, "git@") && EndsWith(url[j + 1..], ".git")
    ensures url == Assemble(url[4..i], url[i + 1..j], url[j + 1..|url| - 4])
  {
    var rest := url[j + 1..];
    assert rest == url[j + 1..|url| - 4] + ".git";
    assert url == url[..4] + url[4..i] + [url[i]] + url[i + 1..j] + [url[j]] + rest;
  }

  /** Every URL of the pattern is accepted and yields its own parts. */
  lemma ParseComplete(host: string, org: string, name: string)
    requires ValidParts(host, org, name)
    ensures Parse(Assemble(host, org, name)) == Ok(Repo(Consts.GIT, host, org, name))
  {
    var url := Assemble(host, org, name);
    var i, j := 4 + |host|, 5 + |host| + |org|;
    AssembleSlices(host, org, name);
    AssembleColon(host, org, name);
    AssembleSlash(host, org, name);
    var rest := url[j + 1..];
    assert rest == name + ".git";
    assert EndsWith(rest, ".git") && rest[..|rest| - 4] == name;
  }

  lemma AssembleSlices(host: string, org: string, name: string)
    ensures var url, i, j := Assemble(host, org, name), 4 + |host|, 5 + |host| + |org|;
      && StartsWith(url, "git@") && url[i] == ':' && url[j] == '/'
      && url[4..i] == host && url[i + 1..j] == org && url[j + 1..] == name + ".git"
  {
  }

  lemma AssembleColon(host: string, org: string, name: string)
    requires ':' !in host
    ensures var r := IndexOf(Assemble(host, org, name), ':', 4);
      r.Some? && r.value == 4 + |host|
  {
    var url := Assemble(host, org, name);
    AssembleSlices(host, org, name);
    IndexOfAfterStretch(url, ':', 4, 4 + |host|);
  }

  lemma AssembleSlash(host: string, org: string, name: string)
    requires '/' !in org
    ensures var r := IndexOf(Assemble(host, org, name), '/', 5 + |host|);
      r.Some? && r.value == 5 + |host| + |org|
  {
    var head := "git@" + host + ":" + org;
    assert '/' !in head[5 + |host|..] by {
      assert head[5 + |host|..] == org;
    }
    IndexOfBeforeSeparator(head, "/", name, ".git", 5 + |host|);
  }

  /** `parse` accepts exactly the URLs of the pattern. */
  lemma ParseAcceptsPattern(url: string)
    ensures Parse(url).Ok? <==>
      exists host, org, name :: ValidParts(host, org, name) && url == Assemble(host, org, name)
  {
    if Parse(url).Ok? {
      ParseSound(url);
      var r := Parse(url).value;
      assert ValidParts(r.host, r.org, r.name) && url == Assemble(r.host, r.org, r.name);
    }
    if exists host, org, name :: ValidParts(host, org, name) && url == Assemble(host, org, name) {
      var host, org, name :| ValidParts(host, org, name) && url == Assemble(host, org, name);
      ParseComplete(host, org, name);
    }
  }

  /** The short form is the URL without its `git@` and `.git` ends and with
      the colon after the host made a slash. */
  lemma ShortFormatOfParsed(url: string)
    requires Parse(url).Ok?
    ensures var r := Parse(url).value; var s := ShortFormat(r);
      && s[|r.host|] == '/'
      && url == "git@" + s[..|r.host|] + ":" + s[|r.host| + 1..] + ".git"
  {
    ParseSound(url);
    ShortFormatOfAssembled(Parse(url).value);
  }

  lemma ShortFormatOfAssembled(r: Repo)
    ensures var s := ShortFormat(r);
      && |r.host| < |s| && s[|r.host|] == '/'
      && Assemble(r.host, r.org, r.name) == "git@" + s[..|r.host|] + ":" + s[|r.host| + 1..] + ".git"
  {
    var s := ShortFormat(r);
    assert s == r.host + "/" + (r.org + "/" + r.name);
    assert s[..|r.host|] == r.host && s[|r.host| + 1..] == r.org + "/" + r.name;
    assert Assemble(r.host, r.org, r.name) == "git@" + r.host + ":" + (r.org + "/" + r.name) + ".git";
  }

  /** An HTTPS URL is refused, and the error quotes it. */
  lemma ParseRejectsHttps(url: string)
    requires StartsWith(url, "https://")
    ensures Parse(url).Err?
    ensures Message(Parse(url).error) == "Invalid repository URL: " + url
  {
    assert url[..4][0] == 'h';
  }
}
