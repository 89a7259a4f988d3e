/** The two pieces of `std::path` the browser search relies on: joining a
    relative component onto a path (`Path::join`) and a file name's extension
    (`Path::extension`). Paths are strings. */
module Paths {
  import opened Wrappers
  import opened Strings

  type Path = string

  /** `Path::join`: an absolute component replaces the base; otherwise a
      separator is inserted unless the base is empty or already ends in one. */
  function Join(base: Path, component: string): (r: Path)
    ensures component != [] && component[0] != '/' && base != [] && base[|base| - 1] != '/'
            ==> r == base + "/" + component
    ensures component != [] && component[0] == '/' ==> r == component
  {
    if component != [] && component[0] == '/' then component
    else if base == [] then component
    else if base[|base| - 1] == '/' then base + component
    else base + "/" + component
  }

  /** Joining relative components one by one puts one separator between
      each. */
  lemma JoinChain(root: Path, a: string, b: string, c: string)
    requires root != [] && root[|root| - 1] != '/'
    requires a != [] && a[0] != '/' && a[|a| - 1] != '/'
    requires b != [] && b[0] != '/' && b[|b| - 1] != '/'
    requires c != [] && c[0] != '/'
    ensures Join(Join(Join(root, a), b), c) == root + "/" + a + "/" + b + "/" + c
  {
    var ra := Join(root, a);
    assert ra == root + "/" + a && ra[|ra| - 1] == a[|a| - 1];
    var rab := Join(ra, b);
    assert rab == ra + "/" + b && rab[|rab| - 1] == b[|b| - 1];
  }

  /** `Path::extension` of a file name: the text after its last `.`, unless
      that `.` is the first character or the name is `..`. */
  function Extension(name: string): Option<string> {
    if name == ".." then None
    else
      match LastIndexBefore(name, '.', |name|)
      case None => None
      case Some(i) => if i == 0 then None else Some(name[i + 1..])
  }

  /** A name has extension `app` exactly when it is `.app` preceded by at
      least one character. */
  lemma AppExtension(name: string)
    ensures Extension(name) == Some("app") <==> EndsWith(name, ".app") && |name| > 4
  {
    var n := |name|;
    if EndsWith(name, ".app") && n > 4 {
      assert name[n - 4] == '.' && name[n - 3..] == "app";
      assert name[n - 3] == 'a' && name[n - 2] == 'p' && name[n - 1] == 'p';
      assert LastIndexBefore(name, '.', n) == Some(n - 4);
    }
    if Extension(name) == Some("app") {
      var i := LastIndexBefore(name, '.', n).value;
      assert name[i + 1..] == "app";
      assert name[n - 4..] == [name[i]] + name[i + 1..];
    }
  }
}
