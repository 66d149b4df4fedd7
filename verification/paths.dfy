/** POSIX path manipulation as Python's `posixpath` does it:
    `basename`, two-component `join`, and `splitext`. */
module Paths {
  import opened Text

  /** `os.path.basename(p)`: the final component, the text after the last '/'. */
  function Basename(p: string): (b: string)
    ensures '/' !in b
    ensures |b| <= |p| && b == p[|p| - |b|..]
    ensures |b| < |p| ==> p[|p| - |b| - 1] == '/'
  {
    p[LastIndex(p, '/') + 1..]
  }

  /** A name without '/' is its own final component. */
  lemma BasenameOfName(p: string)
    requires '/' !in p
    ensures Basename(p) == p
  {
  }

  /** `os.path.join(a, b)`: an absolute `b` replaces `a`; otherwise a '/' is
      inserted unless `a` is empty or already ends with one. */
  function JoinPath(a: string, b: string): (r: string)
    ensures EndsWith(r, b)
    ensures StartsWith(b, "/") ==> r == b
    ensures !StartsWith(b, "/") ==> StartsWith(r, a) && |r| <= |a| + 1 + |b|
    ensures !StartsWith(b, "/") && a != [] ==> |r| > |b| && r[|r| - |b| - 1] == '/'
    ensures !StartsWith(b, "/") ==> |r| == |a| + |b| + if a == [] || EndsWith(a, "/") then 0 else 1
  {
    if StartsWith(b, "/") then b
    else if a == [] || EndsWith(a, "/") then a + b
    else a + "/" + b
  }

  /** A name holding no '/' is a relative path. */
  lemma NameIsRelative(name: string)
    requires '/' !in name
    ensures !StartsWith(name, "/")
  {
    if |name| > 0 {
      assert name[..1][0] == name[0];
    }
  }

  /** Joining a directory with a plain name puts that name last. */
  lemma {:induction false} BasenameOfJoin(dir: string, name: string)
    requires '/' !in name
    ensures Basename(JoinPath(dir, name)) == name
  {
    var r := JoinPath(dir, name);
    if |name| > 0 {
      assert name[..1][0] != '/';
    }
    if dir == [] {
      assert r == name;
    } else {
      var x := if EndsWith(dir, "/") then dir else dir + "/";
      assert r == x + name;
      assert x[|x| - 1] == '/';
      LastIndexAppendLeft(x, name, '/');
      LastIndexUnique(x, '/', |x| - 1);
      assert r[|x|..] == name;
    }
  }

  /** In one directory, distinct relative names give distinct paths. */
  lemma JoinPathInjective(dir: string, n1: string, n2: string)
    requires !StartsWith(n1, "/") && !StartsWith(n2, "/")
    requires JoinPath(dir, n1) == JoinPath(dir, n2)
    ensures n1 == n2
  {
    var x := if dir == [] || EndsWith(dir, "/") then dir else dir + "/";
    assert JoinPath(dir, n1) == x + n1 && JoinPath(dir, n2) == x + n2;
    assert n1 == (x + n1)[|x|..];
  }

  /** Every character of `s` is a '.'. */
  predicate AllDots(s: string) {
    forall i :: 0 <= i < |s| ==> s[i] == '.'
  }

  /** The extension `os.path.splitext` finds in a final component `b`: from
      its last '.', provided something other than a '.' comes before that
      dot (leading dots do not start an extension); otherwise none. */
  function ComponentExt(b: string): string {
    var d := LastIndex(b, '.');
    if d >= 0 && !AllDots(b[..d]) then b[d..] else []
  }

  /** `os.path.splitext(p)`: (root, ext) with `root + ext == p`, where `ext`
      is the extension of the final component of `p`, empty if it has none.
      Only the final component is searched, so a '.' in a directory name
      never starts an extension. */
  function Splitext(p: string): (r: (string, string))
    ensures r.0 + r.1 == p
    ensures r.1 == [] || (r.1[0] == '.' && '.' !in r.1[1..] && '/' !in r.1)
    ensures var b := Basename(p);
      r.1 != [] <==> exists i, j :: 0 <= j < i < |b| && b[j] != '.' && b[i] == '.'
    ensures r.1 != [] ==> r.1 == Basename(p)[LastIndex(Basename(p), '.')..]
  {
    var b := Basename(p);
    var e := ComponentExt(b);
    ComponentExtShape(b);
    ComponentExtFound(b);
    SuffixOfBasename(p, e);
    (p[..|p| - |e|], e)
  }

  /** A name whose only '.' is its first character has no extension. */
  lemma LeadingDotOnly(p: string)
    requires '/' !in p && |p| > 0 && p[0] == '.' && '.' !in p[1..]
    ensures Splitext(p) == (p, "")
  {
    BasenameOfName(p);
    LastIndexUnique(p, '.', 0);
    assert AllDots(p[..0]);
    assert ComponentExt(Basename(p)) == [];
    assert p[..|p| - 0] == p;
  }

  /** Leading dots start no extension: `.bashrc` has none. */
  lemma LeadingDotIsNoExtension()
    ensures Splitext(".bashrc") == (".bashrc", "")
  {
    assert ".bashrc"[1..] == "bashrc";
    LeadingDotOnly(".bashrc");
  }

  /** Only the last '.' starts the extension: `a.tar.gz` splits as
      `a.tar` and `.gz`. */
  lemma LastDotStartsExtension()
    ensures Splitext("a.tar.gz") == ("a.tar", ".gz")
  {
    var p := "a.tar.gz";
    BasenameOfName(p);
    LastIndexUnique(p, '.', 5);
    assert p[..5][0] == 'a';
    assert ComponentExt(p) == p[5..] == ".gz";
    assert p[..5] == "a.tar";
  }

  /** A '.' in a directory name starts no extension: `d.x/img` has none. */
  lemma DirectoryDotIsNoExtension()
    ensures Splitext("d.x/img") == ("d.x/img", "")
  {
    var p := "d.x/img";
    LastIndexUnique(p, '/', 3);
    assert Basename(p) == p[4..] == "img";
    assert '.' !in "img";
    assert ComponentExt(Basename(p)) == [];
    assert p[..|p| - 0] == p;
  }

  /** A suffix of the final component is a suffix of the whole path. */
  lemma SuffixOfBasename(p: string, e: string)
    requires EndsWith(Basename(p), e)
    ensures |e| <= |p| && p[..|p| - |e|] + e == p
  {
    assert |e| <= |Basename(p)| <= |p|;
    assert p[..|p| - |e|] + p[|p| - |e|..] == p;
  }

  /** A final component has an extension exactly when some '.' in it comes
      after a character other than '.'; the extension then runs from the last
      '.' to the end. */
  lemma ComponentExtFound(b: string)
    ensures ComponentExt(b) != [] <==> exists i, j :: 0 <= j < i < |b| && b[j] != '.' && b[i] == '.'
    ensures ComponentExt(b) != [] ==> ComponentExt(b) == b[LastIndex(b, '.')..]
  {
    var d := LastIndex(b, '.');
    if d >= 0 && !AllDots(b[..d]) {
      var j :| 0 <= j < d && b[..d][j] != '.';
      assert b[j] != '.' && b[d] == '.';
    } else if d >= 0 {
      assert forall j :: 0 <= j < d ==> b[j] == b[..d][j];
    }
  }

  /** The shape of an extension: empty, or a '.' followed by neither '.' nor '/'. */
  lemma ComponentExtShape(b: string)
    requires '/' !in b
    ensures var e := ComponentExt(b);
      e == [] || (e[0] == '.' && '.' !in e[1..] && '/' !in e && EndsWith(b, e))
  {
    var d := LastIndex(b, '.');
    if d >= 0 && !AllDots(b[..d]) {
      assert b[d..][1..] == b[d + 1..];
    }
  }
}
