/** POSIX path helpers with the semantics of Python's `os.path` (`posixpath`). */
module Paths {
  import opened Text

  /** `s.rfind(c)`: the last index holding `c`, or -1. */
  function LastIndexOf(s: string, c: char): (i: int)
    ensures -1 <= i < |s|
    ensures i >= 0 ==> s[i] == c
    ensures forall k :: i < k < |s| ==> s[k] != c
  {
    if s == [] then -1
    else if s[|s| - 1] == c then |s| - 1
    else LastIndexOf(s[..|s| - 1], c)
  }

  /** `os.path.basename(p)`: everything after the last `/`. */
  function Basename(p: string): (b: string)
    ensures '/' !in b
    ensures EndsWith(p, b)
    ensures b == p || p[|p| - |b| - 1] == '/'
  {
    p[LastIndexOf(p, '/') + 1..]
  }

  predicate AllDots(s: string) {
    forall k :: 0 <= k < |s| ==> s[k] == '.'
  }

  /** The extension `os.path.splitext(p)[1]`: from the last dot of the basename on,
      provided some character before that dot (within the basename) is not a dot;
      otherwise empty. So `".pdf"` and `"..pdf"` have no extension. */
  function SplitExt(p: string): (ext: string)
    ensures ext == "" || (ext[0] == '.' && '.' !in ext[1..] && EndsWith(Basename(p), ext))
    ensures '/' !in ext
    ensures ext == "" <==> !exists i, j :: 0 <= i < j < |Basename(p)| && Basename(p)[i] != '.' && Basename(p)[j] == '.'
  {
    var b := Basename(p);
    var d := LastIndexOf(b, '.');
    ExtensionFound(b, d);
    if d >= 0 && !AllDots(b[..d]) then
      ExtensionAt(b, d);
      b[d..]
    else ""
  }

  /** The test `splitext` makes, read positionally: the last dot has a non-dot before it exactly
      when some dot of the name follows some character that is not a dot. */
  lemma ExtensionFound(b: string, d: int)
    requires d == LastIndexOf(b, '.')
    ensures (d >= 0 && !AllDots(b[..d])) <==> exists i, j :: 0 <= i < j < |b| && b[i] != '.' && b[j] == '.'
  {
    if d >= 0 && !AllDots(b[..d]) {
      var k :| 0 <= k < d && b[..d][k] != '.';
      assert b[k] != '.' && b[d] == '.';
    }
    forall i, j | 0 <= i < j < |b| && b[i] != '.' && b[j] == '.'
      ensures 0 <= j <= d && b[..d][i] != '.'
    {
    }
  }

  /** The slice of `b` from its last dot on is a dot followed by no dot, at the end of `b`. */
  lemma ExtensionAt(b: string, d: int)
    requires 0 <= d < |b| && b[d] == '.'
    requires forall k :: d < k < |b| ==> b[k] != '.'
    ensures var e := b[d..]; e[0] == '.' && '.' !in e[1..] && EndsWith(b, e)
    ensures '/' !in b ==> '/' !in b[d..]
  {
    var e := b[d..];
    var tail := e[1..];
    assert forall k :: 0 <= k < |tail| ==> tail[k] == b[d + 1 + k];
    assert b[|b| - |e|..] == e;
    if '/' !in b {
      assert forall k :: 0 <= k < |e| ==> e[k] == b[d + k];
    }
  }

  /** `os.path.join(a, b)` for two components. */
  function PathJoin(a: string, b: string): string {
    if StartsWith(b, "/") then b
    else if a == "" || EndsWith(a, "/") then a + b
    else a + "/" + b
  }

  /** The basename of a path that ends in a slash-free name right after a slash (or is just
      that name). */
  lemma BasenameAfterSlash(pre: string, name: string)
    requires pre == [] || pre[|pre| - 1] == '/'
    requires '/' !in name
    ensures Basename(pre + name) == name
  {
    var p := pre + name;
    var i := LastIndexOf(p, '/');
    assert forall k :: |pre| <= k < |p| ==> p[k] == name[k - |pre|];
    if pre != [] {
      assert p[|pre| - 1] == '/';
    }
    assert i == |pre| - 1;
    assert p[i + 1..] == name;
  }

  lemma BasenameOfJoin(dir: string, name: string)
    requires '/' !in name
    ensures Basename(PathJoin(dir, name)) == name
  {
    assert !StartsWith(name, "/") by {
      if |name| >= 1 {
        assert name[..1][0] == name[0] != '/';
      }
    }
    if dir == "" || EndsWith(dir, "/") {
      if dir != "" {
        assert dir[|dir| - 1] == "/"[0];
      }
      BasenameAfterSlash(dir, name);
    } else {
      BasenameAfterSlash(dir + "/", name);
      assert dir + "/" + name == (dir + "/") + name;
    }
  }

  /** The URL test of the loader and extractor: a `http://` or `https://` prefix. */
  predicate IsUrl(p: string) {
    StartsWith(p, "http://") || StartsWith(p, "https://")
  }
}
