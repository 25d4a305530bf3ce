/** The parts of Python's `posixpath` that the core relies on: `splitext`,
    `join` (two components) and `basename`. */
module Paths {
  import opened Text

  /** `s.rfind(c)`: the last index holding `c`, or -1. */
  function LastIndexOf(s: string, c: char): (r: int)
    ensures -1 <= r < |s|
    ensures r >= 0 ==> s[r] == c
    ensures forall k :: r < k < |s| ==> s[k] != c
  {
    if |s| == 0 then -1
    else if s[|s| - 1] == c then |s| - 1
    else LastIndexOf(s[..|s| - 1], c)
  }

  /** What `splitext` can return as an extension: empty, or a dot followed by
      characters that are neither dots nor separators. */
  predicate ExtShaped(e: string) {
    e == [] || (e[0] == '.' && forall k :: 1 <= k < |e| ==> e[k] != '.' && e[k] != '/')
  }

  /** `os.path.splitext(p)`: splits at the last dot of the last path component,
      unless everything before that dot in the component is dots. */
  function SplitExt(p: string): (r: (string, string))
    ensures r.0 + r.1 == p
    ensures ExtShaped(r.1)
    ensures r.1 != [] ==> r.0 != [] && r.0[|r.0| - 1] != '/'
  {
    var sep := LastIndexOf(p, '/');
    var dot := LastIndexOf(p, '.');
    if dot > sep && exists k :: sep < k < dot && p[k] != '.' then
      (p[..dot], p[dot..])
    else
      (p, [])
  }

  /** Every dot after index `sep` has only dots between `sep` and itself: the
      last component has no dot that `splitext` would split at. */
  predicate OnlyLeadingDots(p: string, sep: int)
    requires -1 <= sep
  {
    forall k :: sep < k < |p| && p[k] == '.' ==> forall j :: sep < j < k ==> p[j] == '.'
  }

  /** `splitext` finds no extension exactly when every dot of the last
      component is one of its leading dots (`.bashrc`, `..x`, or no dot). */
  lemma SplitExtFindsNoExt(p: string)
    ensures Ext(p) == [] <==> OnlyLeadingDots(p, LastIndexOf(p, '/'))
  {
  }

  function Stem(p: string): string { SplitExt(p).0 }

  function Ext(p: string): string { SplitExt(p).1 }

  /** `os.path.join(a, b)`. */
  function Join(a: string, b: string): string {
    if StartsWith(b, "/") then b
    else if a == [] || a[|a| - 1] == '/' then a + b
    else a + "/" + b
  }

  /** `os.path.basename(p)`: the text after the last separator. */
  function Basename(p: string): (r: string)
    ensures '/' !in r
  {
    var k := LastIndexOf(p, '/');
    p[k + 1..]
  }

  /** A name a file can be given in a flat directory: no separator and not
      starting with a dot (so `splitext` treats its last dot as an extension). */
  predicate PlainName(name: string) {
    |name| > 0 && name[0] != '.' && '/' !in name
  }

  /** Joining a directory with a plain entry name and taking the basename
      gives the entry back. */
  lemma {:induction false} BasenameOfJoin(dir: string, name: string)
    requires '/' !in name
    ensures Basename(Join(dir, name)) == name
  {
    var p := Join(dir, name);
    assert |name| > 0 ==> name[0] != '/';
    assert !StartsWith(name, "/");
    if dir == [] {
      assert p == name;
    } else if dir[|dir| - 1] == '/' {
      assert p == dir + name;
      assert p[|dir| - 1] == '/';
      assert forall k :: |dir| <= k < |p| ==> p[k] == name[k - |dir|];
      assert LastIndexOf(p, '/') == |dir| - 1;
      assert p[|dir|..] == name;
    } else {
      assert p == dir + "/" + name;
      assert p[|dir|] == '/';
      assert forall k :: |dir| < k < |p| ==> p[k] == name[k - |dir| - 1];
      assert LastIndexOf(p, '/') == |dir|;
      assert p[|dir| + 1..] == name;
    }
  }

  /** `splitext` of a plain name followed by an extension-shaped suffix gives
      the two parts back; an empty suffix needs a dot-free name. */
  lemma {:induction false} SplitExtOfNamePlusExt(name: string, e: string)
    requires PlainName(name) && ExtShaped(e)
    requires e == [] ==> '.' !in name
    ensures SplitExt(name + e) == (name, e)
  {
    var p := name + e;
    assert forall k :: 0 <= k < |name| ==> p[k] == name[k];
    assert forall k :: |name| <= k < |p| ==> p[k] == e[k - |name|];
    assert LastIndexOf(p, '/') == -1;
    if e == [] {
      assert p == name;
      assert LastIndexOf(p, '.') == -1;
    } else {
      assert p[|name|] == '.';
      assert forall k :: |name| < k < |p| ==> p[k] != '.';
      assert LastIndexOf(p, '.') == |name|;
      assert p[0] != '.';
      assert p[..|name|] == name && p[|name|..] == e;
    }
  }

  /** A name whose only dot is its first character (a dot-file such as
      `.jpg`) has no extension: `splitext` keeps it whole. */
  lemma DotFileHasNoExt(name: string)
    requires |name| > 0 && name[0] == '.' && '/' !in name && '.' !in name[1..]
    ensures SplitExt(name) == (name, [])
  {
    assert forall k :: 0 < k < |name| ==> name[k] == name[1..][k - 1];
    assert LastIndexOf(name, '/') == -1;
  }
}
