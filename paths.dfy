/** POSIX path handling as Python's `posixpath` does it: `basename`, `dirname`,
    `splitext`, `join` and the joining half of `abspath`. */
module Paths {
  import opened Strings

  predicate NoSlash(s: string) {
    forall j | 0 <= j < |s| :: s[j] != '/'
  }

  /** `os.path.basename(p)`: the text after the last `/`. */
  function Basename(p: string): (r: string)
    ensures NoSlash(r)
    ensures |r| <= |p| && p[|p| - |r|..] == r
    ensures |r| < |p| ==> p[|p| - |r| - 1] == '/'
  {
    p[RFind(p, '/') + 1..]
  }

  /** `head.rstrip('/')` */
  function TrimSlashes(s: string): (r: string)
    ensures |r| <= |s| && r == s[..|r|]
    ensures r == [] || r[|r| - 1] != '/'
    ensures forall j | |r| <= j < |s| :: s[j] == '/'
  {
    if s != [] && s[|s| - 1] == '/' then TrimSlashes(s[..|s| - 1]) else s
  }

  /** `os.path.dirname(p)`: everything up to the last `/`, with trailing slashes removed
      unless nothing but slashes is left. */
  function Dirname(p: string): string {
    var head := p[..RFind(p, '/') + 1];
    if exists j | 0 <= j < |head| :: head[j] != '/' then TrimSlashes(head) else head
  }

  /** The last dot of `p` comes after its last `/`, with a character other than a dot
      between the two. */
  predicate HasExtension(p: string) {
    var sep := RFind(p, '/');
    var dot := RFind(p, '.');
    dot > sep && exists k | sep < k < dot :: p[k] != '.'
  }

  /** `os.path.splitext(p)`: the extension starts at the last dot of the last path
      component, provided that component has a character other than a dot before it. */
  function Splitext(p: string): (r: (string, string))
    ensures r.0 + r.1 == p
    ensures r.1 == [] || (r.1[0] == '.' && NoSlash(r.1))
    ensures forall j | 0 < j < |r.1| :: r.1[j] != '.'
    ensures r.1 == [] <==> !HasExtension(p)
  {
    var dot := RFind(p, '.');
    if HasExtension(p) then
      assert p[..dot] + p[dot..] == p;
      (p[..dot], p[dot..])
    else
      (p, "")
  }

  /** `os.path.join(a, b)` for two components. */
  function Join(a: string, b: string): string {
    if StartsWith(b, "/") then b
    else if a == [] || EndsWith(a, "/") then a + b
    else a + "/" + b
  }

  /** The component of `p` that starts at index `i` is `c`. */
  predicate ComponentAt(p: string, i: int, c: string) {
    0 <= i && i + |c| <= |p| && p[i..i + |c|] == c && (i + |c| == |p| || p[i + |c|] == '/')
  }

  /** An absolute path that `normpath` leaves as it is: no trailing slash and no empty,
      `.` or `..` component. */
  predicate IsNormalAbsolute(p: string) {
    |p| > 1 && p[0] == '/' && p[|p| - 1] != '/'
    && forall i | 0 <= i < |p| - 1 && p[i] == '/' ::
         p[i + 1] != '/' && !ComponentAt(p, i + 1, ".") && !ComponentAt(p, i + 1, "..")
  }

  /** `os.path.abspath(p)` without the `normpath` step, for a given working directory. */
  function Abspath(p: string, cwd: string): string {
    if StartsWith(p, "/") then p else Join(cwd, p)
  }

  /** Joining a relative name onto a folder without a trailing slash inserts one slash. */
  lemma JoinWithSlash(folder: string, name: string)
    requires folder != [] && folder[|folder| - 1] != '/'
    requires name == [] || name[0] != '/'
    ensures Join(folder, name) == folder + "/" + name
  {
    assert !StartsWith(name, "/") by {
      if name != [] { assert name[..1][0] == name[0]; }
    }
    assert !EndsWith(folder, "/") by { assert folder[|folder| - 1..][0] != '/'; }
  }

  /** A file name joined onto a folder is what `basename` gives back. */
  lemma BasenameOfJoin(folder: string, name: string)
    requires name != [] && NoSlash(name)
    ensures Basename(Join(folder, name)) == name
  {
    var p := Join(folder, name);
    assert name[..1] != "/" by { assert name[..1][0] == name[0] != '/'; }
    var k := |p| - |name|;
    assert p[k..] == name;
    forall j | k <= j < |p| ensures p[j] != '/' {
      assert p[j] == name[j - k];
    }
    if folder == [] {
      assert p == name;
      RFindAbsent(p, '/');
    } else {
      assert p[k - 1] == '/';
      RFindIsLast(p, '/', k - 1);
    }
  }

  /** Splitting a folder-qualified file path and joining the parts back gives the path again. */
  lemma DirnameJoin(folder: string, name: string)
    requires folder != [] && folder[|folder| - 1] != '/'
    requires name != [] && NoSlash(name)
    ensures Dirname(Join(folder, name)) == folder
    ensures Join(Dirname(Join(folder, name)), Basename(Join(folder, name))) == Join(folder, name)
  {
    var p := Join(folder, name);
    JoinWithSlash(folder, name);
    forall j | |folder| < j < |p| ensures p[j] != '/' {
      assert p[j] == name[j - |folder| - 1];
    }
    RFindIsLast(p, '/', |folder|);
    var head := p[..|folder| + 1];
    assert head == folder + "/";
    assert head[|folder| - 1] != '/';
    assert TrimSlashes(head) == TrimSlashes(folder);
    BasenameOfJoin(folder, name);
  }

  /** Appending text that does not start with `/` to the second component appends it to the result. */
  lemma JoinAppend(a: string, b: string, x: string)
    requires b != [] || !StartsWith(x, "/")
    ensures Join(a, b + x) == Join(a, b) + x
  {
    if b != [] {
      assert (b + x)[..1] == b[..1];
      assert StartsWith(b + x, "/") == StartsWith(b, "/");
    } else {
      assert b + x == x;
      assert !StartsWith(b, "/");
    }
    if !StartsWith(b + x, "/") {
      if a == [] || EndsWith(a, "/") {
        assert a + (b + x) == a + b + x;
      } else {
        assert a + "/" + (b + x) == a + "/" + b + x;
      }
    }
  }

  /** A stem without dots or slashes followed by a one-dot extension splits into those two. */
  lemma SplitextOfName(stem: string, ext: string)
    requires stem != [] && NoSlash(stem) && forall j | 0 <= j < |stem| :: stem[j] != '.'
    requires ext != [] && ext[0] == '.' && NoSlash(ext)
    requires forall j | 0 < j < |ext| :: ext[j] != '.'
    ensures Splitext(stem + ext) == (stem, ext)
  {
    var p := stem + ext;
    forall j | 0 <= j < |p| ensures p[j] != '/' {
      if j < |stem| { assert p[j] == stem[j]; } else { assert p[j] == ext[j - |stem|]; }
    }
    RFindAbsent(p, '/');
    forall j | |stem| < j < |p| ensures p[j] != '.' {
      assert p[j] == ext[j - |stem|];
    }
    RFindIsLast(p, '.', |stem|);
    assert p[0] == stem[0] != '.';
    assert p[..|stem|] == stem && p[|stem|..] == ext;
  }

  /** Lower-casing a path does not move its `/` or `.` characters. */
  lemma RFindLower(p: string, c: char)
    requires !('A' <= c <= 'Z') && !('a' <= c <= 'z')
    ensures RFind(Lower(p), c) == RFind(p, c)
  {
    var q := Lower(p);
    var r := RFind(p, c);
    forall j | r < j < |p| ensures q[j] != c {
      assert q[j] == LowerChar(p[j]);
    }
    if r >= 0 {
      RFindIsLast(q, c, r);
    } else {
      RFindAbsent(q, c);
    }
  }

  /** Lower-casing commutes with slicing. */
  lemma LowerSlices(p: string, i: int)
    requires 0 <= i <= |p|
    ensures Lower(p)[..i] == Lower(p[..i]) && Lower(p)[i..] == Lower(p[i..])
  {
  }

  /** Lower-casing keeps which characters are dots. */
  lemma LowerKeepsDots(p: string, lo: int, hi: int)
    ensures (exists k | lo < k < hi && 0 <= k < |p| :: Lower(p)[k] != '.')
        <==> (exists k | lo < k < hi && 0 <= k < |p| :: p[k] != '.')
  {
    var q := Lower(p);
    forall k | lo < k < hi && 0 <= k < |p| ensures (q[k] != '.') == (p[k] != '.') {
      assert q[k] == LowerChar(p[k]);
    }
  }

  /** Lower-casing keeps whether a path has an extension. */
  lemma HasExtensionLower(p: string)
    ensures HasExtension(Lower(p)) == HasExtension(p)
  {
    RFindLower(p, '/');
    RFindLower(p, '.');
    LowerKeepsDots(p, RFind(p, '/'), RFind(p, '.'));
  }

  /** Lower-casing commutes with `splitext`. */
  lemma SplitextLower(p: string)
    ensures Splitext(Lower(p)) == (Lower(Splitext(p).0), Lower(Splitext(p).1))
  {
    HasExtensionLower(p);
    RFindLower(p, '.');
    if HasExtension(p) {
      LowerSlices(p, RFind(p, '.'));
    } else {
      assert Lower("") == "";
    }
  }
}
