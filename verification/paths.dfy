/**
  Paths and the file system the plugin reads and writes. A path is the
  sequence of its components; the string the source builds with
  os.path.join is the components joined by "/", the POSIX separator. Names are Python 2 byte
  strings: each character of a component stands for one byte of the name
  os.listdir returned. A file system is a finite
  map from the path of each regular file to its bytes; a directory exists
  exactly when some file lies below it.
 */
module Paths {

  newtype byte = x: int | 0 <= x < 256
  type Bytes = seq<byte>
  type Path = seq<string>
  type FileMap = map<Path, Bytes>

  /** p lies strictly below the directory dir. */
  predicate Below(p: Path, dir: Path) {
    |dir| < |p| && p[..|dir|] == dir
  }

  /** A real file system: no regular file is also a directory holding other files. */
  ghost predicate WellFormed(fs: FileMap) {
    forall p, q :: p in fs && q in fs ==> !Below(q, p)
  }

  /** os.path.isdir: some file lies below dir. */
  predicate IsDir(fs: FileMap, dir: Path) {
    exists p :: p in fs && Below(p, dir)
  }

  /** os.listdir: the names of the entries directly inside dir. */
  function Listing(fs: FileMap, dir: Path): (names: set<string>)
    ensures forall p :: p in fs && Below(p, dir) ==> p[|dir|] in names
    ensures forall n :: n in names ==> exists p :: p in fs && Below(p, dir) && p[|dir|] == n
  {
    set p | p in fs && Below(p, dir) :: p[|dir|]
  }

  /** A directory is a path with a non-empty listing, and in a real file system a regular file is never one. */
  lemma IsDirIffListed(fs: FileMap, dir: Path)
    ensures IsDir(fs, dir) <==> Listing(fs, dir) != {}
    ensures WellFormed(fs) && dir in fs ==> !IsDir(fs, dir)
  {
    if IsDir(fs, dir) {
      var p :| p in fs && Below(p, dir);
      assert p[|dir|] in Listing(fs, dir);
    }
  }

  /** Every file and directory strictly below dir; it shrinks on each step of a recursive walk. */
  ghost function Nodes(fs: FileMap, dir: Path): set<Path> {
    set p, k | p in fs && Below(p, dir) && |dir| < k <= |p| :: p[..k]
  }

  /** The components of p joined by "/", as os.path.join builds them on POSIX. */
  function PathString(p: Path): string
    decreases |p|
  {
    if |p| == 0 then ""
    else if |p| == 1 then p[0]
    else PathString(p[..|p| - 1]) + "/" + p[|p| - 1]
  }

  /** Python's `t in s` on strings: t occurs in s as a substring. */
  predicate Contains(s: string, t: string) {
    exists i | 0 <= i <= |s| :: OccursAt(s, t, i)
  }

  predicate OccursAt(s: string, t: string, i: int) {
    0 <= i <= |s| - |t| && s[i..i + |t|] == t
  }

  /** The names deep_iterate_dir refuses, anywhere in the full path. */
  const MetadataMarker := ".DS_Store"
  const ManifestName := "VERSION.json"

  predicate Excluded(p: Path) {
    Contains(PathString(p), MetadataMarker) || Contains(PathString(p), ManifestName)
  }

  /**
    The filter looks at the joined text of the whole path, so it drops a file
    exactly when some component of its path, a directory or the file itself,
    contains either name.
   */
  lemma ExcludedByComponent(p: Path)
    ensures Excluded(p) <==>
      exists k :: 0 <= k < |p| && (Contains(p[k], MetadataMarker) || Contains(p[k], ManifestName))
  {
    if Excluded(p) {
      if Contains(PathString(p), MetadataMarker) {
        ContainsInComponent(p, MetadataMarker);
      } else {
        ContainsInComponent(p, ManifestName);
      }
    }
    if k :| 0 <= k < |p| && (Contains(p[k], MetadataMarker) || Contains(p[k], ManifestName)) {
      ComponentAt(p, k);
      var e := |PathString(p[..k + 1])|;
      if Contains(p[k], MetadataMarker) {
        ContainsFromInside(PathString(p), p[k], MetadataMarker, e - |p[k]|);
      } else {
        ContainsFromInside(PathString(p), p[k], ManifestName, e - |p[k]|);
      }
    }
  }

  /** A substring of a piece of s found at offset o is a substring of s. */
  lemma ContainsFromInside(s: string, t: string, m: string, o: nat)
    requires o + |t| <= |s| && s[o..o + |t|] == t && Contains(t, m)
    ensures Contains(s, m)
  {
    var i :| 0 <= i <= |t| && OccursAt(t, m, i);
    forall j | 0 <= j < |m| ensures s[o + i + j] == m[j] {
      assert s[o..o + |t|][i + j] == s[o + i + j];
      assert t[i..i + |m|][j] == t[i + j];
    }
    assert s[o + i..o + i + |m|] == m;
    assert OccursAt(s, m, o + i);
  }

  /** The text of the first j components is the start of the text of the whole path. */
  lemma {:induction false} PathStringPrefix(p: Path, j: nat)
    requires 0 < j <= |p|
    ensures var s, t := PathString(p), PathString(p[..j]);
      |t| <= |s| && s[..|t|] == t
    decreases |p| - j
  {
    if j == |p| {
      assert p[..j] == p;
    } else {
      PathStringPrefix(p, j + 1);
      var q := p[..j + 1];
      assert q[..|q| - 1] == p[..j];
    }
  }

  /** Component k's text ends where the text of the first k + 1 components ends. */
  lemma ComponentAt(p: Path, k: nat)
    requires k < |p|
    ensures var s, e := PathString(p), |PathString(p[..k + 1])|;
      |p[k]| <= e <= |s| && s[e - |p[k]|..e] == p[k]
  {
    PathStringPrefix(p, k + 1);
    var q := p[..k + 1];
    if k > 0 {
      assert q[..|q| - 1] == p[..k];
    }
    var s, t := PathString(p), PathString(q);
    assert t[|t| - |p[k]|..] == p[k];
    assert s[|t| - |p[k]|..|t|] == t[|t| - |p[k]|..];
  }

  /** A name without a "/" that occurs in the joined text occurs inside one component. */
  lemma {:induction false} ContainsInComponent(p: Path, m: string)
    requires |m| > 0 && forall j :: 0 <= j < |m| ==> m[j] != '/'
    requires Contains(PathString(p), m)
    ensures exists k :: 0 <= k < |p| && Contains(p[k], m)
    decreases |p|
  {
    var s := PathString(p);
    var i :| 0 <= i <= |s| && OccursAt(s, m, i);
    if |p| == 1 {
      assert OccursAt(p[0], m, i);
    } else {
      var front := p[..|p| - 1];
      var fs := PathString(front);
      var last := p[|p| - 1];
      assert s == fs + "/" + last;
      SideOfSlash(fs, last, m, i);
      if i + |m| <= |fs| {
        assert s[i..i + |m|] == fs[i..i + |m|];
        assert OccursAt(fs, m, i);
        ContainsInComponent(front, m);
        var k :| 0 <= k < |front| && Contains(front[k], m);
        assert front[k] == p[k];
      } else {
        assert s[i..i + |m|] == last[i - |fs| - 1..i - |fs| - 1 + |m|];
        assert OccursAt(last, m, i - |fs| - 1);
      }
    }
  }

  /** An occurrence of a name without "/" in a + "/" + b lies wholly in a or wholly in b. */
  lemma SideOfSlash(a: string, b: string, m: string, i: int)
    requires forall j :: 0 <= j < |m| ==> m[j] != '/'
    requires OccursAt(a + "/" + b, m, i)
    ensures i + |m| <= |a| || i > |a|
  {
    var s := a + "/" + b;
    assert s[|a|] == '/';
    assert forall j :: 0 <= j < |m| ==> m[j] == s[i + j];
  }

  /** os.path.relpath(file, root) for a file below root. */
  function RelPath(file: Path, root: Path): (rel: Path)
    requires Below(file, root)
    ensures |rel| > 0 && root + rel == file
  {
    file[|root|..]
  }

  /**
    os.path.splitext(name)[1] == '.lua': the name ends in ".lua" and that dot is
    not one of the leading dots of a hidden name (splitext(".lua") has no extension).
   */
  predicate HasLuaExtension(name: string) {
    |name| > 4 && name[|name| - 4..] == ".lua" && exists i :: 0 <= i < |name| - 4 && name[i] != '.'
  }

  /** The index of the last occurrence of c in s, or -1 when there is none. */
  function LastIndexOf(s: string, c: char): (i: int)
    ensures -1 <= i < |s| && (0 <= i ==> s[i] == c)
    ensures forall k :: i < k < |s| ==> s[k] != c
  {
    if |s| == 0 then -1
    else if s[|s| - 1] == c then |s| - 1
    else LastIndexOf(s[..|s| - 1], c)
  }

  /**
    os.path.splitext(name)[1] for a name without a separator: the text from
    the last dot on, unless every character before that dot is a dot too.
   */
  function Extension(name: string): string {
    var d := LastIndexOf(name, '.');
    if 0 <= d && exists k :: 0 <= k < d && name[k] != '.' then name[d..] else ""
  }

  /** HasLuaExtension is splitext's answer '.lua'. */
  lemma LuaExtensionIsSplitext(name: string)
    ensures HasLuaExtension(name) <==> Extension(name) == ".lua"
  {
    var d := LastIndexOf(name, '.');
    if HasLuaExtension(name) {
      var e := |name| - 4;
      assert name[e..][0] == '.' && name[e..][1] == 'l' && name[e..][2] == 'u' && name[e..][3] == 'a';
      assert d == e;
    }
    if Extension(name) == ".lua" {
      assert name[d..] == ".lua";
    }
  }

  predicate IsLuaFile(p: Path) {
    |p| > 0 && HasLuaExtension(p[|p| - 1])
  }

  /** full_path + 'c': the compiled sibling of a script. */
  function Luac(p: Path): (q: Path)
    requires |p| > 0
    ensures |q| == |p| && q[..|p| - 1] == p[..|p| - 1]
    ensures q[|p| - 1] == p[|p| - 1] + "c"
  {
    p[..|p| - 1] + [p[|p| - 1] + "c"]
  }

  /** A compiled sibling is never itself a script: its name ends in ".luac". */
  lemma LuacIsNotLua(p: Path)
    requires IsLuaFile(p)
    ensures !IsLuaFile(Luac(p)) && Luac(p) != p
  {
    var name := Luac(p)[|p| - 1];
    assert name[|name| - 1] == 'c';
    assert name[|name| - 4..][3] == 'c';
  }

  lemma LuacInjective(p: Path, q: Path)
    requires |p| > 0 && |q| > 0 && Luac(p) == Luac(q)
    ensures p == q
  {
    var a, b := p[|p| - 1], q[|q| - 1];
    assert a + "c" == b + "c";
    assert a == (a + "c")[..|a|];
    assert b == (b + "c")[..|b|];
    assert p == p[..|p| - 1] + [a];
    assert q == q[..|q| - 1] + [b];
  }

  /** The sibling lies in the same directory as the script. */
  lemma LuacBelow(p: Path, dir: Path)
    requires Below(p, dir)
    ensures Below(Luac(p), dir)
  {
    assert Luac(p)[..|dir|] == Luac(p)[..|p| - 1][..|dir|];
  }

  /** The relative path's string is the tail of the full path's string. */
  lemma {:induction false} PathStringSuffix(root: Path, rel: Path)
    requires |rel| > 0
    ensures var s, t := PathString(root + rel), PathString(rel);
      |t| <= |s| && s[|s| - |t|..] == t
    decreases |rel|
  {
    var full := root + rel;
    if |rel| == 1 {
      if |root| > 0 {
        assert full[..|full| - 1] == root;
      } else {
        assert full == rel;
      }
    } else {
      var front := rel[..|rel| - 1];
      PathStringSuffix(root, front);
      assert full[..|full| - 1] == root + front;
    }
  }

  /** A substring of a tail is a substring of the whole. */
  lemma ContainsFromSuffix(s: string, t: string, m: string)
    requires |t| <= |s| && s[|s| - |t|..] == t && Contains(t, m)
    ensures Contains(s, m)
  {
    var i :| 0 <= i <= |t| && OccursAt(t, m, i);
    assert s[i + |s| - |t|..i + |s| - |t| + |m|] == t[i..i + |m|];
    assert OccursAt(s, m, i + |s| - |t|);
  }

  /** Drops the trailing "c" that Luac appends. */
  function Unluac(q: Path): Path
    requires |q| > 0 && |q[|q| - 1]| > 0
  {
    var name := q[|q| - 1];
    q[..|q| - 1] + [name[..|name| - 1]]
  }

  lemma UnluacLuac(p: Path)
    requires |p| > 0
    ensures Unluac(Luac(p)) == p
  {
    var name := p[|p| - 1];
    assert (name + "c")[..|name|] == name;
  }

  /** Every file and directory strictly below a subdirectory is also below its parent; the subdirectory itself is not below itself. */
  lemma NodesShrink(f0: FileMap, f: FileMap, dir: Path, n: string)
    requires f.Keys <= f0.Keys && IsDir(f, dir + [n])
    ensures Nodes(f, dir + [n]) < Nodes(f0, dir)
  {
    var full := dir + [n];
    var p :| p in f && Below(p, full);
    assert p[..|full|][..|dir|] == p[..|dir|];
    assert full == p[..|full|] && full in Nodes(f0, dir);
    forall q | q in Nodes(f, full) ensures q in Nodes(f0, dir) {
      var p', k :| p' in f && Below(p', full) && |full| < k <= |p'| && q == p'[..k];
      assert p'[..|full|][..|dir|] == p'[..|dir|];
    }
  }

  /** What lies below a subdirectory n also lies below dir, reached through n. */
  lemma BelowChild(p: Path, dir: Path, n: string)
    requires Below(p, dir + [n])
    ensures Below(p, dir) && p[|dir|] == n
  {
    assert p[..|dir| + 1][..|dir|] == p[..|dir|];
  }
}
