/**
  The `files` dictionary run builds: for each configured source root, the
  list its walk gathered. A root named twice keeps its first place and
  takes the list of its last walk.
 */
module Sources {
  import opened Wrappers
  import opened Paths
  import opened Manifest
  import opened Merge
  import opened Collect

  /** The roots a collection holds lists for. */
  function Roots(files: Collection): set<Path> {
    set k | 0 <= k < |files| :: files[k].0
  }

  /** The roots in the order the collection is iterated. */
  function RootOrder(files: Collection): (order: seq<Path>)
    ensures |order| == |files| && forall k :: 0 <= k < |files| ==> order[k] == files[k].0
  {
    seq(|files|, k requires 0 <= k < |files| => files[k].0)
  }

  /** Each element of s at its first occurrence, in order: the keys of a dictionary filled from s. */
  function FirstOccurrences(s: seq<Path>): (r: seq<Path>)
    ensures forall x :: x in r <==> x in s
  {
    if |s| == 0 then []
    else
      var front := FirstOccurrences(s[..|s| - 1]);
      assert forall x :: x in s[..|s| - 1] ==> x in s;
      assert forall x :: x in s ==> x in s[..|s| - 1] || x == s[|s| - 1];
      if s[|s| - 1] in front then front else front + [s[|s| - 1]]
  }

  /** A dictionary holds each key once. */
  predicate DistinctRoots(files: Collection) {
    forall a, b :: 0 <= a < b < |files| ==> files[a].0 != files[b].0
  }

  /** files[root] = list: a root already present keeps its place and takes the new list; a new root goes last. */
  function Assign(files: Collection, root: Path, list: seq<Path>): (r: Collection)
    requires DistinctRoots(files)
    ensures DistinctRoots(r) && Roots(r) == Roots(files) + {root}
    ensures RootOrder(r) == if root in RootOrder(files) then RootOrder(files) else RootOrder(files) + [root]
    ensures forall k :: 0 <= k < |r| ==> if r[k].0 == root then r[k].1 == list else k < |files| && r[k] == files[k]
  {
    assert root in RootOrder(files) <==> root in Roots(files) by {
      if root in RootOrder(files) {
        var k :| 0 <= k < |files| && RootOrder(files)[k] == root;
        assert files[k].0 == root;
      }
    }
    if root in Roots(files) then
      var r := seq(|files|, k requires 0 <= k < |files| => if files[k].0 == root then (root, list) else files[k]);
      assert RootOrder(r) == RootOrder(files);
      assert Roots(r) == Roots(files) by {
        forall x | x in Roots(files) ensures x in Roots(r) {
          var k :| 0 <= k < |files| && files[k].0 == x;
          assert r[k].0 == x;
        }
      }
      r
    else
      var r := files + [(root, list)];
      assert RootOrder(r) == RootOrder(files) + [root];
      assert Roots(r) == Roots(files) + {root} by {
        assert r[|files|].0 == root;
        forall x | x in Roots(files) ensures x in Roots(r) {
          var k :| 0 <= k < |files| && files[k].0 == x;
          assert r[k].0 == x;
        }
      }
      r
  }

  /** The relative paths of the files the walks of roots gather. */
  function RelKeys(fs: FileMap, roots: set<Path>): set<Path> {
    set r, p | r in roots && p in fs && Below(p, r) && !Excluded(p) :: RelPath(p, r)
  }

  /** The same, as the strings the record's 'files' is keyed by. */
  function RelNames(fs: FileMap, roots: set<Path>): set<string> {
    set x | x in RelKeys(fs, roots) :: PathString(x)
  }

  /** Some name is the compiled sibling of a script among the same names. */
  predicate SiblingClash(keys: set<Path>) {
    exists r, s :: r in keys && s in keys && IsLuaFile(s) && r == Luac(s)
  }

  /** The lists of a collection are what the walks of its roots gathered. */
  predicate Walked(fs: FileMap, files: Collection) {
    forall k :: 0 <= k < |files| ==> Elements(files[k].1) == Collected(fs, files[k].0)
  }

  /** Each walk gathers every file at most once. */
  predicate ListsDistinct(files: Collection) {
    forall k :: 0 <= k < |files| ==> Distinct(files[k].1)
  }

  /** What the loop of run has built after walking the roots in prefix. */
  ghost predicate WalkedSoFar(fs: FileMap, files: Collection, prefix: seq<Path>) {
    && DistinctRoots(files) && Walked(fs, files) && ListsDistinct(files)
    && RootOrder(files) == FirstOccurrences(prefix)
    && Roots(files) == Elements(prefix)
  }

  /** Assigning the next root keeps the keys in first-occurrence order of the roots seen. */
  lemma AssignKeepsOrder(files: Collection, prefix: seq<Path>, src: Path, list: seq<Path>)
    requires DistinctRoots(files)
    requires RootOrder(files) == FirstOccurrences(prefix) && Roots(files) == Elements(prefix)
    ensures RootOrder(Assign(files, src, list)) == FirstOccurrences(prefix + [src])
    ensures Roots(Assign(files, src, list)) == Elements(prefix + [src])
  {
    var next := prefix + [src];
    assert next[..|next| - 1] == prefix;
    assert src in RootOrder(files) <==> src in FirstOccurrences(prefix);
    assert Elements(next) == Elements(prefix) + {src};
  }

  /** files[src] = list, for a list the walk of src produced, extends the loop by one root. */
  lemma AssignWalked(fs: FileMap, files: Collection, prefix: seq<Path>, src: Path, list: seq<Path>)
    requires WalkedSoFar(fs, files, prefix)
    requires Distinct(list) && Elements(list) == Collected(fs, src)
    ensures DistinctRoots(files) && WalkedSoFar(fs, Assign(files, src, list), prefix + [src])
  {
    AssignKeepsOrder(files, prefix, src, list);
  }

  /**
    One turn of the loop of run: files[src] = [] and deep_iterate_dir(src,
    files[src]). The walk of a root that is a regular file raises: None.
   */
  method WalkRoot(fs: FileMap, files: Collection, prefix: seq<Path>, src: Path) returns (next: Option<Collection>)
    requires WellFormed(fs) && WalkedSoFar(fs, files, prefix)
    ensures next.None? <==> src in fs
    ensures next.Some? ==> WalkedSoFar(fs, next.value, prefix + [src])
  {
    var list := DeepIterateDir(fs, src, []);
    if list.None? {
      return None;
    }
    assert list.value[0..] == list.value;
    AssignWalked(fs, files, prefix, src, list.value);
    return Some(Assign(files, src, list.value));
  }

  /**
    The loop of run: one WalkRoot for each configured root in turn. The walk
    of a root that is a regular file raises, and so does run: None.
   */
  method WalkRoots(fs: FileMap, srcDirs: seq<Path>) returns (files: Option<Collection>)
    requires WellFormed(fs)
    ensures files.None? <==> exists i :: 0 <= i < |srcDirs| && srcDirs[i] in fs
    ensures files.Some? ==> WalkedSoFar(fs, files.value, srcDirs)
  {
    var walked: Collection := [];
    var i := 0;
    while i < |srcDirs|
      invariant 0 <= i <= |srcDirs|
      invariant forall j :: 0 <= j < i ==> srcDirs[j] !in fs
      invariant WalkedSoFar(fs, walked, srcDirs[..i])
    {
      var step := WalkRoot(fs, walked, srcDirs[..i], srcDirs[i]);
      if step.None? {
        return None;
      }
      assert srcDirs[..i + 1] == srcDirs[..i] + [srcDirs[i]];
      walked := step.value;
      i := i + 1;
    }
    assert srcDirs[..|srcDirs|] == srcDirs;
    return Some(walked);
  }

  /** Walked lists name files of fs below their own roots. */
  lemma WalkedFromFileSystem(fs: FileMap, files: Collection)
    requires Walked(fs, files)
    ensures FromFileSystem(fs, files) && ValidVisits(fs, Visits(files))
  {
    forall k, j | 0 <= k < |files| && 0 <= j < |files[k].1|
      ensures files[k].1[j] in fs && Below(files[k].1[j], files[k].0)
    {
      assert files[k].1[j] in Elements(files[k].1);
    }
    VisitsFromFileSystem(fs, files);
  }

  /** The visits of a walked collection are its roots paired with their gathered files. */
  lemma WalkedVisit(fs: FileMap, files: Collection, x: Visit)
    requires Walked(fs, files)
    ensures x in Visits(files) <==> x.0 in Roots(files) && x.1 in Collected(fs, x.0)
  {
    VisitsMembership(files, x);
    if x.0 in Roots(files) && x.1 in Collected(fs, x.0) {
      var k :| 0 <= k < |files| && files[k].0 == x.0;
      assert x.1 in Elements(files[k].1);
      var j :| 0 <= j < |files[k].1| && files[k].1[j] == x.1;
      assert x == (files[k].0, files[k].1[j]);
    }
    if x in Visits(files) {
      var k, j :| 0 <= k < |files| && 0 <= j < |files[k].1| && x == (files[k].0, files[k].1[j]);
      assert files[k].1[j] in Elements(files[k].1);
    }
  }

  /** The relative paths the loops of hash_assets and pack_assets see are those of every gathered file. */
  lemma WalkedRels(fs: FileMap, files: Collection)
    requires Walked(fs, files)
    ensures FromFileSystem(fs, files) && ValidVisits(fs, Visits(files))
    ensures (set i | 0 <= i < |Visits(files)| :: Rel(Visits(files)[i])) == RelKeys(fs, Roots(files))
    ensures forall i :: 0 <= i < |Visits(files)| ==> !Excluded(Visits(files)[i].1)
  {
    WalkedFromFileSystem(fs, files);
    var v := Visits(files);
    forall i | 0 <= i < |v| ensures !Excluded(v[i].1) && RelPath(v[i].1, v[i].0) in RelKeys(fs, Roots(files)) {
      WalkedVisit(fs, files, v[i]);
    }
    forall y | y in RelKeys(fs, Roots(files)) ensures exists i :: 0 <= i < |v| && Rel(v[i]) == y {
      var r, p :| r in Roots(files) && p in fs && Below(p, r) && !Excluded(p) && y == RelPath(p, r);
      WalkedVisit(fs, files, (r, p));
      var i :| 0 <= i < |v| && v[i] == (r, p);
      assert Rel(v[i]) == y;
    }
  }

  /** The string keys of the visits are the strings of their relative paths. */
  lemma NamesOfRels(v: seq<Visit>, rels: set<Path>)
    requires forall i :: 0 <= i < |v| ==> Below(v[i].1, v[i].0)
    requires (set i | 0 <= i < |v| :: Rel(v[i])) == rels
    ensures (set i | 0 <= i < |v| :: Key(v[i])) == set x | x in rels :: PathString(x)
  {
    var keys := set i | 0 <= i < |v| :: Key(v[i]);
    forall k | k in keys ensures k in set x | x in rels :: PathString(x) {
      var i :| 0 <= i < |v| && Key(v[i]) == k;
      assert Rel(v[i]) in rels;
    }
    forall k | k in (set x | x in rels :: PathString(x)) ensures k in keys {
      var x :| x in rels && PathString(x) == k;
      var i :| 0 <= i < |v| && Rel(v[i]) == x;
      assert Key(v[i]) == k;
    }
  }

  /**
    The record hashed from a walked collection has one key per relative name
    of a gathered file, and none of them names ".DS_Store" or "VERSION.json".
   */
  lemma WalkedNames(fs: FileMap, checksum: Bytes -> int, files: Collection)
    requires Walked(fs, files) && ValidVisits(fs, Visits(files))
    ensures Items(fs, checksum, Visits(files)).Keys == RelNames(fs, Roots(files))
    ensures forall k :: k in Items(fs, checksum, Visits(files)) ==>
      !Contains(k, MetadataMarker) && !Contains(k, ManifestName)
  {
    var v := Visits(files);
    WalkedRels(fs, files);
    ItemsKeys(fs, checksum, v);
    NoExcludedKey(fs, checksum, v);
    NamesOfRels(v, RelKeys(fs, Roots(files)));
  }

  /** A clash among the gathered names shows up among the visits' relative paths. */
  lemma ClashFromNames(v: seq<Visit>, keys: set<Path>)
    requires forall i :: 0 <= i < |v| ==> Below(v[i].1, v[i].0)
    requires (set i | 0 <= i < |v| :: Rel(v[i])) == keys
    requires SiblingClash(keys)
    ensures exists i, j :: 0 <= i < |v| && 0 <= j < |v| && IsLuaFile(Rel(v[j])) && Rel(v[i]) == Luac(Rel(v[j]))
  {
    var r, s :| r in keys && s in keys && IsLuaFile(s) && r == Luac(s);
    var i :| 0 <= i < |v| && Rel(v[i]) == r;
    var j :| 0 <= j < |v| && Rel(v[j]) == s;
    assert IsLuaFile(Rel(v[j])) && Rel(v[i]) == Luac(Rel(v[j]));
  }

  /** A clash among the visits' relative paths is a clash among the gathered names. */
  lemma ClashFromVisits(v: seq<Visit>, keys: set<Path>, i: nat, j: nat)
    requires forall k :: 0 <= k < |v| ==> Below(v[k].1, v[k].0)
    requires (set k | 0 <= k < |v| :: Rel(v[k])) == keys
    requires i < |v| && j < |v| && IsLuaFile(Rel(v[j])) && Rel(v[i]) == Luac(Rel(v[j]))
    ensures SiblingClash(keys)
  {
    assert Rel(v[i]) in keys && Rel(v[j]) in keys;
  }

  /** Every hashed value is the CRC of a gathered file whose relative name is its key. */
  ghost predicate ValuesFromGathered(fs: FileMap, checksum: Bytes -> int, roots: set<Path>, items: map<string, string>) {
    forall k :: k in items ==>
      exists r, p :: (r in roots && p in fs && Below(p, r) && !Excluded(p) &&
        PathString(RelPath(p, r)) == k && items[k] == Crc32(checksum, fs[p]))
  }

  /** The last visit whose key is k: the one whose value the record keeps. */
  lemma {:induction false} LastVisitOf(v: seq<Visit>, i0: nat) returns (i: nat)
    requires i0 < |v| && forall j :: 0 <= j < |v| ==> Below(v[j].1, v[j].0)
    ensures i < |v| && Key(v[i]) == Key(v[i0])
    ensures forall j :: i < j < |v| ==> Key(v[j]) != Key(v[i])
    decreases |v| - i0
  {
    if j :| i0 < j < |v| && Key(v[j]) == Key(v[i0]) {
      i := LastVisitOf(v, j);
    } else {
      i := i0;
    }
  }

  /** The record hashed from walked lists holds, under each name, the CRC of a gathered file with that name. */
  lemma WalkedValues(fs: FileMap, checksum: Bytes -> int, files: Collection)
    requires Walked(fs, files) && ValidVisits(fs, Visits(files))
    ensures ValuesFromGathered(fs, checksum, Roots(files), Items(fs, checksum, Visits(files)))
  {
    var v := Visits(files);
    var items := Items(fs, checksum, v);
    ItemsKeys(fs, checksum, v);
    forall k | k in items
      ensures exists r, p :: (r in Roots(files) && p in fs && Below(p, r) && !Excluded(p) &&
        PathString(RelPath(p, r)) == k && items[k] == Crc32(checksum, fs[p]))
    {
      var i0 :| 0 <= i0 < |v| && Key(v[i0]) == k;
      var i := LastVisitOf(v, i0);
      LastWriterWins(fs, checksum, v, i);
      WalkedVisit(fs, files, v[i]);
      assert PathString(RelPath(v[i].1, v[i].0)) == k;
    }
  }
}
