/**
  The nested loops of hash_assets and pack_assets: every collected file,
  root by root, is keyed by its path relative to its own root. hash_assets
  stores its hash text in `items`, pack_assets copies its bytes into the
  staging tree and records the relative path in `copied`. In both maps a
  later file with the same relative path overwrites an earlier one.
 */
module Merge {
  import opened Paths
  import opened Manifest

  /** The `files` dictionary: each root with the list its walk produced, in iteration order. */
  type Collection = seq<(Path, seq<Path>)>

  /** One step of the nested loops: a root and one of its files. */
  type Visit = (Path, Path)

  /** Every listed file is a file of fs lying below its own root. */
  predicate FromFileSystem(fs: FileMap, files: Collection) {
    forall i, j :: 0 <= i < |files| && 0 <= j < |files[i].1| ==>
      files[i].1[j] in fs && Below(files[i].1[j], files[i].0)
  }

  predicate ValidVisits(fs: FileMap, v: seq<Visit>) {
    forall i :: 0 <= i < |v| ==> v[i].1 in fs && Below(v[i].1, v[i].0)
  }

  /** The (root, file) pairs of one root, in list order. */
  function RootVisits(entry: (Path, seq<Path>)): (v: seq<Visit>)
    ensures |v| == |entry.1|
    ensures forall k :: 0 <= k < |v| ==> v[k] == (entry.0, entry.1[k])
  {
    seq(|entry.1|, k requires 0 <= k < |entry.1| => (entry.0, entry.1[k]))
  }

  /** The (root, file) pairs in the order the two nested loops visit them. */
  function Visits(files: Collection): seq<Visit>
  {
    if |files| == 0 then [] else Visits(files[..|files| - 1]) + RootVisits(files[|files| - 1])
  }

  /** The visits up to file j of root i: what the loops have seen when they reach that file. */
  lemma {:induction false} VisitsSoFar(fs: FileMap, files: Collection, i: nat, j: nat)
    requires FromFileSystem(fs, files) && i < |files| && j <= |files[i].1|
    ensures ValidVisits(fs, Visits(files[..i]) + RootVisits((files[i].0, files[i].1[..j])))
    ensures j == |files[i].1| ==>
      Visits(files[..i]) + RootVisits((files[i].0, files[i].1[..j])) == Visits(files[..i + 1])
    ensures j < |files[i].1| ==>
      Visits(files[..i]) + RootVisits((files[i].0, files[i].1[..j + 1]))
        == Visits(files[..i]) + RootVisits((files[i].0, files[i].1[..j])) + [(files[i].0, files[i].1[j])]
  {
    VisitsFromFileSystem(fs, files[..i]);
    assert files[..i + 1][..i] == files[..i];
    assert files[i].1[..|files[i].1|] == files[i].1;
  }

  lemma {:induction false} VisitsFromFileSystem(fs: FileMap, files: Collection)
    requires FromFileSystem(fs, files)
    ensures ValidVisits(fs, Visits(files))
  {
    if |files| > 0 {
      var front := Visits(files[..|files| - 1]);
      VisitsFromFileSystem(fs, files[..|files| - 1]);
      var v := Visits(files);
      forall i | 0 <= i < |v|
        ensures v[i].1 in fs && Below(v[i].1, v[i].0)
      {
        if i >= |front| {
          assert v[i] == (files[|files| - 1].0, files[|files| - 1].1[i - |front|]);
        } else {
          assert v[i] == front[i];
        }
      }
    }
  }

  /** A visit is a root of the collection with one of the files listed under it. */
  lemma {:induction false} VisitsMembership(files: Collection, x: Visit)
    ensures x in Visits(files) <==>
      exists k, j :: 0 <= k < |files| && 0 <= j < |files[k].1| && x == (files[k].0, files[k].1[j])
  {
    if |files| > 0 {
      var front := files[..|files| - 1];
      VisitsMembership(front, x);
      var last := files[|files| - 1];
      if x in RootVisits(last) {
        var j :| 0 <= j < |last.1| && RootVisits(last)[j] == x;
        assert x == (files[|files| - 1].0, files[|files| - 1].1[j]);
      }
      if exists k, j :: 0 <= k < |files| && 0 <= j < |files[k].1| && x == (files[k].0, files[k].1[j]) {
        var k, j :| 0 <= k < |files| && 0 <= j < |files[k].1| && x == (files[k].0, files[k].1[j]);
        if k < |front| {
          assert front[k] == files[k];
        } else {
          assert RootVisits(last)[j] == x;
        }
      }
    }
  }

  /** The map a sequence of assignments `m[key] = value` builds, starting from an empty one. */
  function Overlay<K, V>(pairs: seq<(K, V)>): map<K, V>
  {
    if |pairs| == 0 then map[]
    else Overlay(pairs[..|pairs| - 1])[pairs[|pairs| - 1].0 := pairs[|pairs| - 1].1]
  }

  /** One more assignment. */
  lemma OverlayStep<K, V>(pairs: seq<(K, V)>, p: (K, V))
    ensures Overlay(pairs + [p]) == Overlay(pairs)[p.0 := p.1]
  {
    assert (pairs + [p])[..|pairs|] == pairs;
  }

  /** The keys are exactly the assigned keys. */
  lemma {:induction false} OverlayKeys<K, V>(pairs: seq<(K, V)>)
    ensures Overlay(pairs).Keys == set i | 0 <= i < |pairs| :: pairs[i].0
  {
    if |pairs| > 0 {
      var front := pairs[..|pairs| - 1];
      OverlayKeys(front);
      var want := set i | 0 <= i < |pairs| :: pairs[i].0;
      var had := set i | 0 <= i < |front| :: front[i].0;
      forall k | k in want ensures k in had + {pairs[|pairs| - 1].0} {
        var i :| 0 <= i < |pairs| && pairs[i].0 == k;
        if i < |front| { assert front[i].0 == k; }
      }
      assert want == had + {pairs[|pairs| - 1].0};
    }
  }

  /** Last writer wins: a key holds the value of its last assignment. */
  lemma {:induction false} OverlayLastWins<K, V>(pairs: seq<(K, V)>, i: nat)
    requires i < |pairs|
    requires forall j :: i < j < |pairs| ==> pairs[j].0 != pairs[i].0
    ensures pairs[i].0 in Overlay(pairs) && Overlay(pairs)[pairs[i].0] == pairs[i].1
  {
    if i < |pairs| - 1 {
      var front := pairs[..|pairs| - 1];
      assert front[i] == pairs[i];
      OverlayLastWins(front, i);
    }
  }

  /** rel = os.path.relpath(file, src). */
  function Rel(v: Visit): Path
    requires Below(v.1, v.0)
  {
    RelPath(v.1, v.0)
  }

  /** rel as the key of the record's files: its string form. */
  function Key(v: Visit): string
    requires Below(v.1, v.0)
  {
    PathString(Rel(v))
  }

  /** items[rel] = crc32(file), for each visit in turn. */
  function HashAssignments(fs: FileMap, checksum: Bytes -> int, v: seq<Visit>): (a: seq<(string, string)>)
    requires ValidVisits(fs, v)
    ensures |a| == |v|
    ensures forall i :: 0 <= i < |v| ==> a[i] == (Key(v[i]), Crc32(checksum, fs[v[i].1]))
  {
    seq(|v|, i requires 0 <= i < |v| && ValidVisits(fs, v) => (Key(v[i]), Crc32(checksum, fs[v[i].1])))
  }

  /** The `items` dictionary after the given visits. */
  function Items(fs: FileMap, checksum: Bytes -> int, v: seq<Visit>): map<string, string>
    requires ValidVisits(fs, v)
  {
    Overlay(HashAssignments(fs, checksum, v))
  }

  /** The keys are exactly the relative paths of the visited files, over all roots. */
  lemma ItemsKeys(fs: FileMap, checksum: Bytes -> int, v: seq<Visit>)
    requires ValidVisits(fs, v)
    ensures Items(fs, checksum, v).Keys == set i | 0 <= i < |v| :: Key(v[i])
  {
    var a := HashAssignments(fs, checksum, v);
    OverlayKeys(a);
    assert (set i | 0 <= i < |a| :: a[i].0) == set i | 0 <= i < |v| :: Key(v[i]);
  }

  /**
    Last writer wins: the hash stored under a key is that of the last visited
    file whose relative path is that key.
   */
  lemma LastWriterWins(fs: FileMap, checksum: Bytes -> int, v: seq<Visit>, i: nat)
    requires ValidVisits(fs, v) && i < |v|
    requires forall j :: i < j < |v| ==> Key(v[j]) != Key(v[i])
    ensures Key(v[i]) in Items(fs, checksum, v)
    ensures Items(fs, checksum, v)[Key(v[i])] == Crc32(checksum, fs[v[i].1])
  {
    OverlayLastWins(HashAssignments(fs, checksum, v), i);
  }

  /** One more visited file in the hashing loop. */
  lemma ItemsStep(fs: FileMap, checksum: Bytes -> int, v: seq<Visit>, x: Visit)
    requires ValidVisits(fs, v) && x.1 in fs && Below(x.1, x.0)
    ensures ValidVisits(fs, v + [x])
    ensures Items(fs, checksum, v + [x]) == Items(fs, checksum, v)[Key(x) := Crc32(checksum, fs[x.1])]
  {
    assert forall i :: 0 <= i < |v| ==> v[i] == (v + [x])[i];
    assert (v + [x])[|v|] == x;
    assert HashAssignments(fs, checksum, v + [x])
      == HashAssignments(fs, checksum, v) + [(Key(x), Crc32(checksum, fs[x.1]))];
    OverlayStep(HashAssignments(fs, checksum, v), (Key(x), Crc32(checksum, fs[x.1])));
  }

  /** The relative name of a visit keeps clear of the markers its full path keeps clear of. */
  lemma KeyNotExcluded(x: Visit)
    requires Below(x.1, x.0) && !Excluded(x.1)
    ensures !Contains(Key(x), MetadataMarker) && !Contains(Key(x), ManifestName)
  {
    PathStringSuffix(x.0, Rel(x));
    if Contains(Key(x), MetadataMarker) {
      ContainsFromSuffix(PathString(x.1), Key(x), MetadataMarker);
    }
    if Contains(Key(x), ManifestName) {
      ContainsFromSuffix(PathString(x.1), Key(x), ManifestName);
    }
  }

  /**
    The exclusion filter reaches the record: when no visited file's full path
    holds ".DS_Store" or "VERSION.json", no key does.
   */
  lemma NoExcludedKey(fs: FileMap, checksum: Bytes -> int, v: seq<Visit>)
    requires ValidVisits(fs, v)
    requires forall i :: 0 <= i < |v| ==> !Excluded(v[i].1)
    ensures forall k :: k in Items(fs, checksum, v) ==>
      !Contains(k, MetadataMarker) && !Contains(k, ManifestName)
  {
    ItemsKeys(fs, checksum, v);
    forall k | k in Items(fs, checksum, v)
      ensures !Contains(k, MetadataMarker) && !Contains(k, ManifestName)
    {
      var i :| 0 <= i < |v| && Key(v[i]) == k;
      KeyNotExcluded(v[i]);
    }
  }
}
