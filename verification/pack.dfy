/**
  What pack_assets builds: the staging tree .assets/ (every collected file
  copied under its path relative to its root), the tree after the script
  compiler and the substitution have run over it, and the entries of the
  patch archive, one per copied name, in copy order.
 */
module Pack {
  import opened Wrappers
  import opened Paths
  import opened Merge
  import opened Staging

  /** One member of the patch archive: its name inside the archive and its bytes. */
  datatype ZipEntry = ZipEntry(name: string, data: Bytes)

  /** shutil.copy(file, '.assets/' + rel) for each visit in turn. */
  function StageAssignments(fs: FileMap, v: seq<Visit>): (a: seq<(Path, Bytes)>)
    requires ValidVisits(fs, v)
    ensures |a| == |v|
    ensures forall i :: 0 <= i < |v| ==> a[i] == (Rel(v[i]), fs[v[i].1])
  {
    seq(|v|, i requires 0 <= i < |v| && ValidVisits(fs, v) => (Rel(v[i]), fs[v[i].1]))
  }

  /** The staging tree after the copy loop, keyed by relative path: a later copy overwrites an earlier one. */
  function Staged(fs: FileMap, v: seq<Visit>): FileMap
    requires ValidVisits(fs, v)
  {
    Overlay(StageAssignments(fs, v))
  }

  /** copied: the relative path of every visit, duplicates included. */
  function Copied(v: seq<Visit>): (c: seq<Path>)
    requires forall i :: 0 <= i < |v| ==> Below(v[i].1, v[i].0)
    ensures |c| == |v|
    ensures forall i :: 0 <= i < |v| ==> c[i] == Rel(v[i])
  {
    seq(|v|, i requires 0 <= i < |v| && Below(v[i].1, v[i].0) => Rel(v[i]))
  }

  /** The staging tree holds exactly the copied names. */
  lemma StagedKeys(fs: FileMap, v: seq<Visit>)
    requires ValidVisits(fs, v)
    ensures Staged(fs, v).Keys == set i | 0 <= i < |v| :: Rel(v[i])
  {
    var a := StageAssignments(fs, v);
    OverlayKeys(a);
    assert (set i | 0 <= i < |a| :: a[i].0) == set i | 0 <= i < |v| :: Rel(v[i]);
  }

  /** One more copy in the staging loop. */
  lemma StagedStep(fs: FileMap, v: seq<Visit>, x: Visit)
    requires ValidVisits(fs, v) && x.1 in fs && Below(x.1, x.0)
    ensures ValidVisits(fs, v + [x])
    ensures Staged(fs, v + [x]) == Staged(fs, v)[Rel(x) := fs[x.1]]
    ensures Copied(v + [x]) == Copied(v) + [Rel(x)]
  {
    assert forall i :: 0 <= i < |v| ==> v[i] == (v + [x])[i];
    assert (v + [x])[|v|] == x;
    assert StageAssignments(fs, v + [x]) == StageAssignments(fs, v) + [(Rel(x), fs[x.1])];
    OverlayStep(StageAssignments(fs, v), (Rel(x), fs[x.1]));
  }

  /** The scripts of a tree: its files whose name has the ".lua" extension. */
  function Scripts(keys: set<Path>): (s: set<Path>)
    ensures forall p :: p in s <==> p in keys && IsLuaFile(p)
  {
    set p | p in keys && IsLuaFile(p)
  }

  lemma ScriptsAtTop(f: FileMap)
    ensures LuaBelow(f, []) == Scripts(f.Keys)
  {
    forall p | p in Scripts(f.Keys) ensures Below(p, []) {
      assert p[..0] == [];
    }
  }

  /**
    The staging tree after `cocos luacompile -s .assets/ -d .assets/ -e`: each
    script p gains its sibling p + "c", holding luac of p's bytes; a file that
    already had that name is overwritten; nothing else changes.
   */
  function Compiled(f: FileMap, luac: Bytes -> Bytes): (r: FileMap)
    ensures r.Keys == f.Keys + Siblings(Scripts(f.Keys))
    ensures forall p :: p in Scripts(f.Keys) ==> r[Luac(p)] == luac(f[p])
    ensures forall q :: q in f && q !in Siblings(Scripts(f.Keys)) ==> r[q] == f[q]
  {
    var scripts := Scripts(f.Keys);
    forall q | q in Siblings(scripts) ensures |q| > 0 && |q[|q| - 1]| > 0 && Unluac(q) in f {
      var p :| p in scripts && Luac(p) == q;
      UnluacLuac(p);
    }
    forall p | p in scripts ensures Unluac(Luac(p)) == p {
      UnluacLuac(p);
    }
    map q | q in f.Keys + Siblings(scripts) :: if q in Siblings(scripts) then luac(f[Unluac(q)]) else f[q]
  }

  /** The compiler adds no script, so each script it saw has its sibling afterwards. */
  lemma CompiledScripts(f: FileMap, luac: Bytes -> Bytes)
    ensures Scripts(Compiled(f, luac).Keys) == Scripts(f.Keys)
    ensures LuaBelow(Compiled(f, luac), []) == Scripts(f.Keys)
    ensures LuacPresent(Compiled(f, luac), [])
  {
    ScriptsAtTop(Compiled(f, luac));
  }

  /** No name of the set is a directory holding another. */
  ghost predicate PrefixFree(names: set<Path>) {
    forall p, q :: p in names && q in names ==> !Below(q, p)
  }

  /**
    A staging layout the copy loop and the compiler can build: no copied name
    and no sibling the compiler writes is a directory holding another.
   */
  ghost predicate Stageable(keys: set<Path>) {
    PrefixFree(keys + Siblings(Scripts(keys)))
  }

  /** The tree after encrypt(.assets/): compiled, then each script replaced by its sibling. */
  function Final(f: FileMap, luac: Bytes -> Bytes): FileMap
  {
    CompiledScripts(f, luac);
    Substituted(Compiled(f, luac), [])
  }

  /** After encrypt the compiled siblings are gone and every other staged name is still there. */
  lemma FinalKeys(f: FileMap, luac: Bytes -> Bytes)
    ensures Final(f, luac).Keys == f.Keys - Siblings(Scripts(f.Keys))
  {
    CompiledScripts(f, luac);
  }

  /** After encrypt every script holds the compiler's output for its own bytes. */
  lemma FinalScripts(f: FileMap, luac: Bytes -> Bytes)
    ensures forall p :: p in Scripts(f.Keys) ==> p in Final(f, luac) && Final(f, luac)[p] == luac(f[p])
  {
    CompiledScripts(f, luac);
    forall p | p in Scripts(f.Keys) ensures p in Final(f, luac) && Final(f, luac)[p] == luac(f[p]) {
      assert p[..0] == [];
    }
  }

  /** After encrypt every file that is not a script is as copied. */
  lemma FinalOthers(f: FileMap, luac: Bytes -> Bytes)
    ensures forall q :: q in Final(f, luac) && !IsLuaFile(q) ==> Final(f, luac)[q] == f[q]
  {
    CompiledScripts(f, luac);
  }

  /**
    After encrypt: every script holds the compiler's output for its own bytes,
    the siblings are gone, and every other file is as copied.
   */
  lemma FinalContents(f: FileMap, luac: Bytes -> Bytes)
    ensures Final(f, luac).Keys == f.Keys - Siblings(Scripts(f.Keys))
    ensures forall p :: p in Scripts(f.Keys) ==> Final(f, luac)[p] == luac(f[p])
    ensures forall q :: q in Final(f, luac) && !IsLuaFile(q) ==> Final(f, luac)[q] == f[q]
  {
    FinalKeys(f, luac);
    FinalScripts(f, luac);
    FinalOthers(f, luac);
  }

  /**
    The archive written from tree g: one entry per copied name, in order,
    named by the name and holding g's bytes for it; None when g has lost one
    of the names.
   */
  function Zip(g: FileMap, copied: seq<Path>): (r: Option<seq<ZipEntry>>)
    ensures r.Some? <==> forall i :: 0 <= i < |copied| ==> copied[i] in g
    ensures r.Some? ==> |r.value| == |copied|
    ensures r.Some? ==> forall i :: 0 <= i < |copied| ==> r.value[i].name == PathString(copied[i]) && r.value[i].data == g[copied[i]]
  {
    if forall i :: 0 <= i < |copied| ==> copied[i] in g then
      Some(seq(|copied|, i requires 0 <= i < |copied| && copied[i] in g => ZipEntry(PathString(copied[i]), g[copied[i]])))
    else
      None
  }

  /** The archive pack_assets writes for the visits v: Zip of the final staging tree over the copied names. */
  function PackedArchive(fs: FileMap, v: seq<Visit>, luac: Bytes -> Bytes): Option<seq<ZipEntry>>
    requires ValidVisits(fs, v)
  {
    Zip(Final(Staged(fs, v), luac), Copied(v))
  }

  /** A copied name that is the sibling of a copied script is gone after encrypt. */
  lemma ClashLosesName(fs: FileMap, v: seq<Visit>, luac: Bytes -> Bytes, i: nat, j: nat)
    requires ValidVisits(fs, v)
    requires i < |v| && j < |v| && IsLuaFile(Rel(v[j])) && Rel(v[i]) == Luac(Rel(v[j]))
    ensures Rel(v[i]) !in Final(Staged(fs, v), luac)
  {
    var f := Staged(fs, v);
    StagedKeys(fs, v);
    FinalKeys(f, luac);
    assert Rel(v[j]) in Scripts(f.Keys);
    assert Rel(v[i]) in Siblings(Scripts(f.Keys));
  }

  /** Without such a clash every copied name is still there after encrypt. */
  lemma NoClashKeepsNames(fs: FileMap, v: seq<Visit>, luac: Bytes -> Bytes)
    requires ValidVisits(fs, v)
    requires !exists i, j :: 0 <= i < |v| && 0 <= j < |v| && IsLuaFile(Rel(v[j])) && Rel(v[i]) == Luac(Rel(v[j]))
    ensures forall i :: 0 <= i < |v| ==> Rel(v[i]) in Final(Staged(fs, v), luac)
  {
    var f := Staged(fs, v);
    StagedKeys(fs, v);
    FinalKeys(f, luac);
    forall q | q in Siblings(Scripts(f.Keys)) ensures forall i :: 0 <= i < |v| ==> Rel(v[i]) != q {
      var p :| p in Scripts(f.Keys) && Luac(p) == q;
      var j :| 0 <= j < |v| && Rel(v[j]) == p;
    }
  }

  /** A copied name survives encrypt exactly when it is not the sibling of a copied script. */
  lemma CopiedSurvive(fs: FileMap, v: seq<Visit>, luac: Bytes -> Bytes)
    requires ValidVisits(fs, v)
    ensures (forall i :: 0 <= i < |v| ==> Rel(v[i]) in Final(Staged(fs, v), luac)) <==>
      !exists i, j :: 0 <= i < |v| && 0 <= j < |v| && IsLuaFile(Rel(v[j])) && Rel(v[i]) == Luac(Rel(v[j]))
  {
    if exists i, j :: 0 <= i < |v| && 0 <= j < |v| && IsLuaFile(Rel(v[j])) && Rel(v[i]) == Luac(Rel(v[j])) {
      var i, j :| 0 <= i < |v| && 0 <= j < |v| && IsLuaFile(Rel(v[j])) && Rel(v[i]) == Luac(Rel(v[j]));
      ClashLosesName(fs, v, luac, i, j);
    } else {
      NoClashKeepsNames(fs, v, luac);
    }
  }

  /** The archive is written exactly when no copied name is the sibling of a copied script. */
  lemma PackSucceedsIff(fs: FileMap, v: seq<Visit>, luac: Bytes -> Bytes)
    requires ValidVisits(fs, v)
    ensures PackedArchive(fs, v, luac).Some? <==>
      !exists i, j :: 0 <= i < |v| && 0 <= j < |v| && IsLuaFile(Rel(v[j])) && Rel(v[i]) == Luac(Rel(v[j]))
  {
    CopiedSurvive(fs, v, luac);
  }

  /** One entry per element of copied, in order, each named by its relative path. */
  lemma ArchiveNames(fs: FileMap, v: seq<Visit>, luac: Bytes -> Bytes)
    requires ValidVisits(fs, v) && PackedArchive(fs, v, luac).Some?
    ensures |PackedArchive(fs, v, luac).value| == |v|
    ensures forall i :: 0 <= i < |v| ==> PackedArchive(fs, v, luac).value[i].name == Key(v[i])
  {
  }

  /** The staging tree holds, under a copied name, the bytes of the last file copied there. */
  lemma StagedLastWriter(fs: FileMap, v: seq<Visit>, j: nat)
    requires ValidVisits(fs, v) && j < |v|
    requires forall k :: j < k < |v| ==> Rel(v[k]) != Rel(v[j])
    ensures Rel(v[j]) in Staged(fs, v) && Staged(fs, v)[Rel(v[j])] == fs[v[j].1]
  {
    OverlayLastWins(StageAssignments(fs, v), j);
  }

  /** A file of the final tree that was staged: compiled when it is a script, as copied otherwise. */
  lemma FinalEntry(f: FileMap, luac: Bytes -> Bytes, r: Path)
    requires r in f && r in Final(f, luac)
    ensures Final(f, luac)[r] == if IsLuaFile(r) then luac(f[r]) else f[r]
  {
    FinalContents(f, luac);
  }

  /**
    Archive contents: the entry for visit i carries the bytes of the last
    visited file j with the same relative path, passed through the compiler
    when that path is a script.
   */
  lemma ArchiveEntry(fs: FileMap, v: seq<Visit>, luac: Bytes -> Bytes, i: nat, j: nat)
    requires ValidVisits(fs, v) && PackedArchive(fs, v, luac).Some?
    requires i < |v| && j < |v| && Rel(v[j]) == Rel(v[i])
    requires forall k :: j < k < |v| ==> Rel(v[k]) != Rel(v[j])
    ensures |PackedArchive(fs, v, luac).value| == |v|
    ensures PackedArchive(fs, v, luac).value[i].data ==
      if IsLuaFile(Rel(v[i])) then luac(fs[v[j].1]) else fs[v[j].1]
  {
    StagedLastWriter(fs, v, j);
    FinalEntry(Staged(fs, v), luac, Rel(v[i]));
  }

  /** A stageable layout yields a compiled tree that is a real file system, as the substitution needs. */
  lemma CompiledWellFormed(f: FileMap, luac: Bytes -> Bytes)
    requires Stageable(f.Keys)
    ensures WellFormed(Compiled(f, luac))
  {
  }
}
