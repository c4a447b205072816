/**
  The hash plugin: init loads the old record and settles the options,
  hash_assets hashes the collected files into a new record and writes the
  version files, pack_assets stages, compiles and zips the same files, and
  run walks the configured roots and chains the two.
 */
module HashPlugin {
  import opened Wrappers
  import opened Paths
  import opened Manifest
  import opened Merge
  import opened Staging
  import opened Pack
  import opened Collect
  import opened Sources

  /** The parsed command line: -s roots in order, -v, -c major version, --no-pack. */
  datatype Options = Options(srcDirs: seq<Path>, verbose: bool, cppVersion: Option<int>, noPack: bool)

  /** The inner loop of hash_assets over the list of root i: items[rel] = crc32(file). */
  method HashRoot(fs: FileMap, checksum: Bytes -> int, files: Collection, i: nat, start: map<string, string>)
    returns (items: map<string, string>)
    requires FromFileSystem(fs, files) && i < |files|
    requires ValidVisits(fs, Visits(files[..i])) && start == Items(fs, checksum, Visits(files[..i]))
    ensures ValidVisits(fs, Visits(files[..i + 1])) && items == Items(fs, checksum, Visits(files[..i + 1]))
  {
    var src := files[i].0;
    var list := files[i].1;
    VisitsSoFar(fs, files, i, 0);
    assert RootVisits((src, list[..0])) == [];
    assert Visits(files[..i]) + RootVisits((src, list[..0])) == Visits(files[..i]);
    items := start;
    var j := 0;
    while j < |list|
      invariant 0 <= j <= |list|
      invariant ValidVisits(fs, Visits(files[..i]) + RootVisits((src, list[..j])))
      invariant items == Items(fs, checksum, Visits(files[..i]) + RootVisits((src, list[..j])))
    {
      var file := list[j];
      var rel := RelPath(file, src);
      VisitsSoFar(fs, files, i, j);
      ItemsStep(fs, checksum, Visits(files[..i]) + RootVisits((src, list[..j])), (src, file));
      items := items[PathString(rel) := Crc32(checksum, fs[file])];
      j := j + 1;
    }
    VisitsSoFar(fs, files, i, |list|);
  }

  /** The two loops of hash_assets: the items of every root, a later file overwriting an earlier one. */
  method HashItems(fs: FileMap, checksum: Bytes -> int, files: Collection) returns (items: map<string, string>)
    requires FromFileSystem(fs, files)
    ensures ValidVisits(fs, Visits(files)) && items == Items(fs, checksum, Visits(files))
  {
    items := map[];
    var i := 0;
    while i < |files|
      invariant 0 <= i <= |files|
      invariant ValidVisits(fs, Visits(files[..i]))
      invariant items == Items(fs, checksum, Visits(files[..i]))
    {
      items := HashRoot(fs, checksum, files, i, items);
      i := i + 1;
    }
    assert files[..|files|] == files;
  }

  /** The inner copy loop of pack_assets over the list of root i. */
  method StageRoot(t: Tree, fs: FileMap, files: Collection, i: nat, start: seq<Path>) returns (copied: seq<Path>)
    requires FromFileSystem(fs, files) && i < |files|
    requires ValidVisits(fs, Visits(files[..i]))
    requires t.files == Staged(fs, Visits(files[..i])) && start == Copied(Visits(files[..i]))
    modifies t
    ensures ValidVisits(fs, Visits(files[..i + 1]))
    ensures t.files == Staged(fs, Visits(files[..i + 1])) && copied == Copied(Visits(files[..i + 1]))
  {
    var src := files[i].0;
    var list := files[i].1;
    VisitsSoFar(fs, files, i, 0);
    assert RootVisits((src, list[..0])) == [];
    assert Visits(files[..i]) + RootVisits((src, list[..0])) == Visits(files[..i]);
    copied := start;
    var j := 0;
    while j < |list|
      invariant 0 <= j <= |list|
      invariant ValidVisits(fs, Visits(files[..i]) + RootVisits((src, list[..j])))
      invariant t.files == Staged(fs, Visits(files[..i]) + RootVisits((src, list[..j])))
      invariant copied == Copied(Visits(files[..i]) + RootVisits((src, list[..j])))
    {
      var file := list[j];
      var rel := RelPath(file, src);
      VisitsSoFar(fs, files, i, j);
      StagedStep(fs, Visits(files[..i]) + RootVisits((src, list[..j])), (src, file));
      t.files := t.files[rel := fs[file]];
      copied := copied + [rel];
      j := j + 1;
    }
    VisitsSoFar(fs, files, i, |list|);
  }

  /** Step 1 of pack_assets: empty .assets/, then copy every listed file to .assets/<rel>, recording rel. */
  method StageFiles(t: Tree, fs: FileMap, files: Collection) returns (copied: seq<Path>)
    requires FromFileSystem(fs, files)
    modifies t
    ensures ValidVisits(fs, Visits(files))
    ensures t.files == Staged(fs, Visits(files)) && copied == Copied(Visits(files))
  {
    t.files := map[];
    copied := [];
    var i := 0;
    while i < |files|
      invariant 0 <= i <= |files|
      invariant ValidVisits(fs, Visits(files[..i]))
      invariant t.files == Staged(fs, Visits(files[..i])) && copied == Copied(Visits(files[..i]))
    {
      copied := StageRoot(t, fs, files, i, copied);
      i := i + 1;
    }
    assert files[..|files|] == files;
  }

  /**
    encrypt(dir): the compiler, with compilation disabled and encryption on,
    writes the sibling of every script, then each script is replaced by it.
   */
  method Encrypt(t: Tree, luac: Bytes -> Bytes)
    requires Stageable(t.files.Keys)
    modifies t
    ensures t.files == Final(old(t.files), luac)
  {
    var staged := t.files;
    CompiledWellFormed(staged, luac);
    CompiledScripts(staged, luac);
    t.files := Compiled(staged, luac);
    ReplaceLuaWithLuac(t, []);
  }

  /**
    Step 3 of pack_assets: z.write(.assets/<f>, f) for each f in copied, in
    order. It fails at the first name the tree no longer holds.
   */
  method ZipEntries(g: FileMap, copied: seq<Path>) returns (archive: Option<seq<ZipEntry>>)
    ensures archive == Zip(g, copied)
  {
    var entries := [];
    var k := 0;
    while k < |copied|
      invariant 0 <= k <= |copied| && |entries| == k
      invariant forall m :: 0 <= m < k ==> copied[m] in g
      invariant forall m :: 0 <= m < k ==> entries[m] == ZipEntry(PathString(copied[m]), g[copied[m]])
    {
      if copied[k] !in g {
        return None;
      }
      entries := entries + [ZipEntry(PathString(copied[k]), g[copied[k]])];
      k := k + 1;
    }
    assert entries == Zip(g, copied).value;
    return Some(entries);
  }

  /**
    For walked lists, the staging tree holds the relative names of the
    gathered files, and the archive is written exactly when no gathered name
    is the compiled sibling of a gathered script.
   */
  lemma WalkedPackable(fs: FileMap, luac: Bytes -> Bytes, files: Collection, roots: set<Path>)
    requires Walked(fs, files) && Roots(files) == roots
    ensures FromFileSystem(fs, files) && ValidVisits(fs, Visits(files))
    ensures Staged(fs, Visits(files)).Keys == RelKeys(fs, roots)
    ensures Stageable(RelKeys(fs, roots)) ==> Stageable(Staged(fs, Visits(files)).Keys)
    ensures PackedArchive(fs, Visits(files), luac).Some? <==> !SiblingClash(RelKeys(fs, roots))
  {
    WalkedRels(fs, files);
    var v := Visits(files);
    var keys := RelKeys(fs, roots);
    StagedKeys(fs, v);
    PackSucceedsIff(fs, v, luac);
    if SiblingClash(keys) {
      ClashFromNames(v, keys);
    } else if exists i, j :: 0 <= i < |v| && 0 <= j < |v| && IsLuaFile(Rel(v[j])) && Rel(v[i]) == Luac(Rel(v[j])) {
      var i, j :| 0 <= i < |v| && 0 <= j < |v| && IsLuaFile(Rel(v[j])) && Rel(v[i]) == Luac(Rel(v[j]));
      ClashFromVisits(v, keys, i, j);
    }
  }

  /**
    The record hashed from walked lists: the major version in force, one key
    per relative name of a gathered file and none for the metadata or version
    files, and the minor version bumped exactly when that differs from the
    old record.
   */
  lemma WalkedRecord(fs: FileMap, checksum: Bytes -> int, files: Collection, roots: set<Path>,
                      prior: VersionFile, cppVersion: int)
    requires Walked(fs, files) && Roots(files) == roots
    ensures FromFileSystem(fs, files) && ValidVisits(fs, Visits(files))
    ensures var r := NextVersion(prior, Items(fs, checksum, Visits(files)), cppVersion);
      && r.cppVersion == cppVersion && r.extraKeys == {}
      && r.files.Keys == RelNames(fs, roots)
      && (forall k :: k in r.files ==> !Contains(k, MetadataMarker) && !Contains(k, ManifestName))
      && (r.version != prior.version <==> !(r.files == prior.files && cppVersion == prior.cppVersion && prior.extraKeys == {}))
      && r.version == if r.version != prior.version then prior.version + 1 else prior.version
  {
    WalkedFromFileSystem(fs, files);
    WalkedNames(fs, checksum, files);
  }

  /**
    The record hash_assets builds from walked lists: NextVersion of the items
    hashed from them, with one key per relative name of a gathered file and
    none holding either marker, and under each key the CRC of a gathered file
    with that name.
   */
  ghost predicate HashedRecord(fs: FileMap, checksum: Bytes -> int, files: Collection, roots: set<Path>,
                               prior: VersionFile, cppVersion: int, r: VersionFile)
  {
    && ValidVisits(fs, Visits(files))
    && r == NextVersion(prior, Items(fs, checksum, Visits(files)), cppVersion)
    && r.files.Keys == RelNames(fs, roots)
    && ValuesFromGathered(fs, checksum, roots, r.files)
    && (forall k :: k in r.files ==> !Contains(k, MetadataMarker) && !Contains(k, ManifestName))
  }

  /**
    What pack_assets leaves for walked lists: when the archive can be built,
    it is stored under the stamped name and LATEST.zip and .assets/ is
    emptied; otherwise the archives are as before and .assets/ holds the
    encrypted staging tree.
   */
  ghost predicate PackOutcome(fs: FileMap, luac: Bytes -> Bytes, files: Collection, stamped: string,
                              before: map<string, seq<ZipEntry>>, after: map<string, seq<ZipEntry>>,
                              staging: FileMap, packed: bool)
  {
    && ValidVisits(fs, Visits(files))
    && var r := PackedArchive(fs, Visits(files), luac);
    && packed == r.Some?
    && (packed ==> staging == map[] && after == before[stamped := r.value][LatestArchive := r.value])
    && (!packed ==> staging == Final(Staged(fs, Visits(files)), luac) && after == before)
  }

  /** The plugin's state between init, hash_assets, pack_assets and run. */
  class Plugin {
    /** The project's files as the walks read them. */
    const fs: FileMap
    /** binascii.crc32 */
    const checksum: Bytes -> int
    /** What the script compiler writes for a script's bytes. */
    const luac: Bytes -> Bytes
    /** The .assets/ staging directory. */
    const assets: Tree

    /** self.old: the record loaded from res/VERSION.json. */
    const prior: VersionFile
    /** self.new: the record hash_assets builds; absent before it runs. */
    var next: Option<VersionFile>
    const srcDirs: seq<Path>
    const verbose: bool
    const cppVersion: int
    const noPack: bool
    /** The version files in the working directory, by name. */
    var manifests: map<string, VersionFile>
    /** The zip archives in the working directory, by name. */
    var archives: map<string, seq<ZipEntry>>

    /** init(options, workingdir): load the old record and settle the options. */
    constructor Init(options: Options, fs: FileMap, checksum: Bytes -> int, luac: Bytes -> Bytes,
                     manifests: map<string, VersionFile>, archives: map<string, seq<ZipEntry>>)
      requires CurrentStateFile in manifests
      ensures this.fs == fs && this.checksum == checksum && this.luac == luac
      ensures prior == manifests[CurrentStateFile] && next == None
      ensures srcDirs == options.srcDirs && verbose == options.verbose && noPack == options.noPack
      ensures cppVersion == CppVersionFor(options.cppVersion, manifests[CurrentStateFile])
      ensures this.manifests == manifests && this.archives == archives
      ensures fresh(assets) && assets.files == map[]
    {
      this.fs := fs;
      this.checksum := checksum;
      this.luac := luac;
      assets := new Tree(map[]);
      prior := manifests[CurrentStateFile];
      next := None;
      srcDirs := options.srcDirs;
      verbose := options.verbose;
      cppVersion := CppVersionFor(options.cppVersion, manifests[CurrentStateFile]);
      noPack := options.noPack;
      this.manifests := manifests;
      this.archives := archives;
    }

    /**
      hash_assets(files): hash every listed file under its relative path,
      build the candidate record with the old minor version, bump it when the
      candidate differs from the old record, and write the version-stamped
      file and LATEST.json always, res/VERSION.json only on a change.
     */
    method HashAssets(files: Collection) returns (changed: bool)
      requires FromFileSystem(fs, files) && ValidVisits(fs, Visits(files))
      modifies this`next, this`manifests
      ensures next == Some(NextVersion(prior, Items(fs, checksum, Visits(files)), cppVersion))
      ensures changed <==> next.value.version != prior.version
      ensures var written := old(manifests)[ManifestFileName(next.value) := next.value][LatestManifest := next.value];
        manifests == if changed then written[CurrentStateFile := next.value] else written
    {
      var items := HashItems(fs, checksum, files);
      var candidate := MakeJson(items, cppVersion, prior.version);
      var upToDate := IsSameVersion(prior, candidate);
      if !upToDate {
        candidate := candidate.(version := candidate.version + 1);
      }
      next := Some(candidate);
      var jsonFile := ManifestFileName(candidate);
      manifests := manifests[jsonFile := candidate];
      manifests := manifests[LatestManifest := candidate];
      if upToDate {
        return false;
      }
      manifests := manifests[CurrentStateFile := candidate];
      return true;
    }

    /**
      pack_assets(files): stage every listed file, run the compiler and the
      substitution over .assets/, write one archive entry per copied name, in
      order, into PATCH-<major>.<minor>.zip and copy it to LATEST.zip. When a
      copied name was removed by the substitution (it was the sibling of a
      copied script) z.write fails: no archive is recorded and .assets/
      stays behind.
     */
    method PackAssets(files: Collection) returns (ok: bool)
      requires next.Some?
      requires FromFileSystem(fs, files) && ValidVisits(fs, Visits(files))
      requires Stageable(Staged(fs, Visits(files)).Keys)
      modifies this`archives, assets
      ensures PackOutcome(fs, luac, files, ZipName(next.value), old(archives), archives, assets.files, ok)
    {
      var copied := StageFiles(assets, fs, files);
      Encrypt(assets, luac);
      ghost var final := assets.files;
      assert final == Final(Staged(fs, Visits(files)), luac);
      var archive := ZipEntries(assets.files, copied);
      assert archive == PackedArchive(fs, Visits(files), luac);
      if archive.None? {
        return false;
      }
      var zipName := ZipName(next.value);
      archives := archives[zipName := archive.value];
      archives := archives[LatestArchive := archive.value];
      assets.files := map[];
      return true;
    }

    /**
      The hashing half of run: hash_assets over the lists the walk gathered.
      The new record keeps the major version in force, has one key per
      relative name of a gathered file and none for the metadata or version
      files, holds under each name the CRC of the last gathered file with
      that name, and its minor version is bumped exactly when it differs from
      the old record.
     */
    method HashWalked(files: Collection, roots: set<Path>) returns (changed: bool)
      requires Walked(fs, files) && Roots(files) == roots
      modifies this`next, this`manifests
      ensures next.Some? && HashedRecord(fs, checksum, files, roots, prior, cppVersion, next.value)
      ensures next.value.cppVersion == cppVersion && next.value.extraKeys == {}
      ensures changed <==> !(next.value.files == prior.files && cppVersion == prior.cppVersion && prior.extraKeys == {})
      ensures next.value.version == if changed then prior.version + 1 else prior.version
      ensures var written := old(manifests)[ManifestFileName(next.value) := next.value][LatestManifest := next.value];
        manifests == if changed then written[CurrentStateFile := next.value] else written
    {
      WalkedRecord(fs, checksum, files, roots, prior, cppVersion);
      WalkedValues(fs, checksum, files);
      changed := HashAssets(files);
    }

    /**
      The packing half of run: pack_assets over the lists the walk gathered.
      It succeeds exactly when no gathered name is the compiled sibling of a
      gathered script; it then writes the archive under both names and
      removes .assets/, and otherwise leaves the archives as they were.
     */
    method PackWalked(files: Collection, roots: set<Path>) returns (packed: bool)
      requires next.Some? && Walked(fs, files) && Roots(files) == roots && Stageable(RelKeys(fs, roots))
      modifies this`archives, assets
      ensures packed <==> !SiblingClash(RelKeys(fs, roots))
      ensures PackOutcome(fs, luac, files, ZipName(next.value), old(archives), archives, assets.files, packed)
    {
      WalkedPackable(fs, luac, files, roots);
      packed := PackAssets(files);
    }

    /**
      The rest of run once every root is walked: hash_assets, then
      pack_assets unless --no-pack was given.
     */
    method RunWalked(files: Collection) returns (changed: bool, packed: bool)
      requires Walked(fs, files) && Roots(files) == Elements(srcDirs)
      requires !noPack ==> Stageable(RelKeys(fs, Elements(srcDirs)))
      modifies this`next, this`manifests, this`archives, assets
      ensures next.Some? && HashedRecord(fs, checksum, files, Elements(srcDirs), prior, cppVersion, next.value)
      ensures changed <==> !(next.value.files == prior.files && cppVersion == prior.cppVersion && prior.extraKeys == {})
      ensures next.value.version == if changed then prior.version + 1 else prior.version
      ensures var written := old(manifests)[ManifestFileName(next.value) := next.value][LatestManifest := next.value];
        manifests == if changed then written[CurrentStateFile := next.value] else written
      ensures noPack ==> !packed && archives == old(archives) && assets.files == old(assets.files)
      ensures !noPack ==> (packed <==> !SiblingClash(RelKeys(fs, Elements(srcDirs))))
      ensures !noPack ==> PackOutcome(fs, luac, files, ZipName(next.value), old(archives), archives, assets.files, packed)
    {
      changed := HashWalked(files, Elements(srcDirs));
      ghost var record, written := next, manifests;
      packed := false;
      if !noPack {
        packed := PackWalked(files, Elements(srcDirs));
      }
      assert next == record && manifests == written;
    }

    /**
      run: check the working copy with git status, walk each configured root
      into files[root], hash, and pack unless --no-pack was given. gitStatus
      is what git status --porcelain printed, or None when the command
      failed; its text only chooses a log message. A failed git command or a
      root that is a regular file raises before anything is written: ok is
      false and nothing changes. walked is the files dictionary run built.
     */
    method Run(gitStatus: Option<string>) returns (ok: bool, changed: bool, packed: bool, ghost walked: Collection)
      requires WellFormed(fs)
      requires !noPack ==> Stageable(RelKeys(fs, Elements(srcDirs)))
      modifies this`next, this`manifests, this`archives, assets
      ensures ok <==> gitStatus.Some? && forall i :: 0 <= i < |srcDirs| ==> srcDirs[i] !in fs
      ensures !ok ==> next == old(next) && manifests == old(manifests) && archives == old(archives) && assets.files == old(assets.files)
      ensures ok ==> WalkedSoFar(fs, walked, srcDirs)
      ensures ok ==> next.Some? && HashedRecord(fs, checksum, walked, Elements(srcDirs), prior, cppVersion, next.value)
      ensures ok ==> (changed <==> !(next.value.files == prior.files && cppVersion == prior.cppVersion && prior.extraKeys == {}))
      ensures ok ==> next.value.version == if changed then prior.version + 1 else prior.version
      ensures ok ==> var written := old(manifests)[ManifestFileName(next.value) := next.value][LatestManifest := next.value];
        manifests == if changed then written[CurrentStateFile := next.value] else written
      ensures ok && noPack ==> !packed && archives == old(archives) && assets.files == old(assets.files)
      ensures ok && !noPack ==> (packed <==> !SiblingClash(RelKeys(fs, Elements(srcDirs))))
      ensures ok && !noPack ==> PackOutcome(fs, luac, walked, ZipName(next.value), old(archives), archives, assets.files, packed)
    {
      walked := [];
      changed, packed := false, false;
      if gitStatus.None? {
        return false, changed, packed, walked;
      }
      var files := WalkRoots(fs, srcDirs);
      if files.None? {
        return false, changed, packed, walked;
      }
      walked := files.value;
      changed, packed := RunWalked(files.value);
      ok := true;
    }
  }
}
