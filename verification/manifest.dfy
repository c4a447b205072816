/**
  The version record the plugin keeps in res/VERSION.json and writes to
  VERSION-<major>.<minor>.json and LATEST.json, the rules that build, compare
  and bump it, and the names of the files derived from it.
 */
module Manifest {
  import opened Wrappers
  import opened Numerals
  import opened Paths

  /**
    The JSON object of a version file: 'version' (the minor version),
    'cpp_version' (the major version), 'files' (relative path to hash), and
    the names of any further keys a hand-edited file may carry. Their values
    are left out: any further key already makes the comparison fail.
   */
  datatype VersionFile = VersionFile(
    version: int,
    cppVersion: int,
    files: map<string, string>,
    extraKeys: set<string>)

  /** The file init loads the previous record from and hash_assets rewrites on a change. */
  const CurrentStateFile := "res/VERSION.json"
  const LatestManifest := "LATEST.json"
  const LatestArchive := "LATEST.zip"

  /** crc & 0xffffffff on Python's unbounded integers: the low 32 bits, also of a negative checksum. */
  function Mask32(crc: int): (m: nat)
    ensures m < 0x1_0000_0000
    ensures (crc - m) % 0x1_0000_0000 == 0
    ensures 0 <= crc < 0x1_0000_0000 ==> m == crc
  {
    crc % 0x1_0000_0000
  }

  /**
    crc32(filename): the checksum of the file's bytes, masked to 32 bits and
    written as "%x". The checksum itself (binascii.crc32) is a parameter.
   */
  function Crc32(checksum: Bytes -> int, data: Bytes): (h: string)
    ensures Parse(h, 16) == Some(Mask32(checksum(data)))
    ensures NoLeadingZero(h) && 1 <= |h| <= 8
    ensures forall i :: 0 <= i < |h| ==> '0' <= h[i] <= '9' || 'a' <= h[i] <= 'f'
  {
    var m := Mask32(checksum(data));
    assert Pow16(8) == 0x1_0000_0000;
    HexWidth(m, 8);
    Hex(m)
  }

  /** Two files get the same hash text exactly when their checksums agree in the low 32 bits. */
  lemma Crc32SameIff(checksum: Bytes -> int, a: Bytes, b: Bytes)
    ensures Crc32(checksum, a) == Crc32(checksum, b) <==> Mask32(checksum(a)) == Mask32(checksum(b))
  {
    if Crc32(checksum, a) == Crc32(checksum, b) {
      assert Parse(Crc32(checksum, a), 16) == Some(Mask32(checksum(b)));
    }
  }

  /** make_json(hashitems, major, minor): a record with exactly the three keys. */
  function MakeJson(hashItems: map<string, string>, major: int, minor: int): (r: VersionFile)
    ensures r.version == minor && r.cppVersion == major && r.files == hashItems
    ensures r.extraKeys == {}
  {
    VersionFile(minor, major, hashItems, {})
  }

  /**
    is_same_version: cmp over the whole dictionary, every key and every value,
    with the names in 'files' compared as text. This is the comparison the
    rest of the model uses; IsSameVersionAsWritten is the one Python 2
    performs on the plugin's mixed key types.
   */
  function IsSameVersion(prior: VersionFile, next: VersionFile): (same: bool)
    ensures same <==>
      && prior.version == next.version
      && prior.cppVersion == next.cppVersion
      && prior.files == next.files
      && prior.extraKeys == next.extraKeys
  {
    prior == next
  }

  /** A name made of ASCII characters only. */
  predicate IsAscii(s: string) {
    forall i :: 0 <= i < |s| ==> s[i] as int < 128
  }

  /**
    Python 2's `==` between a key json.load returned (unicode text) and a
    relative name built from os.listdir (a byte string, one character per
    byte): the byte string is decoded as ASCII first, and one that is not
    ASCII equals no text at all.
   */
  predicate TextEqualsBytes(text: string, bytes: string) {
    IsAscii(bytes) && text == bytes
  }

  /** Every name and every hash text in a files dictionary is ASCII. */
  predicate AllAscii(files: map<string, string>) {
    forall k :: k in files ==> IsAscii(k) && IsAscii(files[k])
  }

  /**
    A loaded name (unicode text from json.load) for which the hashed
    dictionary (byte strings) holds no equal name with an equal hash text.
    The dictionary lookup compares with `==`, which never raises.
   */
  predicate LoadedDiffers(loaded: map<string, string>, hashed: map<string, string>, u: string) {
    && u in loaded
    && !exists k :: k in hashed && TextEqualsBytes(u, k) && TextEqualsBytes(loaded[u], hashed[k])
  }

  /** A hashed name for which the loaded dictionary holds no equal name with an equal hash text. */
  predicate HashedDiffers(loaded: map<string, string>, hashed: map<string, string>, k: string) {
    && k in hashed
    && !exists u :: u in loaded && TextEqualsBytes(u, k) && TextEqualsBytes(loaded[u], hashed[k])
  }

  /** Python 2's `==` on the loaded and the hashed files dictionaries (dict_equal). */
  predicate FilesEqual(loaded: map<string, string>, hashed: map<string, string>) {
    && |loaded| == |hashed|
    && forall u :: u in loaded ==> !LoadedDiffers(loaded, hashed, u)
  }

  /** The loaded and the hashed files dictionaries are equal under Python 2 exactly when they are the same and everything in them is ASCII. */
  lemma MixedKeysEqual(loaded: map<string, string>, hashed: map<string, string>)
    ensures FilesEqual(loaded, hashed) <==> loaded == hashed && AllAscii(hashed)
  {
    if FilesEqual(loaded, hashed) {
      forall u | u in loaded
        ensures u in hashed && loaded[u] == hashed[u] && IsAscii(u) && IsAscii(loaded[u])
      {
        assert !LoadedDiffers(loaded, hashed, u);
      }
      SubsetOfSameSize(loaded.Keys, hashed.Keys);
    }
    if loaded == hashed && AllAscii(hashed) {
      forall u | u in loaded
        ensures !LoadedDiffers(loaded, hashed, u)
      {
        assert TextEqualsBytes(u, u) && TextEqualsBytes(loaded[u], hashed[u]);
      }
    }
  }

  /** A subset as large as its superset is the superset. */
  lemma SubsetOfSameSize<T>(a: set<T>, b: set<T>)
    requires a <= b && |a| == |b|
    ensures a == b
  {
    if x :| x in b && x !in a {
      assert a <= b - {x};
      assert |b - {x}| == |b| - 1;
      SubsetSize(a, b - {x});
      assert false;
    }
  }

  lemma {:induction false} SubsetSize<T>(a: set<T>, b: set<T>)
    requires a <= b
    ensures |a| <= |b|
    decreases |a|
  {
    if a != {} {
      var x :| x in a;
      SubsetSize(a - {x}, b - {x});
    }
  }

  /**
    Python 2's `<` on byte strings: the first differing byte decides, and a
    proper prefix comes first. Against an ASCII name it orders unicode text
    the same way, since every non-ASCII character sorts after every ASCII one.
   */
  predicate ByteLess(a: string, b: string)
    decreases |a|
  {
    |b| > 0 && (|a| == 0 || a[0] < b[0] || (a[0] == b[0] && ByteLess(a[1..], b[1..])))
  }

  lemma {:induction false} ByteLessIrreflexive(a: string)
    ensures !ByteLess(a, a)
    decreases |a|
  {
    if |a| > 0 {
      ByteLessIrreflexive(a[1..]);
    }
  }

  lemma {:induction false} ByteLessTransitive(a: string, b: string, c: string)
    requires ByteLess(a, b) && ByteLess(b, c)
    ensures ByteLess(a, c)
    decreases |a|
  {
    if |a| > 0 && a[0] == b[0] && b[0] == c[0] {
      ByteLessTransitive(a[1..], b[1..], c[1..]);
    }
  }

  /** A finite non-empty set of names has a smallest one: the name characterize settles on. */
  lemma {:induction false} SmallestExists(s: set<string>)
    requires s != {}
    ensures exists m :: m in s && forall x :: x in s ==> !ByteLess(x, m)
    decreases |s|
  {
    var y :| y in s;
    if s == {y} {
      ByteLessIrreflexive(y);
    } else {
      SmallestExists(s - {y});
      var m :| m in s - {y} && forall x :: x in s - {y} ==> !ByteLess(x, m);
      if ByteLess(y, m) {
        forall x | x in s
          ensures !ByteLess(x, y)
        {
          if x == y {
            ByteLessIrreflexive(y);
          } else if ByteLess(x, y) {
            ByteLessTransitive(x, y, m);
            assert false;
          }
        }
      }
    }
  }

  /** The hashed name characterize picks from the hashed side: the smallest that differs. */
  predicate SmallestHashedDiff(loaded: map<string, string>, hashed: map<string, string>, m: string) {
    && HashedDiffers(loaded, hashed, m)
    && forall k :: k in hashed && HashedDiffers(loaded, hashed, k) ==> !ByteLess(k, m)
  }

  /** The loaded name characterize picks from the loaded side: the smallest that differs. */
  predicate SmallestLoadedDiff(loaded: map<string, string>, hashed: map<string, string>, m: string) {
    && LoadedDiffers(loaded, hashed, m)
    && forall u :: u in loaded && LoadedDiffers(loaded, hashed, u) ==> !ByteLess(u, m)
  }

  /**
    cmp of the loaded and the hashed files dictionaries raises
    UnicodeDecodeError. With as many entries on both sides and a difference,
    dict_compare takes the smallest differing name on each side and compares
    the two 3-way: `==` first, then `<`. A unicode name against a non-ASCII
    byte string makes `==` false and `<` raise. An ASCII byte string compares
    as text; when it equals the loaded name, the two hash texts are compared
    next, in the same way.
   */
  predicate FilesCmpRaises(loaded: map<string, string>, hashed: map<string, string>) {
    && |loaded| == |hashed|
    && exists m :: m in hashed && SmallestHashedDiff(loaded, hashed, m) &&
         (!IsAscii(m) || (!IsAscii(hashed[m]) && SmallestLoadedDiff(loaded, hashed, m)))
  }

  /** Dictionaries equal under `==` leave cmp nothing to raise on. */
  lemma EqualFilesDoNotRaise(loaded: map<string, string>, hashed: map<string, string>)
    requires FilesEqual(loaded, hashed)
    ensures !FilesCmpRaises(loaded, hashed)
  {
    MixedKeysEqual(loaded, hashed);
    forall m | m in hashed
      ensures !HashedDiffers(loaded, hashed, m)
    {
      assert TextEqualsBytes(m, m) && TextEqualsBytes(loaded[m], hashed[m]);
    }
  }

  /**
    is_same_version as Python 2 evaluates cmp(old, new) == 0 on the record
    json.load returned and the one make_json built, which has exactly the
    three keys: None where cmp raises. Records with a different number of
    keys differ outright. Otherwise the smallest differing key decides, in
    the order cpp_version, files, version; the files dictionaries are first
    compared with `==` and, when that fails, with cmp itself. The text
    json.load decodes a non-ASCII name to is not modelled: the loaded record
    keeps the name's bytes, and no text equals a non-ASCII byte string, so
    the outcome is the same.
   */
  function IsSameVersionAsWritten(loaded: VersionFile, next: VersionFile): (same: Option<bool>)
    requires next.extraKeys == {}
    ensures same == Some(true) <==> IsSameVersion(loaded, next) && AllAscii(next.files)
    ensures same == None <==>
      loaded.extraKeys == {} && loaded.cppVersion == next.cppVersion && FilesCmpRaises(loaded.files, next.files)
  {
    MixedKeysEqual(loaded.files, next.files);
    if loaded.extraKeys != {} || loaded.cppVersion != next.cppVersion then Some(false)
    else if FilesEqual(loaded.files, next.files) then
      EqualFilesDoNotRaise(loaded.files, next.files);
      Some(loaded.version == next.version)
    else if FilesCmpRaises(loaded.files, next.files) then None
    else Some(false)
  }

  /** The record hash_assets keeps: the candidate, with 'version' raised by one when it differs from the old record. */
  function Finalize(prior: VersionFile, candidate: VersionFile): (r: VersionFile)
    ensures r.files == candidate.files && r.cppVersion == candidate.cppVersion && r.extraKeys == candidate.extraKeys
    ensures r.version == candidate.version || r.version == candidate.version + 1
    ensures r.version == candidate.version <==> IsSameVersion(prior, candidate)
  {
    if IsSameVersion(prior, candidate) then candidate
    else candidate.(version := candidate.version + 1)
  }

  /**
    The record hash_assets produces from the hashed items and the major
    version in force. The minor version moves by exactly zero or one, and by
    zero exactly when nothing differs: same files, same major version and no
    further key in the old file. The files and the major version are the ones
    hashed and in force.
   */
  function NextVersion(prior: VersionFile, items: map<string, string>, cppVersion: int): (r: VersionFile)
    ensures r.cppVersion == cppVersion && r.files == items && r.extraKeys == {}
    ensures r.version == prior.version || r.version == prior.version + 1
    ensures r.version == prior.version <==>
      items == prior.files && cppVersion == prior.cppVersion && prior.extraKeys == {}
  {
    Finalize(prior, MakeJson(items, cppVersion, prior.version))
  }

  /** The same record with Python 2's comparison of the loaded and the hashed names: None where hash_assets raises. */
  function NextVersionAsWritten(loaded: VersionFile, items: map<string, string>, cppVersion: int): (r: Option<VersionFile>)
    ensures r == None <==>
      loaded.extraKeys == {} && cppVersion == loaded.cppVersion && FilesCmpRaises(loaded.files, items)
    ensures r.Some? ==> r.value.cppVersion == cppVersion && r.value.files == items && r.value.extraKeys == {}
    ensures r.Some? ==>
      (r.value.version == loaded.version <==>
         items == loaded.files && cppVersion == loaded.cppVersion && loaded.extraKeys == {} && AllAscii(items))
    ensures r.Some? && r.value.version != loaded.version ==> r.value.version == loaded.version + 1
  {
    var candidate := MakeJson(items, cppVersion, loaded.version);
    match IsSameVersionAsWritten(loaded, candidate)
    case None => None
    case Some(same) => Some(if same then candidate else candidate.(version := candidate.version + 1))
  }

  /** With ASCII names and hash texts only, Python 2's comparison yields the same record as the text comparison, and never raises. */
  lemma AsWrittenAgreesOnAscii(loaded: VersionFile, items: map<string, string>, cppVersion: int)
    requires AllAscii(items)
    ensures NextVersionAsWritten(loaded, items, cppVersion) == Some(NextVersion(loaded, items, cppVersion))
  {
  }

  /**
    As written, a tree holding a non-ASCII name never keeps its version:
    hash_assets either raises or bumps, and it bumps whenever the number of
    names differs from the old record's.
   */
  lemma NonAsciiNameNeverKeepsVersion(loaded: VersionFile, items: map<string, string>, cppVersion: int)
    requires exists k :: k in items && !IsAscii(k)
    ensures var r := NextVersionAsWritten(loaded, items, cppVersion);
      && (r.Some? ==> r.value.version == loaded.version + 1)
      && (|loaded.files| != |items| ==> r.Some?)
  {
  }

  /**
    With as many names as the old record, no further key and the same major
    version, a difference only in non-ASCII names makes hash_assets raise,
    whichever of them characterize settles on.
   */
  lemma NonAsciiDifferencesRaise(loaded: VersionFile, items: map<string, string>, cppVersion: int)
    requires loaded.extraKeys == {} && cppVersion == loaded.cppVersion && |loaded.files| == |items|
    requires exists k :: HashedDiffers(loaded.files, items, k)
    requires forall k :: HashedDiffers(loaded.files, items, k) ==> !IsAscii(k)
    ensures NextVersionAsWritten(loaded, items, cppVersion) == None
  {
    var diff := set k | k in items && HashedDiffers(loaded.files, items, k);
    var k0 :| HashedDiffers(loaded.files, items, k0);
    assert k0 in diff;
    SmallestExists(diff);
    var m :| m in diff && forall x :: x in diff ==> !ByteLess(x, m);
    assert SmallestHashedDiff(loaded.files, items, m);
    assert FilesCmpRaises(loaded.files, items);
  }

  /**
    Hashing an unchanged tree against the record it produced: with ASCII
    names and hash texts the record comes back as it was; with anything else
    the comparison raises, and every later run raises again.
   */
  lemma RerunAsWritten(first: VersionFile)
    requires first.extraKeys == {}
    ensures NextVersionAsWritten(first, first.files, first.cppVersion) ==
      if AllAscii(first.files) then Some(first) else None
  {
    var files := first.files;
    if !AllAscii(files) {
      var diff := set k | k in files && HashedDiffers(files, files, k);
      var k0 :| k0 in files && !(IsAscii(k0) && IsAscii(files[k0]));
      assert k0 in diff;
      SmallestExists(diff);
      var m :| m in diff && forall x :: x in diff ==> !ByteLess(x, m);
      assert SmallestHashedDiff(files, files, m);
      if IsAscii(m) {
        assert SmallestLoadedDiff(files, files, m) by {
          forall u | u in files && LoadedDiffers(files, files, u)
            ensures !ByteLess(u, m)
          {
            assert u in diff;
          }
        }
      }
      assert FilesCmpRaises(files, files);
    }
  }

  /** "café.png" as the byte string os.listdir returns: its UTF-8 bytes, one character each. */
  const CafeName := "caf\U{c3}\U{a9}.png"

  /**
    The rerun that shows it: a tree holding "café.png" is hashed into
    version 1, and hashing the same tree against that record raises.
   */
  lemma RerunOfNonAsciiNameRaises()
    ensures var items := map[CafeName := "7a3f5c21"];
      var first := NextVersionAsWritten(VersionFile(0, 1, map[], {}), items, 1);
      && first == Some(VersionFile(1, 1, items, {}))
      && NextVersionAsWritten(first.value, items, 1) == None
  {
    var items := map[CafeName := "7a3f5c21"];
    assert !IsAscii(CafeName) by {
      assert CafeName[3] as int == 0xc3;
    }
    assert !AllAscii(items);
    RerunAsWritten(VersionFile(1, 1, items, {}));
  }

  /** Renaming "x.png" to "café.png" with its content unchanged also makes hash_assets raise. */
  lemma RenameToNonAsciiNameRaises()
    ensures NextVersionAsWritten(
      VersionFile(1, 1, map["x.png" := "7a3f5c21"], {}), map[CafeName := "7a3f5c21"], 1) == None
  {
    var loaded := VersionFile(1, 1, map["x.png" := "7a3f5c21"], {});
    var items := map[CafeName := "7a3f5c21"];
    assert !IsAscii(CafeName) by {
      assert CafeName[3] as int == 0xc3;
    }
    assert HashedDiffers(loaded.files, items, CafeName);
    NonAsciiDifferencesRaise(loaded, items, 1);
  }

  /**
    A run whose files and major version match the old record, which has no
    further key, changes nothing. Like SecondRunIsNoOp, this holds of the text
    comparison; as written, a non-ASCII name makes the comparison raise
    instead (RerunAsWritten).
   */
  lemma NoChangeIsIdempotent(prior: VersionFile, items: map<string, string>, cppVersion: int)
    requires items == prior.files && cppVersion == prior.cppVersion && prior.extraKeys == {}
    ensures NextVersion(prior, items, cppVersion) == prior
  {
  }

  /**
    Repeating a run on the record it wrote, with the same files and major
    version, changes nothing. This holds of the text comparison; under
    Python 2's comparison it holds only for ASCII names and hash texts, and
    otherwise the rerun raises (RerunAsWritten).
   */
  lemma SecondRunIsNoOp(prior: VersionFile, items: map<string, string>, cppVersion: int)
    ensures var first := NextVersion(prior, items, cppVersion);
      NextVersion(first, items, cppVersion) == first
  {
  }

  /**
    init: options.cpp_version when it is given and truthy; otherwise (absent,
    or an explicit 0) the old record's major version.
   */
  function CppVersionFor(option: Option<int>, prior: VersionFile): (major: int)
    ensures option.Some? && option.value != 0 ==> major == option.value
    ensures option == None || option == Some(0) ==> major == prior.cppVersion
  {
    match option
    case Some(v) => if v != 0 then v else prior.cppVersion
    case None => prior.cppVersion
  }

  /** The index of the first dot of s, or |s| when it has none. */
  function IndexOfDot(s: string): (i: nat)
    ensures i <= |s| && (i < |s| ==> s[i] == '.')
    ensures forall k :: 0 <= k < i ==> s[k] != '.'
  {
    if |s| == 0 || s[0] == '.' then 0 else 1 + IndexOfDot(s[1..])
  }

  /** The first dot of a + "." + b, when a has none, is the one between them. */
  lemma DotAfter(a: string, b: string)
    requires forall k :: 0 <= k < |a| ==> a[k] != '.'
    ensures IndexOfDot(a + "." + b) == |a|
  {
    var s := a + "." + b;
    assert s[|a|] == '.';
    assert forall k :: 0 <= k < |a| ==> s[k] == a[k];
  }

  /**
    Reads back a version-stamped name: the text between prefix and suffix,
    split at its first dot, as two "%d" numbers; None for any other name.
   */
  function Unstamp(prefix: string, suffix: string, name: string): Option<(int, int)>
  {
    if |name| < |prefix| + |suffix| || name[..|prefix|] != prefix || name[|name| - |suffix|..] != suffix then None
    else SplitVersion(name[|prefix|..|name| - |suffix|])
  }

  /** "<major>.<minor>" read as two "%d" numbers. */
  function SplitVersion(mid: string): Option<(int, int)>
  {
    var d := IndexOfDot(mid);
    if d == |mid| then None
    else
      var major, minor := ParseDecimal(mid[..d]), ParseDecimal(mid[d + 1..]);
      if major.Some? && minor.Some? then Some((major.value, minor.value)) else None
  }

  /** prefix + '%d.%d' % (major, minor) + suffix. */
  function Stamp(prefix: string, major: int, minor: int, suffix: string): string
  {
    var mid := Decimal(major) + "." + Decimal(minor);
    prefix + mid + suffix
  }

  /** A stamped name is longer than its prefix and suffix together, carries both, and reads back to its pair. */
  lemma StampReadsBack(prefix: string, major: int, minor: int, suffix: string)
    ensures var name := Stamp(prefix, major, minor, suffix);
      && |prefix| + |suffix| < |name|
      && name[..|prefix|] == prefix && name[|name| - |suffix|..] == suffix
      && Unstamp(prefix, suffix, name) == Some((major, minor))
  {
    var mid := Decimal(major) + "." + Decimal(minor);
    SplitStamp(major, minor);
    StampParts(prefix, mid, suffix);
  }

  /** Unstamp takes prefix and suffix off again. */
  lemma StampParts(prefix: string, mid: string, suffix: string)
    ensures var name := prefix + mid + suffix;
      && name[..|prefix|] == prefix && name[|name| - |suffix|..] == suffix
      && Unstamp(prefix, suffix, name) == SplitVersion(mid)
  {
    var name := prefix + mid + suffix;
    assert name[..|prefix|] == prefix;
    assert name[|name| - |suffix|..] == suffix;
    assert name[|prefix|..|name| - |suffix|] == mid;
  }

  /** The middle of a stamped name reads back to its pair. */
  lemma SplitStamp(major: int, minor: int)
    ensures SplitVersion(Decimal(major) + "." + Decimal(minor)) == Some((major, minor))
  {
    var a, b := Decimal(major), Decimal(minor);
    var mid := a + "." + b;
    DotAfter(a, b);
    assert mid[..|a|] == a && mid[|a| + 1..] == b;
  }

  /** 'VERSION-%d.%d.json' % (cpp_version, version) */
  function ManifestFileName(m: VersionFile): string
  {
    Stamp("VERSION-", m.cppVersion, m.version, ".json")
  }

  /** The version-stamped manifest name reads back to the record's version pair. */
  lemma ManifestFileNameReadsBack(m: VersionFile)
    ensures Unstamp("VERSION-", ".json", ManifestFileName(m)) == Some((m.cppVersion, m.version))
  {
    StampReadsBack("VERSION-", m.cppVersion, m.version, ".json");
  }

  /** 'PATCH-%d.%s.zip' % (cpp_version, version), where "%s" of an integer is its "%d". */
  function ZipName(m: VersionFile): string
  {
    Stamp("PATCH-", m.cppVersion, m.version, ".zip")
  }

  /** The archive name reads back to the record's version pair. */
  lemma ZipNameReadsBack(m: VersionFile)
    ensures Unstamp("PATCH-", ".zip", ZipName(m)) == Some((m.cppVersion, m.version))
  {
    StampReadsBack("PATCH-", m.cppVersion, m.version, ".zip");
  }

  /** The version-stamped names never coincide with the fixed ones: copying to LATEST never overwrites them. */
  lemma StampedNamesAreNotFixed(m: VersionFile)
    ensures ZipName(m) != LatestArchive
    ensures ManifestFileName(m) != LatestManifest && ManifestFileName(m) != CurrentStateFile
  {
    StampReadsBack("PATCH-", m.cppVersion, m.version, ".zip");
    StampReadsBack("VERSION-", m.cppVersion, m.version, ".json");
    assert ZipName(m)[..6] == "PATCH-";
    assert ZipName(m)[0] == 'P' && LatestArchive[0] == 'L';
    assert ManifestFileName(m)[..8] == "VERSION-";
    assert ManifestFileName(m)[0] == 'V' && LatestManifest[0] == 'L' && CurrentStateFile[0] == 'r';
  }

  /** Distinct version pairs never share a version-stamped manifest name. */
  lemma ManifestFileNameInjective(a: VersionFile, b: VersionFile)
    requires ManifestFileName(a) == ManifestFileName(b)
    ensures a.cppVersion == b.cppVersion && a.version == b.version
  {
    ManifestFileNameReadsBack(a);
    ManifestFileNameReadsBack(b);
  }

  /** Distinct version pairs never share an archive name. */
  lemma ZipNameInjective(a: VersionFile, b: VersionFile)
    requires ZipName(a) == ZipName(b)
    ensures a.cppVersion == b.cppVersion && a.version == b.version
  {
    ZipNameReadsBack(a);
    ZipNameReadsBack(b);
  }
}
