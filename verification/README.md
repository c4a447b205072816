# cocos "hash" plugin, modelled in Dafny

The `cocos hash` plugin maintains `res/VERSION.json`: a record of a major
version (`cpp_version`), a minor version (`version`) and, for every resource
and script file below the configured source roots, the unpadded lowercase
hexadecimal CRC-32 of its bytes, keyed by the file's path relative to its root.
A run walks the roots and hashes the files into a new record. When the record
differs from the old one, the run bumps the minor version. It writes
`VERSION-<major>.<minor>.json` and `LATEST.json` on every run, and
`res/VERSION.json` only when something changed. Unless `--no-pack` is given,
it then builds a patch:
- it copies every gathered file into `.assets/`;
- the script compiler writes an encrypted `x.luac` next to every `x.lua`, and
  that sibling is moved onto the script's name;
- it zips every copied name, in copy order, into
  `PATCH-<major>.<minor>.zip`, and copies the archive to `LATEST.zip`.

The model is split by concern:

| file | module | what it holds |
|---|---|---|
| `wrappers.dfy` | `Wrappers` | `Option` |
| `numerals.dfy` | `Numerals` | positional digits, `"%x"` and `"%d"`, their parsers and round trips |
| `paths.dfy` | `Paths` | paths as component sequences, file systems as maps from path to bytes, `os.listdir`, `os.path.relpath`, the exclusion filter, `.lua`/`.luac` names |
| `manifest.dfy` | `Manifest` | the version record, `crc32`, `make_json`, `is_same_version`, the minor-version bump, the `-c` default, the version-stamped file names |
| `merge.dfy` | `Merge` | the `files` dictionary as visits in order; `items[rel] = crc32(file)` as a last-writer-wins overlay |
| `staging.dfy` | `Staging` | the `.assets/` tree as an object and `replace_lua_with_luac` over it, in place |
| `collect.dfy` | `Collect` | `deep_iterate_dir` |
| `pack.dfy` | `Pack` | the staging tree after the copy loop, after the compiler, after the substitution; the archive |
| `sources.dfy` | `Sources` | the loop of `run` that fills `files`, and what the walks gather |
| `plugin.dfy` | `HashPlugin` | the plugin object: `init`, `hash_assets`, `encrypt`, `pack_assets`, `run` |

Foreign code is passed in as parameters:
- `binascii.crc32` is a function `checksum: Bytes -> int`. Its result may be
  negative, as in Python 2, and the model masks it explicitly.
- What `cocos luacompile --disable-compile -e` writes for a script's bytes is
  a function `luac: Bytes -> Bytes`.
- The project's files are a map `fs` from path to bytes.
- The JSON files in the working directory are a map from file name to record.
- The zip files in the working directory are a map from file name to their
  list of entries.

`os.listdir` returns entries in no fixed order, so the walks pick their next
entry nondeterministically. Their contracts therefore speak of the set of
files reached, of duplicates and of what the list already held.

Three behaviours of the code are easy to miss, and the model keeps them:
- The exclusion filter drops a file when ".DS_Store" or "VERSION.json"
  occurs anywhere in its full path, directory names included, and not only
  when the file is named so (`plugins/plugin_hash.py:103`).
- Hashing is not independent of order. Two roots that hold the same relative
  path write the same key, and the later write wins
  (`plugins/plugin_hash.py:110-113`). The model states that outcome for the
  order in which `files` is iterated.
- `pack_assets` does not always succeed. When a root holds both `x.lua`
  and `x.luac`, both names are copied. The substitution then removes
  `x.luac`, and `z.write` fails on it (`plugins/plugin_hash.py:162-163`).
  The model has this failure path and states exactly when it is taken.

`hash_assets` compares the old and the new record with `cmp`. Under Python 2
the old record's names are unicode text and the new record's are byte
strings. A name that is not ASCII never compares equal, and when `cmp` has to
order such a name against a loaded one it raises `UnicodeDecodeError`, so a
rerun over an unchanged tree with such a name stops before writing anything
(see Findings).
The model's `hash_assets` compares names as text, which is what the code
evidently intends; the comparison as Python 2 performs it is modelled beside
it.

## Model

| member | source | states |
|---|---|---|
| Numerals.Digits | plugins/plugin_hash.py:36 | the unpadded digits of n: digits only, no leading zero, and they denote n |
| Numerals.Parse | plugins/plugin_hash.py:36 | a string parses exactly when it is a digit string of the base |
| Numerals.Hex | plugins/plugin_hash.py:36 | "%x" of n parses back to n, has no leading zero and uses only 0-9 and a-f |
| Numerals.HexRoundTrip | plugins/plugin_hash.py:36 | every unpadded hexadecimal string is "%x" of the value it denotes (the other half of the round trip) |
| Numerals.DigitsOfValue | plugins/plugin_hash.py:36 | re-rendering the value of an unpadded digit string gives back that string |
| Numerals.HexWidth | plugins/plugin_hash.py:36 | a value below 16^w has at most w hexadecimal digits |
| Numerals.ZeroValueIsAllZeros | plugins/plugin_hash.py:36 | a digit string worth zero is made of zeros only |
| Numerals.Decimal | plugins/plugin_hash.py:120 | "%d" of any integer, sign included, parses back to that integer |
| Numerals.DecimalInjective | plugins/plugin_hash.py:120 | different integers have different "%d" texts |
| Manifest.Mask32 | plugins/plugin_hash.py:36 | crc & 0xffffffff lies in [0, 2^32), agrees with crc modulo 2^32, and is crc itself when crc already fits |
| Manifest.Crc32 | plugins/plugin_hash.py:32-36 | the text parses as hexadecimal to the masked checksum of the bytes, has no leading zero, and has 1 to 8 lowercase digits |
| Manifest.Crc32SameIff | plugins/plugin_hash.py:32-36 | two files get the same hash text exactly when their checksums agree in the low 32 bits |
| Manifest.MakeJson | plugins/plugin_hash.py:38-43 | the record holds minor as version, major as cpp_version, the items as files, and no other key |
| Manifest.IsSameVersion | plugins/plugin_hash.py:45-46 | true exactly when version, cpp_version, files and every further key agree |
| Manifest.MixedKeysEqual | plugins/plugin_hash.py:45-46 | Python 2's `==` on the loaded (unicode) and the hashed (byte-string) files dictionaries holds exactly when they are the same dictionary and every name and hash text in it is ASCII |
| Manifest.IsSameVersionAsWritten | plugins/plugin_hash.py:45-46 | cmp(old, new) == 0 as Python 2 evaluates it on the loaded record and the one make_json built: true exactly when the records agree and every hashed name and hash text is ASCII; it raises exactly when there are no further keys, the major versions agree, and the files comparison raises (the smallest differing hashed name is non-ASCII, or is ASCII with a non-ASCII hash text and is also the smallest differing loaded name) |
| Manifest.EqualFilesDoNotRaise | plugins/plugin_hash.py:45-46 | files dictionaries that are equal under `==` never reach the raising comparison |
| Manifest.SmallestExists | plugins/plugin_hash.py:45-46 | every non-empty set of names has a smallest one in Python 2's byte-string order, so dict_compare always has a differing name to settle on |
| Manifest.Finalize | plugins/plugin_hash.py:117-119 | only 'version' may change; it is raised by exactly one when the candidate differs from the old record, and kept otherwise |
| Manifest.NextVersion | plugins/plugin_hash.py:115-119 | the new record holds the hashed items and the major version in force and no other key. Its minor version is the old one or one more, and stays the same exactly when the files, the major version and the key set equal the old record's |
| Manifest.NextVersionAsWritten | plugins/plugin_hash.py:115-119 | the same record under Python 2's comparison: no record exactly when the comparison raises; otherwise the minor version stays the same exactly when the records agree and every name and hash text is ASCII, and else moves by one |
| Manifest.AsWrittenAgreesOnAscii | plugins/plugin_hash.py:45-46 | with ASCII names and hash texts only, Python 2's comparison never raises and yields the same record as the text comparison |
| Manifest.NonAsciiNameNeverKeepsVersion | plugins/plugin_hash.py:115-119 | as written, hashing a tree with a non-ASCII name either raises or raises the minor version by one, and it bumps whenever the number of names differs from the old record's |
| Manifest.NonAsciiDifferencesRaise | plugins/plugin_hash.py:115-117 | as written, with as many names as the old record, no further key and the same major version, a difference only in non-ASCII names makes hash_assets raise |
| Manifest.RerunAsWritten | plugins/plugin_hash.py:115-119 | as written, hashing an unchanged tree against the record it produced gives that record back when every name and hash text is ASCII, and raises otherwise |
| Manifest.RerunOfNonAsciiNameRaises | plugins/plugin_hash.py:115-119 | as written, hashing a tree holding "café.png" gives version 1, and hashing the same tree against that record raises |
| Manifest.RenameToNonAsciiNameRaises | plugins/plugin_hash.py:115-117 | as written, renaming "x.png" to "café.png" with its content unchanged makes hash_assets raise |
| Manifest.NoChangeIsIdempotent | plugins/plugin_hash.py:115-119 | when nothing changed, the new record is the old record (names compared as text; as written, a non-ASCII name raises instead) |
| Manifest.SecondRunIsNoOp | plugins/plugin_hash.py:115-119 | a second run over the same files and major version leaves the record it wrote unchanged (names compared as text; as written, a non-ASCII name raises instead, see Findings) |
| Manifest.CppVersionFor | plugins/plugin_hash.py:86 | the -c value when it is given and non-zero; the old record's cpp_version when it is absent or 0 |
| Manifest.StampedNamesAreNotFixed | plugins/plugin_hash.py:120-129 | VERSION-…json is never LATEST.json or res/VERSION.json, and PATCH-…zip is never LATEST.zip |
| Manifest.StampReadsBack | plugins/plugin_hash.py:120 | prefix + "%d.%d" + suffix is longer than prefix and suffix, starts with prefix, ends with suffix, and reads back to the two numbers |
| Manifest.ManifestFileNameReadsBack | plugins/plugin_hash.py:120 | VERSION-%d.%d.json of a record reads back to its major and minor version |
| Manifest.ZipNameReadsBack | plugins/plugin_hash.py:158 | PATCH-%d.%s.zip of a record reads back to its major and minor version |
| Manifest.ManifestFileNameInjective | plugins/plugin_hash.py:120 | two records with the same VERSION-%d.%d.json name have the same major and minor versions |
| Manifest.ZipNameInjective | plugins/plugin_hash.py:158 | two records with the same PATCH-%d.%s.zip name have the same major and minor versions |
| Paths.Listing | plugins/plugin_hash.py:98 | every file below dir is reached through one of the listed names, and every listed name leads to some file below dir |
| Paths.IsDirIffListed | plugins/plugin_hash.py:100 | os.path.isdir holds exactly when the directory lists some entry, and never for a regular file of a real file system |
| Paths.ExcludedByComponent | plugins/plugin_hash.py:103 | the filter drops a file exactly when some component of its path, a directory or the file's own name, contains ".DS_Store" or "VERSION.json" |
| Paths.LuaExtensionIsSplitext | plugins/plugin_hash.py:55-56 | a name counts as a script exactly when os.path.splitext gives it the extension ".lua"; ".lua" alone has none |
| Paths.RelPath | plugins/plugin_hash.py:112 | the relative path is non-empty, and root joined with it is the file |
| Paths.Luac | plugins/plugin_hash.py:58 | full_path + 'c': same directory, last component with "c" appended |
| Paths.LuacIsNotLua | plugins/plugin_hash.py:55-58 | a script's compiled sibling is not itself a script and differs from it |
| Paths.LuacInjective | plugins/plugin_hash.py:58 | different scripts have different siblings |
| Paths.LuacBelow | plugins/plugin_hash.py:58 | a script's sibling lies in the same directory tree |
| Paths.UnluacLuac | plugins/plugin_hash.py:58 | dropping the trailing "c" gives back the script's name |
| Paths.PathStringSuffix | plugins/plugin_hash.py:103 | the relative path's text is a suffix of the full path's text |
| Paths.ContainsFromSuffix | plugins/plugin_hash.py:103 | a marker found in a suffix is found in the whole string |
| Paths.NodesShrink | plugins/plugin_hash.py:100-101 | recursion into a subdirectory descends to a strictly smaller subtree |
| Paths.BelowChild | plugins/plugin_hash.py:99 | a path below dir/n is below dir and goes through n |
| Merge.RootVisits | plugins/plugin_hash.py:111 | the visits of one root are its files in list order, each paired with the root |
| Merge.VisitsSoFar | plugins/plugin_hash.py:110-111 | the visits of the nested loops so far are valid, and one more inner step appends exactly the next file |
| Merge.VisitsFromFileSystem | plugins/plugin_hash.py:110-111 | listed files of fs give visits that name files of fs below their roots |
| Merge.VisitsMembership | plugins/plugin_hash.py:110-111 | a visit occurs exactly when its file occurs in the list of its root |
| Merge.OverlayStep | plugins/plugin_hash.py:113 | one more assignment updates the dictionary at that key |
| Merge.OverlayKeys | plugins/plugin_hash.py:113 | the dictionary's keys are exactly the keys assigned |
| Merge.OverlayLastWins | plugins/plugin_hash.py:113 | a key holds the value of its last assignment |
| Merge.HashAssignments | plugins/plugin_hash.py:110-113 | one assignment per visit, in order: the relative name and the CRC text of the file |
| Merge.ItemsKeys | plugins/plugin_hash.py:110-113 | items has exactly one key per relative name visited |
| Merge.LastWriterWins | plugins/plugin_hash.py:110-113 | when two roots hold the same relative name, items holds the CRC of the file visited last |
| Merge.ItemsStep | plugins/plugin_hash.py:112-113 | one more visit updates items at that file's relative name with its CRC |
| Merge.KeyNotExcluded | plugins/plugin_hash.py:103-112 | the relative name of a file that passed the filter contains neither marker |
| Merge.NoExcludedKey | plugins/plugin_hash.py:103-113 | no key of items names ".DS_Store" or "VERSION.json" |
| Collect.DeepIterateDir | plugins/plugin_hash.py:97-105 | it fails exactly when rootDir is a regular file, as os.listdir raises then. Otherwise the list keeps its prefix and gains each file below rootDir whose path names neither marker, exactly once, and nothing else |
| Collect.WalkedChild | plugins/plugin_hash.py:100-101 | recursing into subdirectory n appends exactly the files reached through n |
| Collect.DistinctAppend | plugins/plugin_hash.py:105 | joining two duplicate-free lists with no common element stays duplicate-free |
| Collect.StepIntoDir | plugins/plugin_hash.py:100-101 | the files reached through a subdirectory n are those below it, disjoint from those reached before |
| Collect.StepOverFile | plugins/plugin_hash.py:102-105 | through an entry that is not a directory, only that file itself is reached, when it exists and passes the filter |
| Collect.AllEntries | plugins/plugin_hash.py:98 | after every listed entry, everything below the root has been reached |
| Sources.Assign | plugins/plugin_hash.py:181 | files[root] = list keeps the keys distinct and adds root. A root already present keeps its place and takes the new list; nothing else changes |
| Sources.FirstOccurrences | plugins/plugin_hash.py:179-181 | the keys of a dictionary filled from a list are exactly the list's elements |
| Sources.AssignKeepsOrder | plugins/plugin_hash.py:181 | assigning the next root keeps the dictionary's keys in first-occurrence order of the roots seen, and its key set the roots seen |
| Sources.AssignWalked | plugins/plugin_hash.py:181-182 | assigning the walk of the next root keeps every list the duplicate-free walk of its key, and the keys distinct and in first-occurrence order |
| Sources.WalkRoot | plugins/plugin_hash.py:181-182 | one turn of the loop fails exactly when the root is a regular file; otherwise it extends the walked dictionary by that root |
| Sources.WalkRoots | plugins/plugin_hash.py:179-182 | the loop fails exactly when some configured root is a regular file. Otherwise it yields one entry per distinct root, in first-occurrence order of the configured roots, each list naming exactly once each file the walk of its root reaches |
| Sources.WalkedFromFileSystem | plugins/plugin_hash.py:179-182 | walked lists name files of fs below their own roots |
| Sources.WalkedVisit | plugins/plugin_hash.py:179-182 | a visit occurs exactly when its root is configured and its file is gathered below that root |
| Sources.WalkedRels | plugins/plugin_hash.py:110-112 | the relative paths visited are exactly those of the gathered files, and no visited file is excluded |
| Sources.NamesOfRels | plugins/plugin_hash.py:112 | the visits' string keys are the strings of their relative paths |
| Sources.WalkedNames | plugins/plugin_hash.py:107-113 | the hashed record has one key per relative name of a gathered file, and none with either marker |
| Sources.ClashFromNames | plugins/plugin_hash.py:146-152 | a script/sibling pair among the gathered names is a pair among the copied names |
| Sources.LastVisitOf | plugins/plugin_hash.py:110-113 | every visited name has a last visit, after which no visit writes the same name |
| Sources.WalkedValues | plugins/plugin_hash.py:107-113 | under each name of the hashed items lies the CRC of a gathered, unexcluded file below one of the roots whose relative path is that name |
| Sources.ClashFromVisits | plugins/plugin_hash.py:146-152 | a script/sibling pair among the copied names is a pair among the gathered names |
| Staging.Tree.constructor | plugins/plugin_hash.py:143-145 | a fresh tree holds the given files |
| Staging.Siblings | plugins/plugin_hash.py:58 | the siblings of scripts are never scripts |
| Staging.Substituted | plugins/plugin_hash.py:48-58 | each script below dir holds the former bytes of its sibling, and the sibling is gone. Every other file is unchanged. The keys are the old keys minus the siblings |
| Staging.ApplyCompose | plugins/plugin_hash.py:50-58 | substituting one set of scripts and then a disjoint set is substituting both at once |
| Staging.ScriptsUnmoved | plugins/plugin_hash.py:50-58 | substituting some scripts leaves the set of scripts below any directory unchanged |
| Staging.ScriptsVia | plugins/plugin_hash.py:50-53 | one more entry n adds exactly the scripts below dir/n |
| Staging.ScriptsOfChild | plugins/plugin_hash.py:52-53 | the scripts reached through subdirectory n are the scripts below it, none of them substituted yet |
| Staging.StepIntoDir | plugins/plugin_hash.py:52-53 | recursing into subdirectory n substitutes exactly the scripts below it |
| Staging.OnlyTheEntry | plugins/plugin_hash.py:54-58 | a script reached through an entry that is not a directory is the entry itself |
| Staging.MoveIsApply | plugins/plugin_hash.py:57-58 | os.remove followed by shutil.move of the sibling substitutes exactly that script |
| Staging.ScriptEntry | plugins/plugin_hash.py:54-56 | a .lua file entry adds exactly itself to the scripts done |
| Staging.StepOverScript | plugins/plugin_hash.py:54-58 | after the move, the tree is the substitution of one more script |
| Staging.StepOverOther | plugins/plugin_hash.py:54-56 | an entry that is neither a directory nor a .lua file substitutes nothing |
| Staging.AllEntriesDone | plugins/plugin_hash.py:49-50 | after every listed entry, every script below dir is done |
| Staging.ReplaceLuaWithLuac | plugins/plugin_hash.py:48-58 | the tree afterwards is Substituted of the tree before: only the scripts below work_dir and their siblings change |
| Staging.ReplaceEntry | plugins/plugin_hash.py:51-58 | handling entry n substitutes exactly the scripts reached through n |
| Pack.StageAssignments | plugins/plugin_hash.py:146-152 | one copy per visit, in order: the relative path and the file's bytes |
| Pack.Copied | plugins/plugin_hash.py:146-152 | copied holds the relative path of every visit, in order, duplicates included |
| Pack.StagedKeys | plugins/plugin_hash.py:146-151 | .assets/ holds exactly the copied names |
| Pack.StagedStep | plugins/plugin_hash.py:149-152 | one more copy overwrites .assets/<rel> with the file and appends rel to copied |
| Pack.StagedLastWriter | plugins/plugin_hash.py:146-151 | a copied name holds the bytes of the last file copied there |
| Pack.Scripts | plugins/plugin_hash.py:55-56 | the scripts are exactly the names with the .lua extension |
| Pack.ScriptsAtTop | plugins/plugin_hash.py:156 | the scripts below .assets/ are all its scripts |
| Pack.Compiled | plugins/plugin_hash.py:132-136 | the compiler adds the sibling of every script, holding luac of the script's bytes, and leaves every other name unchanged |
| Pack.CompiledScripts | plugins/plugin_hash.py:132-137 | the compiler adds no script, so every script has its sibling when the substitution runs |
| Pack.FinalKeys | plugins/plugin_hash.py:132-137 | after encrypt, the siblings of the scripts are gone and every other staged name remains |
| Pack.FinalScripts | plugins/plugin_hash.py:132-137 | after encrypt, every script holds luac of its own bytes |
| Pack.FinalOthers | plugins/plugin_hash.py:132-137 | after encrypt, every remaining file that is not a script is as copied |
| Pack.FinalContents | plugins/plugin_hash.py:132-137 | the three facts above together |
| Pack.FinalEntry | plugins/plugin_hash.py:132-137 | a staged name that survives holds luac of its bytes when it is a script, else its bytes |
| Pack.Zip | plugins/plugin_hash.py:160-163 | the archive exists exactly when every copied name is present. It then has one entry per copied name, in order, named by it and holding that file's bytes |
| Pack.ClashLosesName | plugins/plugin_hash.py:155-163 | a copied name that is the sibling of a copied script is gone when z.write reaches it |
| Pack.NoClashKeepsNames | plugins/plugin_hash.py:155-163 | without such a pair, every copied name is still present |
| Pack.CopiedSurvive | plugins/plugin_hash.py:155-163 | every copied name survives encrypt exactly when no copied name is the sibling of a copied script |
| Pack.PackSucceedsIff | plugins/plugin_hash.py:139-163 | the archive is written exactly when no copied name is the sibling of a copied script |
| Pack.ArchiveNames | plugins/plugin_hash.py:162-163 | the archive has one entry per copied file, in copy order, each named by its relative path |
| Pack.ArchiveEntry | plugins/plugin_hash.py:146-163 | the entry for visit i holds the bytes of the last visited file with the same relative path, compiled when it is a script |
| Pack.CompiledWellFormed | plugins/plugin_hash.py:132-137 | a stageable layout makes the compiled tree a real directory tree |
| HashPlugin.HashRoot | plugins/plugin_hash.py:111-113 | the inner loop leaves items equal to the overlay of every visit so far |
| HashPlugin.HashItems | plugins/plugin_hash.py:109-113 | items is the last-writer-wins overlay of (relative name, CRC) over all visits in order |
| HashPlugin.StageRoot | plugins/plugin_hash.py:146-152 | the inner copy loop leaves .assets/ and copied as the staging of every visit so far |
| HashPlugin.StageFiles | plugins/plugin_hash.py:141-152 | .assets/ is emptied, then holds the last-copied bytes of every copied name; copied lists every visit's relative path in order |
| HashPlugin.Encrypt | plugins/plugin_hash.py:132-137 | the staging tree afterwards is Final of the tree before: the compiler's output for every script, under the script's own name |
| HashPlugin.ZipEntries | plugins/plugin_hash.py:159-163 | the loop over copied builds exactly Zip of the tree and copied; it fails at a missing name |
| HashPlugin.WalkedPackable | plugins/plugin_hash.py:179-188 | for walked lists, .assets/ holds the gathered relative names, and packing succeeds exactly when no gathered name is the sibling of a gathered script |
| HashPlugin.WalkedRecord | plugins/plugin_hash.py:179-184 | for walked lists, the new record has the major version in force, one key per gathered relative name and none with either marker. It is bumped exactly when it differs from the old record |
| HashPlugin.Plugin.Init | plugins/plugin_hash.py:80-87 | the old record is res/VERSION.json's and no new record exists yet. The options are taken over, and cpp_version falls back to the old record's when -c is absent or 0 |
| HashPlugin.Plugin.HashAssets | plugins/plugin_hash.py:107-130 | the new record is NextVersion of the old record and the hashed items. VERSION-<major>.<minor>.json and LATEST.json are written; res/VERSION.json only when the minor version moved, which is also the result |
| HashPlugin.Plugin.PackAssets | plugins/plugin_hash.py:139-169 | it succeeds exactly when the archive of the final staging tree over the copied names exists. Then PATCH-<major>.<minor>.zip and LATEST.zip both hold that archive, every other archive is kept, and .assets/ is removed. On failure (a copied name lost to the substitution) no archive changes and .assets/ stays in its final state |
| HashPlugin.Plugin.HashWalked | plugins/plugin_hash.py:184 | hash_assets over walked lists: the new record is NextVersion of the old record and the hashed items, its keys are the relative names of the gathered files and none holds a marker, each value is the CRC of a gathered file with that name, and the version files are written as hash_assets does |
| HashPlugin.Plugin.PackWalked | plugins/plugin_hash.py:187-188 | pack_assets over walked lists succeeds exactly when no gathered name is the sibling of a gathered script, with PackAssets' outcome on archives and .assets/ |
| HashPlugin.Plugin.RunWalked | plugins/plugin_hash.py:184-188 | hash_assets as HashWalked states, then, unless --no-pack, pack_assets as PackWalked states; with --no-pack the archives and .assets/ are untouched |
| HashPlugin.Plugin.Run | plugins/plugin_hash.py:172-189 | it stops before writing anything exactly when git status fails or a configured root is a regular file. Otherwise the files dictionary it builds holds one duplicate-free walk per distinct root, in first-occurrence order; the new record is NextVersion of the hashed items, keyed by the gathered relative names with their CRCs; the version files are written as hash_assets does; with --no-pack nothing else changes, and otherwise packing succeeds exactly when no gathered name is a script's sibling, with PackAssets' outcome |

## Left out

- Reading and writing JSON, the bytes of files and zip compression are left out. Records and archive entries are kept as values, by file name.
- The CRC-32 polynomial and the script compiler's encryption are parameters (`checksum`, `luac`). Only what the plugin does with their results is modelled.
- The compiler is assumed to write the sibling of every `.lua` file it sees, and nothing else. Its own file selection and its failure are not modelled.
- `git status --porcelain` is the parameter `gitStatus` of `Run`: `None` when `check_output` raises (no git, or not inside a work tree), which ends `run` before anything is written. Its output only chooses a log message. `_run_cmd`'s shell invocation, the `cocos` command path and the logging are left out; none of them influences the state the plugin keeps.
- `parse_args` and `normalize_path_in_list` (argparse, `os.path.normpath`, `os.path.abspath`) are not modelled. The roots are taken as already-normalised paths.
- `parse_args` refuses a root that does not exist. The model walks such a root as an empty directory: with directories implicit, a missing root and an empty one look the same.
- The old record always has the three keys `version`, `cpp_version` and `files`. An old `VERSION.json` without `files`, or without `cpp_version` while `-c` is given and non-zero, always differs from the new record, so the plugin bumps; one without `version`, or without `cpp_version` and no `-c` or `-c 0`, raises a `KeyError`. Neither case is representable in the model.
- `verbose` is kept but unused, as it is in the plugin.
- Python 2 dictionaries iterate in hash order, not insertion order. The model iterates `files` in the order the roots were configured, replacing a repeated root in place. When two roots yield the same relative name, the winner is the later one in that order, not in Python's hash order.
- HashPlugin.Plugin.Init: requires `res/VERSION.json` to exist. A missing or malformed file raises in the plugin, and that error is not modelled.
- HashPlugin.Plugin.PackAssets: requires a stageable layout (`Pack.Stageable`): no copied name, and no compiled sibling of a copied script, is an ancestor directory of another copied name or sibling. Such a pair arises when one root holds a file `a` and another holds `a/b`. When `a` is copied first, `mkdirp` fails on the file `.assets/a`. When `a/b` is copied first, `shutil.copy` writes `a` into the directory as `.assets/a/a`, and `z.write` later stores a directory entry under `a`. A compiled sibling `x.luac` that is a directory makes the compiler fail. None of these outcomes is modelled.
- HashPlugin.Plugin.Run: requires the same stageable layout when packing, and a well-formed file system (no regular file is also a directory holding files), which a real file system is.
- HashPlugin.Plugin.PackAssets: on failure, the partially written `PATCH-…zip` that `zipfile` leaves behind is not recorded. Only the fact that no complete archive and no `LATEST.zip` are written is stated.
- `eusure_copy` onto a directory named `LATEST.json`, `LATEST.zip` or `res/VERSION.json` calls `os.remove` on it, which raises and ends the run. The working directory's file maps hold regular files only, so this error is not modelled.
- Manifest.IsSameVersion: compares the loaded and the hashed names as text, which the code evidently intends. Python 2 compares unicode keys with byte-string keys: a non-ASCII name never matches, and ordering it against a loaded name raises. That comparison is modelled as Manifest.IsSameVersionAsWritten and reported under Findings.
- Manifest.IsSameVersionAsWritten: the loaded record keeps a non-ASCII name's bytes rather than the text json.load decodes. The outcome depends only on whether the hashed side is ASCII and on the order against an ASCII name, which both forms share.
- Paths are joined with "/", as `os.path.join` and `os.path.relpath` do on POSIX. On Windows the keys of `VERSION.json` hold `\` instead; that form is not modelled.
- Directories are implicit: a directory exists when some file lies below it, so an empty directory has no representation.
- The working directory, the source roots and `.assets/` are kept as separate maps. The model does not capture a root that contains `.assets/` or the version files.
- `replace_lua_with_luac` raises when a `.lua` file has no sibling. `ReplaceLuaWithLuac` requires every sibling to be present, which `encrypt` guarantees.

## Findings

| source | as written | input that shows it | evidently intended | confidence | as-written member | corrected member |
|---|---|---|---|---|---|---|
| plugins/plugin_hash.py:45-46 | `cmp(old, new)` compares the unicode names `json.load` returned with the byte-string names `os.path.relpath` built; under Python 2 a non-ASCII byte string equals no unicode text, and the 3-way comparison of the smallest differing names raises `UnicodeDecodeError` on `<` | a tree holding `café.png`, hashed twice with nothing changed: the first run writes version 1 (the files dictionaries differ in size), the second raises at line 117 and writes nothing, and so does every later run, so the patch is never packed again | a rerun over an unchanged tree keeps the version, as it does for ASCII names | medium: follows CPython 2.7's dict_compare and unicode comparison rules; not executed | Manifest.RerunOfNonAsciiNameRaises | Manifest.SecondRunIsNoOp |
