/**
  deep_iterate_dir: the recursive walk that gathers, below each source root,
  every regular file whose full path names neither ".DS_Store" nor
  "VERSION.json", appending them to the caller's list.
 */
module Collect {
  import opened Wrappers
  import opened Paths

  /** The files the walk of dir gathers. */
  function Collected(fs: FileMap, dir: Path): set<Path> {
    set p | p in fs && Below(p, dir) && !Excluded(p)
  }

  /** The files gathered through the entries of dir named in names. */
  ghost function CollectedVia(fs: FileMap, dir: Path, names: set<string>): set<Path> {
    set p | p in fs && Below(p, dir) && !Excluded(p) && p[|dir|] in names
  }

  predicate Distinct<T(==)>(s: seq<T>) {
    forall i, j :: 0 <= i < j < |s| ==> s[i] != s[j]
  }

  function Elements<T(==)>(s: seq<T>): set<T> {
    set x | x in s
  }

  /**
    deep_iterate_dir(rootDir, entries). os.listdir raises when rootDir is a
    regular file: None. Otherwise the list comes back extended: what it held
    is kept as it was, and the appended part names each gathered file exactly
    once. The order in which os.listdir yields the entries is not fixed, so
    the next entry is chosen arbitrarily.
   */
  method DeepIterateDir(fs: FileMap, rootDir: Path, entries: seq<Path>) returns (result: Option<seq<Path>>)
    requires WellFormed(fs)
    ensures result.None? <==> rootDir in fs
    ensures result.Some? ==> |entries| <= |result.value| && result.value[..|entries|] == entries
    ensures result.Some? ==> Distinct(result.value[|entries|..])
    ensures result.Some? ==> Elements(result.value[|entries|..]) == Collected(fs, rootDir)
    decreases Nodes(fs, rootDir)
  {
    if rootDir in fs {
      return None;
    }
    var list := entries;
    ghost var added: seq<Path> := [];
    var todo := Listing(fs, rootDir);
    ghost var done: set<string> := {};
    while todo != {}
      invariant todo + done == Listing(fs, rootDir) && todo !! done
      invariant list == entries + added
      invariant Distinct(added) && Elements(added) == CollectedVia(fs, rootDir, done)
      decreases todo
    {
      var n :| n in todo;
      var path := rootDir + [n];
      if IsDir(fs, path) {
        NodesShrink(fs, fs, rootDir, n);
        IsDirIffListed(fs, path);
        var sub := DeepIterateDir(fs, path, list);
        ghost var more := sub.value[|list|..];
        StepIntoDir(fs, rootDir, done, n);
        WalkedChild(fs, rootDir, done, n, entries, added, sub.value);
        added := added + more;
        list := sub.value;
      } else {
        StepOverFile(fs, rootDir, done, n);
        if path in fs {
          if !Excluded(path) {
            DistinctAppend(added, [path]);
            assert Elements([path]) == {path};
            added := added + [path];
            list := list + [path];
          }
        }
      }
      todo := todo - {n};
      done := done + {n};
    }
    AllEntries(fs, rootDir, done);
    assert list[|entries|..] == added;
    return Some(list);
  }

  /** The walk of subdirectory n extends the list with exactly the files reached through n. */
  lemma WalkedChild(fs: FileMap, dir: Path, done: set<string>, n: string,
                    entries: seq<Path>, added: seq<Path>, sub: seq<Path>)
    requires |entries + added| <= |sub| && sub[..|entries + added|] == entries + added
    requires Distinct(added) && Elements(added) == CollectedVia(fs, dir, done)
    requires Distinct(sub[|entries + added|..]) && Elements(sub[|entries + added|..]) == Collected(fs, dir + [n])
    requires CollectedVia(fs, dir, done + {n}) == CollectedVia(fs, dir, done) + Collected(fs, dir + [n])
    requires CollectedVia(fs, dir, done) !! Collected(fs, dir + [n])
    ensures var more := sub[|entries + added|..];
      && sub == entries + (added + more)
      && Distinct(added + more) && Elements(added + more) == CollectedVia(fs, dir, done + {n})
  {
    var more := sub[|entries + added|..];
    DistinctAppend(added, more);
    assert sub == sub[..|entries + added|] + more;
  }

  /** Joining two duplicate-free lists with no element in common. */
  lemma DistinctAppend<T>(a: seq<T>, b: seq<T>)
    requires Distinct(a) && Distinct(b) && Elements(a) !! Elements(b)
    ensures Distinct(a + b) && Elements(a + b) == Elements(a) + Elements(b)
  {
    forall i, j | 0 <= i < j < |a + b| ensures (a + b)[i] != (a + b)[j] {
      if i < |a| && |a| <= j {
        assert (a + b)[i] in Elements(a) && (a + b)[j] in Elements(b);
      }
    }
  }

  /** Entry n is a subdirectory: its walk gathers the files reached through n, none reached before. */
  lemma StepIntoDir(fs: FileMap, dir: Path, done: set<string>, n: string)
    requires WellFormed(fs) && n !in done && IsDir(fs, dir + [n])
    ensures CollectedVia(fs, dir, done + {n}) == CollectedVia(fs, dir, done) + Collected(fs, dir + [n])
    ensures CollectedVia(fs, dir, done) !! Collected(fs, dir + [n])
  {
    var full := dir + [n];
    var q :| q in fs && Below(q, full);
    assert full !in fs;
    forall p | p in Collected(fs, full) ensures p in CollectedVia(fs, dir, done + {n}) && p[|dir|] == n {
      BelowChild(p, dir, n);
    }
    forall p | p in CollectedVia(fs, dir, done + {n}) && p !in CollectedVia(fs, dir, done)
      ensures Below(p, full)
    {
      assert p[|dir|] == n && p != full;
      assert p[..|full|] == full;
    }
  }

  /** Entry n is not a directory: at most the file dir + [n] itself is reached through it. */
  lemma StepOverFile(fs: FileMap, dir: Path, done: set<string>, n: string)
    requires !IsDir(fs, dir + [n])
    ensures CollectedVia(fs, dir, done + {n}) == CollectedVia(fs, dir, done) +
      (if dir + [n] in fs && !Excluded(dir + [n]) then {dir + [n]} else {})
    ensures dir + [n] !in CollectedVia(fs, dir, done) || n in done
  {
    var full := dir + [n];
    forall p | p in CollectedVia(fs, dir, done + {n}) && p !in CollectedVia(fs, dir, done)
      ensures p == full
    {
      assert p[..|full|] == full;
      assert !Below(p, full);
    }
    assert full[|dir|] == n;
  }

  /** Once every entry of the listing is done, everything below dir is gathered. */
  lemma AllEntries(fs: FileMap, dir: Path, done: set<string>)
    requires done == Listing(fs, dir)
    ensures CollectedVia(fs, dir, done) == Collected(fs, dir)
  {
  }
}
