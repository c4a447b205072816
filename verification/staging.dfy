/**
  The staging tree (.assets/) and the script substitution run over it:
  replace_lua_with_luac deletes each script and moves its compiled sibling
  onto the script's name, directory by directory, in place.
 */
module Staging {
  import opened Paths

  /** A directory tree whose files are changed in place. */
  class Tree {
    var files: FileMap

    constructor (files: FileMap)
      ensures this.files == files
    {
      this.files := files;
    }
  }

  /** The scripts below dir. */
  function LuaBelow(f: FileMap, dir: Path): set<Path> {
    set p | p in f && Below(p, dir) && IsLuaFile(p)
  }

  /** The scripts below dir whose entry directly inside dir is one of names. */
  ghost function LuaBelowVia(f: FileMap, dir: Path, names: set<string>): set<Path> {
    set p | p in f && Below(p, dir) && IsLuaFile(p) && p[|dir|] in names
  }

  /** What the compiler promises before the substitution runs: every script below dir has its sibling. */
  predicate LuacPresent(f: FileMap, dir: Path) {
    forall p :: p in f && Below(p, dir) && IsLuaFile(p) ==> Luac(p) in f
  }

  predicate Replaceable(f: FileMap, scripts: set<Path>) {
    forall p :: p in scripts ==> p in f && IsLuaFile(p) && Luac(p) in f
  }

  /** The compiled siblings of the given scripts. */
  function Siblings(scripts: set<Path>): (s: set<Path>)
    requires forall p :: p in scripts ==> IsLuaFile(p)
    ensures forall q :: q in s ==> !IsLuaFile(q)
  {
    forall p | p in scripts && IsLuaFile(p) ensures !IsLuaFile(Luac(p)) {
      LuacIsNotLua(p);
    }
    set p | p in scripts :: Luac(p)
  }

  /** Each script of the set takes the bytes of its sibling; the siblings are gone. */
  function Apply(f: FileMap, scripts: set<Path>): FileMap
    requires Replaceable(f, scripts)
  {
    map q | q in f && q !in Siblings(scripts) :: if q in scripts then f[Luac(q)] else f[q]
  }

  /**
    The tree after replace_lua_with_luac(dir): each script below dir holds the
    former bytes of its sibling, those siblings no longer exist, and every
    other path (a ".luac" without a script beside it among them) is unchanged.
   */
  function Substituted(f: FileMap, dir: Path): (r: FileMap)
    requires LuacPresent(f, dir)
    ensures forall p :: p in f && Below(p, dir) && IsLuaFile(p) ==>
      p in r && r[p] == f[Luac(p)] && Luac(p) !in r
    ensures forall q :: q in f && q !in Siblings(LuaBelow(f, dir)) && !(Below(q, dir) && IsLuaFile(q)) ==>
      q in r && r[q] == f[q]
    ensures r.Keys == f.Keys - Siblings(LuaBelow(f, dir))
  {
    Apply(f, LuaBelow(f, dir))
  }

  /** Substituting one set of scripts after another is substituting both at once. */
  lemma ApplyCompose(f: FileMap, first: set<Path>, second: set<Path>)
    requires Replaceable(f, first) && Replaceable(f, second) && first !! second
    ensures Replaceable(Apply(f, first), second)
    ensures Apply(Apply(f, first), second) == Apply(f, first + second)
  {
    var g := Apply(f, first);
    forall p | p in second ensures Luac(p) !in Siblings(first) {
      if Luac(p) in Siblings(first) {
        var p' :| p' in first && Luac(p') == Luac(p);
        LuacInjective(p, p');
      }
    }
    assert Siblings(first + second) == Siblings(first) + Siblings(second);
    var lhs := Apply(g, second);
    var rhs := Apply(f, first + second);
    assert lhs.Keys == rhs.Keys;
    forall q | q in lhs ensures lhs[q] == rhs[q] {
      if q in second {
        assert Luac(q) !in first;
      }
    }
  }

  /** Substituting other scripts leaves the scripts below any directory in place. */
  lemma ScriptsUnmoved(f0: FileMap, scripts: set<Path>, dir: Path)
    requires Replaceable(f0, scripts)
    ensures LuaBelow(Apply(f0, scripts), dir) == LuaBelow(f0, dir)
  {
    var f := Apply(f0, scripts);
    forall p | p in f0 && Below(p, dir) && IsLuaFile(p) ensures p in f {
      assert p !in Siblings(scripts);
    }
  }

  /** Adding entry n to the entries done adds the scripts below dir + [n], and only those. */
  lemma ScriptsVia(f0: FileMap, dir: Path, done: set<string>, n: string)
    requires dir + [n] !in f0
    ensures LuaBelowVia(f0, dir, done + {n}) == LuaBelowVia(f0, dir, done) + LuaBelow(f0, dir + [n])
    ensures n !in done ==> LuaBelowVia(f0, dir, done) !! LuaBelow(f0, dir + [n])
  {
    var full := dir + [n];
    forall p | p in f0 && Below(p, full) && IsLuaFile(p) ensures p in LuaBelowVia(f0, dir, done + {n}) {
      BelowChild(p, dir, n);
    }
    forall p | p in LuaBelowVia(f0, dir, done + {n}) && p !in LuaBelowVia(f0, dir, done) ensures Below(p, full) {
      assert p[|dir|] == n && p != full;
      assert p[..|full|] == full;
    }
    forall p | p in LuaBelow(f0, full) ensures p[|dir|] == n {
      BelowChild(p, dir, n);
    }
  }

  /** The scripts through a subdirectory n are exactly the scripts below it, none of them substituted yet. */
  lemma ScriptsOfChild(f0: FileMap, dir: Path, done: set<string>, n: string)
    requires WellFormed(f0) && n !in done
    requires Replaceable(f0, LuaBelowVia(f0, dir, done))
    requires IsDir(Apply(f0, LuaBelowVia(f0, dir, done)), dir + [n])
    ensures var before := LuaBelowVia(f0, dir, done);
      && LuaBelow(Apply(f0, before), dir + [n]) == LuaBelow(f0, dir + [n])
      && LuaBelowVia(f0, dir, done + {n}) == before + LuaBelow(f0, dir + [n])
      && before !! LuaBelow(f0, dir + [n])
  {
    var full := dir + [n];
    var f := Apply(f0, LuaBelowVia(f0, dir, done));
    ScriptsUnmoved(f0, LuaBelowVia(f0, dir, done), full);
    var q :| q in f && Below(q, full);
    assert full !in f0;
    ScriptsVia(f0, dir, done, n);
  }

  /** The loop's entry n is a subdirectory: recursing substitutes exactly the scripts below it. */
  lemma StepIntoDir(f0: FileMap, dir: Path, done: set<string>, n: string)
    requires WellFormed(f0) && LuacPresent(f0, dir) && n !in done
    requires Replaceable(f0, LuaBelowVia(f0, dir, done))
    requires IsDir(Apply(f0, LuaBelowVia(f0, dir, done)), dir + [n])
    ensures var f := Apply(f0, LuaBelowVia(f0, dir, done));
      && WellFormed(f) && f.Keys <= f0.Keys
      && LuacPresent(f, dir + [n])
      && Replaceable(f0, LuaBelowVia(f0, dir, done + {n}))
      && Apply(f, LuaBelow(f, dir + [n])) == Apply(f0, LuaBelowVia(f0, dir, done + {n}))
  {
    var full := dir + [n];
    var before := LuaBelowVia(f0, dir, done);
    var f := Apply(f0, before);
    var here := LuaBelow(f0, full);
    ScriptsOfChild(f0, dir, done, n);
    forall p | p in here ensures Luac(p) in f0 {
      BelowChild(p, dir, n);
    }
    ApplyCompose(f0, before, here);
  }

  /** A script reached through entry n that lies in no subdirectory n is the entry itself. */
  lemma OnlyTheEntry(f0: FileMap, dir: Path, done: set<string>, n: string, p: Path)
    requires Replaceable(f0, LuaBelowVia(f0, dir, done))
    requires !IsDir(Apply(f0, LuaBelowVia(f0, dir, done)), dir + [n])
    requires p in LuaBelowVia(f0, dir, done + {n}) && p !in LuaBelowVia(f0, dir, done)
    ensures p == dir + [n] && p in Apply(f0, LuaBelowVia(f0, dir, done))
  {
    var full := dir + [n];
    var before := LuaBelowVia(f0, dir, done);
    assert p !in Siblings(before);
    assert p in Apply(f0, before);
    assert !Below(p, full);
    assert p[..|full|] == full;
    assert p == full;
  }

  /** Removing a script and moving its sibling onto its name substitutes that one script. */
  lemma MoveIsApply(f: FileMap, script: Path)
    requires Replaceable(f, {script})
    ensures (f - {script})[script := f[Luac(script)]] - {Luac(script)} == Apply(f, {script})
  {
    LuacIsNotLua(script);
    assert Siblings({script}) == {Luac(script)};
  }

  /** The loop's entry n is a script file: the substituted set grows by that one script. */
  lemma ScriptEntry(f0: FileMap, dir: Path, done: set<string>, n: string)
    requires LuacPresent(f0, dir) && n !in done
    requires Replaceable(f0, LuaBelowVia(f0, dir, done))
    requires !IsDir(Apply(f0, LuaBelowVia(f0, dir, done)), dir + [n])
    requires dir + [n] in Apply(f0, LuaBelowVia(f0, dir, done)) && HasLuaExtension(n)
    ensures Replaceable(f0, {dir + [n]}) && dir + [n] !in LuaBelowVia(f0, dir, done)
    ensures LuaBelowVia(f0, dir, done + {n}) == LuaBelowVia(f0, dir, done) + {dir + [n]}
  {
    var full := dir + [n];
    var before := LuaBelowVia(f0, dir, done);
    var after := LuaBelowVia(f0, dir, done + {n});
    assert full in f0 && IsLuaFile(full) && Below(full, dir) && full[|dir|] == n;
    forall p | p in after && p !in before ensures p == full {
      OnlyTheEntry(f0, dir, done, n, p);
    }
    LuacBelow(full, dir);
  }

  /** The loop's entry n is a script file: after the move the tree is the substitution of one more script. */
  lemma StepOverScript(f0: FileMap, dir: Path, done: set<string>, n: string)
    requires LuacPresent(f0, dir) && n !in done
    requires Replaceable(f0, LuaBelowVia(f0, dir, done))
    requires !IsDir(Apply(f0, LuaBelowVia(f0, dir, done)), dir + [n])
    requires dir + [n] in Apply(f0, LuaBelowVia(f0, dir, done)) && HasLuaExtension(n)
    ensures var f := Apply(f0, LuaBelowVia(f0, dir, done));
      var full := dir + [n];
      && Luac(full) in f
      && Replaceable(f0, LuaBelowVia(f0, dir, done + {n}))
      && (f - {full})[full := f[Luac(full)]] - {Luac(full)} == Apply(f0, LuaBelowVia(f0, dir, done + {n}))
  {
    var full := dir + [n];
    var before := LuaBelowVia(f0, dir, done);
    ScriptEntry(f0, dir, done, n);
    ApplyCompose(f0, before, {full});
    MoveIsApply(Apply(f0, before), full);
  }

  /** The loop's entry n is neither a subdirectory nor a script file: nothing through it is substituted. */
  lemma StepOverOther(f0: FileMap, dir: Path, done: set<string>, n: string)
    requires Replaceable(f0, LuaBelowVia(f0, dir, done))
    requires !IsDir(Apply(f0, LuaBelowVia(f0, dir, done)), dir + [n])
    requires !(dir + [n] in Apply(f0, LuaBelowVia(f0, dir, done)) && HasLuaExtension(n))
    ensures LuaBelowVia(f0, dir, done + {n}) == LuaBelowVia(f0, dir, done)
  {
    forall p | p in LuaBelowVia(f0, dir, done + {n}) && p !in LuaBelowVia(f0, dir, done)
      ensures false
    {
      OnlyTheEntry(f0, dir, done, n, p);
    }
  }

  /** Once every entry of the listing is done, every script below dir is done. */
  lemma AllEntriesDone(f0: FileMap, dir: Path)
    ensures LuaBelowVia(f0, dir, Listing(f0, dir)) == LuaBelow(f0, dir)
  {
  }

  /**
    replace_lua_with_luac(work_dir): walks the listing of work_dir in whatever
    order it comes and handles each entry with ReplaceEntry.
   */
  method ReplaceLuaWithLuac(t: Tree, workDir: Path)
    requires WellFormed(t.files) && LuacPresent(t.files, workDir)
    modifies t
    ensures t.files == Substituted(old(t.files), workDir)
    decreases Nodes(t.files, workDir), 1
  {
    ghost var f0 := t.files;
    var names := Listing(t.files, workDir);
    var todo := names;
    ghost var done: set<string> := {};
    while todo != {}
      invariant todo + done == names && todo !! done
      invariant Replaceable(f0, LuaBelowVia(f0, workDir, done))
      invariant t.files == Apply(f0, LuaBelowVia(f0, workDir, done))
      decreases todo
    {
      var n :| n in todo;
      ReplaceEntry(t, workDir, n, f0, done);
      todo := todo - {n};
      done := done + {n};
    }
    AllEntriesDone(f0, workDir);
  }

  /**
    The body of the loop over the listing for the entry n: a directory is
    walked recursively; a script file is removed and its compiled sibling
    moved onto its name; anything else, including a sibling already moved
    away, is left alone.
   */
  method ReplaceEntry(t: Tree, workDir: Path, n: string, ghost f0: FileMap, ghost done: set<string>)
    requires WellFormed(f0) && LuacPresent(f0, workDir) && n !in done
    requires Replaceable(f0, LuaBelowVia(f0, workDir, done))
    requires t.files == Apply(f0, LuaBelowVia(f0, workDir, done))
    modifies t
    ensures Replaceable(f0, LuaBelowVia(f0, workDir, done + {n}))
    ensures t.files == Apply(f0, LuaBelowVia(f0, workDir, done + {n}))
    decreases Nodes(f0, workDir), 0
  {
    var full := workDir + [n];
    if IsDir(t.files, full) {
      StepIntoDir(f0, workDir, done, n);
      NodesShrink(f0, t.files, workDir, n);
      ReplaceLuaWithLuac(t, full);
    } else if full in t.files && HasLuaExtension(n) {
      StepOverScript(f0, workDir, done, n);
      var f := t.files;
      t.files := f - {full};
      t.files := t.files[full := f[Luac(full)]] - {Luac(full)};
    } else {
      StepOverOther(f0, workDir, done, n);
    }
  }
}
