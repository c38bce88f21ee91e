/** In-place replacement of installed packages inside the sandbox: unlink, prune, merge. */
module PackageReplacement {
  import opened ByteStreams
  import WheelNames

  /** An absolute path, component by component. */
  type Path = seq<string>

  /** `d` is a proper ancestor of `p`. */
  predicate Above(d: Path, p: Path) {
    d < p
  }

  /** A manifest line: a path inside the target, or one that resolves outside it. */
  datatype Entry = Inside(rel: Path) | Escaping

  datatype Manifest = Missing | Recorded(entries: seq<Entry>)

  /** An installed distribution: the name its metadata gives and its manifest. */
  datatype Distribution = Distribution(metadataName: string, manifest: Manifest)

  datatype Outcome = Completed | Failed

  /** Python's `path.parents`, those inside `root` only, `root` included. */
  function ParentsInRoot(root: Path, path: Path): (parents: set<Path>)
    ensures forall d :: d in parents <==> root <= d && Above(d, path)
  {
    var above := set k | 0 <= k < |path| :: path[..k];
    assert forall d | Above(d, path) :: d == path[..|d|];
    set d | d in above && root <= d
  }

  function Paths(root: Path, entries: seq<Entry>): set<Path> {
    set e | e in entries && e.Inside? :: root + e.rel
  }

  /** The distribution is to be replaced: its normalised name is among the resolved ones. */
  predicate Named(dist: Distribution, names: set<string>) {
    WheelNames.Normalise(dist.metadataName) in names
  }

  /** The files the manifests of the distributions to replace name. */
  function Listed(root: Path, names: set<string>, dists: seq<Distribution>): set<Path> {
    set i, p | 0 <= i < |dists| && Named(dists[i], names) && dists[i].manifest.Recorded?
               && p in Paths(root, dists[i].manifest.entries) :: p
  }

  /** The distribution is one of `resolved`, however the names are spelled. */
  ghost predicate Supersedes(resolved: seq<string>, dist: Distribution) {
    exists d | d in resolved :: WheelNames.Normalise(d) == WheelNames.Normalise(dist.metadataName)
  }

  /** The manifest names the file at `p`. */
  ghost predicate HasFile(root: Path, dist: Distribution, p: Path) {
    dist.manifest.Recorded? && exists e | e in dist.manifest.entries :: e.Inside? && p == root + e.rel
  }

  /** The distributions replaced are exactly those that a wheel of the wheelhouse stands for. */
  lemma NamedByWheels(names: set<string>, wheels: seq<string>, resolved: seq<string>, dist: Distribution)
    requires WheelNames.Wheelhouse(wheels, resolved) && names == set w | w in wheels :: WheelNames.WheelDistribution(w)
    ensures Named(dist, names) <==> Supersedes(resolved, dist)
  {
    forall i | 0 <= i < |wheels| ensures WheelNames.WheelDistribution(wheels[i]) == WheelNames.Normalise(resolved[i]) {
      var rest :| wheels[i] == WheelNames.WheelFile(resolved[i], rest);
      WheelNames.WheelNamesItsDistribution(resolved[i], rest);
    }
    hide WheelNames.Normalise, WheelNames.WheelDistribution;
    forall i | 0 <= i < |wheels| ensures wheels[i] in wheels && resolved[i] in resolved {}
  }

  /** And the files that go are exactly theirs. */
  lemma ListedByWheels(
    root: Path, names: set<string>, dists: seq<Distribution>, wheels: seq<string>, resolved: seq<string>, p: Path)
    requires WheelNames.Wheelhouse(wheels, resolved) && names == set w | w in wheels :: WheelNames.WheelDistribution(w)
    ensures p in Listed(root, names, dists) <==> exists dist | dist in dists :: Supersedes(resolved, dist) && HasFile(root, dist, p)
  {
    forall dist ensures Named(dist, names) <==> Supersedes(resolved, dist) {
      NamedByWheels(names, wheels, resolved, dist);
    }
    hide Named, Supersedes;
    forall i | 0 <= i < |dists| ensures dists[i] in dists {}
    if p in Listed(root, names, dists) {
      var i :| 0 <= i < |dists| && Named(dists[i], names) && dists[i].manifest.Recorded?
        && p in Paths(root, dists[i].manifest.entries);
      assert HasFile(root, dists[i], p);
    }
    if dist :| dist in dists && Supersedes(resolved, dist) && HasFile(root, dist, p) {
      var i :| 0 <= i < |dists| && dists[i] == dist;
      assert Named(dists[i], names) && p in Paths(root, dists[i].manifest.entries);
    }
  }

  /** The in-root directories above those files. */
  function ParentsOf(root: Path, listed: set<Path>): set<Path> {
    set p, d | p in listed && d in ParentsInRoot(root, p) :: d
  }

  /**
   * The directories that go when `parents` are removed deepest first: nothing but other such
   * directories is left below them.
   */
  ghost function Prunable(files: set<Path>, dirs: set<Path>, parents: set<Path>): set<Path> {
    set d | d in dirs && d in parents
            && (forall f | f in files :: !Above(d, f))
            && (forall e | e in dirs :: Above(d, e) ==> e in parents)
  }

  /** Every ancestor of an existing path is a directory, and a path is not both kinds. */
  ghost predicate WellFormed(files: set<Path>, dirs: set<Path>) {
    && files !! dirs
    && (forall p, d: Path | (p in files || p in dirs) && Above(d, p) :: d in dirs)
  }

  /** Pruning after each distribution comes to pruning once after all of them. */
  lemma PruneInTwoSteps(
    root: Path, files: set<Path>, dirs: set<Path>, listedA: set<Path>, listedB: set<Path>)
    ensures var pa, pb := ParentsOf(root, listedA), ParentsOf(root, listedB);
            var dirsA := dirs - Prunable(files - listedA, dirs, pa);
            dirsA - Prunable(files - listedA - listedB, dirsA, pb)
            == dirs - Prunable(files - (listedA + listedB), dirs, ParentsOf(root, listedA + listedB))
  {
    var pa, pb := ParentsOf(root, listedA), ParentsOf(root, listedB);
    assert ParentsOf(root, listedA + listedB) == pa + pb;
    var filesA, filesB := files - listedA, files - listedA - listedB;
    assert files - (listedA + listedB) == filesB;
    var goneA := Prunable(filesA, dirs, pa);
    var dirsA := dirs - goneA;
    var goneB := Prunable(filesB, dirsA, pb);
    var gone := Prunable(filesB, dirs, pa + pb);
    forall d | d in goneA ensures d in gone {}
    forall d | d in goneB ensures d in gone {
      forall e | e in dirs && Above(d, e) ensures e in pa + pb {
        if e in dirsA { assert e in pb; } else { assert e in goneA; }
      }
    }
    forall d | d in gone ensures d in goneA || d in goneB {
      if d !in goneA {
        Left(root, files, dirs, listedA, listedB, d);
        forall e | e in dirsA && Above(d, e) ensures e in pb {
          if e in pa {
            Left(root, files, dirs, listedA, listedB, e);
          }
        }
      }
    }
  }

  /**
   * A directory the first step could not prune, but whose remains are all named for one of the two
   * steps, is itself named for the second.
   */
  lemma Left(
    root: Path, files: set<Path>, dirs: set<Path>, listedA: set<Path>, listedB: set<Path>, d: Path)
    requires var pa, pb := ParentsOf(root, listedA), ParentsOf(root, listedB);
             && d in dirs && d in pa + pb && d !in Prunable(files - listedA, dirs, pa)
             && (forall f | f in files - listedA - listedB :: !Above(d, f))
             && (forall e | e in dirs :: Above(d, e) ==> e in pa + pb)
    ensures d in ParentsOf(root, listedB)
  {
    var pa, pb := ParentsOf(root, listedA), ParentsOf(root, listedB);
    if d in pa {
      if f :| f in files - listedA && Above(d, f) {
        assert f in listedB && d in ParentsInRoot(root, f);
      } else {
        var e :| e in dirs && Above(d, e) && e !in pa;
        var p :| p in listedB && e in ParentsInRoot(root, p);
        assert d in ParentsInRoot(root, p);
      }
    }
  }

  /** The file system the replacement script runs on. */
  class FileSystem {
    var files: map<Path, Bytes>
    var dirs: set<Path>

    ghost predicate Valid()
      reads this
    {
      WellFormed(files.Keys, dirs)
    }

    constructor (files: map<Path, Bytes>, dirs: set<Path>)
      requires WellFormed(files.Keys, dirs)
      ensures Valid() && this.files == files && this.dirs == dirs
    {
      this.files, this.dirs := files, dirs;
    }

    /** `unlink(missing_ok=True)`. */
    method Unlink(path: Path) returns (ok: bool)
      requires Valid()
      modifies this`files
      ensures Valid()
      ensures files == if ok then old(files) - {path} else old(files)
      ensures ok <==> path !in dirs && forall k | 0 <= k < |path| :: path[..k] !in old(files)
    {
      if path in dirs || exists k | 0 <= k < |path| :: path[..k] in files {
        return false;
      }
      files := files - {path};
      ok := true;
    }

    /** `rmdir`, whose failures the script ignores. */
    method Rmdir(path: Path)
      requires Valid()
      modifies this`dirs
      ensures Valid()
      ensures dirs == if forall p | p in files || p in old(dirs) :: !Above(path, p) then old(dirs) - {path} else old(dirs)
    {
      if forall p | p in files.Keys + dirs :: !Above(path, p) {
        dirs := dirs - {path};
      }
    }

    /** Removes `parents` deepest first. */
    method PruneParents(parents: set<Path>)
      requires Valid()
      modifies this`dirs
      ensures Valid()
      ensures dirs == old(dirs) - Prunable(files.Keys, old(dirs), parents)
    {
      var todo := parents;
      ghost var gone := Prunable(files.Keys, dirs, parents);
      while todo != {}
        invariant Valid() && todo <= parents
        invariant forall d, e | d in parents - todo && e in todo :: |e| <= |d|
        invariant dirs == old(dirs) - (gone - todo)
        decreases todo
      {
        // The next of `sorted(parents, key=len, reverse=True)`, ties in any order.
        DeepestExists(todo);
        var parent :| parent in todo && forall e | e in todo :: |e| <= |parent|;
        PruneStep(files.Keys, old(dirs), parents, todo, parent);
        Rmdir(parent);
        todo := todo - {parent};
      }
    }

    /** Removes one distribution: its manifest files, then the directories they leave empty. */
    method RemoveDistribution(root: Path, entries: seq<Entry>) returns (o: Outcome)
      requires Valid()
      modifies this
      ensures Valid()
      ensures o.Completed? ==> files == old(files) - Paths(root, entries)
      ensures o.Completed? ==> dirs == old(dirs) - Prunable(files.Keys, old(dirs), ParentsOf(root, Paths(root, entries)))
      ensures o.Failed? ==> dirs == old(dirs) && OnlyRemoved(old(files), files, Paths(root, entries))
      ensures o.Completed? <==> Clears(root, entries, old(files).Keys, old(dirs))
    {
      var parents: set<Path> := {};
      for i := 0 to |entries|
        invariant Valid() && dirs == old(dirs)
        invariant forall k | 0 <= k < i :: ClearsAt(root, entries, k, old(files).Keys, dirs)
        invariant files == old(files) - Paths(root, entries[..i])
        invariant parents == ParentsOf(root, Paths(root, entries[..i]))
      {
        PathsNext(root, entries, i);
        match entries[i] {
          case Escaping =>
            assert !ClearsAt(root, entries, i, old(files).Keys, dirs);
            return Failed;
          case Inside(rel) =>
            var path := root + rel;
            RemovableByPrefixes(files.Keys, dirs, path);
            assert ClearsAt(root, entries, i, old(files).Keys, dirs) <==> Removable(files.Keys, dirs, path);
            var gone := Unlink(path);
            if !gone {
              return Failed;
            }
            parents := parents + ParentsInRoot(root, path);
        }
      }
      assert entries[..|entries|] == entries;
      PruneParents(parents);
      o := Completed;
    }

    /** Removes every installed distribution whose name is to be replaced. */
    method RemoveInstalled(root: Path, names: set<string>, dists: seq<Distribution>) returns (o: Outcome)
      requires Valid()
      modifies this
      ensures Valid()
      ensures o.Completed? <==> RemovesAll(root, names, dists, old(files).Keys, old(dirs))
      ensures o.Completed? ==> files == old(files) - Listed(root, names, dists)
      ensures o.Completed? ==> dirs == old(dirs) - Prunable(files.Keys, old(dirs), ParentsOf(root, Listed(root, names, dists)))
      ensures OnlyRemoved(old(files), files, Listed(root, names, dists))
      ensures dirs <= old(dirs)
      ensures forall d | d in old(dirs) && d !in dirs :: d in ParentsOf(root, Listed(root, names, dists))
    {
      for i := 0 to |dists|
        invariant Valid()
        invariant forall n | 0 <= n < i :: RemovesAt(root, names, dists, n, old(files).Keys, old(dirs))
        invariant files == old(files) - Listed(root, names, dists[..i])
        invariant dirs == old(dirs) - Prunable(files.Keys, old(dirs), ParentsOf(root, Listed(root, names, dists[..i])))
      {
        ListedNext(root, names, dists, i);
        if Named(dists[i], names) {
          if dists[i].manifest.Missing? {
            assert !RemovesAt(root, names, dists, i, old(files).Keys, old(dirs));
            return Failed;
          }
          assert files.Keys == old(files).Keys - Listed(root, names, dists[..i]);
          var entries := dists[i].manifest.entries;
          PruneInTwoSteps(root, old(files).Keys, old(dirs), Listed(root, names, dists[..i]), Paths(root, entries));
          var removed := RemoveDistribution(root, entries);
          if removed.Failed? {
            assert !RemovesAt(root, names, dists, i, old(files).Keys, old(dirs));
            return Failed;
          }
        }
      }
      assert dists[..|dists|] == dists;
      o := Completed;
    }

    /** `copytree(source, root, dirs_exist_ok=True)`: copies every entry it can, then reports. */
    method CopyTree(source: Path, root: Path) returns (o: Outcome)
      requires Valid() && Apart(source, root)
      modifies this
      ensures o.Completed? <==> Merges(old(files).Keys, old(dirs), source, root)
      ensures o.Completed? ==> Valid()
      ensures o.Completed? ==> dirs == old(dirs) + NewDirs(old(dirs), source, root)
      ensures o.Completed? ==> MergedInto(old(files), old(dirs), source, root, files)
      ensures Kept(old(files), files, root) && old(dirs) <= dirs
    {
      if source !in dirs {
        return Failed;
      }
      var made := MakeDirs(NewDirs(dirs, source, root));
      o := CopyFiles(source, root, old(dirs), made.Completed?);
      if o.Completed? {
        MergedIsWellFormed(old(files), old(dirs), source, root, files);
      }
    }

    /** Creates every directory of the merge that no file stands in the way of. */
    method MakeDirs(needed: set<Path>) returns (o: Outcome)
      modifies this`dirs
      ensures old(dirs) <= dirs
      ensures o.Completed? ==> dirs == old(dirs) + needed
      ensures o.Completed? <==> files.Keys !! needed
    {
      o := Completed;
      var todo := needed;
      while todo != {}
        invariant old(dirs) <= dirs && todo <= needed
        invariant o.Completed? ==> dirs == old(dirs) + (needed - todo)
        invariant o.Completed? <==> files.Keys !! needed - todo
      {
        var d :| d in todo;
        if d in files {
          o := Failed;
        } else {
          dirs := dirs + {d};
        }
        todo := todo - {d};
      }
    }

    /** Copies the source files one by one, in any order. `before` is the tree before the merge. */
    method CopyFiles(source: Path, root: Path, ghost before: set<Path>, clean: bool) returns (o: Outcome)
      requires Apart(source, root) && WellFormed(files.Keys, before) && before <= dirs
      requires clean ==> dirs == before + NewDirs(before, source, root) && files.Keys !! dirs
      modifies this`files
      ensures o.Completed? <==> clean && Lands(old(files).Keys, before, source, root)
      ensures o.Completed? ==> files.Keys !! dirs && MergedInto(old(files), before, source, root, files)
      ensures Kept(old(files), files, root)
    {
      o := if clean then Completed else Failed;
      var todo := set f | f in files && Above(source, f);
      ghost var all, start := todo, files;
      while todo != {}
        invariant todo <= all && Kept(start, files, root)
        invariant forall f | f in todo :: f in files && files[f] == start[f]
        invariant Copied(start, before, source, root, all - todo, files, dirs, clean, o)
      {
        var f :| f in todo;
        hide WellFormed, NewDirs, Kept, Apart, Copied;
        o := CopyNext(source, root, f, before, start, all - todo, clean, o);
        assert all - (todo - {f}) == (all - todo) + {f};
        forall g | g in todo ensures g in files && files[g] == start[g] {
          KeptBelowSource(start, files, source, root, g);
        }
        todo := todo - {f};
      }
    }

    /** One turn of that loop; `done` are the files behind it. */
    method CopyNext(
      source: Path, root: Path, f: Path, ghost before: set<Path>, ghost start: map<Path, Bytes>,
      ghost done: set<Path>, clean: bool, o: Outcome)
      returns (next: Outcome)
      requires Apart(source, root) && WellFormed(start.Keys, before) && before <= dirs
      requires clean ==> dirs == before + NewDirs(before, source, root)
      requires f in files && f in start && Above(source, f) && files[f] == start[f] && f !in done
      requires forall g | g in done :: Above(source, g) && g in start
      requires Kept(start, files, root) && Copied(start, before, source, root, done, files, dirs, clean, o)
      modifies this`files
      ensures Kept(start, files, root)
      ensures Copied(start, before, source, root, done + {f}, files, dirs, clean, next)
    {
      next := o;
      ghost var was := files;
      var copied := CopyFile(source, root, f, before, start);
      if !copied {
        next := Failed;
      } else if o.Completed? {
        MergeOne(start, before, source, root, done, was, f);
      }
      hide WellFormed, NewDirs, Apart, MergedFrom, Landing;
    }

    /** Copies one source file to where it lands, unless a directory is there as well. */
    method CopyFile(
      source: Path, root: Path, f: Path, ghost before: set<Path>, ghost start: map<Path, Bytes>)
      returns (copied: bool)
      requires Apart(source, root) && WellFormed(start.Keys, before) && before <= dirs
      requires f in files && f in start && Above(source, f) && files[f] == start[f]
      modifies this`files
      ensures !copied ==> files == old(files)
      ensures dirs == before + NewDirs(before, source, root) ==> (copied <==> Landing(before, source, root, f) !in before)
      ensures copied && dirs == before + NewDirs(before, source, root) ==>
                files == old(files)[Landing(before, source, root, f) := start[f]]
      ensures copied && old(files).Keys !! dirs ==> files.Keys !! dirs
      ensures Kept(old(files), files, root)
    {
      var target := root + f[|source|..];
      var landing := if target in dirs then target + [f[|f| - 1]] else target;
      CopyStep(start, before, source, root, f);
      LandingIsNotMade(start.Keys, before, source, root, f);
      if landing in dirs {
        return false;
      }
      files := files[landing := files[f]];
      copied := true;
    }

    /** `rmtree(source)`. */
    method RemoveTree(source: Path)
      requires Valid()
      modifies this
      ensures Valid()
      ensures files == map p | p in old(files) && !(source <= p) :: old(files)[p]
      ensures dirs == set d | d in old(dirs) && !(source <= d)
    {
      files := map p | p in files && !(source <= p) :: files[p];
      dirs := set d | d in dirs && !(source <= d);
      assert forall p, a: Path | !(source <= p) && Above(a, p) :: !(source <= a);
    }

    /** The whole script: remove the old distributions, merge the fresh tree, drop the staging copy. */
    method Replace(root: Path, source: Path, names: set<string>, dists: seq<Distribution>) returns (o: Outcome)
      requires Valid() && Apart(source, root)
      modifies this
      ensures o.Completed? <==> Completes(old(files).Keys, old(dirs), root, source, names, dists)
      ensures o.Completed? ==> Valid()
      ensures o.Completed? ==> Replaced(old(files), old(dirs), root, source, names, dists, files, dirs)
      ensures OutsideKept(old(files), old(dirs), root, source, files, dirs)
    {
      ghost var files0, dirs0 := files, dirs;
      o := RemoveInstalled(root, names, dists);
      OutsideOfRemoval(files0, dirs0, root, source, names, dists, files, dirs);
      if o.Failed? {
        return;
      }
      ghost var kept, left := files, dirs;
      o := CopyTree(source, root);
      OutsideOfMerge(files0, dirs0, root, source, kept, left, files, dirs);
      if o.Failed? {
        return;
      }
      hide WellFormed, Apart, Kept, MergedInto, OnlyRemoved, OutsideKept, Listed, ParentsOf, Prunable, NewDirs;
      hide Merges, RemovesAll;
      ghost var merged, made := files, dirs;
      RemoveTree(source);
      OutsideOfStaging(files0, dirs0, root, source, merged, made, files, dirs);
      StagedAgain(kept, merged, files, source, root);
    }
  }

  lemma OutsideOfRemoval(
    files0: map<Path, Bytes>, dirs0: set<Path>, root: Path, source: Path, names: set<string>,
    dists: seq<Distribution>, files: map<Path, Bytes>, dirs: set<Path>)
    requires OnlyRemoved(files0, files, Listed(root, names, dists))
    requires forall d | d in dirs0 && d !in dirs :: d in ParentsOf(root, Listed(root, names, dists))
    ensures OutsideKept(files0, dirs0, root, source, files, dirs)
  {
    ListedInside(root, names, dists);
    hide Listed, ParentsOf;
  }

  lemma OutsideOfMerge(
    files0: map<Path, Bytes>, dirs0: set<Path>, root: Path, source: Path, kept: map<Path, Bytes>, left: set<Path>,
    files: map<Path, Bytes>, dirs: set<Path>)
    requires OutsideKept(files0, dirs0, root, source, kept, left) && Kept(kept, files, root) && left <= dirs
    ensures OutsideKept(files0, dirs0, root, source, files, dirs)
  {
  }

  lemma OutsideOfStaging(
    files0: map<Path, Bytes>, dirs0: set<Path>, root: Path, source: Path, merged: map<Path, Bytes>, made: set<Path>,
    files: map<Path, Bytes>, dirs: set<Path>)
    requires OutsideKept(files0, dirs0, root, source, merged, made)
    requires files == map p | p in merged && !(source <= p) :: merged[p]
    requires dirs == set d | d in made && !(source <= d)
    ensures OutsideKept(files0, dirs0, root, source, files, dirs)
  {
  }

  /** The staging copy is as it was until it is dropped. */
  lemma StagedAgain(
    kept: map<Path, Bytes>, merged: map<Path, Bytes>, files: map<Path, Bytes>, source: Path, root: Path)
    requires Apart(source, root) && Kept(kept, merged, root)
    requires files == map p | p in merged && !(source <= p) :: merged[p]
    ensures files + (map p | p in kept && source <= p :: kept[p]) == merged
  {
    forall p | p in merged && source <= p ensures p in kept && merged[p] == kept[p] {
      BelowTarget(source, root, p);
    }
  }

  lemma ListedInside(root: Path, names: set<string>, dists: seq<Distribution>)
    ensures forall p | p in Listed(root, names, dists) :: root <= p
    ensures forall d | d in ParentsOf(root, Listed(root, names, dists)) :: root <= d
  {
  }

  // When a replacement completes, by what the script meets.

  /**
   * Entry `i` of a manifest can be unlinked once those before it are: it is inside, and neither is it a
   * directory nor does it lie below a file.
   */
  ghost predicate ClearsAt(root: Path, entries: seq<Entry>, i: nat, files: set<Path>, dirs: set<Path>)
    requires i < |entries|
  {
    entries[i].Inside? && Removable(files - Paths(root, entries[..i]), dirs, root + entries[i].rel)
  }

  ghost predicate Clears(root: Path, entries: seq<Entry>, files: set<Path>, dirs: set<Path>) {
    forall i | 0 <= i < |entries| :: ClearsAt(root, entries, i, files, dirs)
  }

  /** Distribution `n` is not to be replaced, or can be removed once those before it are. */
  ghost predicate RemovesAt(
    root: Path, names: set<string>, dists: seq<Distribution>, n: nat, files: set<Path>, dirs: set<Path>)
    requires n < |dists|
  {
    Named(dists[n], names) ==>
      && dists[n].manifest.Recorded?
      && var gone := Listed(root, names, dists[..n]);
         Clears(root, dists[n].manifest.entries, files - gone, dirs - Prunable(files - gone, dirs, ParentsOf(root, gone)))
  }

  ghost predicate RemovesAll(
    root: Path, names: set<string>, dists: seq<Distribution>, files: set<Path>, dirs: set<Path>)
  {
    forall n | 0 <= n < |dists| :: RemovesAt(root, names, dists, n, files, dirs)
  }

  /** No staged file lands on a directory. */
  ghost predicate Lands(files: set<Path>, dirs: set<Path>, source: Path, root: Path) {
    forall f | f in files && Above(source, f) :: Landing(dirs, source, root, f) !in dirs
  }

  /** The staged tree is there, and neither a file stands where the merge needs a directory nor the reverse. */
  ghost predicate Merges(files: set<Path>, dirs: set<Path>, source: Path, root: Path) {
    source in dirs && files !! NewDirs(dirs, source, root) && Lands(files, dirs, source, root)
  }

  ghost predicate Completes(
    files: set<Path>, dirs: set<Path>, root: Path, source: Path, names: set<string>, dists: seq<Distribution>)
  {
    var gone := Listed(root, names, dists);
    && RemovesAll(root, names, dists, files, dirs)
    && Merges(files - gone, dirs - Prunable(files - gone, dirs, ParentsOf(root, gone)), source, root)
  }

  lemma RemovableByPrefixes(files: set<Path>, dirs: set<Path>, p: Path)
    ensures Removable(files, dirs, p) <==> p !in dirs && forall k | 0 <= k < |p| :: p[..k] !in files
  {
    forall f | f in files && Above(f, p) ensures f == p[..|f|] && |f| < |p| {}
  }

  /** No directory the merge makes is where a staged file lands. */
  lemma LandingIsNotMade(files: set<Path>, dirs: set<Path>, source: Path, root: Path, f: Path)
    requires WellFormed(files, dirs) && Apart(source, root) && f in files && Above(source, f)
    ensures Landing(dirs, source, root, f) !in NewDirs(dirs, source, root)
  {
    var landing := Landing(dirs, source, root, f);
    LandingShape(dirs, source, root, f);
    forall d | d in dirs && source <= d ensures root + d[|source|..] != landing {
      var rel := d[|source|..];
      assert (root + rel)[|root|..] == rel && d == source + rel;
      assert f[|source|..] <= rel ==> f <= d;
    }
  }

  /** Nothing outside the target and the staging copy is removed or changed. */
  ghost predicate OutsideKept(
    files0: map<Path, Bytes>, dirs0: set<Path>, root: Path, source: Path, files: map<Path, Bytes>, dirs: set<Path>)
  {
    && (forall p | p in files0 && !(root <= p) && !(source <= p) :: p in files && files[p] == files0[p])
    && (forall p | p in files && !(root <= p) :: p in files0 && files[p] == files0[p])
    && (forall d | d in dirs0 && !(root <= d) && !(source <= d) :: d in dirs)
  }

  /** The old files without those listed, and the directories that survive their removal. */
  function Unlisted(files0: map<Path, Bytes>, root: Path, names: set<string>, dists: seq<Distribution>): map<Path, Bytes> {
    files0 - Listed(root, names, dists)
  }

  ghost function Surviving(
    files0: map<Path, Bytes>, dirs0: set<Path>, root: Path, names: set<string>, dists: seq<Distribution>): set<Path>
  {
    dirs0 - Prunable(Unlisted(files0, root, names, dists).Keys, dirs0, ParentsOf(root, Listed(root, names, dists)))
  }

  /** The tree a completed replacement leaves. */
  ghost predicate Replaced(
    files0: map<Path, Bytes>, dirs0: set<Path>, root: Path, source: Path, names: set<string>,
    dists: seq<Distribution>, files: map<Path, Bytes>, dirs: set<Path>)
  {
    var kept, left := Unlisted(files0, root, names, dists), Surviving(files0, dirs0, root, names, dists);
    && MergedInto(kept, left, source, root, files + map p | p in kept && source <= p :: kept[p])
    && (forall p | p in files :: !(source <= p))
    && dirs == set d | d in left + NewDirs(left, source, root) && !(source <= d)
  }

  /** The target holds the old files without those listed, overlaid by the staged ones. */
  ghost predicate ExactOverlay(
    files0: map<Path, Bytes>, root: Path, source: Path, names: set<string>, dists: seq<Distribution>,
    files: map<Path, Bytes>)
  {
    var kept := Unlisted(files0, root, names, dists);
    forall p | Above(root, p) ::
      var staged := source + p[|root|..];
      && (p in files <==> staged in files0 || p in kept)
      && (p in files ==> files[p] == if staged in files0 then files0[staged] else kept[p])
  }

  /** A staged file finds a directory in its place. */
  ghost predicate Obstructed(
    files0: map<Path, Bytes>, dirs0: set<Path>, root: Path, source: Path, names: set<string>, dists: seq<Distribution>)
  {
    exists f | f in files0 && Above(source, f) :: root + f[|source|..] in Surviving(files0, dirs0, root, names, dists)
  }

  /**
   * A completed replacement gives exactly the overlay, except when a surviving directory stands
   * where a staged file belongs: then the copy silently lands one level too deep.
   */
  lemma OverlayUnlessObstructed(
    files0: map<Path, Bytes>, dirs0: set<Path>, root: Path, source: Path, names: set<string>,
    dists: seq<Distribution>, files: map<Path, Bytes>, dirs: set<Path>)
    requires WellFormed(files0.Keys, dirs0) && WellFormed(files.Keys, dirs) && Apart(source, root)
    requires Replaced(files0, dirs0, root, source, names, dists, files, dirs)
    ensures ExactOverlay(files0, root, source, names, dists, files)
            <==> !Obstructed(files0, dirs0, root, source, names, dists)
  {
    var kept, left := Unlisted(files0, root, names, dists), Surviving(files0, dirs0, root, names, dists);
    var merged := files + map p | p in kept && source <= p :: kept[p];
    forall f | f in files0 && source <= f ensures f in kept {
      BelowTarget(source, root, f);
      ListedInside(root, names, dists);
    }
    if f :| f in files0 && Above(source, f) && root + f[|source|..] in left {
      var p := root + f[|source|..];
      BelowTarget(source, root, p);
      assert Above(root, p) && p[|root|..] == f[|source|..];
      assert source + p[|root|..] == f;
      assert p in dirs && p !in files;
    } else {
      forall p | Above(root, p)
        ensures var staged := source + p[|root|..];
                && (p in files <==> staged in files0 || p in kept)
                && (p in files ==> files[p] == if staged in files0 then files0[staged] else kept[p])
      {
        BelowTarget(source, root, p);
        OverlayAt(kept, left, source, root, merged, p);
      }
    }
  }

  /**
   * Such a replacement, which completes: the staged file `a` finds a directory `a` in its place, kept by
   * an unlisted file in it.
   */
  lemma ObstructedCompletes() returns (files: map<Path, Bytes>, dirs: set<Path>, root: Path, source: Path)
    ensures WellFormed(files.Keys, dirs) && Apart(source, root)
    ensures Completes(files.Keys, dirs, root, source, {}, []) && Obstructed(files, dirs, root, source, {}, [])
  {
    root, source := ["target"], ["staged"];
    var staged, kept := ["staged", "a"], ["target", "a", "x"];
    files, dirs := map[staged := [], kept := []], {[], root, source, ["target", "a"]};
    var inner: Path := ["target", "a"];
    assert source[0] != root[0];
    assert staged[..1] == source && kept[..1] == inner[..1] == root && kept[..2] == inner;
    forall p, d: Path | (p in files || p in dirs) && Above(d, p) ensures d in dirs {
      assert d == p[..|d|] && |d| <= 2;
    }
    assert Listed(root, {}, []) == {} && ParentsOf(root, {}) == {};
    assert Prunable(files.Keys, dirs, {}) == {} && files.Keys - {} == files.Keys && files - {} == files;
    assert staged[|source|..] == ["a"] && root + ["a"] == ["target", "a"];
    assert Surviving(files, dirs, root, {}, []) == dirs;
  }

  /** One path of an unobstructed merge. */
  lemma OverlayAt(
    before: map<Path, Bytes>, dirs: set<Path>, source: Path, root: Path, merged: map<Path, Bytes>, p: Path)
    requires MergedInto(before, dirs, source, root, merged) && Above(root, p)
    requires forall f | f in before && Above(source, f) :: root + f[|source|..] !in dirs
    ensures var staged := source + p[|root|..];
            && (p in merged <==> staged in before || p in before)
            && (p in merged ==> merged[p] == if staged in before then before[staged] else before[p])
  {
    var staged := source + p[|root|..];
    assert staged[|source|..] == p[|root|..];
    assert root + staged[|source|..] == p;
    if staged in before {
      assert Above(source, staged) && Landing(dirs, source, root, staged) == p;
    } else if p in merged {
      forall f | f in before && Above(source, f) ensures Landing(dirs, source, root, f) != p {
        assert (root + f[|source|..])[|root|..] == f[|source|..];
        assert source + f[|source|..] == f;
      }
    }
  }

  /** Neither path lies within the other. */
  predicate Apart(source: Path, root: Path) {
    !(source <= root) && !(root <= source)
  }

  /** Everything outside `root` is as before. */
  ghost predicate Kept(before: map<Path, Bytes>, after: map<Path, Bytes>, root: Path) {
    && (forall p | p in before :: p in after)
    && (forall p | p in after && !(root <= p) :: p in before && after[p] == before[p])
  }

  /** The directories a merge needs: the target with its ancestors, and a copy of every source one. */
  function NewDirs(dirs: set<Path>, source: Path, root: Path): set<Path> {
    (set k | 0 <= k <= |root| :: root[..k]) + (set d | d in dirs && source <= d :: root + d[|source|..])
  }

  /**
   * Where a source file ends up: at its place under the target, unless a directory is there, which
   * the copy then descends into.
   */
  function Landing(dirs: set<Path>, source: Path, root: Path, f: Path): Path
    requires Above(source, f)
  {
    var target := root + f[|source|..];
    if target in dirs then target + [f[|f| - 1]] else target
  }

  /** `result` is `before` with the source files of `copied` written where they land. */
  ghost predicate MergedFrom(
    before: map<Path, Bytes>, dirs: set<Path>, source: Path, root: Path, copied: set<Path>,
    result: map<Path, Bytes>)
    requires forall f | f in copied :: Above(source, f) && f in before
  {
    && before.Keys <= result.Keys
    && (forall f | f in copied ::
          Landing(dirs, source, root, f) in result && result[Landing(dirs, source, root, f)] == before[f])
    && (forall p | p in result ::
          (p in before && result[p] == before[p]) || exists f | f in copied :: Landing(dirs, source, root, f) == p)
  }

  /** How far the copying got: it fails exactly when a file of `copied` lands on a directory. */
  ghost predicate Copied(
    before: map<Path, Bytes>, dirs: set<Path>, source: Path, root: Path, copied: set<Path>,
    result: map<Path, Bytes>, now: set<Path>, clean: bool, o: Outcome)
    requires forall f | f in copied :: Above(source, f) && f in before
  {
    && (o.Completed? <==> clean && forall f | f in copied :: Landing(dirs, source, root, f) !in dirs)
    && (o.Completed? ==> result.Keys !! now && MergedFrom(before, dirs, source, root, copied, result))
  }

  lemma KeptBelowSource(before: map<Path, Bytes>, after: map<Path, Bytes>, source: Path, root: Path, p: Path)
    requires Kept(before, after, root) && Apart(source, root) && Above(source, p) && p in before
    ensures p in after && after[p] == before[p]
  {
    BelowTarget(source, root, p);
  }

  /** Two paths above one path are comparable. */
  lemma Comparable(a: Path, b: Path, p: Path)
    ensures a <= p && b <= p ==> (a <= b <==> |a| <= |b|) && (b <= a <==> |b| <= |a|)
  {
    assert a <= p && b <= p && |a| <= |b| ==> a == p[..|a|] && b[..|a|] == p[..|a|];
    assert a <= p && b <= p && |b| <= |a| ==> b == p[..|b|] && a[..|b|] == p[..|b|];
  }

  /** Nothing below the target is below the source. */
  lemma BelowTarget(source: Path, root: Path, p: Path)
    requires Apart(source, root)
    ensures root <= p ==> !(source <= p)
  {
    Comparable(source, root, p);
  }

  /** One source file lands inside the target, on no copied directory and on no other file's place. */
  lemma CopyStep(before: map<Path, Bytes>, dirs: set<Path>, source: Path, root: Path, f: Path)
    requires WellFormed(before.Keys, dirs) && Apart(source, root)
    requires f in before && Above(source, f)
    ensures root + f[|source|..] !in NewDirs(dirs, source, root)
    ensures root <= Landing(dirs, source, root, f) && !(source <= Landing(dirs, source, root, f))
    ensures forall g | g in before && Above(source, g) && g != f ::
              Landing(dirs, source, root, g) != Landing(dirs, source, root, f)
  {
    var rel := f[|source|..];
    var target := root + rel;
    assert f == source + rel;
    forall d | d in dirs && source <= d ensures root + d[|source|..] != target {
      assert d == source + d[|source|..];
      assert (root + d[|source|..])[|root|..] == d[|source|..] && target[|root|..] == rel;
    }
    BelowTarget(source, root, Landing(dirs, source, root, f));
    forall g | g in before && Above(source, g) && g != f
      ensures Landing(dirs, source, root, g) != Landing(dirs, source, root, f)
    {
      LandingsDiffer(before, dirs, source, root, f, g);
    }
  }

  /** The path of a source file relative to the source, and what that makes of where it lands. */
  lemma LandingShape(dirs: set<Path>, source: Path, root: Path, f: Path)
    requires Above(source, f)
    ensures var rel := f[|source|..]; var landed := Landing(dirs, source, root, f);
            && f == source + rel && landed == root + landed[|root|..]
            && rel <= landed[|root|..]
            && (root + rel in dirs <==> |landed| == |root + rel| + 1)
            && (root + rel !in dirs <==> landed == root + rel)
  {
    var rel, landed := f[|source|..], Landing(dirs, source, root, f);
    assert landed[|root|..][..|rel|] == rel;
  }

  lemma LandingsDiffer(
    before: map<Path, Bytes>, dirs: set<Path>, source: Path, root: Path, f: Path, g: Path)
    requires WellFormed(before.Keys, dirs) && f != g
    requires f in before && g in before && Above(source, f) && Above(source, g)
    ensures Landing(dirs, source, root, f) != Landing(dirs, source, root, g)
  {
    LandingShape(dirs, source, root, f);
    LandingShape(dirs, source, root, g);
    var relF, relG := f[|source|..], g[|source|..];
    Comparable(relF, relG, Landing(dirs, source, root, f)[|root|..]);
    assert relF < relG ==> Above(f, g);
    assert relG < relF ==> Above(g, f);
  }

  /** Copying one more file keeps the merge a merge. */
  lemma MergeOne(
    before: map<Path, Bytes>, dirs: set<Path>, source: Path, root: Path, copied: set<Path>,
    result: map<Path, Bytes>, f: Path)
    requires WellFormed(before.Keys, dirs) && Apart(source, root)
    requires forall g | g in copied :: Above(source, g) && g in before
    requires Above(source, f) && f in before && f !in copied
    requires MergedFrom(before, dirs, source, root, copied, result)
    ensures MergedFrom(before, dirs, source, root, copied + {f}, result[Landing(dirs, source, root, f) := before[f]])
  {
    CopyStep(before, dirs, source, root, f);
    var at := Landing(dirs, source, root, f);
    var next := result[at := before[f]];
    assert f in copied + {f};
    forall p | p in next
      ensures (p in before && next[p] == before[p])
              || exists g | g in copied + {f} :: Landing(dirs, source, root, g) == p
    {
      if p != at && !(p in before && next[p] == before[p]) {
        var g :| g in copied && Landing(dirs, source, root, g) == p;
        assert g in copied + {f};
      }
    }
  }

  /** A completed merge leaves a well-formed tree. */
  lemma MergedIsWellFormed(
    before: map<Path, Bytes>, dirs: set<Path>, source: Path, root: Path, result: map<Path, Bytes>)
    requires WellFormed(before.Keys, dirs) && source in dirs
    requires MergedInto(before, dirs, source, root, result)
    requires result.Keys !! dirs + NewDirs(dirs, source, root)
    ensures WellFormed(result.Keys, dirs + NewDirs(dirs, source, root))
  {
    var created := NewDirs(dirs, source, root);
    forall p, a: Path | p in result && Above(a, p) ensures a in dirs + created {
      if p !in before {
        var f :| f in before && Above(source, f) && Landing(dirs, source, root, f) == p;
        var target := root + f[|source|..];
        if Above(a, target) {
          AncestorOfCopy(before.Keys, dirs, source, root, f, a);
        } else {
          assert a == target;
        }
      }
    }
    forall p, a: Path | p in created && Above(a, p) ensures a in dirs + created {
      if |p| <= |root| && p == root[..|p|] {
        assert a == root[..|a|];
      } else {
        var d :| d in dirs && source <= d && root + d[|source|..] == p;
        AncestorOfCopy(before.Keys, dirs, source, root, d, a);
      }
    }
  }

  lemma AncestorOfCopy(files: set<Path>, dirs: set<Path>, source: Path, root: Path, p: Path, a: Path)
    requires WellFormed(files, dirs) && source in dirs
    requires (p in files || p in dirs) && source <= p && Above(a, root + p[|source|..])
    ensures a in NewDirs(dirs, source, root)
  {
    var target := root + p[|source|..];
    if |a| <= |root| {
      assert a == target[..|a|] == root[..|a|];
    } else {
      var d := source + a[|root|..];
      assert a[|root|..] == target[|root|..|a|] == p[|source|..][..|a| - |root|];
      assert d == p[..|d|];
      assert Above(d, p);
      assert root + d[|source|..] == a;
    }
  }

  ghost predicate MergedInto(
    before: map<Path, Bytes>, dirs: set<Path>, source: Path, root: Path, result: map<Path, Bytes>)
  {
    MergedFrom(before, dirs, source, root, (set f | f in before && Above(source, f)), result)
  }

  /** `unlink` has nothing to object to at `p`. */
  ghost predicate Removable(files: set<Path>, dirs: set<Path>, p: Path) {
    p !in dirs && forall f | f in files :: !Above(f, p)
  }

  /** Only paths of `allowed` went, and nothing was changed. */
  ghost predicate OnlyRemoved(before: map<Path, Bytes>, after: map<Path, Bytes>, allowed: set<Path>) {
    && after.Keys <= before.Keys
    && (forall p | p in before && p !in after :: p in allowed)
    && (forall p | p in after :: after[p] == before[p])
  }

  lemma PathsNext(root: Path, entries: seq<Entry>, i: nat)
    requires i < |entries|
    ensures Paths(root, entries[..i + 1]) ==
            Paths(root, entries[..i]) + if entries[i].Inside? then {root + entries[i].rel} else {}
    ensures Paths(root, entries[..i + 1]) <= Paths(root, entries)
    ensures entries[i].Inside? ==>
              ParentsOf(root, Paths(root, entries[..i + 1]))
              == ParentsOf(root, Paths(root, entries[..i])) + ParentsInRoot(root, root + entries[i].rel)
  {
    assert entries[..i + 1] == entries[..i] + [entries[i]];
  }

  lemma ListedNext(root: Path, names: set<string>, dists: seq<Distribution>, i: nat)
    requires i < |dists|
    ensures Listed(root, names, dists[..i + 1]) ==
            Listed(root, names, dists[..i])
            + if Named(dists[i], names) && dists[i].manifest.Recorded? then Paths(root, dists[i].manifest.entries) else {}
    ensures Listed(root, names, dists[..i + 1]) <= Listed(root, names, dists)
  {
    var upto := dists[..i + 1];
    assert forall k | 0 <= k < i :: upto[k] == dists[k] && dists[..i][k] == dists[k];
    assert upto[i] == dists[i];
  }

  lemma {:induction false} DeepestExists(paths: set<Path>)
    requires paths != {}
    ensures exists d :: d in paths && forall e | e in paths :: |e| <= |d|
  {
    var p :| p in paths;
    if paths != {p} {
      assert paths == (paths - {p}) + {p};
      DeepestExists(paths - {p});
      var d :| d in paths - {p} && forall e | e in paths - {p} :: |e| <= |d|;
      assert forall e | e in paths :: |e| <= |p| || |e| <= |d|;
    }
  }

  /** When the deepest remaining parent is tried, it is empty exactly if it is prunable. */
  lemma PruneStep(files: set<Path>, dirs: set<Path>, parents: set<Path>, todo: set<Path>, d: Path)
    requires WellFormed(files, dirs) && d in todo && todo <= parents
    requires forall e | e in todo :: |e| <= |d|
    ensures var gone := Prunable(files, dirs, parents);
            var now := dirs - (gone - todo);
            d in gone <==> d in dirs && forall p | p in files || p in now :: !Above(d, p)
  {
    var gone := Prunable(files, dirs, parents);
    var now := dirs - (gone - todo);
    if d in gone {
      forall e | e in dirs && Above(d, e) ensures e in gone - todo {
        assert |e| > |d|;
      }
    } else if d in dirs {
      if e :| e in dirs && Above(d, e) && e !in parents {
        assert e in now;
      }
    }
  }
}
