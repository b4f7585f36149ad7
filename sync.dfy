/** What it means for a stored directory, and the stored subtree below it, to
    agree with the filesystem after reconciliation, and which changes keep that. */
module Sync {
  import opened Wrappers
  import opened Paths
  import opened Disk
  import opened Tree
  import opened Steps

  /** The file rows of `d` whose paths no longer exist. */
  ghost function StaleFiles(fs: FileSystem, s: Store, d: DirId): set<FileKey>
    requires Consistent(s)
  {
    set k | k in s.files && k.dir == d && !fs.Exists(FilePath(s.dirs, k))
  }

  /** The subdirectory rows of `d` whose paths no longer exist. */
  ghost function StaleChildren(fs: FileSystem, s: Store, d: DirId): set<DirId>
    requires Consistent(s)
  {
    set c | c in s.dirs && s.dirs[c].parent == Some(d) && !fs.Exists(AbsPath(s.dirs, c))
  }

  /** Directory `c` still has subdirectories or files: rows that reference it
      through a protected foreign key, so deleting it fails. */
  predicate HasDependents(s: Store, c: DirId)
  {
    || (exists q {:trigger ParentOf(s, q, c)} :: q in s.dirs && ParentOf(s, q, c))
    || (exists k {:trigger FileOf(s, k, c)} :: k in s.files && FileOf(s, k, c))
  }

  predicate ParentOf(s: Store, q: DirId, c: DirId)
  {
    q in s.dirs && s.dirs[q].parent == Some(c)
  }

  predicate FileOf(s: Store, k: FileKey, c: DirId)
  {
    k in s.files && k.dir == c
  }

  /** The stale subdirectories of `d` that can be deleted. */
  ghost function FreeStale(fs: FileSystem, s: Store, d: DirId): set<DirId>
    requires Consistent(s)
  {
    set c | c in StaleChildren(fs, s, d) && !HasDependents(s, c)
  }

  /** A subdirectory row of `d` is stale exactly when its path is gone, and free to
      delete exactly when it is stale and nothing references it. */
  lemma StaleChild(fs: FileSystem, s: Store, d: DirId, c: DirId)
    requires Consistent(s) && c in s.dirs && s.dirs[c].parent == Some(d)
    ensures c in StaleChildren(fs, s, d) <==> !fs.Exists(AbsPath(s.dirs, c))
    ensures c in FreeStale(fs, s, d) <==> c in StaleChildren(fs, s, d) && !HasDependents(s, c)
  {
  }

  /** No row references a deletable stale directory. */
  lemma FreeUnreferenced(fs: FileSystem, s: Store, d: DirId, gone: set<DirId>)
    requires Consistent(s) && gone <= FreeStale(fs, s, d)
    ensures forall q :: q in s.dirs && s.dirs[q].parent.Some? ==> s.dirs[q].parent.value !in gone
    ensures forall k :: k in s.files ==> k.dir !in gone
  {
    forall q | q in s.dirs && s.dirs[q].parent.Some? ensures s.dirs[q].parent.value !in gone {
      var c := s.dirs[q].parent.value;
      if c in gone { assert ParentOf(s, q, c); }
    }
    forall k | k in s.files ensures k.dir !in gone {
      if k.dir in gone { assert FileOf(s, k, k.dir); }
    }
  }

  /** `n` is listed in directory `p` and names a regular file. */
  predicate ListedFile(fs: FileSystem, p: Path, n: string)
  {
    n in fs.Entries(p) && fs.IsFile(Join(p, n))
  }

  /** `n` is listed in directory `p`, is not `.`, and names a directory. */
  predicate ListedDir(fs: FileSystem, p: Path, n: string)
  {
    n in fs.Entries(p) && n != "." && fs.IsDir(Join(p, n))
  }

  /** Directory `d` has a stored subdirectory with segment `n`. */
  ghost predicate HasChild(dirs: Dirs, d: DirId, n: string)
  {
    exists c :: c in dirs && dirs[c].parent == Some(d) && dirs[c].path == n
  }

  /** The state one non-recursive `reindex` of `d` leaves: `d` is a directory on disk,
      its stored files and subdirectories all exist, every listed indexable file is
      stored and every listed subdirectory is stored. */
  ghost predicate LocalSynced(fs: FileSystem, supported: seq<string>, s: Store, d: DirId)
    requires Linked(s.dirs) && d in s.dirs
  {
    var p := AbsPath(s.dirs, d);
    && fs.IsDir(p)
    && (forall k :: k in s.files && k.dir == d ==> fs.Exists(Join(p, k.filename)))
    && (forall c :: c in s.dirs && s.dirs[c].parent == Some(d) ==> fs.Exists(AbsPath(s.dirs, c)))
    && (forall n :: ListedFile(fs, p, n) && Indexable(n, supported) ==> FileKey(d, n) in s.files)
    && (forall n :: ListedDir(fs, p, n) ==> HasChild(s.dirs, d, n))
  }

  /** A listed subdirectory's path is one component longer than its parent's. */
  lemma ChildDeeper(fs: FileSystem, dirs: Dirs, d: DirId, c: DirId)
    requires fs.WellFormed() && Linked(dirs) && c in dirs && dirs[c].parent == Some(d)
    requires ListedDir(fs, AbsPath(dirs, d), dirs[c].path)
    ensures AbsPath(dirs, c) == AbsPath(dirs, d) + [dirs[c].path]
    ensures fs.Deeper(AbsPath(dirs, c)) < fs.Deeper(AbsPath(dirs, d))
  {
    var p, n := AbsPath(dirs, d), dirs[c].path;
    assert fs.IsDir(p) && n in fs.nodes[p].entries;
    EntryParts(n);
    DeeperShrinks(fs, p, n);
  }

  /** The state a recursive `reindex` of `d` leaves: `d` is locally in step with the
      disk, and so, recursively, is every stored subdirectory the disk lists. */
  ghost predicate Synced(fs: FileSystem, supported: seq<string>, s: Store, d: DirId)
    requires fs.WellFormed() && Linked(s.dirs) && d in s.dirs
    decreases fs.Deeper(AbsPath(s.dirs, d))
  {
    && LocalSynced(fs, supported, s, d)
    && forall c :: c in s.dirs && s.dirs[c].parent == Some(d) && ListedDir(fs, AbsPath(s.dirs, d), s.dirs[c].path) ==>
         (ChildDeeper(fs, s.dirs, d, c);
          Synced(fs, supported, s, c))
  }

  /** The rows `Synced(c)` reads are the same in both states. */
  ghost predicate Agree(x: Store, y: Store, c: DirId)
    requires Linked(x.dirs) && Linked(y.dirs) && c in x.dirs
  {
    && c in y.dirs
    && RowsAgree(x.dirs, y.dirs)
    && (forall id :: id in y.dirs && StrictlyBelow(y.dirs, id, c) ==> id in x.dirs)
    && (forall id :: id in x.dirs && StrictlyBelow(x.dirs, id, c) ==> id in y.dirs)
    && (forall k :: k in x.files && k.dir in x.dirs && IsDesc(x.dirs, k.dir, c) ==> k in y.files)
    && (forall k :: k in y.files && k.dir in y.dirs && IsDesc(y.dirs, k.dir, c) ==> k in x.files)
  }

  /** Agreement on a directory's subtree is agreement on each subdirectory's subtree. */
  lemma AgreeChild(x: Store, y: Store, c: DirId, id: DirId)
    requires Linked(x.dirs) && Linked(y.dirs) && c in x.dirs && Agree(x, y, c)
    requires id in x.dirs && x.dirs[id].parent == Some(c)
    ensures id in y.dirs && Agree(x, y, id)
  {
    assert StrictlyBelow(x.dirs, id, c);
    forall j | j in y.dirs && StrictlyBelow(y.dirs, j, id) ensures j in x.dirs {
      DescTrans(y.dirs, y.dirs[j].parent.value, id, c);
    }
    forall j | j in x.dirs && StrictlyBelow(x.dirs, j, id) ensures j in y.dirs {
      DescTrans(x.dirs, x.dirs[j].parent.value, id, c);
    }
    forall k | k in x.files && k.dir in x.dirs && IsDesc(x.dirs, k.dir, id) ensures k in y.files {
      DescTrans(x.dirs, k.dir, id, c);
    }
    forall k | k in y.files && k.dir in y.dirs && IsDesc(y.dirs, k.dir, id) ensures k in x.files {
      DescTrans(y.dirs, k.dir, id, c);
    }
  }

  /** Local agreement is kept by any change that leaves the subtree's rows alone. */
  lemma LocalSyncedFrame(fs: FileSystem, supported: seq<string>, x: Store, y: Store, c: DirId)
    requires Linked(x.dirs) && Linked(y.dirs) && c in x.dirs && Agree(x, y, c)
    requires LocalSynced(fs, supported, x, c)
    ensures LocalSynced(fs, supported, y, c)
  {
    AbsStable(x.dirs, y.dirs, c);
    var p := AbsPath(x.dirs, c);
    forall k | k in y.files && k.dir == c ensures fs.Exists(Join(p, k.filename)) {
      assert IsDesc(y.dirs, c, c);
    }
    forall id | id in y.dirs && y.dirs[id].parent == Some(c) ensures fs.Exists(AbsPath(y.dirs, id)) {
      assert StrictlyBelow(y.dirs, id, c);
      AbsStable(x.dirs, y.dirs, id);
    }
    forall n | ListedFile(fs, p, n) && Indexable(n, supported) ensures FileKey(c, n) in y.files {
      assert IsDesc(x.dirs, c, c);
    }
    forall n | ListedDir(fs, p, n) ensures HasChild(y.dirs, c, n) {
      var id :| id in x.dirs && x.dirs[id].parent == Some(c) && x.dirs[id].path == n;
      assert StrictlyBelow(x.dirs, id, c);
    }
  }

  /** Agreement with the disk below `c` is kept by any change that leaves the
      rows of that subtree alone. */
  lemma {:induction false} SyncedFrame(fs: FileSystem, supported: seq<string>, x: Store, y: Store, c: DirId)
    requires fs.WellFormed() && Linked(x.dirs) && Linked(y.dirs) && c in x.dirs && Agree(x, y, c)
    requires Synced(fs, supported, x, c)
    ensures Synced(fs, supported, y, c)
    decreases fs.Deeper(AbsPath(x.dirs, c))
  {
    LocalSyncedFrame(fs, supported, x, y, c);
    AbsStable(x.dirs, y.dirs, c);
    var p := AbsPath(x.dirs, c);
    forall id | id in y.dirs && y.dirs[id].parent == Some(c) && ListedDir(fs, p, y.dirs[id].path)
      ensures Synced(fs, supported, y, id)
    {
      assert StrictlyBelow(y.dirs, id, c);
      assert id in x.dirs && x.dirs[id] == y.dirs[id];
      ChildDeeper(fs, x.dirs, c, id);
      AgreeChild(x, y, c, id);
      SyncedFrame(fs, supported, x, y, id);
    }
  }

  /** A step confined to the subtree of `e` leaves alone every subtree disjoint from it. */
  lemma AgreeFromWithin(fs: FileSystem, x: Store, y: Store, e: DirId, c: DirId)
    requires Consistent(x) && Consistent(y) && Step(fs, x, y) && Within(x, y, e)
    requires e in x.dirs && c in x.dirs && c in y.dirs
    requires !IsDesc(x.dirs, c, e) && !IsDesc(x.dirs, e, c)
    ensures Agree(x, y, c)
  {
    DescStable(x.dirs, y.dirs, c, e);
    forall id | id in y.dirs && StrictlyBelow(y.dirs, id, c) ensures id in x.dirs {
      assert DirWithin(x, y, e, id);
      if id !in x.dirs {
        var q := y.dirs[id].parent.value;
        DescLinear(y.dirs, q, c, e);
        DescStable(x.dirs, y.dirs, e, c);
      }
    }
    forall id | id in x.dirs && StrictlyBelow(x.dirs, id, c) ensures id in y.dirs {
      assert DirWithin(x, y, e, id);
      if id !in y.dirs {
        DescLinear(x.dirs, x.dirs[id].parent.value, c, e);
      }
    }
    forall k | k in x.files && k.dir in x.dirs && IsDesc(x.dirs, k.dir, c) ensures k in y.files {
      assert FileWithin(x, y, e, k);
      if k !in y.files {
        DescLinear(x.dirs, k.dir, c, e);
      }
    }
    forall k | k in y.files && k.dir in y.dirs && IsDesc(y.dirs, k.dir, c) ensures k in x.files {
      assert FileWithin(x, y, e, k);
      if k !in x.files {
        DescLinear(y.dirs, k.dir, c, e);
        DescStable(x.dirs, y.dirs, e, c);
      }
    }
  }

  /** A step that touches only rows hanging off `d` leaves alone every subtree not containing `d`. */
  lemma AgreeFromAt(fs: FileSystem, x: Store, y: Store, d: DirId, c: DirId)
    requires Consistent(x) && Consistent(y) && Step(fs, x, y) && AtOnly(x, y, d)
    requires d in x.dirs && d in y.dirs && c in x.dirs && c in y.dirs
    requires !IsDesc(x.dirs, d, c)
    ensures Agree(x, y, c)
  {
    DescStable(x.dirs, y.dirs, d, c);
    forall id | id in y.dirs && StrictlyBelow(y.dirs, id, c) ensures id in x.dirs {
      assert DirAt(x, y, d, id);
    }
    forall id | id in x.dirs && StrictlyBelow(x.dirs, id, c) ensures id in y.dirs {
      assert DirAt(x, y, d, id);
    }
    forall k | k in x.files && k.dir in x.dirs && IsDesc(x.dirs, k.dir, c) ensures k in y.files {
      assert FileAt(x, y, d, k);
    }
    forall k | k in y.files && k.dir in y.dirs && IsDesc(y.dirs, k.dir, c) ensures k in x.files {
      assert FileAt(x, y, d, k);
    }
  }

  // ---------------------------------------------------------------------------
  // One run of `reindex` on a directory, entry by entry

  /** The stored files and subdirectories of `d` all exist on disk. */
  ghost predicate OwnRowsExist(fs: FileSystem, s: Store, d: DirId)
    requires Consistent(s) && d in s.dirs
  {
    && (forall k :: k in s.files && k.dir == d ==> fs.Exists(Join(AbsPath(s.dirs, d), k.filename)))
    && (forall c :: c in s.dirs && s.dirs[c].parent == Some(d) ==> fs.Exists(AbsPath(s.dirs, c)))
  }

  /** The listed entry `n` of `d` has been reconciled: an indexable file is stored, a
      subdirectory is stored and, when the walk recurses, in step with the disk. */
  ghost predicate EntryDone(fs: FileSystem, supported: seq<string>, s: Store, d: DirId, n: string, recursively: bool)
    requires fs.WellFormed() && Consistent(s) && d in s.dirs
  {
    var p := AbsPath(s.dirs, d);
    && (ListedFile(fs, p, n) && Indexable(n, supported) ==> FileKey(d, n) in s.files)
    && (ListedDir(fs, p, n) ==> HasChild(s.dirs, d, n))
    && (recursively && ListedDir(fs, p, n) ==>
          forall c :: c in s.dirs && s.dirs[c] == DirRow(Some(d), n) ==> Synced(fs, supported, s, c))
  }

  /** The state the entry loop of `reindex` keeps after the stale rows are gone:
      `d` is a directory, its rows exist, and the entries in `done` are reconciled. */
  ghost predicate Progress(fs: FileSystem, supported: seq<string>, s: Store, d: DirId, done: seq<string>, recursively: bool)
    requires fs.WellFormed() && Consistent(s) && d in s.dirs
  {
    && fs.IsDir(AbsPath(s.dirs, d))
    && OwnRowsExist(fs, s, d)
    && forall n :: n in done ==> EntryDone(fs, supported, s, d, n, recursively)
  }

  /** Progress over every entry of a finished loop is progress over the listing. */
  lemma ProgressAll(fs: FileSystem, supported: seq<string>, s: Store, d: DirId, entries: seq<string>, i: nat, recursively: bool)
    requires fs.WellFormed() && Consistent(s) && d in s.dirs && i == |entries|
    requires Progress(fs, supported, s, d, entries[..i], recursively)
    ensures Progress(fs, supported, s, d, entries, recursively)
  {
    assert entries[..i] == entries;
  }

  lemma ProgressExtend(fs: FileSystem, supported: seq<string>, s: Store, d: DirId, done: seq<string>, n: string, recursively: bool)
    requires fs.WellFormed() && Consistent(s) && d in s.dirs
    requires Progress(fs, supported, s, d, done, recursively) && EntryDone(fs, supported, s, d, n, recursively)
    ensures Progress(fs, supported, s, d, done + [n], recursively)
  {
  }

  /** Once every entry is reconciled, `d` is in step with the disk. */
  lemma ProgressSynced(fs: FileSystem, supported: seq<string>, s: Store, d: DirId, recursively: bool)
    requires fs.WellFormed() && Consistent(s) && d in s.dirs
    requires Progress(fs, supported, s, d, fs.Entries(AbsPath(s.dirs, d)), recursively)
    ensures LocalSynced(fs, supported, s, d)
    ensures recursively ==> Synced(fs, supported, s, d)
  {
    var p := AbsPath(s.dirs, d);
    forall n | ListedDir(fs, p, n) ensures HasChild(s.dirs, d, n) {
      assert EntryDone(fs, supported, s, d, n, recursively);
    }
    forall n | ListedFile(fs, p, n) && Indexable(n, supported) ensures FileKey(d, n) in s.files {
      assert EntryDone(fs, supported, s, d, n, recursively);
    }
    if recursively {
      forall c | c in s.dirs && s.dirs[c].parent == Some(d) && ListedDir(fs, p, s.dirs[c].path)
        ensures Synced(fs, supported, s, c)
      {
        assert EntryDone(fs, supported, s, d, s.dirs[c].path, recursively);
      }
    }
  }

  /** A directory in step with the disk has every entry reconciled and no stale rows. */
  lemma SyncedDone(fs: FileSystem, supported: seq<string>, s: Store, d: DirId, recursively: bool)
    requires fs.WellFormed() && Consistent(s) && d in s.dirs
    requires if recursively then Synced(fs, supported, s, d) else LocalSynced(fs, supported, s, d)
    ensures Progress(fs, supported, s, d, fs.Entries(AbsPath(s.dirs, d)), recursively)
    ensures StaleFiles(fs, s, d) == {} && StaleChildren(fs, s, d) == {}
  {
    var p := AbsPath(s.dirs, d);
    forall n | n in fs.Entries(p) ensures EntryDone(fs, supported, s, d, n, recursively) {
      if recursively && ListedDir(fs, p, n) {
        forall c | c in s.dirs && s.dirs[c] == DirRow(Some(d), n) ensures Synced(fs, supported, s, c) {
          assert ListedDir(fs, p, s.dirs[c].path);
        }
      }
    }
    forall k | k in s.files && k.dir == d ensures fs.Exists(FilePath(s.dirs, k)) {
    }
  }

  /** A subdirectory row of `d` lies outside the ancestors of `d`. */
  lemma ChildNotAbove(dirs: Dirs, d: DirId, c: DirId)
    requires Linked(dirs) && d in dirs && c in dirs && dirs[c].parent == Some(d)
    ensures !IsDesc(dirs, d, c)
  {
    if IsDesc(dirs, d, c) { DescOrder(dirs, d, c); }
  }

  /** Saving rows at `d` keeps the entries already reconciled. */
  lemma ProgressGrow(fs: FileSystem, supported: seq<string>, x: Store, y: Store, d: DirId, done: seq<string>, recursively: bool)
    requires fs.WellFormed() && Consistent(x) && Consistent(y) && d in x.dirs
    requires Step(fs, x, y) && AtOnly(x, y, d)
    requires x.files.Keys <= y.files.Keys && x.dirs.Keys <= y.dirs.Keys
    requires Progress(fs, supported, x, d, done, recursively)
    ensures d in y.dirs && Progress(fs, supported, y, d, done, recursively)
  {
    AbsStable(x.dirs, y.dirs, d);
    var p := AbsPath(x.dirs, d);
    forall c | c in y.dirs && y.dirs[c].parent == Some(d) ensures fs.Exists(AbsPath(y.dirs, c)) {
      assert DirStep(fs, x, y, c);
      if c in x.dirs { AbsStable(x.dirs, y.dirs, c); }
    }
    forall k | k in y.files && k.dir == d ensures fs.Exists(Join(p, k.filename)) {
      assert FileStep(fs, x, y, k);
    }
    forall n | n in done ensures EntryDone(fs, supported, y, d, n, recursively) {
      assert EntryDone(fs, supported, x, d, n, recursively);
      if ListedDir(fs, p, n) {
        var w :| w in x.dirs && x.dirs[w].parent == Some(d) && x.dirs[w].path == n;
        assert y.dirs[w] == x.dirs[w];
        if recursively {
          forall c | c in y.dirs && y.dirs[c] == DirRow(Some(d), n) ensures Synced(fs, supported, y, c) {
            assert SameSlot(y.dirs, c, w);
            ChildNotAbove(x.dirs, d, c);
            AgreeFromAt(fs, x, y, d, c);
            SyncedFrame(fs, supported, x, y, c);
          }
        }
      }
    }
  }

  /** A change inside the subtree of the subdirectory `e` of `d` keeps the entries of `d`
      already reconciled, given that `e` itself is left in step with the disk. */
  lemma ProgressWithin(fs: FileSystem, supported: seq<string>, x: Store, y: Store, d: DirId, e: DirId,
                       done: seq<string>, recursively: bool)
    requires fs.WellFormed() && Consistent(x) && Consistent(y) && d in x.dirs && d in y.dirs
    requires e in x.dirs && x.dirs[e].parent == Some(d) && e in y.dirs
    requires Step(fs, x, y) && Within(x, y, e)
    requires recursively ==> Synced(fs, supported, y, e)
    requires Progress(fs, supported, x, d, done, recursively)
    ensures Progress(fs, supported, y, d, done, recursively)
  {
    ChildNotAbove(x.dirs, d, e);
    WithinSpares(fs, x, y, e, d);
    AbsStable(x.dirs, y.dirs, d);
    var p := AbsPath(x.dirs, d);
    forall c | c in y.dirs && y.dirs[c].parent == Some(d) ensures fs.Exists(AbsPath(y.dirs, c)) {
      AbsStable(x.dirs, y.dirs, c);
    }
    forall n | n in done ensures EntryDone(fs, supported, y, d, n, recursively) {
      assert EntryDone(fs, supported, x, d, n, recursively);
      if ListedDir(fs, p, n) {
        var w :| w in x.dirs && x.dirs[w].parent == Some(d) && x.dirs[w].path == n;
        assert y.dirs[w] == x.dirs[w];
        if recursively {
          forall c | c in y.dirs && y.dirs[c] == DirRow(Some(d), n) ensures Synced(fs, supported, y, c) {
            if c != e {
              SiblingsApart(x.dirs, c, e, d);
              SiblingsApart(x.dirs, e, c, d);
              AgreeFromWithin(fs, x, y, e, c);
              SyncedFrame(fs, supported, x, y, c);
            }
          }
        }
      }
    }
  }

  /** Deleting stale rows of `d` is a step at `d`, counted by what it deletes. */
  lemma PruneStep(fs: FileSystem, x: Store, d: DirId, gf: set<FileKey>, gd: set<DirId>)
    requires Consistent(x) && d in x.dirs
    requires gf <= StaleFiles(fs, x, d) && gd <= StaleChildren(fs, x, d)
    requires Consistent(Store(x.dirs - gd, x.files - gf, x.nextId))
    ensures Step(fs, x, Store(x.dirs - gd, x.files - gf, x.nextId))
    ensures AtOnly(x, Store(x.dirs - gd, x.files - gf, x.nextId), d)
  {
    var y := Store(x.dirs - gd, x.files - gf, x.nextId);
    forall id ensures DirStep(fs, x, y, id) {
      if id in x.dirs && id !in y.dirs { assert id in gd; }
    }
    forall k ensures FileStep(fs, x, y, k) {
      if k in x.files && k !in y.files { assert k in gf; }
    }
  }

  lemma PruneCounts(x: Store, gf: set<FileKey>, gd: set<DirId>)
    requires gf <= x.files.Keys && gd <= x.dirs.Keys
    ensures CountsOf(x, Store(x.dirs - gd, x.files - gf, x.nextId)) == Counters(|gf|, |gd|, 0, 0)
  {
    GoneRemove(x.files, gf);
    GoneRemove(x.dirs, gd);
    PlusFields(CountsOf(x, Store(x.dirs - gd, x.files - gf, x.nextId)), Counters(|gf|, |gd|, 0, 0), NoChanges);
  }

  /** The stale subdirectory `c` below `d` could not be deleted because rows still reference it. */
  ghost predicate Blocked(fs: FileSystem, s: Store, c: DirId, d: DirId)
    requires Consistent(s)
  {
    c in s.dirs && StrictlyBelow(s.dirs, c, d) && !fs.Exists(AbsPath(s.dirs, c)) && HasDependents(s, c)
  }

  lemma BlockedWiden(fs: FileSystem, s: Store, c: DirId, e: DirId, d: DirId)
    requires Consistent(s) && e in s.dirs && s.dirs[e].parent == Some(d) && Blocked(fs, s, c, e)
    ensures Blocked(fs, s, c, d)
  {
    DescTrans(s.dirs, s.dirs[c].parent.value, e, d);
  }

  /** Deleting rows that are not subdirectories of `c` keeps what references `c`. */
  lemma DependentsKept(s: Store, c: DirId, gone: set<DirId>)
    requires HasDependents(s, c)
    requires forall g :: g in gone && g in s.dirs ==> s.dirs[g].parent != Some(c)
    ensures HasDependents(Store(s.dirs - gone, s.files, s.nextId), c)
  {
    var t := Store(s.dirs - gone, s.files, s.nextId);
    if exists q :: q in s.dirs && ParentOf(s, q, c) {
      var q :| q in s.dirs && ParentOf(s, q, c);
      assert ParentOf(t, q, c);
    } else {
      var k :| k in s.files && FileOf(s, k, c);
      assert FileOf(t, k, c);
    }
  }

  /** Once the stale rows of `d` are deleted, its remaining rows all exist. */
  lemma PrunedRowsExist(fs: FileSystem, s: Store, t: Store, d: DirId)
    requires Consistent(s) && Consistent(t) && d in s.dirs
    requires t.dirs == s.dirs - StaleChildren(fs, s, d) && t.files == s.files - StaleFiles(fs, s, d)
    ensures OwnRowsExist(fs, t, d)
  {
    AbsStable(s.dirs, t.dirs, d);
    forall c | c in t.dirs && t.dirs[c].parent == Some(d) ensures fs.Exists(AbsPath(t.dirs, c)) {
      AbsStable(s.dirs, t.dirs, c);
    }
  }

  /** Deleting stale file rows `gf` and stale subdirectory rows `gone` of `d`: a
      reconciliation at `d`, counted by the numbers deleted, that leaves the index
      alone when nothing is stale. */
  lemma Pruned(fs: FileSystem, s: Store, t: Store, d: DirId, gf: set<FileKey>, gone: set<DirId>, recursively: bool)
    requires Consistent(s) && Consistent(t) && d in s.dirs
    requires gf == StaleFiles(fs, s, d) && gone <= StaleChildren(fs, s, d)
    requires t.dirs == s.dirs - gone && t.files == s.files - gf && t.nextId == s.nextId
    ensures d in t.dirs && AbsPath(t.dirs, d) == AbsPath(s.dirs, d)
    ensures Moved(fs, s, t, d, recursively)
    ensures CountsOf(s, t) == Counters(|gf|, |gone|, 0, 0)
    ensures gone == StaleChildren(fs, s, d) ==> OwnRowsExist(fs, t, d)
    ensures gf == {} && StaleChildren(fs, s, d) == {} ==> t == s
  {
    assert t == Store(s.dirs - gone, s.files - gf, s.nextId);
    PruneStep(fs, s, d, gf, gone);
    PruneCounts(s, gf, gone);
    AbsStable(s.dirs, t.dirs, d);
    AtOnlyWithin(s, t, d);
    if gone == StaleChildren(fs, s, d) {
      PrunedRowsExist(fs, s, t, d);
    }
    if gf == {} && StaleChildren(fs, s, d) == {} {
      NothingRemoved(s.dirs, gone);
      NothingRemoved(s.files, gf);
    }
  }

  lemma NothingRemoved<K, V>(m: map<K, V>, gone: set<K>)
    requires gone == {}
    ensures m - gone == m
  {
  }

  /** Saving a new subdirectory row of `d` for a listed directory keeps the entries already reconciled. */
  lemma GrowChild(fs: FileSystem, supported: seq<string>, x: Store, d: DirId, n: string, done: seq<string>, recursively: bool)
    requires fs.WellFormed() && Consistent(x) && d in x.dirs && Child(x.dirs, d, n).None?
    requires ListedDir(fs, AbsPath(x.dirs, d), n)
    requires Progress(fs, supported, x, d, done, recursively)
    ensures Consistent(Store(x.dirs[x.nextId := DirRow(Some(d), n)], x.files, x.nextId + 1))
    ensures var y := Store(x.dirs[x.nextId := DirRow(Some(d), n)], x.files, x.nextId + 1);
      && Step(fs, x, y) && AtOnly(x, y, d) && Within(x, y, d)
      && CountsOf(x, y) == Counters(0, 0, 0, 1)
      && Progress(fs, supported, y, d, done, recursively)
  {
    var y := Store(x.dirs[x.nextId := DirRow(Some(d), n)], x.files, x.nextId + 1);
    AddDirStep(fs, x, d, n);
    AddDirCounts(x, d, n);
    ProgressGrow(fs, supported, x, y, d, done, recursively);
    AtOnlyWithin(x, y, d);
  }

  /** Saving a new file row of `d` for a listed file keeps the entries already reconciled. */
  lemma GrowFile(fs: FileSystem, supported: seq<string>, x: Store, d: DirId, n: string, done: seq<string>, recursively: bool)
    requires fs.WellFormed() && Consistent(x) && d in x.dirs && FileKey(d, n) !in x.files
    requires ListedFile(fs, AbsPath(x.dirs, d), n)
    requires Progress(fs, supported, x, d, done, recursively)
    ensures Consistent(Store(x.dirs, x.files[FileKey(d, n) := FileRow(None, None)], x.nextId))
    ensures var y := Store(x.dirs, x.files[FileKey(d, n) := FileRow(None, None)], x.nextId);
      && Step(fs, x, y) && AtOnly(x, y, d) && Within(x, y, d)
      && CountsOf(x, y) == Counters(0, 0, 1, 0)
      && Progress(fs, supported, y, d, done + [n], recursively)
  {
    var k := FileKey(d, n);
    var y := Store(x.dirs, x.files[k := FileRow(None, None)], x.nextId);
    AddFileStep(fs, x, k);
    AddFileCounts(x, k);
    ProgressGrow(fs, supported, x, y, d, done, recursively);
    AtOnlyWithin(x, y, d);
    ProgressExtend(fs, supported, y, d, done, n, recursively);
  }

  /** A reconciliation confined to the subtree of `c` keeps `c` and every directory
      above it. */
  lemma AncestorKept(fs: FileSystem, y: Store, z: Store, c: DirId, a: DirId)
    requires Consistent(y) && Consistent(z) && Within(y, z, c)
    requires c in y.dirs && IsDesc(y.dirs, c, a)
    ensures a in z.dirs
  {
    DescOrder(y.dirs, c, a);
    assert DirWithin(y, z, c, a);
    if a !in z.dirs {
      DescOrder(y.dirs, y.dirs[a].parent.value, c);
    }
  }

  /** A change inside the subtree of `c` keeps the parent row of `c`. */
  lemma ParentKept(fs: FileSystem, y: Store, z: Store, c: DirId)
    requires Consistent(y) && Consistent(z) && Within(y, z, c)
    requires c in y.dirs && y.dirs[c].parent.Some?
    ensures y.dirs[c].parent.value in z.dirs
  {
    var d := y.dirs[c].parent.value;
    assert DirWithin(y, z, c, d);
    if d !in z.dirs {
      DescOrder(y.dirs, y.dirs[d].parent.value, c);
    }
  }

  /** Reindexing the listed subdirectory `c` of `d` into step with the disk reconciles
      the entry of `d` that names it. */
  lemma Descended(fs: FileSystem, supported: seq<string>, y: Store, z: Store, d: DirId, c: DirId, n: string, done: seq<string>)
    requires fs.WellFormed() && Consistent(y) && Consistent(z) && d in y.dirs
    requires c in y.dirs && y.dirs[c] == DirRow(Some(d), n) && c in z.dirs
    requires ListedDir(fs, AbsPath(y.dirs, d), n)
    requires Step(fs, y, z) && Within(y, z, c) && Synced(fs, supported, z, c)
    requires Progress(fs, supported, y, d, done, true)
    ensures d in z.dirs && AbsPath(z.dirs, d) == AbsPath(y.dirs, d)
    ensures Moved(fs, y, z, d, true)
    ensures Progress(fs, supported, z, d, done + [n], true)
  {
    ParentKept(fs, y, z, c);
    AbsStable(y.dirs, z.dirs, d);
    WithinWiden(fs, y, z, c, d);
    ProgressWithin(fs, supported, y, z, d, c, done, true);
    forall e | e in z.dirs && z.dirs[e] == DirRow(Some(d), n) ensures Synced(fs, supported, z, e) {
      assert SameSlot(z.dirs, e, c);
    }
    ProgressExtend(fs, supported, z, d, done, n, true);
  }

  /** Nothing for `reindex` to do at `d`: no stale rows, and every listed entry already
      reconciled. */
  ghost predicate Settled(fs: FileSystem, supported: seq<string>, s: Store, d: DirId, recursively: bool)
    requires fs.WellFormed() && Consistent(s) && d in s.dirs
  {
    && StaleFiles(fs, s, d) == {}
    && StaleChildren(fs, s, d) == {}
    && Progress(fs, supported, s, d, fs.Entries(AbsPath(s.dirs, d)), recursively)
  }

  /** A directory is settled exactly when it is in step with the disk: its own
      entries, or its whole subtree when reindexing recursively. */
  lemma SettledIsSynced(fs: FileSystem, supported: seq<string>, s: Store, d: DirId, recursively: bool)
    requires fs.WellFormed() && Consistent(s) && d in s.dirs
    ensures Settled(fs, supported, s, d, recursively) <==>
            if recursively then Synced(fs, supported, s, d) else LocalSynced(fs, supported, s, d)
  {
    if if recursively then Synced(fs, supported, s, d) else LocalSynced(fs, supported, s, d) {
      SyncedDone(fs, supported, s, d, recursively);
    }
    if Settled(fs, supported, s, d, recursively) {
      ProgressSynced(fs, supported, s, d, recursively);
    }
  }
}
