/** The library index: the `Directory` and `File` tables, kept by one object whose
    methods walk, reconcile and extend them. */
module Storage {
  import opened Wrappers
  import opened Paths
  import opened Disk
  import opened Text
  import opened Tree
  import opened Steps
  import opened Sync
  import Catalog

  /** The exceptions the directory operations raise. */
  datatype IndexError =
    | Unpack                        // `current, *rest = []`: ValueError
    | DirectoryMissing(path: Path)  // FileNotFoundError
    | NotADirectory(path: Path)     // NotADirectoryError from `iterdir`
    | Protected(dir: DirId)         // ProtectedError deleting a stale directory that still has rows
    | AttributeError(name: string)  // an attribute `Directory` does not have

  /** The reverse accessor `Directory` gets for `File.directory`: its declared
      `related_name`, which takes the place of Django's default `file_set`. */
  const FilesAccessor := "files"

  /** `getattr(directory, name).all()` for the file rows of `d`: those rows when
      `name` is the reverse accessor, else `AttributeError`. */
  function FileRowsOf(s: Store, d: DirId, name: string): (r: Result<set<FileKey>, IndexError>)
    ensures r.Ok? <==> name == FilesAccessor
    ensures r.Ok? ==> forall k :: k in r.value <==> k in s.files && k.dir == d
    ensures r.Err? ==> r.error == AttributeError(name)
  {
    if name == FilesAccessor then Ok(set k | k in s.files && k.dir == d) else Err(AttributeError(name))
  }

  /** For every directory, the `file_set` that `reindex` asks for is missing. */
  lemma FileSetMissing(s: Store, d: DirId)
    ensures FileRowsOf(s, d, "file_set") == Err(AttributeError("file_set"))
  {
  }

  class Library {
    /** `settings.SUPPORTED_FILETYPES` */
    const supported: seq<string>
    var dirs: Dirs
    var files: Files
    var nextId: nat
    /** `_cached_absolute_path`, per directory row. */
    var pathCache: map<DirId, Path>

    /** The three tables, without the path memo. */
    function Snap(): Store
      reads this`dirs, this`files, this`nextId
    {
      Store(dirs, files, nextId)
    }

    /** The tables are consistent, and every memoised path is the row's path. Ids are
        never reused, so a memo left behind by a deleted row is never consulted. */
    ghost predicate Valid()
      reads this
    {
      && Consistent(Snap())
      && CacheSound(pathCache, dirs, nextId)
    }

    /** An index holding only the base directory. */
    constructor (supported: seq<string>, basedir: string)
      ensures Valid()
      ensures this.supported == supported
      ensures dirs == map[0 := DirRow(None, basedir)] && files == map[] && nextId == 1 && pathCache == map[]
    {
      this.supported := supported;
      dirs := map[0 := DirRow(None, basedir)];
      files := map[];
      nextId := 1;
      pathCache := map[];
    }

    /** `Directory.absolute_path()`, memoised: computed once per row, then read back. */
    method AbsolutePath(id: DirId) returns (p: Path)
      requires Valid() && id in dirs
      modifies this`pathCache
      ensures Valid() && p == AbsPath(dirs, id)
      ensures id in pathCache && pathCache[id] == p
      ensures forall k :: k in old(pathCache) ==> k in pathCache && pathCache[k] == old(pathCache)[k]
      decreases id
    {
      if id in pathCache {
        return pathCache[id];
      }
      match dirs[id].parent {
        case None =>
          p := Parts(dirs[id].path);
        case Some(q) =>
          var above := AbsolutePath(q);
          p := Join(above, dirs[id].path);
      }
      pathCache := pathCache[id := p];
    }

    /** `File.absolute_path()` */
    method FileAbsolutePath(k: FileKey) returns (p: Path)
      requires Valid() && k.dir in dirs
      modifies this`pathCache
      ensures Valid() && p == FilePath(dirs, k)
    {
      var above := AbsolutePath(k.dir);
      p := Join(above, k.filename);
    }

    /** `Directory.exists()` */
    method DirExists(fs: FileSystem, id: DirId) returns (b: bool)
      requires Valid() && id in dirs
      modifies this`pathCache
      ensures Valid() && b == fs.Exists(AbsPath(dirs, id))
    {
      var p := AbsolutePath(id);
      b := fs.Exists(p);
    }

    /** `File.exists()` */
    method FileExists(fs: FileSystem, k: FileKey) returns (b: bool)
      requires Valid() && k.dir in dirs
      modifies this`pathCache
      ensures Valid() && b == fs.Exists(FilePath(dirs, k))
    {
      var p := FileAbsolutePath(k);
      b := fs.Exists(p);
    }

    /** The first loop of `reindex`: delete the file rows of `d` whose paths are gone. */
    method PruneStaleFiles(fs: FileSystem, d: DirId) returns (deleted: nat)
      requires Valid() && d in dirs
      modifies this`files, this`pathCache
      ensures Valid()
      ensures files == old(files) - StaleFiles(fs, old(Snap()), d)
      ensures deleted == |StaleFiles(fs, old(Snap()), d)|
    {
      var kept;
      kept, deleted := ScanFiles(fs, d);
      RemoveFilesConsistent(Snap(), StaleFiles(fs, Snap(), d));
      files := kept;
    }

    /** Visits the file rows of `d` in any order, checking each one's path. The rows
        are reached through the reverse accessor `files`. */
    method ScanFiles(fs: FileSystem, d: DirId) returns (kept: Files, deleted: nat)
      requires Valid() && d in dirs
      modifies this`pathCache
      ensures Valid()
      ensures kept == files - StaleFiles(fs, Snap(), d)
      ensures deleted == |StaleFiles(fs, Snap(), d)|
    {
      ghost var stale := StaleFiles(fs, Snap(), d);
      var rows := FileRowsOf(Snap(), d, FilesAccessor);
      var todo := rows.value;
      var removed: set<FileKey> := {};
      deleted := 0;
      while todo != {}
        invariant Valid()
        invariant forall k :: k in todo ==> k in files && k.dir == d
        invariant removed == stale - todo
        invariant deleted == |removed|
        decreases |todo|
      {
        var k :| k in todo;
        var here := FileExists(fs, k);
        VisitOne(stale, todo, k);
        assert k in stale <==> !here;
        if !here {
          removed := removed + {k};
          deleted := deleted + 1;
        }
        todo := todo - {k};
      }
      kept := files - removed;
    }

    /** The second loop of `reindex`: delete the subdirectory rows of `d` whose paths
        are gone. Deleting one that still has subdirectories or files fails, and the
        deletions made before it stand. */
    method PruneStaleDirectories(fs: FileSystem, d: DirId) returns (r: Result<nat, IndexError>, ghost gone: set<DirId>)
      requires Valid() && d in dirs
      modifies this`dirs, this`pathCache
      ensures Valid() && d in dirs
      ensures dirs == old(dirs) - gone && gone <= FreeStale(fs, old(Snap()), d)
      ensures r.Ok? <==> StaleChildren(fs, old(Snap()), d) <= FreeStale(fs, old(Snap()), d)
      ensures r.Ok? ==> gone == StaleChildren(fs, old(Snap()), d) && r.value == |gone|
      ensures r.Err? ==> r.error.Protected? && Blocked(fs, Snap(), r.error.dir, d)
    {
      var kept;
      kept, r, gone := ScanChildren(fs, d);
      ghost var s := Snap();
      FreeUnreferenced(fs, s, d, gone);
      RemoveRowsConsistent(s, gone);
      CacheKept(pathCache, dirs, nextId, kept, nextId);
      if r.Err? {
        DependentsKept(s, r.error.dir, gone);
        AbsStable(s.dirs, kept, r.error.dir);
      }
      dirs := kept;
    }

    /** Visits the subdirectory rows of `d` in any order, stopping at the first stale
        one that still has rows below it. */
    method ScanChildren(fs: FileSystem, d: DirId) returns (kept: Dirs, r: Result<nat, IndexError>, ghost gone: set<DirId>)
      requires Valid() && d in dirs
      modifies this`pathCache
      ensures Valid()
      ensures gone <= FreeStale(fs, Snap(), d) && kept == dirs - gone
      ensures r.Ok? <==> StaleChildren(fs, Snap(), d) <= FreeStale(fs, Snap(), d)
      ensures r.Ok? ==> gone == StaleChildren(fs, Snap(), d) && r.value == |gone|
      ensures r.Err? ==> r.error.Protected? && r.error.dir in StaleChildren(fs, Snap(), d)
                         && HasDependents(Snap(), r.error.dir)
    {
      ghost var stale := StaleChildren(fs, Snap(), d);
      ghost var free := FreeStale(fs, Snap(), d);
      var todo := set c | c in dirs && dirs[c].parent == Some(d);
      var removed: set<DirId> := {};
      var deleted := 0;
      while todo != {}
        invariant Valid()
        invariant forall c :: c in todo ==> c in dirs && dirs[c].parent == Some(d)
        invariant removed == stale - todo
        invariant deleted == |removed|
        invariant removed <= free
        decreases |todo|
      {
        var c :| c in todo;
        var here := DirExists(fs, c);
        VisitOne(stale, todo, c);
        StaleChild(fs, Snap(), d, c);
        if !here {
          if HasDependents(Snap(), c) {
            return dirs - removed, Err(Protected(c)), removed;
          }
          removed := removed + {c};
          deleted := deleted + 1;
        }
        todo := todo - {c};
      }
      return dirs - removed, Ok(deleted), removed;
    }

    /** Saving a new subdirectory row of `d` with segment `n`, under a fresh id. */
    method AddChild(d: DirId, n: string) returns (c: DirId)
      requires Valid() && d in dirs && Child(dirs, d, n).None?
      modifies this`dirs, this`nextId
      ensures Valid()
      ensures c == old(nextId) && nextId == c + 1
      ensures dirs == old(dirs)[c := DirRow(Some(d), n)]
    {
      c := nextId;
      AddRowConsistent(Snap(), d, n);
      CacheKept(pathCache, dirs, nextId, dirs[c := DirRow(Some(d), n)], nextId + 1);
      dirs := dirs[c := DirRow(Some(d), n)];
      nextId := nextId + 1;
    }

    /** `Directory.objects.get_or_create(parent=d, path=n)` */
    method GetOrCreateChild(d: DirId, n: string) returns (c: DirId, created: bool)
      requires Valid() && d in dirs
      modifies this`dirs, this`nextId
      ensures Valid() && c in dirs && dirs[c] == DirRow(Some(d), n)
      ensures created <==> old(Child(dirs, d, n)).None?
      ensures !created ==> dirs == old(dirs) && nextId == old(nextId)
      ensures created ==> c == old(nextId) && nextId == c + 1 && dirs == old(dirs)[c := DirRow(Some(d), n)]
    {
      var found := Child(dirs, d, n);
      if found.Some? {
        return found.value, false;
      }
      c := AddChild(d, n);
      created := true;
    }
  
    /** A regular file listed in `d`: saved as a new row, with no metadata yet, when it
        is indexable and not stored already. */
    method IndexFile(d: DirId, n: string) returns (indexed: bool)
      requires Valid() && d in dirs
      modifies this`files
      ensures Valid()
      ensures indexed <==> Indexable(n, supported) && FileKey(d, n) !in old(files)
      ensures files == if indexed then old(files)[FileKey(d, n) := FileRow(None, None)] else old(files)
    {
      indexed := Indexable(n, supported) && FileKey(d, n) !in files;
      if indexed {
        files := files[FileKey(d, n) := FileRow(None, None)];
      }
    }

    /** `get_sub_path_directories(segs)` called on `d`: resolve the segments one by one,
        saving a row for a segment that has none but whose path exists on disk. */
    method GetSubPathDirectories(fs: FileSystem, d: DirId, segs: seq<string>)
      returns (r: Result<seq<DirId>, IndexError>, ghost walked: seq<DirId>)
      requires Valid() && d in dirs
      modifies this`dirs, this`nextId, this`pathCache
      ensures Valid() && d in dirs && AbsPath(dirs, d) == old(AbsPath(dirs, d))
      ensures IsChain(dirs, d, segs, walked)
      ensures Extends(fs, old(dirs), dirs, old(nextId), walked)
      ensures |segs| == 0 ==> r == Err(Unpack) && dirs == old(dirs)
      ensures r.Ok? ==> |segs| > 0 && r.value == walked && |walked| == |segs|
      ensures r.Err? && |segs| > 0 ==>
                && |walked| < |segs|
                && Child(dirs, Tip(d, walked), segs[|walked|]).None?
                && r.error == DirectoryMissing(Join(AbsPath(dirs, Tip(d, walked)), segs[|walked|]))
                && !fs.Exists(r.error.path)
      decreases |segs|, 1
    {
      if |segs| == 0 {
        return Err(Unpack), [];
      }
      var step := ResolveSegment(fs, d, segs[0]);
      if step.Err? {
        return Err(step.error), [];
      }
      var c := step.value;
      if |segs| == 1 {
        assert IsChain(dirs, d, segs, [c]) by {
          assert [c][..0] == [];
        }
        return Ok([c]), [c];
      }
      r, walked := WalkOn(fs, d, c, segs, old(dirs), old(nextId));
    }

    /** The rest of `get_sub_path_directories` once its first segment is the row `c`:
        the walk down from `c`, and the chain from `d` it makes with `c`. */
    method WalkOn(fs: FileSystem, d: DirId, c: DirId, segs: seq<string>, ghost x: Dirs, ghost from: nat)
      returns (r: Result<seq<DirId>, IndexError>, ghost walked: seq<DirId>)
      requires Valid() && d in dirs && |segs| > 1
      requires c in dirs && dirs[c] == DirRow(Some(d), segs[0])
      requires from <= nextId && Extends(fs, x, dirs, from, [c])
      modifies this`dirs, this`nextId, this`pathCache
      ensures Valid() && d in dirs && AbsPath(dirs, d) == old(AbsPath(dirs, d))
      ensures IsChain(dirs, d, segs, walked) && Extends(fs, x, dirs, from, walked)
      ensures r.Ok? ==> r.value == walked && |walked| == |segs|
      ensures r.Err? ==>
                && |walked| < |segs|
                && Child(dirs, Tip(d, walked), segs[|walked|]).None?
                && r.error == DirectoryMissing(Join(AbsPath(dirs, Tip(d, walked)), segs[|walked|]))
                && !fs.Exists(r.error.path)
      decreases |segs|, 0
    {
      ghost var mid, midNext := dirs, nextId;
      var sub;
      ghost var more;
      sub, more := GetSubPathDirectories(fs, c, segs[1..]);
      walked := [c] + more;
      AbsStable(mid, dirs, d);
      WalkCons(fs, x, mid, dirs, from, midNext, d, c, segs, more);
      r := if sub.Ok? then Ok([c] + sub.value) else sub;
    }

    /** One segment of `get_sub_path_directories`: the row of `d` named `n`, or a new
        row saved under the next id when its path exists on disk. */
    method ResolveSegment(fs: FileSystem, d: DirId, n: string) returns (r: Result<DirId, IndexError>)
      requires Valid() && d in dirs
      modifies this`dirs, this`nextId, this`pathCache
      ensures Valid() && d in dirs && AbsPath(dirs, d) == old(AbsPath(dirs, d)) && nextId >= old(nextId)
      ensures r.Ok? ==> r.value in dirs && dirs[r.value] == DirRow(Some(d), n)
      ensures r.Ok? ==> Extends(fs, old(dirs), dirs, old(nextId), [r.value])
      ensures r.Err? ==>
                && dirs == old(dirs)
                && Child(dirs, d, n).None?
                && r.error == DirectoryMissing(Join(AbsPath(dirs, d), n))
                && !fs.Exists(r.error.path)
    {
      var found := Child(dirs, d, n);
      if found.Some? {
        return Ok(found.value);
      }
      var above := AbsolutePath(d);
      var candidate := Join(above, n);
      if !fs.Exists(candidate) {
        return Err(DirectoryMissing(candidate));
      }
      ghost var before := dirs;
      var c := AddChild(d, n);
      AbsStable(before, dirs, d);
      assert AbsPath(dirs, c) == candidate;
      r := Ok(c);
    }

    /** `get_or_create` for a subdirectory listed in `d`, as one step at `d`. */
    method OpenChild(fs: FileSystem, d: DirId, p: Path, n: string, recursively: bool, ghost done: seq<string>)
      returns (c: DirId, made: Counters)
      requires Valid() && d in dirs && fs.WellFormed() && p == AbsPath(dirs, d) && ListedDir(fs, p, n)
      requires Progress(fs, supported, Snap(), d, done, recursively)
      modifies this`dirs, this`nextId
      ensures Valid() && d in dirs && AbsPath(dirs, d) == p
      ensures c in dirs && dirs[c] == DirRow(Some(d), n) && AbsPath(dirs, c) == p + [n]
      ensures fs.Deeper(p + [n]) < fs.Deeper(p)
      ensures Moved(fs, old(Snap()), Snap(), d, recursively)
      ensures made == CountsOf(old(Snap()), Snap())
      ensures Progress(fs, supported, Snap(), d, done, recursively)
      ensures old(HasChild(dirs, d, n)) ==> Snap() == old(Snap()) && made == NoChanges
    {
      ghost var x := Snap();
      var created;
      c, created := GetOrCreateChild(d, n);
      if created {
        GrowChild(fs, supported, x, d, n, done, recursively);
        assert Snap() == Store(x.dirs[x.nextId := DirRow(Some(d), n)], x.files, x.nextId + 1);
        made := Counters(0, 0, 0, 1);
      } else {
        StepRefl(fs, x, d);
        assert Snap() == x;
        made := NoChanges;
      }
      AbsStable(x.dirs, dirs, d);
      ChildDeeper(fs, dirs, d, c);
    }

    /** `sub_dir.reindex()` for the listed subdirectory `c` of `d`. */
    method Descend(fs: FileSystem, d: DirId, p: Path, n: string, c: DirId, ghost done: seq<string>)
      returns (r: Result<Counters, IndexError>)
      requires Valid() && d in dirs && fs.WellFormed() && p == AbsPath(dirs, d) && ListedDir(fs, p, n)
      requires c in dirs && dirs[c] == DirRow(Some(d), n) && AbsPath(dirs, c) == p + [n]
      requires fs.Deeper(p + [n]) < fs.Deeper(p)
      requires Progress(fs, supported, Snap(), d, done, true)
      modifies this`dirs, this`files, this`nextId, this`pathCache
      ensures Valid() && d in dirs && AbsPath(dirs, d) == p
      ensures Moved(fs, old(Snap()), Snap(), d, true)
      ensures r.Ok? ==> r.value == CountsOf(old(Snap()), Snap())
      ensures r.Ok? ==> Progress(fs, supported, Snap(), d, done + [n], true)
      ensures r.Err? ==> r.error.Protected? && Blocked(fs, Snap(), r.error.dir, d)
      ensures old(Synced(fs, supported, Snap(), c)) ==> r == Ok(NoChanges) && Snap() == old(Snap())
      decreases fs.Deeper(p), 0
    {
      ghost var y := Snap();
      SettledIsSynced(fs, supported, y, c, true);
      r := Reindex(fs, c, true);
      ghost var z := Snap();
      ParentKept(fs, y, z, c);
      AbsStable(y.dirs, z.dirs, d);
      WithinWiden(fs, y, z, c, d);
      if r.Err? {
        BlockedWiden(fs, z, r.error.dir, c, d);
      } else {
        Descended(fs, supported, y, z, d, c, n, done);
      }
    }

    /** A subdirectory entry `n` of `d`: get or create its row, and reindex it when
        the walk recurses. */
    method IndexSubdir(fs: FileSystem, d: DirId, p: Path, n: string, recursively: bool, ghost done: seq<string>)
      returns (r: Result<Counters, IndexError>)
      requires Valid() && d in dirs && fs.WellFormed() && p == AbsPath(dirs, d) && ListedDir(fs, p, n)
      requires Progress(fs, supported, Snap(), d, done, recursively)
      modifies this`dirs, this`files, this`nextId, this`pathCache
      ensures Valid() && d in dirs && AbsPath(dirs, d) == p
      ensures Moved(fs, old(Snap()), Snap(), d, recursively)
      ensures r.Ok? ==> r.value == CountsOf(old(Snap()), Snap())
      ensures r.Ok? ==> Progress(fs, supported, Snap(), d, done + [n], recursively)
      ensures r.Err? ==> r.error.Protected? && Blocked(fs, Snap(), r.error.dir, d)
      ensures old(EntryDone(fs, supported, Snap(), d, n, recursively)) ==> r == Ok(NoChanges) && Snap() == old(Snap())
      decreases fs.Deeper(p), 1
    {
      ghost var x := Snap();
      ghost var wasDone := EntryDone(fs, supported, x, d, n, recursively);
      var c, made := OpenChild(fs, d, p, n, recursively, done);
      if !recursively {
        ProgressExtend(fs, supported, Snap(), d, done, n, recursively);
        return Ok(made);
      }
      ghost var y := Snap();
      if wasDone {
        assert y == x && Synced(fs, supported, y, c);
      }
      var sub := Descend(fs, d, p, n, c, done);
      Chain(fs, x, y, Snap(), d, recursively);
      r := if sub.Ok? then Ok(made.Plus(sub.value)) else sub;
    }

    /** One entry `iterdir` lists for `d`: a regular file, a subdirectory, `.`, or another kind of node. */
    method IndexEntry(fs: FileSystem, d: DirId, p: Path, n: string, recursively: bool, ghost done: seq<string>)
      returns (r: Result<Counters, IndexError>)
      requires Valid() && d in dirs && fs.WellFormed() && p == AbsPath(dirs, d) && n in fs.Entries(p)
      requires Progress(fs, supported, Snap(), d, done, recursively)
      modifies this`dirs, this`files, this`nextId, this`pathCache
      ensures Valid() && d in dirs && AbsPath(dirs, d) == p
      ensures Moved(fs, old(Snap()), Snap(), d, recursively)
      ensures r.Ok? ==> r.value == CountsOf(old(Snap()), Snap())
      ensures r.Ok? ==> Progress(fs, supported, Snap(), d, done + [n], recursively)
      ensures r.Err? ==> r.error.Protected? && Blocked(fs, Snap(), r.error.dir, d)
      ensures old(EntryDone(fs, supported, Snap(), d, n, recursively)) ==> r == Ok(NoChanges) && Snap() == old(Snap())
      decreases fs.Deeper(p), 2
    {
      ghost var x := Snap();
      if fs.IsFile(Join(p, n)) {
        var indexed := IndexFile(d, n);
        if indexed {
          GrowFile(fs, supported, x, d, n, done, recursively);
          r := Ok(Counters(0, 0, 1, 0));
        } else {
          StepRefl(fs, x, d);
          ProgressExtend(fs, supported, x, d, done, n, recursively);
          r := Ok(NoChanges);
        }
      } else if fs.IsDir(Join(p, n)) && n != "." {
        r := IndexSubdir(fs, d, p, n, recursively, done);
      } else {
        StepRefl(fs, x, d);
        ProgressExtend(fs, supported, x, d, done, n, recursively);
        r := Ok(NoChanges);
      }
    }

    /** One turn of the third loop of `reindex`: the entry at position `i`, with the
        counters so far. */
    method IndexNext(fs: FileSystem, d: DirId, p: Path, entries: seq<string>, i: nat, recursively: bool,
                     ghost s0: Store, total0: Counters)
      returns (step: Result<Counters, IndexError>, total: Counters)
      requires Valid() && d in dirs && fs.WellFormed() && p == AbsPath(dirs, d)
      requires entries == fs.Entries(p) && i < |entries|
      requires Consistent(s0) && Moved(fs, s0, Snap(), d, recursively) && total0 == CountsOf(s0, Snap())
      requires Progress(fs, supported, Snap(), d, entries[..i], recursively)
      modifies this`dirs, this`files, this`nextId, this`pathCache
      ensures Valid() && d in dirs && AbsPath(dirs, d) == p
      ensures Moved(fs, s0, Snap(), d, recursively)
      ensures step.Ok? ==> total == CountsOf(s0, Snap())
      ensures step.Ok? ==> Progress(fs, supported, Snap(), d, entries[..i + 1], recursively)
      ensures step.Err? ==> step.error.Protected? && Blocked(fs, Snap(), step.error.dir, d)
      ensures old(EntryDone(fs, supported, Snap(), d, entries[i], recursively)) ==>
                step.Ok? && Snap() == old(Snap()) && total == total0
      decreases fs.Deeper(p), 3
    {
      ghost var y := Snap();
      step := IndexEntry(fs, d, p, entries[i], recursively, entries[..i]);
      Chain(fs, s0, y, Snap(), d, recursively);
      total := if step.Ok? then total0.Plus(step.value) else total0;
      PrefixExtend(entries, i);
    }

    /** The third loop of `reindex`: every entry `iterdir` lists for `d`, in its order,
        counted on from the reconciliation `s0` to the current state that `pruned` counts. */
    method IndexEntries(fs: FileSystem, d: DirId, p: Path, recursively: bool, ghost s0: Store, pruned: Counters)
      returns (r: Result<Counters, IndexError>)
      requires Valid() && d in dirs && fs.WellFormed() && p == AbsPath(dirs, d)
      requires fs.IsDir(p) && OwnRowsExist(fs, Snap(), d)
      requires Consistent(s0) && Moved(fs, s0, Snap(), d, recursively) && pruned == CountsOf(s0, Snap())
      modifies this`dirs, this`files, this`nextId, this`pathCache
      ensures Valid() && d in dirs && AbsPath(dirs, d) == p
      ensures Moved(fs, s0, Snap(), d, recursively)
      ensures r.Ok? ==> r.value == CountsOf(s0, Snap())
      ensures r.Ok? ==> LocalSynced(fs, supported, Snap(), d)
      ensures r.Ok? && recursively ==> Synced(fs, supported, Snap(), d)
      ensures r.Err? ==> r.error.Protected? && Blocked(fs, Snap(), r.error.dir, d)
      ensures old(Snap()) == s0 && pruned == NoChanges && old(Progress(fs, supported, Snap(), d, fs.Entries(p), recursively))
              ==> r == Ok(NoChanges) && Snap() == s0
      decreases fs.Deeper(p), 5
    {
      assert Progress(fs, supported, Snap(), d, [], recursively);
      r := EntryLoop(fs, d, p, recursively, s0, pruned);
      if r.Ok? {
        ProgressSynced(fs, supported, Snap(), d, recursively);
      }
    }

    /** The loop of `IndexEntries`, up to the progress it leaves. */
    method EntryLoop(fs: FileSystem, d: DirId, p: Path, recursively: bool, ghost s0: Store, pruned: Counters)
      returns (r: Result<Counters, IndexError>)
      requires Valid() && d in dirs && fs.WellFormed() && p == AbsPath(dirs, d)
      requires Consistent(s0) && Moved(fs, s0, Snap(), d, recursively) && pruned == CountsOf(s0, Snap())
      requires Progress(fs, supported, Snap(), d, [], recursively)
      modifies this`dirs, this`files, this`nextId, this`pathCache
      ensures Valid() && d in dirs && AbsPath(dirs, d) == p
      ensures Moved(fs, s0, Snap(), d, recursively)
      ensures r.Ok? ==> r.value == CountsOf(s0, Snap())
      ensures r.Ok? ==> Progress(fs, supported, Snap(), d, fs.Entries(p), recursively)
      ensures r.Err? ==> r.error.Protected? && Blocked(fs, Snap(), r.error.dir, d)
      ensures old(Snap()) == s0 && pruned == NoChanges && old(Progress(fs, supported, Snap(), d, fs.Entries(p), recursively))
              ==> r == Ok(NoChanges) && Snap() == s0
      decreases fs.Deeper(p), 4
    {
      ghost var quiet := Snap() == s0 && pruned == NoChanges && Progress(fs, supported, Snap(), d, fs.Entries(p), recursively);
      var entries := fs.Entries(p);
      var total := pruned;
      var i := 0;
      while i < |entries|
        invariant 0 <= i <= |entries|
        invariant Valid() && d in dirs && AbsPath(dirs, d) == p
        invariant Moved(fs, s0, Snap(), d, recursively)
        invariant total == CountsOf(s0, Snap())
        invariant Progress(fs, supported, Snap(), d, entries[..i], recursively)
        invariant quiet ==> Snap() == s0 && total == NoChanges
      {
        assert quiet ==> EntryDone(fs, supported, Snap(), d, entries[i], recursively);
        var step;
        step, total := IndexNext(fs, d, p, entries, i, recursively, s0, total);
        if step.Err? {
          return Err(step.error);
        }
        i := i + 1;
      }
      ProgressAll(fs, supported, Snap(), d, entries, i, recursively);
      r := Ok(total);
    }

    /** The first two loops of `reindex`: the stale file rows of `d`, then its stale
        subdirectory rows. */
    method PruneStale(fs: FileSystem, d: DirId, recursively: bool) returns (r: Result<Counters, IndexError>)
      requires Valid() && d in dirs && fs.WellFormed()
      modifies this`dirs, this`files, this`pathCache
      ensures Valid() && d in dirs && AbsPath(dirs, d) == old(AbsPath(dirs, d)) && nextId == old(nextId)
      ensures Moved(fs, old(Snap()), Snap(), d, recursively)
      ensures r.Ok? ==> r.value == CountsOf(old(Snap()), Snap())
      ensures r.Ok? ==> OwnRowsExist(fs, Snap(), d)
      ensures r.Err? ==> r.error.Protected? && Blocked(fs, Snap(), r.error.dir, d)
      ensures old(StaleFiles(fs, Snap(), d) == {} && StaleChildren(fs, Snap(), d) == {}) ==>
                r == Ok(NoChanges) && Snap() == old(Snap())
    {
      ghost var s0 := Snap();
      var deletedFiles := PruneStaleFiles(fs, d);
      ghost var gf := StaleFiles(fs, s0, d);
      assert FreeStale(fs, Snap(), d) <= StaleChildren(fs, s0, d);
      var pruned;
      ghost var gone;
      pruned, gone := PruneStaleDirectories(fs, d);
      Pruned(fs, s0, Snap(), d, gf, gone, recursively);
      if pruned.Err? {
        return Err(pruned.error);
      }
      r := Ok(Counters(deletedFiles, pruned.value, 0, 0));
    }

    /** The part of `reindex` before its third loop: prune the stale rows of `d`, then
        open its listing with `iterdir`. */
    method Prepare(fs: FileSystem, d: DirId, recursively: bool) returns (r: Result<Counters, IndexError>, p: Path)
      requires Valid() && d in dirs && fs.WellFormed()
      modifies this`dirs, this`files, this`pathCache
      ensures Valid() && d in dirs && AbsPath(dirs, d) == old(AbsPath(dirs, d))
      ensures Moved(fs, old(Snap()), Snap(), d, recursively)
      ensures r.Ok? ==> r.value == CountsOf(old(Snap()), Snap())
      ensures r.Ok? ==> p == AbsPath(dirs, d) && fs.IsDir(p) && OwnRowsExist(fs, Snap(), d)
      ensures r.Err? && r.error.Protected? ==> Blocked(fs, Snap(), r.error.dir, d)
      ensures r.Err? && !r.error.Protected? ==>
                && !fs.IsDir(AbsPath(dirs, d))
                && r.error == if fs.Exists(AbsPath(dirs, d)) then NotADirectory(AbsPath(dirs, d))
                              else DirectoryMissing(AbsPath(dirs, d))
      ensures old(Settled(fs, supported, Snap(), d, recursively)) ==> r == Ok(NoChanges) && Snap() == old(Snap())
    {
      ghost var s0 := Snap();
      ghost var quiet := Settled(fs, supported, s0, d, recursively);
      r := PruneStale(fs, d, recursively);
      if r.Err? {
        return r, [];
      }
      var listing := Listing(fs, d);
      if listing.Err? {
        return Err(listing.error), [];
      }
      p := listing.value;
    }

    /** `self.absolute_path().iterdir()`: the directory's path, or the error `iterdir`
        raises when nothing, or something other than a directory, is there. */
    method Listing(fs: FileSystem, d: DirId) returns (r: Result<Path, IndexError>)
      requires Valid() && d in dirs
      modifies this`pathCache
      ensures Valid()
      ensures r.Ok? ==> r.value == AbsPath(dirs, d) && fs.IsDir(r.value)
      ensures r.Err? ==>
                && !fs.IsDir(AbsPath(dirs, d))
                && r.error == if fs.Exists(AbsPath(dirs, d)) then NotADirectory(AbsPath(dirs, d))
                              else DirectoryMissing(AbsPath(dirs, d))
    {
      var p := AbsolutePath(d);
      if !fs.Exists(p) {
        r := Err(DirectoryMissing(p));
      } else if !fs.IsDir(p) {
        r := Err(NotADirectory(p));
      } else {
        r := Ok(p);
      }
    }

    /** `Directory.reindex(recursively)`: delete the stale file rows of `d`, then its
        stale subdirectory rows, then save a row for every listed indexable file and
        subdirectory not stored yet, descending into each subdirectory when recursive.
        Returns the four counters `(deleted_files, deleted_directories, indexed_files,
        indexed_directories)`, summed over the whole walk. */
    method Reindex(fs: FileSystem, d: DirId, recursively: bool) returns (r: Result<Counters, IndexError>)
      requires Valid() && d in dirs && fs.WellFormed()
      modifies this`dirs, this`files, this`nextId, this`pathCache
      ensures Valid() && d in dirs && AbsPath(dirs, d) == old(AbsPath(dirs, d))
      ensures Moved(fs, old(Snap()), Snap(), d, recursively)
      ensures r.Ok? ==> r.value == CountsOf(old(Snap()), Snap())
      ensures r.Ok? ==> LocalSynced(fs, supported, Snap(), d)
      ensures r.Ok? && recursively ==> Synced(fs, supported, Snap(), d)
      ensures r.Err? && r.error.Protected? ==> Blocked(fs, Snap(), r.error.dir, d)
      ensures r.Err? && !r.error.Protected? ==>
                && !fs.IsDir(AbsPath(dirs, d))
                && r.error == if fs.Exists(AbsPath(dirs, d)) then NotADirectory(AbsPath(dirs, d))
                              else DirectoryMissing(AbsPath(dirs, d))
      ensures old(Settled(fs, supported, Snap(), d, recursively)) ==> r == Ok(NoChanges) && Snap() == old(Snap())
      decreases fs.Deeper(AbsPath(dirs, d)), 6
    {
      ghost var s0 := Snap();
      var pruned, p := Prepare(fs, d, recursively);
      if pruned.Err? {
        return pruned;
      }
      assert Settled(fs, supported, s0, d, recursively) ==>
        Progress(fs, supported, Snap(), d, fs.Entries(p), recursively);
      r := IndexEntries(fs, d, p, recursively, s0, pruned.value);
    }

    /** `Directory.reindex` as written: its first loop asks for `self.file_set`,
        which `Directory` does not have, so every call raises `AttributeError`
        before any row is deleted or added. */
    method ReindexAsWritten(fs: FileSystem, d: DirId, recursively: bool) returns (r: Result<Counters, IndexError>)
      requires Valid() && d in dirs && fs.WellFormed()
      ensures r == Err(AttributeError("file_set"))
    {
      match FileRowsOf(Snap(), d, "file_set")
      case Err(e) => r := Err(e);
    }

    /** `File.update_metadata()`: extract the file's metadata, link the new row (or
        none) and stamp the file with `now`. A lookup that raises leaves the file as
        it was. */
    method UpdateMetadata(cat: Catalog.Catalog, k: FileKey, readTag: Path -> Catalog.TagRead,
                          parseInt: string -> int, now: Timestamp)
      returns (r: Result<Option<Catalog.MetaId>, Catalog.CatalogError>)
      requires Valid() && cat.Valid() && k in files
      modifies this`files, this`pathCache, cat
      ensures Valid() && cat.Valid()
      ensures dirs == old(dirs) && nextId == old(nextId)
      ensures Catalog.Outcome(r, cat.Snap()) ==
                Catalog.CreateFromTag(old(cat.Snap()), cat.normalize, parseInt, readTag(FilePath(dirs, k)))
      ensures Catalog.Grows(old(cat.Snap()), cat.Snap())
      ensures r.Ok? && r.value.Some? ==> r.value.value in cat.metas && r.value.value !in old(cat.metas)
      ensures r.Ok? ==> files == old(files)[k := FileRow(Some(now), r.value)]
      ensures r.Err? ==> files == old(files)
    {
      var p := FileAbsolutePath(k);
      r := cat.CreateFromPath(p, readTag, parseInt);
      if r.Ok? {
        files := files[k := FileRow(Some(now), r.value)];
      }
    }

    /** `File.index_unindexed_metadata()`: update the metadata of every file not yet
        stamped, in any order, stopping at the first lookup that raises. On success
        no file is left unstamped; files stamped before are never touched; every
        file updated links no row or a row created during this call; no catalog
        row is lost or changed. */
    method IndexUnindexedMetadata(cat: Catalog.Catalog, readTag: Path -> Catalog.TagRead,
                                  parseInt: string -> int, now: Timestamp)
      returns (r: Result<(), Catalog.CatalogError>)
      requires Valid() && cat.Valid()
      modifies this`files, this`pathCache, cat
      ensures Valid() && cat.Valid()
      ensures dirs == old(dirs) && nextId == old(nextId)
      ensures Backfilled(old(files), files, now)
      ensures Catalog.Grows(old(cat.Snap()), cat.Snap())
      ensures NewLinks(old(files), files, old(cat.metas).Keys, cat.metas.Keys)
      ensures r.Ok? ==> forall k :: k in files ==> files[k].metaIndexedAt.Some?
    {
      var todo := set k | k in files && files[k].metaIndexedAt.None?;
      while todo != {}
        invariant Valid() && cat.Valid()
        invariant dirs == old(dirs) && nextId == old(nextId)
        invariant Backfilled(old(files), files, now) && Pending(old(files), files, todo)
        invariant Catalog.Grows(old(cat.Snap()), cat.Snap())
        invariant NewLinks(old(files), files, old(cat.metas).Keys, cat.metas.Keys)
        decreases |todo|
      {
        r, todo := StampNext(cat, readTag, parseInt, now, todo, old(files), old(cat.Snap()));
        if r.Err? {
          return;
        }
      }
      r := Ok(());
    }

    /** One round of `index_unindexed_metadata`: update one pending file. */
    method StampNext(cat: Catalog.Catalog, readTag: Path -> Catalog.TagRead, parseInt: string -> int,
                     now: Timestamp, todo: set<FileKey>, ghost f0: Files, ghost t0: Catalog.Tables)
      returns (r: Result<(), Catalog.CatalogError>, rest: set<FileKey>)
      requires Valid() && cat.Valid() && todo != {}
      requires Backfilled(f0, files, now) && Pending(f0, files, todo)
      requires Catalog.Grows(t0, cat.Snap()) && NewLinks(f0, files, t0.metas.Keys, cat.metas.Keys)
      modifies this`files, this`pathCache, cat
      ensures Valid() && cat.Valid()
      ensures dirs == old(dirs) && nextId == old(nextId)
      ensures |rest| < |todo|
      ensures Backfilled(f0, files, now)
      ensures Catalog.Grows(t0, cat.Snap()) && NewLinks(f0, files, t0.metas.Keys, cat.metas.Keys)
      ensures r.Ok? ==> Pending(f0, files, rest)
    {
      var k :| k in todo;
      ghost var t1, f1 := cat.Snap(), files;
      var m := UpdateMetadata(cat, k, readTag, parseInt, now);
      Catalog.GrowsTrans(t0, t1, cat.Snap());
      LinksGrow(f0, f1, t0.metas.Keys, t1.metas.Keys, cat.metas.Keys);
      if m.Ok? {
        LinksStep(f0, f1, k, files[k], t0.metas.Keys, t1.metas.Keys, cat.metas.Keys);
        StampStep(f0, f1, todo, k, files[k], now);
      }
      rest := todo - {k};
      r := if m.Ok? then Ok(()) else Err(m.error);
    }
  }

  /** Relative to the file rows `f0`, every row of `f` is the same row, stamped
      before and untouched, or stamped with `now`. */
  predicate Backfilled(f0: Files, f: Files, now: Timestamp)
  {
    && f.Keys == f0.Keys
    && (forall k :: k in f0 && f0[k].metaIndexedAt.Some? ==> f[k] == f0[k])
    && (forall k :: k in f0 && f[k] != f0[k] ==> f[k].metaIndexedAt == Some(now))
  }

  /** Every row of `f` that differs from `f0` links no `MetaData` row, or one of
      `metas` that is not one of `metas0`. */
  predicate NewLinks(f0: Files, f: Files, metas0: set<Catalog.MetaId>, metas: set<Catalog.MetaId>)
  {
    forall k :: k in f0 && k in f && f[k] != f0[k] ==>
      f[k].metaData.None? || (f[k].metaData.value in metas && f[k].metaData.value !in metas0)
  }

  /** Stamping one pending row with `now` keeps the backfill invariant. */
  lemma StampStep(f0: Files, f: Files, todo: set<FileKey>, k: FileKey, row: FileRow, now: Timestamp)
    requires Backfilled(f0, f, now) && Pending(f0, f, todo) && k in todo && row.metaIndexedAt == Some(now)
    ensures Backfilled(f0, f[k := row], now) && Pending(f0, f[k := row], todo - {k})
  {
  }

  /** A grown `MetaData` table keeps the links of `NewLinks`. */
  lemma LinksGrow(f0: Files, f: Files, m0: set<Catalog.MetaId>, m1: set<Catalog.MetaId>, m2: set<Catalog.MetaId>)
    requires NewLinks(f0, f, m0, m1) && m1 <= m2
    ensures NewLinks(f0, f, m0, m2)
  {
  }

  /** Updating one row to link none or a row created after `m1` keeps `NewLinks`. */
  lemma LinksStep(f0: Files, f: Files, k: FileKey, row: FileRow,
                  m0: set<Catalog.MetaId>, m1: set<Catalog.MetaId>, m2: set<Catalog.MetaId>)
    requires NewLinks(f0, f, m0, m1) && m0 <= m1 <= m2
    requires row.metaData.None? || (row.metaData.value in m2 && row.metaData.value !in m1)
    ensures NewLinks(f0, f[k := row], m0, m2)
  {
  }

  /** The rows in `todo` are still as in `f0` and unstamped; all others are stamped. */
  predicate Pending(f0: Files, f: Files, todo: set<FileKey>)
    requires f.Keys == f0.Keys
  {
    && (forall k :: k in todo ==> k in f && f[k] == f0[k] && f[k].metaIndexedAt.None?)
    && (forall k :: k in f0 && k !in todo ==> f[k].metaIndexedAt.Some?)
  }
}
