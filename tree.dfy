/** The stored directory tree and file rows of the library index, as values:
    the tables, the path of a row, the descendant relation, and what it means
    for a stored subtree to agree with the filesystem. */
module Tree {
  import opened Wrappers
  import opened Paths
  import opened Disk
  import opened Text

  type DirId = nat
  type MetaId = nat
  /** `timezone.now()`, abstracted to a number supplied by the caller. */
  type Timestamp = nat

  /** A `Directory` row: its parent (none for the base directory) and its one path segment. */
  datatype DirRow = DirRow(parent: Option<DirId>, path: string)

  /** A `File` row is identified by its directory and file name. */
  datatype FileKey = FileKey(dir: DirId, filename: string)

  /** The columns of a `File` row besides its key. */
  datatype FileRow = FileRow(metaIndexedAt: Option<Timestamp>, metaData: Option<MetaId>)

  type Dirs = map<DirId, DirRow>
  type Files = map<FileKey, FileRow>

  /** The two tables and the next free directory id. */
  datatype Store = Store(dirs: Dirs, files: Files, nextId: nat)

  /** The four counters `reindex` returns. */
  datatype Counters = Counters(deletedFiles: nat, deletedDirectories: nat, indexedFiles: nat, indexedDirectories: nat)
  {
    function Plus(o: Counters): Counters
    {
      Counters(deletedFiles + o.deletedFiles, deletedDirectories + o.deletedDirectories,
               indexedFiles + o.indexedFiles, indexedDirectories + o.indexedDirectories)
    }
  }

  const NoChanges := Counters(0, 0, 0, 0)

  /** Every parent reference points at an existing row with a smaller id (rows are
      created after their parents), so the parent relation has no cycles. */
  predicate Linked(dirs: Dirs)
  {
    forall id {:trigger dirs[id]} :: id in dirs && dirs[id].parent.Some? ==>
      dirs[id].parent.value in dirs && dirs[id].parent.value < id
  }

  /** No two subdirectories of one directory share a segment: `get` and
      `get_or_create` on (parent, path) find at most one row. */
  ghost predicate UniqueNames(dirs: Dirs)
  {
    forall a, b :: SameSlot(dirs, a, b) ==> a == b
  }

  /** Rows `a` and `b` are subdirectories of one directory with one segment. */
  predicate SameSlot(dirs: Dirs, a: DirId, b: DirId)
  {
    a in dirs && b in dirs && dirs[a].parent.Some? && dirs[a] == dirs[b]
  }

  /** Every file row belongs to an existing directory row. */
  predicate FilesLinked(dirs: Dirs, files: Files)
  {
    forall k :: k in files ==> k.dir in dirs
  }

  ghost predicate Consistent(s: Store)
  {
    && Linked(s.dirs)
    && UniqueNames(s.dirs)
    && FilesLinked(s.dirs, s.files)
    && forall id :: id in s.dirs ==> id < s.nextId
  }

  /** `Directory.absolute_path()`: the base directory's path, joined with each segment below it. */
  function AbsPath(dirs: Dirs, id: DirId): Path
    requires Linked(dirs) && id in dirs
    decreases id
  {
    match dirs[id].parent
    case None => Parts(dirs[id].path)
    case Some(q) => Join(AbsPath(dirs, q), dirs[id].path)
  }

  /** `Directory.relative_path()`: the segments below the base directory. */
  function RelPath(dirs: Dirs, id: DirId): Path
    requires Linked(dirs) && id in dirs
    decreases id
  {
    match dirs[id].parent
    case None => []
    case Some(q) => Join(RelPath(dirs, q), dirs[id].path)
  }

  /** The row without a parent above `id`. */
  function RootOf(dirs: Dirs, id: DirId): (r: DirId)
    requires Linked(dirs) && id in dirs
    ensures r in dirs && dirs[r].parent.None?
    decreases id
  {
    match dirs[id].parent
    case None => id
    case Some(q) => RootOf(dirs, q)
  }

  /** The absolute path of a directory is its base directory's path followed by
      its relative path. */
  lemma {:induction false} AbsIsRootPlusRel(dirs: Dirs, id: DirId)
    requires Linked(dirs) && id in dirs
    ensures AbsPath(dirs, id) == Parts(dirs[RootOf(dirs, id)].path) + RelPath(dirs, id)
    decreases id
  {
    match dirs[id].parent
    case None =>
    case Some(q) =>
      AbsIsRootPlusRel(dirs, q);
  }

  /** `Directory.objects.get(parent=d, path=n)`: the subdirectory row of `d` with segment `n`, if any. */
  function Child(dirs: Dirs, d: DirId, n: string): (r: Option<DirId>)
    requires UniqueNames(dirs)
    ensures r.Some? ==> r.value in dirs && dirs[r.value] == DirRow(Some(d), n)
    ensures r.None? ==> forall c :: c in dirs ==> dirs[c] != DirRow(Some(d), n)
  {
    if exists c :: c in dirs && dirs[c] == DirRow(Some(d), n) then
      assert forall a, b ::
        (a in dirs && dirs[a] == DirRow(Some(d), n) && b in dirs && dirs[b] == DirRow(Some(d), n)) ==> SameSlot(dirs, a, b);
      var c :| c in dirs && dirs[c] == DirRow(Some(d), n);
      Some(c)
    else
      None
  }

  /** Every memoised path is the path of its row, and no memo sits on an id not yet handed out. */
  ghost predicate CacheSound(cache: map<DirId, Path>, dirs: Dirs, nextId: nat)
    requires Linked(dirs)
  {
    forall id :: id in cache ==> id < nextId && (id in dirs ==> cache[id] == AbsPath(dirs, id))
  }

  /** Memoised paths stay right when rows are only added under fresh ids or removed. */
  lemma CacheKept(cache: map<DirId, Path>, x: Dirs, nx: nat, y: Dirs, ny: nat)
    requires Linked(x) && Linked(y) && RowsAgree(x, y) && nx <= ny
    requires forall id :: id in y && id !in x ==> id >= nx
    requires CacheSound(cache, x, nx)
    ensures CacheSound(cache, y, ny)
  {
    forall id | id in cache && id in y ensures cache[id] == AbsPath(y, id) {
      AbsStable(x, y, id);
    }
  }

  /** Saving a subdirectory row under the next id keeps the tables consistent. */
  lemma AddRowConsistent(s: Store, d: DirId, n: string)
    requires Consistent(s) && d in s.dirs && Child(s.dirs, d, n).None?
    ensures Consistent(Store(s.dirs[s.nextId := DirRow(Some(d), n)], s.files, s.nextId + 1))
  {
    var y := s.dirs[s.nextId := DirRow(Some(d), n)];
    forall a, b | SameSlot(y, a, b) ensures a == b {
      if a != s.nextId && b != s.nextId {
        assert SameSlot(s.dirs, a, b);
      }
    }
  }

  /** Deleting file rows keeps the tables consistent. */
  lemma RemoveFilesConsistent(s: Store, gone: set<FileKey>)
    requires Consistent(s)
    ensures Consistent(Store(s.dirs, s.files - gone, s.nextId))
  {
  }

  /** Deleting directory rows that no remaining row and no file references keeps the tables consistent. */
  lemma RemoveRowsConsistent(s: Store, gone: set<DirId>)
    requires Consistent(s)
    requires forall q :: q in s.dirs && s.dirs[q].parent.Some? ==> s.dirs[q].parent.value !in gone
    requires forall k :: k in s.files ==> k.dir !in gone
    ensures Consistent(Store(s.dirs - gone, s.files, s.nextId))
  {
    forall a, b | SameSlot(s.dirs - gone, a, b) ensures a == b {
      assert SameSlot(s.dirs, a, b);
    }
  }

  /** `File.absolute_path()` */
  function FilePath(dirs: Dirs, k: FileKey): Path
    requires Linked(dirs) && k.dir in dirs
  {
    Join(AbsPath(dirs, k.dir), k.filename)
  }

  /** `File.relative_path()` */
  function FileRelPath(dirs: Dirs, k: FileKey): Path
    requires Linked(dirs) && k.dir in dirs
  {
    Join(RelPath(dirs, k.dir), k.filename)
  }

  /** A file's absolute path is its base directory's path followed by its relative path. */
  lemma FilePathIsRootPlusRel(dirs: Dirs, k: FileKey)
    requires Linked(dirs) && k.dir in dirs
    ensures FilePath(dirs, k) == Parts(dirs[RootOf(dirs, k.dir)].path) + FileRelPath(dirs, k)
  {
    AbsIsRootPlusRel(dirs, k.dir);
  }

  /** `File.indexable()`: the lower-cased name ends with one of the supported suffixes. */
  predicate Indexable(filename: string, supported: seq<string>)
  {
    EndsWithAny(Lower(filename), supported)
  }

  /** Indexability ignores the case of the file name. */
  lemma IndexableIgnoresCase(filename: string, supported: seq<string>)
    ensures Indexable(Lower(filename), supported) == Indexable(filename, supported)
  {
    LowerIdempotent(filename);
  }

  // ---------------------------------------------------------------------------
  // The descendant relation

  /** `y` is `a` or lies below it. */
  predicate IsDesc(dirs: Dirs, y: DirId, a: DirId)
    requires Linked(dirs) && y in dirs
    decreases y
  {
    y == a || (dirs[y].parent.Some? && IsDesc(dirs, dirs[y].parent.value, a))
  }

  /** The parent of `id` lies in the subtree of `d`. */
  predicate StrictlyBelow(dirs: Dirs, id: DirId, d: DirId)
    requires Linked(dirs) && id in dirs
  {
    dirs[id].parent.Some? && IsDesc(dirs, dirs[id].parent.value, d)
  }

  lemma {:induction false} DescOrder(dirs: Dirs, y: DirId, a: DirId)
    requires Linked(dirs) && y in dirs && IsDesc(dirs, y, a)
    ensures a in dirs && a <= y
    decreases y
  {
    if y != a { DescOrder(dirs, dirs[y].parent.value, a); }
  }

  lemma {:induction false} DescTrans(dirs: Dirs, y: DirId, b: DirId, a: DirId)
    requires Linked(dirs) && y in dirs && b in dirs
    requires IsDesc(dirs, y, b) && IsDesc(dirs, b, a)
    ensures IsDesc(dirs, y, a)
    decreases y
  {
    if y != b { DescTrans(dirs, dirs[y].parent.value, b, a); }
  }

  /** Two ancestors of one row are ordered by the descendant relation. */
  lemma {:induction false} DescLinear(dirs: Dirs, y: DirId, a: DirId, b: DirId)
    requires Linked(dirs) && y in dirs
    requires IsDesc(dirs, y, a) && IsDesc(dirs, y, b)
    ensures a in dirs && b in dirs
    ensures IsDesc(dirs, a, b) || IsDesc(dirs, b, a)
    decreases y
  {
    DescOrder(dirs, y, a);
    DescOrder(dirs, y, b);
    if y != a && y != b {
      DescLinear(dirs, dirs[y].parent.value, a, b);
    }
  }

  /** Two different subdirectories of one directory have disjoint subtrees. */
  lemma SiblingsApart(dirs: Dirs, c1: DirId, c2: DirId, d: DirId)
    requires Linked(dirs) && c1 in dirs && c2 in dirs && c1 != c2
    requires dirs[c1].parent == Some(d) && dirs[c2].parent == Some(d)
    ensures !IsDesc(dirs, c1, c2)
  {
    if IsDesc(dirs, c1, c2) { DescOrder(dirs, d, c2); }
  }

  /** The rows two tables have in common are equal. */
  predicate RowsAgree(x: Dirs, y: Dirs)
  {
    forall id :: id in x && id in y ==> x[id] == y[id]
  }

  lemma {:induction false} AbsStable(x: Dirs, y: Dirs, id: DirId)
    requires Linked(x) && Linked(y) && RowsAgree(x, y) && id in x && id in y
    ensures AbsPath(x, id) == AbsPath(y, id)
    decreases id
  {
    if x[id].parent.Some? { AbsStable(x, y, x[id].parent.value); }
  }

  lemma {:induction false} DescStable(x: Dirs, y: Dirs, id: DirId, a: DirId)
    requires Linked(x) && Linked(y) && RowsAgree(x, y) && id in x && id in y
    ensures IsDesc(x, id, a) == IsDesc(y, id, a)
    decreases id
  {
    if x[id].parent.Some? { DescStable(x, y, x[id].parent.value, a); }
  }

  /** The last directory reached from `d` along the chain `c`. */
  function Tip(d: DirId, c: seq<DirId>): DirId
  {
    if |c| == 0 then d else c[|c| - 1]
  }

  /** `c` follows the first |c| segments of `segs` down from `d`: element `i` is the
      subdirectory row named `segs[i]` of element `i - 1` (of `d` for `i = 0`). */
  ghost predicate IsChain(dirs: Dirs, d: DirId, segs: seq<string>, c: seq<DirId>)
  {
    && |c| <= |segs|
    && forall i :: 0 <= i < |c| ==> c[i] in dirs && dirs[c[i]] == DirRow(Some(Tip(d, c[..i])), segs[i])
  }

  /** The tip of a chain from `d` is a row below `d`. */
  lemma {:induction false} ChainDesc(dirs: Dirs, d: DirId, segs: seq<string>, c: seq<DirId>)
    requires Linked(dirs) && d in dirs && IsChain(dirs, d, segs, c)
    ensures Tip(d, c) in dirs && IsDesc(dirs, Tip(d, c), d)
    decreases |c|
  {
    if |c| > 0 {
      var p := c[..|c| - 1];
      forall i | 0 <= i < |p| ensures p[i] in dirs && dirs[p[i]] == DirRow(Some(Tip(d, p[..i])), segs[i]) {
        assert p[..i] == c[..i];
      }
      ChainDesc(dirs, d, segs, p);
      assert c[..|c| - 1] == p;
    }
  }

  /** Element `i` of a chain has the path of `d` extended by the first `i + 1` segments,
      each joined in turn. */
  lemma {:induction false} ChainPath(dirs: Dirs, d: DirId, segs: seq<string>, c: seq<DirId>, i: nat)
    requires Linked(dirs) && d in dirs && IsChain(dirs, d, segs, c) && i < |c|
    ensures AbsPath(dirs, c[i]) == JoinAll(AbsPath(dirs, d), segs[..i + 1])
  {
    var base := AbsPath(dirs, d);
    if i == 0 {
      assert c[..0] == [];
      assert segs[..1] == [segs[0]];
      assert JoinAll(base, [segs[0]]) == JoinAll(Join(base, segs[0]), []);
    } else {
      ChainPath(dirs, d, segs, c, i - 1);
      assert Tip(d, c[..i]) == c[i - 1];
      JoinAllSnoc(base, segs[..i], segs[i]);
      assert segs[..i + 1] == segs[..i] + [segs[i]];
    }
  }

  /** A chain one step below `d`, preceded by that step. */
  lemma ChainCons(dirs: Dirs, d: DirId, c: DirId, segs: seq<string>, more: seq<DirId>)
    requires |segs| > 0 && c in dirs && dirs[c] == DirRow(Some(d), segs[0])
    requires IsChain(dirs, c, segs[1..], more)
    ensures IsChain(dirs, d, segs, [c] + more)
    ensures Tip(d, [c] + more) == Tip(c, more)
  {
    var w := [c] + more;
    forall i | 0 <= i < |w| ensures w[i] in dirs && dirs[w[i]] == DirRow(Some(Tip(d, w[..i])), segs[i]) {
      if i > 0 {
        assert w[..i] == [c] + more[..i - 1];
        assert Tip(d, w[..i]) == Tip(c, more[..i - 1]);
      }
    }
  }

  /** `y` keeps every row of `x`; each row it adds has an id of at least `from`, lies on
      the chain `c`, and names a path that exists on disk. */
  ghost predicate Extends(fs: FileSystem, x: Dirs, y: Dirs, from: nat, c: seq<DirId>)
    requires Linked(y)
  {
    && (forall id :: id in x ==> id in y && y[id] == x[id])
    && (forall id :: id in y && id !in x ==> id >= from && id in c && fs.Exists(AbsPath(y, id)))
  }

  /** One segment resolved to `c`, then the rest of the walk from `c`: together they
      are the walk from `d`, and the new rows lie along it. */
  lemma WalkCons(fs: FileSystem, x: Dirs, y: Dirs, z: Dirs, from: nat, mid: nat, d: DirId, c: DirId,
                 segs: seq<string>, more: seq<DirId>)
    requires Linked(y) && Linked(z) && from <= mid && |segs| > 0
    requires c in y && y[c] == DirRow(Some(d), segs[0])
    requires Extends(fs, x, y, from, [c]) && Extends(fs, y, z, mid, more)
    requires IsChain(z, c, segs[1..], more)
    ensures IsChain(z, d, segs, [c] + more) && Extends(fs, x, z, from, [c] + more)
    ensures Tip(d, [c] + more) == Tip(c, more)
    ensures |more| < |segs| - 1 ==> segs[|more| + 1] == segs[1..][|more|]
  {
    ChainCons(z, d, c, segs, more);
    ExtendsCons(fs, x, y, z, from, mid, c, more);
  }

  /** Two extensions in a row make one, along the joined chain. */
  lemma ExtendsCons(fs: FileSystem, x: Dirs, y: Dirs, z: Dirs, from: nat, mid: nat, c: DirId, more: seq<DirId>)
    requires Linked(y) && Linked(z) && from <= mid
    requires Extends(fs, x, y, from, [c]) && Extends(fs, y, z, mid, more)
    ensures Extends(fs, x, z, from, [c] + more)
  {
    forall id | id in z && id !in x ensures id >= from && id in [c] + more && fs.Exists(AbsPath(z, id)) {
      if id in y {
        AbsStable(y, z, id);
      }
    }
  }

  /** What `Directory.listdir()` returns: the directory's file rows and its
      subdirectory rows. */
  datatype DirListing = DirListing(files: seq<FileKey>, subdirs: seq<DirId>)

  /** The names of the file rows of `d`. */
  function FileNames(files: Files, d: DirId): set<string>
  {
    set k | k in files && k.dir == d :: k.filename
  }

  /** The segments of the subdirectory rows of `d`. */
  function SubdirNames(dirs: Dirs, d: DirId): set<string>
  {
    set c | c in dirs && dirs[c].parent == Some(d) :: dirs[c].path
  }

  /** The file rows of `d`, ordered by file name. */
  function FilesOf(files: Files, d: DirId): (r: seq<FileKey>)
    ensures forall k :: k in r <==> k in files && k.dir == d
    ensures forall i, j :: 0 <= i < j < |r| ==> Below(r[i].filename, r[j].filename)
  {
    var names := Sorted(FileNames(files, d));
    var r := seq(|names|, i requires 0 <= i < |names| => FileKey(d, names[i]));
    assert forall k :: k in r ==> k in files && k.dir == d by {
      forall k | k in r ensures k in files && k.dir == d {
        var i :| 0 <= i < |r| && r[i] == k;
        assert names[i] in FileNames(files, d);
        var k' :| k' in files && k'.dir == d && k'.filename == names[i];
        assert k' == k;
      }
    }
    assert forall k :: k in files && k.dir == d ==> k in r by {
      forall k | k in files && k.dir == d ensures k in r {
        assert k.filename in FileNames(files, d);
        var i :| 0 <= i < |names| && names[i] == k.filename;
        assert r[i] == k;
      }
    }
    r
  }

  /** The subdirectory rows of `d`, ordered by segment. */
  function SubdirsOf(dirs: Dirs, d: DirId): (r: seq<DirId>)
    requires UniqueNames(dirs)
    ensures forall c :: c in r <==> c in dirs && dirs[c].parent == Some(d)
    ensures forall i :: 0 <= i < |r| ==> r[i] in dirs
    ensures forall i, j :: 0 <= i < j < |r| ==> Below(dirs[r[i]].path, dirs[r[j]].path)
  {
    var segs := Sorted(SubdirNames(dirs, d));
    SegmentsNamed(dirs, d, segs);
    var r: seq<DirId> := seq(|segs|, i requires 0 <= i < |segs| => Child(dirs, d, segs[i]).value);
    SegmentsCovered(dirs, d, segs, r);
    r
  }

  /** Every segment of a subdirectory of `d` names one. */
  lemma SegmentsNamed(dirs: Dirs, d: DirId, segs: seq<string>)
    requires UniqueNames(dirs)
    requires forall x :: x in SubdirNames(dirs, d) <==> x in segs
    ensures forall i :: 0 <= i < |segs| ==> Child(dirs, d, segs[i]).Some?
  {
    forall i | 0 <= i < |segs| ensures Child(dirs, d, segs[i]).Some? {
      assert segs[i] in SubdirNames(dirs, d);
      var c :| c in dirs && dirs[c].parent == Some(d) && dirs[c].path == segs[i];
      assert dirs[c] == DirRow(Some(d), segs[i]);
    }
  }

  /** Looking up every segment finds every subdirectory of `d`, and nothing else. */
  lemma SegmentsCovered(dirs: Dirs, d: DirId, segs: seq<string>, r: seq<DirId>)
    requires UniqueNames(dirs)
    requires forall x :: x in SubdirNames(dirs, d) <==> x in segs
    requires |r| == |segs|
    requires forall i :: 0 <= i < |r| ==> r[i] in dirs && dirs[r[i]] == DirRow(Some(d), segs[i])
    ensures forall c :: c in r <==> c in dirs && dirs[c].parent == Some(d)
  {
    forall c | c in dirs && dirs[c].parent == Some(d) ensures c in r {
      assert dirs[c].path in SubdirNames(dirs, d);
      var i :| 0 <= i < |segs| && segs[i] == dirs[c].path;
      assert SameSlot(dirs, c, r[i]);
    }
  }

  /** `Directory.listdir()`: the file rows of `d` ordered by file name and its
      subdirectory rows ordered by segment. Each list holds every such row once. */
  function Listdir(s: Store, d: DirId): (r: DirListing)
    requires Consistent(s)
    ensures forall k :: k in r.files <==> k in s.files && k.dir == d
    ensures forall i, j :: 0 <= i < j < |r.files| ==> Below(r.files[i].filename, r.files[j].filename)
    ensures forall c :: c in r.subdirs <==> c in s.dirs && s.dirs[c].parent == Some(d)
    ensures forall i :: 0 <= i < |r.subdirs| ==> r.subdirs[i] in s.dirs
    ensures forall i, j :: 0 <= i < j < |r.subdirs| ==> Below(s.dirs[r.subdirs[i]].path, s.dirs[r.subdirs[j]].path)
  {
    DirListing(FilesOf(s.files, d), SubdirsOf(s.dirs, d))
  }
}
