/** What a reconciliation step may do to the tables, and why the counters of
    consecutive steps add up. */
module Steps {
  import opened Wrappers
  import opened Paths
  import opened Disk
  import opened Tree

  /** A step of reconciliation against `fs`: rows are never rewritten, remove only
      rows whose paths are gone from disk, and add only fresh rows whose paths exist
      (new file rows carrying no metadata yet). */
  ghost predicate Step(fs: FileSystem, x: Store, y: Store)
    requires Consistent(x) && Consistent(y)
  {
    && x.nextId <= y.nextId
    && RowsAgree(x.dirs, y.dirs)
    && (forall id :: DirStep(fs, x, y, id))
    && (forall k :: FileStep(fs, x, y, k))
  }

  /** What a step may do to the directory row `id`. */
  predicate DirStep(fs: FileSystem, x: Store, y: Store, id: DirId)
    requires Consistent(x) && Consistent(y)
  {
    && (id in x.dirs && id !in y.dirs ==> !fs.Exists(AbsPath(x.dirs, id)))
    && (id in y.dirs && id !in x.dirs ==> id >= x.nextId && fs.Exists(AbsPath(y.dirs, id)))
  }

  /** What a step may do to the file row `k`. */
  predicate FileStep(fs: FileSystem, x: Store, y: Store, k: FileKey)
    requires Consistent(x) && Consistent(y)
  {
    && (k in x.files && k in y.files ==> x.files[k] == y.files[k])
    && (k in x.files && k !in y.files ==> !fs.Exists(FilePath(x.dirs, k)))
    && (k in y.files && k !in x.files ==> y.files[k] == FileRow(None, None) && fs.Exists(FilePath(y.dirs, k)))
  }

  /** Every row a step removes or adds lies in the subtree of `d`. */
  ghost predicate Within(x: Store, y: Store, d: DirId)
    requires Consistent(x) && Consistent(y)
  {
    && (forall id :: DirWithin(x, y, d, id))
    && (forall k :: FileWithin(x, y, d, k))
  }

  predicate DirWithin(x: Store, y: Store, d: DirId, id: DirId)
    requires Consistent(x) && Consistent(y)
  {
    && (id in x.dirs && id !in y.dirs ==> StrictlyBelow(x.dirs, id, d))
    && (id in y.dirs && id !in x.dirs ==> StrictlyBelow(y.dirs, id, d))
  }

  predicate FileWithin(x: Store, y: Store, d: DirId, k: FileKey)
    requires Consistent(x) && Consistent(y)
  {
    && (k in x.files && k !in y.files ==> IsDesc(x.dirs, k.dir, d))
    && (k in y.files && k !in x.files ==> IsDesc(y.dirs, k.dir, d))
  }

  /** Every row a step removes or adds hangs directly off `d`. */
  ghost predicate AtOnly(x: Store, y: Store, d: DirId)
  {
    && (forall id :: DirAt(x, y, d, id))
    && (forall k :: FileAt(x, y, d, k))
  }

  predicate DirAt(x: Store, y: Store, d: DirId, id: DirId)
  {
    && (id in x.dirs && id !in y.dirs ==> x.dirs[id].parent == Some(d))
    && (id in y.dirs && id !in x.dirs ==> y.dirs[id].parent == Some(d))
  }

  predicate FileAt(x: Store, y: Store, d: DirId, k: FileKey)
  {
    && (k in x.files && k !in y.files ==> k.dir == d)
    && (k in y.files && k !in x.files ==> k.dir == d)
  }

  /** Visiting one more element of `all` removes it from the unvisited part of `chosen`. */
  lemma VisitOne<T>(chosen: set<T>, todo: set<T>, e: T)
    requires e in todo
    ensures e in chosen ==> chosen - (todo - {e}) == (chosen - todo) + {e} && e !in chosen - todo
    ensures e in chosen ==> |chosen - (todo - {e})| == |chosen - todo| + 1
    ensures e !in chosen ==> chosen - (todo - {e}) == chosen - todo
  {
    if e in chosen {
      assert chosen - (todo - {e}) == (chosen - todo) + {e};
    }
  }

  /** Removing keys one at a time is removing them together. */
  lemma RemoveOne<K, V>(m: map<K, V>, gone: set<K>, e: K)
    ensures (m - gone) - {e} == m - (gone + {e})
  {
  }

  /** The counters of a change: rows removed and rows added, per table. */
  function CountsOf(x: Store, y: Store): Counters
  {
    Counters(Gone(x.files, y.files), Gone(x.dirs, y.dirs), Gone(y.files, x.files), Gone(y.dirs, x.dirs))
  }

  /** How many keys of `x` are missing from `y`. */
  function Gone<K, V>(x: map<K, V>, y: map<K, V>): nat
  {
    |x.Keys - y.Keys|
  }

  lemma StepRefl(fs: FileSystem, x: Store, d: DirId)
    requires Consistent(x)
    ensures Step(fs, x, x) && Within(x, x, d) && AtOnly(x, x, d) && CountsOf(x, x) == NoChanges
  {
    GoneSame(x.files);
    GoneSame(x.dirs);
  }

  lemma AtOnlyWithin(x: Store, y: Store, d: DirId)
    requires Consistent(x) && Consistent(y) && d in x.dirs && d in y.dirs
    requires AtOnly(x, y, d)
    ensures Within(x, y, d)
  {
    forall id ensures DirWithin(x, y, d, id) { assert DirAt(x, y, d, id); }
    forall k ensures FileWithin(x, y, d, k) { assert FileAt(x, y, d, k); }
  }

  /** A removal that ends where the next change starts: counted sizes add up. */
  lemma DiffAdd<T>(a: set<T>, b: set<T>, c: set<T>)
    requires b - c <= a
    requires (a - b) * c == {}
    ensures |a - c| == |a - b| + |b - c|
  {
    forall e | e in a - c ensures e in (a - b) + (b - c) {
      if e in b {}
    }
    forall e | e in (a - b) + (b - c) ensures e in a - c {
      if e in a - b { assert e !in (a - b) * c; }
    }
    assert a - c == (a - b) + (b - c);
    assert (a - b) * (b - c) == {};
  }

  /** Directory rows present at both ends of two steps were present in between. */
  lemma StepDirsThrough(fs: FileSystem, x: Store, y: Store, z: Store)
    requires Consistent(x) && Consistent(y) && Consistent(z)
    requires Step(fs, x, y) && Step(fs, y, z)
    ensures forall id :: id in x.dirs && id in z.dirs ==> id in y.dirs
    ensures forall id :: id in y.dirs && id !in z.dirs ==> id in x.dirs
    ensures forall id :: id in y.dirs && id !in x.dirs ==> id in z.dirs
    ensures RowsAgree(x.dirs, z.dirs)
  {
    forall id | id in x.dirs && id in z.dirs ensures id in y.dirs {
      assert DirStep(fs, y, z, id);
    }
    forall id | id in y.dirs && id !in z.dirs ensures id in x.dirs {
      assert DirStep(fs, x, y, id);
      assert DirStep(fs, y, z, id);
    }
    forall id | id in y.dirs && id !in x.dirs ensures id in z.dirs {
      assert DirStep(fs, x, y, id);
      assert DirStep(fs, y, z, id);
    }
  }

  /** File rows present at both ends of two steps were present in between. */
  lemma StepFilesThrough(fs: FileSystem, x: Store, y: Store, z: Store)
    requires Consistent(x) && Consistent(y) && Consistent(z)
    requires Step(fs, x, y) && Step(fs, y, z)
    ensures forall k :: k in x.files && k in z.files ==> k in y.files
    ensures forall k :: k in y.files && k !in z.files ==> k in x.files
    ensures forall k :: k in y.files && k !in x.files ==> k in z.files
  {
    StepDirsThrough(fs, x, y, z);
    forall k | k in x.files && k in z.files ensures k in y.files {
      AbsStable(x.dirs, z.dirs, k.dir);
      assert FileStep(fs, x, y, k);
      assert FileStep(fs, y, z, k);
    }
    forall k | k in y.files && k !in z.files ensures k in x.files {
      assert FileStep(fs, x, y, k);
      assert FileStep(fs, y, z, k);
    }
    forall k | k in y.files && k !in x.files ensures k in z.files {
      assert FileStep(fs, x, y, k);
      assert FileStep(fs, y, z, k);
    }
  }

  lemma StepTransDirs(fs: FileSystem, x: Store, y: Store, z: Store)
    requires Consistent(x) && Consistent(y) && Consistent(z)
    requires Step(fs, x, y) && Step(fs, y, z)
    ensures RowsAgree(x.dirs, z.dirs)
    ensures forall id :: DirStep(fs, x, z, id)
  {
    StepDirsThrough(fs, x, y, z);
    forall id ensures DirStep(fs, x, z, id) {
      assert DirStep(fs, x, y, id);
      assert DirStep(fs, y, z, id);
      if id in y.dirs && id in x.dirs { AbsStable(x.dirs, y.dirs, id); }
      if id in y.dirs && id in z.dirs { AbsStable(y.dirs, z.dirs, id); }
    }
  }

  lemma StepTransFiles(fs: FileSystem, x: Store, y: Store, z: Store)
    requires Consistent(x) && Consistent(y) && Consistent(z)
    requires Step(fs, x, y) && Step(fs, y, z)
    ensures forall k :: FileStep(fs, x, z, k)
  {
    StepFilesThrough(fs, x, y, z);
    StepDirsThrough(fs, x, y, z);
    forall k ensures FileStep(fs, x, z, k) {
      assert FileStep(fs, x, y, k);
      assert FileStep(fs, y, z, k);
      if k in y.files {
        assert k.dir in y.dirs;
        if k in x.files { AbsStable(x.dirs, y.dirs, k.dir); }
        if k in z.files { AbsStable(y.dirs, z.dirs, k.dir); }
      }
    }
  }

  lemma StepTransCounts(fs: FileSystem, x: Store, y: Store, z: Store)
    requires Consistent(x) && Consistent(y) && Consistent(z)
    requires Step(fs, x, y) && Step(fs, y, z)
    ensures CountsOf(x, z) == CountsOf(x, y).Plus(CountsOf(y, z))
  {
    StepDirsThrough(fs, x, y, z);
    StepFilesThrough(fs, x, y, z);
    GoneBoth(x.files, y.files, z.files);
    GoneBoth(x.dirs, y.dirs, z.dirs);
    CountsAdd(x, y, z);
  }

  /** Removals from a map add up when nothing removed in the first change
      comes back in the second, and the second removes only original keys. */
  lemma KeysDiffAdd<K, V>(x: map<K, V>, y: map<K, V>, z: map<K, V>)
    requires forall k :: k in y && k !in z ==> k in x
    requires forall k :: k in x && k in z ==> k in y
    ensures Gone(x, z) == Gone(x, y) + Gone(y, z)
  {
    assert y.Keys - z.Keys <= x.Keys;
    assert (x.Keys - y.Keys) * z.Keys == {};
    DiffAdd(x.Keys, y.Keys, z.Keys);
  }

  /** Counters add when each table's removals and additions add up. */
  lemma CountsAdd(x: Store, y: Store, z: Store)
    requires Gone(x.files, z.files) == Gone(x.files, y.files) + Gone(y.files, z.files)
    requires Gone(z.files, x.files) == Gone(z.files, y.files) + Gone(y.files, x.files)
    requires Gone(x.dirs, z.dirs) == Gone(x.dirs, y.dirs) + Gone(y.dirs, z.dirs)
    requires Gone(z.dirs, x.dirs) == Gone(z.dirs, y.dirs) + Gone(y.dirs, x.dirs)
    ensures CountsOf(x, z) == CountsOf(x, y).Plus(CountsOf(y, z))
  {
    PlusFields(CountsOf(x, z), CountsOf(x, y), CountsOf(y, z));
  }

  /** Counters that agree field by field with a sum are that sum. */
  lemma PlusFields(a: Counters, b: Counters, c: Counters)
    requires a.deletedFiles == b.deletedFiles + c.deletedFiles
    requires a.deletedDirectories == b.deletedDirectories + c.deletedDirectories
    requires a.indexedFiles == b.indexedFiles + c.indexedFiles
    requires a.indexedDirectories == b.indexedDirectories + c.indexedDirectories
    ensures a == b.Plus(c)
  {
  }

  /** Removals and additions of keys both add up across two changes of a map. */
  lemma GoneBoth<K, V>(x: map<K, V>, y: map<K, V>, z: map<K, V>)
    requires forall k :: k in y && k !in z ==> k in x
    requires forall k :: k in y && k !in x ==> k in z
    requires forall k :: k in x && k in z ==> k in y
    ensures Gone(x, z) == Gone(x, y) + Gone(y, z)
    ensures Gone(z, x) == Gone(z, y) + Gone(y, x)
  {
    KeysDiffAdd(x, y, z);
    KeysDiffAdd(z, y, x);
  }

  /** Two steps in a row make one step. */
  lemma StepTrans(fs: FileSystem, x: Store, y: Store, z: Store)
    requires Consistent(x) && Consistent(y) && Consistent(z)
    requires Step(fs, x, y) && Step(fs, y, z)
    ensures Step(fs, x, z)
  {
    StepTransDirs(fs, x, y, z);
    StepTransFiles(fs, x, y, z);
  }

  /** Two changes within the subtree of `d` make one change within it. */
  lemma WithinTrans(fs: FileSystem, x: Store, y: Store, z: Store, d: DirId)
    requires Consistent(x) && Consistent(y) && Consistent(z)
    requires Step(fs, x, y) && Step(fs, y, z)
    requires Within(x, y, d) && Within(y, z, d)
    ensures Within(x, z, d)
  {
    StepDirsThrough(fs, x, y, z);
    StepFilesThrough(fs, x, y, z);
    forall id ensures DirWithin(x, z, d, id) {
      assert DirWithin(x, y, d, id);
      assert DirWithin(y, z, d, id);
      if id in x.dirs && id !in z.dirs && id in y.dirs {
        DescStable(x.dirs, y.dirs, x.dirs[id].parent.value, d);
      }
      if id in z.dirs && id !in x.dirs && id in y.dirs {
        DescStable(y.dirs, z.dirs, y.dirs[id].parent.value, d);
      }
    }
    forall k ensures FileWithin(x, z, d, k) {
      assert FileWithin(x, y, d, k);
      assert FileWithin(y, z, d, k);
      if k in x.files && k !in z.files && k in y.files { DescStable(x.dirs, y.dirs, k.dir, d); }
      if k in z.files && k !in x.files && k in y.files { DescStable(y.dirs, z.dirs, k.dir, d); }
    }
  }

  /** A change within the subtree of `c` is a change within the subtree of any ancestor of `c`. */
  lemma WithinWiden(fs: FileSystem, x: Store, y: Store, c: DirId, d: DirId)
    requires Consistent(x) && Consistent(y) && Step(fs, x, y)
    requires c in x.dirs && c in y.dirs && IsDesc(x.dirs, c, d)
    requires Within(x, y, c)
    ensures Within(x, y, d)
  {
    DescStable(x.dirs, y.dirs, c, d);
    forall id ensures DirWithin(x, y, d, id) {
      assert DirWithin(x, y, c, id);
      if id in x.dirs && id !in y.dirs { DescTrans(x.dirs, x.dirs[id].parent.value, c, d); }
      if id in y.dirs && id !in x.dirs { DescTrans(y.dirs, y.dirs[id].parent.value, c, d); }
    }
    forall k ensures FileWithin(x, y, d, k) {
      assert FileWithin(x, y, c, k);
      if k in x.files && k !in y.files { DescTrans(x.dirs, k.dir, c, d); }
      if k in y.files && k !in x.files { DescTrans(y.dirs, k.dir, c, d); }
    }
  }

  /** A change within the subtree of `e` leaves the files and subdirectory rows of any
      directory outside that subtree as they were. */
  lemma WithinSpares(fs: FileSystem, x: Store, y: Store, e: DirId, d: DirId)
    requires Consistent(x) && Consistent(y) && Step(fs, x, y) && Within(x, y, e)
    requires d in x.dirs && d in y.dirs && !IsDesc(x.dirs, d, e)
    ensures forall n :: FileKey(d, n) in x.files <==> FileKey(d, n) in y.files
    ensures forall id :: (id in x.dirs && x.dirs[id].parent == Some(d)) <==> (id in y.dirs && y.dirs[id].parent == Some(d))
  {
    DescStable(x.dirs, y.dirs, d, e);
    forall n ensures FileKey(d, n) in x.files <==> FileKey(d, n) in y.files {
      assert FileWithin(x, y, e, FileKey(d, n));
    }
    forall id ensures (id in x.dirs && x.dirs[id].parent == Some(d)) <==> (id in y.dirs && y.dirs[id].parent == Some(d)) {
      assert DirWithin(x, y, e, id);
    }
  }

  /** Two changes that touch only rows hanging off `d` make one such change. */
  lemma AtOnlyTrans(fs: FileSystem, x: Store, y: Store, z: Store, d: DirId)
    requires Consistent(x) && Consistent(y) && Consistent(z)
    requires Step(fs, x, y) && Step(fs, y, z)
    requires AtOnly(x, y, d) && AtOnly(y, z, d)
    ensures AtOnly(x, z, d)
  {
    StepDirsThrough(fs, x, y, z);
    StepFilesThrough(fs, x, y, z);
    forall id ensures DirAt(x, z, d, id) {
      assert DirAt(x, y, d, id);
      assert DirAt(y, z, d, id);
    }
    forall k ensures FileAt(x, z, d, k) {
      assert FileAt(x, y, d, k);
      assert FileAt(y, z, d, k);
    }
  }

  /** Deleting keys `g` of a map counts `|g|` removals and no additions. */
  lemma GoneRemove<K, V>(m: map<K, V>, g: set<K>)
    requires g <= m.Keys
    ensures Gone(m, m - g) == |g| && Gone(m - g, m) == 0
  {
    assert m.Keys - (m - g).Keys == g;
    assert (m - g).Keys - m.Keys == {};
  }

  /** Adding a new key counts one addition and no removals. */
  lemma GoneAdd<K, V>(m: map<K, V>, k: K, v: V)
    requires k !in m
    ensures Gone(m, m[k := v]) == 0 && Gone(m[k := v], m) == 1
  {
    assert m.Keys - m[k := v].Keys == {};
    assert m[k := v].Keys - m.Keys == {k};
  }

  /** An unchanged map counts nothing. */
  lemma GoneSame<K, V>(m: map<K, V>)
    ensures Gone(m, m) == 0
  {
    assert m.Keys - m.Keys == {};
  }

  /** Saving a new file row for a file that exists is a step at its directory. */
  lemma AddFileStep(fs: FileSystem, x: Store, k: FileKey)
    requires Consistent(x) && k.dir in x.dirs && k !in x.files && fs.Exists(FilePath(x.dirs, k))
    ensures Consistent(Store(x.dirs, x.files[k := FileRow(None, None)], x.nextId))
    ensures Step(fs, x, Store(x.dirs, x.files[k := FileRow(None, None)], x.nextId))
    ensures AtOnly(x, Store(x.dirs, x.files[k := FileRow(None, None)], x.nextId), k.dir)
  {
  }

  /** Saving a new file row counts one indexed file. */
  lemma AddFileCounts(x: Store, k: FileKey)
    requires k !in x.files
    ensures CountsOf(x, Store(x.dirs, x.files[k := FileRow(None, None)], x.nextId)) == Counters(0, 0, 1, 0)
  {
    var y := Store(x.dirs, x.files[k := FileRow(None, None)], x.nextId);
    GoneAdd(x.files, k, FileRow(None, None));
    GoneSame(x.dirs);
    PlusFields(CountsOf(x, y), Counters(0, 0, 1, 0), NoChanges);
  }

  /** Saving a new subdirectory row for a directory that exists is a step at its parent. */
  lemma AddDirStep(fs: FileSystem, x: Store, d: DirId, n: string)
    requires Consistent(x) && d in x.dirs && Child(x.dirs, d, n).None?
    requires fs.Exists(Join(AbsPath(x.dirs, d), n))
    ensures Consistent(Store(x.dirs[x.nextId := DirRow(Some(d), n)], x.files, x.nextId + 1))
    ensures Step(fs, x, Store(x.dirs[x.nextId := DirRow(Some(d), n)], x.files, x.nextId + 1))
    ensures AtOnly(x, Store(x.dirs[x.nextId := DirRow(Some(d), n)], x.files, x.nextId + 1), d)
  {
    var y := x.dirs[x.nextId := DirRow(Some(d), n)];
    AddRowConsistent(x, d, n);
    assert x.nextId !in x.dirs;
    AbsStable(x.dirs, y, d);
  }

  /** Saving a new subdirectory row counts one indexed directory. */
  lemma AddDirCounts(x: Store, d: DirId, n: string)
    requires x.nextId !in x.dirs
    ensures CountsOf(x, Store(x.dirs[x.nextId := DirRow(Some(d), n)], x.files, x.nextId + 1)) == Counters(0, 0, 0, 1)
  {
    var y := Store(x.dirs[x.nextId := DirRow(Some(d), n)], x.files, x.nextId + 1);
    GoneAdd(x.dirs, x.nextId, DirRow(Some(d), n));
    GoneSame(x.files);
    PlusFields(CountsOf(x, y), Counters(0, 0, 0, 1), NoChanges);
  }

  /** One reconciliation of `d`: a step inside its subtree, touching only rows that
      hang directly off `d` unless the walk recurses. */
  ghost predicate Moved(fs: FileSystem, x: Store, y: Store, d: DirId, recursively: bool)
    requires Consistent(x) && Consistent(y)
  {
    match recursively
    case true => Step(fs, x, y) && Within(x, y, d)
    case false => Step(fs, x, y) && Within(x, y, d) && AtOnly(x, y, d)
  }

  /** Two reconciliations in a row make one, and their counters add up. */
  lemma Chain(fs: FileSystem, x: Store, y: Store, z: Store, d: DirId, recursively: bool)
    requires Consistent(x) && Consistent(y) && Consistent(z)
    requires Moved(fs, x, y, d, recursively) && Moved(fs, y, z, d, recursively)
    ensures Moved(fs, x, z, d, recursively)
    ensures CountsOf(x, z) == CountsOf(x, y).Plus(CountsOf(y, z))
  {
    StepTrans(fs, x, y, z);
    WithinTrans(fs, x, y, z, d);
    if !recursively { AtOnlyTrans(fs, x, y, z, d); }
    StepTransCounts(fs, x, y, z);
  }
}
