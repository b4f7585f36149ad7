# cherrymusic library index, modelled in Dafny

cherrymusic serves a music collection from one base directory. The server keeps
an index of it in a database:

- `Directory` rows form a tree below the base directory;
- `File` rows hold the indexable audio files;
- `Artist`, `Album`, `Genre` and `MetaData` rows hold what the files' tags say.

This project models that index and the three views built on it:

- **Paths.** `paths.dfy` models pathlib composition. A path is a sequence of
  components. Joining a relative string appends its components except `""` and
  `"."` (`Paths.Join`). pathlib's `/` with a string that starts with `/` discards
  the left-hand path (`Paths.Slash`): the album art view resolves its request
  path with it, so `/etc/x` leaves the base directory.
  `'..'` is kept literally, as pathlib keeps it. `text.dfy` holds lower-casing,
  the suffix test and sorting.
- **The live disk.** `disk.dfy` models it as a snapshot from paths to regular
  files, folders (with the names `iterdir` yields) and special nodes.
- **The directory tree.** `tree.dfy` holds the row tables (`Store`):
  - memoised absolute paths and relative paths;
  - child lookup;
  - the consistency of the `parent`/`path` uniqueness and file links under saving
    and deleting;
  - `File` paths and `indexable`;
  - the chains `get_sub_path_directories` builds;
  - `listdir`.
- **`Directory.reindex`.** `steps.dfy` and `sync.dfy` specify it, and `storage.dfy`
  implements its walk in the `Storage.Library` class. The spec is:
  - what a step may change and how the four counters add up;
  - the stale rows;
  - whether a directory is in step with the disk (`LocalSynced`, `Synced`);
  - the deletions a protected foreign key blocks.
- **The catalog.** `catalog.dfy` holds the catalog tables as a value (`Tables`)
  with the lookups as pure functions, and the `Catalog.Catalog` class whose
  methods are proved to match them:
  - `Artist.get_for_name`, `Album.get_for_name` and `Genre.get_for_name`, each as
    `get_or_create` with its three outcomes;
  - `Artist.save` and `Genre.save`;
  - `MetaData.create_from_path`.
- **Metadata backfill.** `File.update_metadata` and `File.index_unindexed_metadata`
  are methods of `Storage.Library`.
- **The views.** `views.dfy` models `AlbumArtView.get` as a fallback chain over an
  abstract cache map, plus `BrowseView.get` and `IndexDirectoryView.get`.

The foreign functions are parameters, and nothing is assumed about them:

- `normalize_name`;
- the tag reader;
- `int()`;
- `pathprovider.albumArtFilePath`;
- the album art fetchers;
- the clock.

A `PROTECT` foreign key that stops a deletion is the error `Protected`. These
exceptions the source lets escape are each an `Err` of a `Result`:

- `MultipleObjectsReturned`;
- `FileNotFoundError`;
- `NotADirectoryError`;
- the `ValueError` that unpacking an empty element list raises;
- any error of the tag reader other than `TinyTagException` (an `OSError` for a
  file that is gone, say), as `ReadError`;
- the `AttributeError` that `self.file_set` raises in `reindex` (see
  "## Findings"): it is modelled by `Storage.Library.ReindexAsWritten`. The other
  reindex members model the intended `self.files`.

The `ValueError` of `int()` is not among them (see "## Left out").

## Model

| member | source | states |
|---|---|---|
| Paths.Split | cherrymusic/api/views.py:224 | `path.split('/')` gives at least one piece, and no piece contains the separator |
| Paths.JoinSplit | cherrymusic/api/views.py:224 | joining the split pieces with `/` gives back the request path |
| Paths.SplitJoin | cherrymusic/api/views.py:224 | splitting pieces that hold no separator, after joining them, gives back the pieces |
| Paths.Clean | cherrymusic/storage/models.py:25 | a composed path never holds an empty or `.` component |
| Paths.CleanAppend | cherrymusic/storage/models.py:25 | dropping empty and `.` components distributes over concatenation |
| Paths.EntryParts | cherrymusic/storage/models.py:88-90 | a directory entry name adds itself as one component, except `.`, which adds nothing |
| Paths.JoinAllSplit | cherrymusic/storage/models.py:34-49 | joining the split pieces one at a time equals joining the whole request path at once |
| Paths.JoinAllClean | cherrymusic/storage/models.py:34-49 | joining separator-free pieces one at a time appends their non-empty, non-`.` pieces |
| Text.Lower | cherrymusic/storage/models.py:227 | ASCII lower-casing keeps the length, maps each letter `A`-`Z` to its lower case and leaves every other character alone |
| Text.LowerIdempotent | cherrymusic/storage/models.py:227 | lower-casing twice is lower-casing once |
| Text.EndsWithAny | cherrymusic/storage/models.py:227 | true exactly when some supported suffix ends the name |
| Text.Sorted | cherrymusic/storage/models.py:53-54 | `order_by`: the names in strictly ascending order, each exactly once, nothing else |
| Text.BelowTotal | cherrymusic/storage/models.py:53-54 | the name order is total on distinct names |
| Text.BelowTransitive | cherrymusic/storage/models.py:53-54 | the name order is transitive |
| Tree.RootOf | cherrymusic/storage/models.py:22 | following parents from any row ends at a row without a parent (the base directory) |
| Tree.AbsIsRootPlusRel | cherrymusic/storage/models.py:20-32 | `absolute_path()` is the base directory's path followed by `relative_path()` |
| Tree.Child | cherrymusic/storage/models.py:38 | `objects.get(parent, path)`: a found row has exactly that parent and segment; none means no row has them |
| Tree.CacheKept | cherrymusic/storage/models.py:20-26 | memoised absolute paths stay right while rows are only deleted or added under fresh ids |
| Tree.AddRowConsistent | cherrymusic/storage/models.py:41-43 | saving a subdirectory row with a new segment under the next id keeps the tables consistent |
| Tree.RemoveRowsConsistent | cherrymusic/storage/models.py:72-74 | deleting directory rows that no row and no file references keeps the tables consistent |
| Tree.FilePathIsRootPlusRel | cherrymusic/storage/models.py:229-233 | a file's absolute path is the base directory's path followed by the file's relative path |
| Tree.IndexableIgnoresCase | cherrymusic/storage/models.py:225-227 | a name and its lower-cased form are equally indexable |
| Tree.ChainDesc | cherrymusic/storage/models.py:34-49 | the last directory a chain reaches from a start row lies below that row |
| Tree.ChainPath | cherrymusic/storage/models.py:34-49 | element `i` of a resolved chain has the start's path extended by the first `i + 1` pieces |
| Tree.ChainCons | cherrymusic/storage/models.py:46-49 | `[dir] + dir.get_sub_path_directories(rest)` is a chain from the start |
| Tree.ExtendsCons | cherrymusic/storage/models.py:36-47 | rows saved along one step and along the rest of the path are all on the chain, fresh and existing on disk |
| Tree.FilesOf | cherrymusic/storage/models.py:53 | exactly the directory's file rows, ordered by file name |
| Tree.SubdirsOf | cherrymusic/storage/models.py:54 | exactly the directory's subdirectory rows, ordered by segment |
| Tree.Listdir | cherrymusic/storage/models.py:51-55 | `listdir()`: both query results, each complete, exact and ordered |
| Steps.Chain | cherrymusic/storage/models.py:95-101 | two reindex steps make one step, and their counters add up |
| Steps.AddFileCounts | cherrymusic/storage/models.py:85-87 | saving a new file row counts one indexed file and nothing else |
| Steps.AddDirCounts | cherrymusic/storage/models.py:91-93 | saving a new directory row counts one indexed directory and nothing else |
| Sync.FreeUnreferenced | cherrymusic/storage/models.py:72-75 | no row and no file references a stale directory that has no dependents |
| Sync.ChildDeeper | cherrymusic/storage/models.py:95-97 | a listed subdirectory is strictly deeper, so the recursion ends |
| Sync.SyncedFrame | cherrymusic/storage/models.py:95-101 | a subtree in step with the disk stays so under any change that leaves its rows alone, so reindexing one subdirectory keeps its synced siblings synced |
| Sync.Pruned | cherrymusic/storage/models.py:65-75 | deleting the stale rows is a reconciliation step counted `(files, directories, 0, 0)`; once all stale subdirectories are gone every own row exists on disk; with nothing stale the index is unchanged |
| Sync.AncestorKept | cherrymusic/storage/models.py:60-109 | a reindex confined to a directory's subtree keeps that directory and every directory above it |
| Sync.SettledIsSynced | cherrymusic/storage/models.py:60-109 | nothing is left to do exactly when the directory, or its whole subtree when recursive, is in step with the disk |
| Storage.Library.AbsolutePath | cherrymusic/storage/models.py:20-26 | returns the row's absolute path, memoises it and keeps every earlier memo |
| Storage.Library.FileAbsolutePath | cherrymusic/storage/models.py:229-230 | returns the file's directory path joined with its file name |
| Storage.Library.DirExists | cherrymusic/storage/models.py:57-58 | true exactly when the row's absolute path exists on disk |
| Storage.Library.FileExists | cherrymusic/storage/models.py:235-236 | true exactly when the file's absolute path exists on disk |
| Storage.FileRowsOf | cherrymusic/storage/models.py:206 | the reverse accessor `files` (from `related_name='files'`) yields exactly the directory's file rows; any other name, `file_set` among them, is an `AttributeError` |
| Storage.FileSetMissing | cherrymusic/storage/models.py:66 | `file_set` does not exist on a directory, whatever the tables hold |
| Storage.Library.ReindexAsWritten | cherrymusic/storage/models.py:60-66 | `reindex` as written: it fails with `AttributeError("file_set")` on every directory, before any row is touched |
| Storage.Library.PruneStaleFiles | cherrymusic/storage/models.py:66-70 | through the `files` accessor: deletes exactly the directory's file rows missing on disk and counts them |
| Storage.Library.ScanFiles | cherrymusic/storage/models.py:66-70 | through the `files` accessor: the loop over the file rows finds exactly the stale ones |
| Storage.Library.PruneStaleDirectories | cherrymusic/storage/models.py:72-75 | deletes exactly the stale subdirectory rows and counts them, or stops with `Protected` at one that still has dependents, having deleted only dependent-free stale rows |
| Storage.Library.ScanChildren | cherrymusic/storage/models.py:72-75 | the loop over the subdirectory rows collects exactly the stale ones, or stops at a stale one that still has dependents, having collected only dependent-free stale rows |
| Storage.Library.GetOrCreateChild | cherrymusic/storage/models.py:91-93 | finds the subdirectory row, or saves one under the next id, and reports `created` exactly when it was missing |
| Storage.Library.IndexFile | cherrymusic/storage/models.py:78-87 | adds an unstamped file row exactly when the name is indexable and not stored yet |
| Storage.Library.GetSubPathDirectories | cherrymusic/storage/models.py:34-49 | resolves one row per piece, saving only rows that exist on disk, or fails with `DirectoryMissing` for a missing one or `Unpack` for no pieces |
| Storage.Library.OpenChild | cherrymusic/storage/models.py:88-93 | for a listed subdirectory: its row exists afterwards, with the counters of any save |
| Storage.Library.Descend | cherrymusic/storage/models.py:95-101 | the recursive call reindexes the child, adding its counters, and changes nothing when the child is already synced |
| Storage.Library.IndexEntry | cherrymusic/storage/models.py:77-103 | one listed entry is reconciled: a file indexed if indexable, a subdirectory saved and descended into, `.` and special nodes skipped |
| Storage.Library.IndexNext | cherrymusic/storage/models.py:77-103 | one loop turn keeps the progress invariant and the counters |
| Storage.Library.IndexEntries | cherrymusic/storage/models.py:77-103 | after the entry loop the directory is locally in step with the disk, or recursively synced |
| Storage.Library.PruneStale | cherrymusic/storage/models.py:65-75 | both prune loops: own rows all exist afterwards, the counters match the deletions, and nothing changes when nothing is stale |
| Storage.Library.Prepare | cherrymusic/storage/models.py:65-77 | pruning and then listing the directory, or the error the listing raises |
| Storage.Library.Listing | cherrymusic/storage/models.py:77 | `iterdir()` of the absolute path succeeds only on a directory, else `DirectoryMissing` or `NotADirectory` |
| Storage.Library.Reindex | cherrymusic/storage/models.py:60-109 | counters equal the rows deleted and added; the result is in step with the disk; a settled directory gives `(0, 0, 0, 0)` and no change; errors are `Protected`, `NotADirectory` or `DirectoryMissing` |
| Catalog.GetArtist | cherrymusic/storage/models.py:125-138 | `None` with no insert for an empty name or normal form; otherwise the one row with that normal form, a new row when there is none, or `MultipleObjectsReturned` when there are several |
| Catalog.ArtistRepeat | cherrymusic/storage/models.py:132-138 | a second lookup of the same name returns the same row and inserts nothing |
| Catalog.Catalog.SaveArtist | cherrymusic/storage/models.py:119-123 | `save()` stores the name with its normal form recomputed |
| Catalog.Catalog.ArtistForName | cherrymusic/storage/models.py:125-138 | the method's result and new tables are those of `GetArtist` |
| Catalog.GetAlbum | cherrymusic/storage/models.py:151-153 | the one row with exactly that name and album artist, a new one when there is none, or `MultipleObjectsReturned` |
| Catalog.AlbumRepeat | cherrymusic/storage/models.py:151-153 | a second lookup of the same pair returns the same row and inserts nothing |
| Catalog.Catalog.AlbumForName | cherrymusic/storage/models.py:151-153 | the method's result and new tables are those of `GetAlbum` |
| Catalog.GetGenre | cherrymusic/storage/models.py:159-165 | looks up the normalised name; a created row gets the next genre id and stores the name normalised once more by `save()` |
| Catalog.GenreRepeat | cherrymusic/storage/models.py:159-165 | a second lookup is a no-op exactly when nothing was created or normalising is stable on that name |
| Catalog.Catalog.SaveGenre | cherrymusic/storage/models.py:159-161 | `save()` stores the normalised name |
| Catalog.Catalog.GenreForName | cherrymusic/storage/models.py:163-165 | the method's result and new tables are those of `GetGenre` |
| Catalog.IntField | cherrymusic/storage/models.py:192-197 | `int(x) if x else None`: `None` exactly for the empty tag value |
| Catalog.GetTagAlbum | cherrymusic/storage/models.py:189 | no album for an empty album tag; otherwise the album of that name under the album artist, or the artist when there is none |
| Catalog.GetTagGenre | cherrymusic/storage/models.py:190 | no genre for an empty genre tag; otherwise a genre row holding the normalised name |
| Catalog.AddMeta | cherrymusic/storage/models.py:191-200 | `objects.create` adds exactly one row under a fresh id and touches no other table |
| Catalog.CreateFromTag | cherrymusic/storage/models.py:181-201 | `TinyTagException` gives `None` and changes nothing; another reader error is `ReadError` and changes nothing; a read tag gives a row under an id new to the table, or an error with no `MetaData` row added; the tables only grow |
| Catalog.CreatedRow | cherrymusic/storage/models.py:181-201 | every field of the created row: optional ints, title, duration, artist, album with album-artist fallback, genre |
| Catalog.Catalog.CreateFromPath | cherrymusic/storage/models.py:181-201 | the method's result and new tables are those of `CreateFromTag` on the tag read from the path |
| Storage.Library.UpdateMetadata | cherrymusic/storage/models.py:211-215 | creates the metadata from the file's absolute path, links it and stamps the file with `now`; a linked row is new to the catalog, which only grows; an error leaves the file rows unchanged |
| Storage.Library.IndexUnindexedMetadata | cherrymusic/storage/models.py:217-220 | only unstamped files change, each stamped with `now` and linked to no row or to a row created by the call; the catalog only grows; on success no file is left unstamped |
| Storage.Library.StampNext | cherrymusic/storage/models.py:219-220 | one loop turn updates one pending file and keeps the backfill, new-link and growth invariants |
| Storage.StampStep | cherrymusic/storage/models.py:219-220 | stamping one pending file with `now` keeps the backfill invariant and takes the file off the pending set |
| Storage.LinksStep | cherrymusic/storage/models.py:212-213 | a file linked to no row or to a row created in this step keeps every changed file linked only to rows new since the start |
| Paths.SlashRelative | cherrymusic/api/views.py:158 | `base / path` with a relative request path stays under the base and adds exactly the path's components |
| Paths.SlashAbsolute | cherrymusic/api/views.py:158 | `base / path` with a request path starting with `/` is that path alone, whatever the base |
| Paths.SlashEscapes | cherrymusic/api/views.py:158 | `music / '/etc/x'` is `/etc/x`, outside the base directory |
| Views.AbsoluteRequest | cherrymusic/api/views.py:156-200 | for an absolute request path the album art response, cache and calls do not depend on the base directory |
| Views.Target | cherrymusic/api/views.py:163-169 | a regular file is replaced by `file_path / '..'`, whose last component is literally `..` |
| Views.FromCache | cherrymusic/api/views.py:171-200 | cache hit, else local image (cached iff resized), else online fetch iff enabled (cached on success), else 404; the local fetch is the call right after the cache probe on a miss |
| Views.AlbumArt | cherrymusic/api/views.py:156-200 | on the file path `base / path` in pathlib's sense (an absolute request path replaces the base): missing path iff `NotFound`, with no call made; tag error and embedded image end at the tag with no cache write; otherwise the cache is probed at the target; the cache only gains the returned image |
| Views.CacheShortCircuit | cherrymusic/api/views.py:172-175 | a cached image is returned as stored, with no fetch and no cache change |
| Views.LocalHit | cherrymusic/api/views.py:179-186 | a local hit returns its data and writes the cache exactly when resized |
| Views.OnlineFetchOnly | cherrymusic/api/views.py:187-200 | the online fetcher is asked iff the cache and the local fetch missed and fetching is enabled, with the target's basename; success is returned and cached, every failure is 404 with no cache change |
| Views.RetargetKeywords | cherrymusic/api/views.py:169-191 | the online keywords for a regular file are `..` |
| Views.RetargetPerFile | cherrymusic/api/views.py:169-172 | two different files get two different cache targets |
| Views.AlbumFolder | cherrymusic/api/views.py:169 | the folder holding a regular file, its name dropped |
| Views.AlbumFolderKeywords | cherrymusic/api/views.py:169-191 | with the folder as target, the keywords are the folder's name, and the files of one folder share one target |
| Views.AlbumArtGet | cherrymusic/api/views.py:156-200 | the view's response, cache and calls are exactly those of `AlbumArt` |
| Views.ResolvedPath | cherrymusic/api/views.py:224-225 | the last directory a split request path resolves to has the base path joined with the request path |
| Views.BrowseGet | cherrymusic/api/views.py:220-239 | an empty path lists the base directory with no parents; otherwise the resolved chain minus its last element as parents, the last element as current, its relative path and its listing; a missing segment gives `DirectoryMissing`; every row saved on the way lies on the walked chain, is fresh and exists on disk, and no earlier row changes |
| Views.IndexDirectoryGet | cherrymusic/api/views.py:206-214 | reindexes (recursively) the base directory for an empty path, else the directory at the tip of the chain the request path resolves to, leaving it synced with the disk; the walk only adds fresh rows on that chain and no file rows; a walk that stops short reindexes nothing and leaves only its saved rows; on every path the reindex stays within the target's subtree (`Moved`) and the base directory survives |

## Left out

- Logging and `print` calls: no effect on the index.
- The database: it is modelled as maps from ids to rows. Query order is not modelled, so the loops visit rows in an arbitrary order.
- Concurrent requests: they are not modelled.
- Transactions: they are not modelled either.
- `MetaData.duration`: it is a float, carried through unchanged as `Option<int>`.
- `int()` of a tag value: it is a total parameter `parseInt`, so its `ValueError` is not modelled.
- `timezone.now()`: it is the parameter `now`. `index_unindexed_metadata` stamps every file with that one value.
- `str()` of a path and the leading `/` of absolute paths: paths are component sequences, so neither is modelled. An absolute path is the sequence of its components from the root. An absolute request path is still told apart (`Paths.Absolute`), and it replaces the base directory in the album art view.
- `'..'`: the disk snapshot does not resolve it. A path ending in `..` exists only if the snapshot says so.
- `Directory.get_basedir()`, called at `views.py:158`, `207` and `221`, is defined nowhere in `cherrymusic/storage/models.py`. The `Directory` class there has no such method, so as written each of the three views would raise `AttributeError` before doing anything. The model takes the base directory as a parameter of the views, which is the evident intent.
- Failures of the cache file write in the album art view: they are not modelled, so every write succeeds.
- The streaming, transcoding, serializer and viewset code is not part of this model.
- Directory rows are assumed unique per `(parent, path)`, and file rows per `(directory, filename)` (`Tree.UniqueNames` and the `FileKey`-keyed file map). The schema declares neither constraint (`models.py:12-14`, `204-206`). Only the indexing code creates these rows, and it runs one request at a time, so it never makes a duplicate: every save follows a lookup that found nothing. A duplicate made another way, such as by two concurrent reindexes, would make `Directory.objects.get` (`models.py:38`), `File.objects.get` (`models.py:84`) and `get_or_create` (`models.py:91`) raise `MultipleObjectsReturned`, and that is not modelled.
- `Artist.save`: no uniqueness constraint is modelled for two artists with one normal form, as none exists in the schema. `get_for_name` can therefore end in `MultipleObjectsReturned`.
- `AlbumArtView.get`: the tag reader's exception is modelled as the response `TagFailure`, because the view does not catch it.
- Storage.Library.PruneStaleDirectories: on `Protected` it states only that the rows deleted before were stale and free of dependents. Which ones were deleted depends on query order.
- Storage.Library.Reindex: an error leaves the changes made before it in place, as the source does. The contract bounds them by the step relation (`Moved`) but does not list them.
- Views.IndexDirectoryGet: it models the intended `files` accessor, so unlike the source it does not fail after the walk has saved its rows (see "## Findings").
- Storage.Library.Reindex: it models the intended `self.files` accessor. As written, `models.py:66` raises `AttributeError` on every directory (see "## Findings" and `Storage.Library.ReindexAsWritten`).
- Storage.Library.ScanFiles: it walks the `files` accessor, not the `file_set` the source names.
- Storage.Library.PruneStaleFiles: likewise through `files`, not `file_set`.
- Storage.Library.PruneStale: likewise through `files`, not `file_set`.
- Storage.Library.Prepare: likewise through `files`, not `file_set`.
- Text.Lower: it lower-cases ASCII letters only. Python's `str.lower` follows Unicode, and it can change the length of a string (`'İ'` lower-cases to two code points). Tree.IndexableIgnoresCase inherits this limit.
- Text.Sorted: it orders names by code point. The database's `order_by` follows its collation, which agrees only when that collation is byte-wise or code-point order.
- Catalog.GetGenre: a found row's name is stated to be the looked-up normal form. A created row's name is normalised twice, and nothing is assumed about `normalize_name`.

## Findings

| source | as written | input that shows it | evidently intended | confidence | as-written member | corrected member |
|---|---|---|---|---|---|---|
| cherrymusic/storage/models.py:66 | `for f in self.file_set.all()`, but `File.directory` sets `related_name='files'` (line 206), so `Directory` has no `file_set`: `reindex` raises `AttributeError` on every directory before touching a row, and `IndexDirectoryView.get` fails after the walk has saved its rows | any directory, e.g. the base directory with one file row whose file is gone | iterate `self.files.all()` | not executed | Storage.Library.ReindexAsWritten | Storage.Library.Reindex |
| cherrymusic/api/views.py:169 | `file_path / '..'` keeps `..` as a literal last component, so an audio file without an embedded image is looked up as `<file>/..`. The online keywords become `os.path.basename(...) == '..'`, and each file gets a cache entry of its own | any regular file with no embedded image, when the cache and the local fetch miss and `media.fetch_album_art` is set | look up the folder holding the file: its name as keywords, one cache entry per folder | not executed | Views.RetargetKeywords | Views.AlbumFolderKeywords |
