/** The three views over the library index: album art by fallback, browsing a
    directory, and reindexing one. */
module Views {
  import opened Wrappers
  import opened Paths
  import opened Disk
  import opened Tree
  import opened Steps
  import opened Sync
  import opened Storage

  type Bytes = seq<bv8>

  /** `TinyTag.get(path, image=True).get_image()`: the embedded image (empty when
      there is none), or the exception the tag reader raises. */
  datatype Embedded = TagRaised | Embedded(image: Bytes)

  /** `AlbumArtFetcher.fetchLocal(path)`: `(header, data, resized)`. */
  datatype LocalArt = LocalArt(header: bool, data: Bytes, resized: bool)

  /** `AlbumArtFetcher.fetch(keywords)`: `(header, data)`, or an exception. */
  datatype Fetched = FetchRaised | Fetched(header: bool, data: Bytes)

  /** The foreign calls the album art view makes; `cacheFile` is
      `pathprovider.albumArtFilePath`. */
  datatype Foreign = Foreign(
    embedded: Path -> Embedded,
    cacheFile: Path -> string,
    fetchLocal: Path -> LocalArt,
    fetch: string -> Fetched)

  /** The outside effects of one request, in order. */
  datatype Call =
    | ReadTag(path: Path)
    | CacheProbe(key: string)     // `os.path.exists(file_cache_path)`, then reading it on a hit
    | LocalFetch(path: Path)
    | OnlineFetch(keywords: string)
    | CacheWrite(key: string)

  datatype ArtResponse =
    | Image(data: Bytes)   // `ImageResponse`
    | NotFound             // `NotFound`, raised before anything else is done
    | TagFailure           // the tag reader's exception, which the view does not catch
    | Http404              // `Http404` after every source failed

  /** The response, the cache after the request, and the calls made. */
  datatype Art = Art(response: ArtResponse, cache: map<string, Bytes>, trace: seq<Call>)

  /** No local or online fetch was made. */
  predicate NoFetch(trace: seq<Call>)
  {
    forall i :: 0 <= i < |trace| ==> !trace[i].LocalFetch? && !trace[i].OnlineFetch?
  }

  /** The request ends at the embedded tag: the tag reader raised, or found an image. */
  predicate EndsAtTag(fs: FileSystem, p: Path, x: Foreign)
  {
    fs.IsFile(p) && (x.embedded(p).TagRaised? || |x.embedded(p).image| > 0)
  }

  /** The path the cache and the fetchers are asked about: a regular file is
      replaced by `file_path / '..'`, which keeps the `..` component literally. */
  function Target(fs: FileSystem, p: Path): (q: Path)
    ensures fs.IsFile(p) ==> q == p + [".."]
    ensures !fs.IsFile(p) ==> q == p
  {
    if fs.IsFile(p) then
      assert Parts("..") == [".."] by { EntryParts(".."); }
      Join(p, "..")
    else p
  }

  /** `AlbumArtView.get` from the cache probe on. */
  function FromCache(cache: map<string, Bytes>, q: Path, x: Foreign, fetchEnabled: bool, pre: seq<Call>): (r: Art)
    requires forall i :: 0 <= i < |pre| ==> pre[i].ReadTag?
    ensures var key := x.cacheFile(q);
      && |r.trace| > |pre| && r.trace[..|pre|] == pre && r.trace[|pre|] == CacheProbe(key)
      && (key in cache ==> r == Art(Image(cache[key]), cache, pre + [CacheProbe(key)]))
      && (key !in cache ==> |r.trace| > |pre| + 1 && r.trace[|pre| + 1] == LocalFetch(q))
      && (key !in cache && x.fetchLocal(q).header ==>
            && r.response == Image(x.fetchLocal(q).data)
            && r.cache == (if x.fetchLocal(q).resized then cache[key := x.fetchLocal(q).data] else cache))
      && ((exists i :: 0 <= i < |r.trace| && r.trace[i].OnlineFetch?) <==>
            key !in cache && !x.fetchLocal(q).header && fetchEnabled)
      && (forall i :: 0 <= i < |r.trace| && r.trace[i].OnlineFetch? ==> r.trace[i].keywords == Basename(q))
      && (r.cache != cache ==> r.response.Image? && r.cache == cache[key := r.response.data])
      && (!r.response.Image? ==> r.response == Http404 && r.cache == cache)
  {
    var key := x.cacheFile(q);
    var probed := pre + [CacheProbe(key)];
    if key in cache then Art(Image(cache[key]), cache, probed)
    else
      var local := x.fetchLocal(q);
      var asked := probed + [LocalFetch(q)];
      assert forall i :: 0 <= i < |asked| ==> !asked[i].OnlineFetch?;
      if local.header then
        if local.resized then Art(Image(local.data), cache[key := local.data], asked + [CacheWrite(key)])
        else Art(Image(local.data), cache, asked)
      else if !fetchEnabled then Art(Http404, cache, asked)
      else
        var keywords := Basename(q);
        var online := x.fetch(keywords);
        var fetched := asked + [OnlineFetch(keywords)];
        assert fetched[|asked|].OnlineFetch?;
        var written := fetched + [CacheWrite(key)];
        assert written[|asked|].OnlineFetch?;
        assert forall i :: 0 <= i < |written| && written[i].OnlineFetch? ==> i == |asked|;
        if online.Fetched? && online.header then Art(Image(online.data), cache[key := online.data], written)
        else Art(Http404, cache, fetched)
  }

  /** `AlbumArtView.get(path)` against the cache `cache`: the embedded image of a
      regular file, else the cached image of the target path, else the local
      folder's image (cached when resized), else, when `media.fetch_album_art` is
      set, an online image (always cached), else 404. */
  function AlbumArt(cache: map<string, Bytes>, fs: FileSystem, base: Path, path: string, x: Foreign, fetchEnabled: bool): (r: Art)
    ensures var p := Slash(base, path);
      && (!fs.Exists(p) <==> r.response == NotFound)
      && (!fs.Exists(p) ==> r == Art(NotFound, cache, []))
      && (fs.IsFile(p) && x.embedded(p).TagRaised? ==> r == Art(TagFailure, cache, [ReadTag(p)]))
      && (fs.IsFile(p) && x.embedded(p).Embedded? && |x.embedded(p).image| > 0 ==>
            r == Art(Image(x.embedded(p).image), cache, [ReadTag(p)]))
      && (fs.Exists(p) && !EndsAtTag(fs, p, x) ==>
            CacheProbe(x.cacheFile(Target(fs, p))) in r.trace)
      && (r.response == TagFailure <==> fs.IsFile(p) && x.embedded(p).TagRaised?)
      && (r.cache != cache ==> r.response.Image? && r.cache == cache[x.cacheFile(Target(fs, p)) := r.response.data])
  {
    var p := Slash(base, path);
    if !fs.Exists(p) then Art(NotFound, cache, [])
    else if fs.IsFile(p) && x.embedded(p).TagRaised? then Art(TagFailure, cache, [ReadTag(p)])
    else if fs.IsFile(p) && |x.embedded(p).image| > 0 then Art(Image(x.embedded(p).image), cache, [ReadTag(p)])
    else
      var pre := if fs.IsFile(p) then [ReadTag(p)] else [];
      var r := FromCache(cache, Target(fs, p), x, fetchEnabled, pre);
      assert r.trace[|pre|] == CacheProbe(x.cacheFile(Target(fs, p)));
      r
  }

  /** `base / path` with an absolute request path discards the base directory, so
      the response, the cache and the calls do not depend on it. */
  lemma AbsoluteRequest(cache: map<string, Bytes>, fs: FileSystem, base1: Path, base2: Path, path: string,
                        x: Foreign, fetchEnabled: bool)
    requires Absolute(path)
    ensures AlbumArt(cache, fs, base1, path, x, fetchEnabled) == AlbumArt(cache, fs, base2, path, x, fetchEnabled)
  {
    SlashAbsolute(base1, base2, path);
  }

  /** A cached image of the target path is returned as stored, with neither fetcher
      asked and the cache unchanged. */
  lemma CacheShortCircuit(cache: map<string, Bytes>, fs: FileSystem, base: Path, path: string, x: Foreign, fetchEnabled: bool)
    requires var p := Slash(base, path); fs.Exists(p) && !EndsAtTag(fs, p, x)
    requires x.cacheFile(Target(fs, Slash(base, path))) in cache
    ensures var r := AlbumArt(cache, fs, base, path, x, fetchEnabled);
      && r.response == Image(cache[x.cacheFile(Target(fs, Slash(base, path)))])
      && r.cache == cache
      && NoFetch(r.trace)
  {
    var p := Slash(base, path);
    var pre := if fs.IsFile(p) then [ReadTag(p)] else [];
    var r := FromCache(cache, Target(fs, p), x, fetchEnabled, pre);
    assert r.trace == pre + [CacheProbe(x.cacheFile(Target(fs, p)))];
  }

  /** On a local hit the local image is returned, and the cache gets it exactly
      when the fetcher resized it. */
  lemma LocalHit(cache: map<string, Bytes>, fs: FileSystem, base: Path, path: string, x: Foreign, fetchEnabled: bool)
    requires var p := Slash(base, path); fs.Exists(p) && !EndsAtTag(fs, p, x)
    requires var q := Target(fs, Slash(base, path)); x.cacheFile(q) !in cache && x.fetchLocal(q).header
    ensures var q := Target(fs, Slash(base, path));
      var r := AlbumArt(cache, fs, base, path, x, fetchEnabled);
      && r.response == Image(x.fetchLocal(q).data)
      && (r.cache != cache <==> x.fetchLocal(q).resized)
      && (r.cache != cache ==> r.cache == cache[x.cacheFile(q) := x.fetchLocal(q).data])
  {
    var q := Target(fs, Slash(base, path));
    var key := x.cacheFile(q);
    if x.fetchLocal(q).resized {
      assert key in cache[key := x.fetchLocal(q).data];
    }
  }

  /** The online fetcher is asked only after a local miss and only when fetching is
      enabled, with the basename of the target path as keywords; a successful fetch
      is returned and cached, and every other outcome is 404. */
  lemma OnlineFetchOnly(cache: map<string, Bytes>, fs: FileSystem, base: Path, path: string, x: Foreign, fetchEnabled: bool)
    requires var p := Slash(base, path); fs.Exists(p) && !EndsAtTag(fs, p, x)
    ensures var q := Target(fs, Slash(base, path));
      var key := x.cacheFile(q);
      var r := AlbumArt(cache, fs, base, path, x, fetchEnabled);
      && ((exists i :: 0 <= i < |r.trace| && r.trace[i].OnlineFetch?) <==>
            key !in cache && !x.fetchLocal(q).header && fetchEnabled)
      && (forall i :: 0 <= i < |r.trace| && r.trace[i].OnlineFetch? ==> r.trace[i].keywords == Basename(q))
      && (key !in cache && !x.fetchLocal(q).header && fetchEnabled ==>
            var online := x.fetch(Basename(q));
            if online.Fetched? && online.header then r.response == Image(online.data) && r.cache == cache[key := online.data]
            else r.response == Http404 && r.cache == cache)
      && (key !in cache && !x.fetchLocal(q).header && !fetchEnabled ==> r.response == Http404 && r.cache == cache)
  {
    var p := Slash(base, path);
    var pre := if fs.IsFile(p) then [ReadTag(p)] else [];
    assert AlbumArt(cache, fs, base, path, x, fetchEnabled) == FromCache(cache, Target(fs, p), x, fetchEnabled, pre);
  }

  /** For a regular file without an embedded image, the keywords sent to the online
      fetcher are always "..", never the name of the album folder. */
  lemma RetargetKeywords(cache: map<string, Bytes>, fs: FileSystem, base: Path, path: string, x: Foreign)
    requires var p := Slash(base, path); fs.IsFile(p) && !EndsAtTag(fs, p, x)
    requires var q := Slash(base, path) + [".."]; x.cacheFile(q) !in cache && !x.fetchLocal(q).header
    ensures var r := AlbumArt(cache, fs, base, path, x, true);
      OnlineFetch("..") in r.trace
  {
    var p := Slash(base, path);
    OnlineFetchOnly(cache, fs, base, path, x, true);
    var r := AlbumArt(cache, fs, base, path, x, true);
    var i :| 0 <= i < |r.trace| && r.trace[i].OnlineFetch?;
    assert r.trace[i] == OnlineFetch("..");
  }

  /** Two different files get two different target paths, so every file of an
      album has a cache entry of its own. */
  lemma RetargetPerFile(fs: FileSystem, p1: Path, p2: Path)
    requires fs.IsFile(p1) && fs.IsFile(p2) && p1 != p2
    ensures Target(fs, p1) != Target(fs, p2)
  {
    var q1, q2 := Target(fs, p1), Target(fs, p2);
    assert q1[..|p1|] == p1 && |q1| == |p1| + 1;
    assert q2[..|p2|] == p2 && |q2| == |p2| + 1;
  }

  /** The intended target: the folder holding a regular file. */
  function AlbumFolder(fs: FileSystem, p: Path): (q: Path)
    ensures fs.IsFile(p) && |p| > 0 ==> q + [p[|p| - 1]] == p
    ensures !(fs.IsFile(p) && |p| > 0) ==> q == p
  {
    if fs.IsFile(p) && |p| > 0 then p[..|p| - 1] else p
  }

  /** With the folder as target, the keywords are the folder's own name, and all
      files of one folder share one target and one cache entry. */
  lemma AlbumFolderKeywords(fs: FileSystem, p1: Path, p2: Path)
    requires fs.IsFile(p1) && |p1| >= 2
    ensures Basename(AlbumFolder(fs, p1)) == p1[|p1| - 2]
    ensures fs.IsFile(p2) && |p2| == |p1| && p2[..|p2| - 1] == p1[..|p1| - 1] ==>
              AlbumFolder(fs, p1) == AlbumFolder(fs, p2)
  {
  }

  /** The cache of album art images, by cache file name. */
  class ArtCache {
    var entries: map<string, Bytes>

    constructor ()
      ensures entries == map[]
    {
      entries := map[];
    }
  }

  /** `AlbumArtView.get(path)`, where `base` is the path of the base directory and
      `fetchEnabled` is `config.get('media.fetch_album_art', False)`. */
  method AlbumArtGet(cache: ArtCache, fs: FileSystem, base: Path, path: string, x: Foreign, fetchEnabled: bool)
    returns (response: ArtResponse, trace: seq<Call>)
    modifies cache
    ensures Art(response, cache.entries, trace) == AlbumArt(old(cache.entries), fs, base, path, x, fetchEnabled)
  {
    var p := Slash(base, path);
    if !fs.Exists(p) {
      return NotFound, [];
    }
    trace := [];
    if fs.IsFile(p) {
      trace := [ReadTag(p)];
      var tag := x.embedded(p);
      if tag.TagRaised? {
        return TagFailure, trace;
      }
      if |tag.image| > 0 {
        return Image(tag.image), trace;
      }
      p := Join(p, "..");
    }
    assert p == Target(fs, Slash(base, path));
    var key := x.cacheFile(p);
    trace := trace + [CacheProbe(key)];
    if key in cache.entries {
      return Image(cache.entries[key]), trace;
    }
    var local := x.fetchLocal(p);
    trace := trace + [LocalFetch(p)];
    if local.header {
      if local.resized {
        cache.entries := cache.entries[key := local.data];
        trace := trace + [CacheWrite(key)];
      }
      return Image(local.data), trace;
    }
    if fetchEnabled {
      var keywords := Basename(p);
      var online := x.fetch(keywords);
      trace := trace + [OnlineFetch(keywords)];
      if online.Fetched? && online.header {
        cache.entries := cache.entries[key := online.data];
        trace := trace + [CacheWrite(key)];
        return Image(online.data), trace;
      }
    }
    response := Http404;
  }

  /** What `BrowseView.get` lists: the current directory, its relative path, the
      directories above it along the request path, and its contents. */
  datatype Browse = Browse(current: DirId, currentPath: Path, parents: seq<DirId>, listing: DirListing)

  /** `path.split('/')` for a request path; the empty path resolves to the base
      directory itself. */
  lemma {:induction false} ResolvedPath(dirs: Dirs, base: DirId, path: string, c: seq<DirId>)
    requires Linked(dirs) && base in dirs
    requires path != "" && IsChain(dirs, base, Split(path, '/'), c) && |c| == |Split(path, '/')|
    ensures AbsPath(dirs, c[|c| - 1]) == Join(AbsPath(dirs, base), path)
  {
    var segs := Split(path, '/');
    ChainPath(dirs, base, segs, c, |c| - 1);
    assert segs[..|c|] == segs;
    JoinAllSplit(AbsPath(dirs, base), path);
  }

  /** Joining the empty request path changes nothing. */
  lemma JoinEmpty(p: Path)
    ensures Join(p, "") == p
  {
    assert Split("", '/') == [""];
    assert Clean([""]) == Clean([]);
  }

  /** `BrowseView.get(path)` below the base directory `base`: for an empty path the
      base directory with no parents; otherwise the last directory the split path
      resolves to, with the ones before it as parents. */
  method BrowseGet(lib: Library, fs: FileSystem, base: DirId, path: string)
    returns (r: Result<Browse, IndexError>, ghost walked: seq<DirId>)
    requires lib.Valid() && base in lib.dirs
    modifies lib`dirs, lib`nextId, lib`pathCache
    ensures lib.Valid() && base in lib.dirs && lib.files == old(lib.files)
    ensures path == "" ==> r.Ok? && r.value.current == base && r.value.parents == [] && lib.dirs == old(lib.dirs)
    ensures path != "" ==> Extends(fs, old(lib.dirs), lib.dirs, old(lib.nextId), walked)
    ensures path != "" && r.Ok? ==> walked == r.value.parents + [r.value.current]
    ensures path != "" && r.Ok? ==>
              IsChain(lib.dirs, base, Split(path, '/'), r.value.parents + [r.value.current]) &&
              |r.value.parents| + 1 == |Split(path, '/')|
    ensures r.Ok? ==>
              && r.value.current in lib.dirs
              && AbsPath(lib.dirs, r.value.current) == Join(old(AbsPath(lib.dirs, base)), path)
              && r.value.currentPath == RelPath(lib.dirs, r.value.current)
              && r.value.listing == Listdir(lib.Snap(), r.value.current)
    ensures r.Err? ==> path != "" && r.error.DirectoryMissing? && !fs.Exists(r.error.path)
  {
    var parents: seq<DirId>, current: DirId;
    walked := [];
    if path != "" {
      var segs := Split(path, '/');
      var chain;
      chain, walked := lib.GetSubPathDirectories(fs, base, segs);
      if chain.Err? {
        return Err(chain.error), walked;
      }
      parents, current := chain.value[..|chain.value| - 1], chain.value[|chain.value| - 1];
      assert parents + [current] == chain.value;
      ResolvedPath(lib.dirs, base, path, chain.value);
    } else {
      parents, current := [], base;
      JoinEmpty(AbsPath(lib.dirs, base));
    }
    r := Ok(Browse(current, RelPath(lib.dirs, current), parents, Listdir(lib.Snap(), current)));
  }

  /** `IndexDirectoryView.get(path)`: recursively reindex the base directory for an
      empty path, otherwise only the last directory the split path resolves to.
      Returns the directory reindexed. `mid` is the index once the path is resolved
      and `target` the directory then reindexed, or the base directory when the
      walk fails and nothing is reindexed. */
  method IndexDirectoryGet(lib: Library, fs: FileSystem, base: DirId, path: string)
    returns (r: Result<DirId, IndexError>, ghost mid: Store, ghost chain: seq<DirId>, ghost target: DirId)
    requires lib.Valid() && base in lib.dirs && fs.WellFormed()
    modifies lib`dirs, lib`files, lib`nextId, lib`pathCache
    ensures lib.Valid() && base in lib.dirs
    ensures Consistent(mid) && target in mid.dirs && Moved(fs, mid, lib.Snap(), target, true)
    ensures r.Ok? ==> r.value == target
    ensures path == "" ==> mid == old(lib.Snap()) && target == base
    ensures path != "" ==>
              && Linked(mid.dirs) && mid.files == old(lib.files)
              && Extends(fs, old(lib.dirs), mid.dirs, old(lib.nextId), chain)
              && IsChain(mid.dirs, base, Split(path, '/'), chain)
    ensures path != "" && |chain| < |Split(path, '/')| ==> r.Err? && lib.Snap() == mid && target == base
    ensures path != "" && |chain| == |Split(path, '/')| ==> target == chain[|chain| - 1]
    ensures path != "" && r.Ok? ==>
              && IsChain(mid.dirs, base, Split(path, '/'), chain) && |chain| == |Split(path, '/')|
              && r.value == chain[|chain| - 1]
    ensures path == "" && r.Ok? ==> r.value == base
    ensures r.Ok? ==>
              && r.value in mid.dirs && r.value in lib.dirs
              && AbsPath(lib.dirs, r.value) == Join(old(AbsPath(lib.dirs, base)), path)
              && Consistent(mid) && Moved(fs, mid, lib.Snap(), r.value, true)
              && Synced(fs, lib.supported, lib.Snap(), r.value)
    ensures r.Err? && r.error.DirectoryMissing? && path != "" ==> !fs.Exists(r.error.path)
  {
    var dir := base;
    chain := [];
    if path != "" {
      var segs := Split(path, '/');
      var found;
      found, chain := lib.GetSubPathDirectories(fs, base, segs);
      if found.Err? {
        StepRefl(fs, lib.Snap(), base);
        return Err(found.error), lib.Snap(), chain, base;
      }
      dir := found.value[|found.value| - 1];
      ResolvedPath(lib.dirs, base, path, found.value);
      ChainDesc(lib.dirs, base, segs, chain);
    } else {
      JoinEmpty(AbsPath(lib.dirs, base));
    }
    mid, target := lib.Snap(), dir;
    var done := lib.Reindex(fs, dir, true);
    AncestorKept(fs, mid, lib.Snap(), dir, base);
    if done.Err? {
      return Err(done.error), mid, chain, target;
    }
    r := Ok(dir);
  }
}
