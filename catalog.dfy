/** The tag catalogue: `Artist`, `Album`, `Genre` and `MetaData` rows, the
    get-or-create lookups that deduplicate them, and the extraction of one
    `MetaData` row from a file's tag record. */
module Catalog {
  import opened Wrappers
  import opened Paths
  import Tree

  type ArtistId = nat
  type AlbumId = nat
  type GenreId = nat
  type MetaId = Tree.MetaId

  /** An `Artist` row: its name as first seen and the normal form it is looked up by. */
  datatype ArtistRow = ArtistRow(name: string, normName: string)

  /** An `Album` row: its name and, optionally, its album artist. */
  datatype AlbumRow = AlbumRow(name: string, albumartist: Option<ArtistId>)

  /** A `MetaData` row. The duration is an opaque number copied from the tag. */
  datatype MetaRow = MetaRow(
    track: Option<int>, trackTotal: Option<int>, title: Option<string>,
    artist: Option<ArtistId>, album: Option<AlbumId>, year: Option<int>,
    genre: Option<GenreId>, duration: Option<int>)

  /** What `TinyTag.get` reads. Text fields the code only tests for truth are ""
      when the tag lacks them; `title` and `duration` are stored as they come. */
  datatype Tag = Tag(
    track: string, trackTotal: string, title: Option<string>,
    artist: string, albumartist: string, album: string,
    year: string, genre: string, duration: Option<int>)

  /** What `TinyTag.get(path)` does: raise `TinyTagException` (an unparsable
      file), raise another error (an `OSError` when the file cannot be opened), or
      return the tag. */
  datatype TagRead = TagInvalid | Unreadable | Read(tag: Tag)

  /** The exceptions that escape the catalog: `get_or_create` raises when more than
      one row matches its lookup, and the tag reader's errors other than
      `TinyTagException` pass through `create_from_path` unhandled. */
  datatype CatalogError = MultipleObjectsReturned | ReadError

  /** The four tables and the next free id of each. */
  datatype Tables = Tables(
    artists: map<ArtistId, ArtistRow>, albums: map<AlbumId, AlbumRow>,
    genres: map<GenreId, string>, metas: map<MetaId, MetaRow>,
    nextArtist: nat, nextAlbum: nat, nextGenre: nat, nextMeta: nat)

  /** An outcome and the tables after it. */
  datatype Outcome<T> = Outcome(result: Result<T, CatalogError>, tables: Tables)

  /** No row has an id that is still to be handed out. */
  predicate Fresh(t: Tables)
  {
    && (forall id :: id in t.artists ==> id < t.nextArtist)
    && (forall id :: id in t.albums ==> id < t.nextAlbum)
    && (forall id :: id in t.genres ==> id < t.nextGenre)
    && (forall id :: id in t.metas ==> id < t.nextMeta)
  }

  /** `u` keeps every row of `t` as it was. */
  predicate Grows(t: Tables, u: Tables)
  {
    && (forall id :: id in t.artists ==> id in u.artists && u.artists[id] == t.artists[id])
    && (forall id :: id in t.albums ==> id in u.albums && u.albums[id] == t.albums[id])
    && (forall id :: id in t.genres ==> id in u.genres && u.genres[id] == t.genres[id])
    && (forall id :: id in t.metas ==> id in u.metas && u.metas[id] == t.metas[id])
  }

  /** Growing twice is growing once, and no `MetaData` id is lost. */
  lemma GrowsTrans(t: Tables, u: Tables, v: Tables)
    requires Grows(t, u) && Grows(u, v)
    ensures Grows(t, v) && t.metas.Keys <= u.metas.Keys <= v.metas.Keys
  {
  }

  /** The one element of a singleton set. */
  function Only(s: set<nat>): (x: nat)
    requires |s| == 1
    ensures s == {x}
  {
    assert forall a, b :: a in s && b in s ==> a == b by {
      forall a, b | a in s && b in s ensures a == b {
        assert |s - {a}| == 0;
        assert b in s - {a} || b == a;
      }
    }
    var x :| x in s;
    assert s == {x} by {
      assert |s - {x}| == 0;
    }
    x
  }

  /** A name `Artist.get_for_name` looks up: non-empty, with a non-empty normal form. */
  predicate NamesArtist(normalize: string -> string, name: string)
  {
    name != "" && normalize(name) != ""
  }

  /** The artist rows whose normal form is `key`. */
  function ArtistsNamed(artists: map<ArtistId, ArtistRow>, key: string): set<ArtistId>
  {
    set id | id in artists && artists[id].normName == key
  }

  /** The album rows with exactly this name and album artist. */
  function AlbumsNamed(albums: map<AlbumId, AlbumRow>, name: string, albumartist: Option<ArtistId>): set<AlbumId>
  {
    set id | id in albums && albums[id] == AlbumRow(name, albumartist)
  }

  /** The genre rows with this name. */
  function GenresNamed(genres: map<GenreId, string>, name: string): set<GenreId>
  {
    set id | id in genres && genres[id] == name
  }

  /** `Artist.get_for_name`: nothing for an empty name or an empty normal form;
      otherwise the one row with that normal form, or a new row that `save`
      gives the normal form of its name. */
  function GetArtist(t: Tables, normalize: string -> string, name: string): (r: Outcome<Option<ArtistId>>)
    requires Fresh(t)
    ensures Fresh(r.tables) && Grows(t, r.tables)
    ensures r.tables.albums == t.albums && r.tables.genres == t.genres && r.tables.metas == t.metas
    ensures r.tables.nextAlbum == t.nextAlbum && r.tables.nextGenre == t.nextGenre && r.tables.nextMeta == t.nextMeta
    ensures !NamesArtist(normalize, name) ==> r == Outcome(Ok(None), t)
    ensures NamesArtist(normalize, name) && r.result.Ok? ==> r.result.value.Some?
    ensures r.result.Err? <==> NamesArtist(normalize, name) && |ArtistsNamed(t.artists, normalize(name))| > 1
    ensures r.result.Ok? && r.result.value.Some? ==>
      && ArtistsNamed(r.tables.artists, normalize(name)) == {r.result.value.value}
      && r.tables.artists[r.result.value.value].normName == normalize(name)
    ensures r.tables != t <==> NamesArtist(normalize, name) && ArtistsNamed(t.artists, normalize(name)) == {}
    ensures r.tables != t ==> r.tables.artists == t.artists[t.nextArtist := ArtistRow(name, normalize(name))]
  {
    if !NamesArtist(normalize, name) then Outcome(Ok(None), t)
    else
      var key := normalize(name);
      var found := ArtistsNamed(t.artists, key);
      if found == {} then
        var id := t.nextArtist;
        var u := t.(artists := t.artists[id := ArtistRow(name, normalize(name))], nextArtist := id + 1);
        assert id !in t.artists;
        assert ArtistsNamed(u.artists, key) == {id} by {
          assert forall x :: x in u.artists && x != id ==> x in t.artists;
        }
        Outcome(Ok(Some(id)), u)
      else if |found| == 1 then Outcome(Ok(Some(Only(found))), t)
      else Outcome(Err(MultipleObjectsReturned), t)
  }

  /** `Album.get_for_name`: the one row with exactly this name and album artist,
      or a new one. */
  function GetAlbum(t: Tables, name: string, albumartist: Option<ArtistId>): (r: Outcome<AlbumId>)
    requires Fresh(t)
    ensures Fresh(r.tables) && Grows(t, r.tables)
    ensures r.tables.artists == t.artists && r.tables.genres == t.genres && r.tables.metas == t.metas
    ensures r.tables.nextArtist == t.nextArtist && r.tables.nextGenre == t.nextGenre && r.tables.nextMeta == t.nextMeta
    ensures r.result.Err? <==> |AlbumsNamed(t.albums, name, albumartist)| > 1
    ensures r.result.Ok? ==>
      && AlbumsNamed(r.tables.albums, name, albumartist) == {r.result.value}
      && r.tables.albums[r.result.value] == AlbumRow(name, albumartist)
    ensures r.tables != t <==> AlbumsNamed(t.albums, name, albumartist) == {}
    ensures r.tables != t ==> r.tables.albums == t.albums[t.nextAlbum := AlbumRow(name, albumartist)]
  {
    var found := AlbumsNamed(t.albums, name, albumartist);
    if found == {} then
      var id := t.nextAlbum;
      var u := t.(albums := t.albums[id := AlbumRow(name, albumartist)], nextAlbum := id + 1);
      assert id !in t.albums;
      assert AlbumsNamed(u.albums, name, albumartist) == {id} by {
        assert forall x :: x in u.albums && x != id ==> x in t.albums;
      }
      Outcome(Ok(id), u)
    else if |found| == 1 then Outcome(Ok(Only(found)), t)
    else Outcome(Err(MultipleObjectsReturned), t)
  }

  /** `Genre.get_for_name`: looks up the normal form of `genre`; a new row goes
      through `Genre.save`, which normalises the stored name once more. */
  function GetGenre(t: Tables, normalize: string -> string, genre: string): (r: Outcome<GenreId>)
    requires Fresh(t)
    ensures Fresh(r.tables) && Grows(t, r.tables)
    ensures r.tables.artists == t.artists && r.tables.albums == t.albums && r.tables.metas == t.metas
    ensures r.tables.nextArtist == t.nextArtist && r.tables.nextAlbum == t.nextAlbum && r.tables.nextMeta == t.nextMeta
    ensures r.result.Err? <==> |GenresNamed(t.genres, normalize(genre))| > 1
    ensures r.tables != t <==> GenresNamed(t.genres, normalize(genre)) == {}
    ensures r.tables != t ==> r.tables.genres == t.genres[t.nextGenre := normalize(normalize(genre))]
    ensures r.tables != t ==> r.result == Ok(t.nextGenre)
    ensures r.tables == t && r.result.Ok? ==> GenresNamed(t.genres, normalize(genre)) == {r.result.value}
    ensures r.result.Ok? ==> r.result.value in r.tables.genres
  {
    var key := normalize(genre);
    var found := GenresNamed(t.genres, key);
    if found == {} then
      var id := t.nextGenre;
      assert id !in t.genres;
      Outcome(Ok(id), t.(genres := t.genres[id := normalize(key)], nextGenre := id + 1))
    else if |found| == 1 then Outcome(Ok(Only(found)), t)
    else Outcome(Err(MultipleObjectsReturned), t)
  }

  /** A repeated `Artist.get_for_name` returns the same row and inserts nothing. */
  lemma ArtistRepeat(t: Tables, normalize: string -> string, name: string)
    requires Fresh(t)
    ensures var r := GetArtist(t, normalize, name);
      r.result.Ok? ==> GetArtist(r.tables, normalize, name) == r
  {
    var r := GetArtist(t, normalize, name);
    if r.result.Ok? && r.result.value.Some? {
      var u := r.tables;
      var id := r.result.value.value;
      assert ArtistsNamed(u.artists, normalize(name)) == {id};
      assert Only({id}) == id;
    }
  }

  /** A repeated `Album.get_for_name` returns the same row and inserts nothing. */
  lemma AlbumRepeat(t: Tables, name: string, albumartist: Option<ArtistId>)
    requires Fresh(t)
    ensures var r := GetAlbum(t, name, albumartist);
      r.result.Ok? ==> GetAlbum(r.tables, name, albumartist) == r
  {
    var r := GetAlbum(t, name, albumartist);
    if r.result.Ok? {
      assert AlbumsNamed(r.tables.albums, name, albumartist) == {r.result.value};
      assert Only({r.result.value}) == r.result.value;
    }
  }

  /** A repeated `Genre.get_for_name` returns the same row and inserts nothing
      exactly when the first call found a row or `normalize` leaves the normal
      form of `genre` unchanged; otherwise the stored name differs from the
      lookup key and the second call inserts another row. */
  lemma GenreRepeat(t: Tables, normalize: string -> string, genre: string)
    requires Fresh(t)
    ensures var r := GetGenre(t, normalize, genre);
      r.result.Ok? ==>
        (GetGenre(r.tables, normalize, genre) == r <==>
         r.tables == t || normalize(normalize(genre)) == normalize(genre))
  {
    var r := GetGenre(t, normalize, genre);
    var key := normalize(genre);
    if r.result.Ok? {
      var id := r.result.value;
      if r.tables == t {
        assert Only({id}) == id;
      } else {
        var u := r.tables;
        assert id == t.nextGenre && id !in t.genres;
        assert forall x :: x in u.genres && x != id ==> x in t.genres;
        if normalize(key) == key {
          assert GenresNamed(u.genres, key) == {id};
          assert Only({id}) == id;
        } else {
          assert GenresNamed(u.genres, key) == {};
          assert GetGenre(u, normalize, genre).result == Ok(u.nextGenre);
        }
      }
    }
  }

  /** `int(s) if s else None`, with `int` supplied by the caller. */
  function IntField(s: string, parseInt: string -> int): (r: Option<int>)
    ensures r.None? <==> s == ""
    ensures r.Some? ==> r.value == parseInt(s)
  {
    if s != "" then Some(parseInt(s)) else None
  }

  /** `Album.get_for_name(tag.album, albumartist or artist) if tag.album else None` */
  function GetTagAlbum(t: Tables, tag: Tag, artist: Option<ArtistId>, albumartist: Option<ArtistId>): (r: Outcome<Option<AlbumId>>)
    requires Fresh(t)
    ensures Fresh(r.tables) && Grows(t, r.tables)
    ensures r.tables.artists == t.artists && r.tables.genres == t.genres && r.tables.metas == t.metas
    ensures r.tables.nextMeta == t.nextMeta
    ensures tag.album == "" ==> r == Outcome(Ok(None), t)
    ensures r.result.Ok? ==> (r.result.value.None? <==> tag.album == "")
    ensures r.result.Ok? && r.result.value.Some? ==>
      r.result.value.value in r.tables.albums &&
      r.tables.albums[r.result.value.value] == AlbumRow(tag.album, if albumartist.Some? then albumartist else artist)
  {
    if tag.album == "" then Outcome(Ok(None), t)
    else
      var a := GetAlbum(t, tag.album, if albumartist.Some? then albumartist else artist);
      match a.result
      case Ok(id) => Outcome(Ok(Some(id)), a.tables)
      case Err(e) => Outcome(Err(e), a.tables)
  }

  /** `Genre.get_for_name(tag.genre) if tag.genre else None` */
  function GetTagGenre(t: Tables, normalize: string -> string, tag: Tag): (r: Outcome<Option<GenreId>>)
    requires Fresh(t)
    ensures Fresh(r.tables) && Grows(t, r.tables)
    ensures r.tables.artists == t.artists && r.tables.albums == t.albums && r.tables.metas == t.metas
    ensures r.tables.nextMeta == t.nextMeta
    ensures tag.genre == "" ==> r == Outcome(Ok(None), t)
    ensures r.result.Ok? ==> (r.result.value.None? <==> tag.genre == "")
    ensures r.result.Ok? && r.result.value.Some? ==>
      r.result.value.value in r.tables.genres &&
      r.tables.genres[r.result.value.value] in {normalize(tag.genre), normalize(normalize(tag.genre))}
  {
    if tag.genre == "" then Outcome(Ok(None), t)
    else
      var g := GetGenre(t, normalize, tag.genre);
      match g.result
      case Ok(id) =>
        assert g.tables == t ==> id in GenresNamed(t.genres, normalize(tag.genre));
        Outcome(Ok(Some(id)), g.tables)
      case Err(e) => Outcome(Err(e), g.tables)
  }

  /** `MetaData.create_from_path` on what the tag reader did: nothing for
      `TinyTagException`, the reader's error for any other exception; otherwise the artist, the album artist, the album and the genre
      are looked up in that order, stopping at the first lookup that raises, and
      a new row holds what was found. */
  function CreateFromTag(t: Tables, normalize: string -> string, parseInt: string -> int, tag: TagRead): (r: Outcome<Option<MetaId>>)
    requires Fresh(t)
    ensures Fresh(r.tables) && Grows(t, r.tables)
    ensures tag.TagInvalid? ==> r == Outcome(Ok(None), t)
    ensures tag.Unreadable? ==> r == Outcome(Err(ReadError), t)
    ensures r.result.Ok? ==> (r.result.value.Some? <==> tag.Read?)
    ensures r.result.Ok? && r.result.value.Some? ==>
              r.result.value.value in r.tables.metas && r.result.value.value !in t.metas
    ensures r.result.Err? ==> r.tables.metas == t.metas
  {
    if tag.TagInvalid? then Outcome(Ok(None), t)
    else if tag.Unreadable? then Outcome(Err(ReadError), t)
    else
      var tg := tag.tag;
      var a := GetArtist(t, normalize, tg.artist);
      if a.result.Err? then Outcome(Err(a.result.error), a.tables)
      else
        var aa := GetArtist(a.tables, normalize, tg.albumartist);
        if aa.result.Err? then Outcome(Err(aa.result.error), aa.tables)
        else AfterArtists(aa.tables, normalize, parseInt, tg, a.result.value, aa.result.value)
  }

  /** The rest of `create_from_path` once both artists are known: the album, the
      genre, then the new row. */
  function AfterArtists(t: Tables, normalize: string -> string, parseInt: string -> int, tg: Tag,
                        artist: Option<ArtistId>, albumartist: Option<ArtistId>): (r: Outcome<Option<MetaId>>)
    requires Fresh(t)
    ensures Fresh(r.tables) && Grows(t, r.tables) && r.tables.artists == t.artists
    ensures r.result.Ok? ==> r.result.value.Some?
    ensures r.result.Ok? ==> r.result.value.value in r.tables.metas && r.result.value.value !in t.metas
    ensures r.result.Err? ==> r.tables.metas == t.metas
  {
    var al := GetTagAlbum(t, tg, artist, albumartist);
    if al.result.Err? then Outcome(Err(al.result.error), al.tables)
    else
      var ge := GetTagGenre(al.tables, normalize, tg);
      if ge.result.Err? then Outcome(Err(ge.result.error), ge.tables)
      else
        AddMeta(ge.tables, MetaRow(
          IntField(tg.track, parseInt), IntField(tg.trackTotal, parseInt), tg.title,
          artist, al.result.value, IntField(tg.year, parseInt),
          ge.result.value, tg.duration))
  }

  /** `MetaData.objects.create`: the row under the next free id. */
  function AddMeta(t: Tables, row: MetaRow): (r: Outcome<Option<MetaId>>)
    requires Fresh(t)
    ensures Fresh(r.tables) && Grows(t, r.tables)
    ensures r.result.Ok? && r.result.value.Some?
    ensures var id := r.result.value.value; id !in t.metas && r.tables.metas == t.metas[id := row]
    ensures r.tables.(metas := t.metas, nextMeta := t.nextMeta) == t
  {
    var id := t.nextMeta;
    assert id !in t.metas;
    Outcome(Ok(Some(id)), t.(metas := t.metas[id := row], nextMeta := id + 1))
  }

  /** The row made once both artists are known. */
  lemma AfterArtistsRow(t: Tables, normalize: string -> string, parseInt: string -> int, tg: Tag,
                        artist: Option<ArtistId>, albumartist: Option<ArtistId>)
    requires Fresh(t)
    ensures var r := AfterArtists(t, normalize, parseInt, tg, artist, albumartist);
      r.result.Ok? ==>
        var u := r.tables;
        var id := r.result.value.value;
        && id in u.metas && id !in t.metas
        && var m := u.metas[id];
        && m == MetaRow(m.track, m.trackTotal, tg.title, artist, m.album, m.year, m.genre, tg.duration)
        && m.track == IntField(tg.track, parseInt)
        && m.trackTotal == IntField(tg.trackTotal, parseInt)
        && m.year == IntField(tg.year, parseInt)
        && (m.album.None? <==> tg.album == "")
        && (m.album.Some? ==>
              m.album.value in u.albums &&
              u.albums[m.album.value] == AlbumRow(tg.album, if albumartist.Some? then albumartist else artist))
        && (m.genre.None? <==> tg.genre == "")
        && (m.genre.Some? ==>
              m.genre.value in u.genres &&
              u.genres[m.genre.value] in {normalize(tg.genre), normalize(normalize(tg.genre))})
  {
    var al := GetTagAlbum(t, tg, artist, albumartist);
    if al.result.Ok? {
      var ge := GetTagGenre(al.tables, normalize, tg);
      if ge.result.Ok? {
        var row := MetaRow(IntField(tg.track, parseInt), IntField(tg.trackTotal, parseInt), tg.title,
                           artist, al.result.value, IntField(tg.year, parseInt), ge.result.value, tg.duration);
        assert AfterArtists(t, normalize, parseInt, tg, artist, albumartist) == AddMeta(ge.tables, row);
        if al.result.value.Some? {
          assert al.result.value.value in ge.tables.albums;
        }
      }
    }
  }

  /** The row `create_from_path` makes carries the tag's fields: numbers parsed
      when present, the title and duration as read, the artist found by the
      artist name, the album (when named) found by name and by the album artist
      or else the artist, and the genre (when named) found by its normal form. */
  lemma CreatedRow(t: Tables, normalize: string -> string, parseInt: string -> int, tag: Tag)
    requires Fresh(t)
    ensures var r := CreateFromTag(t, normalize, parseInt, Read(tag));
      r.result.Ok? ==>
        var u := r.tables;
        var id := r.result.value.value;
        && id in u.metas && id !in t.metas
        && var m := u.metas[id];
        && m.track == IntField(tag.track, parseInt)
        && m.trackTotal == IntField(tag.trackTotal, parseInt)
        && m.year == IntField(tag.year, parseInt)
        && m.title == tag.title && m.duration == tag.duration
        && (m.artist.None? <==> !NamesArtist(normalize, tag.artist))
        && (m.artist.Some? ==> m.artist.value in u.artists && u.artists[m.artist.value].normName == normalize(tag.artist))
        && (m.album.None? <==> tag.album == "")
        && (m.album.Some? ==>
              && m.album.value in u.albums
              && u.albums[m.album.value].name == tag.album
              && var aa := u.albums[m.album.value].albumartist;
              && (NamesArtist(normalize, tag.albumartist) ==>
                    aa.Some? && aa.value in u.artists && u.artists[aa.value].normName == normalize(tag.albumartist))
              && (!NamesArtist(normalize, tag.albumartist) ==> aa == m.artist))
        && (m.genre.None? <==> tag.genre == "")
        && (m.genre.Some? ==>
              m.genre.value in u.genres &&
              u.genres[m.genre.value] in {normalize(tag.genre), normalize(normalize(tag.genre))})
  {
    var a := GetArtist(t, normalize, tag.artist);
    if a.result.Ok? {
      var aa := GetArtist(a.tables, normalize, tag.albumartist);
      if aa.result.Ok? {
        AfterArtistsRow(aa.tables, normalize, parseInt, tag, a.result.value, aa.result.value);
        assert CreateFromTag(t, normalize, parseInt, Read(tag))
            == AfterArtists(aa.tables, normalize, parseInt, tag, a.result.value, aa.result.value);
        if a.result.value.Some? {
          assert a.result.value.value in aa.tables.artists;
        }
      }
    }
  }

  /** The catalogue tables, updated in place by the get-or-create lookups and
      by metadata extraction. */
  class Catalog {
    /** `normalize_name`, whose definition is not part of this model. */
    const normalize: string -> string
    var artists: map<ArtistId, ArtistRow>
    var albums: map<AlbumId, AlbumRow>
    var genres: map<GenreId, string>
    var metas: map<MetaId, MetaRow>
    var nextArtist: nat
    var nextAlbum: nat
    var nextGenre: nat
    var nextMeta: nat

    function Snap(): Tables
      reads this
    {
      Tables(artists, albums, genres, metas, nextArtist, nextAlbum, nextGenre, nextMeta)
    }

    ghost predicate Valid()
      reads this
    {
      Fresh(Snap())
    }

    /** Empty tables. */
    constructor (normalize: string -> string)
      ensures Valid() && this.normalize == normalize
      ensures Snap() == Tables(map[], map[], map[], map[], 0, 0, 0, 0)
    {
      this.normalize := normalize;
      artists, albums, genres, metas := map[], map[], map[], map[];
      nextArtist, nextAlbum, nextGenre, nextMeta := 0, 0, 0, 0;
    }

    /** `Artist.save()`: inserts a new row (no id given) or writes the row with the
        given id; either way the stored normal form is recomputed from the name. */
    method SaveArtist(pk: Option<ArtistId>, name: string) returns (id: ArtistId)
      requires Valid()
      modifies this`artists, this`nextArtist
      ensures Valid()
      ensures pk.Some? ==> id == pk.value
      ensures pk.None? ==> id == old(nextArtist) && id !in old(artists)
      ensures artists == old(artists)[id := ArtistRow(name, normalize(name))]
      ensures nextArtist == if id < old(nextArtist) then old(nextArtist) else id + 1
      ensures id in artists && artists[id].normName == normalize(name)
    {
      id := if pk.Some? then pk.value else nextArtist;
      artists := artists[id := ArtistRow(name, normalize(name))];
      if id >= nextArtist {
        nextArtist := id + 1;
      }
    }

    /** `Genre.save()`: as `Artist.save`, storing the normal form of the name. */
    method SaveGenre(pk: Option<GenreId>, name: string) returns (id: GenreId)
      requires Valid()
      modifies this`genres, this`nextGenre
      ensures Valid()
      ensures pk.Some? ==> id == pk.value
      ensures pk.None? ==> id == old(nextGenre) && id !in old(genres)
      ensures genres == old(genres)[id := normalize(name)]
      ensures nextGenre == if id < old(nextGenre) then old(nextGenre) else id + 1
    {
      id := if pk.Some? then pk.value else nextGenre;
      genres := genres[id := normalize(name)];
      if id >= nextGenre {
        nextGenre := id + 1;
      }
    }

    /** `Artist.get_for_name` */
    method ArtistForName(name: string) returns (r: Result<Option<ArtistId>, CatalogError>)
      requires Valid()
      modifies this`artists, this`nextArtist
      ensures Valid()
      ensures Outcome(r, Snap()) == GetArtist(old(Snap()), normalize, name)
    {
      if name == "" {
        return Ok(None);
      }
      var key := normalize(name);
      if key == "" {
        return Ok(None);
      }
      var found := set id | id in artists && artists[id].normName == key;
      assert found == ArtistsNamed(artists, key);
      ghost var s0 := Snap();
      if found == {} {
        var id := SaveArtist(None, name);
        assert Snap() == s0.(artists := s0.artists[id := ArtistRow(name, normalize(name))], nextArtist := id + 1);
        r := Ok(Some(id));
      } else if |found| == 1 {
        r := Ok(Some(Only(found)));
        assert Outcome(r, Snap()) == GetArtist(s0, normalize, name);
      } else {
        r := Err(MultipleObjectsReturned);
      }
    }

    /** `Album.get_for_name` */
    method AlbumForName(name: string, albumartist: Option<ArtistId>) returns (r: Result<AlbumId, CatalogError>)
      requires Valid()
      modifies this`albums, this`nextAlbum
      ensures Valid()
      ensures Outcome(r, Snap()) == GetAlbum(old(Snap()), name, albumartist)
    {
      var found := set id | id in albums && albums[id] == AlbumRow(name, albumartist);
      assert found == AlbumsNamed(albums, name, albumartist);
      if found == {} {
        var id := nextAlbum;
        albums := albums[id := AlbumRow(name, albumartist)];
        nextAlbum := id + 1;
        r := Ok(id);
      } else if |found| == 1 {
        r := Ok(Only(found));
      } else {
        r := Err(MultipleObjectsReturned);
      }
    }

    /** `Genre.get_for_name` */
    method GenreForName(genre: string) returns (r: Result<GenreId, CatalogError>)
      requires Valid()
      modifies this`genres, this`nextGenre
      ensures Valid()
      ensures Outcome(r, Snap()) == GetGenre(old(Snap()), normalize, genre)
    {
      var key := normalize(genre);
      var found := set id | id in genres && genres[id] == key;
      assert found == GenresNamed(genres, key);
      ghost var s0 := Snap();
      if found == {} {
        var id := SaveGenre(None, key);
        assert Snap() == s0.(genres := s0.genres[id := normalize(key)], nextGenre := id + 1);
        r := Ok(id);
      } else if |found| == 1 {
        r := Ok(Only(found));
      } else {
        r := Err(MultipleObjectsReturned);
      }
    }

    /** `MetaData.create_from_path`: `readTag` stands for `TinyTag.get` and
        `parseInt` for `int`. */
    method CreateFromPath(path: Path, readTag: Path -> TagRead, parseInt: string -> int)
      returns (r: Result<Option<MetaId>, CatalogError>)
      requires Valid()
      modifies this
      ensures Valid()
      ensures Outcome(r, Snap()) == CreateFromTag(old(Snap()), normalize, parseInt, readTag(path))
    {
      var tag := readTag(path);
      if tag.TagInvalid? {
        return Ok(None);
      }
      if tag.Unreadable? {
        return Err(ReadError);
      }
      var tg := tag.tag;
      var artist := ArtistForName(tg.artist);
      if artist.Err? {
        return Err(artist.error);
      }
      var albumartist := ArtistForName(tg.albumartist);
      if albumartist.Err? {
        return Err(albumartist.error);
      }
      r := FinishMeta(tg, parseInt, artist.value, albumartist.value);
    }

    /** The album, the genre and the new row of `create_from_path`. */
    method FinishMeta(tg: Tag, parseInt: string -> int, artist: Option<ArtistId>, albumartist: Option<ArtistId>)
      returns (r: Result<Option<MetaId>, CatalogError>)
      requires Valid()
      modifies this`albums, this`nextAlbum, this`genres, this`nextGenre, this`metas, this`nextMeta
      ensures Valid()
      ensures Outcome(r, Snap()) == AfterArtists(old(Snap()), normalize, parseInt, tg, artist, albumartist)
    {
      var album := TagAlbum(tg, artist, albumartist);
      if album.Err? {
        return Err(album.error);
      }
      var genre := TagGenre(tg);
      if genre.Err? {
        return Err(genre.error);
      }
      var id := nextMeta;
      metas := metas[id := MetaRow(
        IntField(tg.track, parseInt), IntField(tg.trackTotal, parseInt), tg.title,
        artist, album.value, IntField(tg.year, parseInt), genre.value, tg.duration)];
      nextMeta := id + 1;
      r := Ok(Some(id));
    }

    /** `Album.get_for_name(tag.album, albumartist or artist) if tag.album else None` */
    method TagAlbum(tg: Tag, artist: Option<ArtistId>, albumartist: Option<ArtistId>)
      returns (r: Result<Option<AlbumId>, CatalogError>)
      requires Valid()
      modifies this`albums, this`nextAlbum
      ensures Valid()
      ensures Outcome(r, Snap()) == GetTagAlbum(old(Snap()), tg, artist, albumartist)
    {
      if tg.album == "" {
        return Ok(None);
      }
      var found := AlbumForName(tg.album, if albumartist.Some? then albumartist else artist);
      r := if found.Ok? then Ok(Some(found.value)) else Err(found.error);
    }

    /** `Genre.get_for_name(tag.genre) if tag.genre else None` */
    method TagGenre(tg: Tag) returns (r: Result<Option<GenreId>, CatalogError>)
      requires Valid()
      modifies this`genres, this`nextGenre
      ensures Valid()
      ensures Outcome(r, Snap()) == GetTagGenre(old(Snap()), normalize, tg)
    {
      if tg.genre == "" {
        return Ok(None);
      }
      var found := GenreForName(tg.genre);
      r := if found.Ok? then Ok(Some(found.value)) else Err(found.error);
    }
  }
}
