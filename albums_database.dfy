/**
  The album store: one flat table of `Album` rows behind a session object.
  Listing filters the table by exact artist; adding checks that no row already
  carries the same title (whatever its artist) and only then appends the row.

  The table is held in memory as a sequence in insertion order. The database
  engine, its connection, commit durability and primary-key assignment are
  outside the model.
 */
module AlbumsDatabase {
  import opened Wrappers

  /**
    One row of the `album` table. `title` is the `album` column. `year` keeps
    the text received from the form, as the row object does before it is stored.
    Artist and title are plain strings: rows are only added after validation
    has found both present and non-empty.
   */
  datatype Album = Album(year: Option<string>, artist: string, genre: Option<string>, title: string)

  /** What an insertion attempt did. */
  datatype AddOutcome = Added | Duplicate

  /** The titles of the rows whose artist equals `artist` exactly, in table order. */
  function TitlesBy(rows: seq<Album>, artist: string): seq<string>
    decreases |rows|
  {
    if rows == [] then []
    else
      var last := rows[|rows| - 1];
      TitlesBy(rows[..|rows| - 1], artist) + (if last.artist == artist then [last.title] else [])
  }

  /** The positions of the rows whose artist equals `artist`. */
  function MatchingRows(rows: seq<Album>, artist: string): set<nat> {
    set i: nat | i < |rows| && rows[i].artist == artist
  }

  /** Some row of the table already carries `title`. */
  predicate HasTitle(rows: seq<Album>, title: string) {
    exists i :: 0 <= i < |rows| && rows[i].title == title
  }

  /** No two rows of the table share a title. */
  predicate DistinctTitles(rows: seq<Album>) {
    forall i, j :: 0 <= i < j < |rows| ==> rows[i].title != rows[j].title
  }

  /** The insertion rule as a value: a duplicate title leaves the table as it was. */
  function TryAdd(rows: seq<Album>, album: Album): (AddOutcome, seq<Album>) {
    if HasTitle(rows, album.title) then (Duplicate, rows) else (Added, rows + [album])
  }

  /** Listing after one more row: that row's title is added at the end exactly when its artist matches. */
  lemma TitlesByAppend(rows: seq<Album>, album: Album, artist: string)
    ensures TitlesBy(rows + [album], artist)
         == TitlesBy(rows, artist) + (if album.artist == artist then [album.title] else [])
  {
    assert (rows + [album])[..|rows|] == rows;
  }

  /** A title is listed for `artist` exactly when some row has both that artist and that title. */
  lemma {:induction false} TitlesByMembership(rows: seq<Album>, artist: string, t: string)
    ensures t in TitlesBy(rows, artist)
        <==> exists i :: 0 <= i < |rows| && rows[i].artist == artist && rows[i].title == t
    decreases |rows|
  {
    if rows != [] {
      var init := rows[..|rows| - 1];
      TitlesByMembership(init, artist, t);
      if t in TitlesBy(rows, artist) && t !in TitlesBy(init, artist) {
        assert rows[|rows| - 1].artist == artist && rows[|rows| - 1].title == t;
      }
      if exists i :: 0 <= i < |rows| && rows[i].artist == artist && rows[i].title == t {
        var i :| 0 <= i < |rows| && rows[i].artist == artist && rows[i].title == t;
        if i < |rows| - 1 {
          assert init[i] == rows[i];
        }
      }
    }
  }

  /** The listing has one entry per matching row: its length is the number of such rows. */
  lemma {:induction false} TitlesByCount(rows: seq<Album>, artist: string)
    ensures |TitlesBy(rows, artist)| == |MatchingRows(rows, artist)|
    decreases |rows|
  {
    if rows == [] {
      assert MatchingRows(rows, artist) == {};
    } else {
      var n := |rows| - 1;
      var init := rows[..n];
      TitlesByCount(init, artist);
      var before := MatchingRows(init, artist);
      assert n !in before;
      if rows[n].artist == artist {
        assert MatchingRows(rows, artist) == before + {n};
      } else {
        assert MatchingRows(rows, artist) == before;
      }
    }
  }

  /** The listing is empty, not an error, exactly when no row has the artist. */
  lemma TitlesByEmpty(rows: seq<Album>, artist: string)
    ensures TitlesBy(rows, artist) == [] <==> forall i :: 0 <= i < |rows| ==> rows[i].artist != artist
  {
    TitlesByCount(rows, artist);
    if exists i :: 0 <= i < |rows| && rows[i].artist == artist {
      var i :| 0 <= i < |rows| && rows[i].artist == artist;
      assert i in MatchingRows(rows, artist);
    } else {
      assert MatchingRows(rows, artist) == {};
    }
  }

  /** A duplicate leaves the table untouched; a success appends exactly the given row. */
  lemma TryAddEffect(rows: seq<Album>, album: Album)
    ensures TryAdd(rows, album).0 == Duplicate
        <==> exists i :: 0 <= i < |rows| && rows[i].title == album.title
    ensures TryAdd(rows, album).0 == Duplicate ==> TryAdd(rows, album).1 == rows
    ensures TryAdd(rows, album).0 == Added ==>
              |TryAdd(rows, album).1| == |rows| + 1 &&
              TryAdd(rows, album).1[..|rows|] == rows &&
              TryAdd(rows, album).1[|rows|] == album
  {
  }

  /** Distinct titles stay distinct across an insertion attempt, whatever its outcome. */
  lemma TryAddKeepsTitlesDistinct(rows: seq<Album>, album: Album)
    requires DistinctTitles(rows)
    ensures DistinctTitles(TryAdd(rows, album).1)
  {
    if !HasTitle(rows, album.title) {
      var after := rows + [album];
      forall i, j | 0 <= i < j < |after| ensures after[i].title != after[j].title {
        if j == |rows| {
          assert after[i] == rows[i];
        }
      }
    }
  }

  /** After a successful insertion the new title is listed under its artist, and inserting it again is a duplicate. */
  lemma TryAddThenListed(rows: seq<Album>, album: Album)
    requires TryAdd(rows, album).0 == Added
    ensures album.title in TitlesBy(TryAdd(rows, album).1, album.artist)
    ensures TryAdd(TryAdd(rows, album).1, album).0 == Duplicate
  {
    var after := rows + [album];
    TitlesByAppend(rows, album, album.artist);
    assert after[|rows|].title == album.title;
  }

  /**
    A session over the album table. `rows` is the table's content; the source's
    session object issues the queries that this class evaluates on the sequence.
   */
  class Session {
    var rows: seq<Album>

    /** Opens a session on a table that already holds `initial`. */
    constructor (initial: seq<Album>)
      ensures rows == initial
    {
      rows := initial;
    }

    /** The titles of the given artist's albums; empty when there are none. */
    method GetArtistAlbums(artist: string) returns (titles: seq<string>)
      ensures titles == TitlesBy(rows, artist)
    {
      titles := [];
      var i := 0;
      while i < |rows|
        invariant 0 <= i <= |rows|
        invariant titles == TitlesBy(rows[..i], artist)
      {
        assert rows[..i + 1][..i] == rows[..i];
        if rows[i].artist == artist {
          titles := titles + [rows[i].title];
        }
        i := i + 1;
      }
      assert rows[..i] == rows;
    }

    /** Whether some row already carries the album's title (the source raises the duplicate error here). */
    method IsAlbumInDb(album: Album) returns (found: bool)
      ensures found <==> exists i :: 0 <= i < |rows| && rows[i].title == album.title
    {
      found := false;
      var i := 0;
      while i < |rows| && !found
        invariant 0 <= i <= |rows|
        invariant found <==> exists k :: 0 <= k < i && rows[k].title == album.title
      {
        found := rows[i].title == album.title;
        i := i + 1;
      }
    }

    /** Checks for a duplicate title first; only when there is none is the row appended. */
    method AddAlbumToDb(album: Album) returns (outcome: AddOutcome)
      modifies this
      ensures (outcome, rows) == TryAdd(old(rows), album)
      ensures outcome == Duplicate ==> rows == old(rows)
      ensures outcome == Added ==> rows == old(rows) + [album]
      ensures DistinctTitles(old(rows)) ==> DistinctTitles(rows)
    {
      var duplicate := IsAlbumInDb(album);
      if duplicate {
        outcome := Duplicate;
      } else {
        rows := rows + [album];
        outcome := Added;
      }
      if DistinctTitles(old(rows)) {
        TryAddKeepsTitlesDistinct(old(rows), album);
      }
    }
  }
}
