/**
  The two request handlers of the album service and what they rely on:
  validation of the submitted form, the HTML rendering of an artist's albums,
  and the mapping of every outcome to an HTTP status and message.

  Routing and the HTTP server are outside the model: a handler takes the
  session explicitly and returns a (status, message) pair. A submitted form is a
  record of optional strings, one per form field (`None` when the field is
  missing).
 */
module AlbumsRequests {
  import opened Wrappers
  import opened Decimal
  import opened AlbumsDatabase

  /** The fields of an add-album request, each absent or a string. */
  datatype Form = Form(album: Option<string>, artist: Option<string>, genre: Option<string>, year: Option<string>)

  /** The two ways validation rejects a form. */
  datatype ValidationError = EmptyValue | YearValue

  /**
    An HTTP response: status code and message. For 200 the message is the
    response text; for an error status it is the message of the error.
   */
  datatype Response = Response(status: nat, message: string)

  const EmptyValueMessage := "Album or artist cannot be empty"
  const InvalidYearMessage := "Invalid year value"

  /** Python falsiness of a form field: absent or the empty string. */
  predicate IsBlank(v: Option<string>) {
    v.None? || v.value == ""
  }

  /** An absent year is accepted; a present one must read as an integer of at least 1900. */
  predicate YearAccepted(year: Option<string>) {
    match year
    case None => true
    case Some(text) =>
      match ParseInt(text)
      case None => false
      case Some(n) => n >= 1900
  }

  /** The validation rule: the empty-field check comes first, the year check second. */
  function ValidateValues(form: Form): (r: Option<ValidationError>)
    ensures r == Some(EmptyValue) <==> IsBlank(form.artist) || IsBlank(form.album)
    ensures r == Some(YearValue) ==> form.year.Some?
    ensures r.None? <==>
              form.artist.Some? && form.artist.value != "" &&
              form.album.Some? && form.album.value != "" &&
              (form.year.Some? ==> ParseInt(form.year.value).Some? && ParseInt(form.year.value).value >= 1900)
  {
    if IsBlank(form.artist) || IsBlank(form.album) then Some(EmptyValue)
    else if !YearAccepted(form.year) then Some(YearValue)
    else None
  }

  /** Builds the album row from the form and validates it. */
  function ParseRequestData(form: Form): (r: Result<Album, ValidationError>)
    ensures r.Failure? <==> ValidateValues(form).Some?
    ensures r.Failure? ==> r.error == ValidateValues(form).value
    ensures r.Success? ==>
              r.value.artist != "" && r.value.title != "" &&
              form.artist == Some(r.value.artist) && form.album == Some(r.value.title) &&
              form.genre == r.value.genre && form.year == r.value.year
  {
    match ValidateValues(form)
    case Some(e) => Failure(e)
    case None => Success(Album(form.year, form.artist.value, form.genre, form.album.value))
  }

  /** One list item of the rendered page; the title is inserted without escaping. */
  function Item(title: string): string {
    "<li>" + title + "</li>"
  }

  /** The list items for all titles, joined with nothing in between. */
  function Items(titles: seq<string>): string {
    if titles == [] then "" else Item(titles[0]) + Items(titles[1..])
  }

  /** The HTML fragment listing an artist's albums; artist and titles are inserted without escaping. */
  function RenderAlbumsList(artist: string, titles: seq<string>): string {
    "<strong>" + artist + "</strong> has " + NatToString(|titles|) + " album(s):<br><ul>" + Items(titles) + "</ul>"
  }

  /** `sub` occurs somewhere in `s`. */
  predicate IsInfix(sub: string, s: string)
    decreases |s|
  {
    (|sub| <= |s| && s[..|sub|] == sub) || (|s| > 0 && IsInfix(sub, s[1..]))
  }

  /** The response to a request for an artist's albums, given the table. */
  function FindResponse(rows: seq<Album>, artist: string): Response {
    var titles := TitlesBy(rows, artist);
    if titles == [] then Response(404, "No albums for " + artist)
    else Response(200, RenderAlbumsList(artist, titles))
  }

  function DuplicateMessage(title: string): string {
    "Album '" + title + "' has been already added"
  }

  function AddedMessage(album: Album): string {
    "Album '" + album.title + "' by " + album.artist + " has been successfully added."
  }

  /** The response to an add request and the table afterwards, given the table before. */
  function AddResponse(rows: seq<Album>, form: Form): (Response, seq<Album>) {
    match ParseRequestData(form)
    case Failure(EmptyValue) => (Response(400, EmptyValueMessage), rows)
    case Failure(YearValue) => (Response(400, InvalidYearMessage), rows)
    case Success(album) =>
      var (outcome, after) := TryAdd(rows, album);
      match outcome
      case Duplicate => (Response(409, DuplicateMessage(album.title)), rows)
      case Added => (Response(200, AddedMessage(album)), after)
  }

  /** Lists an artist's albums: 404 when there are none, otherwise the rendered list. */
  method FindAlbums(session: Session, artist: string) returns (resp: Response)
    ensures resp == FindResponse(session.rows, artist)
  {
    var albums := session.GetArtistAlbums(artist);
    if albums == [] {
      resp := Response(404, "No albums for " + artist);
      return;
    }
    var html := RenderAlbumsList(artist, albums);
    resp := Response(200, html);
  }

  /** Validates the form, then tries the insertion; each outcome becomes a status and a message. */
  method AddNewAlbum(session: Session, form: Form) returns (resp: Response)
    modifies session
    ensures (resp, session.rows) == AddResponse(old(session.rows), form)
  {
    var parsed := ParseRequestData(form);
    match parsed
    case Failure(EmptyValue) =>
      resp := Response(400, EmptyValueMessage);
    case Failure(YearValue) =>
      resp := Response(400, InvalidYearMessage);
    case Success(album) =>
      var outcome := session.AddAlbumToDb(album);
      match outcome
      case Duplicate =>
        resp := Response(409, DuplicateMessage(album.title));
      case Added =>
        resp := Response(200, AddedMessage(album));
  }

  // Rendering

  /** Joining the items of two lists is the items of the joined list. */
  lemma {:induction false} ItemsAppend(a: seq<string>, b: seq<string>)
    ensures Items(a + b) == Items(a) + Items(b)
    decreases |a|
  {
    if a == [] {
      assert a + b == b;
    } else {
      assert (a + b)[0] == a[0] && (a + b)[1..] == a[1..] + b;
      ItemsAppend(a[1..], b);
    }
  }

  /** The k-th title has its own item, after the items of the titles before it and before those after it. */
  lemma {:induction false} ItemsAt(titles: seq<string>, k: nat)
    requires k < |titles|
    ensures Items(titles) == Items(titles[..k]) + Item(titles[k]) + Items(titles[k + 1..])
  {
    var rest := [titles[k]] + titles[k + 1..];
    assert titles == titles[..k] + rest;
    ItemsAppend(titles[..k], rest);
    assert rest[0] == titles[k] && rest[1..] == titles[k + 1..];
    assert Items(rest) == Item(titles[k]) + Items(titles[k + 1..]);
  }

  /** Whatever surrounds it, a string occurs in the concatenation. */
  lemma {:induction false} InfixOfConcat(a: string, sub: string, b: string)
    ensures IsInfix(sub, a + sub + b)
    decreases |a|
  {
    if a != [] {
      assert (a + sub + b)[1..] == a[1..] + sub + b;
      InfixOfConcat(a[1..], sub, b);
    } else {
      assert (a + sub + b)[..|sub|] == sub;
    }
  }

  /** The page states the number of titles, in decimal, right after "has ". */
  lemma RenderedCount(artist: string, titles: seq<string>)
    ensures var html := RenderAlbumsList(artist, titles);
            var start := |"<strong>" + artist + "</strong> has "|;
            var digits := NatToString(|titles|);
            var suffix := " album(s):<br><ul>";
            start + |digits| + |suffix| <= |html| &&
            html[start..start + |digits|] == digits &&
            html[start + |digits|..start + |digits| + |suffix|] == suffix &&
            ParseInt(digits) == Some(|titles|)
  {
    ParseIntOfNatToString(|titles|);
  }

  /** The page opens with the artist verbatim and ends with the item list verbatim. */
  lemma RenderedFrame(artist: string, titles: seq<string>)
    ensures var html := RenderAlbumsList(artist, titles);
            var open := "<strong>";
            var close := "</ul>";
            |open| + |artist| <= |html| &&
            html[..|open|] == open && html[|open|..|open| + |artist|] == artist &&
            |Items(titles)| + |close| <= |html| &&
            html[|html| - |Items(titles)| - |close|..] == Items(titles) + close
  {
  }

  /** Every title gets its own `<li>` item in the page. */
  lemma RenderedListsEachTitle(artist: string, titles: seq<string>, k: nat)
    requires k < |titles|
    ensures IsInfix(Item(titles[k]), RenderAlbumsList(artist, titles))
  {
    ItemsAt(titles, k);
    var pre := "<strong>" + artist + "</strong> has " + NatToString(|titles|) + " album(s):<br><ul>"
               + Items(titles[..k]);
    var post := Items(titles[k + 1..]) + "</ul>";
    assert RenderAlbumsList(artist, titles) == pre + Item(titles[k]) + post;
    InfixOfConcat(pre, Item(titles[k]), post);
  }

  // Listing

  /** 404 with "No albums for {artist}" exactly when no row has the artist; otherwise 200. */
  lemma FindNotFound(rows: seq<Album>, artist: string)
    ensures FindResponse(rows, artist).status == 404
        <==> forall i :: 0 <= i < |rows| ==> rows[i].artist != artist
    ensures FindResponse(rows, artist).status == 404 ==>
              FindResponse(rows, artist).message == "No albums for " + artist
    ensures FindResponse(rows, artist).status in {200, 404}
  {
    TitlesByEmpty(rows, artist);
  }

  /** A 200 page renders exactly the artist's titles, and states as count the number of the artist's rows. */
  lemma FindRendersMatchingRows(rows: seq<Album>, artist: string)
    requires FindResponse(rows, artist).status == 200
    ensures FindResponse(rows, artist).message == RenderAlbumsList(artist, TitlesBy(rows, artist))
    ensures |TitlesBy(rows, artist)| == |MatchingRows(rows, artist)| > 0
  {
    TitlesByCount(rows, artist);
  }

  // Adding

  /** An absent or empty artist or title gets 400 "Album or artist cannot be empty", whatever the year, and the table is unchanged. */
  lemma AddRejectsBlank(rows: seq<Album>, form: Form)
    requires IsBlank(form.artist) || IsBlank(form.album)
    ensures AddResponse(rows, form) == (Response(400, EmptyValueMessage), rows)
  {
  }

  /** With artist and title present, a decimal year is rejected with 400 "Invalid year value" exactly when it is below 1900. */
  lemma AddYearThreshold(rows: seq<Album>, form: Form, n: nat)
    requires !IsBlank(form.artist) && !IsBlank(form.album)
    requires form.year == Some(NatToString(n))
    ensures AddResponse(rows, form).0 == Response(400, InvalidYearMessage) <==> n < 1900
    ensures n < 1900 ==> AddResponse(rows, form).1 == rows
    ensures n >= 1900 ==> AddResponse(rows, form).0.status in {200, 409}
  {
    ParseIntOfNatToString(n);
  }

  /** With artist and title present, any year text that reads as an integer (such as "+1950" or "01950") is rejected with 400 "Invalid year value" exactly when its value is below 1900. */
  lemma AddYearByValue(rows: seq<Album>, form: Form, v: int)
    requires !IsBlank(form.artist) && !IsBlank(form.album)
    requires form.year.Some? && ParseInt(form.year.value) == Some(v)
    ensures AddResponse(rows, form).0 == Response(400, InvalidYearMessage) <==> v < 1900
    ensures v < 1900 ==> AddResponse(rows, form).1 == rows
    ensures v >= 1900 ==> AddResponse(rows, form).0.status in {200, 409}
  {
  }

  /** A negative year is rejected with 400, as is a year text that does not read as an integer. */
  lemma AddRejectsBadYear(rows: seq<Album>, form: Form)
    requires !IsBlank(form.artist) && !IsBlank(form.album)
    requires form.year.Some?
    requires ParseInt(form.year.value).None? || exists n: nat :: n > 0 && form.year.value == "-" + NatToString(n)
    ensures AddResponse(rows, form) == (Response(400, InvalidYearMessage), rows)
  {
    if ParseInt(form.year.value).Some? {
      var n: nat :| n > 0 && form.year.value == "-" + NatToString(n);
      ParseIntOfNegated(n);
    }
  }

  /** The table is written only after validation succeeded: 400 exactly on a validation error, and then the table is unchanged. */
  lemma AddValidatesFirst(rows: seq<Album>, form: Form)
    ensures AddResponse(rows, form).0.status == 400 <==> ValidateValues(form).Some?
    ensures ValidateValues(form).Some? ==> AddResponse(rows, form).1 == rows
    ensures AddResponse(rows, form).0.status in {200, 400, 409}
  {
  }

  /** A title already in the table, under any artist, gets 409 "Album '{title}' has been already added" and the table is unchanged. */
  lemma AddRejectsDuplicate(rows: seq<Album>, form: Form, i: nat)
    requires ValidateValues(form).None?
    requires i < |rows| && Some(rows[i].title) == form.album
    ensures AddResponse(rows, form)
         == (Response(409, DuplicateMessage(form.album.value)), rows)
  {
    assert HasTitle(rows, form.album.value);
  }

  /** A valid form with a new title gets 200 and the success message, and the table gains exactly that row. */
  lemma AddAppends(rows: seq<Album>, form: Form)
    requires ValidateValues(form).None?
    requires forall i :: 0 <= i < |rows| ==> Some(rows[i].title) != form.album
    ensures var album := Album(form.year, form.artist.value, form.genre, form.album.value);
            AddResponse(rows, form) == (Response(200, AddedMessage(album)), rows + [album])
  {
  }

  /** After a successful add, listing the artist shows the title as an item, and repeating the add is a 409. */
  lemma AddThenFindAndRepeat(rows: seq<Album>, form: Form)
    requires AddResponse(rows, form).0.status == 200
    ensures var after := AddResponse(rows, form).1;
            FindResponse(after, form.artist.value).status == 200 &&
            IsInfix(Item(form.album.value), FindResponse(after, form.artist.value).message) &&
            AddResponse(after, form) == (Response(409, DuplicateMessage(form.album.value)), after)
  {
    var album := Album(form.year, form.artist.value, form.genre, form.album.value);
    var after := rows + [album];
    assert !HasTitle(rows, album.title);
    TitlesByAppend(rows, album, album.artist);
    var titles := TitlesBy(after, album.artist);
    assert titles[|titles| - 1] == album.title;
    RenderedListsEachTitle(album.artist, titles, |titles| - 1);
    AddRejectsDuplicate(after, form, |rows|);
  }

  /** Whatever the request, titles that were distinct stay distinct. */
  lemma AddKeepsTitlesDistinct(rows: seq<Album>, form: Form)
    requires DistinctTitles(rows)
    ensures DistinctTitles(AddResponse(rows, form).1)
  {
    if ParseRequestData(form).Success? {
      TryAddKeepsTitlesDistinct(rows, ParseRequestData(form).value);
    }
  }

  /** The end-to-end example: add "Thriller" by Michael Jackson (1982) to an empty table, list the artist, add it again. */
  lemma ThrillerScenario()
    ensures var form := Form(Some("Thriller"), Some("Michael Jackson"), Some("Pop"), Some("1982"));
            var album := Album(Some("1982"), "Michael Jackson", Some("Pop"), "Thriller");
            AddResponse([], form) == (Response(200, AddedMessage(album)), [album]) &&
            FindResponse([album], "Michael Jackson").status == 200 &&
            IsInfix(Item("Thriller"), FindResponse([album], "Michael Jackson").message) &&
            AddResponse([album], form).0 == Response(409, DuplicateMessage("Thriller"))
  {
    var form := Form(Some("Thriller"), Some("Michael Jackson"), Some("Pop"), Some("1982"));
    assert NatToString(198) == "198";
    assert NatToString(1982) == "1982";
    ParseIntOfNatToString(1982);
    assert ValidateValues(form).None?;
    AddAppends([], form);
    AddThenFindAndRepeat([], form);
  }

  /** The year boundary: "1900" is accepted, "1899", "abc" and the empty string are not. */
  lemma YearExamples()
    ensures YearAccepted(Some("1900"))
    ensures !YearAccepted(Some("1899"))
    ensures !YearAccepted(Some("abc"))
    ensures !YearAccepted(Some(""))
    ensures YearAccepted(None)
  {
    assert NatToString(1900) == "1900";
    assert NatToString(1899) == "1899";
    ParseIntOfNatToString(1900);
    ParseIntOfNatToString(1899);
    assert !IsDigit('a');
  }
}
