# Album service model

A Dafny model of a small web service that stores music albums and lists them
by artist. The model covers three parts of the service:

- **The album store** (`AlbumsDatabase`, from `albums_database.py`). It is one
  flat table of `Album` rows behind a `Session` object. Listing returns the
  titles of the rows whose artist matches exactly. Adding first checks whether
  any row already has the same title, under any artist. A duplicate raises the
  duplicate-album error and leaves the table untouched. Otherwise the row is
  appended. The table is the field `rows: seq<Album>` of the `Session` class.
  Listing (`GetArtistAlbums`) and the duplicate check (`IsAlbumInDb`) are
  loops over that sequence. Each method is proved against a pure function:
  `TitlesBy`, `HasTitle` and `TryAdd`.
- **Validation and the add handler** (`AlbumsRequests`, from
  `albums_requests.py`). A submitted form is a record of optional strings.
  The artist or title is checked first: absent or empty gives the empty-value
  error, whatever the year. Then the year is checked: a year that is present
  must read as an integer of at least 1900. `ValidateValues` is this rule and
  `YearAccepted` its year half. Each outcome becomes an HTTP status and
  message:
  - empty value: 400;
  - bad year: 400;
  - duplicate title: 409;
  - success: 200 with a confirmation.
  The table is written only after validation has succeeded.
- **Listing and HTML rendering** (`AlbumsRequests`). An artist with no albums
  gets 404 `No albums for {artist}`. Otherwise the response is an HTML
  fragment, built by `RenderAlbumsList`. Its properties are the lemmas
  `RenderedCount`, `RenderedFrame` and `RenderedListsEachTitle`. The fragment
  states the count and has one `<li>` item per title, in order. Artist and
  titles are inserted without escaping, exactly as the service does.

`Decimal` models the two integer conversions the service uses. `str(n)`
writes the album count, and `int(s)` reads the year. `Wrappers` holds
`Option` and `Result`.

A handler takes the session as an explicit argument; the service uses one
module-level session. Every handler is specified by a pure function over the
table value: `FindResponse` and `AddResponse`. The lemmas state the
service's rules about those functions.

Modelling choices:

- Query results come back in insertion order. The store gives no ordering
  guarantee, so the count and membership lemmas (`TitlesByCount`,
  `TitlesByMembership`) do not depend on order.
- An `Album` row has a plain-string artist and title. Rows are only added
  through the add handler, and it validates both fields first.
- The year is kept as the text received from the form. That is what the row
  object holds when it is added.

## Model

| member | source | states |
|---|---|---|
| `Decimal.NatToString` | albums_requests.py:37-40 | the count written into the page is a non-empty run of decimal digits with no leading zero |
| `Decimal.DigitsValueOfNatToString` | albums_requests.py:40 | the digits written for the count denote exactly that count |
| `Decimal.ParseIntOfNatToString` | albums_requests.py:91 | reading a year written in decimal gives that year back (`int(str(n)) == n`) |
| `Decimal.ParseIntOfNegated` | albums_requests.py:91 | a year text `-` followed by the decimal spelling of n reads as -n |
| `AlbumsDatabase.TitlesByAppend` | albums_database.py:26-27 | one more row adds its title at the end of the listing exactly when its artist matches, and changes nothing else |
| `AlbumsDatabase.TitlesByMembership` | albums_database.py:26-27 | a title is listed for an artist if and only if some row has that artist and that title |
| `AlbumsDatabase.TitlesByCount` | albums_database.py:26-28 | the listing has exactly as many entries as there are rows with the artist |
| `AlbumsDatabase.TitlesByEmpty` | albums_database.py:26-28 | the listing is empty, not an error, exactly when no row has the artist |
| `AlbumsDatabase.TryAddEffect` | albums_database.py:30-37 | an add is a duplicate if and only if some row has the same title, whatever its artist; a duplicate leaves the table as it was; a success keeps every old row in place and adds exactly the given row at the end |
| `AlbumsDatabase.TryAddKeepsTitlesDistinct` | albums_database.py:30-37 | if all titles are distinct before an add, they are distinct after it, whatever its outcome |
| `AlbumsDatabase.TryAddThenListed` | albums_database.py:26-37 | after a successful add, the title is listed under its artist, and adding the same album again is a duplicate |
| `AlbumsDatabase.Session.constructor` | albums_database.py:22-23 | a new session sees the table's existing rows |
| `AlbumsDatabase.Session.GetArtistAlbums` | albums_database.py:25-28 | returns the titles of exactly the rows whose artist matches, in table order |
| `AlbumsDatabase.Session.IsAlbumInDb` | albums_database.py:35-37 | reports a duplicate if and only if some row has the album's title |
| `AlbumsDatabase.Session.AddAlbumToDb` | albums_database.py:30-33 | the check comes before the insert: on a duplicate the table is unchanged, otherwise exactly the given row is appended; distinct titles stay distinct |
| `AlbumsRequests.ValidateValues` | albums_requests.py:84-94 | the empty-value error is given exactly when the artist or title is absent or empty, whatever the year; the year error only for a present year; a form passes if and only if it has a non-empty artist and title and its year is absent or reads as an integer of at least 1900 |
| `AlbumsRequests.ParseRequestData` | albums_requests.py:66-81 | fails exactly when validation fails, with validation's error; on success the row carries the form's four fields, with artist and title non-empty |
| `AlbumsRequests.ItemsAppend` | albums_requests.py:38-39 | the joined items of two title lists, one after the other, are the items of the joined list |
| `AlbumsRequests.ItemsAt` | albums_requests.py:38-39 | the k-th title has its own `<li>` item, after the items of the earlier titles and before those of the later ones |
| `AlbumsRequests.RenderedCount` | albums_requests.py:37-40 | right after `has ` the page holds the decimal count, which reads back as the number of titles, followed by ` album(s):<br><ul>` |
| `AlbumsRequests.RenderedFrame` | albums_requests.py:40 | the page opens with `<strong>` and the artist verbatim, and ends with the items verbatim and `</ul>` |
| `AlbumsRequests.RenderedListsEachTitle` | albums_requests.py:38-40 | every title appears in the page as `<li>` + title + `</li>` |
| `AlbumsRequests.FindAlbums` | albums_requests.py:21-30 | the response is 404 `No albums for {artist}` when the artist has no albums (nothing is rendered), otherwise 200 with the rendered list of that artist's titles |
| `AlbumsRequests.FindNotFound` | albums_requests.py:25-28 | the status is 404 if and only if no row has the artist, and then the message is `No albums for {artist}`; otherwise it is 200 |
| `AlbumsRequests.FindRendersMatchingRows` | albums_requests.py:25-30 | a 200 page renders exactly the artist's titles, and its count is the number of the artist's rows |
| `AlbumsRequests.AddNewAlbum` | albums_requests.py:46-63 | validates, then adds; the response and the new table are those of `AddResponse` on the old table |
| `AlbumsRequests.AddRejectsBlank` | albums_requests.py:88-89 | an absent or empty artist or title gets 400 `Album or artist cannot be empty`, whatever the year, and the table is unchanged |
| `AlbumsRequests.AddYearThreshold` | albums_requests.py:90-94 | with artist and title present, a decimal year gets 400 `Invalid year value` if and only if it is below 1900; otherwise the add proceeds to 200 or 409 |
| `AlbumsRequests.AddYearByValue` | albums_requests.py:90-94 | with artist and title present, any year text that reads as an integer v (with a sign or leading zeros too) gets 400 `Invalid year value` if and only if v is below 1900, and the table is then unchanged; otherwise the add proceeds to 200 or 409 |
| `AlbumsRequests.AddRejectsBadYear` | albums_requests.py:90-94 | a year text that does not read as an integer, or `-` followed by the decimal spelling of a positive n, gets 400 `Invalid year value` and the table is unchanged |
| `AlbumsRequests.YearExamples` | albums_requests.py:90-94 | `1900` and an absent year are accepted; `1899`, `abc` and the empty string are not |
| `AlbumsRequests.AddValidatesFirst` | albums_requests.py:52-58 | the status is 400 exactly when validation fails, and then the table is unchanged; every status is 200, 400 or 409 |
| `AlbumsRequests.AddRejectsDuplicate` | albums_requests.py:59-61 | a valid form whose title is already in the table, under any artist, gets 409 `Album '{title}' has been already added` and the table is unchanged |
| `AlbumsRequests.AddAppends` | albums_requests.py:62-63 | a valid form with a new title gets 200 `Album '{title}' by {artist} has been successfully added.` and the table gains exactly that row |
| `AlbumsRequests.AddThenFindAndRepeat` | albums_requests.py:21-63 | after a successful add, listing the artist is a 200 page with the title as an item, and repeating the add is a 409 that leaves the table unchanged |
| `AlbumsRequests.AddKeepsTitlesDistinct` | albums_requests.py:52-63 | whatever the request, titles that were distinct stay distinct |
| `AlbumsRequests.ThrillerScenario` | albums_requests.py:46-63 | on an empty table, adding Thriller by Michael Jackson (1982) succeeds, listing Michael Jackson shows `<li>Thriller</li>`, and adding it again is a 409 |

## Left out

- Routing, the HTTP server, `run` and the HTTP error objects. A response is a (status, message) pair. For an error status the model keeps only the error's message, not the error page the server builds around it (which escapes the message).
- Reading the request's form fields. A form is a record of four optional strings.
- The SQL engine, the session factory and opening the connection (albums_database.py:44-47). The model does not cover commit durability or the primary-key `id` the store assigns (albums_database.py:11).
- Conversion of the year text to an integer column when the row is stored. The row keeps the form's text.
- Rows with an absent artist or title written by other programs. The model's rows always carry both.
- Decimal.ParseInt: Python's `int` also accepts surrounding whitespace, underscores between digits and non-ASCII digits. The model accepts exactly an optional `+` or `-` followed by ASCII digits, so such years are rejected here but accepted by the service. Recent Python versions also reject digit strings longer than 4300 characters; the model accepts them, so such a year passes validation here but gets 400 `Invalid year value` from the service.
- The order of query results. The model fixes insertion order; the store does not promise any order.
- The race between checking for a duplicate and inserting under concurrent requests. Requests run one at a time here.
- The module-level session. It is passed to the handlers explicitly.
