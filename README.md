# Movie watch-list store — a Dafny model

The application is a small Flask service over one SQLite database. It searches a
read-only IMDb-style `movies` catalog. It also keeps named watch lists of saved
movies in two tables:

- `saved`: one row per (list, movie, year, genre) placement;
- `lists`: the registered list names, each with an `updated_at` stamp.

This project models the core of `app.py`:

- **Catalog search** (`GET /api/search`, module `Search`). A pure filter, then a
  sort, then a cut to 10 or 25 rows. The search's string and number handling
  follows Python's `strip`/`split`/`int()` and SQLite's `LOWER`, `TRIM`,
  `REPLACE`, `GLOB '*[0-9]*'` and `LIKE` on ASCII text (see "Left out" for what
  lies outside ASCII). These live in `Strings`, `Numbers` and `SqlLike`.
- **The saved table and its statements** (module `Table`). The table is a
  sequence of rows. The primary key `(list_name, id, year, genre)` is an
  invariant. `SELECT`/`DELETE … WHERE`, `INSERT OR IGNORE`, `UPDATE … SET title`
  and `UPDATE … SET list_name` are each one function. The `lists` table is a map
  from name to the time of its `updated_at` stamp, on one clock for all lists.
- **The mutating handlers** (class `Store.SavedStore`, fields `rows`,
  `lists` and `clock`, the time of the latest stamp). These are add, remove, update (including its years × genres
  re-insertion loop), clear, create, delete and rename list. Each is a method
  whose postcondition states the whole new state and the response. Responses are
  `Ok`, `BadRequest` or `NotFound`, with the handler's own error text.
- **The grouped view** (`GET /api/list`, module `Listing`). The grouping loop
  builds the nested year → genre → entries dictionary. Then come the sorting
  loops: years descending, genres ascending, entries by lower-cased title. These
  are proved to produce exactly the rows of the list, each under its own bucket.
- **`GET /api/lists`** (names in order) and the change detection of
  **`GET /stream`** (module `Stream`).

JSON request fields are `Option<string>`. Python truthiness is `Given`, so `""`
counts as missing. A stored SQL `NULL` is modelled as the empty string. The
`or` defaults and truthiness tests of `app.py` treat the two alike, and so do
the search's `IS NOT NULL AND != ''` tests and its exact title match. They
differ in five places, each listed under "Left out": a `LIKE` pattern made
only of `%`, the search's `ORDER BY title`, the title sort of `/api/list`,
and the JSON sent back by `/api/list` and by `/api/search` and `/api/add`.

Where the code and its description differ, the model follows the code:

- **Rename can fail.** A rename that collides with existing keys raises a
  constraint error in either table. The handler then answers 400 `rename failed`
  and changes nothing.
- **The title match is not a full whitespace collapse.** The catalog's stored
  title is shortened by three `REPLACE('  ', ' ')` passes and trimmed of spaces
  only. A stored title with single spaces and no space at either end matches
  exactly the queries that normalise to it, ignoring case; one with a run of nine
  spaces is not found by the query with one space in its place.
- **A year `int()` accepts selects three years.** It matches its own decimal text
  and the texts of the years on either side, so `"+1999"` and `"1_999"` select
  1998–2000.

## Model

| member | source | states |
|---|---|---|
| `Requests.ListNameOf` | app.py:171 | The list a request addresses is its `list_name` when that is non-empty, otherwise `default`, and never empty. |
| `Strings.Strip` | app.py:114-115 | Python's `strip()`: `Trim` on Python's white space, whose properties `Trim`, `TrimIsPiece` and `TrimIdempotent` state. |
| `Strings.Trim` | app.py:114-115 | What stripping leaves is no longer than the text, and is empty or neither starts nor ends with one of the given characters. |
| `Strings.TrimIsPiece` | app.py:114-115 | Stripping leaves a contiguous piece of the text, and everything cut off on either side is one of the given characters. |
| `Strings.TrimIdempotent` | app.py:203 | Stripping twice is stripping once (the genre `api_add` stores is re-stripped without change). |
| `Strings.TrimKeepsOthers` | app.py:190 | Stripping never introduces a character, so a stripped comma-split piece holds no comma. |
| `Strings.Lower` | app.py:140 | Lower-casing keeps the length and maps each character by ASCII lower-casing. |
| `Strings.LowerIdempotent` | app.py:140 | Lower-casing twice is lower-casing once. |
| `Strings.LexLeTotal` | app.py:237-240 | Code-point order relates any two strings. |
| `Strings.LexLeAntisymmetric` | app.py:237-240 | Two strings each before-or-equal the other are equal. |
| `Strings.LexLeTransitive` | app.py:237-240 | Code-point order is transitive. |
| `Strings.Split` | app.py:190 | `str.split(',')` gives at least one piece and no piece holds the separator. |
| `Strings.JoinSplit` | app.py:190 | Joining the pieces with the separator gives back the text. |
| `Strings.Words` | app.py:138 | `str.split()` gives non-empty words free of white space. |
| `Strings.WordsAreMaximalRuns` | app.py:138 | Laid end to end, the words of `str.split()` are the text without its white space, and each word stands in the text between white space or an end. |
| `Strings.WordsAreSplitPieces` | app.py:138 | `str.split()` is the text cut at every white-space character with the empty pieces dropped, as Python documents it: this fixes the words' number, their order and their content. |
| `Strings.Normalize` | app.py:138 | `' '.join(title.split())`: its properties are `WordsOfNormalize`, `NormalizeNoLonger` and `NormalizeIdempotent`. |
| `Strings.StoredTitleKey` | app.py:140 | The stored title after three `REPLACE('  ', ' ')` passes and `TRIM` is no longer than the title and has no space at either end. |
| `Strings.WordsConcat` | app.py:138 | The words laid end to end are the text with its white space removed. |
| `Strings.WordsStandAlone` | app.py:138 | Each word occurs in the text with white space or an end of the text on either side. |
| `Strings.WordsOfNormalize` | app.py:138 | `' '.join(title.split())` has the same words as the title. |
| `Strings.NormalizeNoLonger` | app.py:138 | `' '.join(title.split())` is never longer than the title. |
| `Strings.NormalizeIdempotent` | app.py:138 | Normalising a normalised title changes nothing. |
| `Strings.HalveSpaceRuns` | app.py:140 | One `REPLACE(title, '  ', ' ')` pass never lengthens the title. |
| `Strings.HalveSpaceRunsOfRun` | app.py:140 | One `REPLACE(title, '  ', ' ')` pass turns a run of n spaces into (n + 1) / 2 spaces. |
| `Strings.HalveSpaceRunsKeepsSingleSpaces` | app.py:140 | A `REPLACE(title, '  ', ' ')` pass leaves a title without two spaces in a row unchanged. |
| `Strings.StoredTitleKeyOfTidyTitle` | app.py:140 | A stored title with single spaces only and no space at either end is unchanged by the three passes and `TRIM`. |
| `Strings.StoredTitleKeyOfLongRun` | app.py:140 | The three passes and `TRIM` turn `a`, nine spaces, `b` into `a`, two spaces, `b`. |
| `Numbers.ParseInt` | app.py:148-154 | `int()` accepts only ASCII digits, underscores and a leading sign, and gives a negative number only after a `-`; its inverse is `ParseIntToString`. |
| `Numbers.NatToStringValue` | app.py:151 | `str(n)` of a natural number is digits whose decimal value is n. |
| `Numbers.IntToString` | app.py:151 | `str(n)` is non-empty and starts with `-` exactly when n is negative; `ParseIntToString` and `IntToStringInjective` state the rest. |
| `Numbers.ParseIntToString` | app.py:149-151 | `int(str(y)) == y` for every integer. |
| `Numbers.IntToStringInjective` | app.py:150-151 | Distinct years print as distinct texts. |
| `SqlLike.Like` | app.py:144-145 | A `LIKE` pattern without `%` or `_` matches exactly the text equal to it. |
| `SqlLike.LikeEmpty` | app.py:144-145 | The empty text matches exactly the patterns made only of `%`. |
| `SqlLike.LikePrefix` | app.py:144-145 | A wildcard-free text followed by `%` matches exactly the strings it begins. |
| `SqlLike.LikeLeadingPercent` | app.py:144-145 | A leading `%` lets the rest of the pattern match any suffix. |
| `SqlLike.LikeContains` | app.py:144-145 | `LIKE '%t%'` for a wildcard-free t holds exactly when t occurs in the string. |
| `Sorting.Sort` | app.py:160 | Sorting returns a permutation of its input. |
| `Sorting.SortSorted` | app.py:160 | Under a total preorder, the sort's result is ordered. |
| `Sorting.LexLeIsTotalPreorder` | app.py:237-239 | Code-point order and its reverse are total preorders. |
| `Search.Listable` | app.py:129-133 | The two clauses every search carries: a start year that is present, not `\N` and holds a digit, and a runtime that is present and not `\N`. |
| `Search.TitleClause` | app.py:134-145 | The title clause: the normalised exact match without a year, `LIKE '%t%'` with one; `TitleWithoutYearOnTidyTitle` and `TitleWithYearIsSubstring` state what each selects. |
| `Search.YearClause` | app.py:146-154 | The year clause: the three-year window for a year `int()` accepts, a verbatim match otherwise; `YearWindow` states the window. |
| `Search.Matches` | app.py:124-156 | The WHERE clause is the two fixed clauses, plus the title clause when a title is given and the year clause when a year is given. |
| `Search.Selected` | app.py:124-157 | The WHERE clause keeps exactly the catalog rows that match, and nothing more often than the catalog holds it. |
| `Search.SearchCatalog` | app.py:114-164 | Both stripped arguments empty is exactly the 400 case; a search is never a 404; a result has at most 10 rows without a year and 25 with one. |
| `Search.Limit` | app.py:159 | `LIMIT` is 10 without a year and 25 with one; `SearchCatalog` bounds the result by it. |
| `Search.ResultOrder` | app.py:160 | `ORDER BY start_year DESC, title`: a later start year first, then titles in code-point order; `ResultOrderIsTotalPreorder` and `SearchReturnsFirstMatches` state what follows. |
| `Search.ResultOrderIsTotalPreorder` | app.py:160 | `ORDER BY start_year DESC, title` is a total preorder. |
| `Search.SearchReturnsFirstMatches` | app.py:124-163 | The result rows are catalog rows that pass the WHERE clause, in result order, min(matches, limit) of them, and no match that was cut off sorts before a returned row. |
| `Search.PrefixOfSorted` | app.py:160 | `LIMIT n` on sorted rows keeps a sorted prefix that sorts before everything it cuts. |
| `Search.YearWindow` | app.py:146-151 | A year that `int()` accepts selects exactly the start years y-1, y and y+1. |
| `Search.TitleWithYearIsSubstring` | app.py:142-145 | With a year, a wildcard-free title matches exactly the movies whose lower-cased title contains it. |
| `Search.TitleWithoutYearOnTidyTitle` | app.py:137-141 | Without a year, a stored title with single spaces only and no space at either end matches exactly when it equals the normalised query, ignoring case. |
| `Search.TitleWithoutYearMissesLongRun` | app.py:137-141 | Without a year, the query `a b` does not find the stored title `a`, nine spaces, `b`. |
| `Search.Take` | app.py:159-160 | `LIMIT n` keeps a prefix of length min(n, number of rows). |
| `Table.Select` | app.py:222 | A SELECT yields exactly the rows its WHERE selects, and nothing exactly when no row is selected. |
| `Table.Delete` | app.py:283 | A DELETE keeps exactly the unselected rows, its row count is the number selected, and it keeps the primary key. |
| `Table.InsertOrIgnore` | app.py:205-206 | After INSERT OR IGNORE the key is present; the row is added exactly when its key was absent; the primary key holds. |
| `Table.SetTitle` | app.py:373-375 | The title UPDATE keeps keys, runtimes and unselected rows, sets the title of selected rows, and their synopsis only when one is given. |
| `Table.Relabel` | app.py:302 | Renaming moves exactly the rows of the old list, and keeps the primary key when no moved row collides. |
| `Table.Collides` | app.py:302-303 | A rename collides when a moved row would take the key of a row already in the table; `CollisionBreaksKeys` and `Relabel` state what follows. |
| `Table.CollisionBreaksKeys` | app.py:302 | A collision is exactly what breaks the primary key: if one exists, the relabelled table has two rows with one key, so SQLite refuses the UPDATE. |
| `Table.InsertOrIgnoreIdempotent` | app.py:205-206 | Inserting the same row twice is inserting it once. |
| `Table.KeyCountZero` | app.py:53 | No row carries a key exactly when its count is zero. |
| `Table.KeyCountAtMostOne` | app.py:53 | Under the primary key each key is carried by at most one row. |
| `Table.ExactlyOneAfterInsert` | app.py:53 | After INSERT OR IGNORE exactly one row carries the inserted key. |
| `Table.PlacementSelectsAtMostOne` | app.py:331 | A WHERE on the whole key selects at most one row. |
| `Table.Stamp` | app.py:198 | Stamping at time t gives that list the time t when it is registered, and changes nothing else. |
| `Listing.YearBucket` | app.py:229 | A row's year bucket is never empty (`'Unknown'` stands in). |
| `Listing.GenreBucket` | app.py:230 | A row's genre bucket is never empty (`'(no genre)'` stands in). |
| `Listing.TitleOrderIsTotalPreorder` | app.py:240 | Ordering entries by lower-cased title is a total preorder. |
| `Listing.EntryOf` | app.py:233 | The entry appended for a row: its id, title, runtime and synopsis. |
| `Listing.Bucket` | app.py:228-233 | A bucket holds exactly the entries of the rows with that year and genre, and is empty exactly when no such row exists. |
| `Listing.AddEntry` | app.py:231-233 | `setdefault`/`append` registers the row's year, appends its entry as the last of its bucket after the entries already there, and leaves every other bucket as it was. |
| `Listing.GroupedStep` | app.py:228-233 | One pass of the `setdefault`/`append` loop keeps the dictionary equal to the grouping of the rows consumed so far. |
| `Listing.KeysOf` | app.py:237 | `dict.keys()` lists every key exactly once. |
| `Listing.SortedKeys` | app.py:237-239 | `sorted(keys)`, or with `reverse=True`, lists every key once in strict code-point order. |
| `Listing.GenreGroups` | app.py:239-240 | The inner loop builds one group per genre bucket, genres ascending, each bucket title-sorted. |
| `Listing.YearGroups` | app.py:237-240 | The outer loop builds one group per year, years descending. |
| `Listing.BuildListing` | app.py:227-240 | The view is the listing of the fetched rows: years strictly descending, genres strictly ascending, each genre's entries exactly that bucket's, sorted by lower-cased title. |
| `Listing.GroupedSortedIsListing` | app.py:235-240 | Sorting the grouped dictionary gives the listing of its rows. |
| `Listing.ListingShowsEveryRow` | app.py:227-240 | Every row shows up under its own year and genre, whose groups are unique. |
| `Listing.ListingShowsOnlyRows` | app.py:227-240 | Every entry shown is the entry of a row of that bucket. |
| `Listing.ListingHasOneGroupPerYear` | app.py:237 | The view has exactly as many year groups as there are distinct year buckets. |
| `Store.FirstNonBlank` | app.py:190-191 | The first piece that is non-blank after stripping, stripped, or none exactly when every piece is blank. |
| `Store.FirstGenre` | app.py:188-193 | Add's genre is never empty and never holds a comma. |
| `Store.FirstGenreIsFirstNonBlank` | app.py:188-193 | Add's genre is the first non-blank comma-separated piece, stripped, or `'(no genre)'` when there is none. |
| `Store.FirstGenreOfBlank` | app.py:188-193 | When every comma-separated piece is blank, the genre is `'(no genre)'`. |
| `Store.FirstGenreOfNonBlank` | app.py:188-193 | When some piece is not blank, the genre is the first such piece, stripped. |
| `Store.Lookup` | app.py:177-181 | The fetched movie has the requested id; none exactly when no catalog movie has it. |
| `Store.SavedRow` | app.py:180-206 | The row `api_add` inserts; `SavedRowShape` states its fields. |
| `Store.RemoveWhere` | app.py:330-333 | Remove selects the row of the movie in the list with the given year and genre when both are given, and otherwise every row of the movie in the list. |
| `Store.TitleOnly` | app.py:371 | An update is title-only when a new title is given and neither a new year nor a new genre; `TitleOnlyKeepsPlacements` and `SavedStore.Update` state both paths. |
| `Store.ReinsertOf` | app.py:401-403 | The re-inserted rows' title is the new title if given, else the first original's; the synopsis is the new one if present (even empty), else the first original's; the runtime is the first original's. |
| `Store.TargetYears` | app.py:388-399 | The update's years: the new year if given; every original year (or `'Unknown'`) unless both new values are given; and nothing else. |
| `Store.TargetGenres` | app.py:388-399 | The update's genres: the stripped new genre if given; every original genre (or `'(no genre)'`) unless both new values are given; and nothing else. |
| `Store.CreateEntry` | app.py:263-268 | Creating a list fails exactly when its name is registered; otherwise it adds the name stamped with the given time and keeps the others. |
| `Store.RecreatedListIsObserved` | app.py:264 | A list deleted and then created or added to again takes a time later than every earlier stamp, so a poll reads something different from before. |
| `Store.RenameEntry` | app.py:303 | The registry entry moves from the old name to the new one with its stamp; an unregistered old name changes nothing. |
| `Store.SavedRowShape` | app.py:183-206 | An added row has the movie's id and title, a year and a runtime (the movie's own when present, else `'Unknown'`), the genre `FirstGenre` picks (non-empty and comma-free), and an empty synopsis. |
| `Store.AddTwiceKeepsOneRow` | app.py:53 | Adding the same movie to the same list twice leaves exactly one row for that placement. |
| `Store.RemoveScope` | app.py:330-334 | With year and genre, remove deletes exactly the row with that key (at most one row); otherwise exactly the rows of the movie in the list; no other row is deleted. |
| `Store.TitleOnlyKeepsPlacements` | app.py:371-375 | A title-only update keeps every key and every row of other movies, and retitles every row of the movie. |
| `Store.ReinsertedPlacements` | app.py:386-407 | After the re-insertion the movie's placements in the list are exactly target years × target genres. |
| `Store.NewYearAloneKeepsOriginalYears` | app.py:390-399 | A new year without a new genre yields that year plus every original year, and the original genres. |
| `Store.NewGenreAloneKeepsOriginalGenres` | app.py:390-399 | A new genre without a new year yields that genre plus every original genre, and the original years. |
| `Store.NoNewPlacementKeepsOriginals` | app.py:396-399 | Without a new year or genre the targets are exactly the original years and genres. |
| `Store.NewYearAndGenreReplaceOriginals` | app.py:390-395 | A new year and a new genre together are the only targets. |
| `Store.ClearedListIsEmpty` | app.py:426 | After clearing or deleting a list its listing is empty. |
| `Store.EmptyListing` | app.py:227-240 | The listing of no rows is empty. |
| `Store.AddedMovieIsListed` | app.py:205-206 | After an add, the list's view shows the movie's id under the added row's year and genre. |
| `Store.RenameMovesRows` | app.py:302 | After a rename no row is left under the old name, and every row of it is under the new name. |
| `Store.SavedStore.constructor` | app.py:44-55 | The store starts with no rows, no lists and the clock at 0, and satisfies its invariant. |
| `Store.SavedStore.Add` | app.py:168-213 | Missing id: 400 and no change. Unknown movie: 404 and no change. Otherwise the list is registered and stamped, and the movie's row is inserted or ignored. |
| `Store.SavedStore.StampList` | app.py:198 | A stamp advances the clock by one and gives the list that time, keeping the invariant that no stamp lies ahead of the clock. |
| `Store.SavedStore.Enroll` | app.py:196-206 | INSERT OR IGNORE the list, stamp it, INSERT OR IGNORE the row, keeping the primary key and registration invariants. |
| `Store.SavedStore.Remove` | app.py:319-346 | Missing id: 400 and no change. Otherwise the named rows are deleted; success exactly when some row was deleted; the stamp only on success; otherwise 404 `movie not found in list`. |
| `Store.SavedStore.Update` | app.py:350-416 | Missing id: 400. No rows: 404, no change. A title-only update runs the title UPDATE. Any other deletes the movie's rows and re-inserts them at target years × target genres with the chosen title, synopsis and runtime. Both stamp the list. |
| `Store.SavedStore.Replace` | app.py:385-407 | Deleting the movie's rows and re-inserting it leaves exactly the other rows plus the movie at the given years × genres, keeping the invariant and the registry. |
| `Store.SavedStore.Reinsert` | app.py:404-407 | The nested loop's rows are the rows before it plus exactly one row per (year, genre) of the targets. |
| `Store.SavedStore.Clear` | app.py:420-434 | Clear deletes exactly the list's rows and stamps it. |
| `Store.SavedStore.CreateList` | app.py:256-270 | Missing name: 400. Registered name: 400 `could not create list`. Otherwise the name is registered, stamped. |
| `Store.SavedStore.DeleteList` | app.py:274-287 | Missing name or `default`: 400 and no change. Otherwise the list's rows and registry entry are removed. |
| `Store.SavedStore.RenameList` | app.py:291-315 | Missing names or old `default`: 400 and no change. A key clash in either table: 400 `rename failed` and no change. Otherwise rows and entry move to the new name, and the new name is stamped. |
| `Store.SavedStore.List` | app.py:217-242 | The view is the listing of exactly the rows of the requested list. |
| `Store.SavedStore.Lists` | app.py:246-252 | Every registered list once, with its stamp, in strictly ascending name order. |
| `Stream.Observed` | app.py:448-450 | A poll reads a list's stamp, or nothing for a missing list or a NULL stamp. |
| `Stream.StampIsObserved` | app.py:459-464 | A stamp on a registered list at a time later than anything read before changes what the next poll reads. |
| `Stream.Events` | app.py:456-466 | A stream sends at most one event per poll. |
| `Stream.Watch` | app.py:455-466 | The polling loop sends exactly the events counted by `Events`. |
| `Stream.SteadyIsSilent` | app.py:464-466 | Polls that read the value already seen send nothing. |
| `Stream.EventsSplit` | app.py:456-466 | Events of two stretches of polling add up, the second starting from the last value seen. |
| `Stream.EveryChangeIsSent` | app.py:464-466 | When every poll reads a new value, every poll sends an event. |

## Left out

- HTTP plumbing is not modelled: Flask routing, `request.get_json`/`request.args`, `jsonify` and status codes. Request fields are parameters and responses are a `Response` datatype.
- `jsonify` sorts object keys, so the JSON text of `/api/list` lists years ascending even though the handler builds them descending. The model states the order the handler builds.
- SQL execution, connections, commit and close are not modelled. Each statement is a function on the in-memory table, and a failed transaction leaves the fields unchanged.
- `init_saved_table` (schema creation, the `ALTER TABLE` migrations, the one-off JSON-file import and its deletion) is not modelled. It is file and database I/O run once at start-up.
- `datetime('now')` is a clock shared by all lists that advances by one at each stamp. Real stamps have one-second resolution, so two changes within one second can look alike to `/stream`; the clock always tells them apart, including a list deleted and created again (`RecreatedListIsObserved`). `created_at` is not modelled.
- SQLite does not order unordered SELECTs. The model returns rows in table order, and the update's first original row is the first in that order.
- Python iterates a set in arbitrary order. The update loop takes years and genres in an arbitrary order, and only the resulting set of rows is stated.
- `/stream` as a generator is not modelled: its sleeping, its live connection and its infinite loop. `Watch` runs the loop over a given finite sequence of poll results.
- Logging calls and the swallowed exceptions around stamps are not modelled; none of those statements can fail in the model.
- Only strings are modelled for JSON values. `str(new_year)` on a JSON number is not modelled, nor are non-string `year`/`genre` fields of remove.
- Only ASCII is modelled for lower-casing and white space: `LOWER`, `.lower()`, `.strip()` and `.split()` do not cover Unicode case or white space.
- Only ASCII digits are modelled for `int()`: Python also accepts other Unicode decimal digits (full-width `１９９９` is 1999), for which `Numbers.ParseInt` gives none, so such a year is matched verbatim instead of as 1998–2000.
- A `NULL` title is not modelled as different from `''`. In `app.py` a saved row with a `NULL` title (from a catalog movie without a title, from the legacy import, or copied on re-insertion) makes `title.lower()` raise inside `/api/list`, which then fails for the whole list; the model lists such a row under an empty title.
- A `NULL` runtime or synopsis is not modelled as different from `''`. Rows from the legacy import have both `NULL`, and re-insertion copies them; `/api/list` sends them as JSON `null`, where the model has an empty string.
- A catalog movie's `NULL` title or genres is not modelled as different from `''` in what is sent back: `/api/search` (app.py:164) and `/api/add` (app.py:213) return the catalog row as it is, so such a field goes out as JSON `null`, where the model has an empty string.
- `Search.Selected`: a catalog movie with a `NULL` title is modelled with the title `''`. With a year and a title made only of `%` (`title=%&year=1999`), SQLite's `LOWER(NULL) LIKE '%%%'` is not true, so `app.py` leaves that movie out, while the model's `Like("%%%", "")` holds (`SqlLike.LikeEmpty`) and selects it. No other title tells the two apart: a pattern with any other character does not match `''`, and without a year the normalised query is never empty.
- `Search.SearchCatalog`: SQLite's `ORDER BY start_year DESC, title` sorts a `NULL` title before `''`, while the model ties the two. Among movies of one start year whose titles are `NULL` or empty, the model's order, and which of them survive `LIMIT`, can differ from that of `app.py`; `SearchReturnsFirstMatches` states the order only up to such ties.
- `Numbers.ParseInt`: CPython (3.11, and 3.10.7 on) refuses by default to convert a decimal text of more than 4300 digits, leading zeros included, and raises `ValueError`. The model reads texts of any length, so a year of 4300 zeros followed by `1999` selects 1998–2000 in the model, while `app.py` falls back to the verbatim match (app.py:152-154). For the same reason `Numbers.ParseIntToString` holds for every integer, while CPython's `str()` refuses integers of more than 4300 digits.
- `Strings.HalveSpaceRuns`: only states that one REPLACE pass never lengthens the title, not that it halves each run of spaces.
- `Store.SavedStore.List`: the view's entries within a genre are stated as a title-sorted permutation of the bucket, not as the one order a stable sort picks among equal titles.
- `Stream.Events`: only the count of events is stated, not which poll sent each.
- The `index` page and static files are not part of this model.
