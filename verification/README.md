# Movie catalog ingestion — a Dafny model of its decision logic

The pipeline in `src/pipeline/movies.py` works through a catalog of films given
as "Title (Year)" strings. Each hourly run looks up at most five films in an
online movie database and normalises each response. A checkpoint file
(`last_index`, `last_date`) lets the next run resume where this one stopped.
The cursor goes back to the start of the catalog when a new day begins.

This project models the three pieces of pure logic in that flow. I/O becomes
plain values.

- **Catalog** (`catalog.dfy`): a catalog row is split by the regular expression
  `^(.*)\s+\((\d{4})\)$`, following Python's `re` semantics:
  - `.` matches anything except a line feed;
  - `$` may match before a final line feed;
  - `.*` is greedy.
  
  When a row does not match, both the title and the year are absent.
- **Clean** (`clean.dfy`): `clean_movie_data`. It takes the IMDb rating from the
  `Ratings` list and removes " min" from the running time. A copied field that
  is missing becomes the integer `0`.
- **Driver** (`driver.dfy`): `process_movies`. This covers:
  - the reset on a new day;
  - the window of at most `RecordsPerDay = 5` entries;
  - a cursor that moves past every entry, including one whose lookup failed;
  - the saved checkpoint `(cursor, today)`.
  
  A run works on the catalog as read by `Catalog.ReadCatalog`: one entry per
  row, in row order. It exists as a pure function `Run` and as the loop
  `ProcessEntries`, which `ProcessMovies` runs on the catalog it reads. Both
  are proved to meet one description of a run, `IsRunOf`. That description
  has only one result (`RunDeterministic`), so the two agree.
- **Strings** (`strings.dfy`) holds the Python `str` behaviour used above:
  - `str.isspace`, which is the class `\s` matches and what `str.strip` removes;
  - `strip`, `replace(old, "")`, `split(sep)[0]`, and finding a character.
- **Options** (`options.dfy`): the optional value that stands for `None`/`NaN`.

Some behaviour one might expect from a movie pipeline is absent from the code,
and the model follows the code:
- The running time is never parsed to an integer. It stays a string with the
  unit removed, so "N/A" stays "N/A".
- The rating is never parsed to a number. It stays a string such as "8.8".
- A record whose title is missing is not dropped. Its title is `0`.
- There is no database sink. Each cleaned record is only printed.
- The title does not stop at the start of the whitespace before "(". Greedy
  `.*` keeps all but the last whitespace character before "(", up to the
  first line feed, which `.` cannot cross. So:
  - "Heat  (1995)" has the title "Heat ", with one trailing space;
  - "Heat \n (1995)" also has the title "Heat ".

## Model

| member | source | states |
|---|---|---|
| Catalog.ParseTitle | src/pipeline/movies.py:29 | on a match, the title has no line feed and the year is four ASCII digits |
| Catalog.ParseTitleSound | src/pipeline/movies.py:29 | every match is genuine: the row is exactly the captured title, a non-empty run of whitespace, "(", the captured year, ")" and at most one final line feed |
| Catalog.GreedyTitle | src/pipeline/movies.py:29 | `(.*)\s+` over the text before "(": the captured title is a prefix of it with no line feed, and everything after the title is whitespace |
| Catalog.GreedyTitleLongest | src/pipeline/movies.py:29 | any split of that text into a title without line feeds and a non-empty run of whitespace is found, with a captured title at least as long |
| Catalog.MatchEnd | src/pipeline/movies.py:29 | `$` is placed just before a final line feed when the row has one, and at the end of the row otherwise |
| Catalog.ParseTitleGreedy | src/pipeline/movies.py:29 | whenever the pattern can match, the parse succeeds with that year; every possible title is a prefix of the one captured, so greedy `.*` takes the longest |
| Catalog.ParseTitleNone | src/pipeline/movies.py:29 | the row yields no match exactly when no split into title, whitespace, "(year)" and optional final line feed exists |
| Catalog.ParseTitleSingleSpace | src/pipeline/movies.py:29 | with a single whitespace character before "(", that split is the one captured |
| Catalog.ParseTitleRoundTrip | src/pipeline/movies.py:29 | parsing title + " (" + year + ")" gives back the title and year for any title without a line feed and any four-digit year |
| Catalog.ParseTitleExample | src/pipeline/movies.py:29 | "Inception (2010)" gives ("Inception", "2010") |
| Catalog.ParseTitleKeepsSpace | src/pipeline/movies.py:29 | "Heat  (1995)" gives the title "Heat " because greedy `.*` keeps the first space |
| Catalog.ParseTitleStopsAtLineFeed | src/pipeline/movies.py:29 | "Heat \n (1995)" gives the title "Heat ", because `.` cannot cross the line feed |
| Catalog.ParseTitleFinalLineFeed | src/pipeline/movies.py:29 | a row that ends in a line feed after the ")" still matches |
| Catalog.ParseTitleNoYear | src/pipeline/movies.py:29 | the rows "Untitled" and "Solaris (72)" do not match; the general rule is `ParseTitleNone` |
| Catalog.ParseRow | src/pipeline/movies.py:29-31 | title and year are both present or both absent, and are present exactly when the pattern matches |
| Catalog.ReadCatalog | src/pipeline/movies.py:27-32 | one entry per catalog row, in row order; no row is dropped |
| Strings.IndexOf | src/pipeline/movies.py:29 | the first line feed bounds what `.` can match: no earlier line feed, and the character there is a line feed |
| Strings.IsSpace | src/pipeline/movies.py:29 | the whitespace class shared by `\s` in the pattern and by `str.strip()`: the characters for which `str.isspace` holds |
| Strings.IsSpaceExactly | src/pipeline/movies.py:60 | that class is exactly the 29 code points `str.isspace` accepts; the zero-width space and zero-width no-break space are not in it |
| Strings.TrimStart | src/pipeline/movies.py:60 | the result is a suffix of the input; everything removed is whitespace; the result does not start with whitespace |
| Strings.TrimEnd | src/pipeline/movies.py:60 | the result is a prefix of the input; everything removed is whitespace; the result does not end with whitespace |
| Strings.Strip | src/pipeline/movies.py:60 | `str.strip()` never lengthens the string and leaves no whitespace at either end |
| Strings.StripShape | src/pipeline/movies.py:60 | the stripped string is a contiguous piece of the input with only whitespace before and after it |
| Strings.StripKeepsTrimmed | src/pipeline/movies.py:60 | a string with no whitespace at either end is left as it is |
| Strings.StripRecovers | src/pipeline/movies.py:60 | for a trimmed string surrounded by any whitespace, `strip` returns that string, so the split above is unique |
| Strings.StripIdempotent | src/pipeline/movies.py:60 | stripping twice is the same as stripping once |
| Strings.RemoveAll | src/pipeline/movies.py:60 | `replace(pat, "")` never lengthens the string; it shortens it exactly when `pat` occurs, and leaves it unchanged otherwise |
| Strings.RemoveAllAfter | src/pipeline/movies.py:60 | an occurrence of a non-self-overlapping pattern right after a pattern-free stretch is removed, and the stretch is kept |
| Strings.BeforeFirst | src/pipeline/movies.py:55 | `split('/')[0]` is the longest prefix without a '/': a prefix with no '/', followed by '/' or by the end |
| Clean.OrZero | src/pipeline/movies.py:63-69 | `.get(key, 0)`: the integer `0` exactly when the key is missing, and the response's value otherwise |
| Clean.OrZeroRoundTrip | src/pipeline/movies.py:63-69 | `.get(key, 0)` loses nothing: reading the field back gives the original optional value, and the other way round |
| Clean.ImdbRating | src/pipeline/movies.py:50-56 | absent exactly when no entry's source is "Internet Movie Database"; otherwise the first such entry's value before its first '/' |
| Clean.ImdbRatingExample | src/pipeline/movies.py:50-56 | "8.8/10" from that source gives "8.8", and any other source gives no rating |
| Clean.CleanRuntime | src/pipeline/movies.py:57-60 | absent exactly when the key is missing or empty; otherwise a string with no whitespace at either end, no longer than the raw value |
| Clean.RuntimeDropsUnit | src/pipeline/movies.py:57-60 | a value d + " min", where d has no " min", becomes d stripped |
| Clean.RuntimeMinutes | src/pipeline/movies.py:57-60 | digits + " min", such as "142 min", become the digits alone, still a string |
| Clean.RuntimeWithoutUnit | src/pipeline/movies.py:57-60 | a non-empty value without " min", such as "N/A", is only stripped |
| Clean.CleanMovie | src/pipeline/movies.py:62-71 | each of title, year, rated, genre, country and awards reads back as the response's value, or as missing where it was `0`; a record is always produced |
| Clean.CleanMovieDerived | src/pipeline/movies.py:49-71 | in the record, the running time is absent exactly when the response has none or an empty one, and the IMDb rating exactly when there is no `Ratings` list or no entry from that source; when present, they are the cleaned running time and the first IMDb rating (a missing `Ratings` read as an empty list) |
| Clean.CleanMovieExample | src/pipeline/movies.py:49-71 | a response with running time "142 min" and one IMDb rating "8.8/10" gives a record with running time "142" and rating "8.8" |
| Clean.CleanMovieIgnoresOthers | src/pipeline/movies.py:62-71 | response keys other than the eight read ones do not change the result |
| Clean.CleanMovieNotFound | src/pipeline/movies.py:62-71 | a response with none of the read keys still gives a record: `0` in every copied field, with running time and rating absent |
| Driver.Handle | src/pipeline/movies.py:91-97 | the body of the `try`: an entry fails exactly when its request raised a request error, and otherwise holds the response as `clean_movie_data` cleans it |
| Driver.StartIndex | src/pipeline/movies.py:79-82 | the cursor is reset to 0 when today differs from the saved date, and kept on the saved date |
| Driver.WindowEnd | src/pipeline/movies.py:86-100 | the cursor a run saves never lies before where it started; when the start is inside the catalog it is `min(start + 5, len)`, at most 5 entries on, and otherwise the start itself, because the loop does not run |
| Driver.Iterate | src/pipeline/movies.py:88-99 | `range(i, end)`: entries i..end-1 are handled in order, once each, each with its own lookup's outcome |
| Driver.RunDeterministic | src/pipeline/movies.py:75-100 | a checkpoint, date, catalog and set of lookup outcomes determine the run: any two results meeting its description are equal |
| Driver.Run | src/pipeline/movies.py:75-100 | saved date is today; start is 0 on a new day and the saved cursor otherwise; handles exactly entries start..min(start+5, len)-1 in order, each with its lookup's outcome; saved cursor is the window end, or start when start is at or past the end of the catalog |
| Driver.ProcessWindow | src/pipeline/movies.py:88-99 | the `for` loop handles each index of the window once, in order, and leaves the cursor at the window's end |
| Driver.ProcessEntries | src/pipeline/movies.py:75-100 | the flow as written once the catalog is read, with the cursor set to i + 1 after every entry, meets the same description of a run as `Run`: new-day reset, window of at most 5, saved cursor and date |
| Driver.ProcessMovies | src/pipeline/movies.py:74-100 | the whole flow: the catalog read from the CSV's title column, row by row, is processed as one run |
| Driver.NewDayIgnoresCursor | src/pipeline/movies.py:79-82 | on a date other than the saved one, the run is the same as from cursor 0, whatever the saved cursor |
| Driver.FailureIsolated | src/pipeline/movies.py:88-99 | a failed lookup of one entry changes only that entry's outcome, to failed; the checkpoint is the same and ends past the entry |
| Driver.SameDayMonotone | src/pipeline/movies.py:86-100 | on the day it was saved, a run never moves the cursor back |
| Driver.SameDayFixpoint | src/pipeline/movies.py:86-100 | once the cursor reaches the end of the catalog, further runs that day handle nothing and save the same checkpoint |
| Driver.ResumeWithinDay | src/pipeline/movies.py:86-100 | n runs on the same day handle the next min(5n, rest) entries once each, in order, and leave the cursor after them |
| Driver.NewDayCoversCatalog | src/pipeline/movies.py:79-100 | from any checkpoint of an earlier day, n runs handle entries 0..min(5n, len)-1 once each, in order |
| Driver.SevenRowScenario | src/pipeline/movies.py:79-100 | for seven rows, the runs of one day handle 0..4 then 5..6, a third run does nothing, and the next day starts again at 0 |

## Left out

- HTTP lookups (lines 36-46) are not modelled. They are a network client, so each entry's lookup is an input outcome per catalog index: a decoded response or a request error.
- The URL the lookup builds from title and year is not modelled. Neither is the "nan" an absent title or year would put into it.
- Reading and writing the checkpoint file (lines 14-23) are file I/O, so the checkpoint is a value passed in and returned. Its default `{0, ""}` is `Driver.FreshState`.
- Reading the CSV file (line 26) is file I/O, so the catalog's title column is passed in as a sequence of strings. A missing cell, which pandas reads as `NaN`, is not modelled.
- `datetime.date.today()` (line 79) reads the clock, so today's date is a parameter.
- Prefect tasks and flows, the logger, `print` and the hourly `serve` schedule are orchestration and output, not decision logic.
- Errors other than a request error propagate out of a run in the source, so they are not modelled. Among them:
  - an IMDb rating entry whose `Value` is missing or not a string, since `split` is then called on it;
  - a decoded response that is not a JSON object, since `.get` is then called on it;
  - a `Ratings` value that is `null`, a number or a boolean, or that yields entries which are not objects;
  - a `Runtime` that is truthy but not a string, such as a number, since `replace` is then called on it;
  - a checkpoint file that is missing a key or is not valid JSON.
- Clean.RawMovie: each copied field is a string or missing. `.get(key, 0)` never raises, so a present JSON `null` or number is copied unchanged in the source. The model has no such values, and a `null` cannot be told apart from a missing key, which gives `0`.
- Clean.CleanRuntime: a falsy `Runtime` that is not a string, such as `null` or `0`, gives no running time, the same as a missing or empty one. The model writes all of these as a missing value.
- Clean.ImdbRating: `Ratings` is a list of entries or missing. An empty object `{}` iterates nothing, which is the same as an empty list. Rating values are strings.
- Driver.State: the saved cursor is a natural number. The program only ever saves `0`, a loaded cursor, or `i + 1`, so a negative cursor can only come from an edited file. Python would then read rows from the end of the catalog through negative indexing, and raise an error when the cursor is below minus the catalog length. This is not modelled.
- Catalog.ParseTitle: `\d` is modelled as ASCII digits. Python also matches the other Unicode decimal digits, so a year written in such digits is a non-match here.
- Strings.RemoveAll: requires a non-empty pattern. `str.replace` with an empty pattern is never used.
- Driver.RunsOnDay: uses one lookup outcome per index for every run of the day. Within a day each index is looked up at most once, so nothing is lost.
