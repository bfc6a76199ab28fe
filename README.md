# Movie Manager — a Dafny model

The movie manager is a small desktop program for keeping a personal list of
movies. Its main window holds a six-column table (title, year, genre, rating,
watched, favorite) and an activity history. Four buttons change that state:

- "Tambah Film" checks the inputs, adds a row at the end of the table and logs it.
- "Hapus Film" asks for confirmation, then logs the selected row's title and removes the row.
- "Tandai Ditonton" sets the selected row's watched cell to "Ya" and logs it.
- "Favoritkan" sets the selected row's favorite cell to "Ya" and logs it.

This project models that state and those four operations, and proves what they
guarantee. Each operation either changes nothing, or appends exactly one log
line and changes at most the row it names (a delete also moves the later rows up
by one). Every row keeps its invariant: a title that is not
blank, a year made of digits, a genre from the genre list and a rating from "1"
to "10".

The project has three modules:

- `Text` (text.dfy) models Python's `str.strip()`, `str.isdigit()` and `str(int)` on ASCII text.
- `Movies` (movies.dfy) gives the data model and the log lines, with each operation as a function from the old state to the new one. It also holds the lemmas: each operation keeps the row invariant, marking is idempotent, and over any sequence of user actions the history is append-only. Three lemmas replay an example session: add "Inception" (2010, Sci-Fi, 9), mark it watched, then delete it.
- `Manager` (manager.dfy) holds the class `MovieManager`, with fields `rows` and `history` and one method per button. Each method updates the fields step by step, as the handler does. Its contract ties the new state to the matching function of `Movies`.

The widgets become parameters:

- the text fields and combo boxes become the arguments of `AddMovie`;
- the table's current row becomes `sel`, which is -1 when no row is selected;
- the answer to the "Apakah yakin ingin menghapus film ini?" dialog becomes `confirm`.

The model keeps main.py's own encoding:

- Blank title and blank year share one error, `TitleOrYearBlank`, as they share one warning in main.py:138-140.
- The year is the raw text of its input field. It must pass `isdigit()` untrimmed, so " 2010" and "-5" are rejected.
- Watched and favorite are the cell texts: "Belum" and "Tidak" initially, "Ya" once marked.
- The log lines are in Indonesian ("Tambah Film: …", "Hapus Film: …", "Tandai Sudah Ditonton: …", "Favoritkan Film: …").
- Delete, mark-watched and mark-favorite test only `sel >= 0`. The table itself keeps the current row below the row count, so the model states that as the callers' precondition `-1 <= sel < |rows|`.
- Declining the delete confirmation shows no message and changes nothing (`Cancelled`).

## Model

| member | source | states |
|---|---|---|
| Text.TrimStart | main.py:138 | the result is a suffix of the input, everything dropped is whitespace, and the result does not start with whitespace |
| Text.TrimEnd | main.py:138 | the result is a prefix of the input, everything dropped is whitespace, and the result does not end with whitespace |
| Text.IsSpace | main.py:138 | definition: the ASCII characters `isspace()` accepts (9-13, 28-32) |
| Text.IsBlank | main.py:138 | definition: every character is whitespace, so `strip()` gives "" |
| Text.Strip | main.py:138 | `strip()` leaves the slice of the input that starts after its leading whitespace, with only whitespace before and after it; that slice neither starts nor ends with whitespace, and it is empty exactly when the input is blank |
| Text.IsDigitString | main.py:142 | definition: `isdigit()` holds iff the string is non-empty and every character is '0'..'9' |
| Text.DigitStringIsStripped | main.py:138-142 | a string that passes `isdigit()` is not blank and `strip()` leaves it as it is, so the digit check subsumes the blank check for the year |
| Text.NatToString | main.py:63 | `str(n)` is a non-empty digit string without a leading zero (except for 0 itself) |
| Text.NatToStringRoundTrip | main.py:63 | reading `str(n)` back as a decimal numeral gives n |
| Movies.GenreOptions | main.py:59 | definition: the eight genre items, in combo box order |
| Movies.RatingOptions | main.py:63 | definition: the ten rating items "1".."10" |
| Movies.ValidMovie | main.py:130-160 | definition: the row invariant: a non-blank title, a digit-string year, a genre and a rating from the combo boxes, and watched/favorite cells "Belum"/"Ya" and "Tidak"/"Ya" |
| Movies.ValidTable | main.py:130-192 | definition: every row satisfies the row invariant |
| Movies.AddEntry | main.py:160 | definition: the add log line "Tambah Film: title (year, genre, Rating: rating)" |
| Movies.DeleteEntry | main.py:171 | definition: the delete log line "Hapus Film: title" |
| Movies.WatchedEntry | main.py:181 | definition: the watched log line "Tandai Sudah Ditonton: title" |
| Movies.FavoriteEntry | main.py:190 | definition: the favorite log line "Favoritkan Film: title" |
| Movies.IsLogLine | main.py:160-190 | definition: a line of one of the four shapes the operations write, for some title (and year, genre and rating for an add) |
| Movies.RatingOptionsAreOneToTen | main.py:63 | the rating items are `str(i)` for i = 1..10 in order, each a digit string whose value is its position plus one |
| Movies.EntriesAreReadable | main.py:160-190 | each of the four log lines can be told apart by its prefix, and holds the movie's title right after the prefix; the add line also holds the year after " (", the genre after the following ", ", and ends with the rating and ")" |
| Movies.CheckInput | main.py:138-144 | input is accepted iff the title is not blank and the untrimmed year is all digits; the blank warning is given iff title or year is blank; the digits warning is given iff neither is blank and the year is not all digits |
| Movies.NewMovie | main.py:135-153 | definition: the inserted row holds the given title, year, genre and rating, with watched "Belum" and favorite "Tidak" |
| Movies.NewMovieIsValid | main.py:130-153 | the row built from accepted input, with a genre and a rating from the combo boxes, satisfies the row invariant |
| Movies.AfterAdd | main.py:130-160 | rejected input changes nothing; accepted input appends exactly the new row at index old-length and exactly one "Tambah Film: title (year, genre, Rating: rating)" line, and all earlier rows and lines stay |
| Movies.DeleteOutcome | main.py:162-174 | definition: no selection gives the warning, a declined confirmation gives `Cancelled`, otherwise `Done` |
| Movies.DeleteOutcomeMatchesEffect | main.py:162-174 | the delete outcome is Done exactly when the table changes, so the warning and the cancelled confirmation leave it as it was |
| Movies.RemoveAt | main.py:172 | removing row k keeps the rows before it and moves each later row down by one |
| Movies.AfterDelete | main.py:162-174 | without a selection or without confirmation nothing changes; otherwise the length drops by one, rows before `sel` stay, rows after it move up one, and exactly one "Hapus Film: title" line naming the removed row is appended |
| Movies.MarkOutcome | main.py:176-192 | definition: no selection gives the warning, otherwise `Done` |
| Movies.MarkOutcomeMatchesEffect | main.py:176-192 | the mark outcome is Done exactly when one line is appended to the history, and is the warning exactly when nothing changes |
| Movies.AfterMarkWatched | main.py:176-183 | without a selection nothing changes; otherwise only the watched cell of row `sel` becomes "Ya", every other cell and row stays, and one "Tandai Sudah Ditonton: title" line is appended |
| Movies.AfterMarkFavorite | main.py:185-192 | without a selection nothing changes; otherwise only the favorite cell of row `sel` becomes "Ya", every other cell and row stays, and one "Favoritkan Film: title" line is appended |
| Movies.AddKeepsValid | main.py:130-153 | adding keeps every row valid, given a genre and rating from the combo boxes |
| Movies.DeleteKeepsValid | main.py:162-172 | deleting keeps every row valid |
| Movies.MarksKeepValid | main.py:176-192 | marking watched or favorite keeps every row valid |
| Movies.MarkTwice | main.py:176-192 | marking the same row twice leaves the rows as marking it once, and the second call still appends its own log line |
| Movies.KindOfAction | main.py:160-190 | definition: the log line kind each button writes: add, delete, watched or favorite |
| Movies.StepLogsOnce | main.py:130-192 | any single action either leaves rows and history alone or appends exactly one log line, of the kind that action writes and of one of the four log-line shapes, keeping the earlier lines |
| Movies.StepKeepsValid | main.py:130-192 | any single action keeps every row valid |
| Movies.RunKeepsValid | main.py:130-192 | over any sequence of actions every row stays valid |
| Movies.RunAppendsHistory | main.py:130-192 | over any sequence of actions the old history stays a prefix, at most one line is added per action, and every added line is one of the four log lines |
| Movies.InceptionAdded | main.py:130-160 | adding "Inception" (2010, Sci-Fi, 9) to an empty table gives one row with "Belum"/"Tidak" and the add line |
| Movies.InceptionWatched | main.py:176-181 | marking that row watched sets its watched cell to "Ya" and appends the watched line |
| Movies.InceptionDeleted | main.py:162-172 | deleting it with confirmation empties the table and appends the delete line, giving three history lines |
| Movies.InceptionAccepted | main.py:138-144 | the inputs "Inception" and "2010" pass both checks |
| Movies.InceptionEntries | main.py:160-181 | the log lines of that session, spelled out |
| Movies.BlankTitleRejected | main.py:138-140 | a title of two spaces is refused with the blank warning |
| Movies.NonDigitYearsRejected | main.py:142-144 | the years "MMXXI", " 2021", "-5" and "2021 " are refused with the digits warning |
| Movies.NonDigitYearRejected | main.py:142-144 | a non-blank year holding any non-digit character is refused with the digits warning |
| Movies.JoinLines | main.py:202 | definition: the lines joined with a line feed between each two, as `"\n".join` does |
| Movies.HistoryText | main.py:198-203 | definition: "Belum ada aktivitas." for an empty history, the joined lines otherwise |
| Movies.HistoryTextGrows | main.py:198-203 | the history dialog text for one line is that line, and appending a line to a non-empty history appends a line feed and the line to the text |
| Manager.MovieManager.constructor | main.py:32 | the window starts with an empty table, an empty history and the invariant holding |
| Manager.MovieManager.AddMovie | main.py:130-160 | the outcome is `CheckInput`'s, the new rows and history are `AfterAdd` of the old ones, and the row invariant is kept |
| Manager.MovieManager.DeleteMovie | main.py:162-174 | the outcome is `DeleteOutcome`'s, the new rows and history are `AfterDelete` of the old ones, and the row invariant is kept |
| Manager.MovieManager.MarkAsWatched | main.py:176-183 | the outcome is `MarkOutcome`'s, the new rows and history are `AfterMarkWatched` of the old ones, and the row invariant is kept |
| Manager.MovieManager.MarkAsFavorite | main.py:185-192 | the outcome is `MarkOutcome`'s, the new rows and history are `AfterMarkFavorite` of the old ones, and the row invariant is kept |

## Left out

- Window setup, stylesheets, fonts, layouts, the buttons, the menu bar and the `__main__` entry (main.py:1-31, 34-49, 65-68, 76-128, 205-209) are presentation and have no state the operations use. The state set up there is modelled: the empty history (main.py:32) and the six table columns (main.py:69-75). The four input widgets (main.py:50-64) become the parameters of `AddMovie`, with the genre and rating items (main.py:59, 63) as `GenreOptions` and `RatingOptions`.
- The warning and information message boxes are not modelled as dialogs. Which warning appears is the method's outcome (`Rejected(...)` or `NoSelection`).
- The confirmation dialog (main.py:166-169) is the `confirm` parameter.
- Clearing the text fields and resetting the combo boxes after an add (main.py:155-158) is left out. It is widget state, and the next add receives its inputs as parameters.
- `showAbout` (main.py:194-196) only shows fixed text.
- `showHistory` (main.py:198-203) is modelled only as the text it would show (`HistoryText`), not as a dialog.
- Text.Strip: whitespace is the ASCII characters Python's `isspace()` accepts, not all of Unicode's whitespace, because the model has no Unicode character database.
- Text.IsDigitString: a digit is '0'..'9' only, while Python's `isdigit()` also accepts other Unicode digits such as superscripts, for the same reason. Movies.CheckInput inherits this.
- Manager.MovieManager.AddMovie: genre and rating come in as text that the caller guarantees is one of the combo box items. The combo boxes are not editable, so any other value cannot occur.
- Manager.MovieManager.DeleteMovie: the table's own bookkeeping of the current row is not modelled. The current row is assumed to be -1 or a row index, which is what `currentRow()` returns.
- The table as a Qt widget is not modelled: no cell objects and no missing cells. A row is a record of its six cell texts, and `insertRow`/`setItem`/`removeRow` become updates of the `rows` sequence.
