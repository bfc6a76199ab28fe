/** The movie table and the activity history of the movie manager, as values.

    A table row holds six text cells, in the order of the grid's columns: title,
    year, genre, rating, watched and favorite. The history is the list of log lines
    written by the four mutating operations, oldest first. This module gives each
    operation as a function from the old state to the new one; the class in module
    Manager performs the same steps in place and is specified by these functions. */
module Movies {
  import opened Text

  /** The genre combo box's items, in order. */
  const GenreOptions: seq<string> :=
    ["Action", "Comedy", "Drama", "Fantasy", "Horror", "Romance", "Sci-Fi", "Thriller"]

  /** The rating combo box's items, `str(i)` for i from 1 to 10 (see
      RatingOptionsAreOneToTen). */
  const RatingOptions: seq<string> := ["1", "2", "3", "4", "5", "6", "7", "8", "9", "10"]

  /** Cell texts for the two marks. */
  const Yes := "Ya"
  const NotWatched := "Belum"
  const NotFavorite := "Tidak"

  /** One row of the table; every cell is kept as the text shown in the grid. */
  datatype Movie = Movie(
    title: string, year: string, genre: string, rating: string,
    watched: string, favorite: string)

  /** The state the operations work on: the rows in display order and the
      history. */
  datatype Table = Table(rows: seq<Movie>, history: seq<string>)

  const EmptyTable := Table([], [])

  /** The invariant every row keeps: a title that is not blank, a year made of
      digits only, a genre and a rating taken from the combo boxes, and marks
      that are either their initial text or "Ya". */
  predicate ValidMovie(m: Movie) {
    && !IsBlank(m.title)
    && IsDigitString(m.year)
    && m.genre in GenreOptions
    && m.rating in RatingOptions
    && (m.watched == NotWatched || m.watched == Yes)
    && (m.favorite == NotFavorite || m.favorite == Yes)
  }

  predicate ValidTable(t: Table) {
    forall i :: 0 <= i < |t.rows| ==> ValidMovie(t.rows[i])
  }

  // ---------------------------------------------------------------------------
  // Log lines

  const AddPrefix := "Tambah Film: "
  const DeletePrefix := "Hapus Film: "
  const WatchedPrefix := "Tandai Sudah Ditonton: "
  const FavoritePrefix := "Favoritkan Film: "

  function AddEntry(title: string, year: string, genre: string, rating: string): string {
    AddPrefix + title + " (" + year + ", " + genre + ", Rating: " + rating + ")"
  }

  function DeleteEntry(title: string): string {
    DeletePrefix + title
  }

  function WatchedEntry(title: string): string {
    WatchedPrefix + title
  }

  function FavoriteEntry(title: string): string {
    FavoritePrefix + title
  }

  /** A line one of the four operations writes, for some title (and, for an
      add, some year, genre and rating). */
  ghost predicate IsLogLine(e: string) {
    || (exists title, year, genre, rating :: e == AddEntry(title, year, genre, rating))
    || (exists title :: e == DeleteEntry(title))
    || (exists title :: e == WatchedEntry(title))
    || (exists title :: e == FavoriteEntry(title))
  }

  datatype EntryKind = AddKind | DeleteKind | WatchedKind | FavoriteKind | Unrecognised

  /** The kind of operation a log line reports, read off its prefix. */
  function KindOf(e: string): EntryKind {
    if AddPrefix <= e then AddKind
    else if DeletePrefix <= e then DeleteKind
    else if WatchedPrefix <= e then WatchedKind
    else if FavoritePrefix <= e then FavoriteKind
    else Unrecognised
  }

  /** Every log line names its operation and its movie: the kind is recovered
      from the line, and the title stands right after the prefix (for an add,
      followed by year, genre and rating in that order, and a closing
      parenthesis at the end). */
  lemma EntriesAreReadable(title: string, year: string, genre: string, rating: string)
    ensures var e := AddEntry(title, year, genre, rating);
      && KindOf(e) == AddKind
      && e[|AddPrefix|..|AddPrefix| + |title|] == title
      && e[|AddPrefix| + |title| + 2..|AddPrefix| + |title| + 2 + |year|] == year
      && (var g := |AddPrefix| + |title| + 2 + |year| + 2; e[g..g + |genre|] == genre)
      && e[|e| - 1 - |rating|..|e| - 1] == rating
      && e[|e| - 1] == ')'
    ensures KindOf(DeleteEntry(title)) == DeleteKind && DeleteEntry(title)[|DeletePrefix|..] == title
    ensures KindOf(WatchedEntry(title)) == WatchedKind && WatchedEntry(title)[|WatchedPrefix|..] == title
    ensures KindOf(FavoriteEntry(title)) == FavoriteKind && FavoriteEntry(title)[|FavoritePrefix|..] == title
  {
    var e := AddEntry(title, year, genre, rating);
    assert AddPrefix <= e;
    assert !(AddPrefix <= DeleteEntry(title)) by {
      assert DeleteEntry(title)[0] != AddPrefix[0];
    }
    assert !(AddPrefix <= WatchedEntry(title)) by {
      assert WatchedEntry(title)[2] != AddPrefix[2];
    }
    assert !(DeletePrefix <= WatchedEntry(title)) by {
      assert WatchedEntry(title)[0] != DeletePrefix[0];
    }
    var f := FavoriteEntry(title);
    assert !(AddPrefix <= f) && !(DeletePrefix <= f) && !(WatchedPrefix <= f) by {
      assert f[0] == 'F';
    }
  }

  // ---------------------------------------------------------------------------
  // Adding a movie

  datatype AddError =
    | TitleOrYearBlank  // "Judul dan Tahun film harus diisi!"
    | YearNotDigits     // "Tahun harus berupa angka!"

  datatype AddOutcome = Added | Rejected(error: AddError)

  /** The two checks of addMovie, in their order: first that neither the title
      nor the year strips to the empty string, then that the untrimmed year is
      all digits. */
  function CheckInput(title: string, year: string): (r: AddOutcome)
    ensures r == Added <==> !IsBlank(title) && IsDigitString(year)
    ensures r == Rejected(TitleOrYearBlank) <==> IsBlank(title) || IsBlank(year)
    ensures r == Rejected(YearNotDigits) <==>
      !IsBlank(title) && !IsBlank(year) && !IsDigitString(year)
  {
    DigitStringIsStripped(year);
    if Strip(title) == "" || Strip(year) == "" then Rejected(TitleOrYearBlank)
    else if !IsDigitString(year) then Rejected(YearNotDigits)
    else Added
  }

  /** The row addMovie inserts: the given cells and both marks unset. */
  function NewMovie(title: string, year: string, genre: string, rating: string): Movie {
    Movie(title, year, genre, rating, NotWatched, NotFavorite)
  }

  /** The row addMovie inserts for accepted input, with a genre and a rating
      from the combo boxes, satisfies the row invariant. */
  lemma NewMovieIsValid(title: string, year: string, genre: string, rating: string)
    requires CheckInput(title, year) == Added
    requires genre in GenreOptions && rating in RatingOptions
    ensures ValidMovie(NewMovie(title, year, genre, rating))
  {
  }

  /** addMovie: on accepted input one row goes at the end of the table and one
      line at the end of the history; on rejected input nothing changes. */
  function AfterAdd(t: Table, title: string, year: string, genre: string, rating: string): (r: Table)
    ensures CheckInput(title, year) != Added ==> r == t
    ensures CheckInput(title, year) == Added ==>
      && |r.rows| == |t.rows| + 1
      && r.rows[..|t.rows|] == t.rows
      && r.rows[|t.rows|] == NewMovie(title, year, genre, rating)
      && |r.history| == |t.history| + 1
      && r.history[..|t.history|] == t.history
      && r.history[|t.history|] == AddEntry(title, year, genre, rating)
  {
    if CheckInput(title, year) == Added then
      Table(t.rows + [NewMovie(title, year, genre, rating)],
            t.history + [AddEntry(title, year, genre, rating)])
    else t
  }

  // ---------------------------------------------------------------------------
  // The selection-based operations. `sel` is the table's current row, -1 when
  // no row is selected.

  datatype SelectOutcome =
    | Done
    | NoSelection  // a warning asking to select a row first
    | Cancelled    // the delete confirmation was answered "No"

  predicate IsSelection(t: Table, sel: int) {
    -1 <= sel < |t.rows|
  }

  function DeleteOutcome(sel: int, confirm: bool): SelectOutcome {
    if sel >= 0 then (if confirm then Done else Cancelled) else NoSelection
  }

  function MarkOutcome(sel: int): SelectOutcome {
    if sel >= 0 then Done else NoSelection
  }

  /** deleteMovie: when a row is selected and the removal is confirmed, that row
      goes, the rows after it move up by one, and the history gains one line
      naming the removed title. Otherwise nothing changes. */
  function AfterDelete(t: Table, sel: int, confirm: bool): (r: Table)
    requires IsSelection(t, sel)
    ensures !(0 <= sel && confirm) ==> r == t
    ensures 0 <= sel && confirm ==>
      && |r.rows| == |t.rows| - 1
      && (forall i :: 0 <= i < sel ==> r.rows[i] == t.rows[i])
      && (forall i :: sel <= i < |r.rows| ==> r.rows[i] == t.rows[i + 1])
      && r.history == t.history + [DeleteEntry(t.rows[sel].title)]
  {
    if sel >= 0 && confirm then
      RemoveAt(t.rows, sel);
      Table(t.rows[..sel] + t.rows[sel + 1..], t.history + [DeleteEntry(t.rows[sel].title)])
    else t
  }

  /** The delete outcome says whether the state changed: it is Done exactly
      when deleteMovie changes the table, and NoSelection or Cancelled exactly
      when it leaves the table as it was. */
  lemma DeleteOutcomeMatchesEffect(t: Table, sel: int, confirm: bool)
    requires IsSelection(t, sel)
    ensures DeleteOutcome(sel, confirm) == Done <==> AfterDelete(t, sel, confirm) != t
  {
    if sel >= 0 && confirm {
      assert |AfterDelete(t, sel, confirm).rows| != |t.rows|;
    }
  }

  /** Removing the element at `k` keeps the elements before it and moves those
      after it down by one. */
  lemma RemoveAt<T>(s: seq<T>, k: int)
    requires 0 <= k < |s|
    ensures var r := s[..k] + s[k + 1..];
      && |r| == |s| - 1
      && (forall i :: 0 <= i < k ==> r[i] == s[i])
      && (forall i :: k <= i < |r| ==> r[i] == s[i + 1])
  {
  }

  /** markAsWatched: the selected row's watched cell becomes "Ya", every other
      cell and row stays, and the history gains one line naming the title. With
      no selection nothing changes. */
  function AfterMarkWatched(t: Table, sel: int): (r: Table)
    requires IsSelection(t, sel)
    ensures sel < 0 ==> r == t
    ensures 0 <= sel ==>
      && |r.rows| == |t.rows|
      && r.rows[sel] == t.rows[sel].(watched := Yes)
      && (forall i :: 0 <= i < |t.rows| && i != sel ==> r.rows[i] == t.rows[i])
      && r.history == t.history + [WatchedEntry(t.rows[sel].title)]
  {
    if sel >= 0 then
      Table(t.rows[sel := t.rows[sel].(watched := Yes)], t.history + [WatchedEntry(t.rows[sel].title)])
    else t
  }

  /** markAsFavorite: as markAsWatched, for the favorite cell. */
  function AfterMarkFavorite(t: Table, sel: int): (r: Table)
    requires IsSelection(t, sel)
    ensures sel < 0 ==> r == t
    ensures 0 <= sel ==>
      && |r.rows| == |t.rows|
      && r.rows[sel] == t.rows[sel].(favorite := Yes)
      && (forall i :: 0 <= i < |t.rows| && i != sel ==> r.rows[i] == t.rows[i])
      && r.history == t.history + [FavoriteEntry(t.rows[sel].title)]
  {
    if sel >= 0 then
      Table(t.rows[sel := t.rows[sel].(favorite := Yes)], t.history + [FavoriteEntry(t.rows[sel].title)])
    else t
  }

  /** The mark outcome says whether a line was logged: it is Done exactly when
      markAsWatched (or markAsFavorite) appends one line to the history, and
      NoSelection exactly when the history stays as it was. */
  lemma MarkOutcomeMatchesEffect(t: Table, sel: int)
    requires IsSelection(t, sel)
    ensures MarkOutcome(sel) == Done <==> |AfterMarkWatched(t, sel).history| == |t.history| + 1
    ensures MarkOutcome(sel) == Done <==> |AfterMarkFavorite(t, sel).history| == |t.history| + 1
    ensures MarkOutcome(sel) == NoSelection <==> AfterMarkWatched(t, sel) == t
    ensures MarkOutcome(sel) == NoSelection <==> AfterMarkFavorite(t, sel) == t
  {
  }

  // ---------------------------------------------------------------------------
  // Properties of single operations

  /** The rating items are `str(i)` for i from 1 to 10, in order: each is the
      decimal numeral of its position plus one. */
  lemma RatingOptionsAreOneToTen()
    ensures |RatingOptions| == 10
    ensures forall i :: 0 <= i < |RatingOptions| ==> RatingOptions[i] == NatToString(i + 1)
    ensures forall i :: 0 <= i < |RatingOptions| ==>
      IsDigitString(RatingOptions[i]) && DigitsValue(RatingOptions[i]) == i + 1
  {
    assert NatToString(10) == NatToString(1) + [DigitChar(0)];
    forall i | 0 <= i < |RatingOptions|
      ensures RatingOptions[i] == NatToString(i + 1)
      ensures IsDigitString(RatingOptions[i]) && DigitsValue(RatingOptions[i]) == i + 1
    {
      NatToStringRoundTrip(i + 1);
    }
  }

  /** Each operation keeps every row valid. */
  lemma AddKeepsValid(t: Table, title: string, year: string, genre: string, rating: string)
    requires ValidTable(t) && genre in GenreOptions && rating in RatingOptions
    ensures ValidTable(AfterAdd(t, title, year, genre, rating))
  {
    var r := AfterAdd(t, title, year, genre, rating);
    if CheckInput(title, year) == Added {
      forall i | 0 <= i < |r.rows| ensures ValidMovie(r.rows[i]) {
        if i < |t.rows| {
          assert r.rows[i] == r.rows[..|t.rows|][i];
        }
      }
    }
  }

  lemma DeleteKeepsValid(t: Table, sel: int, confirm: bool)
    requires ValidTable(t) && IsSelection(t, sel)
    ensures ValidTable(AfterDelete(t, sel, confirm))
  {
    var r := AfterDelete(t, sel, confirm);
    if sel >= 0 && confirm {
      forall i | 0 <= i < |r.rows| ensures ValidMovie(r.rows[i]) {
        if i >= sel {
          assert r.rows[i] == t.rows[i + 1];
        }
      }
    }
  }

  lemma MarksKeepValid(t: Table, sel: int)
    requires ValidTable(t) && IsSelection(t, sel)
    ensures ValidTable(AfterMarkWatched(t, sel))
    ensures ValidTable(AfterMarkFavorite(t, sel))
  {
  }

  /** Marking is idempotent on the rows, but the history is not deduplicated:
      marking the same row twice leaves the table as marking it once, with one
      more line in the history. */
  lemma MarkTwice(t: Table, sel: int)
    requires IsSelection(t, sel)
    ensures var once := AfterMarkWatched(t, sel);
      var twice := AfterMarkWatched(once, sel);
      && twice.rows == once.rows
      && (0 <= sel ==> twice.history == once.history + [WatchedEntry(t.rows[sel].title)])
    ensures var once := AfterMarkFavorite(t, sel);
      var twice := AfterMarkFavorite(once, sel);
      && twice.rows == once.rows
      && (0 <= sel ==> twice.history == once.history + [FavoriteEntry(t.rows[sel].title)])
  {
  }

  // ---------------------------------------------------------------------------
  // Sequences of user actions

  /** One user action: a click on one of the four buttons, with the inputs the
      widgets hold at that moment. */
  datatype Action =
    | AddAction(title: string, year: string, genre: string, rating: string)
    | DeleteAction(sel: int, confirm: bool)
    | MarkWatchedAction(sel: int)
    | MarkFavoriteAction(sel: int)

  /** What the widgets guarantee about an action: the combo boxes hold one of
      their items and the current row is -1 or a row of the table. */
  predicate Enabled(t: Table, a: Action) {
    match a
    case AddAction(_, _, genre, rating) => genre in GenreOptions && rating in RatingOptions
    case DeleteAction(sel, _) => IsSelection(t, sel)
    case MarkWatchedAction(sel) => IsSelection(t, sel)
    case MarkFavoriteAction(sel) => IsSelection(t, sel)
  }

  /** The kind of log line an action writes when it changes the state. */
  function KindOfAction(a: Action): EntryKind {
    match a
    case AddAction(_, _, _, _) => AddKind
    case DeleteAction(_, _) => DeleteKind
    case MarkWatchedAction(_) => WatchedKind
    case MarkFavoriteAction(_) => FavoriteKind
  }

  function Step(t: Table, a: Action): Table
    requires Enabled(t, a)
  {
    match a
    case AddAction(title, year, genre, rating) => AfterAdd(t, title, year, genre, rating)
    case DeleteAction(sel, confirm) => AfterDelete(t, sel, confirm)
    case MarkWatchedAction(sel) => AfterMarkWatched(t, sel)
    case MarkFavoriteAction(sel) => AfterMarkFavorite(t, sel)
  }

  /** Each action in turn is enabled in the state the earlier ones leave. */
  predicate Feasible(t: Table, acts: seq<Action>)
    decreases |acts|
  {
    acts == [] || (Enabled(t, acts[0]) && Feasible(Step(t, acts[0]), acts[1..]))
  }

  function Run(t: Table, acts: seq<Action>): Table
    requires Feasible(t, acts)
    decreases |acts|
  {
    if acts == [] then t else Run(Step(t, acts[0]), acts[1..])
  }

  /** One action either leaves the state alone or appends exactly one line to the
      history, a log line of the kind of the action; that line is the only
      change to the history. */
  lemma StepLogsOnce(t: Table, a: Action)
    requires Enabled(t, a)
    ensures var r := Step(t, a);
      || r == t
      || (&& |r.history| == |t.history| + 1
          && r.history[..|t.history|] == t.history
          && KindOf(r.history[|t.history|]) == KindOfAction(a)
          && IsLogLine(r.history[|t.history|]))
  {
    match a
    case AddAction(title, year, genre, rating) =>
      EntriesAreReadable(title, year, genre, rating);
    case DeleteAction(sel, confirm) =>
      if 0 <= sel { EntriesAreReadable(t.rows[sel].title, "", "", ""); }
    case MarkWatchedAction(sel) =>
      if 0 <= sel { EntriesAreReadable(t.rows[sel].title, "", "", ""); }
    case MarkFavoriteAction(sel) =>
      if 0 <= sel { EntriesAreReadable(t.rows[sel].title, "", "", ""); }
  }

  /** Every action keeps every row valid. */
  lemma StepKeepsValid(t: Table, a: Action)
    requires ValidTable(t) && Enabled(t, a)
    ensures ValidTable(Step(t, a))
  {
    match a
    case AddAction(title, year, genre, rating) => AddKeepsValid(t, title, year, genre, rating);
    case DeleteAction(sel, confirm) => DeleteKeepsValid(t, sel, confirm);
    case MarkWatchedAction(sel) => MarksKeepValid(t, sel);
    case MarkFavoriteAction(sel) => MarksKeepValid(t, sel);
  }

  /** Over any run of actions every row stays valid. */
  lemma {:induction false} RunKeepsValid(t: Table, acts: seq<Action>)
    requires ValidTable(t) && Feasible(t, acts)
    ensures ValidTable(Run(t, acts))
    decreases |acts|
  {
    if acts != [] {
      StepKeepsValid(t, acts[0]);
      RunKeepsValid(Step(t, acts[0]), acts[1..]);
    }
  }

  /** The history is append-only: over any run of actions the old history stays
      a prefix, at most one line is added per action, and every added line is a
      log line of one of the four operations. */
  lemma {:induction false} RunAppendsHistory(t: Table, acts: seq<Action>)
    requires Feasible(t, acts)
    ensures var r := Run(t, acts);
      && t.history <= r.history
      && |r.history| <= |t.history| + |acts|
      && forall i :: |t.history| <= i < |r.history| ==> IsLogLine(r.history[i])
    decreases |acts|
  {
    if acts != [] {
      var s := Step(t, acts[0]);
      StepLogsOnce(t, acts[0]);
      RunAppendsHistory(s, acts[1..]);
      var r := Run(t, acts);
      assert r == Run(s, acts[1..]);
      forall i | |t.history| <= i < |r.history| ensures IsLogLine(r.history[i]) {
        if i < |s.history| {
          assert r.history[i] == s.history[i];
        }
      }
    }
  }

  /** An example session, one operation at a time: add "Inception" (2010,
      Sci-Fi, 9) to an empty table, mark it watched, then delete it with
      confirmation. */
  lemma InceptionAdded()
    ensures AfterAdd(EmptyTable, "Inception", "2010", "Sci-Fi", "9") ==
      Table([Movie("Inception", "2010", "Sci-Fi", "9", "Belum", "Tidak")],
            ["Tambah Film: Inception (2010, Sci-Fi, Rating: 9)"])
  {
    InceptionAccepted();
    InceptionEntries();
  }

  lemma InceptionWatched()
    ensures AfterMarkWatched(
        Table([Movie("Inception", "2010", "Sci-Fi", "9", "Belum", "Tidak")],
              ["Tambah Film: Inception (2010, Sci-Fi, Rating: 9)"]), 0) ==
      Table([Movie("Inception", "2010", "Sci-Fi", "9", "Ya", "Tidak")],
            ["Tambah Film: Inception (2010, Sci-Fi, Rating: 9)",
             "Tandai Sudah Ditonton: Inception"])
  {
    InceptionEntries();
  }

  lemma InceptionDeleted()
    ensures AfterDelete(
        Table([Movie("Inception", "2010", "Sci-Fi", "9", "Ya", "Tidak")],
              ["Tambah Film: Inception (2010, Sci-Fi, Rating: 9)",
               "Tandai Sudah Ditonton: Inception"]), 0, true) ==
      Table([], ["Tambah Film: Inception (2010, Sci-Fi, Rating: 9)",
                 "Tandai Sudah Ditonton: Inception", "Hapus Film: Inception"])
  {
    InceptionEntries();
  }

  lemma InceptionAccepted()
    ensures CheckInput("Inception", "2010") == Added
  {
    assert !IsSpace("Inception"[0]);
    assert IsDigitString("2010");
  }

  lemma InceptionEntries()
    ensures AddEntry("Inception", "2010", "Sci-Fi", "9")
      == "Tambah Film: Inception (2010, Sci-Fi, Rating: 9)"
    ensures WatchedEntry("Inception") == "Tandai Sudah Ditonton: Inception"
    ensures DeleteEntry("Inception") == "Hapus Film: Inception"
  {
    assert AddPrefix + "Inception" == "Tambah Film: Inception";
    assert "Tambah Film: Inception" + " (" + "2010" == "Tambah Film: Inception (2010";
    assert "Tambah Film: Inception (2010" + ", " + "Sci-Fi" == "Tambah Film: Inception (2010, Sci-Fi";
    assert "Tambah Film: Inception (2010, Sci-Fi" + ", Rating: " + "9" + ")"
        == "Tambah Film: Inception (2010, Sci-Fi, Rating: 9)";
  }

  /** Inputs that are rejected: a blank title, and years that are not plain
      digit strings (a Roman numeral, a leading space, a sign, a trailing
      space). */
  lemma BlankTitleRejected()
    ensures CheckInput("  ", "2020") == Rejected(TitleOrYearBlank)
  {
    assert IsBlank("  ");
  }

  lemma NonDigitYearsRejected()
    ensures CheckInput("Dune", "MMXXI") == Rejected(YearNotDigits)
    ensures CheckInput("Dune", " 2021") == Rejected(YearNotDigits)
    ensures CheckInput("Dune", "-5") == Rejected(YearNotDigits)
    ensures CheckInput("Dune", "2021 ") == Rejected(YearNotDigits)
  {
    var title := "Dune";
    assert !IsSpace(title[0]);
    assert !IsSpace("MMXXI"[4]) && !IsSpace(" 2021"[4]) && !IsSpace("-5"[1]) && !IsSpace("2021 "[0]);
    NonDigitYearRejected(title, "MMXXI", 0);
    NonDigitYearRejected(title, " 2021", 0);
    NonDigitYearRejected(title, "-5", 0);
    NonDigitYearRejected(title, "2021 ", 4);
  }

  /** With a title that is not blank, a year that is not blank either but holds
      a character other than a digit at position `i` (a letter, a sign, or
      whitespace before, inside or after the digits) is refused with the "not
      a number" warning. */
  lemma NonDigitYearRejected(title: string, year: string, i: int)
    requires !IsBlank(title) && !IsBlank(year) && 0 <= i < |year| && !IsDigit(year[i])
    ensures CheckInput(title, year) == Rejected(YearNotDigits)
  {
  }

  // ---------------------------------------------------------------------------
  // The history dialog

  const NoActivity := "Belum ada aktivitas."

  /** The lines joined with a line feed between each two. */
  function JoinLines(lines: seq<string>): string
    decreases |lines|
  {
    if |lines| == 0 then ""
    else if |lines| == 1 then lines[0]
    else JoinLines(lines[..|lines| - 1]) + "\n" + lines[|lines| - 1]
  }

  /** The text showHistory displays: a placeholder for an empty history,
      otherwise the lines joined by line feeds. */
  function HistoryText(history: seq<string>): string {
    if history == [] then NoActivity else JoinLines(history)
  }

  /** Appending a log line extends the displayed text: the placeholder gives way to
      the line, or the line follows the earlier text after a line feed. */
  lemma HistoryTextGrows(history: seq<string>, e: string)
    ensures HistoryText([e]) == e
    ensures history != [] ==> HistoryText(history + [e]) == HistoryText(history) + "\n" + e
  {
    if history != [] {
      assert (history + [e])[..|history|] == history;
    }
  }
}
