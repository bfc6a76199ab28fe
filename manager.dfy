/** The main window's state and its four button handlers, with the widgets
    replaced by parameters: the text fields and combo boxes become the arguments
    of AddMovie, the table's current row becomes `sel` (-1 when no row is
    selected) and the answer to the delete confirmation becomes `confirm`. */
module Manager {
  import opened Text
  import opened Movies

  class MovieManager {
    /** The table's rows, top to bottom. */
    var rows: seq<Movie>
    /** The activity history, oldest line first. */
    var history: seq<string>

    /** The rows and the history as one value. */
    function State(): Table
      reads this
    {
      Table(rows, history)
    }

    ghost predicate Valid()
      reads this
    {
      ValidTable(State())
    }

    /** The window starts with an empty table and an empty history. */
    constructor ()
      ensures Valid()
      ensures rows == [] && history == []
    {
      rows := [];
      history := [];
    }

    /** The "Tambah Film" button: check the inputs, then add the row at the end
        of the table and log it. A rejected input leaves everything as it was
        and reports which warning is shown. Implements `CheckInput` and
        `AfterAdd`. */
    method AddMovie(title: string, year: string, genre: string, rating: string)
      returns (outcome: AddOutcome)
      requires Valid()
      requires genre in GenreOptions && rating in RatingOptions
      modifies this
      ensures Valid()
      ensures outcome == CheckInput(title, year)
      ensures State() == AfterAdd(old(State()), title, year, genre, rating)
      ensures outcome != Added ==> rows == old(rows) && history == old(history)
      ensures outcome == Added ==>
        && rows == old(rows) + [NewMovie(title, year, genre, rating)]
        && history == old(history) + [AddEntry(title, year, genre, rating)]
    {
      if Strip(title) == "" || Strip(year) == "" {
        return Rejected(TitleOrYearBlank);
      }
      if !IsDigitString(year) {
        return Rejected(YearNotDigits);
      }
      assert CheckInput(title, year) == Added;
      AddKeepsValid(State(), title, year, genre, rating);
      rows := rows + [NewMovie(title, year, genre, rating)];
      history := history + [AddEntry(title, year, genre, rating)];
      outcome := Added;
    }

    /** The "Hapus Film" button: with a row selected and the removal confirmed,
        log the row's title and remove the row. Implements `DeleteOutcome` and
        `AfterDelete`. */
    method DeleteMovie(sel: int, confirm: bool) returns (outcome: SelectOutcome)
      requires Valid()
      requires -1 <= sel < |rows|
      modifies this
      ensures Valid()
      ensures outcome == DeleteOutcome(sel, confirm)
      ensures State() == AfterDelete(old(State()), sel, confirm)
      ensures outcome != Done ==> rows == old(rows) && history == old(history)
      ensures outcome == Done ==>
        && rows == old(rows[..sel] + rows[sel + 1..])
        && history == old(history) + [DeleteEntry(old(rows[sel].title))]
    {
      if sel >= 0 {
        var title := rows[sel].title;
        if confirm {
          ghost var after := AfterDelete(State(), sel, confirm);
          DeleteKeepsValid(State(), sel, confirm);
          history := history + [DeleteEntry(title)];
          rows := rows[..sel] + rows[sel + 1..];
          assert State() == after;
          outcome := Done;
        } else {
          outcome := Cancelled;
        }
      } else {
        outcome := NoSelection;
      }
    }

    /** The "Tandai Ditonton" button: set the selected row's watched cell to
        "Ya" and log its title. Implements `MarkOutcome` and
        `AfterMarkWatched`. */
    method MarkAsWatched(sel: int) returns (outcome: SelectOutcome)
      requires Valid()
      requires -1 <= sel < |rows|
      modifies this
      ensures Valid()
      ensures outcome == MarkOutcome(sel)
      ensures State() == AfterMarkWatched(old(State()), sel)
      ensures outcome != Done ==> rows == old(rows) && history == old(history)
      ensures outcome == Done ==>
        && rows == old(rows[sel := rows[sel].(watched := Yes)])
        && history == old(history) + [WatchedEntry(old(rows[sel].title))]
    {
      if sel >= 0 {
        MarksKeepValid(State(), sel);
        var title := rows[sel].title;
        rows := rows[sel := rows[sel].(watched := Yes)];
        history := history + [WatchedEntry(title)];
        outcome := Done;
      } else {
        outcome := NoSelection;
      }
    }

    /** The "Favoritkan" button: set the selected row's favorite cell to "Ya"
        and log its title. Implements `MarkOutcome` and `AfterMarkFavorite`. */
    method MarkAsFavorite(sel: int) returns (outcome: SelectOutcome)
      requires Valid()
      requires -1 <= sel < |rows|
      modifies this
      ensures Valid()
      ensures outcome == MarkOutcome(sel)
      ensures State() == AfterMarkFavorite(old(State()), sel)
      ensures outcome != Done ==> rows == old(rows) && history == old(history)
      ensures outcome == Done ==>
        && rows == old(rows[sel := rows[sel].(favorite := Yes)])
        && history == old(history) + [FavoriteEntry(old(rows[sel].title))]
    {
      if sel >= 0 {
        MarksKeepValid(State(), sel);
        var title := rows[sel].title;
        rows := rows[sel := rows[sel].(favorite := Yes)];
        history := history + [FavoriteEntry(title)];
        outcome := Done;
      } else {
        outcome := NoSelection;
      }
    }
  }
}
