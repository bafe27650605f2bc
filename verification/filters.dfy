/** The sidebar of app.py: the option lists offered by the three multiselect
    widgets (lines 24-26) and the chain of boolean-mask selections that
    narrows the exploded frame to the chosen years, genres and directors
    (lines 32-41). */
module Filters {
  import opened Collections
  import opened Ordering
  import opened Films
  import opened Tokenizer

  // ---------------------------------------------------------------------
  // Option lists (lines 24-26)
  // ---------------------------------------------------------------------

  /** Line 24: `sorted(df['ano'].dropna().unique())`. */
  function YearOptions(rows: seq<Row>): (opts: seq<int>)
    ensures StrictlySorted(opts, IntLess)
    ensures forall y :: y in opts <==> exists r :: r in rows && r.film.year == Some(y)
  {
    IntLessIsStrictTotalOrder();
    SortedDistinctSorted(Present(Years(rows)), IntLess);
    YearColumnHas(rows);
    SortedDistinct(Present(Years(rows)), IntLess)
  }

  /** Line 25: `sorted(df['gêneros_lista'].dropna().unique())`; the null
      genre of a film without tokens is never offered. */
  function GenreOptions(rows: seq<Row>): (opts: seq<string>)
    ensures StrictlySorted(opts, StrLess)
    ensures forall g :: g in opts <==> exists r :: r in rows && r.genre == Some(g)
  {
    StrLessIsStrictTotalOrder();
    SortedDistinctSorted(Present(GenreColumn(rows)), StrLess);
    GenreColumnHas(rows);
    SortedDistinct(Present(GenreColumn(rows)), StrLess)
  }

  /** Line 26: `sorted(df['diretor'].dropna().unique())`, the raw director strings. */
  function DirectorOptions(rows: seq<Row>): (opts: seq<string>)
    ensures StrictlySorted(opts, StrLess)
    ensures forall d :: d in opts <==> exists r :: r in rows && r.film.director == Some(d)
  {
    StrLessIsStrictTotalOrder();
    SortedDistinctSorted(Present(Directors(rows)), StrLess);
    DirectorColumnHas(rows);
    SortedDistinct(Present(Directors(rows)), StrLess)
  }

  lemma YearColumnHas(rows: seq<Row>)
    ensures forall y :: Some(y) in Years(rows) <==> exists r :: r in rows && r.film.year == Some(y)
  {
    forall y ensures Some(y) in Years(rows) <==> exists r :: r in rows && r.film.year == Some(y) {
      if Some(y) in Years(rows) {
        var i :| 0 <= i < |rows| && Years(rows)[i] == Some(y);
        assert rows[i] in rows;
      }
      if exists r :: r in rows && r.film.year == Some(y) {
        var r :| r in rows && r.film.year == Some(y);
        var i :| 0 <= i < |rows| && rows[i] == r;
        assert Years(rows)[i] == Some(y);
      }
    }
  }

  lemma GenreColumnHas(rows: seq<Row>)
    ensures forall g :: Some(g) in GenreColumn(rows) <==> exists r :: r in rows && r.genre == Some(g)
  {
    forall g ensures Some(g) in GenreColumn(rows) <==> exists r :: r in rows && r.genre == Some(g) {
      if Some(g) in GenreColumn(rows) {
        var i :| 0 <= i < |rows| && GenreColumn(rows)[i] == Some(g);
        assert rows[i] in rows;
      }
      if exists r :: r in rows && r.genre == Some(g) {
        var r :| r in rows && r.genre == Some(g);
        var i :| 0 <= i < |rows| && rows[i] == r;
        assert GenreColumn(rows)[i] == Some(g);
      }
    }
  }

  lemma DirectorColumnHas(rows: seq<Row>)
    ensures forall d :: Some(d) in Directors(rows) <==> exists r :: r in rows && r.film.director == Some(d)
  {
    forall d ensures Some(d) in Directors(rows) <==> exists r :: r in rows && r.film.director == Some(d) {
      if Some(d) in Directors(rows) {
        var i :| 0 <= i < |rows| && Directors(rows)[i] == Some(d);
        assert rows[i] in rows;
      }
      if exists r :: r in rows && r.film.director == Some(d) {
        var r :| r in rows && r.film.director == Some(d);
        var i :| 0 <= i < |rows| && rows[i] == r;
        assert Directors(rows)[i] == Some(d);
      }
    }
  }

  /** `sorted(set(...))` is the only strictly ascending listing of the years
      present: any such listing is the option list. */
  lemma YearOptionsUnique(rows: seq<Row>, listing: seq<int>)
    requires StrictlySorted(listing, IntLess)
    requires forall y :: y in listing <==> exists r :: r in rows && r.film.year == Some(y)
    ensures listing == YearOptions(rows)
  {
    IntLessIsStrictTotalOrder();
    StrictlySortedUnique(listing, YearOptions(rows), IntLess);
  }

  lemma GenreOptionsUnique(rows: seq<Row>, listing: seq<string>)
    requires StrictlySorted(listing, StrLess)
    requires forall g :: g in listing <==> exists r :: r in rows && r.genre == Some(g)
    ensures listing == GenreOptions(rows)
  {
    StrLessIsStrictTotalOrder();
    StrictlySortedUnique(listing, GenreOptions(rows), StrLess);
  }

  lemma DirectorOptionsUnique(rows: seq<Row>, listing: seq<string>)
    requires StrictlySorted(listing, StrLess)
    requires forall d :: d in listing <==> exists r :: r in rows && r.film.director == Some(d)
    ensures listing == DirectorOptions(rows)
  {
    StrLessIsStrictTotalOrder();
    StrictlySortedUnique(listing, DirectorOptions(rows), StrLess);
  }

  /** Over the exploded frame, the genre options are exactly the tokens of
      the films' genres strings, and the year options their years. */
  lemma ExpandedOptions(films: seq<Film>)
    ensures forall g :: g in GenreOptions(Expand(films)) <==> exists f :: f in films && g in Tokenize(f.genres)
    ensures forall y :: y in YearOptions(Expand(films)) <==> exists f :: f in films && f.year == Some(y)
  {
    var rows := Expand(films);
    ExpandKeepsFilms(films);
    forall g ensures (exists r :: r in rows && r.genre == Some(g)) <==> exists f :: f in films && g in Tokenize(f.genres) {
      if exists r :: r in rows && r.genre == Some(g) {
        var r :| r in rows && r.genre == Some(g);
        ExpandRows(films, r);
      }
      if exists f :: f in films && g in Tokenize(f.genres) {
        var f :| f in films && g in Tokenize(f.genres);
        ExpandHasToken(films, f, g);
      }
    }
    forall y ensures (exists r :: r in rows && r.film.year == Some(y)) <==> exists f :: f in films && f.year == Some(y) {
      if exists r :: r in rows && r.film.year == Some(y) {
        var r :| r in rows && r.film.year == Some(y);
        ExpandRows(films, r);
      }
      if exists f :: f in films && f.year == Some(y) {
        var f :| f in films && f.year == Some(y);
        assert f in FilmColumn(rows);
        var i :| 0 <= i < |rows| && FilmColumn(rows)[i] == f;
        assert rows[i] in rows;
      }
    }
  }

  // ---------------------------------------------------------------------
  // The filter chain (lines 32-41)
  // ---------------------------------------------------------------------

  /** The values chosen in the three multiselect widgets (lines 28-30). */
  datatype Selection = Selection(years: set<int>, genres: set<string>, directors: set<string>)

  /** The three columns the sidebar filters on. */
  datatype Dim = Year | Genre | Director

  /** `if ano_selecionado:` and its two siblings: an empty selection is falsy. */
  predicate Active(sel: Selection, d: Dim)
  {
    match d
    case Year => sel.years != {}
    case Genre => sel.genres != {}
    case Director => sel.directors != {}
  }

  /** `isin(selection)` on the column of dimension d; a null cell is never in it. */
  predicate Matches(sel: Selection, d: Dim, r: Row)
  {
    match d
    case Year => r.film.year.Some? && r.film.year.value in sel.years
    case Genre => r.genre.Some? && r.genre.value in sel.genres
    case Director => r.film.director.Some? && r.film.director.value in sel.directors
  }

  /** One `if` block of lines 34-41: mask the frame when the selection is non-empty. */
  function Step(rows: seq<Row>, sel: Selection, d: Dim): (out: seq<Row>)
    ensures |out| <= |rows|
    ensures forall r :: r in out <==> r in rows && Gate(sel, d, r)
  {
    if Active(sel, d) then Keep(rows, (r: Row) => Matches(sel, d, r)) else rows
  }

  /** Lines 32-41: the year mask, then the genre mask, then the director mask. */
  function Filtered(rows: seq<Row>, sel: Selection): (view: seq<Row>)
    ensures |view| <= |rows|
    ensures forall r :: r in view <==> r in rows && Admits(sel, r)
  {
    StepsAreOneKeep(rows, sel, Year, Genre, Director, (r: Row) => Admits(sel, r));
    Step(Step(Step(rows, sel, Year), sel, Genre), sel, Director)
  }

  /** What one step lets through: anything when inactive, matching rows otherwise. */
  predicate Gate(sel: Selection, d: Dim, r: Row)
  {
    Active(sel, d) ==> Matches(sel, d, r)
  }

  /** The conjunctive condition: every non-empty selection holds the row's value. */
  predicate Admits(sel: Selection, r: Row)
  {
    && (sel.years != {} ==> r.film.year.Some? && r.film.year.value in sel.years)
    && (sel.genres != {} ==> r.genre.Some? && r.genre.value in sel.genres)
    && (sel.directors != {} ==> r.film.director.Some? && r.film.director.value in sel.directors)
  }

  /** Each step is a selection by its gate. */
  lemma StepIsKeep(rows: seq<Row>, sel: Selection, d: Dim, p: Row -> bool)
    requires forall r :: p(r) == Gate(sel, d, r)
    ensures Step(rows, sel, d) == Keep(rows, p)
  {
    if Active(sel, d) {
      KeepExtensional(rows, (r: Row) => Matches(sel, d, r), p);
    } else {
      KeepAll(rows, p);
    }
  }

  /** Three steps in a row select the conjunction of their gates. */
  lemma StepsAreOneKeep(rows: seq<Row>, sel: Selection, d1: Dim, d2: Dim, d3: Dim, p: Row -> bool)
    requires forall r :: p(r) == (Gate(sel, d1, r) && Gate(sel, d2, r) && Gate(sel, d3, r))
    ensures Step(Step(Step(rows, sel, d1), sel, d2), sel, d3) == Keep(rows, p)
  {
    var g1 := (r: Row) => Gate(sel, d1, r);
    var g2 := (r: Row) => Gate(sel, d2, r);
    var g3 := (r: Row) => Gate(sel, d3, r);
    var g12 := (r: Row) => Gate(sel, d1, r) && Gate(sel, d2, r);
    StepIsKeep(rows, sel, d1, g1);
    StepIsKeep(Keep(rows, g1), sel, d2, g2);
    KeepKeep(rows, g1, g2, g12);
    StepIsKeep(Keep(rows, g12), sel, d3, g3);
    KeepKeep(rows, g12, g3, p);
  }

  /** The chain keeps exactly the admitted rows, in their order. */
  lemma FilteredIsOnePass(rows: seq<Row>, sel: Selection, admits: Row -> bool)
    requires forall r :: admits(r) == Admits(sel, r)
    ensures Filtered(rows, sel) == Keep(rows, admits)
  {
    StepsAreOneKeep(rows, sel, Year, Genre, Director, admits);
  }

  /** A row survives the filter iff it is in the frame and every non-empty
      selection holds its year, genre token and director. */
  lemma FilteredMembers(rows: seq<Row>, sel: Selection)
    ensures forall r :: r in Filtered(rows, sel) <==> r in rows && Admits(sel, r)
  {
    FilteredIsOnePass(rows, sel, (r: Row) => Admits(sel, r));
  }

  /** The filtered frame is the frame with rows deleted, order kept. */
  lemma FilteredIsSubsequence(rows: seq<Row>, sel: Selection)
    ensures IsSubsequence(Filtered(rows, sel), rows)
    ensures |Filtered(rows, sel)| <= |rows|
  {
    var admits := (r: Row) => Admits(sel, r);
    FilteredIsOnePass(rows, sel, admits);
    KeepIsSubsequence(rows, admits);
  }

  /** With nothing selected, the whole frame passes. */
  lemma PassThrough(rows: seq<Row>, sel: Selection)
    requires sel.years == {} && sel.genres == {} && sel.directors == {}
    ensures Filtered(rows, sel) == rows
  {
  }

  /** Filtering works row by row, so it distributes over concatenation. */
  lemma FilteredAppend(a: seq<Row>, b: seq<Row>, sel: Selection)
    ensures Filtered(a + b, sel) == Filtered(a, sel) + Filtered(b, sel)
  {
    var admits := (r: Row) => Admits(sel, r);
    FilteredIsOnePass(a + b, sel, admits);
    FilteredIsOnePass(a, sel, admits);
    FilteredIsOnePass(b, sel, admits);
    KeepAppend(a, b, admits);
  }

  /** A single row passes exactly when the selection admits it. */
  lemma FilteredSingle(r: Row, sel: Selection)
    ensures Filtered([r], sel) == if Admits(sel, r) then [r] else []
  {
    var admits := (q: Row) => Admits(sel, q);
    FilteredIsOnePass([r], sel, admits);
    assert [r][1..] == [];
  }

  /** Two steps commute. */
  lemma StepsCommute(rows: seq<Row>, sel: Selection, d1: Dim, d2: Dim)
    ensures Step(Step(rows, sel, d1), sel, d2) == Step(Step(rows, sel, d2), sel, d1)
  {
    var g1 := (r: Row) => Gate(sel, d1, r);
    var g2 := (r: Row) => Gate(sel, d2, r);
    var both := (r: Row) => Gate(sel, d1, r) && Gate(sel, d2, r);
    StepIsKeep(rows, sel, d1, g1);
    StepIsKeep(Keep(rows, g1), sel, d2, g2);
    KeepKeep(rows, g1, g2, both);
    StepIsKeep(rows, sel, d2, g2);
    StepIsKeep(Keep(rows, g2), sel, d1, g1);
    KeepKeep(rows, g2, g1, both);
  }

  /** The three steps applied in any order give the filtered frame. */
  lemma AnyOrder(rows: seq<Row>, sel: Selection, d1: Dim, d2: Dim, d3: Dim)
    requires {d1, d2, d3} == {Year, Genre, Director}
    ensures Step(Step(Step(rows, sel, d1), sel, d2), sel, d3) == Filtered(rows, sel)
  {
    var admits := (r: Row) => Admits(sel, r);
    assert Year in {d1, d2, d3} && Genre in {d1, d2, d3} && Director in {d1, d2, d3};
    forall r ensures admits(r) == (Gate(sel, d1, r) && Gate(sel, d2, r) && Gate(sel, d3, r)) {
      assert Gate(sel, Year, r) && Gate(sel, Genre, r) && Gate(sel, Director, r) <==> Admits(sel, r);
    }
    StepsAreOneKeep(rows, sel, d1, d2, d3, admits);
    FilteredIsOnePass(rows, sel, admits);
  }

  /** Per dimension, `narrow` constrains at least as much as `wide`: either
      `wide` is empty (no constraint), or `narrow` is a non-empty subset of it. */
  predicate Narrower(narrow: Selection, wide: Selection)
  {
    && (wide.years == {} || (narrow.years != {} && narrow.years <= wide.years))
    && (wide.genres == {} || (narrow.genres != {} && narrow.genres <= wide.genres))
    && (wide.directors == {} || (narrow.directors != {} && narrow.directors <= wide.directors))
  }

  /** Monotonicity: a narrower selection keeps a subsequence of what a wider one keeps. */
  lemma FilterMonotone(rows: seq<Row>, narrow: Selection, wide: Selection)
    requires Narrower(narrow, wide)
    ensures IsSubsequence(Filtered(rows, narrow), Filtered(rows, wide))
  {
    var n := (r: Row) => Admits(narrow, r);
    var w := (r: Row) => Admits(wide, r);
    FilteredIsOnePass(rows, narrow, n);
    FilteredIsOnePass(rows, wide, w);
    KeepWeaker(rows, n, w);
  }

  /** Adding values to selections that are already non-empty never removes a row. */
  lemma EnlargeNeverShrinks(rows: seq<Row>, sel: Selection, more: Selection)
    requires sel.years == {} ==> more.years == {}
    requires sel.genres == {} ==> more.genres == {}
    requires sel.directors == {} ==> more.directors == {}
    ensures var wide := Selection(sel.years + more.years, sel.genres + more.genres, sel.directors + more.directors);
      IsSubsequence(Filtered(rows, sel), Filtered(rows, wide))
  {
    FilterMonotone(rows, sel, Selection(sel.years + more.years, sel.genres + more.genres, sel.directors + more.directors));
  }

  /** Choosing genres where none were chosen never adds a row. */
  lemma ActivateGenresNeverGrows(rows: seq<Row>, sel: Selection, values: set<string>)
    requires sel.genres == {}
    ensures IsSubsequence(Filtered(rows, sel.(genres := values)), Filtered(rows, sel))
  {
    FilterMonotone(rows, sel.(genres := values), sel);
  }

  /** Choosing years where none were chosen never adds a row. */
  lemma ActivateYearsNeverGrows(rows: seq<Row>, sel: Selection, values: set<int>)
    requires sel.years == {}
    ensures IsSubsequence(Filtered(rows, sel.(years := values)), Filtered(rows, sel))
  {
    FilterMonotone(rows, sel.(years := values), sel);
  }

  /** Choosing directors where none were chosen never adds a row. */
  lemma ActivateDirectorsNeverGrows(rows: seq<Row>, sel: Selection, values: set<string>)
    requires sel.directors == {}
    ensures IsSubsequence(Filtered(rows, sel.(directors := values)), Filtered(rows, sel))
  {
    FilterMonotone(rows, sel.(directors := values), sel);
  }

  /** A row with a null genre (a film without tokens) never survives a
      non-empty genre selection. */
  lemma NullGenreNeverSelected(rows: seq<Row>, sel: Selection)
    requires sel.genres != {}
    ensures forall r :: r in Filtered(rows, sel) ==> r.genre.Some? && r.genre.value in sel.genres
  {
    FilteredMembers(rows, sel);
  }
}
