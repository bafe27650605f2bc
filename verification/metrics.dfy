/** The figures the page shows for the filtered frame: the four KPIs of
    app.py lines 47-50 and the data of the "mean IMDb rating per genre" bar
    chart, line 55. Every figure is taken over the exploded rows, so a film
    appears once per genre token. */
module Metrics {
  import opened Collections
  import opened Ordering
  import opened Films
  import opened Filters

  // ---------------------------------------------------------------------
  // Line 47: "Total de Filmes" = df_filtrado['título'].nunique()
  // ---------------------------------------------------------------------

  /** The distinct non-null titles among the rows. */
  function TitleSet(rows: seq<Row>): set<string>
  {
    set r | r in rows && r.film.title.Some? :: r.film.title.value
  }

  /** Line 47: films are identified by title alone. */
  function TotalFilms(rows: seq<Row>): (n: nat)
    ensures n <= |rows|
    ensures n == 0 <==> forall r :: r in rows ==> r.film.title.None?
  {
    var n := CountDistinct(Titles(rows));
    assert n == 0 <==> forall r :: r in rows ==> r.film.title.None? by {
      forall r | r in rows ensures exists i :: 0 <= i < |rows| && Titles(rows)[i] == r.film.title {
        var i :| 0 <= i < |rows| && rows[i] == r;
        assert Titles(rows)[i] == r.film.title;
      }
    }
    n
  }

  /** "Total de Filmes" is the number of distinct non-null titles. */
  lemma TotalFilmsCountsTitles(rows: seq<Row>)
    ensures TotalFilms(rows) == |TitleSet(rows)|
  {
    assert Elements(Present(Titles(rows))) == TitleSet(rows) by {
      forall t ensures t in Elements(Present(Titles(rows))) <==> t in TitleSet(rows) {
        if Some(t) in Titles(rows) {
          var i :| 0 <= i < |rows| && Titles(rows)[i] == Some(t);
          assert rows[i] in rows;
        }
        if t in TitleSet(rows) {
          var r :| r in rows && r.film.title == Some(t);
          var i :| 0 <= i < |rows| && rows[i] == r;
          assert Titles(rows)[i] == Some(t);
        }
      }
    }
  }

  /** Identity is the title alone: a row whose title is already present
      (say a remake of the same name in another year, or the same film's
      next genre row) leaves the count unchanged. */
  lemma SameTitleCountedOnce(rows: seq<Row>, r: Row)
    requires r.film.title.Some?
    requires exists q :: q in rows && q.film.title == r.film.title
    ensures TotalFilms(rows + [r]) == TotalFilms(rows)
  {
    TotalFilmsCountsTitles(rows);
    TotalFilmsCountsTitles(rows + [r]);
    forall t ensures t in TitleSet(rows + [r]) <==> t in TitleSet(rows) {
      if t in TitleSet(rows + [r]) {
        var q :| q in rows + [r] && q.film.title == Some(t);
        if q !in rows {
          assert q == r;
        }
      }
    }
    assert TitleSet(rows + [r]) == TitleSet(rows);
  }

  /** Removing rows never raises the count. */
  lemma TotalFilmsMonotone(sub: seq<Row>, rows: seq<Row>)
    requires forall r :: r in sub ==> r in rows
    ensures TotalFilms(sub) <= TotalFilms(rows)
  {
    TotalFilmsCountsTitles(sub);
    TotalFilmsCountsTitles(rows);
    SubsetCardinality(TitleSet(sub), TitleSet(rows));
  }

  // ---------------------------------------------------------------------
  // Line 48: "Média IMDb" = df_filtrado['nota_imdb'].mean()
  // ---------------------------------------------------------------------

  /** Line 48: the mean of the non-null ratings; None (NaN) when there are none. */
  function MeanImdb(rows: seq<Row>): (m: Option<real>)
    ensures m.None? <==> forall r :: r in rows ==> r.film.imdb.None?
  {
    RatingsNone(rows);
    Mean(Present(Ratings(rows)))
  }

  /** The rating column has no value exactly when every row's rating is null. */
  lemma RatingsNone(rows: seq<Row>)
    ensures Present(Ratings(rows)) == [] <==> forall r :: r in rows ==> r.film.imdb.None?
  {
    PresentNone(Ratings(rows));
    forall r | r in rows ensures exists i :: 0 <= i < |rows| && Ratings(rows)[i] == r.film.imdb {
      var i :| 0 <= i < |rows| && rows[i] == r;
      assert Ratings(rows)[i] == r.film.imdb;
    }
  }

  /** The mean lies within any bounds of the non-null ratings it averages. */
  lemma MeanImdbBounds(rows: seq<Row>, lo: real, hi: real)
    requires exists r :: r in rows && r.film.imdb.Some?
    requires forall r :: r in rows && r.film.imdb.Some? ==> lo <= r.film.imdb.value <= hi
    ensures MeanImdb(rows).Some? && lo <= MeanImdb(rows).value <= hi
  {
    var xs := Present(Ratings(rows));
    RatingsNone(rows);
    forall i | 0 <= i < |xs| ensures lo <= xs[i] <= hi {
      assert xs[i] in xs;
      var k :| 0 <= k < |rows| && Ratings(rows)[k] == Some(xs[i]);
      assert rows[k] in rows;
    }
    MeanBounds(xs, lo, hi);
  }

  // ---------------------------------------------------------------------
  // Line 49: "Diretores Únicos" = df_filtrado['diretor'].nunique()
  // ---------------------------------------------------------------------

  /** Line 49: the number of distinct non-null raw director strings. */
  function UniqueDirectors(rows: seq<Row>): (n: nat)
    ensures n <= |rows|
  {
    CountDistinct(Directors(rows))
  }

  /** The count equals the length of the director option list the sidebar
      would build from the same rows: one per distinct raw string. */
  lemma UniqueDirectorsCountsOptions(rows: seq<Row>)
    ensures UniqueDirectors(rows) == |DirectorOptions(rows)|
  {
    var opts := DirectorOptions(rows);
    StrLessIsStrictTotalOrder();
    StrictlySortedDistinct(opts, StrLess);
    DistinctElements(opts);
    DirectorColumnHas(rows);
    assert Elements(opts) == Elements(Present(Directors(rows)));
  }

  // ---------------------------------------------------------------------
  // Line 50: "Total de Vitórias" = int(df_filtrado['vitórias'].sum())
  // ---------------------------------------------------------------------

  /** `sum` skips nulls, so a null win count adds nothing. */
  function WinsOrZero(f: Film): int
  {
    match f.wins
    case None => 0
    case Some(w) => w
  }

  /** Line 50: the wins of every row, null counted as 0. */
  function TotalWins(rows: seq<Row>): (total: int)
    ensures (forall r :: r in rows ==> WinsOrZero(r.film) >= 0) ==> total >= 0
  {
    if rows == [] then 0 else WinsOrZero(rows[0].film) + TotalWins(rows[1..])
  }

  lemma {:induction false} TotalWinsAppend(a: seq<Row>, b: seq<Row>)
    ensures TotalWins(a + b) == TotalWins(a) + TotalWins(b)
  {
    if a == [] {
      assert a + b == b;
    } else {
      assert (a + b)[1..] == a[1..] + b;
      TotalWinsAppend(a[1..], b);
    }
  }

  lemma {:induction false} TotalWinsRowsFor(f: Film, toks: seq<string>)
    ensures TotalWins(RowsFor(f, toks)) == |toks| * WinsOrZero(f)
  {
    if toks != [] {
      var rows := RowsFor(f, toks);
      TotalWinsRowsFor(f, toks[1..]);
      assert rows[1..] == RowsFor(f, toks[1..]);
      assert TotalWins(rows) == WinsOrZero(f) + (|toks| - 1) * WinsOrZero(f);
    }
  }

  /** A film exploded into k rows adds k times its wins. */
  lemma TotalWinsOneFilm(lf: ListedFilm)
    ensures TotalWins(ExplodeOne(lf)) == RowCount(lf) * WinsOrZero(lf.film)
  {
    if lf.genreList != [] {
      TotalWinsRowsFor(lf.film, lf.genreList);
    }
  }

  /** Each film's wins weighted by the number of rows it explodes into. */
  function WeightedWins(listed: seq<ListedFilm>): int
  {
    if listed == [] then 0 else RowCount(listed[0]) * WinsOrZero(listed[0].film) + WeightedWins(listed[1..])
  }

  /** Over the exploded frame the total counts each film once per genre row. */
  lemma {:induction false} TotalWinsExploded(listed: seq<ListedFilm>)
    ensures TotalWins(Explode(listed)) == WeightedWins(listed)
  {
    if listed != [] {
      TotalWinsExploded(listed[1..]);
      TotalWinsAppend(ExplodeOne(listed[0]), Explode(listed[1..]));
      TotalWinsOneFilm(listed[0]);
    }
  }

  /** With non-negative win counts, dropping rows never raises the total. */
  lemma {:induction false} TotalWinsKeep(rows: seq<Row>, p: Row -> bool)
    requires forall r :: r in rows ==> WinsOrZero(r.film) >= 0
    ensures 0 <= TotalWins(Keep(rows, p)) <= TotalWins(rows)
  {
    if rows != [] {
      assert forall r :: r in rows[1..] ==> r in rows;
      TotalWinsKeep(rows[1..], p);
      var head := if p(rows[0]) then [rows[0]] else [];
      TotalWinsAppend(head, Keep(rows[1..], p));
      if p(rows[0]) {
        assert TotalWins(head) == WinsOrZero(rows[0].film) by {
          assert head[1..] == [];
        }
      }
    }
  }

  /** Filtering never raises the total when no win count is negative. */
  lemma TotalWinsFiltered(rows: seq<Row>, sel: Selection)
    requires forall r :: r in rows ==> WinsOrZero(r.film) >= 0
    ensures 0 <= TotalWins(Filtered(rows, sel)) <= TotalWins(rows)
  {
    var admits := (r: Row) => Admits(sel, r);
    FilteredIsOnePass(rows, sel, admits);
    TotalWinsKeep(rows, admits);
  }

  // ---------------------------------------------------------------------
  // Line 55: df_filtrado.groupby('gêneros_lista')['nota_imdb'].mean()
  // ---------------------------------------------------------------------

  /** One bar of the chart: a genre token and the mean rating of its rows. */
  datatype Bar = Bar(genre: string, meanImdb: Option<real>)

  /** The rows of one group of the group-by. */
  function Group(rows: seq<Row>, g: string): (grp: seq<Row>)
    ensures forall r :: r in grp <==> r in rows && r.genre == Some(g)
  {
    Keep(rows, (r: Row) => r.genre == Some(g))
  }

  /** One bar per key, in key order. */
  function Bars(rows: seq<Row>, keys: seq<string>): (chart: seq<Bar>)
    ensures |chart| == |keys|
    ensures forall i :: 0 <= i < |keys| ==> chart[i].genre == keys[i]
  {
    seq(|keys|, i requires 0 <= i < |keys| => Bar(keys[i], MeanImdb(Group(rows, keys[i]))))
  }

  lemma BarsKeys(rows: seq<Row>, keys: seq<string>)
    ensures forall g :: (exists i :: 0 <= i < |Bars(rows, keys)| && Bars(rows, keys)[i].genre == g) <==> g in keys
  {
    var chart := Bars(rows, keys);
    forall g | g in keys ensures exists i :: 0 <= i < |chart| && chart[i].genre == g {
      var i :| 0 <= i < |keys| && keys[i] == g;
      assert chart[i].genre == g;
    }
  }

  /** Line 55: groupby drops the null key, sorts the keys, and averages the
      non-null ratings of each group; a group whose ratings are all null
      keeps its key with a NaN (None) mean. */
  function RatingByGenre(rows: seq<Row>): (chart: seq<Bar>)
    ensures |chart| == |GenreOptions(rows)|
    ensures forall i, j :: 0 <= i < j < |chart| ==> StrLess(chart[i].genre, chart[j].genre)
    ensures forall g :: (exists i :: 0 <= i < |chart| && chart[i].genre == g) <==> exists r :: r in rows && r.genre == Some(g)
  {
    BarsKeys(rows, GenreOptions(rows));
    Bars(rows, GenreOptions(rows))
  }

  lemma BarAt(rows: seq<Row>, i: int)
    requires 0 <= i < |RatingByGenre(rows)|
    ensures RatingByGenre(rows)[i].genre == GenreOptions(rows)[i]
    ensures RatingByGenre(rows)[i].meanImdb == MeanImdb(Group(rows, RatingByGenre(rows)[i].genre))
  {
  }

  /** Each bar is the "Média IMDb" figure the page shows when only that
      genre is selected in the sidebar: the group-by and the genre filter
      pick the same rows. */
  lemma BarIsGenreView(rows: seq<Row>, i: int)
    requires 0 <= i < |RatingByGenre(rows)|
    ensures var g := RatingByGenre(rows)[i].genre;
      RatingByGenre(rows)[i].meanImdb == MeanImdb(Filtered(rows, Selection({}, {g}, {})))
  {
    var g := RatingByGenre(rows)[i].genre;
    var sel := Selection({}, {g}, {});
    var inGroup := (r: Row) => r.genre == Some(g);
    BarAt(rows, i);
    FilteredIsOnePass(rows, sel, inGroup);
    KeepExtensional(rows, inGroup, (r: Row) => r.genre == Some(g));
  }

  lemma GroupCons(r: Row, rest: seq<Row>, g: string)
    ensures Group([r] + rest, g) == (if r.genre == Some(g) then [r] else []) + Group(rest, g)
  {
    assert ([r] + rest)[1..] == rest;
  }

  /** A group holding every row of the frame is the frame. */
  lemma GroupAll(rows: seq<Row>, g: string)
    requires forall r :: r in rows ==> r.genre == Some(g)
    ensures Group(rows, g) == rows
  {
    KeepAll(rows, (r: Row) => r.genre == Some(g));
  }

  /** A bar has no value (NaN) exactly when every row of its genre lacks a rating. */
  lemma BarNull(rows: seq<Row>, i: int)
    requires 0 <= i < |RatingByGenre(rows)|
    ensures var bar := RatingByGenre(rows)[i];
      bar.meanImdb.None? <==> forall r :: r in rows && r.genre == Some(bar.genre) ==> r.film.imdb.None?
  {
    BarAt(rows, i);
  }

  /** Each bar is the mean IMDb rating of its genre's rows, and lies within
      any bounds of those rows' ratings. */
  lemma BarBounds(rows: seq<Row>, i: int, lo: real, hi: real)
    requires 0 <= i < |RatingByGenre(rows)|
    requires var g := RatingByGenre(rows)[i].genre;
      forall r :: r in rows && r.genre == Some(g) && r.film.imdb.Some? ==> lo <= r.film.imdb.value <= hi
    requires var g := RatingByGenre(rows)[i].genre;
      exists r :: r in rows && r.genre == Some(g) && r.film.imdb.Some?
    ensures var bar := RatingByGenre(rows)[i];
      bar.meanImdb.Some? && lo <= bar.meanImdb.value <= hi
  {
    var g := RatingByGenre(rows)[i].genre;
    BarAt(rows, i);
    MeanImdbBounds(Group(rows, g), lo, hi);
  }

  /** With a single genre selected and some row left, that genre is the
      only option and its group is the whole filtered frame. */
  lemma SingleGenreView(rows: seq<Row>, sel: Selection, g: string)
    requires sel.genres == {g}
    requires Filtered(rows, sel) != []
    ensures GenreOptions(Filtered(rows, sel)) == [g]
    ensures Group(Filtered(rows, sel), g) == Filtered(rows, sel)
  {
    var view := Filtered(rows, sel);
    NullGenreNeverSelected(rows, sel);
    GroupAll(view, g);
    assert view[0] in view;
    GenreOptionsUnique(view, [g]);
  }

  /** With a single genre selected, the chart is empty when no row survives,
      and otherwise is that genre's bar alone, whose value is the "Média IMDb"
      KPI: every surviving row belongs to the group. */
  lemma SingleGenreBarIsKpi(rows: seq<Row>, sel: Selection, g: string)
    requires sel.genres == {g}
    ensures var view := Filtered(rows, sel);
      RatingByGenre(view) == if view == [] then [] else [Bar(g, MeanImdb(view))]
  {
    var view := Filtered(rows, sel);
    if view != [] {
      SingleGenreView(rows, sel, g);
      BarAt(view, 0);
    }
  }
}
