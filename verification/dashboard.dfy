/** The whole page of app.py as a function of the film table and the
    sidebar selection: the option lists are built from the exploded frame
    (lines 24-26), and the KPIs, the chart and the film table from the
    filtered frame (lines 32-55, 85). */
module Dashboard {
  import opened Collections
  import opened Ordering
  import opened Tokenizer
  import opened Films
  import opened Filters
  import opened Metrics

  /** Everything the page displays, as values. */
  datatype Page = Page(
    yearOptions: seq<int>,
    genreOptions: seq<string>,
    directorOptions: seq<string>,
    totalFilms: nat,            // Total de Filmes
    meanImdb: Option<real>,     // Média IMDb
    uniqueDirectors: nat,       // Diretores Únicos
    totalWins: int,             // Total de Vitórias
    chart: seq<Bar>,            // Nota Média IMDb por Gênero
    table: seq<Film>)           // Tabela de Filmes, one line per filtered row

  /** The page for a film table and a selection. */
  function Render(films: seq<Film>, sel: Selection): (p: Page)
    ensures p.totalFilms <= |p.table| && p.uniqueDirectors <= |p.table|
    ensures |p.table| <= |Expand(films)|
    ensures p.meanImdb.None? <==> forall f :: f in p.table ==> f.imdb.None?
  {
    var rows := Expand(films);
    var view := Filtered(rows, sel);
    FilteredIsSubsequence(rows, sel);
    TableRatings(view);
    Page(YearOptions(rows), GenreOptions(rows), DirectorOptions(rows),
         TotalFilms(view), MeanImdb(view), UniqueDirectors(view), TotalWins(view),
         RatingByGenre(view), FilmColumn(view))
  }

  lemma TableRatings(view: seq<Row>)
    ensures (forall r :: r in view ==> r.film.imdb.None?) <==> forall f :: f in FilmColumn(view) ==> f.imdb.None?
  {
    forall f | f in FilmColumn(view) ensures exists r :: r in view && r.film == f {
      var i :| 0 <= i < |view| && FilmColumn(view)[i] == f;
      assert view[i] in view;
    }
    forall r | r in view ensures r.film in FilmColumn(view) {
      var i :| 0 <= i < |view| && view[i] == r;
      assert FilmColumn(view)[i] == r.film;
    }
  }

  /** The table only shows input films; with nothing selected it shows every
      input film. */
  lemma TableFilms(films: seq<Film>, sel: Selection)
    ensures forall f :: f in Render(films, sel).table ==> f in films
    ensures sel.years == {} && sel.genres == {} && sel.directors == {} ==>
      forall f :: f in films ==> f in Render(films, sel).table
  {
    var rows := Expand(films);
    var view := Filtered(rows, sel);
    ExpandKeepsFilms(films);
    FilteredMembers(rows, sel);
    forall f | f in FilmColumn(view) ensures f in films {
      var i :| 0 <= i < |view| && FilmColumn(view)[i] == f;
      assert view[i] in rows;
      var j :| 0 <= j < |rows| && rows[j] == view[i];
      assert FilmColumn(rows)[j] == f;
    }
    if sel.years == {} && sel.genres == {} && sel.directors == {} {
      PassThrough(rows, sel);
    }
  }

  // ---------------------------------------------------------------------
  // A worked example: two films, x tagged "Drama, War" and y tagged "Drama".
  // ---------------------------------------------------------------------

  lemma GenreNamesAreTokens()
    ensures IsToken("Drama") && IsToken("War")
  {
    assert !IsSpace('D') && !IsSpace('a') && !IsSpace('W') && !IsSpace('r');
  }

  lemma TokenizeExample()
    ensures Tokenize(Some("Drama, War")) == ["Drama", "War"]
    ensures Tokenize(Some("Drama")) == ["Drama"]
  {
    GenreNamesAreTokens();
    TokenizeJoin(["Drama", "War"]);
    assert Join(["Drama", "War"], ", ") == "Drama, War";
    TokenizeJoin(["Drama"]);
    assert Join(["Drama"], ", ") == "Drama";
  }

  lemma ExplodeTwo(a: ListedFilm, b: ListedFilm)
    ensures Explode([a, b]) == ExplodeOne(a) + ExplodeOne(b)
  {
    assert [a, b][1..] == [b];
    assert Explode([b]) == ExplodeOne(b) + Explode([]);
  }

  lemma ExpandTwo(x: Film, y: Film, tx: seq<string>, ty: seq<string>)
    requires Tokenize(x.genres) == tx && |tx| == 2
    requires Tokenize(y.genres) == ty && |ty| == 1
    ensures Expand([x, y]) == [Row(x, Some(tx[0])), Row(x, Some(tx[1])), Row(y, Some(ty[0]))]
  {
    AddGenreListsAt([x, y], 0);
    AddGenreListsAt([x, y], 1);
    var listed := AddGenreLists([x, y]);
    assert listed == [ListedFilm(x, tx), ListedFilm(y, ty)];
    ExplodeTwo(listed[0], listed[1]);
    assert RowsFor(x, tx) == [Row(x, Some(tx[0])), Row(x, Some(tx[1]))] by {
      assert RowsFor(x, tx[1..]) == [Row(x, Some(tx[1]))] + RowsFor(x, tx[1..][1..]);
    }
    assert RowsFor(y, ty) == [Row(y, Some(ty[0]))] + RowsFor(y, ty[1..]);
  }

  /** x explodes into a Drama row and a War row, y into one Drama row. */
  lemma ExampleRows(x: Film, y: Film)
    requires x.genres == Some("Drama, War") && y.genres == Some("Drama")
    ensures Expand([x, y]) == [Row(x, Some("Drama")), Row(x, Some("War")), Row(y, Some("Drama"))]
  {
    TokenizeExample();
    ExpandTwo(x, y, ["Drama", "War"], ["Drama"]);
  }

  /** The exploded frame of the example, for any genre names g and h. */
  predicate ExampleFrame(rows: seq<Row>, x: Film, y: Film, g: string, h: string)
  {
    rows == [Row(x, Some(g)), Row(x, Some(h)), Row(y, Some(g))]
  }

  lemma ExampleTitleSet(rows: seq<Row>, x: Film, y: Film, g: string, h: string)
    requires ExampleFrame(rows, x, y, g, h)
    requires x.title.Some? && y.title.Some?
    ensures TitleSet(rows) == {x.title.value, y.title.value}
  {
    var a, b := x.title.value, y.title.value;
    forall t | t in TitleSet(rows) ensures t == a || t == b {
      var r :| r in rows && r.film.title == Some(t);
      assert r.film == x || r.film == y;
    }
    assert rows[0] in rows && rows[2] in rows;
  }

  lemma ExampleTitles(rows: seq<Row>, x: Film, y: Film, g: string, h: string)
    requires ExampleFrame(rows, x, y, g, h)
    requires x.title.Some? && y.title.Some? && x.title != y.title
    ensures TotalFilms(rows) == 2
  {
    TotalFilmsCountsTitles(rows);
    ExampleTitleSet(rows, x, y, g, h);
  }

  lemma ExampleDirectors(rows: seq<Row>, x: Film, y: Film, g: string, h: string)
    requires ExampleFrame(rows, x, y, g, h)
    requires x.director.Some? && y.director.Some? && x.director != y.director
    ensures UniqueDirectors(rows) == 2
  {
    var d := [x.director, x.director, y.director];
    assert Directors(rows) == d;
    assert Present(d) == [x.director.value, x.director.value, y.director.value] by {
      assert d[1..] == [x.director, y.director] && d[1..][1..] == [y.director];
    }
    assert Elements([x.director.value, x.director.value, y.director.value]) == {x.director.value, y.director.value};
  }

  lemma ExampleWins(rows: seq<Row>, x: Film, y: Film, g: string, h: string)
    requires ExampleFrame(rows, x, y, g, h)
    ensures TotalWins(rows) == 2 * WinsOrZero(x) + WinsOrZero(y)
  {
    assert rows[1..] == [Row(x, Some(h)), Row(y, Some(g))];
    assert rows[1..][1..] == [Row(y, Some(g))];
    assert TotalWins(rows[1..][1..]) == WinsOrZero(y) + TotalWins([]);
    assert TotalWins(rows[1..]) == WinsOrZero(x) + TotalWins(rows[1..][1..]);
  }

  lemma ExampleMean(rows: seq<Row>, x: Film, y: Film, g: string, h: string)
    requires ExampleFrame(rows, x, y, g, h)
    requires x.imdb == Some(8.0) && y.imdb == Some(6.0)
    ensures MeanImdb(rows) == Some(22.0 / 3.0)
  {
    var c := [x.imdb, x.imdb, y.imdb];
    assert Ratings(rows) == c;
    assert Present(c) == [8.0, 8.0, 6.0] by {
      assert c[1..] == [x.imdb, y.imdb] && c[1..][1..] == [y.imdb];
    }
    var v := [8.0, 8.0, 6.0];
    assert SumReal(v) == 22.0 by {
      assert v[1..] == [8.0, 6.0] && v[1..][1..] == [6.0];
    }
  }

  lemma ExampleOptions(rows: seq<Row>, x: Film, y: Film, g: string, h: string)
    requires ExampleFrame(rows, x, y, g, h) && StrLess(g, h)
    ensures GenreOptions(rows) == [g, h]
  {
    assert rows[0] in rows && rows[1] in rows;
    GenreOptionsUnique(rows, [g, h]);
  }

  lemma ExampleGroups(rows: seq<Row>, x: Film, y: Film, g: string, h: string)
    requires ExampleFrame(rows, x, y, g, h) && g != h
    ensures Group(rows, g) == [rows[0], rows[2]]
    ensures Group(rows, h) == [rows[1]]
  {
    var r0, r1, r2 := rows[0], rows[1], rows[2];
    assert rows == [r0] + [r1, r2] && [r1, r2] == [r1] + [r2] && [r2] == [r2] + [];
    assert Group([], g) == [] && Group([], h) == [];
    GroupCons(r2, [], g);
    GroupCons(r1, [r2], g);
    GroupCons(r0, [r1, r2], g);
    assert Group(rows, g) == [r0] + ([] + ([r2] + []));
    GroupCons(r2, [], h);
    GroupCons(r1, [r2], h);
    GroupCons(r0, [r1, r2], h);
    assert Group(rows, h) == [] + ([r1] + ([] + []));
  }

  lemma MeanOfTwo(rows: seq<Row>, a: real, b: real)
    requires |rows| == 2 && rows[0].film.imdb == Some(a) && rows[1].film.imdb == Some(b)
    ensures MeanImdb(rows) == Some((a + b) / 2.0)
  {
    var c := Ratings(rows);
    assert c == [Some(a), Some(b)];
    assert c[1..] == [Some(b)] && c[1..][1..] == [];
    assert Present(c[1..]) == [b] + Present(c[1..][1..]);
    assert Present(c) == [a] + Present(c[1..]);
    var v := [a, b];
    assert Present(c) == v;
    assert v[1..] == [b] && v[1..][1..] == [];
    assert SumReal(v[1..]) == b + SumReal(v[1..][1..]);
    assert SumReal(v) == a + SumReal(v[1..]);
    assert Mean(v) == Some(SumReal(v) / 2.0);
    assert MeanImdb(rows) == Mean(Present(c));
  }

  lemma MeanOfOne(rows: seq<Row>, a: real)
    requires |rows| == 1 && rows[0].film.imdb == Some(a)
    ensures MeanImdb(rows) == Some(a)
  {
    assert Ratings(rows) == [Some(a)];
    assert [Some(a)][1..] == [] && [a][1..] == [];
    assert Present([Some(a)]) == [a];
    assert SumReal([a]) == a;
  }

  lemma ExampleChart(rows: seq<Row>, x: Film, y: Film, g: string, h: string)
    requires ExampleFrame(rows, x, y, g, h) && StrLess(g, h) && g != h
    requires x.imdb == Some(8.0) && y.imdb == Some(6.0)
    ensures RatingByGenre(rows) == [Bar(g, Some(7.0)), Bar(h, Some(8.0))]
  {
    ExampleOptions(rows, x, y, g, h);
    ExampleGroups(rows, x, y, g, h);
    MeanOfTwo([rows[0], rows[2]], 8.0, 6.0);
    MeanOfOne([rows[1]], 8.0);
    BarAt(rows, 0);
    BarAt(rows, 1);
  }

  lemma ExampleSelectH(rows: seq<Row>, x: Film, y: Film, g: string, h: string)
    requires ExampleFrame(rows, x, y, g, h) && g != h
    ensures Filtered(rows, Selection({}, {h}, {})) == [Row(x, Some(h))]
  {
    var sel := Selection({}, {h}, {});
    assert rows == [rows[0]] + [rows[1]] + [rows[2]];
    FilteredAppend([rows[0]] + [rows[1]], [rows[2]], sel);
    FilteredAppend([rows[0]], [rows[1]], sel);
    FilteredSingle(rows[0], sel);
    FilteredSingle(rows[1], sel);
    FilteredSingle(rows[2], sel);
  }

  lemma ExampleSelectedKpis(x: Film)
    requires x.title.Some? && x.imdb == Some(8.0)
    ensures var view := [Row(x, Some("War"))];
      TotalFilms(view) == 1 && MeanImdb(view) == Some(8.0) && TotalWins(view) == WinsOrZero(x)
  {
    var view := [Row(x, Some("War"))];
    TotalFilmsCountsTitles(view);
    assert TitleSet(view) == {x.title.value};
    MeanOfOne(view, 8.0);
    assert view[1..] == [];
  }

  /** Two films: x titled "X", tagged "Drama, War", rated 8.0 with two wins,
      and y titled "Y", tagged "Drama", rated 6.0 with one win, by another
      director. With nothing selected the page shows two films, the mean of
      the three exploded rows, two directors, x's wins twice (once per genre
      row), and the bars Drama 7.0 and War 8.0. */
  predicate ExampleFilms(x: Film, y: Film)
  {
    && x.title == Some("X") && x.genres == Some("Drama, War") && x.imdb == Some(8.0) && x.wins == Some(2)
    && y.title == Some("Y") && y.genres == Some("Drama") && y.imdb == Some(6.0) && y.wins == Some(1)
    && x.director.Some? && y.director.Some? && x.director != y.director
  }

  lemma ExampleUnfiltered(x: Film, y: Film)
    requires ExampleFilms(x, y)
    ensures var p := Render([x, y], Selection({}, {}, {}));
      && p.totalFilms == 2
      && p.meanImdb == Some(22.0 / 3.0)
      && p.uniqueDirectors == 2
      && p.totalWins == 5
      && p.genreOptions == ["Drama", "War"]
      && p.chart == [Bar("Drama", Some(7.0)), Bar("War", Some(8.0))]
  {
    ExampleRows(x, y);
    var rows := Expand([x, y]);
    PassThrough(rows, Selection({}, {}, {}));
    assert StrLess("Drama", "War");
    ExampleTitles(rows, x, y, "Drama", "War");
    ExampleDirectors(rows, x, y, "Drama", "War");
    ExampleWins(rows, x, y, "Drama", "War");
    ExampleMean(rows, x, y, "Drama", "War");
    ExampleOptions(rows, x, y, "Drama", "War");
    ExampleChart(rows, x, y, "Drama", "War");
  }

  /** Selecting the genre War leaves x's War row only: one film, mean 8.0,
      and x's wins counted once. */
  lemma ExampleWar(x: Film, y: Film)
    requires ExampleFilms(x, y)
    ensures var p := Render([x, y], Selection({}, {"War"}, {}));
      && p.table == [x]
      && p.totalFilms == 1
      && p.meanImdb == Some(8.0)
      && p.totalWins == 2
  {
    ExampleRows(x, y);
    var rows := Expand([x, y]);
    var sel := Selection({}, {"War"}, {});
    assert "Drama" != "War";
    ExampleSelectH(rows, x, y, "Drama", "War");
    var view := Filtered(rows, sel);
    assert view == [Row(x, Some("War"))];
    assert FilmColumn(view) == [x];
    ExampleSelectedKpis(x);
    var p := Render([x, y], sel);
    assert p.table == FilmColumn(view) && p.totalFilms == TotalFilms(view);
    assert p.meanImdb == MeanImdb(view) && p.totalWins == TotalWins(view);
  }
}
