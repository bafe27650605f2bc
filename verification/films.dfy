/** The film records and the exploded frame of app.py lines 18-19. Line 18
    adds a `gêneros_lista` column holding each film's genre tokens; line 19
    explodes that column, so that every film becomes one row per token, or
    one row with a null genre when its list is empty (pandas `explode` on an
    empty list). */
module Films {
  import opened Collections
  import opened Tokenizer

  /** One record of the Best Picture nominee table; every cell may be null. */
  datatype Film = Film(
    title: Option<string>,         // título
    year: Option<int>,             // ano
    genres: Option<string>,        // gêneros, comma separated
    director: Option<string>,      // diretor, kept as one raw string
    imdb: Option<real>,            // nota_imdb
    letterboxd: Option<real>,      // nota_letterboxd
    nominations: Option<int>,      // indicações
    wins: Option<int>,             // vitórias
    wonBestPicture: Option<bool>)  // venceu_melhor_filme

  /** A film after line 18: its cells plus the `gêneros_lista` list cell. */
  datatype ListedFilm = ListedFilm(film: Film, genreList: seq<string>)

  /** A row of the exploded frame: the film's cells plus one `gêneros_lista` cell. */
  datatype Row = Row(film: Film, genre: Option<string>)

  /** Line 18: the token list column, computed film by film. */
  function AddGenreLists(films: seq<Film>): (listed: seq<ListedFilm>)
    ensures |listed| == |films|
    ensures forall i :: 0 <= i < |films| ==> listed[i].film == films[i]
  {
    if films == [] then []
    else [ListedFilm(films[0], Tokenize(films[0].genres))] + AddGenreLists(films[1..])
  }

  /** One row per token, carrying the film and that token, in token order. */
  function RowsFor(f: Film, toks: seq<string>): seq<Row>
  {
    if toks == [] then [] else [Row(f, Some(toks[0]))] + RowsFor(f, toks[1..])
  }

  /** The rows one listed film explodes into. */
  function ExplodeOne(lf: ListedFilm): seq<Row>
  {
    if lf.genreList == [] then [Row(lf.film, None)] else RowsFor(lf.film, lf.genreList)
  }

  /** Number of rows a listed film explodes into. */
  function RowCount(lf: ListedFilm): nat
  {
    if lf.genreList == [] then 1 else |lf.genreList|
  }

  /** Line 19: `df.explode('gêneros_lista')`, keeping the row order. */
  function Explode(listed: seq<ListedFilm>): (rows: seq<Row>)
    ensures |rows| >= |listed|
  {
    if listed == [] then []
    else
      ExplodeOneShape(listed[0]);
      ExplodeOne(listed[0]) + Explode(listed[1..])
  }

  /** Lines 18-19 together: the frame every later step works on. */
  function Expand(films: seq<Film>): (rows: seq<Row>)
    ensures |rows| >= |films|
  {
    Explode(AddGenreLists(films))
  }

  /** The `gêneros_lista` column of a frame. */
  function GenreColumn(rows: seq<Row>): (c: seq<Option<string>>)
    ensures |c| == |rows| && forall i :: 0 <= i < |rows| ==> c[i] == rows[i].genre
  {
    seq(|rows|, i requires 0 <= i < |rows| => rows[i].genre)
  }

  /** The film part of each row, in row order. */
  function FilmColumn(rows: seq<Row>): (c: seq<Film>)
    ensures |c| == |rows| && forall i :: 0 <= i < |rows| ==> c[i] == rows[i].film
  {
    seq(|rows|, i requires 0 <= i < |rows| => rows[i].film)
  }

  function Years(rows: seq<Row>): (c: seq<Option<int>>)
    ensures |c| == |rows| && forall i :: 0 <= i < |rows| ==> c[i] == rows[i].film.year
  {
    seq(|rows|, i requires 0 <= i < |rows| => rows[i].film.year)
  }

  function Titles(rows: seq<Row>): (c: seq<Option<string>>)
    ensures |c| == |rows| && forall i :: 0 <= i < |rows| ==> c[i] == rows[i].film.title
  {
    seq(|rows|, i requires 0 <= i < |rows| => rows[i].film.title)
  }

  function Directors(rows: seq<Row>): (c: seq<Option<string>>)
    ensures |c| == |rows| && forall i :: 0 <= i < |rows| ==> c[i] == rows[i].film.director
  {
    seq(|rows|, i requires 0 <= i < |rows| => rows[i].film.director)
  }

  function Ratings(rows: seq<Row>): (c: seq<Option<real>>)
    ensures |c| == |rows| && forall i :: 0 <= i < |rows| ==> c[i] == rows[i].film.imdb
  {
    seq(|rows|, i requires 0 <= i < |rows| => rows[i].film.imdb)
  }

  lemma {:induction false} RowsForMembers(f: Film, toks: seq<string>)
    ensures |RowsFor(f, toks)| == |toks|
    ensures forall r :: r in RowsFor(f, toks) ==> r.film == f && r.genre.Some? && r.genre.value in toks
  {
    if toks != [] {
      RowsForMembers(f, toks[1..]);
      assert forall t :: t in toks[1..] ==> t in toks;
    }
  }

  lemma GenreColumnAppend(a: seq<Row>, b: seq<Row>)
    ensures GenreColumn(a + b) == GenreColumn(a) + GenreColumn(b)
  {
  }

  lemma {:induction false} RowsForGenres(f: Film, toks: seq<string>)
    ensures Present(GenreColumn(RowsFor(f, toks))) == toks
  {
    if toks != [] {
      var head, tail := [Row(f, Some(toks[0]))], RowsFor(f, toks[1..]);
      RowsForGenres(f, toks[1..]);
      assert RowsFor(f, toks) == head + tail;
      GenreColumnAppend(head, tail);
      assert GenreColumn(head) == [Some(toks[0])];
      PresentAppend(GenreColumn(head), GenreColumn(tail));
      assert Present([Some(toks[0])]) == [toks[0]] by {
        assert [Some(toks[0])][1..] == [];
      }
      assert toks == [toks[0]] + toks[1..];
    }
  }

  lemma RowsForShape(f: Film, toks: seq<string>)
    ensures var rows := RowsFor(f, toks);
      && |rows| == |toks|
      && (forall r :: r in rows ==> r.film == f && r.genre.Some? && r.genre.value in toks)
      && Present(GenreColumn(rows)) == toks
  {
    RowsForMembers(f, toks);
    RowsForGenres(f, toks);
  }

  /** Exploding one film keeps the film on every row, reads back as its token
      list, and yields the null-genre row exactly when the list is empty. */
  lemma ExplodeOneShape(lf: ListedFilm)
    ensures var rows := ExplodeOne(lf);
      && |rows| == RowCount(lf) >= 1
      && (forall r :: r in rows ==> r.film == lf.film)
      && (forall r :: r in rows && r.genre.Some? ==> r.genre.value in lf.genreList)
      && Present(GenreColumn(rows)) == lf.genreList
      && (Row(lf.film, None) in rows <==> lf.genreList == [])
  {
    if lf.genreList == [] {
      assert GenreColumn([Row(lf.film, None)]) == [None];
    } else {
      RowsForShape(lf.film, lf.genreList);
    }
  }

  lemma {:induction false} ExplodeAppend(a: seq<ListedFilm>, b: seq<ListedFilm>)
    ensures Explode(a + b) == Explode(a) + Explode(b)
  {
    if a == [] {
      assert a + b == b;
    } else {
      assert (a + b)[0] == a[0] && (a + b)[1..] == a[1..] + b;
      ExplodeAppend(a[1..], b);
    }
  }

  function RowCounts(listed: seq<ListedFilm>): nat
  {
    if listed == [] then 0 else RowCount(listed[0]) + RowCounts(listed[1..])
  }

  /** The exploded frame has one row per token of each film, and one for each
      film without tokens. */
  lemma {:induction false} ExplodeLength(listed: seq<ListedFilm>)
    ensures |Explode(listed)| == RowCounts(listed)
  {
    if listed != [] {
      ExplodeLength(listed[1..]);
      ExplodeOneShape(listed[0]);
    }
  }

  /** Every exploded row comes from a listed film: its genre is one of that
      film's tokens, or null when the film has none. */
  lemma {:induction false} ExplodeRowsFromFilms(listed: seq<ListedFilm>, r: Row)
    requires r in Explode(listed)
    ensures exists lf :: (lf in listed && lf.film == r.film
      && (r.genre.Some? ==> r.genre.value in lf.genreList)
      && (r.genre.None? ==> lf.genreList == []))
  {
    var head := ExplodeOne(listed[0]);
    ExplodeOneShape(listed[0]);
    if r in head {
      assert listed[0] in listed;
      if r.genre.None? {
        assert r == Row(listed[0].film, None);
      }
    } else {
      ExplodeRowsFromFilms(listed[1..], r);
      var lf :| lf in listed[1..] && lf.film == r.film
        && (r.genre.Some? ==> r.genre.value in lf.genreList)
        && (r.genre.None? ==> lf.genreList == []);
      assert lf in listed;
    }
  }

  /** Exploding never drops a film: the films of the exploded frame are
      exactly the films of the listing. */
  lemma ExplodeKeepsFilms(listed: seq<ListedFilm>)
    ensures forall f :: f in FilmColumn(Explode(listed)) <==> exists lf :: lf in listed && lf.film == f
  {
    var rows := Explode(listed);
    forall f | f in FilmColumn(rows) ensures exists lf :: lf in listed && lf.film == f {
      var i :| 0 <= i < |rows| && FilmColumn(rows)[i] == f;
      ExplodeRowsFromFilms(listed, rows[i]);
    }
    forall f | exists lf :: lf in listed && lf.film == f ensures f in FilmColumn(rows) {
      var lf :| lf in listed && lf.film == f;
      var k :| 0 <= k < |listed| && listed[k] == lf;
      ExplodeOneShape(listed[k]);
      var r := ExplodeOne(listed[k])[0];
      assert r in ExplodeOne(listed[k]);
      ExplodeContains(listed, k, r);
      var i :| 0 <= i < |rows| && rows[i] == r;
      assert FilmColumn(rows)[i] == f;
    }
  }

  lemma {:induction false} AddGenreListsAt(films: seq<Film>, k: int)
    requires 0 <= k < |films|
    ensures AddGenreLists(films)[k] == ListedFilm(films[k], Tokenize(films[k].genres))
  {
    if k > 0 {
      AddGenreListsAt(films[1..], k - 1);
    }
  }

  /** Every expanded row carries an input film; its genre is one of that
      film's tokens, or null exactly for a film whose genres yield no token. */
  lemma ExpandRows(films: seq<Film>, r: Row)
    requires r in Expand(films)
    ensures r.film in films
    ensures r.genre.Some? ==> r.genre.value in Tokenize(r.film.genres)
    ensures r.genre.None? ==> Tokenize(r.film.genres) == []
  {
    var listed := AddGenreLists(films);
    ExplodeRowsFromFilms(listed, r);
    var lf :| lf in listed && lf.film == r.film
      && (r.genre.Some? ==> r.genre.value in lf.genreList)
      && (r.genre.None? ==> lf.genreList == []);
    var k :| 0 <= k < |listed| && listed[k] == lf;
    AddGenreListsAt(films, k);
  }

  /** Expanding never drops a film: each input film has at least one row,
      and every row carries an input film. */
  lemma ExpandKeepsFilms(films: seq<Film>)
    ensures forall f :: f in FilmColumn(Expand(films)) <==> f in films
  {
    var listed := AddGenreLists(films);
    ExplodeKeepsFilms(listed);
    forall f | f in films ensures exists lf :: lf in listed && lf.film == f {
      var k :| 0 <= k < |films| && films[k] == f;
      assert listed[k] in listed;
    }
    forall f | (exists lf :: lf in listed && lf.film == f) ensures f in films {
      var lf :| lf in listed && lf.film == f;
      var k :| 0 <= k < |listed| && listed[k] == lf;
    }
  }

  /** Every film of the exploded frame's listing contributes its rows. */
  lemma {:induction false} ExplodeContains(listed: seq<ListedFilm>, k: int, r: Row)
    requires 0 <= k < |listed| && r in ExplodeOne(listed[k])
    ensures r in Explode(listed)
  {
    if k > 0 {
      ExplodeContains(listed[1..], k - 1, r);
    }
  }

  /** Each token of a listed film appears as a row of that film. */
  lemma ListedHasToken(listed: seq<ListedFilm>, k: int, g: string)
    requires 0 <= k < |listed| && g in listed[k].genreList
    ensures Row(listed[k].film, Some(g)) in Explode(listed)
  {
    var rows := ExplodeOne(listed[k]);
    ExplodeOneShape(listed[k]);
    assert Some(g) in GenreColumn(rows);
    var i :| 0 <= i < |rows| && GenreColumn(rows)[i] == Some(g);
    assert rows[i] in rows;
    ExplodeContains(listed, k, rows[i]);
  }

  /** Each token of an input film's genres appears as a row of that film. */
  lemma ExpandHasToken(films: seq<Film>, f: Film, g: string)
    requires f in films && g in Tokenize(f.genres)
    ensures Row(f, Some(g)) in Expand(films)
  {
    var k :| 0 <= k < |films| && films[k] == f;
    AddGenreListsAt(films, k);
    ListedHasToken(AddGenreLists(films), k, g);
  }
}
