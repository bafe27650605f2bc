# Oscar Best Picture dashboard: the data pipeline in Dafny

`app.py` is a Streamlit page that explores the Best Picture nominees. Under
the widgets it is a pure pipeline from the film table and a sidebar selection
to what the page displays:

1. Line 18 adds a genre list to each film. The comma-separated `gêneros`
   string (null read as `''`) is split on `,`, each piece is stripped of
   whitespace, and empty pieces are dropped.
2. Line 19 explodes that list. A film becomes one row per genre token, or one
   row with a null genre when it has no token.
3. Lines 24-26 build the option lists of the three multiselect widgets: the
   sorted distinct non-null years, genre tokens and raw director strings of
   the exploded frame.
4. Lines 32-41 filter the exploded frame by year, by genre token and by raw
   director string, in that order. A step applies only when its selection is
   non-empty.
5. Lines 47-50 compute the KPIs of the filtered frame:
   - the distinct non-null titles;
   - the mean IMDb rating, nulls skipped;
   - the distinct non-null director strings;
   - the sum of the wins, nulls as 0.
6. Line 55 groups the filtered rows by genre token and averages the IMDb
   ratings of each group.
7. Line 85 shows the filtered rows as the film table.

The model is written as functions over sequences, with lemmas, because the
source is a chain of column expressions without loops or state. It has seven
modules:

- `Collections` holds the pandas operations the page relies on: boolean-mask
  selection (`Keep`), `dropna` (`Present`), `nunique` (`CountDistinct`),
  `sum` and `mean`. A null cell is `None`, and a mean of nothing (NaN) is
  `None`.
- `Ordering` holds Python's `sorted(unique)` for integers and for strings
  compared code point by code point.
- `Tokenizer` holds line 18, with `str.split(',')` and `str.strip()`. Stripping
  removes the characters for which Python's `str.isspace()` is true.
- `Films` holds the film record, the list column of line 18 and the explode
  of line 19.
- `Filters` holds the option lists and the filter chain.
- `Metrics` holds the KPIs and the per-genre chart.
- `Dashboard` holds the whole page, and a worked example with two films.

## Model

| member | source | states |
|---|---|---|
| Tokenizer.Split | app.py:18 | `x.split(',')` yields at least one piece, and no piece holds a comma |
| Tokenizer.JoinSplit | app.py:18 | joining the pieces with `,` gives back the string (nothing is lost by the split) |
| Tokenizer.SplitJoin | app.py:18 | splitting comma-free pieces joined by `,` gives back the pieces |
| Tokenizer.Strip | app.py:18 | `g.strip()` has no whitespace at either end, is empty exactly when g is all whitespace, and only holds characters of g |
| Tokenizer.StripDecomposes | app.py:18 | every string is leading whitespace + its stripped form + trailing whitespace |
| Tokenizer.StripSurrounded | app.py:18 | stripping whitespace-padded trimmed text gives that text back |
| Tokenizer.Tokens | app.py:18 | the comprehension keeps at most one token per piece; tokens are non-empty, trimmed, and comma-free when the pieces are |
| Tokenizer.Tokenize | app.py:18 | every token is non-empty, comma-free and trimmed; a null genres cell yields no token |
| Tokenizer.TokensKeepStripped | app.py:18 | the tokens are exactly the stripped pieces that are not blank, in the order of the pieces |
| Tokenizer.TokensAreStrippedPieces | app.py:18 | a string is a token iff it is non-empty and some piece strips to it |
| Tokenizer.TokenizeSome | app.py:18 | the genre list of a non-null cell is its non-blank stripped comma pieces in order; a string is in it iff it is non-empty and some piece strips to it |
| Tokenizer.TokenizeBlank | app.py:18 | a genres string yields no token iff it holds only whitespace and commas (the empty string included) |
| Tokenizer.TokenizeJoin | app.py:18 | round trip: tokens written as "A, B, C" tokenize back to exactly those tokens, in order |
| Films.AddGenreLists | app.py:18 | the list column adds one list per film and keeps each film's cells and order |
| Films.AddGenreListsAt | app.py:18 | the list of film k is the tokenization of film k's genres |
| Films.Explode | app.py:19 | the exploded frame has at least one row per film |
| Films.ExplodeOneShape | app.py:19 | a film with k ≥ 1 tokens gives k rows carrying those tokens in order; a film without tokens gives exactly one null-genre row; every row keeps the film's cells |
| Films.RowsForShape | app.py:19 | the rows of one film are as many as its tokens, carry the film, and read back as the token list |
| Films.ExplodeAppend | app.py:19 | exploding works film by film: it distributes over concatenation |
| Films.ExplodeLength | app.py:19 | the row count is the sum over films of max(1, number of tokens) |
| Films.ExplodeRowsFromFilms | app.py:19 | every row comes from a listed film; its genre is one of that film's tokens, or null only for a film without tokens |
| Films.ExplodeKeepsFilms | app.py:19 | a film is in the exploded frame iff some listed film carries it |
| Films.ExplodeContains | app.py:19 | every row a film explodes into is in the exploded frame |
| Films.ListedHasToken | app.py:19 | each token of a listed film appears as a row of that film |
| Films.Expand | app.py:18-19 | lines 18-19 together give at least one row per film; ExpandRows, ExpandKeepsFilms and ExpandHasToken give the rows exactly |
| Films.ExpandRows | app.py:18-19 | every expanded row carries an input film, with one of its tokens or a null genre when it has none |
| Films.ExpandKeepsFilms | app.py:18-19 | no film is lost or invented by lines 18-19 |
| Films.ExpandHasToken | app.py:18-19 | each token of each input film appears as a row (film, token) |
| Ordering.StrLessIsStrictTotalOrder | app.py:25-26 | Python's string order (code points, a proper prefix first) is a strict total order |
| Ordering.IntLessIsStrictTotalOrder | app.py:24 | the year order is a strict total order |
| Ordering.SortedDistinct | app.py:24-26 | `sorted(unique)` keeps exactly the values of the column and is no longer than it |
| Ordering.SortedDistinctSorted | app.py:24-26 | under a strict total order the listing is strictly ascending |
| Ordering.StrictlySortedDistinct | app.py:24-26 | a strictly ascending listing has no duplicates |
| Ordering.StrictlySortedUnique | app.py:24-26 | two strictly ascending listings of the same values are equal |
| Filters.YearOptions | app.py:24 | the year options are strictly ascending and are exactly the non-null years of the rows |
| Filters.GenreOptions | app.py:25 | the genre options are strictly ascending and are exactly the non-null genre tokens of the rows; the null genre is never offered |
| Filters.DirectorOptions | app.py:26 | the director options are strictly ascending and are exactly the non-null raw director strings |
| Filters.YearOptionsUnique | app.py:24 | the year options are the only strictly ascending listing of the years present |
| Filters.GenreOptionsUnique | app.py:25 | the genre options are the only strictly ascending listing of the genres present |
| Filters.DirectorOptionsUnique | app.py:26 | the director options are the only strictly ascending listing of the directors present |
| Filters.ExpandedOptions | app.py:18-25 | over the exploded frame, the genre options are exactly the tokens of the films' genres and the year options the films' years |
| Filters.Step | app.py:34-41 | one `if` block: the surviving rows are exactly the rows its gate lets through, and there are no more of them than before; StepIsKeep gives their order |
| Filters.Filtered | app.py:32-41 | the filter chain: a row survives iff it is in the frame and every non-empty selection holds its year, genre token and director |
| Filters.StepIsKeep | app.py:34-41 | each `if` block selects by its gate: no constraint when the selection is empty, `isin` otherwise |
| Filters.StepsAreOneKeep | app.py:34-41 | three steps in a row select the conjunction of their gates |
| Filters.FilteredIsOnePass | app.py:32-41 | the chain is a single selection by the conjunctive condition |
| Filters.FilteredMembers | app.py:32-41 | a row survives iff it is in the frame and every non-empty selection holds its year, genre token and director |
| Filters.FilteredIsSubsequence | app.py:32-41 | the result is an order-preserving subsequence of the frame, so it is no longer |
| Filters.PassThrough | app.py:32-41 | with all three selections empty the frame passes unchanged |
| Filters.FilteredAppend | app.py:32-41 | filtering distributes over concatenation |
| Filters.FilteredSingle | app.py:32-41 | a single row passes iff the selection admits it |
| Filters.StepsCommute | app.py:34-41 | any two steps commute |
| Filters.AnyOrder | app.py:34-41 | the three steps in any order give the same rows |
| Filters.FilterMonotone | app.py:34-41 | a narrower selection keeps a subsequence of what a wider one keeps |
| Filters.EnlargeNeverShrinks | app.py:34-41 | adding values to non-empty selections never removes a row |
| Filters.ActivateYearsNeverGrows | app.py:34-35 | choosing years where none were chosen never adds a row |
| Filters.ActivateGenresNeverGrows | app.py:37-38 | choosing genres where none were chosen never adds a row |
| Filters.ActivateDirectorsNeverGrows | app.py:40-41 | choosing directors where none were chosen never adds a row |
| Filters.NullGenreNeverSelected | app.py:37-38 | with a non-empty genre selection every surviving row has a selected, non-null genre |
| Metrics.TotalFilms | app.py:47 | "Total de Filmes" is at most the number of rows, and is 0 iff every title is null |
| Metrics.TotalFilmsCountsTitles | app.py:47 | "Total de Filmes" is the number of distinct non-null titles |
| Metrics.SameTitleCountedOnce | app.py:47 | a row whose title is already present (another genre row, or another film of the same name) leaves the count unchanged |
| Metrics.TotalFilmsMonotone | app.py:47 | removing rows never raises the count |
| Metrics.MeanImdb | app.py:48 | "Média IMDb" is NaN (None) iff every rating is null |
| Metrics.RatingsNone | app.py:48 | the rating column has no value iff every rating is null |
| Metrics.MeanImdbBounds | app.py:48 | the mean lies within any bounds of the non-null ratings |
| Metrics.UniqueDirectors | app.py:49 | "Diretores Únicos" is at most the number of rows |
| Metrics.UniqueDirectorsCountsOptions | app.py:49 | "Diretores Únicos" equals the number of distinct raw director strings (the length of their sorted option list) |
| Metrics.TotalWins | app.py:50 | "Total de Vitórias", the sum of the wins of every row with null as 0, is non-negative when every count is; TotalWinsExploded and TotalWinsAppend give its value |
| Metrics.TotalWinsAppend | app.py:50 | the total of two frames is the sum of their totals |
| Metrics.TotalWinsOneFilm | app.py:50 | a film exploded into k rows adds k times its wins (null as 0) |
| Metrics.TotalWinsExploded | app.py:50 | over the exploded frame each film's wins count once per genre row |
| Metrics.TotalWinsKeep | app.py:50 | with non-negative win counts a selection's total is between 0 and the whole total |
| Metrics.TotalWinsFiltered | app.py:50 | with non-negative win counts filtering never raises the total |
| Metrics.Group | app.py:55 | a group holds exactly the rows of that genre token |
| Metrics.RatingByGenre | app.py:55 | one bar per distinct non-null genre, keys strictly ascending, and the keys are exactly the genres present |
| Metrics.BarIsGenreView | app.py:37-55 | each bar's mean equals the "Média IMDb" figure of the frame filtered to that genre alone |
| Metrics.BarNull | app.py:55 | a bar is NaN (None) iff no row of its genre has a rating |
| Metrics.BarBounds | app.py:55 | a bar lies within any bounds of its group's ratings |
| Metrics.SingleGenreBarIsKpi | app.py:37-55 | with one genre selected the chart is empty when no row survives, and otherwise is that genre's single bar, equal to "Média IMDb" |
| Dashboard.Render | app.py:24-85 | both KPI counts are at most the table length, the table is no longer than the exploded frame, and the mean is NaN iff no shown film has a rating |
| Dashboard.TableFilms | app.py:32-41 | the table shows only input films, and every input film when nothing is selected |
| Dashboard.ExpandTwo | app.py:18-19 | two films with two and one tokens explode into three rows in film and token order |
| Dashboard.ExampleRows | app.py:18-19 | "Drama, War" and "Drama" explode into Drama and War rows for the first film, then a Drama row |
| Dashboard.ExampleUnfiltered | app.py:47-55 | with nothing selected: 2 films, mean 22/3, 2 directors, 5 wins (the first film's 2 counted twice), bars Drama 7.0 and War 8.0 |
| Dashboard.ExampleWar | app.py:37-50 | selecting War leaves the first film only: 1 film, mean 8.0, its 2 wins |

## Left out

- The CSV download and the `st.cache_data` cache (app.py:9-15) are network I/O and a framework decorator. The film table is a parameter.
- The Streamlit layout, widgets and metric rendering (app.py:6, 22, 28-30, 44-46, 52, 80, 84) are not modelled. The multiselect values are the `Selection` parameter, and only the values handed to `st.metric`, `px.bar` and `st.dataframe` are modelled.
- The Plotly figure and its styling (app.py:57-78) are presentation and are left out.
- The `:.2f` formatting (line 48) and `.round(2)` (line 65) are not modelled. Ratings are exact `real` numbers, so floating-point rounding does not arise. NaN is `None`.
- Dashboard.Render: the table is the `Film` part of each filtered row. The `gêneros_lista` cell is not among the displayed columns of line 83, so dropping it loses nothing shown.
- The `int()` of line 50 is not modelled, because win counts are integers here. A win count that pandas reads as a float is not modelled.
- `nota_letterboxd`, `indicações` and `venceu_melhor_filme` are carried through to the table unchanged; nothing on the page computes with them.
- Behaviour of `app.py` kept as written where a reader might expect otherwise:
  - identical rows are not merged on (title, year);
  - "Total de Filmes" (line 47) identifies films by title alone, so two films with the same title count once even without the explode;
  - the KPIs are taken over the exploded rows, so "Total de Vitórias" counts a film once per genre row and "Média IMDb" weights a film by its number of genre rows;
  - a genre group whose ratings are all null keeps its bar with a NaN (`None`) mean instead of being omitted;
  - directors are not split;
  - there are no decade, cast or outcome filters.
- Metrics.UniqueDirectors: its own contract only bounds the count. The distinct-string meaning is stated by Metrics.UniqueDirectorsCountsOptions.
- Metrics.TotalWinsKeep and Metrics.TotalWinsFiltered require non-negative win counts. With negative counts a filter can raise the total, and the source does not exclude them.
