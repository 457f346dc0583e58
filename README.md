# Movie recommender: the `recommend` selection rule

This project models in Dafny the one piece of logic in the movie recommender app: `recommend(movie)`.
The app loads a movie catalog and a precomputed square matrix of similarity scores. Row and column `i`
of the matrix belong to catalog row `i`. Given a title picked by the user, `recommend`:

1. finds the first catalog row with that title;
2. takes that row of the similarity matrix;
3. pairs every column with its score (`enumerate`) and sorts the pairs by score, highest first, with
   Python's stable `sorted(..., reverse=True)`;
4. drops the first-ranked pair and keeps the next eight (`[1:9]`);
5. walks those pairs in a loop, appending each movie's title to one list and its poster URL to another.

The page then draws an eight-column grid from the two lists.

Files:

- `ranking.dfy` (module `SimilarityRanking`) covers step 3, on a row it is given. The sort is a stable
  insertion sort that compares scores only, as the `key=` does. On enumerated input, its result is proved to be:
  - ordered by descending score, with ties in ascending column order;
  - a permutation of the columns, each paired with its own score;
  - the only sequence with both properties, so the choice of stable sorting algorithm does not matter.
- `recommender.dfy` (module `Recommender`) covers the rest:
  - the title lookup, taking the query's row of the matrix (`Chosen`) and the `[1:9]` slice, as functions;
  - the poster fetch, as a function of a `lookup` parameter;
  - the specification function `Recommendation`;
  - the method `Recommend`, whose loop builds the two lists and is proved equal to `Recommendation`;
  - the grid of the results page.

The similarity scores are `real`. The code only compares them, so floating-point arithmetic plays no part.
The poster service is the parameter `lookup: int -> Option<string>`. It gives the `poster_path` of the
service's answer for a movie id, or `None` when the call yields no usable path. In the source, a missing
path raises inside `fetch_poster` and aborts the whole `recommend`. The model returns
`Failure(PosterUnavailable(id))` for the first such movie.

One might expect the query movie itself never to be recommended. The code instead drops whatever ranks
first, and that is the query only when its own column ranks ahead of every other column: its score beats
theirs, or ties and its column is smaller (`FirstRankedIsIff`, `QueryExcludedWhenRankedFirst`). In
general, the query's own row is among the results exactly when between one and eight columns rank ahead
of it (`QueryShortlistedIff`). For example, when one earlier movie ties with the query's own score and every
other score is lower, the query is the first result (`QueryFirstWhenOneAhead`; on a three-movie example,
`QueryRecommendedOnTie`).

## Model

| member | source | states |
|---|---|---|
| `SimilarityRanking.InsertByScore` | app.py:68-69 | inserting one pair adds exactly that pair: the result is the old entries plus the new one, as a multiset |
| `SimilarityRanking.SortByScoreDesc` | app.py:68-69 | the sorted list has the same length as its input and is a permutation of it |
| `SimilarityRanking.InsertKeepsRanked` | app.py:68-69 | inserting a pair behind every pair with an equal or higher score keeps the list ordered by score, then by column, when the new column is the largest |
| `SimilarityRanking.SortRanksAscendingInput` | app.py:68-69 | sorting by score alone, stably, puts input whose columns ascend into score-then-column order |
| `SimilarityRanking.RankingOrdered` | app.py:68-69 | in `Ranking`, scores in the ranking never increase, and tied scores appear in ascending column order (stability of `sorted(..., reverse=True)`) |
| `SimilarityRanking.RankingCoversEveryColumn` | app.py:67-68 | before slicing, `Ranking` holds every column 0..N-1 exactly once, each paired with its own score from the query's row |
| `SimilarityRanking.RankedHeadsAgree` | app.py:68-69 | two nonempty arrangements of the same pairs in score-then-column order start with the same pair |
| `SimilarityRanking.StrictlyRankedUnique` | app.py:68-69 | two arrangements of the same pairs that are both in score-then-column order are equal |
| `SimilarityRanking.RankingIsTheOnlyOrder` | app.py:68-69 | any permutation of `Enumerate(row)`, the pairs of `enumerate(distances)`, that is in score-then-column order is the ranking, whichever stable sort produced it |
| `SimilarityRanking.FirstRankedIsIff` | app.py:68-69 | the first-ranked column is the query's row exactly when its score beats, or ties with a larger column, every other score |
| `SimilarityRanking.ColumnsBeforeSize` | app.py:68-69 | the first p positions of a ranking, whose columns are distinct, name exactly p columns |
| `SimilarityRanking.RankPositionIsNumberAhead` | app.py:68-69 | the column at position p of `Ranking` has exactly p columns ranked ahead of it (higher score, or equal score and smaller column) |
| `Recommender.FindTitle` | app.py:66 | the lookup returns the smallest catalog row whose title equals the query, or nothing exactly when no title matches |
| `Recommender.Shortlist` | app.py:69 | the slice `[1:9]` drops the first entry and keeps entries 1..8 in order: min(8, N-1) of them, none when N is 0 or 1 |
| `Recommender.FetchPoster` | app.py:56-61 | the poster URL is the image base URL followed by the poster path, and a missing path fails with that movie's id |
| `Recommender.FetchPostersMeaning` | app.py:73-76 | `FetchPosters`, fetching posters for the shortlist in order, succeeds exactly when every movie has one; entry k is movie k's poster, and otherwise the error names the first movie without one |
| `Recommender.FailedPrefixFailsAll` | app.py:73-77 | once a poster fetch fails, the remaining iterations cannot change the outcome: the whole call fails with that error |
| `Recommender.ChosenInCatalog` | app.py:67-74 | `Chosen`, the shortlist `movies_list` taken from the query's row of the matrix, names only catalog rows, so `iloc` on each is in range |
| `Recommender.TitlesStep` | app.py:75 | appending the title of shortlist entry k turns the titles of the first k entries into those of the first k+1 |
| `Recommender.PostersStep` | app.py:74-76 | after k successful fetches, fetching entry k's poster either appends it to the k posters or fails the first k+1 with its error |
| `Recommender.Recommend` | app.py:65-77 | the loop that appends titles and posters returns exactly the specification function `Recommendation`: titles and posters of the ranked shortlist in rank order, or TitleNotFound, or the first missing poster |
| `Recommender.NotFoundIff` | app.py:66 | `recommend` fails with TitleNotFound exactly when no catalog row has the query title |
| `Recommender.SucceedsIffPostersAvailable` | app.py:73-77 | once the title is found, `recommend` succeeds exactly when every shortlisted movie has a poster, and otherwise fails on the first movie without one, with no partial result |
| `Recommender.ResultAlignedWithRanking` | app.py:68-77 | a result has two lists of equal length min(8, N-1); entry k of both comes from the catalog row at rank position k+1: its title (`Titles`), and its poster URL |
| `Recommender.GridNeedsNineMovies` | app.py:94-118 | `Grid`: the eight-column grid can be drawn from a result exactly when the catalog has at least nine movies, and column c then shows result entry c |
| `Recommender.QueryExcludedWhenRankedFirst` | app.py:68-69 | if the query's own column ranks ahead of every other column (a higher score, or an equal one at a smaller column), its row is never in the result, and the result is min(8, N-1) entries ranked ahead of every other column left out |
| `Recommender.QueryShortlistedIff` | app.py:68-69 | for a catalog of any size, the query's own row is in the result exactly when between one and eight columns rank ahead of it |
| `Recommender.QueryFirstWhenOneAhead` | app.py:68-69 | if exactly one other column ranks ahead of the query and the query ranks ahead of all the rest, the query's own row is the first result |
| `Recommender.TieRanking` | app.py:68-69 | on the tied row [1.0, 1.0, 0.0], the ranking is columns 0, 1, 2: the tie keeps column order |
| `Recommender.TieChosen` | app.py:67-69 | on a three-movie matrix where rows 0 and 1 tie, querying either of them shortlists rows 1 and 2 |
| `Recommender.TieRowsOneAndTwo` | app.py:73-76 | rows 1 and 2 of that catalog have titles "B" and "C", and with every poster present fetching theirs succeeds |
| `Recommender.TieShortlist` | app.py:67-76 | querying row 0 or row 1 of that catalog yields the titles "B" and "C", and every poster fetch succeeds |
| `Recommender.TieRecommendation` | app.py:65-77 | on that catalog, a query found at row 0 or row 1 succeeds with the titles "B" then "C" |
| `Recommender.QueryRecommendedOnTie` | app.py:65-77 | on that catalog, "A" is recommended "B" then "C", and "B" is also recommended "B" then "C", which includes itself |

## Left out

- Building the similarity matrix with `CountVectorizer` and `cosine_similarity` (app.py:22-27). These are library calls with floating-point numerics. The matrix is an input, and the model requires it to be square with one row per catalog movie (`WellFormed`). Its symmetry and unit diagonal are not assumed, because `recommend` does not rely on them.
- Loading the catalog from CSV (app.py:16-19). It is file I/O. The catalog is an input sequence of `Movie(id, title)`. The `soup` column is used only by the matrix builder and is not modelled.
- Pandas index labels. `.index[0]` returns a row label, which `similarity[...]` then uses as a position; `iloc` receives the `enumerate` position `x[0]` and is unaffected. The model treats label and position as the same, which holds for the default index that `read_csv` builds.
- `fetch_poster`'s HTTP request and JSON parsing (app.py:57-60). These become the `lookup` parameter. Any failure of the call, including a network error, is `None` and aborts the request like a missing `poster_path`. `lookup` is a mathematical function, so the service is assumed to answer the same way for the same id within one request.
- The background image helpers `get_base64`, `get_background` and `set_background` (app.py:30-53). They are file reads, base64 encoding and HTML templating for the page style.
- `st.cache`, `st.set_page_config`, the select box, the button and the column widgets (app.py:10-16, 80-118). These are UI and caching plumbing. Only the grid's need for eight entries is kept (`Grid`, `GridNeedsNineMovies`). When the lists are short, the page draws the columns before the first missing index and then raises. The model does not capture those partly drawn columns: it returns `None` for the whole grid.
- Exceptions. The model returns one `Result` instead of raising. On an error, the lists built so far are discarded, as the exception discards them in the source.
