# Movie recommender: ranked similarity lookup

A Dafny model of the query handler of a small content-based movie
recommender. The catalog is an ordered list of movies (title, description),
and a precomputed N×N similarity matrix scores every pair of movies. A query
is folded to lower case and resolved through a lower-case-to-title map. The
resolved movie's similarity row is paired with column indices and sorted by
score, highest first, with a stable sort. The first sorted entry is skipped,
and the titles of the next `top_n` entries are returned. An unknown query
yields `None`.

Modules, one per stage of the lookup:

- `Wrappers`: the `Option` result (`None` is the source's "movie not found").
- `CaseFold`: lower-casing of titles and queries, and equality up to letter case.
- `NameIndex`: the lower-case-to-title map and the position of a title in the catalog.
- `Ranking`: the (column, score) pairs of a row and the stable descending sort.
  `Rank` is a sort-free reference: the number of columns ranked ahead of a column.
- `Recommender`: the catalog, `Recommend` as written, and `RecommendOthers`, the
  corrected variant described under Findings.
- `Scenarios`: the shipped six-movie catalog and a two-movie catalog with tied scores.

Scores are `real`s: a total order with no NaN and no rounding. The similarity
matrix is a parameter of the catalog, because it comes from a foreign
TF-IDF/cosine computation.

## Model

| member | source | states |
|---|---|---|
| CaseFold.EqualIgnoringCaseIffLowerEqual | recommendation_system.py:34 | Two strings lower-case to the same string exactly when they have the same length and differ only in letter case (both directions). |
| CaseFold.SameLetterIffLowerEqual | recommendation_system.py:34 | Two characters lower-case alike exactly when they are equal or are the upper- and lower-case forms of one letter. |
| CaseFold.LowerStrIdempotent | recommendation_system.py:21 | Lower-casing a lower-cased string changes nothing. |
| NameIndex.LowerNameMap | recommendation_system.py:21 | The map's keys are exactly the lower-cased titles. Each key maps to a stored title, in its stored casing, that lower-cases to that key. |
| NameIndex.LowerNameMapLastWins | recommendation_system.py:21 | As in a dict comprehension, when several titles lower-case alike, the last one in catalog order is the one stored. |
| NameIndex.LowerNameMapInverse | recommendation_system.py:21 | When no two titles lower-case alike, every title is found under its own lower-cased form. |
| NameIndex.IndexOf | recommendation_system.py:41 | Returns a position holding the title, and no earlier position holds it (the first occurrence). |
| Ranking.SortDesc | recommendation_system.py:43 | The sorted sequence has non-increasing scores and is a permutation of the input. |
| Ranking.SortStable | recommendation_system.py:43 | The sort is stable: for every score value, the entries with that score come out in their input order. |
| Ranking.SortRanked | recommendation_system.py:42-43 | When the input lists columns in ascending order, as `enumerate` does, the output breaks ties by ascending column. |
| Ranking.SortedRow | recommendation_system.py:42-43 | The sorted enumeration of a row is exactly as long as the row. It holds every column once with its own score, in ranked order. |
| Ranking.RankIsPosition | recommendation_system.py:42-43 | The column in place p of the sorted row has exactly p columns ranked ahead of it under the sort-free definition `Rank`. |
| Ranking.PlaceOf | recommendation_system.py:42-43 | Every column appears in the sorted row, at the place given by its rank. |
| Ranking.ColumnOfRank | recommendation_system.py:42-43 | For each place p of a row there is exactly one column with p columns ranked ahead of it. |
| Recommender.Resolve | recommendation_system.py:34-41 | `None` exactly when no title lower-cases like the query. Otherwise the result is a catalog position whose title lower-cases like the query. |
| Recommender.ResolveUnique | recommendation_system.py:34-41 | When titles lower-case pairwise differently, a query resolves to the one position whose title matches it up to case. |
| Recommender.RankedPicks | recommendation_system.py:42-47 | Exactly min(top_n, N-1) columns are picked from a row of N (none from an empty row), all within the row. They come in non-increasing score order, equal scores by ascending column, with no column repeated. |
| Recommender.PickIsSortedEntry | recommendation_system.py:46 | The k-th pick is the entry in place k+1 of the sorted row, so only the first sorted entry is skipped. |
| Recommender.PickHasRank | recommendation_system.py:42-46 | The k-th pick is the column with exactly k+1 columns ranked ahead of it. |
| Recommender.PickedIffRank | recommendation_system.py:42-46 | A column is picked exactly when between 1 and top_n columns rank ahead of it. The column of rank 0 is dropped whichever column it is. |
| Recommender.StrictTopHasRankZero | recommendation_system.py:42-43 | A column whose score is strictly greater than every other score in its row has no column ranked ahead of it. |
| Recommender.Recommend | recommendation_system.py:33-49 | `None` exactly when no title lower-cases like the query. A found query gets exactly min(top_n, N-1) names, never padded, each a catalog title in its stored casing. |
| Recommender.RecommendByRank | recommendation_system.py:42-49 | A found query's k-th name is the title of the column of rank k+1 in the resolved movie's row. Every column of rank 1 to top_n is named. |
| Recommender.RecommendCaseInsensitive | recommendation_system.py:34-39 | Queries that differ only in letter case get identical answers. |
| Recommender.RecommendNoDuplicates | recommendation_system.py:42-47 | With distinct catalog titles, a found query gets an answer with no name returned twice. |
| Recommender.RecommendExcludesStrictTop | recommendation_system.py:41-47 | When the queried movie's own score is strictly the highest in its row, its column is not picked. With distinct titles, its title is not returned. |
| Recommender.RecommendReturnsOutrankedQuery | recommendation_system.py:41-47 | Without that hypothesis the queried movie's title is returned whenever between 1 and top_n columns rank ahead of it. |
| Recommender.RankedOthers | recommendation_system.py:45-47 | Corrected pick: exactly min(top_n, N-1) columns, never the queried column, in ranked order. Every other column ranked ahead of a picked column is picked too, so the picks are the best-ranked other columns. |
| Recommender.OthersAgreeWhenRankZero | recommendation_system.py:45-47 | When the queried column ranks first, the corrected pick and the pick as written are equal. |
| Recommender.RecommendOthers | recommendation_system.py:33-49 | Corrected recommendation: same not-found condition and length as `Recommend`. With titles that lower-case pairwise differently, no returned name matches the query up to case. |
| Recommender.RecommendOthersBestRanked | recommendation_system.py:42-49 | With distinct titles, every movie other than the queried one that ranks ahead of a named movie is named too. |
| Recommender.RecommendOthersAgreesOnStrictTop | recommendation_system.py:41-47 | When the queried movie's own score is strictly the highest in its row, the corrected recommendation equals the one as written. |
| Scenarios.SixMoviesUnknownNotFound | recommendation_system.py:7-37 | On the six shipped titles, with any descriptions and any square matrix, "unknown movie" is not found. |
| Scenarios.SixMoviesInceptionAnyCase | recommendation_system.py:7-46 | On the six shipped titles, "INCEPTION" and "inception" get the same answer: three names. |
| Scenarios.SixMoviesInceptionExcluded | recommendation_system.py:7-47 | When Inception's self-score tops its row, its three names come from the other five titles. |
| Scenarios.TieReturnsQueriedMovie | recommendation_system.py:43-47 | With titles Alpha and Beta and Beta's row [1.0, 1.0], querying "beta" with top_n 1 returns "Beta" itself. |
| Scenarios.TieCorrectedOmitsQueriedMovie | recommendation_system.py:45-47 | On the same tied catalog, the corrected recommendation does not return "Beta". |

## Left out

- TF-IDF vectorisation and cosine similarity (recommendation_system.py:1-2, 26-28) are foreign floating-point library calls. The similarity matrix is an abstract square matrix of reals. The model does not assume symmetry, a unit diagonal or any range.
- The interactive shell (recommendation_system.py:54-72) is console I/O. This covers its input trimming, the case-insensitive "exit" sentinel and its printing. Its default `top_n` of 3 appears only as the constant `DefaultTopN`.
- Python's full Unicode `str.lower()`. Lower-casing is ASCII folding of 'A'..'Z'.
- Negative `top_n`. With a negative end bound the Python slice counts from the end, so `top_n` is a `nat`.
- Floating-point scores (rounding, NaN). Scores are exact reals compared with Dafny's order.
- `list.index` raising `ValueError`: `NameIndex.IndexOf` requires the title to be present. Its only caller passes a title taken from the map, which always is present.
- The concrete TF-IDF ranking of the six shipped movies (which titles outrank which) depends on the foreign similarity values. The scenarios hold for every matrix.
- Behaviour of the code that the model keeps as written:
  - `top_n` may be 0 and then the answer is empty.
  - The name map keeps the last of several titles that lower-case alike, and the lookup then takes the first position of that title.
  - The row is paired with every column, including the queried one, and the first sorted entry is dropped. The queried column is not excluded as such.

## Findings

| source | as written | input that shows it | evidently intended | confidence | as-written member | corrected member |
|---|---|---|---|---|---|---|
| recommendation_system.py:45-47 | Skips the first entry of the sorted row, assuming that entry is the queried movie. Stable sorting puts an earlier column with an equal score first. | Titles ["Alpha", "Beta"], both described as "space travel", Beta's row [1.0, 1.0], query "beta", top_n 1: returns ["Beta"], the queried movie. | A movie is never recommended for itself. | medium; not executed | Scenarios.TieReturnsQueriedMovie | Recommender.RecommendOthers |

`Recommender.Recommend` models the code as written, and the general form of the
discrepancy is `Recommender.RecommendReturnsOutrankedQuery`.
`Recommender.RecommendOthers` leaves the queried column out instead of the
first sorted entry. `Recommender.RecommendOthersAgreesOnStrictTop` proves the
two agree whenever the queried movie's self-score is strictly its row's
highest. That is the usual case for cosine similarity. The exceptions are descriptions
whose TF-IDF vectors are parallel to another's or zero, for example duplicated
or effectively empty descriptions.
