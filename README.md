# Movie recommender: a Dafny model of its list logic

The system recommends movies similar to a chosen one. An offline script
(`movie_recommendation.py`) turns each movie's parsed genres, keywords, cast, crew and
overview into one space-separated `tags` document and computes a similarity matrix. A
Streamlit app (`app.py`) then ranks one row of that matrix and walks the best candidates,
keeping the first five that have a poster from the movie catalog. It also shows a
carousel of posters for a random sample of movies.

This project models the sequential list logic of both programs and proves what each step
promises:

- `Common.dfy`: `Option`, `Take` (a clamped prefix) and `FirstIndexOf`. The title lookup
  `df[df['title'] == t].index[0]` and the scan for the first director are both this search.
- `Ranking.dfy`: `sorted(list(enumerate(row)), reverse=True, key=score)` as a stable
  insertion sort, and Python's clamped slice `[lo:hi]`. The sorted list is proved to be
  ordered by score and then by position, and to be the only such arrangement of the row.
  A window that starts at position 1 never holds ranked position 0. An entry's ranked
  position is the number of entries ranked ahead of it. So when the query holds its row's
  top score and `t` earlier positions tie it, the query sits at ranked position `t`. It is
  dropped only when `t == 0`; otherwise it is itself a candidate when `t < 16`. The model
  keeps this behaviour as written.
- `Text.dfy`: `str.split()` with no argument, using the characters `str.isspace()` accepts;
  `" ".join`; and `replace(" ", "")`. It proves that splitting keeps all non-separator
  text, that every token is non-empty and free of separators, and that joining clean tokens
  and splitting again gives them back.
- `Pipeline.dfy`: the offline script. `convert`, `convert2`, `fetch_dir` and `stem` are
  methods with their loops. The space stripping, the five-column concatenation and the
  join are functions. The script's own `recommend` prints ranked positions 1 to 5.
- `App.dfy`: the app. It has the poster-URL rule of `fetch_poster` and `recommend`: the
  lookup, the ranking, the window of positions 1 to 15, and the loop that keeps at most
  five candidates with a poster and breaks once it holds five. It also has the carousel
  filter. `Recommend` is proved equal to a specification function `Recommendation`, and
  the lemmas about that function state what the source promises.

The catalog request is an oracle `api: int -> Response`. `RequestFailed` stands for a
`RequestException` and for the `KeyError` raised when the API key is missing. `Payload`
carries the optional `poster_path`. Similarity scores are `real` numbers, because only
their comparisons matter. A table is a sequence whose row labels are its row positions.
Python's `IndexError` is modelled explicitly:

- In the app it is caught and `recommend` returns `([], [])`.
- In the offline script it ends the run. `Pipeline.Recommend` then reports
  `completed == false` together with the titles printed before.

The model follows the code as written:

- Ranked position 0 is dropped, not the query's own index.
- `replace(" ", "")` removes only the space character U+0020, not every whitespace
  character.
- `fetch_poster` makes exactly one request, with no retries.
- Requests run one after another, with no worker pool.

## Model

| member | source | states |
|---|---|---|
| `Common.FirstIndexOf` | app.py:63 | The title lookup: `None` exactly when no row has the title; otherwise a row with that title that no earlier row shares (the first match). |
| `Ranking.InsertAhead` | app.py:65 | Inserting one entry into the partial sort adds exactly that entry: the multiset grows by it and by nothing else. |
| `Ranking.SortDesc` | app.py:65 | The sort is a permutation of its input (same multiset). |
| `Ranking.InsertAheadRanked` | app.py:65 | Inserting an entry that precedes every element, by position, into a ranked list keeps it ranked: the new entry lands ahead of its ties. |
| `Ranking.SortDescRanked` | app.py:65 | On `enumerate` order (positions increasing), the sort orders scores non-increasingly, and equal scores stay in ascending position order: the stable `sorted(..., reverse=True)`. |
| `Ranking.RankedUnique` | app.py:65 | Two ranked arrangements of the same entries are equal, so the ranking does not depend on how a stable sort is implemented. |
| `Ranking.RankRowIsRanking` | app.py:65 | The ranking of a row holds every (position, score) pair of the row exactly once, is ranked, and is the unique ranked permutation of `enumerate(row)`. |
| `Ranking.Slice` | app.py:65 | Python's `s[lo:hi]`: length `min(hi, len) - lo` when `lo < hi` and `lo < len`, else 0, and element k is `s[lo + k]`. |
| `Ranking.WindowFacts` | app.py:65 | The window `[lo:hi]` with `lo >= 1` has the clamped slice length, at most `hi - lo` (15 for the app), is ranked, holds only row entries, and never holds ranked position 0. |
| `Ranking.QueryExcluded` | app.py:65 | When the query's score is the row maximum and no earlier position ties it, ranked position 0 is the query and no window entry is the query. |
| `Ranking.AheadMembers` | app.py:65 | Splitting the entries by whether they rank ahead of a given entry keeps exactly the entries ahead on one side and exactly the others on the other. |
| `Ranking.RankPosition` | app.py:65 | The ranked position of any row entry equals the number of row entries ranked ahead of it. |
| `Ranking.QueryRank` | app.py:65 | When the query's score is the row maximum, the entries ahead of it are exactly the earlier positions that tie it. With `t` of them, the query sits at ranked position `t`. It is ranked first exactly when `t == 0`, and the window `[1:hi]` holds it exactly when `0 < t < hi`. |
| `Text.Without` | movie_recommendation.py:89 | Removing selected characters never lengthens a string, and every kept character is unselected and comes from the input. |
| `Text.RemoveBlanksFacts` | movie_recommendation.py:89-92 | After `replace(" ", "")` no space remains; the operation distributes over concatenation (order kept); a string without spaces is unchanged; applying it twice equals applying it once. |
| `Text.SplitKeepsText` | movie_recommendation.py:87 | `split()` loses exactly the separators: the tokens concatenate to the input without its whitespace. |
| `Text.SplitClean` | movie_recommendation.py:87 | Every token of `split()` is non-empty and holds no whitespace character. |
| `Text.SplitJoin` | movie_recommendation.py:98 | Joining non-empty, whitespace-free tokens with single spaces and splitting again returns exactly those tokens. |
| `Text.SplitJoinSplit` | movie_recommendation.py:64 | Splitting, joining with spaces and splitting again gives the first split: the re-split in `stem` sees the same words. |
| `Pipeline.Convert` | movie_recommendation.py:35-39 | The loop of `convert` returns the name of every entry, in input order. |
| `Pipeline.Convert2` | movie_recommendation.py:42-51 | The counter-and-break loop of `convert2` returns the first `min(3, n)` names: a prefix of `convert`'s result. |
| `Pipeline.DirectorNames` | movie_recommendation.py:54-60 | At most one name; empty exactly when no crew entry has job `"Director"`; otherwise the name of the first such entry. |
| `Pipeline.FetchDir` | movie_recommendation.py:54-60 | The loop of `fetch_dir`, with its `break`, returns exactly `DirectorNames`. |
| `Pipeline.StripSpacesFacts` | movie_recommendation.py:89-92 | Stripping keeps the token count and order, leaves no space in any token, changes space-free tokens not at all, and is idempotent. |
| `Pipeline.TagsLayout` | movie_recommendation.py:96 | `tags` is overview, genres, keywords, cast and crew, each in its own slice in that order, and its length is the sum of the five lengths. |
| `Pipeline.TagsOfMovie` | movie_recommendation.py:83-96 | For one movie, the tag count is overview words + genres + keywords + `min(3, cast)` + at most one director, and no tag contains a space. |
| `Pipeline.BuildTags` | movie_recommendation.py:83-98 | Running `convert`, `convert2`, `fetch_dir`, the split and the stripping on one row, then joining, yields the joined tags of that row's features. |
| `Pipeline.Stem` | movie_recommendation.py:62-67 | The loop of `stem` yields the stemmed words of `text.split()`, in order, joined with single spaces. |
| `Pipeline.StemSeesTags` | movie_recommendation.py:106 | When every tag is non-empty and whitespace-free, `stem` re-splits the joined document into exactly the tags, so it stems each tag once, in order. |
| `Pipeline.Recommend` | movie_recommendation.py:69-74 | The offline `recommend` prints at most 5 titles: those at ranked positions 1 to 5 of the first row with the title, in rank order. An unknown title or a missing matrix row prints nothing and ends the run. A position past the table ends the run after the titles before it. |
| `App.PosterUrl` | app.py:54-57 | A URL exactly when the request succeeded and `poster_path` is present and non-empty; the URL is the base `https://image.tmdb.org/t/p/w500/` followed by the path. |
| `App.CandidatePoster` | app.py:72-73 | A candidate can have a poster only if its position is inside the table. |
| `App.WithPosterIsFilter` | app.py:72-76 | The kept candidates are exactly those with a poster. They come from strictly increasing window positions, and pick k pairs that candidate's title with its poster. |
| `App.WithPosterPrefix` | app.py:69-71 | The picks of a prefix of the window are a prefix of the picks of the whole window. |
| `App.WithPosterUrls` | app.py:74-76 | Every kept poster is a real poster URL (the base followed by a non-empty path), never `None`. |
| `App.WalkEnds` | app.py:69-71 | A loop that stops at the end of the window or on holding five picks has not met an out-of-table candidate, and what it holds is the first five candidates with a poster. |
| `App.Walk` | app.py:67-76 | The loop over the window aborts exactly when an out-of-table candidate comes before five posters are held. Otherwise the two lists are the titles and posters of the first five candidates with a poster. It asks only for a prefix of the window, all inside the table. It halts at the end of the window, on holding five posters, or, when it aborts, on the out-of-table candidate. |
| `App.AskedFirstStop` | app.py:67-73 | A walk that asked for the first `hi` candidates met no stopping point before `hi`: the number of requests is the first position where the walk halts. |
| `App.Recommend` | app.py:60-80 | `recommend` returns exactly `Recommendation`. It asks for at most 15 posters, and none for an unknown title or a missing matrix row. For a known title it asks for a prefix of the window that ends at the walk's first stopping point: the window's end, five posters held, or a candidate past the table. |
| `App.RecommendationShape` | app.py:74-80 | The two lists have equal length, at most 5; every poster is a real poster URL; an unknown title gives `([], [])`. |
| `App.RecommendationPicks` | app.py:69-76 | Entry k of both lists comes from the k-th window candidate with a poster, in rank order. A candidate is passed over exactly when it has no poster. The count is `min(5, candidates with a poster)`. |
| `App.RecommendationSkipsQuery` | app.py:65 | When the query's score is its row's maximum and no earlier row ties it, no recommendation is the query itself. |
| `App.KeepTruthy` | app.py:96 | The filter never lengthens the list, and every kept URL is non-empty and was present in the input. |
| `App.KeepTruthyAppend` | app.py:96 | The filter keeps order: filtering a concatenation concatenates the filtered parts. |
| `App.KeepPosters` | app.py:94-96 | Over the sampled ids, one URL is kept per id with a poster, and every such poster is kept. |
| `App.CarouselKeepsPosters` | app.py:92-98 | With at least 12 rows, the carousel holds one real poster URL per sampled movie with a poster, every such poster, and nothing else. |

## Left out

- The Streamlit interface is not modelled: page setup, CSS, the select box, the button, the columns, the carousel component and `st.session_state`. It only presents results.
- Loading and saving pickles and CSV files, `pd.merge`, `dropna` and `st.cache_data` are not modelled; the model starts from rows in memory.
- `ast.literal_eval` is not modelled: list columns arrive already parsed as `Named` and `CrewMember` records.
- The HTTP request, `raise_for_status`, JSON decoding and `st.secrets` are replaced by the oracle `api`. Its `Response` gives the outcome of the single request.
- `CountVectorizer` and `cosine_similarity` are not modelled: they are floating-point library code. A similarity row is an input sequence of `real` scores.
- `PorterStemmer` is a parameter `stemWord`; only the split/stem/join shape of `stem` is modelled.
- `movies.sample(n=12)` is random, so the sampled ids are a parameter. The model captures that it raises when the table has fewer than 12 rows, which empties the carousel.
- `App.Recommend`: the ghost count `asked` pins down which posters are requested (none, or a prefix of the window), not the timing of the requests.
- `Pipeline.Recommend`: it uses the matched row's position where the script uses its `dropna` label. After `dropna` removes rows, labels and positions can differ; the model assumes they agree.
- `Ranking.SortDesc`: Python's floating-point comparison is not modelled. Scores are exact reals, so NaN scores are not covered.
