/**
 * The online app `app.py`: the poster-URL rule of `fetch_poster`, `recommend` (title
 * lookup, ranking, the window of candidates 1 to 15, and the walk that keeps the first
 * five candidates with a poster) and the filter that builds the carousel list.
 * The catalog request is an oracle `api` from a movie id to its response.
 */
module App {
  import opened Common
  import opened Ranking

  /** A row of the movie table; row labels are row positions. */
  datatype Movie = Movie(id: int, title: string)

  /**
   * The outcome of the catalog request for one movie: a failure (a `RequestException`, or
   * a `KeyError` when the API key is missing from the secrets) or the JSON body's
   * `poster_path`, absent or present.
   */
  datatype Response = RequestFailed | Payload(posterPath: Option<string>)

  /** One recommendation: entry k of the titles list and entry k of the posters list. */
  datatype Pick = Pick(title: string, poster: string)

  const POSTER_BASE := "https://image.tmdb.org/t/p/w500/"
  /** `recommend` walks ranked positions `[1:16]`. */
  const FIRST_CANDIDATE := 1
  const END_CANDIDATE := 16
  /** `recommend` stops once it holds this many titles. */
  const MAX_RESULTS := 5
  /** The carousel samples this many rows. */
  const CAROUSEL_SIZE := 12

  /**
   * `fetch_poster` after the request: the base URL followed by `poster_path` when the path
   * is present and non-empty, and `None` when it is absent or empty or the request failed.
   */
  function PosterUrl(response: Response): (url: Option<string>)
    ensures url.Some? <==> response.Payload? && response.posterPath.Some? && response.posterPath.value != []
    ensures url.Some? ==>
      |url.value| > |POSTER_BASE| && url.value[..|POSTER_BASE|] == POSTER_BASE &&
      url.value[|POSTER_BASE|..] == response.posterPath.value
  {
    match response
    case RequestFailed => None
    case Payload(path) =>
      if path.Some? && path.value != [] then Some(POSTER_BASE + path.value) else None
  }

  /** The `title` column. */
  function Titles(movies: seq<Movie>): (r: seq<string>)
    ensures |r| == |movies|
    ensures forall k :: 0 <= k < |r| ==> r[k] == movies[k].title
  {
    seq(|movies|, k requires 0 <= k < |movies| => movies[k].title)
  }

  /** How many of the requested ids got a poster URL. */
  function CountPosters(ids: seq<int>, api: int -> Response): nat
  {
    if ids == [] then 0
    else CountPosters(ids[..|ids| - 1], api) + if PosterUrl(api(ids[|ids| - 1])).Some? then 1 else 0
  }

  /** The poster URL of candidate `c`; a position past the end of the table has none. */
  function CandidatePoster(c: Scored, movies: seq<Movie>, api: int -> Response): (url: Option<string>)
    ensures url.Some? ==> c.index < |movies|
  {
    if c.index < |movies| then PosterUrl(api(movies[c.index].id)) else None
  }

  /** The candidates of `w` that have a poster, as picks, in rank order. */
  function WithPoster(w: seq<Scored>, movies: seq<Movie>, api: int -> Response): seq<Pick>
  {
    if w == [] then []
    else
      var c := w[|w| - 1];
      match CandidatePoster(c, movies, api)
      case Some(url) => WithPoster(w[..|w| - 1], movies, api) + [Pick(movies[c.index].title, url)]
      case None => WithPoster(w[..|w| - 1], movies, api)
  }

  /** The positions in `w` of the candidates `WithPoster` keeps. */
  function PosterPositions(w: seq<Scored>, movies: seq<Movie>, api: int -> Response): seq<nat>
  {
    if w == [] then []
    else if CandidatePoster(w[|w| - 1], movies, api).Some? then
      PosterPositions(w[..|w| - 1], movies, api) + [|w| - 1]
    else PosterPositions(w[..|w| - 1], movies, api)
  }

  /**
   * The walk reaches a candidate past the end of the table while it holds fewer than
   * `limit` titles: `movies_df.iloc` raises `IndexError` and `recommend` returns `([], [])`.
   */
  ghost predicate Aborts(w: seq<Scored>, movies: seq<Movie>, api: int -> Response, limit: nat)
  {
    exists k :: 0 <= k < |w| && w[k].index >= |movies| && |WithPoster(w[..k], movies, api)| < limit
  }

  function PickTitles(picks: seq<Pick>): seq<string>
  {
    seq(|picks|, k requires 0 <= k < |picks| => picks[k].title)
  }

  function PickPosters(picks: seq<Pick>): seq<string>
  {
    seq(|picks|, k requires 0 <= k < |picks| => picks[k].poster)
  }

  /**
   * What `recommend` returns: the first five candidates with a poster among ranked
   * positions 1 to 15 of the first row titled `title`, as two parallel lists; `([], [])`
   * when the title is unknown or an `IndexError` is raised.
   */
  ghost function Recommendation(title: string, movies: seq<Movie>, similarity: seq<seq<real>>,
                                api: int -> Response): (seq<string>, seq<string>)
  {
    match FirstIndexOf(Titles(movies), title)
    case None => ([], [])
    case Some(q) =>
      if q >= |similarity| then ([], [])
      else
        var w := Window(similarity[q], FIRST_CANDIDATE, END_CANDIDATE);
        if Aborts(w, movies, api, MAX_RESULTS) then ([], [])
        else
          var picks := Take(WithPoster(w, movies, api), MAX_RESULTS);
          (PickTitles(picks), PickPosters(picks))
  }

  lemma WithPosterStep(w: seq<Scored>, i: nat, movies: seq<Movie>, api: int -> Response)
    requires i < |w|
    ensures WithPoster(w[..i + 1], movies, api) ==
      match CandidatePoster(w[i], movies, api)
      case Some(url) => WithPoster(w[..i], movies, api) + [Pick(movies[w[i].index].title, url)]
      case None => WithPoster(w[..i], movies, api)
  {
    assert w[..i + 1][..i] == w[..i];
  }

  /** The picks of a prefix of the candidates are a prefix of the picks of all of them. */
  lemma {:induction false} WithPosterPrefix(w: seq<Scored>, v: nat, movies: seq<Movie>, api: int -> Response)
    requires v <= |w|
    ensures |WithPoster(w[..v], movies, api)| <= |WithPoster(w, movies, api)|
    ensures WithPoster(w[..v], movies, api) ==
      WithPoster(w, movies, api)[..|WithPoster(w[..v], movies, api)|]
    decreases |w|
  {
    if v == |w| {
      assert w[..v] == w;
    } else {
      var u := w[..|w| - 1];
      assert u[..v] == w[..v];
      WithPosterPrefix(u, v, movies, api);
    }
  }

  /**
   * `WithPoster` is exactly a filter: its picks come from strictly increasing positions of
   * `w`, entry k from position `P[k]` with that candidate's title and poster, and a
   * position is among them exactly when its candidate has a poster.
   */
  lemma {:induction false} WithPosterIsFilter(w: seq<Scored>, movies: seq<Movie>, api: int -> Response)
    ensures var e, p := WithPoster(w, movies, api), PosterPositions(w, movies, api);
      && |p| == |e|
      && (forall k :: 0 <= k < |p| ==> p[k] < |w|)
      && (forall i, j :: 0 <= i < j < |p| ==> p[i] < p[j])
      && (forall k :: 0 <= k < |p| ==>
            CandidatePoster(w[p[k]], movies, api).Some?
            && e[k] == Pick(movies[w[p[k]].index].title, CandidatePoster(w[p[k]], movies, api).value))
      && (forall j :: 0 <= j < |w| ==> (CandidatePoster(w[j], movies, api).Some? <==> j in p))
  {
    if w != [] {
      var u := w[..|w| - 1];
      WithPosterIsFilter(u, movies, api);
      var e, p := WithPoster(w, movies, api), PosterPositions(w, movies, api);
      var eu, pu := WithPoster(u, movies, api), PosterPositions(u, movies, api);
      assert forall k :: 0 <= k < |u| ==> u[k] == w[k];
      forall j | 0 <= j < |w|
        ensures CandidatePoster(w[j], movies, api).Some? <==> j in p
      {
        if j < |u| {
          assert j in p <==> j in pu;
        }
      }
    }
  }

  /** Every pick's poster is a real poster URL: the base followed by a non-empty path. */
  lemma WithPosterUrls(w: seq<Scored>, movies: seq<Movie>, api: int -> Response)
    ensures forall k :: 0 <= k < |WithPoster(w, movies, api)| ==>
      var url := WithPoster(w, movies, api)[k].poster;
      |url| > |POSTER_BASE| && url[..|POSTER_BASE|] == POSTER_BASE
  {
    WithPosterIsFilter(w, movies, api);
  }

  lemma RecommendationOf(title: string, movies: seq<Movie>, similarity: seq<seq<real>>,
                          api: int -> Response, q: nat)
    requires FirstIndexOf(Titles(movies), title) == Some(q) && q < |similarity|
    ensures var w := Window(similarity[q], FIRST_CANDIDATE, END_CANDIDATE);
      Recommendation(title, movies, similarity, api) ==
        if Aborts(w, movies, api, MAX_RESULTS) then ([], [])
        else (PickTitles(Take(WithPoster(w, movies, api), MAX_RESULTS)),
              PickPosters(Take(WithPoster(w, movies, api), MAX_RESULTS)))
  {
  }

  /**
   * The walk asked for the posters of the first `i` candidates: all of them inside the
   * table, at most five of them with a poster, and fewer than five before the last one.
   */
  ghost predicate Asked(w: seq<Scored>, i: nat, movies: seq<Movie>, api: int -> Response)
  {
    && i <= |w|
    && (forall k :: 0 <= k < i ==> w[k].index < |movies|)
    && |WithPoster(w[..i], movies, api)| <= MAX_RESULTS
    && (i > 0 ==> |WithPoster(w[..i - 1], movies, api)| < MAX_RESULTS)
  }

  /**
   * The walk halts before candidate `i`: the window is used up, five posters are in hand,
   * or candidate `i` lies past the table, where `movies_df.iloc` raises before any request.
   */
  ghost predicate Stopped(w: seq<Scored>, i: nat, movies: seq<Movie>, api: int -> Response)
    requires i <= |w|
  {
    || i == |w|
    || |WithPoster(w[..i], movies, api)| == MAX_RESULTS
    || w[i].index >= |movies|
  }

  /**
   * A walk that asked for `hi` candidates had no stopping point before: `hi` is the first
   * position where the walk halts, so `Asked` and `Stopped` together fix the requests made.
   */
  lemma AskedFirstStop(w: seq<Scored>, lo: nat, hi: nat, movies: seq<Movie>, api: int -> Response)
    requires Asked(w, hi, movies, api) && lo < hi
    ensures !Stopped(w, lo, movies, api)
  {
    var u := w[..hi - 1];
    assert u[..lo] == w[..lo];
    WithPosterPrefix(u, lo, movies, api);
  }

  /**
   * The walk that stops at position `i`, having met no candidate past the table, either
   * reached the end of `w` or holds five picks: it did not abort, and what it holds is the
   * first five candidates with a poster.
   */
  lemma WalkEnds(w: seq<Scored>, i: nat, movies: seq<Movie>, api: int -> Response)
    requires i <= |w|
    requires forall k :: 0 <= k < i ==> w[k].index < |movies|
    requires |WithPoster(w[..i], movies, api)| <= MAX_RESULTS
    requires i < |w| ==> |WithPoster(w[..i], movies, api)| == MAX_RESULTS
    ensures !Aborts(w, movies, api, MAX_RESULTS)
    ensures Take(WithPoster(w, movies, api), MAX_RESULTS) == WithPoster(w[..i], movies, api)
  {
    if i == |w| {
      assert w[..i] == w;
    } else {
      WithPosterPrefix(w, i, movies, api);
      forall k | i <= k < |w|
        ensures |WithPoster(w[..k], movies, api)| >= MAX_RESULTS
      {
        WithPosterPrefix(w[..k], i, movies, api);
        assert w[..k][..i] == w[..i];
      }
    }
  }

  /**
   * The loop of `recommend` over the candidate window: for each candidate, unless five
   * titles are already held, ask for its poster and keep its title and poster when there
   * is one. `aborted` tells that it met a candidate past the end of the table, where
   * `movies_df.iloc` raises `IndexError`. The ghost `asked` counts the candidates whose
   * poster was requested: a prefix of the window, all inside the table, ending as soon as
   * five posters are in hand.
   */
  method Walk(candidates: seq<Scored>, movies: seq<Movie>, api: int -> Response)
    returns (aborted: bool, names: seq<string>, posters: seq<string>, ghost asked: nat)
    ensures aborted == Aborts(candidates, movies, api, MAX_RESULTS)
    ensures !aborted ==>
      && names == PickTitles(Take(WithPoster(candidates, movies, api), MAX_RESULTS))
      && posters == PickPosters(Take(WithPoster(candidates, movies, api), MAX_RESULTS))
    ensures Asked(candidates, asked, movies, api) && Stopped(candidates, asked, movies, api)
    ensures aborted ==> asked < |candidates| && candidates[asked].index >= |movies|
    ensures !aborted ==>
      asked == |candidates| || |WithPoster(candidates[..asked], movies, api)| == MAX_RESULTS
  {
    names, posters := [], [];
    var i := 0;
    while i < |candidates|
      invariant 0 <= i <= |candidates|
      invariant Asked(candidates, i, movies, api)
      invariant |names| == |posters| == |WithPoster(candidates[..i], movies, api)|
      invariant forall k :: 0 <= k < |names| ==>
        names[k] == WithPoster(candidates[..i], movies, api)[k].title &&
        posters[k] == WithPoster(candidates[..i], movies, api)[k].poster
    {
      if |names| >= MAX_RESULTS {
        break;
      }
      var c := candidates[i];
      if c.index >= |movies| {
        assert candidates[i].index >= |movies| && |WithPoster(candidates[..i], movies, api)| < MAX_RESULTS;
        assert Stopped(candidates, i, movies, api);
        return true, names, posters, i;
      }
      var posterUrl := PosterUrl(api(movies[c.index].id));
      WithPosterStep(candidates, i, movies, api);
      if posterUrl.Some? {
        names := names + [movies[c.index].title];
        posters := posters + [posterUrl.value];
      }
      i := i + 1;
    }
    WalkEnds(candidates, i, movies, api);
    assert Stopped(candidates, i, movies, api);
    aborted, asked := false, i;
    assert names == PickTitles(WithPoster(candidates[..i], movies, api));
    assert posters == PickPosters(WithPoster(candidates[..i], movies, api));
  }

  /**
   * `recommend`: looks the title up, ranks its similarity row, and walks ranked positions
   * 1 to 15 for the first five candidates with a poster; any `IndexError` on the way gives
   * `([], [])`. The ghost `asked` counts the candidates whose poster was requested: none
   * for an unknown title, and otherwise a prefix of the window that stops once five
   * posters are in hand.
   */
  method Recommend(title: string, movies: seq<Movie>, similarity: seq<seq<real>>, api: int -> Response)
    returns (names: seq<string>, posters: seq<string>, ghost asked: nat)
    ensures (names, posters) == Recommendation(title, movies, similarity, api)
    ensures asked <= END_CANDIDATE - FIRST_CANDIDATE
    ensures title !in Titles(movies) ==> asked == 0
    ensures match FirstIndexOf(Titles(movies), title)
      case Some(q) =>
        if q < |similarity| then
          var w := Window(similarity[q], FIRST_CANDIDATE, END_CANDIDATE);
          Asked(w, asked, movies, api) && Stopped(w, asked, movies, api)
        else asked == 0
      case None => true
  {
    names, posters, asked := [], [], 0;
    var found := FirstIndexOf(Titles(movies), title);
    if found.None? || found.value >= |similarity| {
      return;
    }
    var distances := similarity[found.value];
    var candidates := Window(distances, FIRST_CANDIDATE, END_CANDIDATE);
    WindowFacts(distances, FIRST_CANDIDATE, END_CANDIDATE);
    var aborted;
    aborted, names, posters, asked := Walk(candidates, movies, api);
    if aborted {
      names, posters := [], [];
    }
    RecommendationOf(title, movies, similarity, api, found.value);
  }

  /**
   * `recommend` returns two lists of equal length, at most five, whose posters are all real
   * poster URLs; an unknown title gives `([], [])`.
   */
  lemma RecommendationShape(title: string, movies: seq<Movie>, similarity: seq<seq<real>>, api: int -> Response)
    ensures var r := Recommendation(title, movies, similarity, api);
      && |r.0| == |r.1| <= MAX_RESULTS
      && (forall k :: 0 <= k < |r.1| ==> |r.1[k]| > |POSTER_BASE| && r.1[k][..|POSTER_BASE|] == POSTER_BASE)
      && (title !in Titles(movies) ==> r.0 == [] && r.1 == [])
  {
    match FirstIndexOf(Titles(movies), title)
    case None =>
    case Some(q) =>
      if q < |similarity| {
        var w := Window(similarity[q], FIRST_CANDIDATE, END_CANDIDATE);
        WithPosterUrls(w, movies, api);
      }
  }

  /**
   * Entry k of both lists comes from the same candidate: the k-th candidate with a poster in
   * ranked positions 1 to 15 of the first row titled `title`. Candidates are taken in rank
   * order, and one is passed over exactly when it has no poster.
   */
  lemma RecommendationPicks(title: string, movies: seq<Movie>, similarity: seq<seq<real>>,
                            api: int -> Response, q: nat)
    requires FirstIndexOf(Titles(movies), title) == Some(q) && q < |similarity|
    requires !Aborts(Window(similarity[q], FIRST_CANDIDATE, END_CANDIDATE), movies, api, MAX_RESULTS)
    ensures var w := Window(similarity[q], FIRST_CANDIDATE, END_CANDIDATE);
      var p := PosterPositions(w, movies, api);
      var r := Recommendation(title, movies, similarity, api);
      && |r.0| == Min(MAX_RESULTS, |p|)
      && (forall k :: 0 <= k < |r.0| ==>
            p[k] < |w| && w[p[k]].index < |movies|
            && r.0[k] == movies[w[p[k]].index].title
            && Some(r.1[k]) == CandidatePoster(w[p[k]], movies, api))
      && (forall i, j :: 0 <= i < j < |p| ==> p[i] < p[j])
      && (forall j :: 0 <= j < |w| ==> (CandidatePoster(w[j], movies, api).Some? <==> j in p))
  {
    var w := Window(similarity[q], FIRST_CANDIDATE, END_CANDIDATE);
    WithPosterIsFilter(w, movies, api);
  }

  /**
   * When the query row's own score is its maximum and no earlier row ties it, no
   * recommendation comes from the query row itself.
   */
  lemma RecommendationSkipsQuery(title: string, movies: seq<Movie>, similarity: seq<seq<real>>,
                                 api: int -> Response, q: nat)
    requires FirstIndexOf(Titles(movies), title) == Some(q) && q < |similarity| && q < |similarity[q]|
    requires forall j :: 0 <= j < |similarity[q]| ==> similarity[q][j] <= similarity[q][q]
    requires forall j :: 0 <= j < q ==> similarity[q][j] < similarity[q][q]
    ensures var w := Window(similarity[q], FIRST_CANDIDATE, END_CANDIDATE);
      forall k :: 0 <= k < |PosterPositions(w, movies, api)| ==>
        PosterPositions(w, movies, api)[k] < |w| && w[PosterPositions(w, movies, api)[k]].index != q
  {
    var w := Window(similarity[q], FIRST_CANDIDATE, END_CANDIDATE);
    WithPosterIsFilter(w, movies, api);
    QueryExcluded(similarity[q], q, END_CANDIDATE);
  }

  /** `[url for url in image_urls if url]`: the present, non-empty URLs, in order. */
  function KeepTruthy(urls: seq<Option<string>>): (r: seq<string>)
    ensures |r| <= |urls|
    ensures forall k :: 0 <= k < |r| ==> r[k] != [] && Some(r[k]) in urls
  {
    if urls == [] then []
    else
      var last := urls[|urls| - 1];
      KeepTruthy(urls[..|urls| - 1]) + if last.Some? && last.value != [] then [last.value] else []
  }

  /** `[fetch_poster(movie_id) for movie_id in ids]` after the requests. */
  function FetchAll(ids: seq<int>, api: int -> Response): seq<Option<string>>
  {
    seq(|ids|, k requires 0 <= k < |ids| => PosterUrl(api(ids[k])))
  }

  /**
   * The carousel list: the poster URLs of the sampled ids, with the `None`s removed.
   * `movies.sample(n=12)` raises when the table has fewer rows; the list is then empty.
   */
  function Carousel(tableSize: nat, sampleIds: seq<int>, api: int -> Response): seq<string>
  {
    if tableSize < CAROUSEL_SIZE then [] else KeepTruthy(FetchAll(sampleIds, api))
  }

  /** The filter keeps order: filtering a concatenation concatenates the filtered parts. */
  lemma {:induction false} KeepTruthyAppend(a: seq<Option<string>>, b: seq<Option<string>>)
    ensures KeepTruthy(a + b) == KeepTruthy(a) + KeepTruthy(b)
    decreases |b|
  {
    if b == [] {
      assert a + b == a;
    } else {
      var b' := b[..|b| - 1];
      assert (a + b)[..|a + b| - 1] == a + b';
      KeepTruthyAppend(a, b');
    }
  }

  /** Over every sampled id, one kept URL per id with a poster, and every such poster kept. */
  lemma {:induction false} KeepPosters(ids: seq<int>, api: int -> Response)
    ensures |KeepTruthy(FetchAll(ids, api))| == CountPosters(ids, api)
    ensures forall i :: 0 <= i < |ids| && PosterUrl(api(ids[i])).Some? ==>
      PosterUrl(api(ids[i])).value in KeepTruthy(FetchAll(ids, api))
    decreases |ids|
  {
    if ids != [] {
      var init, urls := ids[..|ids| - 1], FetchAll(ids, api);
      var last := PosterUrl(api(ids[|ids| - 1]));
      KeepPosters(init, api);
      assert KeepTruthy(urls) ==
        KeepTruthy(FetchAll(init, api)) + if last.Some? then [last.value] else []
      by {
        assert FetchAll(init, api) == urls[..|urls| - 1];
        assert urls[|urls| - 1] == last;
      }
      forall i | 0 <= i < |ids| && PosterUrl(api(ids[i])).Some?
        ensures PosterUrl(api(ids[i])).value in KeepTruthy(urls)
      {
        if i < |init| {
          assert ids[i] == init[i];
          assert PosterUrl(api(init[i])).value in KeepTruthy(FetchAll(init, api));
        } else {
          assert ids[i] == ids[|ids| - 1];
        }
      }
    }
  }

  /**
   * On the answers of `fetch_poster`, which never gives an empty URL, the filter drops
   * exactly the `None`s: the carousel holds one real poster URL per sampled movie that has
   * a poster, in sample order.
   */
  lemma CarouselKeepsPosters(tableSize: nat, sampleIds: seq<int>, api: int -> Response)
    requires tableSize >= CAROUSEL_SIZE
    ensures |Carousel(tableSize, sampleIds, api)| == CountPosters(sampleIds, api)
    ensures forall k :: 0 <= k < |Carousel(tableSize, sampleIds, api)| ==>
      var url := Carousel(tableSize, sampleIds, api)[k];
      |url| > |POSTER_BASE| && url[..|POSTER_BASE|] == POSTER_BASE
    ensures forall i :: 0 <= i < |sampleIds| && PosterUrl(api(sampleIds[i])).Some? ==>
      PosterUrl(api(sampleIds[i])).value in Carousel(tableSize, sampleIds, api)
  {
    var urls := FetchAll(sampleIds, api);
    KeepPosters(sampleIds, api);
    forall k | 0 <= k < |Carousel(tableSize, sampleIds, api)|
      ensures var url := Carousel(tableSize, sampleIds, api)[k];
        |url| > |POSTER_BASE| && url[..|POSTER_BASE|] == POSTER_BASE
    {
      var url := Carousel(tableSize, sampleIds, api)[k];
      assert Some(url) in urls;
    }
  }
}
