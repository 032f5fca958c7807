/**
 * The offline script `movie_recommendation.py`: turning the parsed list columns of each
 * movie into one space-separated `tags` document, the `stem` pass over that document, and
 * the script's own `recommend`, which prints the five nearest titles.
 */
module Pipeline {
  import opened Common
  import opened Ranking
  import opened Text

  /** One parsed entry of a genres, keywords or cast list: only its `name` is used. */
  datatype Named = Named(name: string)

  /** One parsed entry of the crew list. */
  datatype CrewMember = CrewMember(name: string, job: string)

  /** One row after the merge, the column selection and `dropna`, its list columns parsed. */
  datatype RawMovie = RawMovie(
    movieId: int, title: string, overview: string,
    genres: seq<Named>, keywords: seq<Named>, cast: seq<Named>, crew: seq<CrewMember>)

  /** The five token columns of one row, in the order `tags` concatenates them. */
  datatype Features = Features(
    overview: seq<string>, genres: seq<string>, keywords: seq<string>,
    cast: seq<string>, crew: seq<string>)

  const DIRECTOR := "Director"
  /** `convert2` keeps this many cast names. */
  const TOP_CAST := 3
  /** The offline `recommend` prints ranked positions `[1:6]`. */
  const FIRST_SHOWN := 1
  const END_SHOWN := 6

  /** The `name` of every entry, in order. */
  function Names(entries: seq<Named>): (r: seq<string>)
    ensures |r| == |entries|
    ensures forall k :: 0 <= k < |r| ==> r[k] == entries[k].name
  {
    seq(|entries|, k requires 0 <= k < |entries| => entries[k].name)
  }

  function Jobs(crew: seq<CrewMember>): (r: seq<string>)
    ensures |r| == |crew|
    ensures forall k :: 0 <= k < |r| ==> r[k] == crew[k].job
  {
    seq(|crew|, k requires 0 <= k < |crew| => crew[k].job)
  }

  /** The name of the first crew member whose job is "Director", or nothing when none is. */
  function DirectorNames(crew: seq<CrewMember>): (r: seq<string>)
    ensures |r| <= 1
    ensures r == [] <==> forall k :: 0 <= k < |crew| ==> crew[k].job != DIRECTOR
    ensures r != [] ==>
      exists k :: 0 <= k < |crew| && crew[k].job == DIRECTOR && r == [crew[k].name] &&
        forall j :: 0 <= j < k ==> crew[j].job != DIRECTOR
  {
    match FirstIndexOf(Jobs(crew), DIRECTOR)
    case None =>
      assert forall k :: 0 <= k < |crew| ==> Jobs(crew)[k] != DIRECTOR;
      []
    case Some(k) =>
      assert forall j :: 0 <= j < k ==> Jobs(crew)[..k][j] == crew[j].job;
      [crew[k].name]
  }

  /** `convert`: the name of every entry, in order. */
  method Convert(entries: seq<Named>) returns (names: seq<string>)
    ensures names == Names(entries)
  {
    names := [];
    for i := 0 to |entries|
      invariant names == Names(entries[..i])
    {
      names := names + [entries[i].name];
    }
    assert entries[..|entries|] == entries;
  }

  /** `convert2`: the names of the first three entries (fewer when the list is shorter). */
  method Convert2(entries: seq<Named>) returns (names: seq<string>)
    ensures names == Take(Names(entries), TOP_CAST)
  {
    names := [];
    var counter := 0;
    for i := 0 to |entries|
      invariant counter == i == |names| <= TOP_CAST
      invariant names == Names(entries)[..i]
    {
      if counter != TOP_CAST {
        names := names + [entries[i].name];
        counter := counter + 1;
      } else {
        break;
      }
    }
  }

  /** `fetch_dir`: the name of the first crew member whose job is "Director", if any. */
  method FetchDir(crew: seq<CrewMember>) returns (director: seq<string>)
    ensures director == DirectorNames(crew)
  {
    director := [];
    for i := 0 to |crew|
      invariant director == []
      invariant forall j :: 0 <= j < i ==> crew[j].job != DIRECTOR
    {
      if crew[i].job == DIRECTOR {
        director := director + [crew[i].name];
        break;
      }
    }
  }

  /** `[i.replace(" ", "") for i in x]` */
  function StripSpaces(tokens: seq<string>): seq<string>
  {
    seq(|tokens|, k requires 0 <= k < |tokens| => RemoveBlanks(tokens[k]))
  }

  /** `overview + genres + keywords + cast + crew` */
  function Tags(f: Features): seq<string>
  {
    f.overview + f.genres + f.keywords + f.cast + f.crew
  }

  /** The five columns of one row after lines 83-92 of the script. */
  function FeaturesOf(m: RawMovie): Features
  {
    Features(
      Split(m.overview),
      StripSpaces(Names(m.genres)),
      StripSpaces(Names(m.keywords)),
      StripSpaces(Take(Names(m.cast), TOP_CAST)),
      StripSpaces(DirectorNames(m.crew)))
  }

  /** `[f(w) for w in words]` */
  function MapWords(f: string -> string, words: seq<string>): seq<string>
  {
    seq(|words|, k requires 0 <= k < |words| => f(words[k]))
  }

  /**
   * One row through lines 83-98: parse the list columns, split the overview, strip the
   * spaces inside each name, concatenate the five columns and join them with spaces.
   */
  method BuildTags(m: RawMovie) returns (tags: string)
    ensures tags == Join(Tags(FeaturesOf(m)))
  {
    var genres := Convert(m.genres);
    var keywords := Convert(m.keywords);
    var cast := Convert2(m.cast);
    var crew := FetchDir(m.crew);
    var overview := Split(m.overview);
    var f := Features(overview, StripSpaces(genres), StripSpaces(keywords),
                      StripSpaces(cast), StripSpaces(crew));
    tags := Join(Tags(f));
  }

  /**
   * `stem`: split the document on whitespace, stem each word and join the results with
   * single spaces. The stemmer is a parameter.
   */
  method Stem(text: string, stemWord: string -> string) returns (stemmed: string)
    ensures stemmed == Join(MapWords(stemWord, Split(text)))
  {
    var words := Split(text);
    var y: seq<string> := [];
    for i := 0 to |words|
      invariant |y| == i
      invariant forall k :: 0 <= k < i ==> y[k] == stemWord(words[k])
    {
      y := y + [stemWord(words[i])];
    }
    assert y == MapWords(stemWord, words);
    stemmed := Join(y);
  }

  /**
   * The offline `recommend`: looks the title up (first matching row), ranks that row of
   * the similarity matrix and prints the titles at ranked positions 1 to 5. An unknown
   * title, a missing matrix row or a position past the end of the table raises
   * `IndexError`, which ends the script: `completed` is false and `printed` holds what
   * was printed before.
   */
  method Recommend(titles: seq<string>, similarity: seq<seq<real>>, movie: string)
    returns (completed: bool, printed: seq<string>)
    ensures |printed| <= END_SHOWN - FIRST_SHOWN
    ensures FirstIndexOf(titles, movie).None? ==> !completed && printed == []
    ensures FirstIndexOf(titles, movie).Some? && FirstIndexOf(titles, movie).value >= |similarity|
      ==> !completed && printed == []
    ensures FirstIndexOf(titles, movie).Some? && FirstIndexOf(titles, movie).value < |similarity|
      ==> var w := Window(similarity[FirstIndexOf(titles, movie).value], FIRST_SHOWN, END_SHOWN);
          && |printed| <= |w|
          && (forall k :: 0 <= k < |printed| ==> w[k].index < |titles| && printed[k] == titles[w[k].index])
          && (completed <==> |printed| == |w|)
          && (!completed ==> w[|printed|].index >= |titles|)
  {
    var found := FirstIndexOf(titles, movie);
    if found.None? || found.value >= |similarity| {
      return false, [];
    }
    var index := found.value;
    var distances := Window(similarity[index], FIRST_SHOWN, END_SHOWN);
    WindowFacts(similarity[index], FIRST_SHOWN, END_SHOWN);
    printed := [];
    for i := 0 to |distances|
      invariant |printed| == i
      invariant forall k :: 0 <= k < i ==> distances[k].index < |titles| && printed[k] == titles[distances[k].index]
    {
      if distances[i].index >= |titles| {
        return false, printed;
      }
      printed := printed + [titles[distances[i].index]];
    }
    completed := true;
  }

  /**
   * Stripping spaces keeps the number and order of the tokens, leaves no space in any of
   * them, and a second pass changes nothing.
   */
  lemma StripSpacesFacts(tokens: seq<string>)
    ensures |StripSpaces(tokens)| == |tokens|
    ensures forall k :: 0 <= k < |tokens| ==> ' ' !in StripSpaces(tokens)[k]
    ensures forall k :: 0 <= k < |tokens| && ' ' !in tokens[k] ==> StripSpaces(tokens)[k] == tokens[k]
    ensures StripSpaces(StripSpaces(tokens)) == StripSpaces(tokens)
  {
    forall k | 0 <= k < |tokens|
      ensures ' ' !in StripSpaces(tokens)[k]
      ensures ' ' !in tokens[k] ==> StripSpaces(tokens)[k] == tokens[k]
      ensures StripSpaces(StripSpaces(tokens))[k] == StripSpaces(tokens)[k]
    {
      RemoveBlanksFacts(tokens[k], []);
    }
  }

  /**
   * `tags` is the overview, genre, keyword, cast and director tokens, in that order: each
   * column sits in its own slice, and the length is the sum of the five lengths.
   */
  lemma TagsLayout(f: Features)
    ensures |Tags(f)| == |f.overview| + |f.genres| + |f.keywords| + |f.cast| + |f.crew|
    ensures var a := |f.overview|;
            var b := a + |f.genres|;
            var c := b + |f.keywords|;
            var d := c + |f.cast|;
            && Tags(f)[..a] == f.overview
            && Tags(f)[a..b] == f.genres
            && Tags(f)[b..c] == f.keywords
            && Tags(f)[c..d] == f.cast
            && Tags(f)[d..] == f.crew
  {
  }

  /**
   * The tags of one movie: the overview's words, every genre and keyword, at most three
   * cast names and at most one director, with no space inside any token.
   */
  lemma TagsOfMovie(m: RawMovie)
    ensures |Tags(FeaturesOf(m))| == |Split(m.overview)| + |m.genres| + |m.keywords|
      + Min(TOP_CAST, |m.cast|) + |DirectorNames(m.crew)|
    ensures |DirectorNames(m.crew)| <= 1
    ensures forall k :: 0 <= k < |Tags(FeaturesOf(m))| ==> ' ' !in Tags(FeaturesOf(m))[k]
  {
    var f := FeaturesOf(m);
    TagsLayout(f);
    SplitClean(m.overview);
    StripSpacesFacts(Names(m.genres));
    StripSpacesFacts(Names(m.keywords));
    StripSpacesFacts(Take(Names(m.cast), TOP_CAST));
    StripSpacesFacts(DirectorNames(m.crew));
    forall k | 0 <= k < |Tags(f)|
      ensures ' ' !in Tags(f)[k]
    {
      var t := Tags(f);
      if k < |f.overview| {
        assert t[k] == f.overview[k];
        assert IsSpace(' ');
      }
    }
  }

  /**
   * When every token of a movie's tags is non-empty and holds no whitespace, `stem`'s
   * `text.split()` of the joined document gives back exactly those tokens, so each
   * stemmed word is the stem of one tag.
   */
  lemma StemSeesTags(m: RawMovie, stemWord: string -> string)
    requires Words(Tags(FeaturesOf(m)))
    ensures Split(Join(Tags(FeaturesOf(m)))) == Tags(FeaturesOf(m))
    ensures Join(MapWords(stemWord, Split(Join(Tags(FeaturesOf(m))))))
      == Join(MapWords(stemWord, Tags(FeaturesOf(m))))
  {
    SplitJoin(Tags(FeaturesOf(m)));
  }
}
