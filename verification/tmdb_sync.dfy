/**
 * The two catalogue scripts that fill in missing TMDb ids and posters
 * (`backend/utils/putmissing.py` and `backend/utils/tmdb_id.py`). They run
 * the same loop over every movie without an external id and differ only in
 * how they pick an id from TMDb's search results: the best fuzzy title match
 * of at least 70, or simply the first result. TMDb's answers and the fuzzy
 * ratio are parameters; nothing here talks to the network.
 */
module TmdbSync {
  import opened Optional
  import opened Text
  import opened Seqs
  import opened Tables

  // ------------------------------------------------------------------- URLs

  const SearchEndpoint := "https://api.themoviedb.org/3/search/movie?api_key="
  const YearParam := "&year="
  const MovieEndpoint := "https://api.themoviedb.org/3/movie/"
  const ImagesSuffix := "/images?api_key="
  /** TMDb's base URL for 500-pixel-wide poster images. */
  const PosterBase := "https://image.tmdb.org/t/p/w500"

  /** The search URL before the optional year; the title is not URL-encoded. */
  function QueryUrl(apiKey: string, title: string): string {
    SearchEndpoint + apiKey + "&query=" + title
  }

  /** The search request: `&year=<year>` is appended exactly when a release date is known. */
  function SearchUrl(apiKey: string, title: string, releaseDate: Option<Date>): (url: string)
    ensures QueryUrl(apiKey, title) <= url
    ensures releaseDate.None? <==> url == QueryUrl(apiKey, title)
  {
    match releaseDate
    case None => QueryUrl(apiKey, title)
    case Some(d) => QueryUrl(apiKey, title) + YearParam + IntToString(d.year)
  }

  /** The year the search URL carries can be read back from it. */
  lemma SearchUrlCarriesYear(apiKey: string, title: string, d: Date)
    ensures var url := SearchUrl(apiKey, title, Some(d));
      var at := |QueryUrl(apiKey, title)| + |YearParam|;
      at <= |url| && url[..at] == QueryUrl(apiKey, title) + YearParam && ParseInt(url[at..]) == Some(d.year)
  {
    var url := SearchUrl(apiKey, title, Some(d));
    var at := |QueryUrl(apiKey, title)| + |YearParam|;
    assert url[at..] == IntToString(d.year);
    ParseIntToString(d.year);
  }

  /** The images request for one TMDb id. */
  function ImagesUrl(apiKey: string, tmdbId: int): (url: string)
    ensures MovieEndpoint <= url
  {
    MovieEndpoint + IntToString(tmdbId) + ImagesSuffix + apiKey
  }

  /** Different ids are asked about with different URLs. */
  lemma ImagesUrlInjective(apiKey: string, a: int, b: int)
    ensures ImagesUrl(apiKey, a) == ImagesUrl(apiKey, b) ==> a == b
  {
    var sa, sb := IntToString(a), IntToString(b);
    if ImagesUrl(apiKey, a) == ImagesUrl(apiKey, b) {
      var tail := ImagesSuffix + apiKey;
      assert ImagesUrl(apiKey, a) == MovieEndpoint + sa + tail;
      assert ImagesUrl(apiKey, b) == MovieEndpoint + sb + tail;
      MiddleInjective(MovieEndpoint, sa, sb, tail);
      IntToStringInjective(a, b);
    }
  }

  /** Text between a fixed prefix and a fixed suffix is determined by the whole. */
  lemma MiddleInjective(p: string, x: string, y: string, q: string)
    requires p + x + q == p + y + q
    ensures x == y
  {
    var w := p + x + q;
    assert |x| == |y|;
    assert w[|p|..|p| + |x|] == x;
    assert (p + y + q)[|p|..|p| + |y|] == y;
  }

  // ---------------------------------------------------------------- posters

  /**
   * `get_movie_poster` given the `file_path`s of the `posters` list in the
   * images response (a missing list is the empty list): the first one behind
   * the w500 base URL, or nothing.
   */
  function GetMoviePoster(filePaths: seq<string>): (url: Option<string>)
    ensures url.Some? <==> |filePaths| > 0
    ensures url.Some? ==> PosterBase <= url.value
  {
    if |filePaths| > 0 then Some(PosterBase + filePaths[0]) else None
  }

  /** The file path a poster URL was built from, if it has the w500 base. */
  function PosterPath(url: string): (path: Option<string>)
    ensures path.Some? <==> PosterBase <= url
  {
    if PosterBase <= url then Some(url[|PosterBase|..]) else None
  }

  /** The poster URL names exactly the first poster's file. */
  lemma PosterPathRoundTrip(filePaths: seq<string>)
    requires |filePaths| > 0
    ensures PosterPath(GetMoviePoster(filePaths).value) == Some(filePaths[0])
  {
    assert (PosterBase + filePaths[0])[|PosterBase|..] == filePaths[0];
  }

  // ---------------------------------------------------------- picking an id

  /** One entry of a search response's `results`. */
  datatype SearchHit = SearchHit(id: int, title: string)

  /** The minimum fuzzy ratio, in percent, that counts as a match. */
  const SimilarityThreshold: real := 70.0

  /** `fuzz.ratio(title.lower(), hit["title"].lower())` for every hit, in order. */
  function Scores(title: string, hits: seq<SearchHit>, ratio: (string, string) -> real): (scores: seq<real>)
    ensures |scores| == |hits|
    ensures forall k :: 0 <= k < |hits| ==> scores[k] == ratio(Lower(title), Lower(hits[k].title))
  {
    seq(|hits|, k requires 0 <= k < |hits| => ratio(Lower(title), Lower(hits[k].title)))
  }

  /**
   * `k` is the first position holding the largest score, and that score is
   * positive: what a left-to-right scan with `score > best_score`, starting
   * from `best_score = 0`, settles on.
   */
  ghost predicate IsFirstMax(scores: seq<real>, k: int) {
    && 0 <= k < |scores|
    && scores[k] > 0.0
    && (forall j :: 0 <= j < k ==> scores[j] < scores[k])
    && (forall j :: k < j < |scores| ==> scores[j] <= scores[k])
  }

  /** The state of the scan: the best position so far and its score. */
  datatype Best = Best(index: Option<nat>, score: real)

  /** The scan over `scores`, stated on its prefix so that it follows the loop. */
  function BestMatch(scores: seq<real>): (b: Best)
    ensures b.index.None? ==> b.score == 0.0 && forall j :: 0 <= j < |scores| ==> scores[j] <= 0.0
    ensures b.index.Some? ==> IsFirstMax(scores, b.index.value) && b.score == scores[b.index.value]
  {
    if |scores| == 0 then Best(None, 0.0)
    else
      var last := |scores| - 1;
      var b := BestMatch(scores[..last]);
      assert forall j :: 0 <= j < last ==> scores[..last][j] == scores[j];
      if scores[last] > b.score then Best(Some(last), scores[last]) else b
  }

  /** There is at most one first maximum. */
  lemma FirstMaxUnique(scores: seq<real>, a: int, b: int)
    requires IsFirstMax(scores, a) && IsFirstMax(scores, b)
    ensures a == b
  {
  }

  /**
   * `get_tmdb_movie_id` of `putmissing.py` on the search results: the id of
   * the first hit with the highest ratio, provided that ratio reaches the
   * threshold. It gives nothing exactly when every ratio is below 70, so in
   * particular when there are no results or every ratio is 0.
   */
  function FuzzyTmdbId(title: string, hits: seq<SearchHit>, ratio: (string, string) -> real): (id: Option<int>)
    ensures |hits| == 0 ==> id.None?
    ensures id.None? <==> forall k :: 0 <= k < |hits| ==> Scores(title, hits, ratio)[k] < SimilarityThreshold
    ensures id.Some? ==> exists k :: IsFirstMax(Scores(title, hits, ratio), k) && id.value == hits[k].id
  {
    if |hits| == 0 then None
    else
      var scores := Scores(title, hits, ratio);
      var b := BestMatch(scores);
      if b.index.Some? && b.score >= SimilarityThreshold then Some(hits[b.index.value].id) else None
  }

  /** The same search as a loop over the results, as the script writes it. */
  method GetTmdbMovieId(title: string, hits: seq<SearchHit>, ratio: (string, string) -> real) returns (id: Option<int>)
    ensures id == FuzzyTmdbId(title, hits, ratio)
    ensures id.None? <==> forall k :: 0 <= k < |hits| ==> ratio(Lower(title), Lower(hits[k].title)) < SimilarityThreshold
  {
    if |hits| == 0 {
      return None;
    }
    ghost var scores := Scores(title, hits, ratio);
    var bestMatch: Option<nat> := None;
    var bestScore := 0.0;
    for i := 0 to |hits|
      invariant Best(bestMatch, bestScore) == BestMatch(scores[..i])
    {
      var score := ratio(Lower(title), Lower(hits[i].title));
      assert scores[..i + 1][..i] == scores[..i];
      if score > bestScore {
        bestScore := score;
        bestMatch := Some(i);
      }
    }
    assert scores[..|hits|] == scores;
    if bestMatch.Some? && bestScore >= SimilarityThreshold {
      id := Some(hits[bestMatch.value].id);
    } else {
      id := None;
    }
  }

  /** `get_tmdb_movie_id` of `tmdb_id.py`: the first result's id, with no scoring. */
  function FirstResultId(hits: seq<SearchHit>): (id: Option<int>)
    ensures id.None? <==> |hits| == 0
    ensures id.Some? ==> id.value == hits[0].id
  {
    if |hits| > 0 then Some(hits[0].id) else None
  }

  /**
   * The two policies agree when the first result is also the best match and
   * reaches the threshold; otherwise the fuzzy one picks a later hit or none.
   */
  lemma FuzzyAgreesWithFirst(title: string, hits: seq<SearchHit>, ratio: (string, string) -> real)
    requires |hits| > 0
    requires Scores(title, hits, ratio)[0] >= SimilarityThreshold
    requires forall k :: 0 <= k < |hits| ==> Scores(title, hits, ratio)[k] <= Scores(title, hits, ratio)[0]
    ensures FuzzyTmdbId(title, hits, ratio) == FirstResultId(hits)
  {
    var scores := Scores(title, hits, ratio);
    assert IsFirstMax(scores, 0);
    var id := FuzzyTmdbId(title, hits, ratio);
    assert id.Some?;
    var k :| IsFirstMax(scores, k) && id.value == hits[k].id;
    FirstMaxUnique(scores, k, 0);
  }

  // ------------------------------------------------------------ the update

  /** What the scripts get from outside: the API key and TMDb's answers as functions of the request URL. */
  datatype Tmdb = Tmdb(apiKey: string, search: string -> seq<SearchHit>, images: string -> seq<string>)

  /** Which of the two scripts runs: fuzzy matching with `fuzz.ratio`, or the first result. */
  datatype Matcher = BestFuzzy(ratio: (string, string) -> real) | FirstResult

  /** The id the script looks up for a movie; it depends only on the title and release date. */
  function LookupTmdbId(env: Tmdb, m: Matcher, movie: Movie): Option<int> {
    var hits := env.search(SearchUrl(env.apiKey, movie.title, movie.releaseDate));
    match m
    case BestFuzzy(ratio) => FuzzyTmdbId(movie.title, hits, ratio)
    case FirstResult => FirstResultId(hits)
  }

  /** Python's `if tmdb_id:`: present and not 0. */
  predicate Usable(id: Option<int>) {
    id.Some? && id.value != 0
  }

  /** The poster URL the script finds for a TMDb id, if any. */
  function PosterFor(env: Tmdb, tmdbId: int): Option<string> {
    GetMoviePoster(env.images(ImagesUrl(env.apiKey, tmdbId)))
  }

  /** `select(Movie).where(Movie.tmdb_id == tmdb_id)` returns a row. */
  function TmdbHeld(db: Db, tmdbId: int): (held: bool)
    ensures held <==> exists j :: 0 <= j < |db.movies| && db.movies[j].tmdbId == Some(tmdbId)
  {
    match IndexWhere(db.movies, (m: Movie) => m.tmdbId == Some(tmdbId))
    case Some(j) =>
      assert db.movies[j].tmdbId == Some(tmdbId);
      true
    case None => false
  }

  /**
   * One turn of the loop for the movie at position `k`, which has no TMDb
   * id: look the id up; keep it only if it is usable and no movie holds it
   * yet; then add a poster row if TMDb has an image for it.
   */
  function SyncMovie(db: Db, k: nat, env: Tmdb, m: Matcher): (r: Db)
    requires k < |db.movies| && db.movies[k].tmdbId.None?
    ensures |r.movies| == |db.movies|
    ensures forall j :: 0 <= j < |db.movies| && j != k ==> r.movies[j] == db.movies[j]
    ensures r.movies[k] == db.movies[k] || r.movies[k] == db.movies[k].(tmdbId := LookupTmdbId(env, m, db.movies[k]))
    ensures r.movies[k].tmdbId.Some? <==>
      Usable(LookupTmdbId(env, m, db.movies[k])) && !TmdbHeld(db, LookupTmdbId(env, m, db.movies[k]).value)
    ensures UniqueTmdbIds(db) ==> UniqueTmdbIds(r)
    ensures SerialsAhead(db) ==> SerialsAhead(r)
    ensures r.movies[k].tmdbId.None? ==> r.posters == db.posters && r.nextPosterId == db.nextPosterId
    ensures r.movies[k].tmdbId.Some? ==>
      match PosterFor(env, r.movies[k].tmdbId.value)
      case None => r.posters == db.posters && r.nextPosterId == db.nextPosterId
      case Some(url) =>
        r.posters == db.posters + [Poster(db.nextPosterId, db.movies[k].movieId, url)] && r.nextPosterId == db.nextPosterId + 1
    ensures r == db.(movies := r.movies, posters := r.posters, nextPosterId := r.nextPosterId)
  {
    var found := LookupTmdbId(env, m, db.movies[k]);
    if !Usable(found) || TmdbHeld(db, found.value) then db
    else Assign(db, k, found.value, PosterFor(env, found.value))
  }

  /** Commit `tmdbId` to movie `k`, then add a poster row when there is a poster URL. */
  function Assign(db: Db, k: nat, tmdbId: int, poster: Option<string>): (r: Db)
    requires k < |db.movies| && db.movies[k].tmdbId.None? && !TmdbHeld(db, tmdbId)
    ensures |r.movies| == |db.movies|
    ensures forall j :: 0 <= j < |db.movies| && j != k ==> r.movies[j] == db.movies[j]
    ensures r.movies[k] == db.movies[k].(tmdbId := Some(tmdbId))
    ensures UniqueTmdbIds(db) ==> UniqueTmdbIds(r)
    ensures SerialsAhead(db) ==> SerialsAhead(r)
    ensures poster.None? ==> r.posters == db.posters && r.nextPosterId == db.nextPosterId
    ensures poster.Some? ==>
      r.posters == db.posters + [Poster(db.nextPosterId, db.movies[k].movieId, poster.value)]
      && r.nextPosterId == db.nextPosterId + 1
    ensures r == db.(movies := r.movies, posters := r.posters, nextPosterId := r.nextPosterId)
  {
    var movie := db.movies[k];
    var db1 := db.(movies := db.movies[k := movie.(tmdbId := Some(tmdbId))]);
    AssignKeepsInvariants(db, k, tmdbId);
    match poster
    case None => db1
    case Some(url) =>
      db1.(posters := db1.posters + [Poster(db1.nextPosterId, movie.movieId, url)], nextPosterId := db1.nextPosterId + 1)
  }

  /** Giving movie `k` an id no movie holds keeps the ids unique and the serials ahead. */
  lemma AssignKeepsInvariants(db: Db, k: nat, tmdbId: int)
    requires k < |db.movies| && db.movies[k].tmdbId.None? && !TmdbHeld(db, tmdbId)
    ensures var db1 := db.(movies := db.movies[k := db.movies[k].(tmdbId := Some(tmdbId))]);
            && (UniqueTmdbIds(db) ==> UniqueTmdbIds(db1))
            && (SerialsAhead(db) ==> SerialsAhead(db1))
  {
    var ms := db.movies[k := db.movies[k].(tmdbId := Some(tmdbId))];
    assert forall j :: 0 <= j < |ms| && j != k ==> ms[j] == db.movies[j];
    assert forall j :: 0 <= j < |ms| ==> ms[j].movieId == db.movies[j].movieId;
  }

  /** A movie row changed only by getting the id looked up for it, and only if it had none. */
  ghost predicate AssignedRow(before: Movie, after: Movie, env: Tmdb, m: Matcher) {
    || after == before
    || (before.tmdbId.None? && Usable(LookupTmdbId(env, m, before)) && after == before.(tmdbId := LookupTmdbId(env, m, before)))
  }

  ghost predicate Assigned(db0: Db, db: Db, env: Tmdb, m: Matcher) {
    && |db.movies| == |db0.movies|
    && forall k :: 0 <= k < |db0.movies| ==> AssignedRow(db0.movies[k], db.movies[k], env, m)
  }

  /** Some movie other than the one at `k` holds `tmdbId`. */
  ghost predicate HeldElsewhere(db: Db, k: int, tmdbId: int) {
    exists j :: 0 <= j < |db.movies| && j != k && db.movies[j].tmdbId == Some(tmdbId)
  }

  /**
   * After the loop, the movie at `k` has an id, or it never lacked one, or
   * its lookup gave nothing usable, or another movie holds the id found.
   */
  ghost predicate Settled(db0: Db, db: Db, env: Tmdb, m: Matcher, k: int)
    requires 0 <= k < |db0.movies| && |db.movies| == |db0.movies|
  {
    var found := LookupTmdbId(env, m, db0.movies[k]);
    || db0.movies[k].tmdbId.Some?
    || db.movies[k].tmdbId.Some?
    || !Usable(found)
    || HeldElsewhere(db, k, found.value)
  }

  /** A poster row added during the run belongs to a movie that got its id during the run, and shows that id's poster. */
  ghost predicate NewPosterOk(db0: Db, db: Db, env: Tmdb, row: Poster) {
    && db0.nextPosterId <= row.posterId < db.nextPosterId
    && exists k :: 0 <= k < |db0.movies| && k < |db.movies|
        && db0.movies[k].tmdbId.None? && db.movies[k].tmdbId.Some?
        && db.movies[k].movieId == row.movieId
        && PosterFor(env, db.movies[k].tmdbId.value) == Some(row.imagePath)
  }

  ghost predicate PostersJustified(db0: Db, db: Db, env: Tmdb) {
    && db0.posters <= db.posters
    && db0.nextPosterId <= db.nextPosterId
    && forall p :: |db0.posters| <= p < |db.posters| ==> NewPosterOk(db0, db, env, db.posters[p])
  }

  /**
   * `update_movie_tmdb_data`: every movie that had no TMDb id at the start
   * is visited once, in table order. Each change is committed before the
   * next movie's existence check, so ids assigned earlier in the run count
   * as held.
   */
  method UpdateMovieTmdbData(db: Db, env: Tmdb, m: Matcher) returns (out: Db)
    ensures Assigned(db, out, env, m)
    ensures UniqueTmdbIds(db) ==> UniqueTmdbIds(out)
    ensures SerialsAhead(db) ==> SerialsAhead(out)
    ensures PostersJustified(db, out, env)
    ensures forall k :: 0 <= k < |db.movies| ==> Settled(db, out, env, m, k)
    ensures out == db.(movies := out.movies, posters := out.posters, nextPosterId := out.nextPosterId)
  {
    out := db;
    for k := 0 to |db.movies|
      invariant Progress(db, out, env, m, k)
    {
      if db.movies[k].tmdbId.None? {
        var next := SyncMovie(out, k, env, m);
        SyncStep(db, out, k, env, m);
        out := next;
      } else {
        SkipStep(db, out, k, env, m);
      }
    }
  }

  /** What holds after the first `k` turns of the loop. */
  ghost predicate Progress(db0: Db, db: Db, env: Tmdb, m: Matcher, k: nat) {
    && k <= |db0.movies|
    && Assigned(db0, db, env, m)
    && (UniqueTmdbIds(db0) ==> UniqueTmdbIds(db))
    && (SerialsAhead(db0) ==> SerialsAhead(db))
    && PostersJustified(db0, db, env)
    && (forall j :: 0 <= j < k ==> Settled(db0, db, env, m, j))
    && (forall j :: k <= j < |db0.movies| ==> db.movies[j] == db0.movies[j])
    && db == db0.(movies := db.movies, posters := db.posters, nextPosterId := db.nextPosterId)
  }

  /** A turn on a movie without an id keeps the loop's progress, one position further. */
  lemma SyncStep(db0: Db, db: Db, k: nat, env: Tmdb, m: Matcher)
    requires k < |db0.movies| && Progress(db0, db, env, m, k)
    requires db0.movies[k].tmdbId.None?
    ensures Progress(db0, SyncMovie(db, k, env, m), env, m, k + 1)
  {
    var next := SyncMovie(db, k, env, m);
    SyncKeepsPostersJustified(db0, db, next, k, env, m);
    SyncKeepsSettled(db0, db, next, k, env, m);
    SyncKeepsAssigned(db0, db, next, k, env, m);
  }

  lemma SyncKeepsAssigned(db0: Db, db: Db, next: Db, k: nat, env: Tmdb, m: Matcher)
    requires k < |db0.movies| && Assigned(db0, db, env, m)
    requires db.movies[k] == db0.movies[k] && db0.movies[k].tmdbId.None?
    requires next == SyncMovie(db, k, env, m)
    ensures Assigned(db0, next, env, m)
  {
    forall j | 0 <= j < |db0.movies| ensures AssignedRow(db0.movies[j], next.movies[j], env, m) {
      if j != k {
        assert next.movies[j] == db.movies[j];
      }
    }
  }

  /** A turn on a movie that already has an id changes nothing. */
  lemma SkipStep(db0: Db, db: Db, k: nat, env: Tmdb, m: Matcher)
    requires k < |db0.movies| && Progress(db0, db, env, m, k)
    requires db0.movies[k].tmdbId.Some?
    ensures Progress(db0, db, env, m, k + 1)
  {
    assert Settled(db0, db, env, m, k);
  }

  lemma SyncKeepsPostersJustified(db0: Db, db: Db, next: Db, k: nat, env: Tmdb, m: Matcher)
    requires k < |db.movies| == |db0.movies|
    requires db.movies[k] == db0.movies[k] && db0.movies[k].tmdbId.None?
    requires next == SyncMovie(db, k, env, m)
    requires PostersJustified(db0, db, env)
    ensures PostersJustified(db0, next, env)
  {
    forall p | |db0.posters| <= p < |next.posters|
      ensures NewPosterOk(db0, next, env, next.posters[p])
    {
      if p < |db.posters| {
        OldPosterStaysOk(db0, db, next, k, env, m, db.posters[p]);
        assert next.posters[p] == db.posters[p];
      } else {
        assert next.movies[k].tmdbId.Some?;
        assert next.movies[k].movieId == next.posters[p].movieId;
      }
    }
  }

  /** A poster row justified before a turn is still justified after it. */
  lemma OldPosterStaysOk(db0: Db, db: Db, next: Db, k: nat, env: Tmdb, m: Matcher, row: Poster)
    requires k < |db.movies| == |db0.movies|
    requires db.movies[k] == db0.movies[k] && db0.movies[k].tmdbId.None?
    requires next == SyncMovie(db, k, env, m)
    requires NewPosterOk(db0, db, env, row) && db.nextPosterId <= next.nextPosterId
    ensures NewPosterOk(db0, next, env, row)
  {
    var j :| 0 <= j < |db0.movies| && j < |db.movies|
      && db0.movies[j].tmdbId.None? && db.movies[j].tmdbId.Some?
      && db.movies[j].movieId == row.movieId
      && PosterFor(env, db.movies[j].tmdbId.value) == Some(row.imagePath);
    assert j != k;
    assert next.movies[j] == db.movies[j];
  }

  lemma SyncKeepsSettled(db0: Db, db: Db, next: Db, k: nat, env: Tmdb, m: Matcher)
    requires k < |db.movies| == |db0.movies|
    requires db.movies[k] == db0.movies[k] && db0.movies[k].tmdbId.None?
    requires next == SyncMovie(db, k, env, m)
    requires forall j :: 0 <= j < k ==> Settled(db0, db, env, m, j)
    ensures forall j :: 0 <= j <= k ==> Settled(db0, next, env, m, j)
  {
    forall j | 0 <= j <= k
      ensures Settled(db0, next, env, m, j)
    {
      if j == k {
        TurnSettles(db0, db, next, k, env, m);
      } else {
        EarlierStaysSettled(db0, db, next, k, env, m, j);
      }
    }
  }

  /** After its turn the movie at `k` is settled. */
  lemma TurnSettles(db0: Db, db: Db, next: Db, k: nat, env: Tmdb, m: Matcher)
    requires k < |db.movies| == |db0.movies|
    requires db.movies[k] == db0.movies[k] && db0.movies[k].tmdbId.None?
    requires next == SyncMovie(db, k, env, m)
    ensures Settled(db0, next, env, m, k)
  {
    var found := LookupTmdbId(env, m, db0.movies[k]);
    if next.movies[k].tmdbId.None? && Usable(found) {
      assert TmdbHeld(db, found.value);
      var i :| 0 <= i < |db.movies| && db.movies[i].tmdbId == Some(found.value);
      assert i != k && next.movies[i] == db.movies[i];
    }
  }

  /** A turn on `k` does not unsettle a movie settled earlier. */
  lemma EarlierStaysSettled(db0: Db, db: Db, next: Db, k: nat, env: Tmdb, m: Matcher, j: nat)
    requires j < k < |db.movies| == |db0.movies|
    requires db.movies[k] == db0.movies[k] && db0.movies[k].tmdbId.None?
    requires next == SyncMovie(db, k, env, m)
    requires Settled(db0, db, env, m, j)
    ensures Settled(db0, next, env, m, j)
  {
    var found := LookupTmdbId(env, m, db0.movies[j]);
    assert next.movies[j] == db.movies[j];
    if db0.movies[j].tmdbId.None? && db.movies[j].tmdbId.None? && Usable(found) {
      assert HeldElsewhere(db, j, found.value);
      var i :| 0 <= i < |db.movies| && i != j && db.movies[i].tmdbId == Some(found.value);
      assert i != k && next.movies[i] == db.movies[i];
    }
  }

  /** With `tmdb_id.py`'s policy, an id assigned in a turn is the first search result's. */
  lemma FirstResultSyncTakesFirstHit(db: Db, k: nat, env: Tmdb)
    requires k < |db.movies| && db.movies[k].tmdbId.None?
    ensures var r := SyncMovie(db, k, env, FirstResult);
      var hits := env.search(SearchUrl(env.apiKey, db.movies[k].title, db.movies[k].releaseDate));
      && (r.movies[k].tmdbId.Some? <==> |hits| > 0 && hits[0].id != 0 && !TmdbHeld(db, hits[0].id))
      && (r.movies[k].tmdbId.Some? ==> r.movies[k].tmdbId == Some(hits[0].id))
  {
  }
}
