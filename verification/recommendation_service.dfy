/**
 * Recommendation generation and the recommendation read path.
 *
 * Generation scores every movie that has an embedding against the mean of
 * all those embeddings (the same list for every user: nothing is
 * personalised and watched movies are not excluded), keeps the best
 * `top_n`, and then, in this order, deletes the user's cache key, replaces
 * the user's recommendation rows in one commit, and writes the new list to
 * the cache. Reads try the cache first and fall back to the rows.
 */
module RecommendationService {
  import opened Optional
  import opened Outcome
  import opened JsonData
  import opened Tables
  import opened AppState
  import opened Seqs
  import Ranking
  import Sorting
  import RedisCache
  import Text

  /**
   * `cosine_similarity(mean(matrix), e)` for the embedding matrix of all
   * candidates and one candidate's embedding. Its numeric value is not
   * modelled; the generator only compares the values it returns.
   */
  type Similarity = (seq<Embedding>, Embedding) -> real

  /** The cache key of a user's recommendation list. */
  function RecKey(userId: int): string {
    "recommendations:" + Text.IntToString(userId)
  }

  /** Expiry the read path gives the list it caches. */
  const ReadExpire: int := 1800

  // ---------------------------------------------------------------- generation

  /** `movie_list`: the movies whose embedding is not null, in table order. */
  function Candidates(movies: seq<Movie>): (c: seq<Movie>)
    ensures forall k :: 0 <= k < |c| ==> c[k].embedding.Some? && c[k] in movies
    ensures |c| == 0 <==> forall k :: 0 <= k < |movies| ==> movies[k].embedding.None?
  {
    var c := Filter(movies, (m: Movie) => m.embedding.Some?);
    assert (exists k :: 0 <= k < |movies| && movies[k].embedding.Some?) ==> |c| > 0 by {
      if k :| 0 <= k < |movies| && movies[k].embedding.Some? {
        assert movies[k] in multiset(movies);
        assert multiset(c)[movies[k]] > 0;
      }
    }
    c
  }

  /** `embedding_matrix`, row for row with `movie_list`. */
  function Matrix(cands: seq<Movie>): (rows: seq<Embedding>)
    ensures |rows| == |cands|
  {
    seq(|cands|, k requires 0 <= k < |cands| => cands[k].embedding.GetOr([]))
  }

  /** `similarities`: one score per candidate. */
  function Scores(cands: seq<Movie>, sim: Similarity): (s: seq<real>)
    ensures |s| == |cands|
  {
    var matrix := Matrix(cands);
    seq(|cands|, k requires 0 <= k < |cands| => sim(matrix, matrix[k]))
  }

  /** `sorted_indices`: positions in `movie_list` of the recommended movies, best first. */
  function Selection(movies: seq<Movie>, topN: int, sim: Similarity): (sel: seq<nat>)
    ensures forall k :: 0 <= k < |sel| ==> sel[k] < |Candidates(movies)|
  {
    Ranking.TopN(Scores(Candidates(movies), sim), topN)
  }

  /** The Recommendation rows generation inserts, in rank order. */
  function Planned(movies: seq<Movie>, userId: int, topN: int, sim: Similarity): (rows: seq<Recommendation>)
    ensures |rows| == |Selection(movies, topN, sim)|
  {
    var cands := Candidates(movies);
    var scores := Scores(cands, sim);
    var sel := Selection(movies, topN, sim);
    seq(|sel|, k requires 0 <= k < |sel| => Recommendation(userId, cands[sel[k]].movieId, scores[sel[k]]))
  }

  /** One recommendation as the cache and the API present it. */
  function RecDict(movieId: int, title: string, genre: Option<string>, score: real): Json {
    Obj(map["movie_id" := Int(movieId), "title" := Str(title), "genre" := OptionalString(genre), "score" := Num(score)])
  }

  /**
   * `recommendations_dict` as written: entry k takes `movie_id` and `score`
   * from the k-th recommendation but `title` and `genre` from
   * `movie_list[k]`, the k-th candidate in table order.
   */
  function CacheDicts(rows: seq<Recommendation>, cands: seq<Movie>): (ds: seq<Json>)
    requires |rows| <= |cands|
    ensures |ds| == |rows|
  {
    seq(|rows|, k requires 0 <= k < |rows| => RecDict(rows[k].movieId, cands[k].title, cands[k].genre, rows[k].score))
  }

  /** `delete(Recommendation).where(user_id == ...)` plus `add_all(rows)`, committed together. */
  function ReplaceRecs(db: Db, userId: int, rows: seq<Recommendation>): (r: Db)
    ensures r == db.(recs := r.recs)
  {
    db.(recs := Filter(db.recs, (x: Recommendation) => x.userId != userId) + rows)
  }

  datatype GenReply = GenReply(message: string, count: int)

  /**
   * A generation run: the states an observer can see, in order (initially,
   * after the cache delete, after the commit, after the cache write), and
   * the reply or error.
   */
  datatype Run = Run(states: seq<App>, out: Result<GenReply>)

  /** `generate_recommendations(user_id, top_n)`. */
  function Generate(app: App, userId: int, topN: int, sim: Similarity): (r: Run)
    ensures |r.states| >= 1 && r.states[0] == app
    ensures FindUser(app.db, userId).None? ==> r == Run([app], Err(Http(404, "User not found")))
    ensures FindUser(app.db, userId).Some? && |app.db.movies| == 0 ==>
              r == Run([app], Err(Http(404, "No movies available")))
    ensures FindUser(app.db, userId).Some? && |app.db.movies| > 0
            && (forall k :: 0 <= k < |app.db.movies| ==> app.db.movies[k].embedding.None?) ==>
              r == Run([app], Err(Http(404, "No valid movie embeddings found")))
    ensures r.out.Ok? <==> FindUser(app.db, userId).Some? && |Candidates(app.db.movies)| > 0 && app.cache.conn.Connected?
    ensures r.out.Ok? ==> r.out.value.count == |Planned(app.db.movies, userId, topN, sim)|
  {
    if FindUser(app.db, userId).None? then Run([app], Err(Http(404, "User not found")))
    else if |app.db.movies| == 0 then Run([app], Err(Http(404, "No movies available")))
    else
      var cands := Candidates(app.db.movies);
      if |cands| == 0 then Run([app], Err(Http(404, "No valid movie embeddings found")))
      else
        var rows := Planned(app.db.movies, userId, topN, sim);
        Publish(app, userId, rows, CacheDicts(rows, cands))
  }

  /**
   * The write phase of a run: delete the user's key, commit the new rows,
   * then cache `dicts` with the default expiry.
   */
  function Publish(app: App, userId: int, rows: seq<Recommendation>, dicts: seq<Json>): (r: Run)
    ensures |r.states| >= 1 && r.states[0] == app
    ensures r.out.Ok? <==> app.cache.conn.Connected?
    ensures r.out.Ok? ==> r.out.value.count == |rows|
  {
    var key := RecKey(userId);
    match RedisCache.DeleteCache(app.cache, key)
    case Err(e) => Run([app], Err(e))
    case Ok(c1) =>
      var afterDelete := App(app.db, c1);
      var afterCommit := App(ReplaceRecs(app.db, userId, rows), c1);
      match RedisCache.SetCache(c1, key, List(dicts))
      case Err(e) => Run([app, afterDelete, afterCommit], Err(e))
      case Ok(c3) =>
        Run([app, afterDelete, afterCommit, App(afterCommit.db, c3)],
            Ok(GenReply("Recommendations generated successfully", |rows|)))
  }

  /** The state after a run: its last observed state. */
  function Final(r: Run): App
    requires |r.states| > 0
  {
    r.states[|r.states| - 1]
  }

  // ------------------------------------------------------------------ reading

  datatype ReadReply = Listing(userId: int, items: seq<Json>) | NoRecommendations(message: string)

  /** The user's recommendation rows joined with their movies, in table order. */
  function JoinRecs(recs: seq<Recommendation>, movies: seq<Movie>, userId: int): (r: seq<(Recommendation, Movie)>)
    ensures forall k :: 0 <= k < |r| ==>
      r[k].0 in recs && r[k].0.userId == userId && r[k].1 in movies && r[k].1.movieId == r[k].0.movieId
  {
    if |recs| == 0 then []
    else
      var here := if recs[0].userId == userId then
        var ms := Filter(movies, (m: Movie) => m.movieId == recs[0].movieId);
        seq(|ms|, k requires 0 <= k < |ms| => (recs[0], ms[k]))
      else [];
      here + JoinRecs(recs[1..], movies, userId)
  }

  /** Orders joined rows by recommendation score. */
  function ByScore(p: (Recommendation, Movie)): real {
    p.0.score
  }

  /** The join ordered by `score DESC` and cut to `LIMIT top_n`. */
  function DbTop(db: Db, userId: int, topN: nat): seq<(Recommendation, Movie)> {
    var ordered := Sorting.SortDesc(JoinRecs(db.recs, db.movies, userId), ByScore);
    ordered[..if topN < |ordered| then topN else |ordered|]
  }

  /** `get_user_recommendations(user_id, top_n)`. */
  function GetUserRecommendations(app: App, userId: int, topN: int): (r: Step<ReadReply>)
    ensures FindUser(app.db, userId).None? ==> r == Step(app, Err(Http(404, "User not found")))
    ensures r.app.db == app.db && r.app.cache.conn == app.cache.conn
  {
    if FindUser(app.db, userId).None? then Step(app, Err(Http(404, "User not found")))
    else
      match RedisCache.GetCache(app.cache, RecKey(userId))
      case Err(e) => Step(app, Err(e))
      case Ok(cached) =>
        if cached.Some? && Truthy(cached.value) then
          match cached.value
          case List(items) => Step(app, Ok(Listing(userId, PySlice(items, topN))))
          case Dict(_) => Step(app, Err(TypeError("unhashable type: 'slice'")))
        else ReadFromDb(app, userId, topN)
  }

  /** The fallback: query the rows, and cache a non-empty answer for 1800 seconds. */
  function ReadFromDb(app: App, userId: int, topN: int): (r: Step<ReadReply>)
    ensures r.app.db == app.db && r.app.cache.conn == app.cache.conn
  {
    if topN < 0 then Step(app, Err(Database("LIMIT must not be negative")))
    else
      var top := DbTop(app.db, userId, topN);
      if |top| == 0 then Step(app, Ok(NoRecommendations("No recommendations available")))
      else
        var items := seq(|top|, k requires 0 <= k < |top| => RecDict(top[k].0.movieId, top[k].1.title, top[k].1.genre, top[k].0.score));
        match RedisCache.SetCache(app.cache, RecKey(userId), List(items), ReadExpire)
        case Err(e) => Step(app, Err(e))
        case Ok(c) => Step(app.(cache := c), Ok(Listing(userId, items)))
  }

  // ------------------------------------------------------------------ lemmas

  /**
   * What generation selects: rows for this user only, each naming a movie
   * whose embedding is set, distinct candidate positions, as many as
   * `[:top_n]` keeps, in non-increasing score order, and no candidate left
   * out scores higher than one taken.
   */
  lemma PlannedRecommendations(movies: seq<Movie>, userId: int, topN: int, sim: Similarity)
    ensures var rows := Planned(movies, userId, topN, sim);
            var cands := Candidates(movies);
            var scores := Scores(cands, sim);
            var sel := Selection(movies, topN, sim);
            && |rows| == PySliceLen(|cands|, topN)
            && (topN >= 0 ==> |rows| == if topN < |cands| then topN else |cands|)
            && Distinct(sel)
            && (forall k :: 0 <= k < |rows| ==>
                  rows[k].userId == userId && rows[k].movieId == cands[sel[k]].movieId && rows[k].score == scores[sel[k]])
            && (forall k :: 0 <= k < |rows| ==>
                  exists m :: m in movies && m.embedding.Some? && m.movieId == rows[k].movieId)
            && (forall k, l :: 0 <= k < l < |rows| ==> rows[k].score >= rows[l].score)
            && (forall k, j :: 0 <= k < |rows| && 0 <= j < |cands| && j !in sel ==> rows[k].score >= scores[j])
  {
    var rows := Planned(movies, userId, topN, sim);
    var cands := Candidates(movies);
    var sel := Selection(movies, topN, sim);
    forall k | 0 <= k < |rows|
      ensures exists m :: m in movies && m.embedding.Some? && m.movieId == rows[k].movieId
    {
      assert cands[sel[k]] in movies;
    }
  }

  /** With unique movie ids, no movie is recommended twice. */
  lemma PlannedMoviesDistinct(db: Db, userId: int, topN: int, sim: Similarity)
    requires UniqueMovieIds(db)
    ensures var rows := Planned(db.movies, userId, topN, sim);
            forall k, l :: 0 <= k < l < |rows| ==> rows[k].movieId != rows[l].movieId
  {
    var rows := Planned(db.movies, userId, topN, sim);
    var cands := Candidates(db.movies);
    var sel := Selection(db.movies, topN, sim);
    PlannedRecommendations(db.movies, userId, topN, sim);
    CandidatesDistinctIds(db);
    forall k, l | 0 <= k < l < |rows|
      ensures rows[k].movieId != rows[l].movieId
    {
      assert sel[k] != sel[l];
    }
  }

  /** Filtering keeps movie ids unique. */
  lemma CandidatesDistinctIds(db: Db)
    requires UniqueMovieIds(db)
    ensures var c := Candidates(db.movies);
            forall i, j :: 0 <= i < j < |c| ==> c[i].movieId != c[j].movieId
  {
    var c := Candidates(db.movies);
    forall i, j | 0 <= i < j < |c|
      ensures c[i].movieId != c[j].movieId
    {
      if c[i].movieId == c[j].movieId {
        var a :| 0 <= a < |db.movies| && db.movies[a] == c[i];
        var b :| 0 <= b < |db.movies| && db.movies[b] == c[j];
        assert a == b;
        TwoOccurrences(c, i, j);
        assert multiset(c)[c[i]] == multiset(db.movies)[c[i]];
        UniqueRowsOnce(db.movies, a);
      }
    }
  }

  /** With unique ids, every movie row occurs once. */
  lemma UniqueRowsOnce(movies: seq<Movie>, a: nat)
    requires a < |movies|
    requires forall i, j :: 0 <= i < j < |movies| ==> movies[i].movieId != movies[j].movieId
    ensures multiset(movies)[movies[a]] == 1
  {
    var m := movies[a];
    var front, back := movies[..a], movies[a + 1..];
    assert movies == front + [m] + back;
    forall i | 0 <= i < |front| ensures front[i] != m {
      assert movies[i].movieId != movies[a].movieId;
    }
    forall i | 0 <= i < |back| ensures back[i] != m {
      assert back[i] == movies[a + 1 + i];
    }
    assert m !in front && m !in back;
  }

  /**
   * The order of effects in a successful run: the cache key is deleted while
   * the rows are still the old ones; the commit replaces exactly this
   * user's rows while the key stays absent; only then is the new list
   * cached, with the default expiry of 600 seconds.
   */
  lemma GenerateWriteOrder(app: App, userId: int, topN: int, sim: Similarity)
    requires Generate(app, userId, topN, sim).out.Ok?
    ensures var r := Generate(app, userId, topN, sim);
            var key := RecKey(userId);
            var rows := Planned(app.db.movies, userId, topN, sim);
            && |r.states| == 4
            && r.states[1].db == app.db
            && RedisCache.GetCache(r.states[1].cache, key) == Ok(None)
            && r.states[2].cache == r.states[1].cache
            && r.states[2].db == ReplaceRecs(app.db, userId, rows)
            && r.states[3].db == r.states[2].db
            && RedisCache.GetCache(r.states[3].cache, key) == Ok(Some(List(CacheDicts(rows, Candidates(app.db.movies)))))
            && r.states[3].cache.store[key].expire == 600
  {
  }

  /**
   * After a successful run this user's rows are exactly the planned ones,
   * every other user's rows are untouched, and so is every other user's
   * cached list.
   */
  lemma GenerateFrame(app: App, userId: int, topN: int, sim: Similarity, other: int)
    requires Generate(app, userId, topN, sim).out.Ok?
    requires other != userId
    ensures var r := Generate(app, userId, topN, sim);
            var rows := Planned(app.db.movies, userId, topN, sim);
            && (forall x: Recommendation :: x.userId == userId ==> multiset(Final(r).db.recs)[x] == multiset(rows)[x])
            && (forall x: Recommendation :: x.userId != userId ==> multiset(Final(r).db.recs)[x] == multiset(app.db.recs)[x])
            && RedisCache.GetCache(Final(r).cache, RecKey(other)) == RedisCache.GetCache(app.cache, RecKey(other))
            && Final(r).db == app.db.(recs := Final(r).db.recs)
  {
    var r := Generate(app, userId, topN, sim);
    var rows := Planned(app.db.movies, userId, topN, sim);
    GenerateWriteOrder(app, userId, topN, sim);
    PlannedRecommendations(app.db.movies, userId, topN, sim);
    ReplaceRecsFrame(app.db, userId, rows);
    Text.KeysDiffer("recommendations:", userId, other);
    var key := RecKey(userId);
    var c1 := RedisCache.DeleteCache(app.cache, key).value;
    assert RedisCache.GetCache(c1, RecKey(other)) == RedisCache.GetCache(app.cache, RecKey(other));
  }

  /** Replacing a user's rows keeps every other user's rows and nothing of this user's old ones. */
  lemma ReplaceRecsFrame(db: Db, userId: int, rows: seq<Recommendation>)
    requires forall k :: 0 <= k < |rows| ==> rows[k].userId == userId
    ensures var recs := ReplaceRecs(db, userId, rows).recs;
            && (forall x: Recommendation :: x.userId == userId ==> multiset(recs)[x] == multiset(rows)[x])
            && (forall x: Recommendation :: x.userId != userId ==> multiset(recs)[x] == multiset(db.recs)[x])
  {
    var kept := Filter(db.recs, (x: Recommendation) => x.userId != userId);
    assert ReplaceRecs(db, userId, rows).recs == kept + rows;
  }

  /**
   * A reader that runs between the cache delete and the cache write misses
   * the cache and answers from the rows: before the commit it sees the old
   * rows, after it the new ones.
   */
  lemma ReadDuringGenerationFallsBack(app: App, userId: int, topN: int, sim: Similarity, i: nat, readTop: int)
    requires Generate(app, userId, topN, sim).out.Ok?
    requires i == 1 || i == 2
    ensures var s := Generate(app, userId, topN, sim).states[i];
            GetUserRecommendations(s, userId, readTop) == ReadFromDb(s, userId, readTop)
  {
    GenerateWriteOrder(app, userId, topN, sim);
  }

  /**
   * Once a run has produced a non-empty list, the next read is served from
   * the cache: the first `top_n` entries of the list just generated, whose
   * movie ids and scores are those of the planned rows in rank order.
   */
  lemma ReadAfterGenerate(app: App, userId: int, topN: int, sim: Similarity, readTop: int)
    requires Generate(app, userId, topN, sim).out.Ok?
    requires |Planned(app.db.movies, userId, topN, sim)| > 0
    ensures var r := Generate(app, userId, topN, sim);
            var rows := Planned(app.db.movies, userId, topN, sim);
            var items := PySlice(CacheDicts(rows, Candidates(app.db.movies)), readTop);
            && GetUserRecommendations(Final(r), userId, readTop) == Step(Final(r), Ok(Listing(userId, items)))
            && forall k :: 0 <= k < |items| ==>
                 Field(items[k], "movie_id") == Some(Int(rows[k].movieId)) && Field(items[k], "score") == Some(Num(rows[k].score))
  {
    var r := Generate(app, userId, topN, sim);
    var rows := Planned(app.db.movies, userId, topN, sim);
    var cands := Candidates(app.db.movies);
    var dicts := CacheDicts(rows, cands);
    GenerateWriteOrder(app, userId, topN, sim);
    assert Final(r).db.users == app.db.users;
    CacheHitSkipsRows(Final(r), userId, readTop, dicts, Final(r).db.recs);
    var items := PySlice(dicts, readTop);
    forall k | 0 <= k < |items|
      ensures Field(items[k], "movie_id") == Some(Int(rows[k].movieId)) && Field(items[k], "score") == Some(Num(rows[k].score))
    {
      assert items[k] == dicts[k];
      RecDictFields(rows[k].movieId, cands[k].title, cands[k].genre, rows[k].score);
    }
  }

  /** A recommendation dict reads back the id, title and score it was built from. */
  lemma RecDictFields(movieId: int, title: string, genre: Option<string>, score: real)
    ensures Field(RecDict(movieId, title, genre, score), "movie_id") == Some(Int(movieId))
    ensures Field(RecDict(movieId, title, genre, score), "title") == Some(Str(title))
    ensures Field(RecDict(movieId, title, genre, score), "score") == Some(Num(score))
  {
    assert "movie_id"[0] != "title"[0] && "movie_id"[0] != "genre"[0] && "movie_id"[0] != "score"[0];
    assert "title"[0] != "genre"[0] && "title"[0] != "score"[0] && "genre"[0] != "score"[0];
  }

  /** A non-empty cached list answers the read without consulting any rows. */
  lemma CacheHitSkipsRows(app: App, userId: int, topN: int, items: seq<Json>, recs: seq<Recommendation>)
    requires FindUser(app.db, userId).Some?
    requires RedisCache.GetCache(app.cache, RecKey(userId)) == Ok(Some(List(items)))
    requires |items| > 0
    ensures GetUserRecommendations(app, userId, topN) == Step(app, Ok(Listing(userId, PySlice(items, topN))))
    ensures GetUserRecommendations(app.(db := app.db.(recs := recs)), userId, topN).out
            == GetUserRecommendations(app, userId, topN).out
  {
  }

  /** An absent or empty cached list falls through to the rows. */
  lemma CacheMissReadsRows(app: App, userId: int, topN: int)
    requires FindUser(app.db, userId).Some?
    requires app.cache.conn.Connected?
    requires RecKey(userId) !in app.cache.store || !Truthy(app.cache.store[RecKey(userId)].value)
    ensures GetUserRecommendations(app, userId, topN) == ReadFromDb(app, userId, topN)
  {
  }

  /**
   * The fallback query: this user's rows joined with their movies, in
   * non-increasing score order, `min(top_n, #rows)` of them, and none left
   * out scores higher than one returned.
   */
  lemma DbTopProperties(db: Db, userId: int, topN: nat)
    ensures var top := DbTop(db, userId, topN);
            var all := JoinRecs(db.recs, db.movies, userId);
            && |top| == (if topN < |all| then topN else |all|)
            && multiset(top) <= multiset(all)
            && (forall k :: 0 <= k < |top| ==>
                  top[k].0 in db.recs && top[k].0.userId == userId && top[k].1 in db.movies
                  && top[k].1.movieId == top[k].0.movieId)
            && (forall i, j :: 0 <= i < j < |top| ==> top[i].0.score >= top[j].0.score)
            && (forall q, k :: q in all && q !in top && 0 <= k < |top| ==> q.0.score <= top[k].0.score)
  {
    var all := JoinRecs(db.recs, db.movies, userId);
    var ordered := Sorting.SortDesc(all, ByScore);
    var top := DbTop(db, userId, topN);
    assert |ordered| == |all| by {
      assert |multiset(ordered)| == |multiset(all)|;
    }
    SortedPrefix(all, ordered, top);
  }

  /** A prefix of a score-sorted permutation of `all`: the facts the fallback query relies on. */
  lemma SortedPrefix(all: seq<(Recommendation, Movie)>, ordered: seq<(Recommendation, Movie)>, top: seq<(Recommendation, Movie)>)
    requires multiset(ordered) == multiset(all)
    requires Sorting.SortedDesc(ordered, ByScore)
    requires top <= ordered
    ensures multiset(top) <= multiset(all)
    ensures forall k :: 0 <= k < |top| ==> top[k] in all
    ensures forall i, j :: 0 <= i < j < |top| ==> top[i].0.score >= top[j].0.score
    ensures forall q, k :: q in all && q !in top && 0 <= k < |top| ==> q.0.score <= top[k].0.score
  {
    var m := |top|;
    assert ordered == top + ordered[m..];
    forall k | 0 <= k < |top| ensures top[k] in all {
      assert top[k] in multiset(ordered);
    }
    forall i, j | 0 <= i < j < |top| ensures top[i].0.score >= top[j].0.score {
      assert ByScore(ordered[i]) >= ByScore(ordered[j]);
    }
    forall q, k | q in all && q !in top && 0 <= k < |top|
      ensures q.0.score <= top[k].0.score
    {
      assert q in multiset(ordered);
      var p :| 0 <= p < |ordered| && ordered[p] == q;
      assert ByScore(ordered[k]) >= ByScore(ordered[p]);
    }
  }

  /** Every row of this user whose movie exists takes part in the join. */
  lemma {:induction false} JoinRecsComplete(recs: seq<Recommendation>, movies: seq<Movie>, userId: int, x: Recommendation, m: Movie)
    requires x in recs && x.userId == userId
    requires m in movies && m.movieId == x.movieId
    ensures (x, m) in JoinRecs(recs, movies, userId)
  {
    if recs[0] == x {
      var ms := Filter(movies, (mv: Movie) => mv.movieId == recs[0].movieId);
      assert m in multiset(ms);
      var k :| 0 <= k < |ms| && ms[k] == m;
      var here := seq(|ms|, k requires 0 <= k < |ms| => (recs[0], ms[k]));
      assert here[k] == (x, m);
    } else {
      JoinRecsComplete(recs[1..], movies, userId, x, m);
    }
  }

  /**
   * On a miss, the answer lists the fallback rows with the title and genre
   * of each row's own movie, and a non-empty answer is cached under the
   * user's key for 1800 seconds; with no rows the reply is the message
   * "No recommendations available" and nothing is cached.
   */
  lemma ReadFromDbResult(app: App, userId: int, topN: nat)
    requires app.cache.conn.Connected?
    ensures var top := DbTop(app.db, userId, topN);
            var r := ReadFromDb(app, userId, topN);
            && (|top| == 0 ==> r == Step(app, Ok(NoRecommendations("No recommendations available"))))
            && (|top| > 0 ==>
                  && r.out.Ok? && r.out.value.Listing? && |r.out.value.items| == |top|
                  && (forall k :: 0 <= k < |top| ==>
                        r.out.value.items[k] == RecDict(top[k].0.movieId, top[k].1.title, top[k].1.genre, top[k].0.score))
                  && RecKey(userId) in r.app.cache.store
                  && r.app.cache.store[RecKey(userId)] == RedisCache.Entry(List(r.out.value.items), ReadExpire))
  {
  }

  // ------------------------------------------------------ cached titles

  /** Two movies for the counterexample below; the second scores higher. */
  const MovieA: Movie := Movie(1, "A", None, None, Some([0.0]), None, None)
  const MovieB: Movie := Movie(2, "B", None, None, Some([1.0]), None, None)

  /** A similarity that prefers the embedding `[1.0]` over every other. */
  function PreferB(matrix: seq<Embedding>, e: Embedding): real {
    if e == [1.0] then 1.0 else 0.0
  }

  /**
   * The cached entries can name one movie and carry another's title: for
   * `top_n = 1` the single cached entry has the id of movie 2 but the
   * title of movie 1.
   */
  lemma CachedTitleMismatch()
    ensures var d := CacheDicts(Planned([MovieA, MovieB], 7, 1, PreferB), Candidates([MovieA, MovieB]));
            |d| == 1 && d[0] == RecDict(2, "A", None, 1.0)
  {
    TwoMovieSelection();
    var rows := Planned([MovieA, MovieB], 7, 1, PreferB);
    assert rows == [Recommendation(7, 2, 1.0)];
  }

  /** The ranking of the counterexample: movie 2 (position 1) comes first. */
  lemma TwoMovieSelection()
    ensures Candidates([MovieA, MovieB]) == [MovieA, MovieB]
    ensures Scores([MovieA, MovieB], PreferB) == [0.0, 1.0]
    ensures Selection([MovieA, MovieB], 1, PreferB) == [1]
  {
    AllEmbeddedAreCandidates([MovieA, MovieB]);
    TwoMovieScores();
    TopOfTwo(Scores([MovieA, MovieB], PreferB));
  }

  /** Movie A scores 0 and movie B scores 1. */
  lemma TwoMovieScores()
    ensures Scores([MovieA, MovieB], PreferB) == [0.0, 1.0]
  {
    var m := Matrix([MovieA, MovieB]);
    assert m[0] == [0.0] && m[1] == [1.0];
    assert m[0] != [1.0] by { assert m[0][0] != [1.0][0]; }
    assert PreferB(m, m[0]) == 0.0 && PreferB(m, m[1]) == 1.0;
    var s := Scores([MovieA, MovieB], PreferB);
    assert s[0] == PreferB(m, m[0]) && s[1] == PreferB(m, m[1]);
    assert |s| == 2;
  }

  /** Of two scores where the second is higher, the top one is the second. */
  lemma TopOfTwo(scores: seq<real>)
    requires scores == [0.0, 1.0]
    ensures Ranking.TopN(scores, 1) == [1]
  {
    var sel := Ranking.TopN(scores, 1);
    assert |sel| == 1 && sel[0] < 2;
    assert 0 in sel || scores[sel[0]] >= scores[0];
  }

  /** When every movie has an embedding, all of them are candidates, in order. */
  lemma {:induction false} AllEmbeddedAreCandidates(movies: seq<Movie>)
    requires forall k :: 0 <= k < |movies| ==> movies[k].embedding.Some?
    ensures Candidates(movies) == movies
  {
    if |movies| > 0 {
      AllEmbeddedAreCandidates(movies[1..]);
      assert Filter(movies, (m: Movie) => m.embedding.Some?)
          == [movies[0]] + Filter(movies[1..], (m: Movie) => m.embedding.Some?);
      assert [movies[0]] + movies[1..] == movies;
    }
  }

  /**
   * The evidently intended cache entries: entry k describes the k-th
   * recommended movie itself.
   */
  function IntendedCacheDicts(movies: seq<Movie>, topN: int, sim: Similarity): (ds: seq<Json>)
    ensures |ds| == |Selection(movies, topN, sim)|
  {
    var cands := Candidates(movies);
    var scores := Scores(cands, sim);
    var sel := Selection(movies, topN, sim);
    seq(|sel|, k requires 0 <= k < |sel| =>
      RecDict(cands[sel[k]].movieId, cands[sel[k]].title, cands[sel[k]].genre, scores[sel[k]]))
  }

  /**
   * With the intended entries, each one's title and genre are those of the
   * movie its `movie_id` names, and its id and score are the planned row's.
   */
  lemma IntendedTitlesMatch(db: Db, userId: int, topN: int, sim: Similarity)
    requires UniqueMovieIds(db)
    ensures var rows := Planned(db.movies, userId, topN, sim);
            var ds := IntendedCacheDicts(db.movies, topN, sim);
            && |ds| == |rows|
            && forall k, m :: 0 <= k < |ds| && m in db.movies && m.movieId == rows[k].movieId ==>
                 ds[k] == RecDict(rows[k].movieId, m.title, m.genre, rows[k].score)
  {
    var rows := Planned(db.movies, userId, topN, sim);
    var cands := Candidates(db.movies);
    var sel := Selection(db.movies, topN, sim);
    forall k, m | 0 <= k < |rows| && m in db.movies && m.movieId == rows[k].movieId
      ensures m == cands[sel[k]]
    {
      var c := cands[sel[k]];
      assert c in db.movies;
      SameIdSameMovie(db, m, c);
    }
  }

  /** With unique ids, two movies of the table with the same id are the same row. */
  lemma SameIdSameMovie(db: Db, m: Movie, c: Movie)
    requires UniqueMovieIds(db)
    requires m in db.movies && c in db.movies && m.movieId == c.movieId
    ensures m == c
  {
    var i :| 0 <= i < |db.movies| && db.movies[i] == m;
    var j :| 0 <= j < |db.movies| && db.movies[j] == c;
  }
}
