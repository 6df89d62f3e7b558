/**
 * The movie service: creation with a unique title, cache-aside reads of one
 * movie and of a (genre-filtered) listing, partial updates and deletion.
 * Updates and deletions go to the rows only; the cache is left as it was.
 *
 * `to_dict` (the column-reflecting serialiser) is the `ToDict` parameter.
 */
module MovieService {
  import opened Optional
  import opened Outcome
  import opened JsonData
  import opened Tables
  import opened AppState
  import opened Seqs
  import RedisCache
  import Text

  /** `to_dict(movie)`: the row as a JSON object. */
  type ToDict = Movie -> map<string, Json>

  /** A request field that is either left out or given (`exclude_unset`). */
  datatype Field<+T> = Unset | Set(value: T) {
    /** The given value, or `current` when the field was left out. */
    function Or(current: T): T {
      match this
      case Set(v) => v
      case Unset => current
    }
  }

  /**
   * `MovieCreate`: `title` is required; the others default to `None` and
   * are told apart from an explicit value only by `exclude_unset`.
   */
  datatype MovieCreate = MovieCreate(
    title: string,
    genre: Field<Option<string>>,
    releaseDate: Field<Option<Date>>,
    embedding: Field<Option<Embedding>>)

  /** Expiry of cached movies and listings, in seconds. */
  const MovieExpire: int := 3600

  /** The error prefix of the catch-all handlers. */
  const Occurred: string := "An error occured: "

  /** What the database reports when a deleted movie is still referenced. */
  const ForeignKeyViolation: string := "update or delete on table \"movies\" violates a foreign key constraint"

  /** A read's reply: the cached document, one row, or the matching rows. */
  datatype MovieReply = FromCache(doc: Payload) | One(movie: Movie) | Many(movies: seq<Movie>)

  // ----------------------------------------------------------------- create

  predicate TitleTaken(db: Db, title: string) {
    exists k :: 0 <= k < |db.movies| && db.movies[k].title == title
  }

  /** No two movies share a title. */
  ghost predicate UniqueTitles(db: Db) {
    forall i, j :: 0 <= i < j < |db.movies| ==> db.movies[i].title != db.movies[j].title
  }

  /** `create_movie`: a taken title is 400; otherwise one row is added with the next id. */
  function CreateMovie(db: Db, req: MovieCreate): (r: Result<(Db, Movie)>)
    ensures TitleTaken(db, req.title) ==> r == Err(Http(400, "Movie with this title already exists."))
    ensures r.Ok? <==> !TitleTaken(db, req.title)
    ensures r.Ok? ==>
      var (db', m) := r.value;
      && m == Movie(db.nextMovieId, req.title, req.genre.Or(None), req.releaseDate.Or(None), req.embedding.Or(None), None, None)
      && db' == db.(movies := db.movies + [m], nextMovieId := db.nextMovieId + 1)
  {
    match IndexWhere(db.movies, (m: Movie) => m.title == req.title)
    case Some(_) => Err(Http(400, "Movie with this title already exists."))
    case None =>
      var m := Movie(db.nextMovieId, req.title, req.genre.Or(None), req.releaseDate.Or(None), req.embedding.Or(None), None, None);
      Ok((db.(movies := db.movies + [m], nextMovieId := db.nextMovieId + 1), m))
  }

  /** Creation keeps titles and ids unique, and the new movie is found by its id. */
  lemma CreateMovieKeepsInvariants(db: Db, req: MovieCreate)
    requires UniqueTitles(db) && UniqueMovieIds(db) && SerialsAhead(db)
    requires CreateMovie(db, req).Ok?
    ensures var (db', m) := CreateMovie(db, req).value;
            && UniqueTitles(db') && UniqueMovieIds(db') && SerialsAhead(db')
            && FindMovie(db', m.movieId) == Some(m)
  {
    var (db', m) := CreateMovie(db, req).value;
    forall i, j | 0 <= i < j < |db'.movies|
      ensures db'.movies[i].title != db'.movies[j].title
      ensures db'.movies[i].movieId != db'.movies[j].movieId
    {
      if j == |db.movies| {
        assert db'.movies[i] == db.movies[i];
        assert db.movies[i].movieId < db.nextMovieId;
      }
    }
    assert db'.movies[|db.movies|] == m;
    assert forall k :: 0 <= k < |db.movies| ==> db'.movies[k].movieId != m.movieId;
  }

  // ------------------------------------------------------------------- read

  /** The cache key of one movie: `movie_{id}`. */
  function MovieKey(movieId: int): string {
    "movie_" + Text.IntToString(movieId)
  }

  /**
   * `get_movie`: a non-empty cached document is returned as it is; otherwise
   * the row is looked up (404 when absent), its dict cached for an hour, and
   * the row returned. Cache errors are not caught.
   */
  function GetMovie(app: App, movieId: int, toDict: ToDict): (r: Step<MovieReply>)
    ensures r.app.db == app.db
    ensures app.cache.conn.Uninitialised? ==> r == Step(app, Err(Runtime(RedisCache.NotInitialised)))
    ensures app.cache.conn.Connected? && MovieKey(movieId) in app.cache.store
            && Truthy(app.cache.store[MovieKey(movieId)].value) ==>
              r == Step(app, Ok(FromCache(app.cache.store[MovieKey(movieId)].value)))
    ensures r.out.Ok? && r.out.value.One? ==> Some(r.out.value.movie) == FindMovie(app.db, movieId)
    ensures r.out == Err(Http(404, "Movie not found.")) <==>
              app.cache.conn.Connected? && FindMovie(app.db, movieId).None?
              && (MovieKey(movieId) !in app.cache.store || !Truthy(app.cache.store[MovieKey(movieId)].value))
  {
    var key := MovieKey(movieId);
    match RedisCache.GetCache(app.cache, key)
    case Err(e) => Step(app, Err(e))
    case Ok(cached) =>
      if cached.Some? && Truthy(cached.value) then Step(app, Ok(FromCache(cached.value)))
      else
        match FindMovie(app.db, movieId)
        case None => Step(app, Err(Http(404, "Movie not found.")))
        case Some(m) =>
          match RedisCache.SetCache(app.cache, key, Dict(toDict(m)), MovieExpire)
          case Err(e) => Step(app, Err(e))
          case Ok(c) => Step(app.(cache := c), Ok(One(m)))
  }

  /**
   * Cache-aside: a miss that finds the row caches its dict for an hour, and
   * the next read is served from the cache.
   */
  lemma GetMovieMissThenHit(app: App, movieId: int, toDict: ToDict)
    requires app.cache.conn.Connected?
    requires MovieKey(movieId) !in app.cache.store
    requires FindMovie(app.db, movieId).Some?
    requires |toDict(FindMovie(app.db, movieId).value)| > 0
    ensures var first := GetMovie(app, movieId, toDict);
            var doc := Dict(toDict(FindMovie(app.db, movieId).value));
            && first.out == Ok(One(FindMovie(app.db, movieId).value))
            && first.app.cache.store[MovieKey(movieId)] == RedisCache.Entry(doc, MovieExpire)
            && GetMovie(first.app, movieId, toDict) == Step(first.app, Ok(FromCache(doc)))
  {
  }

  /** The key of a listing: `movies:{genre}`, or `movies:all` for no genre or an empty one. */
  function ListingKey(genre: Option<string>): (key: string)
    ensures genre.None? || genre == Some("") ==> key == "movies:all"
    ensures genre.Some? && genre.value != "" ==> key == "movies:" + genre.value
  {
    "movies:" + if genre.Some? && genre.value != "" then genre.value else "all"
  }

  /** `Movie.genre.ilike('%genre%')`: a null genre never matches. */
  predicate GenreMatches(m: Movie, genre: string) {
    m.genre.Some? && Text.ContainsIgnoreCase(m.genre.value, genre)
  }

  /** The rows of the listing query, in table order. */
  function Listing(db: Db, genre: Option<string>): (ms: seq<Movie>)
    ensures genre.None? || genre == Some("") ==> ms == db.movies
    ensures genre.Some? && genre.value != "" ==>
              forall m :: multiset(ms)[m] == if GenreMatches(m, genre.value) then multiset(db.movies)[m] else 0
  {
    if genre.Some? && genre.value != "" then Filter(db.movies, (m: Movie) => GenreMatches(m, genre.value))
    else db.movies
  }

  /**
   * `get_movies`: everything inside one `try`, so a cache error and the
   * "No movies found" 404 alike leave as a 500 with the error's text.
   */
  function GetMovies(app: App, genre: Option<string>, toDict: ToDict): (r: Step<MovieReply>)
    ensures r.app.db == app.db
    ensures r.out.Err? ==> r.out.error.Http? && r.out.error.status == 500
    ensures app.cache.conn.Uninitialised? ==>
              r == Step(app, Err(CatchAll(Occurred, Runtime(RedisCache.NotInitialised))))
    ensures app.cache.conn.Connected? && ListingKey(genre) in app.cache.store
            && Truthy(app.cache.store[ListingKey(genre)].value) ==>
              r == Step(app, Ok(FromCache(app.cache.store[ListingKey(genre)].value)))
    ensures r.out.Ok? && r.out.value.Many? ==> r.out.value.movies == Listing(app.db, genre) && |r.out.value.movies| > 0
  {
    var key := ListingKey(genre);
    match RedisCache.GetCache(app.cache, key)
    case Err(e) => Step(app, Err(CatchAll(Occurred, e)))
    case Ok(cached) =>
      if cached.Some? && Truthy(cached.value) then Step(app, Ok(FromCache(cached.value)))
      else
        var movies := Listing(app.db, genre);
        if |movies| == 0 then Step(app, Err(CatchAll(Occurred, Http(404, "No movies found"))))
        else
          match RedisCache.SetCache(app.cache, key, List(Docs(movies, toDict)), MovieExpire)
          case Err(e) => Step(app, Err(CatchAll(Occurred, e)))
          case Ok(c) => Step(app.(cache := c), Ok(Many(movies)))
  }

  /** `[to_dict(movie) for movie in movies]`. */
  function Docs(movies: seq<Movie>, toDict: ToDict): (docs: seq<Json>)
    ensures |docs| == |movies|
    ensures forall k :: 0 <= k < |movies| ==> docs[k] == Obj(toDict(movies[k]))
  {
    seq(|movies|, k requires 0 <= k < |movies| => Obj(toDict(movies[k])))
  }

  /**
   * A listing with no match fails with 500 carrying the 404's text, and
   * caches nothing.
   */
  lemma NoMatchIsServerError(app: App, genre: Option<string>, toDict: ToDict)
    requires app.cache.conn.Connected?
    requires ListingKey(genre) !in app.cache.store
    requires |Listing(app.db, genre)| == 0
    ensures GetMovies(app, genre, toDict) == Step(app, Err(Http(500, Occurred + "404: " + "No movies found")))
  {
    assert RedisCache.GetCache(app.cache, ListingKey(genre)) == Ok(None);
    CatchAllNotFound(Occurred, "No movies found");
  }

  /**
   * A listing read on a miss caches the serialised rows under its key for
   * an hour, and the next read of the same listing comes from the cache.
   */
  lemma GetMoviesMissThenHit(app: App, genre: Option<string>, toDict: ToDict)
    requires app.cache.conn.Connected?
    requires ListingKey(genre) !in app.cache.store
    requires |Listing(app.db, genre)| > 0
    ensures var first := GetMovies(app, genre, toDict);
            var movies := Listing(app.db, genre);
            && first.out == Ok(Many(movies))
            && ListingKey(genre) in first.app.cache.store
            && var doc := first.app.cache.store[ListingKey(genre)];
               && doc.expire == MovieExpire && doc.value.List?
               && |doc.value.elems| == |movies|
               && (forall k :: 0 <= k < |movies| ==> doc.value.elems[k] == Obj(toDict(movies[k])))
               && GetMovies(first.app, genre, toDict) == Step(first.app, Ok(FromCache(doc.value)))
  {
  }

  /** A non-empty genre lists exactly the movies whose genre contains it, ignoring ASCII case. */
  lemma ListingMatchesGenre(db: Db, genre: string, m: Movie)
    requires genre != ""
    ensures m in Listing(db, Some(genre)) <==> m in db.movies && GenreMatches(m, genre)
  {
    var ms := Listing(db, Some(genre));
    assert m in ms <==> m in multiset(ms);
    assert m in db.movies <==> m in multiset(db.movies);
  }

  // ----------------------------------------------------------------- update

  /** `setattr` of every field the request set; the other columns keep their values. */
  function ApplyUpdate(m: Movie, req: MovieCreate): (r: Movie)
    ensures r.movieId == m.movieId && r.tmdbId == m.tmdbId && r.overview == m.overview
    ensures r.title == req.title
    ensures req.genre.Set? ==> r.genre == req.genre.value
    ensures req.genre.Unset? ==> r.genre == m.genre
    ensures req.releaseDate.Set? ==> r.releaseDate == req.releaseDate.value
    ensures req.releaseDate.Unset? ==> r.releaseDate == m.releaseDate
    ensures req.embedding.Set? ==> r.embedding == req.embedding.value
    ensures req.embedding.Unset? ==> r.embedding == m.embedding
  {
    m.(title := req.title, genre := req.genre.Or(m.genre), releaseDate := req.releaseDate.Or(m.releaseDate),
       embedding := req.embedding.Or(m.embedding))
  }

  /**
   * `update_movie`: 404 for an unknown id; otherwise the first row with that
   * id takes the fields the request set. Titles are not checked here.
   */
  function UpdateMovie(db: Db, movieId: int, req: MovieCreate): (r: Result<(Db, Movie)>)
    ensures r.Ok? <==> FindMovie(db, movieId).Some?
    ensures r.Err? ==> r.error == Http(404, "Movie not found.")
    ensures r.Ok? ==>
      var (db', m) := r.value;
      var k := MovieIndex(db, movieId).value;
      && m == ApplyUpdate(db.movies[k], req)
      && db' == db.(movies := db.movies[k := m])
  {
    match MovieIndex(db, movieId)
    case None => Err(Http(404, "Movie not found."))
    case Some(k) =>
      var m := ApplyUpdate(db.movies[k], req);
      Ok((db.(movies := db.movies[k := m]), m))
  }

  /** After an update, looking the movie up gives the updated row. */
  lemma UpdateThenFind(db: Db, movieId: int, req: MovieCreate)
    requires UpdateMovie(db, movieId, req).Ok?
    ensures var (db', m) := UpdateMovie(db, movieId, req).value;
            FindMovie(db', movieId) == Some(m) && m == ApplyUpdate(FindMovie(db, movieId).value, req)
  {
    var db' := UpdateMovie(db, movieId, req).value.0;
    IndexWherePointwise(db.movies, db'.movies, (m: Movie) => m.movieId == movieId);
  }

  /** Applying the same update twice is the same as applying it once. */
  lemma UpdateIdempotent(db: Db, movieId: int, req: MovieCreate)
    requires UpdateMovie(db, movieId, req).Ok?
    ensures var once := UpdateMovie(db, movieId, req).value;
            UpdateMovie(once.0, movieId, req) == Ok(once)
  {
    var (db', m) := UpdateMovie(db, movieId, req).value;
    var k := MovieIndex(db, movieId).value;
    IndexWherePointwise(db.movies, db'.movies, (m: Movie) => m.movieId == movieId);
    assert MovieIndex(db', movieId) == Some(k);
    assert ApplyUpdate(m, req) == m;
    assert db'.movies[k := m] == db'.movies;
  }

  /**
   * An update can give a movie the title another movie already has: the
   * uniqueness `create_movie` enforces is not kept by `update_movie`.
   */
  lemma UpdateCanDuplicateTitle(db: Db, movieId: int, other: nat, req: MovieCreate)
    requires UniqueMovieIds(db)
    requires FindMovie(db, movieId).Some?
    requires other < |db.movies| && db.movies[other].movieId != movieId
    requires req.title == db.movies[other].title
    ensures UpdateMovie(db, movieId, req).Ok?
    ensures !UniqueTitles(UpdateMovie(db, movieId, req).value.0)
  {
    var k := MovieIndex(db, movieId).value;
    var db' := UpdateMovie(db, movieId, req).value.0;
    assert db'.movies[k].title == db'.movies[other].title;
    if k < other {
      assert !(db'.movies[k].title != db'.movies[other].title);
    } else {
      assert k != other;
    }
  }

  /**
   * The cache is not invalidated: after an update, a movie that was cached
   * is still served from its old cached document.
   */
  lemma UpdateLeavesStaleCache(app: App, movieId: int, req: MovieCreate, toDict: ToDict)
    requires UpdateMovie(app.db, movieId, req).Ok?
    requires app.cache.conn.Connected?
    requires MovieKey(movieId) in app.cache.store && Truthy(app.cache.store[MovieKey(movieId)].value)
    ensures var after := app.(db := UpdateMovie(app.db, movieId, req).value.0);
            GetMovie(after, movieId, toDict).out == Ok(FromCache(app.cache.store[MovieKey(movieId)].value))
  {
  }

  // ----------------------------------------------------------------- delete

  /** Some poster, recommendation, review, watch or genre link row still points at the movie. */
  predicate Referenced(db: Db, movieId: int) {
    || (exists k :: 0 <= k < |db.posters| && db.posters[k].movieId == movieId)
    || (exists k :: 0 <= k < |db.recs| && db.recs[k].movieId == movieId)
    || (exists k :: 0 <= k < |db.reviews| && db.reviews[k].movieId == movieId)
    || (exists k :: 0 <= k < |db.watch| && db.watch[k].movieId == movieId)
    || (exists k :: 0 <= k < |db.movieGenres| && db.movieGenres[k].movieId == movieId)
  }

  /**
   * `delete_movie`: 404 (without a period) for an unknown id; a movie other
   * rows still reference makes the commit fail, rolled back and reported as
   * 500; otherwise the row is removed.
   */
  function DeleteMovie(db: Db, movieId: int): (r: Result<Db>)
    ensures FindMovie(db, movieId).None? ==> r == Err(Http(404, "Movie not found"))
    ensures FindMovie(db, movieId).Some? && Referenced(db, movieId) ==>
              r == Err(CatchAll(Occurred, Database(ForeignKeyViolation)))
    ensures r.Ok? <==> FindMovie(db, movieId).Some? && !Referenced(db, movieId)
    ensures r.Ok? ==>
      var k := MovieIndex(db, movieId).value;
      r.value == db.(movies := db.movies[..k] + db.movies[k + 1..])
  {
    match MovieIndex(db, movieId)
    case None => Err(Http(404, "Movie not found"))
    case Some(k) =>
      if Referenced(db, movieId) then Err(CatchAll(Occurred, Database(ForeignKeyViolation)))
      else Ok(db.(movies := db.movies[..k] + db.movies[k + 1..]))
  }

  /** A movie with a review cannot be deleted: the review's foreign key makes the commit fail with 500. */
  lemma ReviewBlocksDelete(db: Db, movieId: int, k: nat)
    requires FindMovie(db, movieId).Some?
    requires k < |db.reviews| && db.reviews[k].movieId == movieId
    ensures DeleteMovie(db, movieId).Err? && Status(DeleteMovie(db, movieId).error) == 500
    ensures DeleteMovie(db, movieId).error == CatchAll(Occurred, Database(ForeignKeyViolation))
  {
    assert Referenced(db, movieId);
  }

  /**
   * With unique ids, a deleted movie is gone, every other movie is still
   * there, and the ids stay unique.
   */
  lemma DeleteRemovesOnlyIt(db: Db, movieId: int)
    requires UniqueMovieIds(db)
    requires DeleteMovie(db, movieId).Ok?
    ensures var db' := DeleteMovie(db, movieId).value;
            && FindMovie(db', movieId).None?
            && UniqueMovieIds(db')
            && |db'.movies| == |db.movies| - 1
            && forall m :: m in db.movies && m.movieId != movieId ==> m in db'.movies
  {
    var k := MovieIndex(db, movieId).value;
    var rest := db.movies[..k] + db.movies[k + 1..];
    var db' := db.(movies := rest);
    assert DeleteMovie(db, movieId).value == db';
    RemoveAtKeepsUnique(db.movies, k);
    assert forall i :: 0 <= i < |db'.movies| ==> db'.movies[i].movieId != movieId;
  }

  /**
   * Removing position `k` of a list with unique ids keeps the ids unique,
   * keeps every other movie and drops every movie with the removed id.
   */
  lemma RemoveAtKeepsUnique(s: seq<Movie>, k: nat)
    requires k < |s|
    requires forall i, j :: 0 <= i < j < |s| ==> s[i].movieId != s[j].movieId
    ensures var r := s[..k] + s[k + 1..];
            && |r| == |s| - 1
            && (forall i, j :: 0 <= i < j < |r| ==> r[i].movieId != r[j].movieId)
            && (forall i :: 0 <= i < |r| ==> r[i].movieId != s[k].movieId)
            && (forall m :: m in s && m.movieId != s[k].movieId ==> m in r)
  {
    var r := s[..k] + s[k + 1..];
    RemoveAt(s, k);
    forall i, j | 0 <= i < j < |r| ensures r[i].movieId != r[j].movieId {
      assert r[i] == s[if i < k then i else i + 1];
      assert r[j] == s[if j < k then j else j + 1];
    }
    forall i | 0 <= i < |r| ensures r[i].movieId != s[k].movieId {
      assert r[i] == s[if i < k then i else i + 1];
    }
    forall m | m in s && m.movieId != s[k].movieId ensures m in r {
      var i :| 0 <= i < |s| && s[i] == m;
      assert r[if i < k then i else i - 1] == m;
    }
  }

  /** Removing position `k` shifts every later element down by one. */
  lemma RemoveAt(s: seq<Movie>, k: nat)
    requires k < |s|
    ensures var r := s[..k] + s[k + 1..];
            && |r| == |s| - 1
            && forall j :: 0 <= j < |r| ==> r[j] == s[if j < k then j else j + 1]
  {
  }

  /** Deleting does not touch the cache either: a cached movie is still served after it is gone. */
  lemma DeleteLeavesStaleCache(app: App, movieId: int, toDict: ToDict)
    requires DeleteMovie(app.db, movieId).Ok?
    requires app.cache.conn.Connected?
    requires MovieKey(movieId) in app.cache.store && Truthy(app.cache.store[MovieKey(movieId)].value)
    ensures var after := app.(db := DeleteMovie(app.db, movieId).value);
            GetMovie(after, movieId, toDict).out == Ok(FromCache(app.cache.store[MovieKey(movieId)].value))
  {
  }
}
