/**
 * The relational store: one datatype per table row, each table a sequence
 * of rows in the order an unordered `SELECT` returns them, plus the next
 * value of each serial id column.
 */
module Tables {
  import opened Optional
  import opened Seqs

  /** A `release_date`; the services only ever read its year. */
  datatype Date = Date(year: int, month: int, day: int)

  /** A 768-dimension text embedding; its values are never inspected here. */
  type Embedding = seq<real>

  datatype Movie = Movie(
    movieId: int,
    title: string,
    genre: Option<string>,         // legacy comma-separated genre names
    releaseDate: Option<Date>,
    embedding: Option<Embedding>,
    tmdbId: Option<int>,
    overview: Option<string>)

  datatype User = User(userId: int, name: string, email: string, password: string, role: string)

  /** One row per (user, movie): when it was last watched and how often. */
  datatype WatchRow = WatchRow(id: int, userId: int, movieId: int, watchedAt: int, watchCount: int)

  datatype Recommendation = Recommendation(userId: int, movieId: int, score: real)

  /** A user's review of a movie; `movie_id` is a non-null foreign key to the movie. */
  datatype Review = Review(reviewId: int, userId: int, movieId: int, text: string, sentiment: Option<real>)

  datatype Poster = Poster(posterId: int, movieId: int, imagePath: string)

  datatype Genre = Genre(id: int, name: string)

  datatype MovieGenre = MovieGenre(movieId: int, genreId: int)

  datatype Db = Db(
    users: seq<User>,
    movies: seq<Movie>,
    watch: seq<WatchRow>,
    recs: seq<Recommendation>,
    reviews: seq<Review>,
    posters: seq<Poster>,
    genres: seq<Genre>,
    movieGenres: seq<MovieGenre>,
    nextUserId: int,
    nextMovieId: int,
    nextWatchId: int,
    nextPosterId: int)

  // ------------------------------------------------------------------ lookups

  /** `db.get(User, user_id)`. */
  function FindUser(db: Db, userId: int): (r: Option<User>)
    ensures r.Some? <==> exists k :: 0 <= k < |db.users| && db.users[k].userId == userId
    ensures r.Some? ==> r.value in db.users && r.value.userId == userId
  {
    match IndexWhere(db.users, (u: User) => u.userId == userId)
    case Some(k) => Some(db.users[k])
    case None => None
  }

  /** Position of the first movie row with id `movieId`. */
  function MovieIndex(db: Db, movieId: int): (r: Option<nat>)
    ensures r.Some? ==> r.value < |db.movies| && db.movies[r.value].movieId == movieId
    ensures r.Some? ==> forall k :: 0 <= k < r.value ==> db.movies[k].movieId != movieId
    ensures r.None? <==> forall k :: 0 <= k < |db.movies| ==> db.movies[k].movieId != movieId
  {
    IndexWhere(db.movies, (m: Movie) => m.movieId == movieId)
  }

  /** `select(Movie).where(Movie.movie_id == movie_id)` followed by `.first()`. */
  function FindMovie(db: Db, movieId: int): (r: Option<Movie>)
    ensures r.Some? <==> exists k :: 0 <= k < |db.movies| && db.movies[k].movieId == movieId
    ensures r.Some? ==> r.value in db.movies && r.value.movieId == movieId
  {
    match MovieIndex(db, movieId)
    case Some(k) => Some(db.movies[k])
    case None => None
  }

  // --------------------------------------------------------------- invariants

  ghost predicate UniqueUserIds(db: Db) {
    forall i, j :: 0 <= i < j < |db.users| ==> db.users[i].userId != db.users[j].userId
  }

  /** The `unique=True` constraint on `users.email`. */
  ghost predicate UniqueEmails(db: Db) {
    forall i, j :: 0 <= i < j < |db.users| ==> db.users[i].email != db.users[j].email
  }

  ghost predicate UniqueMovieIds(db: Db) {
    forall i, j :: 0 <= i < j < |db.movies| ==> db.movies[i].movieId != db.movies[j].movieId
  }

  /** No two movies share an external (TMDb) id. */
  ghost predicate UniqueTmdbIds(db: Db) {
    forall i, j :: 0 <= i < j < |db.movies| && db.movies[i].tmdbId.Some? ==> db.movies[i].tmdbId != db.movies[j].tmdbId
  }

  /** The composite unique key on watch history: one row per (user, movie). */
  ghost predicate UniqueWatchPairs(db: Db) {
    forall i, j :: 0 <= i < j < |db.watch| ==>
      db.watch[i].userId != db.watch[j].userId || db.watch[i].movieId != db.watch[j].movieId
  }

  ghost predicate UniqueWatchIds(db: Db) {
    forall i, j :: 0 <= i < j < |db.watch| ==> db.watch[i].id != db.watch[j].id
  }

  /** Every serial sequence is ahead of every id already handed out. */
  ghost predicate SerialsAhead(db: Db) {
    && (forall k :: 0 <= k < |db.users| ==> db.users[k].userId < db.nextUserId)
    && (forall k :: 0 <= k < |db.movies| ==> db.movies[k].movieId < db.nextMovieId)
    && (forall k :: 0 <= k < |db.watch| ==> db.watch[k].id < db.nextWatchId)
    && (forall k :: 0 <= k < |db.posters| ==> db.posters[k].posterId < db.nextPosterId)
  }
}
