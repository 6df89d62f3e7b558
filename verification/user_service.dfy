/**
 * The user service: registration with a unique email, lookups by name and
 * by id, role changes restricted to a fixed set, the watch-history upsert
 * and the watch-history listing.
 *
 * Registration is modelled twice: as written, where awaiting the
 * synchronous hash raises TypeError, and as intended, with password
 * hashing a parameter (`Hasher`). The clock is the `now` parameter of the
 * upsert.
 */
module UserService {
  import opened Optional
  import opened Outcome
  import opened Tables
  import opened Seqs
  import Sorting

  /** The registration request. */
  datatype UserCreate = UserCreate(name: string, email: string, password: string)

  /** `hash_password`: a one-way function whose output is all the model needs. */
  type Hasher = string -> string

  /** The role a new user row starts with. */
  const DefaultRole: string := "regular"

  /** `valid_roles`. */
  const ValidRoles: seq<string> := ["regular", "admin"]

  // ------------------------------------------------------------- users

  predicate EmailTaken(db: Db, email: string) {
    exists k :: 0 <= k < |db.users| && db.users[k].email == email
  }

  /** What Python raises on `await` of a value that is not awaitable, such as a `str`. */
  const AwaitStrMessage: string := "object str can't be used in 'await' expression"

  /**
   * `create_user` as written: a registered email is rejected with 400.
   * For a free email the code awaits the `str` that the synchronous
   * `hash_password` returns. That raises TypeError before any row is added,
   * and nothing catches it, so the client gets a 500.
   */
  function CreateUser(db: Db, req: UserCreate): (r: Result<(Db, User)>)
    ensures r.Err?
    ensures EmailTaken(db, req.email) ==> r.error == Http(400, "Email already registered")
    ensures !EmailTaken(db, req.email) ==> r.error == TypeError(AwaitStrMessage) && Status(r.error) == 500
  {
    match IndexWhere(db.users, (x: User) => x.email == req.email)
    case Some(_) => Err(Http(400, "Email already registered"))
    case None => Err(TypeError(AwaitStrMessage))
  }

  /**
   * `create_user` as intended, with the hash called rather than awaited:
   * reject a registered email, else add one row with the hashed password.
   */
  function IntendedCreateUser(db: Db, req: UserCreate, hash: Hasher): (r: Result<(Db, User)>)
    ensures EmailTaken(db, req.email) ==> r == Err(Http(400, "Email already registered"))
    ensures r.Ok? <==> !EmailTaken(db, req.email)
    ensures r.Ok? ==>
      var (db', u) := r.value;
      && u == User(db.nextUserId, req.name, req.email, hash(req.password), DefaultRole)
      && db' == db.(users := db.users + [u], nextUserId := db.nextUserId + 1)
  {
    match IndexWhere(db.users, (x: User) => x.email == req.email)
    case Some(_) => Err(Http(400, "Email already registered"))
    case None =>
      var u := User(db.nextUserId, req.name, req.email, hash(req.password), DefaultRole);
      Ok((db.(users := db.users + [u], nextUserId := db.nextUserId + 1), u))
  }

  /**
   * The two registrations agree on a registered email. Exactly where the
   * intended one adds a user, the code as written fails with TypeError, so
   * no registration ever succeeds.
   */
  lemma RegistrationNeverSucceeds(db: Db, req: UserCreate, hash: Hasher)
    ensures CreateUser(db, req).Err?
    ensures IntendedCreateUser(db, req, hash).Err? ==> CreateUser(db, req) == IntendedCreateUser(db, req, hash)
    ensures IntendedCreateUser(db, req, hash).Ok? <==> CreateUser(db, req).error.TypeError?
  {
  }

  /** A successful registration keeps emails unique, user ids unique and the serials ahead. */
  lemma CreateUserKeepsInvariants(db: Db, req: UserCreate, hash: Hasher)
    requires UniqueEmails(db) && UniqueUserIds(db) && SerialsAhead(db)
    requires IntendedCreateUser(db, req, hash).Ok?
    ensures var db' := IntendedCreateUser(db, req, hash).value.0;
            UniqueEmails(db') && UniqueUserIds(db') && SerialsAhead(db')
  {
    var (db', u) := IntendedCreateUser(db, req, hash).value;
    forall i, j | 0 <= i < j < |db'.users|
      ensures db'.users[i].email != db'.users[j].email
      ensures db'.users[i].userId != db'.users[j].userId
    {
      if j == |db.users| {
        assert db'.users[i] == db.users[i];
        assert db.users[i].userId < db.nextUserId;
      }
    }
  }

  /** After registering, the new user can be fetched by id and by name. */
  lemma CreateThenGet(db: Db, req: UserCreate, hash: Hasher)
    requires SerialsAhead(db)
    requires IntendedCreateUser(db, req, hash).Ok?
    requires forall k :: 0 <= k < |db.users| ==> db.users[k].name != req.name
    ensures var (db', u) := IntendedCreateUser(db, req, hash).value;
            GetUser(db', u.userId) == Ok(u) && GetMe(db', req.name) == Ok(u)
  {
    var (db', u) := IntendedCreateUser(db, req, hash).value;
    assert db'.users[|db.users|] == u;
    assert forall k :: 0 <= k < |db.users| ==> db'.users[k].userId != u.userId;
  }

  /** `get_me`: the first user with this name, or 404. */
  function GetMe(db: Db, name: string): (r: Result<User>)
    ensures r.Err? <==> forall k :: 0 <= k < |db.users| ==> db.users[k].name != name
    ensures r.Err? ==> r.error == Http(404, "User not found")
    ensures r.Ok? ==> exists k :: 0 <= k < |db.users| && db.users[k] == r.value
                        && r.value.name == name
                        && forall j :: 0 <= j < k ==> db.users[j].name != name
  {
    match IndexWhere(db.users, (x: User) => x.name == name)
    case Some(k) => Ok(db.users[k])
    case None => Err(Http(404, "User not found"))
  }

  /** `get_user`: the first user with this id, or 400 (not 404). */
  function GetUser(db: Db, userId: int): (r: Result<User>)
    ensures r.Err? <==> forall k :: 0 <= k < |db.users| ==> db.users[k].userId != userId
    ensures r.Err? ==> r.error == Http(400, "User not found")
    ensures r.Ok? ==> exists k :: 0 <= k < |db.users| && db.users[k] == r.value
                        && r.value.userId == userId
                        && forall j :: 0 <= j < k ==> db.users[j].userId != userId
  {
    match IndexWhere(db.users, (x: User) => x.userId == userId)
    case Some(k) => Ok(db.users[k])
    case None => Err(Http(400, "User not found"))
  }

  /** `UPDATE users SET role = ... WHERE user_id = ...`. */
  function SetRole(users: seq<User>, userId: int, role: string): (r: seq<User>)
    ensures |r| == |users|
    ensures forall k :: 0 <= k < |r| ==>
      r[k] == if users[k].userId == userId then users[k].(role := role) else users[k]
  {
    seq(|users|, k requires 0 <= k < |users| =>
      if users[k].userId == userId then users[k].(role := role) else users[k])
  }

  /**
   * `update_user_role`: an unknown role is rejected before the user is looked
   * up; then a missing user is 404; otherwise only the role column of that
   * user changes and the refreshed row is returned.
   */
  function UpdateUserRole(db: Db, userId: int, role: string): (r: Result<(Db, User)>)
    ensures role !in ValidRoles ==> r == Err(Http(400, "Invalid role"))
    ensures role in ValidRoles && GetUser(db, userId).Err? ==> r == Err(Http(404, "User not found"))
    ensures r.Ok? <==> role in ValidRoles && GetUser(db, userId).Ok?
    ensures r.Ok? ==>
      var (db', u) := r.value;
      && db' == db.(users := db'.users)
      && |db'.users| == |db.users|
      && (forall k :: 0 <= k < |db.users| && db.users[k].userId != userId ==> db'.users[k] == db.users[k])
      && (forall k :: 0 <= k < |db.users| && db.users[k].userId == userId ==> db'.users[k] == db.users[k].(role := role))
      && u == GetUser(db, userId).value.(role := role)
  {
    if role !in ValidRoles then Err(Http(400, "Invalid role"))
    else
      match IndexWhere(db.users, (x: User) => x.userId == userId)
      case None => Err(Http(404, "User not found"))
      case Some(k) =>
        var db' := db.(users := SetRole(db.users, userId, role));
        Ok((db', db'.users[k]))
  }

  /** Reading the user back after a role change gives the new role and nothing else changed. */
  lemma UpdateRoleThenGet(db: Db, userId: int, role: string)
    requires UpdateUserRole(db, userId, role).Ok?
    ensures var (db', u) := UpdateUserRole(db, userId, role).value;
            && GetUser(db', userId) == Ok(u)
            && u.role == role
            && u == GetUser(db, userId).value.(role := role)
  {
    var (db', u) := UpdateUserRole(db, userId, role).value;
    var p := (x: User) => x.userId == userId;
    IndexWherePointwise(db.users, db'.users, p);
    var k := IndexWhere(db.users, p).value;
    assert GetUser(db, userId).value == db.users[k];
    assert db'.users[k] == u;
  }

  /** Setting the same role twice is the same as setting it once. */
  lemma UpdateRoleIdempotent(db: Db, userId: int, role: string)
    requires UpdateUserRole(db, userId, role).Ok?
    ensures var once := UpdateUserRole(db, userId, role).value;
            UpdateUserRole(once.0, userId, role) == Ok(once)
  {
    var (db', u) := UpdateUserRole(db, userId, role).value;
    UpdateRoleThenGet(db, userId, role);
    var (db'', u') := UpdateUserRole(db', userId, role).value;
    assert db''.users == db'.users;
  }

  // ------------------------------------------------------ watch history

  /** Position of the (user, movie) watch row, if there is one. */
  function WatchIndex(db: Db, userId: int, movieId: int): (r: Option<nat>)
    ensures r.Some? ==> r.value < |db.watch| && db.watch[r.value].userId == userId && db.watch[r.value].movieId == movieId
    ensures r.None? <==> forall k :: 0 <= k < |db.watch| ==> db.watch[k].userId != userId || db.watch[k].movieId != movieId
  {
    IndexWhere(db.watch, (w: WatchRow) => w.userId == userId && w.movieId == movieId)
  }

  /** How many times `userId` has watched `movieId` according to the table. */
  function WatchCount(db: Db, userId: int, movieId: int): int {
    match WatchIndex(db, userId, movieId)
    case Some(k) => db.watch[k].watchCount
    case None => 0
  }

  /**
   * `add_to_watch_history`: an insert with count 1, or on a (user, movie)
   * conflict an increment of the count and a fresh timestamp. The row's
   * id default is drawn from the serial before the conflict is detected,
   * so both paths use up one id. The insert fails with an integrity error,
   * rolled back and reported as 500, when the user or the movie row does
   * not exist.
   */
  function AddToWatchHistory(db: Db, userId: int, movieId: int, now: int): (r: Result<Db>)
    ensures r.Err? <==> FindUser(db, userId).None? || FindMovie(db, movieId).None?
    ensures r.Err? ==> r.error == Http(500, "Failed to add watch history")
    ensures r.Ok? ==> r.value == db.(watch := r.value.watch, nextWatchId := r.value.nextWatchId)
    ensures r.Ok? ==> r.value.nextWatchId == db.nextWatchId + 1
    ensures r.Ok? && WatchIndex(db, userId, movieId).None? ==>
              r.value.watch == db.watch + [WatchRow(db.nextWatchId, userId, movieId, now, 1)]
    ensures r.Ok? && WatchIndex(db, userId, movieId).Some? ==>
              var k := WatchIndex(db, userId, movieId).value;
              r.value.watch == db.watch[k := db.watch[k].(watchCount := db.watch[k].watchCount + 1, watchedAt := now)]
  {
    if FindUser(db, userId).None? || FindMovie(db, movieId).None? then
      Err(Http(500, "Failed to add watch history"))
    else
      match WatchIndex(db, userId, movieId)
      case Some(k) =>
        var w := db.watch[k];
        Ok(db.(watch := db.watch[k := w.(watchCount := w.watchCount + 1, watchedAt := now)],
               nextWatchId := db.nextWatchId + 1))
      case None =>
        Ok(db.(watch := db.watch + [WatchRow(db.nextWatchId, userId, movieId, now, 1)],
               nextWatchId := db.nextWatchId + 1))
  }

  /**
   * One upsert adds exactly one to the (user, movie) count, stamps it with
   * `now`, keeps one row per pair, and leaves every other pair's count as
   * it was.
   */
  lemma AddIncrementsCount(db: Db, userId: int, movieId: int, now: int, u2: int, m2: int)
    requires UniqueWatchPairs(db) && UniqueWatchIds(db) && SerialsAhead(db)
    requires AddToWatchHistory(db, userId, movieId, now).Ok?
    ensures var db' := AddToWatchHistory(db, userId, movieId, now).value;
            && UniqueWatchPairs(db') && UniqueWatchIds(db') && SerialsAhead(db')
            && WatchCount(db', userId, movieId) == WatchCount(db, userId, movieId) + 1
            && WatchIndex(db', userId, movieId).Some?
            && db'.watch[WatchIndex(db', userId, movieId).value].watchedAt == now
            && ((u2, m2) != (userId, movieId) ==> WatchCount(db', u2, m2) == WatchCount(db, u2, m2))
  {
    if WatchIndex(db, userId, movieId).Some? {
      AddBumped(db, userId, movieId, now, u2, m2);
    } else {
      AddAppended(db, userId, movieId, now, u2, m2);
    }
  }

  /** The upsert's conflict branch, in the terms of the upsert's own contract. */
  lemma AddBumped(db: Db, userId: int, movieId: int, now: int, u2: int, m2: int)
    requires UniqueWatchPairs(db) && UniqueWatchIds(db) && SerialsAhead(db)
    requires AddToWatchHistory(db, userId, movieId, now).Ok? && WatchIndex(db, userId, movieId).Some?
    ensures var db' := AddToWatchHistory(db, userId, movieId, now).value;
            && UniqueWatchPairs(db') && UniqueWatchIds(db') && SerialsAhead(db')
            && WatchIndex(db', userId, movieId) == WatchIndex(db, userId, movieId)
            && WatchCount(db', userId, movieId) == WatchCount(db, userId, movieId) + 1
            && db'.watch[WatchIndex(db', userId, movieId).value].watchedAt == now
            && WatchCount(db', u2, m2) == WatchCount(db, u2, m2) + (if (u2, m2) == (userId, movieId) then 1 else 0)
  {
    var db' := AddToWatchHistory(db, userId, movieId, now).value;
    var k := WatchIndex(db, userId, movieId).value;
    BumpKeepsInvariants(db, k, now, db', u2, m2);
    BumpKeepsInvariants(db, k, now, db', userId, movieId);
    if WatchIndex(db, u2, m2) == Some(k) {
      assert (u2, m2) == (userId, movieId);
    }
  }

  /** The upsert's insert branch, in the terms of the upsert's own contract. */
  lemma AddAppended(db: Db, userId: int, movieId: int, now: int, u2: int, m2: int)
    requires UniqueWatchPairs(db) && UniqueWatchIds(db) && SerialsAhead(db)
    requires AddToWatchHistory(db, userId, movieId, now).Ok? && WatchIndex(db, userId, movieId).None?
    ensures var db' := AddToWatchHistory(db, userId, movieId, now).value;
            && UniqueWatchPairs(db') && UniqueWatchIds(db') && SerialsAhead(db')
            && WatchIndex(db', userId, movieId) == Some(|db.watch|)
            && WatchCount(db', userId, movieId) == 1
            && db'.watch[|db.watch|].watchedAt == now
            && ((u2, m2) != (userId, movieId) ==> WatchCount(db', u2, m2) == WatchCount(db, u2, m2))
  {
    var db' := AddToWatchHistory(db, userId, movieId, now).value;
    AppendKeepsInvariants(db, userId, movieId, now, db', u2, m2);
  }

  /**
   * The conflict branch: bumping row `k` keeps the invariants and every
   * pair's position, adds one to that row's count alone and stamps it.
   */
  lemma BumpKeepsInvariants(db: Db, k: nat, now: int, db': Db, u2: int, m2: int)
    requires UniqueWatchPairs(db) && UniqueWatchIds(db) && SerialsAhead(db)
    requires k < |db.watch|
    requires db' == db.(watch := db.watch[k := db.watch[k].(watchCount := db.watch[k].watchCount + 1, watchedAt := now)],
                        nextWatchId := db.nextWatchId + 1)
    ensures UniqueWatchPairs(db') && UniqueWatchIds(db') && SerialsAhead(db')
    ensures WatchIndex(db', u2, m2) == WatchIndex(db, u2, m2)
    ensures WatchCount(db', u2, m2) == WatchCount(db, u2, m2) + (if WatchIndex(db, u2, m2) == Some(k) then 1 else 0)
    ensures db'.watch[k].watchedAt == now
  {
    var w := db.watch[k];
    var w' := w.(watchCount := w.watchCount + 1, watchedAt := now);
    assert db'.watch == db.watch[k := w'];
    assert w'.userId == w.userId && w'.movieId == w.movieId && w'.id == w.id;
    KeyFieldsKeepInvariants(db, db', u2, m2);
  }

  /**
   * Rewriting watch rows without touching their ids or pairs, and moving
   * the watch serial forward, keeps the invariants and every lookup.
   */
  lemma KeyFieldsKeepInvariants(db: Db, db': Db, u2: int, m2: int)
    requires UniqueWatchPairs(db) && UniqueWatchIds(db) && SerialsAhead(db)
    requires db' == db.(watch := db'.watch, nextWatchId := db'.nextWatchId) && |db'.watch| == |db.watch|
    requires db.nextWatchId <= db'.nextWatchId
    requires forall k :: 0 <= k < |db.watch| ==>
      db'.watch[k].userId == db.watch[k].userId && db'.watch[k].movieId == db.watch[k].movieId
      && db'.watch[k].id == db.watch[k].id
    ensures UniqueWatchPairs(db') && UniqueWatchIds(db') && SerialsAhead(db')
    ensures WatchIndex(db', u2, m2) == WatchIndex(db, u2, m2)
  {
    forall i, j | 0 <= i < j < |db'.watch|
      ensures db'.watch[i].userId != db'.watch[j].userId || db'.watch[i].movieId != db'.watch[j].movieId
      ensures db'.watch[i].id != db'.watch[j].id
    {
      assert db.watch[i].userId != db.watch[j].userId || db.watch[i].movieId != db.watch[j].movieId;
    }
    SamePairsSameIndex(db, db', u2, m2);
  }

  /** The insert branch: appending a fresh row keeps the invariants and every other pair's count. */
  lemma AppendKeepsInvariants(db: Db, userId: int, movieId: int, now: int, db': Db, u2: int, m2: int)
    requires UniqueWatchPairs(db) && UniqueWatchIds(db) && SerialsAhead(db)
    requires WatchIndex(db, userId, movieId).None?
    requires db' == db.(watch := db.watch + [WatchRow(db.nextWatchId, userId, movieId, now, 1)],
                        nextWatchId := db.nextWatchId + 1)
    ensures UniqueWatchPairs(db') && UniqueWatchIds(db') && SerialsAhead(db')
    ensures WatchIndex(db', userId, movieId) == Some(|db.watch|)
    ensures (u2, m2) != (userId, movieId) ==> WatchCount(db', u2, m2) == WatchCount(db, u2, m2)
  {
    var w := WatchRow(db.nextWatchId, userId, movieId, now, 1);
    forall i, j | 0 <= i < j < |db'.watch|
      ensures db'.watch[i].userId != db'.watch[j].userId || db'.watch[i].movieId != db'.watch[j].movieId
      ensures db'.watch[i].id != db'.watch[j].id
    {
      if j == |db.watch| {
        assert db.watch[i].id < db.nextWatchId;
      }
    }
    assert db'.watch[|db.watch|] == w;
    if (u2, m2) != (userId, movieId) {
      assert forall k :: 0 <= k < |db.watch| ==> db'.watch[k] == db.watch[k];
      AppendedOtherPair(db, db', u2, m2);
    }
  }

  /** Rewriting rows in place without changing their pairs keeps every pair's position. */
  lemma SamePairsSameIndex(db: Db, db': Db, u2: int, m2: int)
    requires |db'.watch| == |db.watch|
    requires forall k :: 0 <= k < |db.watch| ==>
      db'.watch[k].userId == db.watch[k].userId && db'.watch[k].movieId == db.watch[k].movieId
    ensures WatchIndex(db', u2, m2) == WatchIndex(db, u2, m2)
  {
    var p := (w: WatchRow) => w.userId == u2 && w.movieId == m2;
    IndexWherePointwise(db.watch, db'.watch, p);
  }

  /** Appending a row of another pair leaves the lookup of (u2, m2) as it was. */
  lemma AppendedOtherPair(db: Db, db': Db, u2: int, m2: int)
    requires |db'.watch| == |db.watch| + 1
    requires forall k :: 0 <= k < |db.watch| ==> db'.watch[k] == db.watch[k]
    requires db'.watch[|db.watch|].userId != u2 || db'.watch[|db.watch|].movieId != m2
    ensures WatchIndex(db', u2, m2) == WatchIndex(db, u2, m2)
    ensures WatchCount(db', u2, m2) == WatchCount(db, u2, m2)
  {
    var p := (w: WatchRow) => w.userId == u2 && w.movieId == m2;
    IndexWhereAppend(db.watch, db'.watch, p);
  }

  /**
   * Watching a movie twice leaves a count of 2, the second timestamp, and a
   * single row for the pair.
   */
  lemma WatchTwice(db: Db, userId: int, movieId: int, t1: int, t2: int)
    requires UniqueWatchPairs(db) && UniqueWatchIds(db) && SerialsAhead(db)
    requires FindUser(db, userId).Some? && FindMovie(db, movieId).Some?
    requires WatchIndex(db, userId, movieId).None?
    ensures AddToWatchHistory(db, userId, movieId, t1).Ok?
    ensures var db1 := AddToWatchHistory(db, userId, movieId, t1).value;
            && AddToWatchHistory(db1, userId, movieId, t2).Ok?
            && var db2 := AddToWatchHistory(db1, userId, movieId, t2).value;
               && WatchCount(db2, userId, movieId) == 2
               && db2.watch[WatchIndex(db2, userId, movieId).value].watchedAt == t2
               && |db2.watch| == |db.watch| + 1
               && UniqueWatchPairs(db2)
  {
    AddIncrementsCount(db, userId, movieId, t1, userId, movieId);
    var db1 := AddToWatchHistory(db, userId, movieId, t1).value;
    AddIncrementsCount(db1, userId, movieId, t2, userId, movieId);
  }

  /** One joined row of the history query. */
  datatype HistRow = HistRow(id: int, watchedAt: int, watchCount: int, movieId: int, title: string, posterUrl: Option<string>)

  /** One entry of the listing: `{"watched_at", "watch_count", "movie": {...}}`. */
  datatype HistoryItem = HistoryItem(watchedAt: int, watchCount: int, movieId: int, title: string, posterUrl: Option<string>)

  /** The rows one watch row contributes: one per poster of its movie, or one with no poster. */
  function WatchJoin(db: Db, w: WatchRow): (rows: seq<HistRow>)
    ensures forall k :: 0 <= k < |rows| ==>
              rows[k].id == w.id && rows[k].watchedAt == w.watchedAt
              && rows[k].watchCount == w.watchCount && rows[k].movieId == w.movieId
    ensures (exists m :: m in db.movies && m.movieId == w.movieId) ==> |rows| > 0
  {
    var ms := Filter(db.movies, (m: Movie) => m.movieId == w.movieId);
    assert (exists m :: m in db.movies && m.movieId == w.movieId) ==> |ms| > 0 by {
      if m :| m in db.movies && m.movieId == w.movieId {
        assert multiset(ms)[m] == multiset(db.movies)[m];
      }
    }
    var ps := Filter(db.posters, (p: Poster) => p.movieId == w.movieId);
    var groups := seq(|ms|, i requires 0 <= i < |ms| => MoviePosters(w, ms[i], ps));
    var rows := Flatten(groups);
    assert |ms| > 0 ==> |groups[0]| > 0;
    forall k | 0 <= k < |rows|
      ensures rows[k].id == w.id && rows[k].watchedAt == w.watchedAt
              && rows[k].watchCount == w.watchCount && rows[k].movieId == w.movieId
    {
      assert rows[k] in rows;
      var i :| 0 <= i < |groups| && rows[k] in groups[i];
      assert ms[i].movieId == w.movieId;
    }
    rows
  }

  /** The rows of one (watch, movie) pair: one per poster, or one with no poster. */
  function MoviePosters(w: WatchRow, m: Movie, ps: seq<Poster>): (rows: seq<HistRow>)
    ensures |rows| > 0
    ensures forall k :: 0 <= k < |rows| ==>
              rows[k] == HistRow(w.id, w.watchedAt, w.watchCount, m.movieId, m.title, rows[k].posterUrl)
  {
    if |ps| == 0 then [HistRow(w.id, w.watchedAt, w.watchCount, m.movieId, m.title, None)]
    else seq(|ps|, j requires 0 <= j < |ps| => HistRow(w.id, w.watchedAt, w.watchCount, m.movieId, m.title, Some(ps[j].imagePath)))
  }

  /** Concatenation of a sequence of sequences. */
  function Flatten<T(!new)>(xss: seq<seq<T>>): (r: seq<T>)
    ensures forall x :: x in r <==> exists i :: 0 <= i < |xss| && x in xss[i]
    ensures (exists i :: 0 <= i < |xss| && |xss[i]| > 0) ==> |r| > 0
  {
    if |xss| == 0 then [] else xss[0] + Flatten(xss[1..])
  }

  /**
   * The query: this user's watch rows joined with their movie and outer
   * joined with its posters, in table order.
   */
  function JoinHistory(db: Db, ws: seq<WatchRow>, userId: int): (rows: seq<HistRow>)
    ensures forall x :: x in rows ==> exists w :: w in ws && w.userId == userId && x.id == w.id
                                         && x.watchedAt == w.watchedAt && x.watchCount == w.watchCount
                                         && x.movieId == w.movieId
  {
    if |ws| == 0 then []
    else
      (if ws[0].userId == userId then WatchJoin(db, ws[0]) else []) + JoinHistory(db, ws[1..], userId)
  }

  /** A watch row of this user whose movie exists shows up in the query. */
  lemma {:induction false} JoinHistoryComplete(db: Db, ws: seq<WatchRow>, userId: int, w: WatchRow)
    requires w in ws && w.userId == userId
    requires exists m :: m in db.movies && m.movieId == w.movieId
    ensures exists x :: x in JoinHistory(db, ws, userId) && x.id == w.id
  {
    if ws[0] == w {
      var x := WatchJoin(db, w)[0];
      assert x in JoinHistory(db, ws, userId);
    } else {
      JoinHistoryComplete(db, ws[1..], userId, w);
      var x :| x in JoinHistory(db, ws[1..], userId) && x.id == w.id;
      assert x in JoinHistory(db, ws, userId);
    }
  }

  function ByWatchedAt(x: HistRow): real {
    x.watchedAt as real
  }

  /** The history ids occurring in `rows`. */
  function IdsOf(rows: seq<HistRow>): set<int> {
    set k | 0 <= k < |rows| :: rows[k].id
  }

  /**
   * The loop over the result rows: a row whose history id was already
   * emitted is skipped, so each id appears once, at its first occurrence.
   */
  function Dedupe(rows: seq<HistRow>, seen: set<int>): (r: seq<HistRow>)
    ensures forall k :: 0 <= k < |r| ==> r[k] in rows && r[k].id !in seen
  {
    if |rows| == 0 then []
    else if rows[0].id in seen then Dedupe(rows[1..], seen)
    else
      var rest := Dedupe(rows[1..], seen + {rows[0].id});
      assert forall k :: 0 <= k < |rest| ==> rest[k] in rows[1..];
      [rows[0]] + rest
  }

  predicate DistinctIds(rows: seq<HistRow>) {
    forall i, j :: 0 <= i < j < |rows| ==> rows[i].id != rows[j].id
  }

  /** No history id is emitted twice. */
  lemma {:induction false} DedupeDistinct(rows: seq<HistRow>, seen: set<int>)
    ensures DistinctIds(Dedupe(rows, seen))
  {
    if |rows| > 0 {
      var r := Dedupe(rows, seen);
      if rows[0].id in seen {
        DedupeDistinct(rows[1..], seen);
        assert r == Dedupe(rows[1..], seen);
      } else {
        DedupeDistinct(rows[1..], seen + {rows[0].id});
        var rest := Dedupe(rows[1..], seen + {rows[0].id});
        assert r == [rows[0]] + rest;
        forall i, j | 0 <= i < j < |r| ensures r[i].id != r[j].id {
          assert r[j] == rest[j - 1];
          assert rest[j - 1].id !in seen + {rows[0].id};
          if i > 0 {
            assert r[i] == rest[i - 1];
            assert rest[i - 1].id != rest[j - 1].id;
          } else {
            assert r[i] == rows[0];
          }
        }
      }
    }
  }

  /** Every id of the input is emitted unless it was already seen. */
  lemma {:induction false} DedupeComplete(rows: seq<HistRow>, seen: set<int>)
    ensures IdsOf(rows) <= seen + IdsOf(Dedupe(rows, seen))
  {
    if |rows| > 0 {
      var seen' := if rows[0].id in seen then seen else seen + {rows[0].id};
      DedupeComplete(rows[1..], seen');
      IdsOfCons(rows);
      if rows[0].id !in seen {
        var r := Dedupe(rows, seen);
        assert r == [rows[0]] + Dedupe(rows[1..], seen');
        IdsOfCons(r);
        assert r[1..] == Dedupe(rows[1..], seen');
      }
    }
  }

  /** The ids of a non-empty list are the head's id and the tail's ids. */
  lemma IdsOfCons(rows: seq<HistRow>)
    requires |rows| > 0
    ensures IdsOf(rows) == {rows[0].id} + IdsOf(rows[1..])
  {
    forall x | x in IdsOf(rows) ensures x in {rows[0].id} + IdsOf(rows[1..]) {
      var k :| 0 <= k < |rows| && rows[k].id == x;
      if k > 0 { assert rows[1..][k - 1].id == x; }
    }
    forall x | x in IdsOf(rows[1..]) ensures x in IdsOf(rows) {
      var k :| 0 <= k < |rows[1..]| && rows[1..][k].id == x;
      assert rows[k + 1].id == x;
    }
  }

  /** No row before position `i` carries the id of row `i`. */
  predicate FirstOccurrence(rows: seq<HistRow>, i: nat)
    requires i < |rows|
  {
    forall j :: 0 <= j < i ==> rows[j].id != rows[i].id
  }

  /** Where the k-th kept row comes from: the first row carrying its id. */
  function DedupeSource(rows: seq<HistRow>, seen: set<int>, k: nat): (i: nat)
    requires k < |Dedupe(rows, seen)|
    ensures i < |rows| && rows[i] == Dedupe(rows, seen)[k]
    ensures FirstOccurrence(rows, i)
  {
    if rows[0].id in seen then
      assert Dedupe(rows, seen) == Dedupe(rows[1..], seen);
      var i := DedupeSource(rows[1..], seen, k);
      FirstOccurrenceShift(rows, i);
      i + 1
    else
      DedupeKeepsHead(rows, seen, k);
      if k == 0 then 0
      else
        var i := DedupeSource(rows[1..], seen + {rows[0].id}, k - 1);
        FirstOccurrenceShift(rows, i);
        i + 1
  }

  /** A head whose id is unseen is kept first, and the tail's run follows it. */
  lemma DedupeKeepsHead(rows: seq<HistRow>, seen: set<int>, k: nat)
    requires 0 < |rows| && rows[0].id !in seen && k < |Dedupe(rows, seen)|
    ensures k == 0 ==> Dedupe(rows, seen)[0] == rows[0]
    ensures 0 < k ==> k - 1 < |Dedupe(rows[1..], seen + {rows[0].id})|
                      && Dedupe(rows, seen)[k] == Dedupe(rows[1..], seen + {rows[0].id})[k - 1]
  {
    var rest := Dedupe(rows[1..], seen + {rows[0].id});
    Seqs.ConsAt(rows[0], rest, Dedupe(rows, seen), k);
  }

  /** A first occurrence in the tail whose id differs from the head's is a first occurrence in the whole. */
  lemma FirstOccurrenceShift(rows: seq<HistRow>, i: nat)
    requires 0 < |rows| && i < |rows| - 1
    requires FirstOccurrence(rows[1..], i) && rows[0].id != rows[i + 1].id
    ensures FirstOccurrence(rows, i + 1) && rows[i + 1] == rows[1..][i]
  {
    forall j | 0 < j < i + 1 ensures rows[j].id != rows[i + 1].id {
      assert rows[j] == rows[1..][j - 1];
    }
  }

  /** Skipping rows keeps their relative order, so a sorted input stays sorted. */
  lemma {:induction false} DedupeKeepsOrder(rows: seq<HistRow>, seen: set<int>)
    requires Sorting.SortedDesc(rows, ByWatchedAt)
    ensures Sorting.SortedDesc(Dedupe(rows, seen), ByWatchedAt)
  {
    if |rows| > 0 {
      var seen' := if rows[0].id in seen then seen else seen + {rows[0].id};
      DedupeKeepsOrder(rows[1..], seen');
      var rest := Dedupe(rows[1..], seen');
      forall k | 0 <= k < |rest| ensures ByWatchedAt(rows[0]) >= ByWatchedAt(rest[k]) {
        var i :| 0 <= i < |rows[1..]| && rows[1..][i] == rest[k];
        assert rows[i + 1] == rest[k];
      }
    }
  }

  /** The loop of `get_watch_history` as written, with its `seen` set. */
  method CollectHistory(rows: seq<HistRow>) returns (history: seq<HistRow>)
    ensures history == Dedupe(rows, {})
  {
    history := [];
    var seen: set<int> := {};
    var i := 0;
    while i < |rows|
      invariant 0 <= i <= |rows|
      invariant history + Dedupe(rows[i..], seen) == Dedupe(rows, {})
    {
      var row := rows[i];
      assert rows[i..][1..] == rows[i + 1..];
      if row.id !in seen {
        history := history + [row];
        seen := seen + {row.id};
      }
      i := i + 1;
    }
    assert rows[i..] == [];
  }

  function ToItem(x: HistRow): HistoryItem {
    HistoryItem(x.watchedAt, x.watchCount, x.movieId, x.title, x.posterUrl)
  }

  /** The query result ordered by `watched_at DESC`. */
  function SortedHistory(db: Db, userId: int): seq<HistRow> {
    Sorting.SortDesc(JoinHistory(db, db.watch, userId), ByWatchedAt)
  }

  /** The ordered result de-duplicated by history id. */
  function HistoryRows(db: Db, userId: int): seq<HistRow> {
    Dedupe(SortedHistory(db, userId), {})
  }

  /**
   * `get_watch_history`: an empty result raises 404 inside the `try`, which
   * the catch-all turns into a 500 whose detail carries the 404's text.
   */
  function GetWatchHistory(db: Db, userId: int): (r: Result<seq<HistoryItem>>)
    ensures r.Err? <==> |JoinHistory(db, db.watch, userId)| == 0
    ensures r.Err? ==> r.error == Http(500, "Error fetching watch history: " + "404: " + "Watch history not found")
    ensures r.Ok? ==> |r.value| == |HistoryRows(db, userId)|
    ensures r.Ok? ==> forall k :: 0 <= k < |r.value| ==> r.value[k] == ToItem(HistoryRows(db, userId)[k])
  {
    if |JoinHistory(db, db.watch, userId)| == 0 then
      DescribeNotFound("Watch history not found");
      Err(CatchAll("Error fetching watch history: ", Http(404, "Watch history not found")))
    else
      var kept := HistoryRows(db, userId);
      Ok(seq(|kept|, k requires 0 <= k < |kept| => ToItem(kept[k])))
  }

  /** Each de-duplicated row is one of the query's rows. */
  lemma HistoryRowsFromQuery(db: Db, userId: int, k: nat)
    requires k < |HistoryRows(db, userId)|
    ensures HistoryRows(db, userId)[k] in JoinHistory(db, db.watch, userId)
  {
    var x := HistoryRows(db, userId)[k];
    assert x in SortedHistory(db, userId);
    assert x in multiset(SortedHistory(db, userId));
  }

  /** A non-empty query result gives a non-empty listing. */
  lemma HistoryNonEmpty(db: Db, userId: int)
    requires |JoinHistory(db, db.watch, userId)| > 0
    ensures |HistoryRows(db, userId)| > 0
  {
    var sorted := SortedHistory(db, userId);
    assert |multiset(sorted)| == |multiset(JoinHistory(db, db.watch, userId))|;
    DedupeComplete(sorted, {});
    assert sorted[0].id in IdsOf(sorted);
  }

  /**
   * The listing: only this user's watch rows, most recent first, each
   * history id once and at its first occurrence in the ordered result;
   * it is empty only when the query found nothing.
   */
  lemma WatchHistoryProperties(db: Db, userId: int)
    ensures var h := HistoryRows(db, userId);
            && (forall k :: 0 <= k < |h| ==> exists w :: w in db.watch && w.userId == userId && w.id == h[k].id
                                                    && w.watchedAt == h[k].watchedAt && w.watchCount == h[k].watchCount
                                                    && w.movieId == h[k].movieId)
            && (forall i, j :: 0 <= i < j < |h| ==> h[i].watchedAt >= h[j].watchedAt)
            && DistinctIds(h)
            && (|h| > 0 <==> |JoinHistory(db, db.watch, userId)| > 0)
  {
    HistoryProvenance(db, userId);
    HistoryOrdered(db, userId);
    DedupeDistinct(SortedHistory(db, userId), {});
    HistoryEmptiness(db, userId);
  }

  lemma HistoryProvenance(db: Db, userId: int)
    ensures var h := HistoryRows(db, userId);
            forall k :: 0 <= k < |h| ==> exists w :: w in db.watch && w.userId == userId && w.id == h[k].id
                                                && w.watchedAt == h[k].watchedAt && w.watchCount == h[k].watchCount
                                                && w.movieId == h[k].movieId
  {
    var h := HistoryRows(db, userId);
    forall k | 0 <= k < |h|
      ensures exists w :: w in db.watch && w.userId == userId && w.id == h[k].id
                          && w.watchedAt == h[k].watchedAt && w.watchCount == h[k].watchCount
                          && w.movieId == h[k].movieId
    {
      HistoryRowsFromQuery(db, userId, k);
    }
  }

  lemma HistoryOrdered(db: Db, userId: int)
    ensures var h := HistoryRows(db, userId);
            forall i, j :: 0 <= i < j < |h| ==> h[i].watchedAt >= h[j].watchedAt
  {
    var h := HistoryRows(db, userId);
    DedupeKeepsOrder(SortedHistory(db, userId), {});
    forall i, j | 0 <= i < j < |h| ensures h[i].watchedAt >= h[j].watchedAt {
      assert ByWatchedAt(h[i]) >= ByWatchedAt(h[j]);
    }
  }

  lemma HistoryEmptiness(db: Db, userId: int)
    ensures |HistoryRows(db, userId)| > 0 <==> |JoinHistory(db, db.watch, userId)| > 0
  {
    if |JoinHistory(db, db.watch, userId)| > 0 {
      HistoryNonEmpty(db, userId);
    } else {
      var sorted := SortedHistory(db, userId);
      assert |sorted| == 0 by {
        assert |multiset(sorted)| == 0;
      }
    }
  }

  /** Every watch row of this user whose movie exists is listed under its id. */
  lemma WatchHistoryComplete(db: Db, userId: int, w: WatchRow)
    requires w in db.watch && w.userId == userId
    requires exists m :: m in db.movies && m.movieId == w.movieId
    ensures w.id in IdsOf(HistoryRows(db, userId))
  {
    var sorted := SortedHistory(db, userId);
    JoinHistoryComplete(db, db.watch, userId, w);
    var x :| x in JoinHistory(db, db.watch, userId) && x.id == w.id;
    assert x in multiset(sorted);
    var i :| 0 <= i < |sorted| && sorted[i] == x;
    assert w.id in IdsOf(sorted);
    DedupeComplete(sorted, {});
  }
}
