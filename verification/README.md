# Movie recommender backend — a Dafny model

This project models the service layer of a FastAPI movie recommender and its catalogue maintenance scripts.

- **Recommendations.** Generating a user's top-N list from movie embeddings, and reading it back cache-first.
- **Redis cache wrapper.** The wrapper the services use: a connection state in front of a key/value store with a per-entry expiry.
- **Users.** Create a user (which, as written, always fails for a free email; see Findings), look one up by name or id, change a role, upsert watch history, and list history.
- **Movies.** Create, read cache-aside, list by genre, partially update, and delete.
- **Genre links.** The script that turns the legacy comma-separated `genre` column into `movie_genres` rows.
- **TMDb ids.** The two scripts that fill in missing TMDb ids and posters.

Every service call is a pure function. It maps the database (`Tables.Db`), and where it matters the cache (`RedisCache.Cache`), to a new state together with a `Result`. Each exception the source raises becomes an `Err` carrying its status and detail.

Layout:

- `optional.dfy`, `outcome.dfy`, `text.dfy`, `json_data.dfy`, `seqs.dfy`, `sorting.dfy`: shared vocabulary.
  - Option and Result types.
  - `str(int)`, `int(str)`, `strip`, `split`, `join`, `lower` and substring search.
  - JSON payloads.
  - Python slices.
  - `ORDER BY … DESC`.
- `tables.dfy`: one datatype per table row, and the table invariants (unique ids, unique emails, unique TMDb ids, serials ahead of every id).
- `app_state.dfy`: the database together with the cache.
- `redis_cache.dfy`: the cache wrapper.
- `ranking.dfy`: `argsort(similarities)[::-1][:top_n]`.
- `recommendation_service.dfy`, `user_service.dfy`, `movie_service.dfy`: the three services.
- `populate_genres.dfy`: the genre-link script.
- `tmdb_sync.dfy`: the two TMDb scripts. They share one loop and differ only in how they pick an id.

Several inputs are parameters rather than computed values:

- cosine similarity;
- bcrypt hashing;
- `to_dict`;
- the clock;
- TMDb's HTTP answers (functions of the request URL);
- `fuzz.ratio`.

## Model

| member | source | states |
|---|---|---|
| RedisCache.Connect | backend/cache/redis_cache.py:15-25 | a missing port is reported before a missing host; connecting succeeds exactly when both are set and the port is an optionally signed run of ASCII digits, possibly grouped by single underscores and surrounded by whitespace; the server's contents are kept |
| RedisCache.ConnectGroupedPort | backend/cache/redis_cache.py:22 | a REDIS_PORT of "6_379" connects to port 6379, as `int()` reads it |
| Text.UnderscoreIgnored | backend/cache/redis_cache.py:22 | an underscore between two digit runs does not change the number `int()` reads |
| RedisCache.IsConnected | backend/cache/redis_cache.py:27-29 | passes exactly when a client was set up, otherwise raises the "not initialized" RuntimeError |
| RedisCache.SetCache | backend/cache/redis_cache.py:31-34 | fails without a client or with a non-positive expiry; otherwise the key then reads back the value with that expiry and every other key reads as before |
| RedisCache.GetCache | backend/cache/redis_cache.py:36-41 | fails exactly without a client; returns a value exactly when the key is stored |
| RedisCache.DeleteCache | backend/cache/redis_cache.py:43-47 | fails exactly without a client; afterwards the key reads as absent and every other key reads as before |
| RedisCache.Disconnect | backend/cache/redis_cache.py:49-52 | drops the client and keeps the server's contents |
| RedisCache.DisconnectIdempotent | backend/cache/redis_cache.py:49-52 | disconnecting twice equals disconnecting once |
| RedisCache.UninitialisedRejectsAll | backend/cache/redis_cache.py:27-29 | without a client, set, get and delete all raise the same RuntimeError |
| RedisCache.DisconnectedRejectsAll | backend/cache/redis_cache.py:49-52 | after disconnecting, set, get and delete all raise the same RuntimeError |
| RedisCache.NeverSetReadsNone | backend/cache/redis_cache.py:36-41 | a key that was never written reads as None |
| RedisCache.DefaultExpiryIs600 | backend/cache/redis_cache.py:31 | a write without an explicit expiry stores the value for 600 seconds |
| Outcome.CatchAll | backend/services/movie_services.py:69-70 | every caught error, a 404 included, leaves as a 500 whose detail is the prefix followed by the error's text |
| Outcome.CatchAllNotFound | backend/services/movie_services.py:62-70 | a 404 raised inside the blanket handler leaves as a 500 whose detail is the prefix, "404: " and the 404's detail |
| Outcome.DescribeNotFound | backend/services/user_services.py:124 | a 404 prints as "404: " followed by its detail |
| Ranking.Rank | backend/services/recommendation_services.py:41 | a descending argsort: every position once, scores never increasing, and equal scores in input order |
| Sorting.SortDescStable | backend/services/recommendation_services.py:41 | sorting an increasing list of positions keeps equal keys in increasing position order |
| Ranking.TopN | backend/services/recommendation_services.py:41 | as many positions as Python's slice keeps, each a valid candidate, all distinct, in non-increasing score order, and none left out scoring higher than one taken |
| RecommendationService.Candidates | backend/services/recommendation_services.py:24-30 | the candidates are movies with an embedding, and there are none exactly when every embedding is null |
| RecommendationService.Generate | backend/services/recommendation_services.py:13-64 | 404 "User not found", then 404 "No movies available", then 404 "No valid movie embeddings found", each leaving the state unchanged; succeeds exactly when the user exists, some movie has an embedding and the cache is connected; the reported count is the number of rows planned |
| RecommendationService.PlannedRecommendations | backend/services/recommendation_services.py:38-45 | the planned rows number min(top_n, candidates) for a non-negative top_n; they name distinct candidates with embeddings, in non-increasing score order, and no candidate left out scores higher |
| RecommendationService.PlannedMoviesDistinct | backend/services/recommendation_services.py:41-45 | with unique movie ids, no movie is recommended twice |
| RecommendationService.CandidatesDistinctIds | backend/services/recommendation_services.py:27-30 | with unique movie ids, the candidates have distinct ids |
| RecommendationService.GenerateWriteOrder | backend/services/recommendation_services.py:47-62 | four states: the cache key is deleted first, then the rows are replaced, then the key is rewritten with the cached dicts and a 600-second expiry |
| RecommendationService.GenerateFrame | backend/services/recommendation_services.py:47-51 | afterwards the user's rows are exactly the planned ones; other users' rows, their cache keys and all other tables are unchanged |
| RecommendationService.ReplaceRecsFrame | backend/services/recommendation_services.py:49-50 | the delete-then-insert leaves exactly the new rows for the user and every other user's rows as they were |
| RecommendationService.ReadDuringGenerationFallsBack | backend/services/recommendation_services.py:73-86 | a read between the cache delete and the cache rewrite falls through to the database query |
| RecommendationService.ReadAfterGenerate | backend/services/recommendation_services.py:73-78 | after generation, a read is served from the cache, sliced by the reader's top_n, with the planned movie ids and scores in order |
| RecommendationService.GetUserRecommendations | backend/services/recommendation_services.py:67-107 | 404 "User not found" before touching the cache; the database is never changed |
| RecommendationService.CacheHitSkipsRows | backend/services/recommendation_services.py:73-78 | a non-empty cached list is returned sliced by top_n, whatever the recommendation rows hold |
| RecommendationService.CacheMissReadsRows | backend/services/recommendation_services.py:80-88 | a missing or empty cached list falls through to the database query |
| RecommendationService.JoinRecs | backend/services/recommendation_services.py:80-83 | every joined pair is one of the user's recommendations with the movie its id names |
| RecommendationService.JoinRecsComplete | backend/services/recommendation_services.py:80-83 | every recommendation of the user whose movie exists appears in the join |
| RecommendationService.DbTopProperties | backend/services/recommendation_services.py:84-85 | min(limit, matches) joined rows, drawn from the join, in non-increasing score order, and no row left out scoring higher than one kept |
| RecommendationService.ReadFromDb | backend/services/recommendation_services.py:80-107 | the query path never changes the database or the cache connection |
| RecommendationService.ReadFromDbResult | backend/services/recommendation_services.py:88-107 | no rows gives "No recommendations available"; otherwise one dict per row with the movie's own title and genre, also cached for 1800 seconds |
| RecommendationService.CacheDicts | backend/services/recommendation_services.py:53-61 | one cached dict per recommendation row, built as the generator writes it |
| RecommendationService.CachedTitleMismatch | backend/services/recommendation_services.py:53-61 | with two movies and top_n 1, the single cached dict carries movie 2's id and movie 1's title |
| RecommendationService.IntendedCacheDicts | backend/services/recommendation_services.py:53-61 | one dict per selected candidate |
| RecommendationService.IntendedTitlesMatch | backend/services/recommendation_services.py:53-61 | with unique movie ids, each dict carries the title and genre of the movie its id names |
| UserService.CreateUser | backend/services/user_services.py:17-23 | never succeeds: 400 "Email already registered" when the email is taken, otherwise the TypeError from awaiting the `str` the synchronous hash returns, which leaves as a 500 |
| UserService.IntendedCreateUser | backend/services/user_services.py:17-31 | with the hash called rather than awaited: 400 exactly when the email is taken; otherwise one new row with the next id and the hashed password, and nothing else changes |
| UserService.RegistrationNeverSucceeds | backend/services/user_services.py:17-23 | both registrations agree on a taken email; exactly where the intended one adds a user, the code as written raises TypeError |
| UserService.CreateUserKeepsInvariants | backend/services/user_services.py:25-31 | an intended registration keeps emails unique, ids unique and the id serial ahead |
| UserService.CreateThenGet | backend/services/user_services.py:25-49 | a user added by the intended registration is then found by its id and by its name |
| UserService.GetMe | backend/services/user_services.py:34-40 | 404 "User not found" exactly when no user has the name; otherwise the first user with that name |
| UserService.GetUser | backend/services/user_services.py:43-49 | 400 "User not found" exactly when no user has the id; otherwise the first user with that id |
| UserService.SetRole | backend/services/user_services.py:63 | rows with the id get the new role and every other row is unchanged |
| UserService.UpdateUserRole | backend/services/user_services.py:52-67 | an invalid role gives 400 before the 404 for a missing user; on success only the user's role changes and the refreshed user is returned |
| UserService.UpdateRoleThenGet | backend/services/user_services.py:52-67 | after the update, looking the user up returns the updated user with the new role |
| UserService.UpdateRoleIdempotent | backend/services/user_services.py:63-64 | setting the same role again changes nothing |
| UserService.WatchIndex | backend/services/user_services.py:134-135 | finds the row for a (user, movie) pair, or reports that none exists |
| UserService.AddToWatchHistory | backend/services/user_services.py:128-149 | 500 "Failed to add watch history" exactly when the user or movie is missing; otherwise inserts with count 1, or on conflict increments the count and refreshes the timestamp; only the watch table and its serial change, and the serial advances on both paths |
| UserService.AddIncrementsCount | backend/services/user_services.py:129-140 | the pair's count grows by one and is stamped now; every other pair's count is unchanged; one row per pair, unique ids and serials are preserved |
| UserService.WatchTwice | backend/services/user_services.py:129-140 | watching a new movie twice leaves one row with count 2 and the second timestamp |
| UserService.WatchJoin | backend/services/user_services.py:81-82 | every joined row copies the history row's fields, and an existing movie yields at least one row |
| UserService.MoviePosters | backend/services/user_services.py:82 | the outer join yields at least one row per movie, each carrying the movie's id and title |
| UserService.JoinHistory | backend/services/user_services.py:72-85 | every result row comes from one of the user's history rows |
| UserService.JoinHistoryComplete | backend/services/user_services.py:81-83 | every history row of the user whose movie exists appears in the result |
| UserService.Dedupe | backend/services/user_services.py:93-119 | every kept row is a result row whose id was not yet seen |
| UserService.DedupeDistinct | backend/services/user_services.py:106-119 | no history id is emitted twice |
| UserService.DedupeComplete | backend/services/user_services.py:106-119 | every id in the rows is either already seen or emitted |
| UserService.DedupeSource | backend/services/user_services.py:106-107 | every emitted row is the first occurrence of its id |
| UserService.DedupeKeepsOrder | backend/services/user_services.py:93-121 | skipping rows keeps the most-recent-first order |
| UserService.CollectHistory | backend/services/user_services.py:93-121 | the loop with the `seen` set emits exactly the de-duplicated rows |
| UserService.GetWatchHistory | backend/services/user_services.py:70-124 | no rows gives a 500 whose detail carries the 404's text; otherwise one item per de-duplicated row, in order |
| UserService.HistoryRowsFromQuery | backend/services/user_services.py:96-117 | every listed item comes from the query's rows |
| UserService.HistoryNonEmpty | backend/services/user_services.py:90-91 | rows from the query give a non-empty history |
| UserService.WatchHistoryProperties | backend/services/user_services.py:72-121 | each item comes from the user's own history, items are most recent first, ids are distinct, and the list is non-empty exactly when the query returns rows |
| UserService.HistoryProvenance | backend/services/user_services.py:81-83 | each item matches one of the user's history rows |
| UserService.HistoryOrdered | backend/services/user_services.py:84 | items are ordered most recent first |
| UserService.HistoryEmptiness | backend/services/user_services.py:90-91 | the history is empty exactly when the query returns no rows |
| UserService.WatchHistoryComplete | backend/services/user_services.py:81-121 | every history row of the user whose movie exists is listed |
| MovieService.CreateMovie | backend/services/movie_services.py:12-23 | 400 for a taken title, exactly; otherwise one new row with the next id, unset fields null, and nothing else changes |
| MovieService.CreateMovieKeepsInvariants | backend/services/movie_services.py:13-23 | creating keeps titles and ids unique and the serial ahead, and the new movie is then found by its id |
| MovieService.GetMovie | backend/services/movie_services.py:29-45 | a non-empty cached document is returned as is; otherwise the row, with 404 "Movie not found." exactly when the key misses and the row is absent; the database never changes |
| MovieService.GetMovieMissThenHit | backend/services/movie_services.py:33-45 | a miss returns the row and caches its dict for 3600 seconds, so the next read is served from the cache |
| MovieService.ListingKey | backend/services/movie_services.py:50 | "movies:all" for a missing or empty genre, otherwise "movies:" followed by the genre |
| MovieService.Listing | backend/services/movie_services.py:56-61 | all movies without a genre filter; otherwise exactly the movies whose genre contains the filter, case-insensitively |
| MovieService.GetMovies | backend/services/movie_services.py:48-70 | every error leaves as a 500; a non-empty cached listing is returned as is; a database answer is the filtered listing and is non-empty |
| MovieService.Docs | backend/services/movie_services.py:65 | one serialised document per movie, in order |
| MovieService.NoMatchIsServerError | backend/services/movie_services.py:62-70 | no matching movie gives a 500 "An error occured: 404: No movies found" |
| MovieService.GetMoviesMissThenHit | backend/services/movie_services.py:51-67 | a miss returns the movies and caches their dicts for 3600 seconds, so the next call is served from the cache |
| MovieService.ListingMatchesGenre | backend/services/movie_services.py:57-58 | a movie is listed for a genre exactly when it is in the table and its genre contains the filter |
| MovieService.ApplyUpdate | backend/services/movie_services.py:79-80 | the fields sent are overwritten and the fields left unset keep their values |
| MovieService.UpdateMovie | backend/services/movie_services.py:73-85 | 404 "Movie not found." exactly when the row is absent; otherwise only that row changes |
| MovieService.UpdateThenFind | backend/services/movie_services.py:73-85 | after an update the row is found with the new values |
| MovieService.UpdateIdempotent | backend/services/movie_services.py:79-82 | applying the same update twice equals applying it once |
| MovieService.UpdateCanDuplicateTitle | backend/services/movie_services.py:73-85 | the update does not check titles, so it can make two movies share one |
| MovieService.UpdateLeavesStaleCache | backend/services/movie_services.py:73-85 | after an update, a cached document for the movie is still what a read returns |
| MovieService.DeleteMovie | backend/services/movie_services.py:88-100 | 404 "Movie not found" when absent; a 500 when a poster, recommendation, review, watch or genre-link row references the movie; otherwise the row is removed |
| MovieService.ReviewBlocksDelete | backend/services/movie_services.py:94-100 | a movie that has a review cannot be deleted: the commit fails and leaves as a 500 |
| MovieService.DeleteRemovesOnlyIt | backend/services/movie_services.py:94-96 | after a delete the movie is gone, every other movie remains, and ids stay unique |
| MovieService.DeleteLeavesStaleCache | backend/services/movie_services.py:88-100 | after a delete, a cached document for the movie is still what a read returns |
| PopulateGenres.GenreNames | backend/utils/populatemg.py:17-19 | no names for a null genre; otherwise at least one stripped name without commas |
| PopulateGenres.GenreNamesInvertJoin | backend/utils/populatemg.py:19 | splitting on "," and stripping recovers the names a ", " join wrote |
| PopulateGenres.LookupGenre | backend/utils/populatemg.py:23-24 | the first genre with that name, or none exactly when no genre has it |
| PopulateGenres.LinkFor | backend/utils/populatemg.py:23-32 | at most one new pair per name: a resolving pair not yet visible, and nothing when every resolving pair is visible |
| PopulateGenres.NewLinksSound | backend/utils/populatemg.py:21-32 | every pair added for a movie names that movie, resolves one of its names, and was not visible |
| PopulateGenres.NewLinksDistinct | backend/utils/populatemg.py:21-32 | with pending adds visible, the pairs added for one movie are pairwise distinct |
| PopulateGenres.PendingLinksSound | backend/utils/populatemg.py:15-32 | every pair added is justified by some movie's genre string and was not stored |
| PopulateGenres.PendingLinksDistinct | backend/utils/populatemg.py:15-32 | with pending adds visible, the pairs added over all movies are pairwise distinct |
| PopulateGenres.Populate | backend/utils/populatemg.py:9-34 | only the link table grows, and existing links are kept in front |
| PopulateGenres.PopulateMovieGenre | backend/utils/populatemg.py:9-34 | the script as written: only the link table grows, keeping existing links |
| PopulateGenres.PopulateMovieGenreFlushed | backend/utils/populatemg.py:28-32 | the script with pending links visible to the existence check: only the link table grows |
| PopulateGenres.AddedLinksJustified | backend/utils/populatemg.py:15-32 | every new link names a movie and a genre listed in that movie's genre string |
| PopulateGenres.NewLinksComplete | backend/utils/populatemg.py:21-32 | every name that resolves gets its link, new or already stored |
| PopulateGenres.PendingLinksComplete | backend/utils/populatemg.py:15-32 | every listed genre of every movie ends up linked |
| PopulateGenres.NothingMissingNothingAdded | backend/utils/populatemg.py:28-32 | a movie with all links present gets none added |
| PopulateGenres.NothingMissingNoLinks | backend/utils/populatemg.py:28-32 | when every link is present, a run adds nothing |
| PopulateGenres.PopulateIdempotent | backend/utils/populatemg.py:9-34 | a second run adds nothing |
| PopulateGenres.AsWrittenDuplicates | backend/utils/populatemg.py:28-32 | a movie with genre "Drama, Drama" gets the same link added twice |
| PopulateGenres.FlushedAddsOnce | backend/utils/populatemg.py:28-32 | with pending links visible, the same movie gets the link once |
| PopulateGenres.FlushedKeepsLinksDistinct | backend/utils/populatemg.py:28-32 | with pending links visible, distinct links stay distinct |
| TmdbSync.SearchUrl | backend/utils/putmissing.py:21-24 | the query URL, with "&year=" appended exactly when a release date is present |
| TmdbSync.SearchUrlCarriesYear | backend/utils/tmdb_id.py:18-21 | the year can be read back from the end of the search URL |
| TmdbSync.ImagesUrl | backend/utils/putmissing.py:46 | the images URL lies under the movie endpoint |
| TmdbSync.ImagesUrlInjective | backend/utils/tmdb_id.py:32 | different ids produce different images URLs |
| TmdbSync.GetMoviePoster | backend/utils/putmissing.py:44-54 | a URL exactly when there are posters, always under the w500 base |
| TmdbSync.PosterPathRoundTrip | backend/utils/tmdb_id.py:37-40 | the URL's path after the w500 base is the first poster's file_path |
| TmdbSync.BestMatch | backend/utils/putmissing.py:32-38 | the scan keeps the first position with the largest positive score, or none with score 0 when no score is positive |
| TmdbSync.FuzzyTmdbId | backend/utils/putmissing.py:19-42 | nothing exactly when every ratio is below 70 (so also with no results); otherwise the id of the first best-scoring hit |
| TmdbSync.GetTmdbMovieId | backend/utils/putmissing.py:32-42 | the loop gives the same id as the scan, and nothing exactly when every ratio is below 70 |
| TmdbSync.FirstResultId | backend/utils/tmdb_id.py:26-28 | the first result's id, and nothing exactly when there are no results |
| TmdbSync.FuzzyAgreesWithFirst | backend/utils/putmissing.py:34-41 | when the first hit scores best and reaches 70, both policies pick the same id |
| TmdbSync.TmdbHeld | backend/utils/putmissing.py:66-67 | true exactly when some movie already holds the id |
| TmdbSync.SyncMovie | backend/utils/putmissing.py:62-80 | the movie gets the id exactly when it is non-zero and unheld; only that row changes; TMDb ids stay unique; a poster row is added exactly when the id was set and a URL was found |
| TmdbSync.UpdateMovieTmdbData | backend/utils/putmissing.py:56-80 | only movies that had no id change, each to its own lookup; ids stay unique; every new poster belongs to a movie assigned in the run and shows that id's poster; a movie stays without an id only when its lookup gave nothing usable or another movie holds that id |
| TmdbSync.FirstResultSyncTakesFirstHit | backend/utils/tmdb_id.py:48-64 | with the first-result policy, a movie gets the first hit's id exactly when there are results and that id is non-zero and unheld |

## Left out

- Cosine similarity and the mean embedding. The score is a parameter `Similarity` from the embedding matrix and one embedding to a `real`; only its order is used.
- Ties in numpy's argsort. `argsort` is not stable, so `Ranking.IsRanking` leaves the order of equal scores open. The concrete ranking the model computes, `Ranking.Rank`, keeps equal scores in input order.
- Ties in `ORDER BY score DESC` and `ORDER BY watched_at DESC`. The database may return equal keys in any order. The model uses `Sorting.SortDesc`, which puts the head ahead of equal keys and so lists ties in table order; that is proved for lists of positions (`Sorting.SortDescStable`), not stated for rows.
- Networking, JSON encoding and time-based expiry. The store keeps each entry's expiry in seconds but never expires it, and `json.loads(json.dumps(v))` is taken to be `v`.
- Concurrency. Every call runs alone. Interleavings appear only as the intermediate states of generation. The atomicity of `ON CONFLICT` under concurrent requests is not modelled.
- bcrypt and `to_dict`. The hash function of the intended registration and the row serialiser are parameters.
- RedisCache.Connect: `int()` also accepts decimal digits outside ASCII, such as "６３７９". The model's parse (`Text.ParseInt`) accepts ASCII digits only, so such a port fails to connect in the model.
- UserService.IntendedCreateUser: a new user's role is `"regular"`. The column default that supplies it is not part of this model.
- UserService.AddToWatchHistory: the success reply, the constant message "Watch history updated successfully", is not returned; the result is the new database state. The integrity error is modelled as a missing user or movie row. The watch-history table's constraints are not part of this model. The two `datetime.now` calls are taken to give the same instant. A failed insert also uses up a serial value in the database; the model keeps the serial unchanged on that path, since only the serial staying ahead of every id matters.
- MovieService.CreateMovie: the 500 for a failed commit is not modelled. Nothing in the model makes a commit fail.
- MovieService.DeleteMovie: the 500's detail uses a fixed foreign-key message in place of the driver's text. A movie counts as referenced when any poster, recommendation, review, watch-history or genre-link row names it. Whether the ORM nulls the children's key first or the database refuses the delete, both end in the same 500.
- MovieService.Listing: `ILIKE` is modelled as case-insensitive substring search. It folds ASCII letters only, and `%` or `_` inside the genre are treated as plain characters.
- TmdbSync.FuzzyTmdbId: lower-casing folds ASCII letters only. A hit without a `title` key, which would raise `KeyError`, is not modelled.
- TmdbSync.GetMoviePoster: a `file_path` of `None` is not modelled. A missing `posters` key is the same as an empty list.
- TmdbSync.UpdateMovieTmdbData: the `print` calls are dropped, and commit failures are not modelled.
- Process-level code. The `TMDB_API_KEY` check at import time and the `asyncio.run` entry points are not modelled.
- RecommendationService.Generate: the cached dicts are built as the source writes them, by position. The corrected builder is stated and proved separately, in `IntendedCacheDicts` (see Findings). Generate keeps the as-written builder so that `ReadAfterGenerate` describes what a reader actually receives.

## Findings

| source | as written | input that shows it | evidently intended | confidence | as-written member | corrected member |
|---|---|---|---|---|---|---|
| backend/services/recommendation_services.py:53-61 | the cached dict k takes `title`/`genre` from `movie_list[k]`, the k-th candidate in table order, not from the recommended movie | movies 1 "A" and 2 "B", both with embeddings, where B scores higher and top_n is 1: the cached dict has movie_id 2 and title "A" | each cached dict carries the title and genre of the movie its `movie_id` names | not executed | RecommendationService.CachedTitleMismatch | RecommendationService.IntendedTitlesMatch |
| backend/services/user_services.py:23 | `await hash_password(user.password)` awaits the `str` that the synchronous `hash_password` returns, which raises TypeError before the row is added | any registration with an email not yet in `users` | a free email registers one new user with the hashed password | not executed | UserService.RegistrationNeverSucceeds | UserService.IntendedCreateUser |
| backend/utils/populatemg.py:28-32 | with `autoflush=False`, the existence check does not see links added earlier in the same run, so a name repeated in one genre string is linked twice | a movie with genre "Drama, Drama" and a genre "Drama": two identical `MovieGenre(1, 5)` rows are added | each (movie, genre) pair is added at most once | not executed | PopulateGenres.AsWrittenDuplicates | PopulateGenres.FlushedKeepsLinksDistinct |

If the link table has a composite primary key, the third finding's duplicate makes the final commit fail rather than store two rows. The table's schema is not part of this model.
