/**
 * The batch job that fills the movie/genre link table from each movie's
 * comma-separated genre string: every name is stripped, looked up in the
 * Genre table, and a link is added unless the existence query finds one.
 *
 * The session runs with `autoflush=False`, so the existence query sees the
 * committed links only, never the ones added earlier in the same run. The
 * model carries that as a flag: `PopulateMovieGenre` is the job as written,
 * `PopulateMovieGenreFlushed` the job whose query also sees pending links.
 */
module PopulateGenres {
  import opened Optional
  import opened Tables
  import opened Seqs
  import Text

  /** `[g.strip() for g in genre.split(",")]` for a string genre; a null genre gives nothing. */
  function GenreNames(genre: Option<string>): (names: seq<string>)
    ensures genre.None? ==> names == []
    ensures genre.Some? ==> |names| >= 1 && forall k :: 0 <= k < |names| ==> Text.Stripped(names[k]) && ',' !in names[k]
  {
    match genre
    case None => []
    case Some(s) =>
      var names := Text.StripAll(Text.Split(s, ','));
      assert forall k :: 0 <= k < |names| ==> ',' !in names[k] by {
        forall k | 0 <= k < |names| ensures ',' !in names[k] {
          StripKeepsOut(Text.Split(s, ',')[k], ',');
        }
      }
      names
  }

  /** Stripping only removes characters. */
  lemma StripKeepsOut(s: string, c: char)
    requires c !in s
    ensures c !in Text.Strip(s)
  {
    var t := s[Text.LeadingSpaces(s)..];
    assert forall i :: 0 <= i < |t| ==> t[i] == s[Text.LeadingSpaces(s) + i];
  }

  /** The genre string `", ".join(names)` that the loader writes reads back as `names`. */
  lemma GenreNamesInvertJoin(names: seq<string>)
    requires |names| > 0
    requires forall k :: 0 <= k < |names| ==> ',' !in names[k] && Text.Stripped(names[k])
    ensures GenreNames(Some(Text.Join(names, ", "))) == names
  {
    Text.SplitStripInvertsJoin(names);
  }

  /** `select(Genre).filter_by(name=...).first()`. */
  function LookupGenre(genres: seq<Genre>, name: string): (r: Option<Genre>)
    ensures r.Some? ==> r.value in genres && r.value.name == name
    ensures r.None? <==> forall k :: 0 <= k < |genres| ==> genres[k].name != name
  {
    match IndexWhere(genres, (g: Genre) => g.name == name)
    case Some(k) => Some(genres[k])
    case None => None
  }

  /** The name resolves (after the second `strip`) to the genre with id `genreId`. */
  predicate Resolves(genres: seq<Genre>, name: string, genreId: int) {
    var g := LookupGenre(genres, Text.Strip(name));
    g.Some? && g.value.id == genreId
  }

  /** The link one name adds: none for an unknown name or a link the query can see. */
  function LinkFor(movieId: int, name: string, genres: seq<Genre>, visible: seq<MovieGenre>): (r: seq<MovieGenre>)
    ensures |r| <= 1
    ensures |r| == 1 ==> r[0].movieId == movieId && r[0] !in visible && Resolves(genres, name, r[0].genreId)
    ensures forall g :: Resolves(genres, name, g) ==> MovieGenre(movieId, g) in visible + r
    ensures (forall g :: Resolves(genres, name, g) ==> MovieGenre(movieId, g) in visible) ==> r == []
  {
    match LookupGenre(genres, Text.Strip(name))
    case Some(g) =>
      assert Resolves(genres, name, g.id);
      if MovieGenre(movieId, g.id) in visible then [] else [MovieGenre(movieId, g.id)]
    case None => []
  }

  /** Some name of `names` resolves to `genreId`. */
  predicate AnyResolves(genres: seq<Genre>, names: seq<string>, genreId: int) {
    exists k :: 0 <= k < |names| && Resolves(genres, names[k], genreId)
  }

  /**
   * The links added for one movie's names. `visible` is what the existence
   * query can see; with `seePending` the links added so far join it.
   * Its properties are the lemmas `NewLinksSound`, `NewLinksDistinct` and
   * `NewLinksComplete`.
   */
  function NewLinks(movieId: int, names: seq<string>, genres: seq<Genre>, visible: seq<MovieGenre>, seePending: bool): (r: seq<MovieGenre>) {
    if |names| == 0 then []
    else
      var here := LinkFor(movieId, names[0], genres, visible);
      here + NewLinks(movieId, names[1..], genres, if seePending then visible + here else visible, seePending)
  }

  /** Every link of `r` is for `movieId`, was not in `visible`, and resolves one of `names`. */
  predicate LinksSound(r: seq<MovieGenre>, movieId: int, names: seq<string>, genres: seq<Genre>, visible: seq<MovieGenre>) {
    forall j :: 0 <= j < |r| ==> r[j].movieId == movieId && r[j] !in visible && AnyResolves(genres, names, r[j].genreId)
  }

  /** Every link a movie adds is for that movie, was not visible, and resolves one of its names. */
  lemma {:induction false} NewLinksSound(movieId: int, names: seq<string>, genres: seq<Genre>, visible: seq<MovieGenre>, seePending: bool)
    ensures LinksSound(NewLinks(movieId, names, genres, visible, seePending), movieId, names, genres, visible)
  {
    if |names| > 0 {
      var here := LinkFor(movieId, names[0], genres, visible);
      var visible' := if seePending then visible + here else visible;
      var rest := NewLinks(movieId, names[1..], genres, visible', seePending);
      NewLinksSound(movieId, names[1..], genres, visible', seePending);
      NewLinksUnfold(movieId, names, genres, visible, seePending);
      forall j | 0 <= j < |here + rest|
        ensures (here + rest)[j].movieId == movieId && (here + rest)[j] !in visible
        ensures AnyResolves(genres, names, (here + rest)[j].genreId)
      {
        if j < |here| {
          assert (here + rest)[j] == here[0];
          assert Resolves(genres, names[0], here[0].genreId);
        } else {
          var x := rest[j - |here|];
          assert (here + rest)[j] == x;
          AnyResolvesTail(genres, names, x.genreId);
        }
      }
    }
  }

  /** A name of the tail is a name of the whole list. */
  lemma AnyResolvesTail(genres: seq<Genre>, names: seq<string>, genreId: int)
    requires |names| > 0 && AnyResolves(genres, names[1..], genreId)
    ensures AnyResolves(genres, names, genreId)
  {
    var k :| 0 <= k < |names[1..]| && Resolves(genres, names[1..][k], genreId);
    assert names[k + 1] == names[1..][k];
  }

  /** With pending links visible, a movie never adds the same link twice. */
  lemma {:induction false} NewLinksDistinct(movieId: int, names: seq<string>, genres: seq<Genre>, visible: seq<MovieGenre>)
    ensures Distinct(NewLinks(movieId, names, genres, visible, true))
  {
    if |names| > 0 {
      var here := LinkFor(movieId, names[0], genres, visible);
      var rest := NewLinks(movieId, names[1..], genres, visible + here, true);
      NewLinksDistinct(movieId, names[1..], genres, visible + here);
      NewLinksSound(movieId, names[1..], genres, visible + here, true);
      NewLinksUnfold(movieId, names, genres, visible, true);
      DistinctAppend(here, rest, visible);
    }
  }

  /** Some movie with the link's movie id has a name that resolves to the link's genre. */
  predicate Justified(movies: seq<Movie>, genres: seq<Genre>, x: MovieGenre) {
    exists i :: 0 <= i < |movies| && movies[i].movieId == x.movieId && AnyResolves(genres, GenreNames(movies[i].genre), x.genreId)
  }

  /**
   * The links added over all movies, in table order. Its properties are the
   * lemmas `PendingLinksSound`, `PendingLinksDistinct` and
   * `PendingLinksComplete`.
   */
  function PendingLinks(movies: seq<Movie>, genres: seq<Genre>, visible: seq<MovieGenre>, seePending: bool): (r: seq<MovieGenre>) {
    if |movies| == 0 then []
    else
      var here := NewLinks(movies[0].movieId, GenreNames(movies[0].genre), genres, visible, seePending);
      here + PendingLinks(movies[1..], genres, if seePending then visible + here else visible, seePending)
  }

  /** Every link of `r` was not in `visible` and is justified by one of `movies`. */
  predicate RunSound(r: seq<MovieGenre>, movies: seq<Movie>, genres: seq<Genre>, visible: seq<MovieGenre>) {
    forall j :: 0 <= j < |r| ==> r[j] !in visible && Justified(movies, genres, r[j])
  }

  /** Every link a run adds was not visible and is justified by some movie's genre string. */
  lemma {:induction false} PendingLinksSound(movies: seq<Movie>, genres: seq<Genre>, visible: seq<MovieGenre>, seePending: bool)
    ensures RunSound(PendingLinks(movies, genres, visible, seePending), movies, genres, visible)
  {
    if |movies| > 0 {
      var here := NewLinks(movies[0].movieId, GenreNames(movies[0].genre), genres, visible, seePending);
      var visible' := if seePending then visible + here else visible;
      var rest := PendingLinks(movies[1..], genres, visible', seePending);
      NewLinksSound(movies[0].movieId, GenreNames(movies[0].genre), genres, visible, seePending);
      PendingLinksSound(movies[1..], genres, visible', seePending);
      PendingLinksUnfold(movies, genres, visible, seePending);
      forall j | 0 <= j < |here| ensures Justified(movies, genres, here[j]) {
        assert movies[0].movieId == here[j].movieId;
      }
      forall j | 0 <= j < |rest| ensures Justified(movies, genres, rest[j]) {
        JustifiedTail(movies, genres, rest[j]);
      }
      AppendSound(movies, genres, visible, visible', here, rest);
    }
  }

  /** Soundness of two consecutive runs carries over to their concatenation. */
  lemma AppendSound(movies: seq<Movie>, genres: seq<Genre>, visible: seq<MovieGenre>, visible': seq<MovieGenre>,
                    here: seq<MovieGenre>, rest: seq<MovieGenre>)
    requires forall x :: x in visible ==> x in visible'
    requires forall j :: 0 <= j < |here| ==> here[j] !in visible && Justified(movies, genres, here[j])
    requires forall j :: 0 <= j < |rest| ==> rest[j] !in visible' && Justified(movies, genres, rest[j])
    ensures forall j :: 0 <= j < |here + rest| ==> (here + rest)[j] !in visible && Justified(movies, genres, (here + rest)[j])
  {
    forall j | 0 <= j < |here + rest|
      ensures (here + rest)[j] !in visible && Justified(movies, genres, (here + rest)[j])
    {
      if j >= |here| {
        assert (here + rest)[j] == rest[j - |here|];
      }
    }
  }

  /** A link justified by a later movie is justified by the whole list. */
  lemma JustifiedTail(movies: seq<Movie>, genres: seq<Genre>, x: MovieGenre)
    requires |movies| > 0 && Justified(movies[1..], genres, x)
    ensures Justified(movies, genres, x)
  {
    var i :| 0 <= i < |movies[1..]| && movies[1..][i].movieId == x.movieId
             && AnyResolves(genres, GenreNames(movies[1..][i].genre), x.genreId);
    assert movies[i + 1] == movies[1..][i];
  }

  /** With pending links visible, a run never adds the same link twice. */
  lemma {:induction false} PendingLinksDistinct(movies: seq<Movie>, genres: seq<Genre>, visible: seq<MovieGenre>)
    ensures Distinct(PendingLinks(movies, genres, visible, true))
  {
    if |movies| > 0 {
      var here := NewLinks(movies[0].movieId, GenreNames(movies[0].genre), genres, visible, true);
      var rest := PendingLinks(movies[1..], genres, visible + here, true);
      NewLinksDistinct(movies[0].movieId, GenreNames(movies[0].genre), genres, visible);
      PendingLinksDistinct(movies[1..], genres, visible + here);
      PendingLinksSound(movies[1..], genres, visible + here, true);
      PendingLinksUnfold(movies, genres, visible, true);
      DistinctAppend(here, rest, visible);
    }
  }

  /** Two duplicate-free runs, the second avoiding everything the first produced, concatenate without duplicates. */
  lemma DistinctAppend(a: seq<MovieGenre>, b: seq<MovieGenre>, visible: seq<MovieGenre>)
    requires Distinct(a) && Distinct(b)
    requires forall j :: 0 <= j < |b| ==> b[j] !in visible + a
    ensures Distinct(a + b)
  {
    forall i, j | 0 <= i < j < |a + b| ensures (a + b)[i] != (a + b)[j] {
      if j >= |a| {
        assert (a + b)[j] == b[j - |a|];
        if i < |a| {
          assert (a + b)[i] in visible + a;
        } else {
          assert (a + b)[i] == b[i - |a|];
        }
      }
    }
  }

  /** One run: the links found missing are added, and committed at the end. */
  function Populate(db: Db, seePending: bool): (r: Db)
    ensures r == db.(movieGenres := r.movieGenres)
    ensures |r.movieGenres| >= |db.movieGenres| && r.movieGenres[..|db.movieGenres|] == db.movieGenres
  {
    var added := PendingLinks(db.movies, db.genres, db.movieGenres, seePending);
    assert (db.movieGenres + added)[..|db.movieGenres|] == db.movieGenres;
    db.(movieGenres := db.movieGenres + added)
  }

  /** `populate_movie_genre` as written: pending links are invisible to the existence query. */
  function PopulateMovieGenre(db: Db): (r: Db)
    ensures r == db.(movieGenres := r.movieGenres)
    ensures |r.movieGenres| >= |db.movieGenres| && r.movieGenres[..|db.movieGenres|] == db.movieGenres
  {
    Populate(db, false)
  }

  /** The job with the existence query also seeing the links added earlier in the run. */
  function PopulateMovieGenreFlushed(db: Db): (r: Db)
    ensures r == db.(movieGenres := r.movieGenres)
    ensures |r.movieGenres| >= |db.movieGenres| && r.movieGenres[..|db.movieGenres|] == db.movieGenres
  {
    Populate(db, true)
  }

  /**
   * Every added link joins a movie to a genre one of its names resolves to,
   * and was not there before: unknown names are skipped, existing links
   * are not re-added, and nothing is removed or changed.
   */
  lemma AddedLinksJustified(db: Db, seePending: bool, x: MovieGenre)
    requires x in Populate(db, seePending).movieGenres && x !in db.movieGenres
    ensures exists i, k :: 0 <= i < |db.movies| && db.movies[i].movieId == x.movieId
                           && 0 <= k < |GenreNames(db.movies[i].genre)|
                           && Resolves(db.genres, GenreNames(db.movies[i].genre)[k], x.genreId)
  {
    var added := PendingLinks(db.movies, db.genres, db.movieGenres, seePending);
    PendingLinksSound(db.movies, db.genres, db.movieGenres, seePending);
    assert Populate(db, seePending).movieGenres == db.movieGenres + added;
    var j := InSecondPart(db.movieGenres, added, x);
    assert Justified(db.movies, db.genres, added[j]);
  }

  /** An element of `a + b` that is not in `a` sits at some position of `b`. */
  lemma InSecondPart(a: seq<MovieGenre>, b: seq<MovieGenre>, x: MovieGenre) returns (j: nat)
    requires x in a + b && x !in a
    ensures j < |b| && b[j] == x
  {
    var i :| 0 <= i < |a + b| && (a + b)[i] == x;
    j := i - |a|;
  }

  /** Every name that resolves ends up linked, whether it was already or now. */
  lemma {:induction false} NewLinksComplete(movieId: int, names: seq<string>, genres: seq<Genre>, visible: seq<MovieGenre>,
                                            seePending: bool, k: nat, genreId: int)
    requires k < |names| && Resolves(genres, names[k], genreId)
    ensures MovieGenre(movieId, genreId) in visible + NewLinks(movieId, names, genres, visible, seePending)
    decreases |names|, 1
  {
    if k == 0 {
      NewLinksFirst(movieId, names, genres, visible, seePending, genreId);
    } else {
      var here := LinkFor(movieId, names[0], genres, visible);
      NewLinksCompleteLater(movieId, names, genres, visible, if seePending then visible + here else visible,
                            seePending, k, genreId);
    }
  }

  /** The step of NewLinksComplete for a name past the first: the link comes from the tail's run. */
  lemma {:induction false} NewLinksCompleteLater(movieId: int, names: seq<string>, genres: seq<Genre>,
                                                 visible: seq<MovieGenre>, visible': seq<MovieGenre>,
                                                 seePending: bool, k: nat, genreId: int)
    requires 0 < k < |names| && Resolves(genres, names[k], genreId)
    requires visible' == if seePending then visible + LinkFor(movieId, names[0], genres, visible) else visible
    ensures MovieGenre(movieId, genreId) in visible + NewLinks(movieId, names, genres, visible, seePending)
    decreases |names|, 0
  {
    NameResolvesInTail(names, genres, k, genreId);
    NewLinksComplete(movieId, names[1..], genres, visible', seePending, k - 1, genreId);
    NewLinksLater(movieId, names, genres, visible, visible', seePending, MovieGenre(movieId, genreId));
  }

  /** The first name's link is in the result. */
  lemma NewLinksFirst(movieId: int, names: seq<string>, genres: seq<Genre>, visible: seq<MovieGenre>,
                      seePending: bool, genreId: int)
    requires |names| > 0 && Resolves(genres, names[0], genreId)
    ensures MovieGenre(movieId, genreId) in visible + NewLinks(movieId, names, genres, visible, seePending)
  {
    var here := LinkFor(movieId, names[0], genres, visible);
    var visible' := if seePending then visible + here else visible;
    NewLinksUnfold(movieId, names, genres, visible, seePending);
    InAfterShift(MovieGenre(movieId, genreId), visible, here, NewLinks(movieId, names[1..], genres, visible', seePending), seePending);
  }

  /** A link the later names leave in place is in the result. */
  lemma NewLinksLater(movieId: int, names: seq<string>, genres: seq<Genre>, visible: seq<MovieGenre>,
                      visible': seq<MovieGenre>, seePending: bool, mg: MovieGenre)
    requires |names| > 0
    requires visible' == if seePending then visible + LinkFor(movieId, names[0], genres, visible) else visible
    requires mg in visible' + NewLinks(movieId, names[1..], genres, visible', seePending)
    ensures mg in visible + NewLinks(movieId, names, genres, visible, seePending)
  {
    var here := LinkFor(movieId, names[0], genres, visible);
    NewLinksUnfold(movieId, names, genres, visible, seePending);
    InAfterShift(mg, visible, here, NewLinks(movieId, names[1..], genres, visible', seePending), seePending);
  }

  /** Over all movies: every resolving (movie, name) pair ends up linked. */
  lemma {:induction false} PendingLinksComplete(movies: seq<Movie>, genres: seq<Genre>, visible: seq<MovieGenre>,
                                                seePending: bool, i: nat, k: nat, genreId: int)
    requires i < |movies| && k < |GenreNames(movies[i].genre)|
    requires Resolves(genres, GenreNames(movies[i].genre)[k], genreId)
    ensures MovieGenre(movies[i].movieId, genreId) in visible + PendingLinks(movies, genres, visible, seePending)
  {
    if i == 0 {
      PendingLinksFirst(movies, genres, visible, seePending, k, genreId);
    } else {
      var here := NewLinks(movies[0].movieId, GenreNames(movies[0].genre), genres, visible, seePending);
      var visible' := if seePending then visible + here else visible;
      var tail := movies[1..];
      MovieResolvesInTail(movies, genres, i, k, genreId);
      PendingLinksComplete(tail, genres, visible', seePending, i - 1, k, genreId);
      PendingLinksLater(movies, genres, visible, visible', seePending, MovieGenre(movies[i].movieId, genreId));
    }
  }

  /** A resolving name of movie `i` is a resolving name of movie `i - 1` of the tail. */
  lemma MovieResolvesInTail(movies: seq<Movie>, genres: seq<Genre>, i: nat, k: nat, genreId: int)
    requires 0 < i < |movies| && k < |GenreNames(movies[i].genre)|
    requires Resolves(genres, GenreNames(movies[i].genre)[k], genreId)
    ensures k < |GenreNames(movies[1..][i - 1].genre)|
    ensures Resolves(genres, GenreNames(movies[1..][i - 1].genre)[k], genreId)
    ensures movies[1..][i - 1].movieId == movies[i].movieId
  {
    assert movies[1..][i - 1] == movies[i];
  }

  /** A resolving name at `k` is the resolving name at `k - 1` of the tail. */
  lemma NameResolvesInTail(names: seq<string>, genres: seq<Genre>, k: nat, genreId: int)
    requires 0 < k < |names| && Resolves(genres, names[k], genreId)
    ensures Resolves(genres, names[1..][k - 1], genreId)
  {
    assert names[1..][k - 1] == names[k];
  }

  /** A link the first movie's names call for is in the result. */
  lemma PendingLinksFirst(movies: seq<Movie>, genres: seq<Genre>, visible: seq<MovieGenre>, seePending: bool, k: nat, genreId: int)
    requires 0 < |movies| && k < |GenreNames(movies[0].genre)|
    requires Resolves(genres, GenreNames(movies[0].genre)[k], genreId)
    ensures MovieGenre(movies[0].movieId, genreId) in visible + PendingLinks(movies, genres, visible, seePending)
  {
    var mg := MovieGenre(movies[0].movieId, genreId);
    NewLinksComplete(movies[0].movieId, GenreNames(movies[0].genre), genres, visible, seePending, k, genreId);
    var here := NewLinks(movies[0].movieId, GenreNames(movies[0].genre), genres, visible, seePending);
    var visible' := if seePending then visible + here else visible;
    PendingLinksUnfold(movies, genres, visible, seePending);
    InAfterShift(mg, visible, here, PendingLinks(movies[1..], genres, visible', seePending), seePending);
  }

  /** A link the later movies add or find is in the result. */
  lemma PendingLinksLater(movies: seq<Movie>, genres: seq<Genre>, visible: seq<MovieGenre>,
                          visible': seq<MovieGenre>, seePending: bool, mg: MovieGenre)
    requires |movies| > 0
    requires visible' == if seePending
                         then visible + NewLinks(movies[0].movieId, GenreNames(movies[0].genre), genres, visible, seePending)
                         else visible
    requires mg in visible' + PendingLinks(movies[1..], genres, visible', seePending)
    ensures mg in visible + PendingLinks(movies, genres, visible, seePending)
  {
    var here := NewLinks(movies[0].movieId, GenreNames(movies[0].genre), genres, visible, seePending);
    PendingLinksUnfold(movies, genres, visible, seePending);
    InAfterShift(mg, visible, here, PendingLinks(movies[1..], genres, visible', seePending), seePending);
  }

  /** The links of a non-empty name list: the first name's, then the rest's. */
  lemma NewLinksUnfold(movieId: int, names: seq<string>, genres: seq<Genre>, visible: seq<MovieGenre>, seePending: bool)
    requires |names| > 0
    ensures var here := LinkFor(movieId, names[0], genres, visible);
            NewLinks(movieId, names, genres, visible, seePending)
            == here + NewLinks(movieId, names[1..], genres, if seePending then visible + here else visible, seePending)
  {
  }

  /** The links of a non-empty movie list: the first movie's, then the rest's. */
  lemma PendingLinksUnfold(movies: seq<Movie>, genres: seq<Genre>, visible: seq<MovieGenre>, seePending: bool)
    requires |movies| > 0
    ensures var here := NewLinks(movies[0].movieId, GenreNames(movies[0].genre), genres, visible, seePending);
            PendingLinks(movies, genres, visible, seePending)
            == here + PendingLinks(movies[1..], genres, if seePending then visible + here else visible, seePending)
  {
  }

  /** A link seen in the first step, or later with or without the first step's links visible, is in the result. */
  lemma InAfterShift(mg: MovieGenre, visible: seq<MovieGenre>, here: seq<MovieGenre>, rest: seq<MovieGenre>, seePending: bool)
    requires mg in visible + here || mg in (if seePending then visible + here else visible) + rest
    ensures mg in visible + (here + rest)
  {
  }

  /** When every resolving name is already linked, a movie adds nothing. */
  lemma {:induction false} NothingMissingNothingAdded(movieId: int, names: seq<string>, genres: seq<Genre>,
                                                      visible: seq<MovieGenre>, seePending: bool)
    requires forall k, g :: 0 <= k < |names| && Resolves(genres, names[k], g) ==> MovieGenre(movieId, g) in visible
    ensures NewLinks(movieId, names, genres, visible, seePending) == []
  {
    if |names| > 0 {
      var here := LinkFor(movieId, names[0], genres, visible);
      assert forall g :: Resolves(genres, names[0], g) ==> MovieGenre(movieId, g) in visible;
      assert here == [];
      var visible' := if seePending then visible + here else visible;
      assert visible' == visible;
      forall k, g | 0 <= k < |names[1..]| && Resolves(genres, names[1..][k], g)
        ensures MovieGenre(movieId, g) in visible
      {
        assert names[1..][k] == names[k + 1];
      }
      NothingMissingNothingAdded(movieId, names[1..], genres, visible, seePending);
      assert NewLinks(movieId, names, genres, visible, seePending) == here + NewLinks(movieId, names[1..], genres, visible', seePending);
    }
  }

  /** Over all movies: nothing missing, nothing added. */
  lemma {:induction false} NothingMissingNoLinks(movies: seq<Movie>, genres: seq<Genre>, visible: seq<MovieGenre>, seePending: bool)
    requires forall i, k, g :: 0 <= i < |movies| && 0 <= k < |GenreNames(movies[i].genre)|
                               && Resolves(genres, GenreNames(movies[i].genre)[k], g)
                               ==> MovieGenre(movies[i].movieId, g) in visible
    ensures PendingLinks(movies, genres, visible, seePending) == []
  {
    if |movies| > 0 {
      NothingMissingNothingAdded(movies[0].movieId, GenreNames(movies[0].genre), genres, visible, seePending);
      assert forall i :: 0 <= i < |movies[1..]| ==> movies[1..][i] == movies[i + 1];
      var here := NewLinks(movies[0].movieId, GenreNames(movies[0].genre), genres, visible, seePending);
      assert visible + here == visible;
      NothingMissingNoLinks(movies[1..], genres, visible, seePending);
    }
  }

  /** A second run over unchanged movies and genres adds nothing, in either variant. */
  lemma PopulateIdempotent(db: Db, seePending: bool)
    ensures Populate(Populate(db, seePending), seePending) == Populate(db, seePending)
  {
    var db' := Populate(db, seePending);
    forall i, k, g | 0 <= i < |db.movies| && 0 <= k < |GenreNames(db.movies[i].genre)|
                     && Resolves(db.genres, GenreNames(db.movies[i].genre)[k], g)
      ensures MovieGenre(db.movies[i].movieId, g) in db'.movieGenres
    {
      PendingLinksComplete(db.movies, db.genres, db.movieGenres, seePending, i, k, g);
    }
    NothingMissingNoLinks(db'.movies, db'.genres, db'.movieGenres, seePending);
    assert db'.movieGenres + [] == db'.movieGenres;
  }

  /** A movie whose genre string names the same genre twice, and that genre. */
  const DramaTwice: Movie := Movie(1, "M", Some("Drama, Drama"), None, None, None, None)
  const Dramas: seq<Genre> := [Genre(5, "Drama")]

  /**
   * The job as written adds the same link twice in one run: the second
   * "Drama" is checked against the committed links only.
   */
  lemma AsWrittenDuplicates()
    ensures var db := Db([], [DramaTwice], [], [], [], [], Dramas, [], 0, 2, 0, 0);
            PopulateMovieGenre(db).movieGenres == [MovieGenre(1, 5), MovieGenre(1, 5)]
  {
    var db := Db([], [DramaTwice], [], [], [], [], Dramas, [], 0, 2, 0, 0);
    AsWrittenDramaLinks();
    OneMovieLinks(DramaTwice, false);
    assert PopulateMovieGenre(db).movieGenres == [] + PendingLinks([DramaTwice], Dramas, [], false);
  }

  /** Without the pending links visible, both names "Drama" add the link. */
  lemma AsWrittenDramaLinks()
    ensures NewLinks(1, ["Drama", "Drama"], Dramas, [], false) == [MovieGenre(1, 5), MovieGenre(1, 5)]
  {
    var names := ["Drama", "Drama"];
    var mg := MovieGenre(1, 5);
    DramaLink([]);
    assert names[1..] == ["Drama"];
    assert ["Drama"][1..] == [];
    NewLinksUnfold(1, ["Drama"], Dramas, [], false);
    assert NewLinks(1, ["Drama"], Dramas, [], false) == [mg] + [];
    NewLinksUnfold(1, names, Dramas, [], false);
  }

  /** "Drama, Drama" reads as two names "Drama". */
  lemma DramaNames()
    ensures GenreNames(DramaTwice.genre) == ["Drama", "Drama"]
  {
    assert Text.Join(["Drama", "Drama"], ", ") == "Drama, Drama";
    GenreNamesInvertJoin(["Drama", "Drama"]);
  }

  /** "Drama" resolves to genre 5, which a link table without it lacks. */
  lemma DramaLink(visible: seq<MovieGenre>)
    requires MovieGenre(1, 5) !in visible
    ensures LinkFor(1, "Drama", Dramas, visible) == [MovieGenre(1, 5)]
  {
    Text.NoEdgeSpaceStripIdentity("Drama");
    assert LookupGenre(Dramas, "Drama") == Some(Genre(5, "Drama"));
  }

  /** The same movie under the flushed job gets the link once. */
  lemma FlushedAddsOnce()
    ensures var db := Db([], [DramaTwice], [], [], [], [], Dramas, [], 0, 2, 0, 0);
            PopulateMovieGenreFlushed(db).movieGenres == [MovieGenre(1, 5)]
  {
    var db := Db([], [DramaTwice], [], [], [], [], Dramas, [], 0, 2, 0, 0);
    FirstDramaFlushed();
    SecondDramaSkipped();
    OneMovieLinks(DramaTwice, true);
    assert PopulateMovieGenreFlushed(db).movieGenres == [] + PendingLinks([DramaTwice], Dramas, [], true);
  }

  /** A run over the single movie `DramaTwice` adds exactly that movie's links. */
  lemma OneMovieLinks(movie: Movie, seePending: bool)
    requires movie == DramaTwice
    ensures PendingLinks([movie], Dramas, [], seePending) == NewLinks(1, ["Drama", "Drama"], Dramas, [], seePending)
  {
    DramaNames();
    PendingLinksUnfold([movie], Dramas, [], seePending);
    var here := NewLinks(1, ["Drama", "Drama"], Dramas, [], seePending);
    assert [movie][1..] == [];
    assert PendingLinks([], Dramas, if seePending then [] + here else [], seePending) == [];
    assert here + [] == here;
  }

  /** The first "Drama" adds the link, and the rest of the names then see it. */
  lemma FirstDramaFlushed()
    ensures NewLinks(1, ["Drama", "Drama"], Dramas, [], true)
            == [MovieGenre(1, 5)] + NewLinks(1, ["Drama"], Dramas, [MovieGenre(1, 5)], true)
  {
    DramaLink([]);
    assert [] + [MovieGenre(1, 5)] == [MovieGenre(1, 5)];
    assert ["Drama", "Drama"][1..] == ["Drama"];
  }

  /** Once the first link is visible, the second "Drama" adds nothing. */
  lemma SecondDramaSkipped()
    ensures NewLinks(1, ["Drama"], Dramas, [MovieGenre(1, 5)], true) == []
  {
    var mg := MovieGenre(1, 5);
    assert LinkFor(1, "Drama", Dramas, [mg]) == [] by {
      Text.NoEdgeSpaceStripIdentity("Drama");
      assert LookupGenre(Dramas, "Drama") == Some(Genre(5, "Drama"));
    }
    assert ["Drama"][1..] == [];
    assert NewLinks(1, [], Dramas, [mg] + [], true) == [];
  }

  /**
   * With the pending links visible, a run never adds a link twice nor one
   * that was already there: a duplicate-free table stays duplicate-free.
   */
  lemma FlushedKeepsLinksDistinct(db: Db)
    requires Distinct(db.movieGenres)
    ensures Distinct(PopulateMovieGenreFlushed(db).movieGenres)
  {
    var added := PendingLinks(db.movies, db.genres, db.movieGenres, true);
    PendingLinksDistinct(db.movies, db.genres, db.movieGenres);
    PendingLinksSound(db.movies, db.genres, db.movieGenres, true);
    assert forall j :: 0 <= j < |added| ==> added[j] !in db.movieGenres;
    assert PopulateMovieGenreFlushed(db).movieGenres == db.movieGenres + added;
    DistinctAfterStored(db.movieGenres, added);
  }

  /** Appending fresh, duplicate-free links to a duplicate-free table keeps it duplicate-free. */
  lemma DistinctAfterStored(a: seq<MovieGenre>, b: seq<MovieGenre>)
    requires Distinct(a) && Distinct(b)
    requires forall j :: 0 <= j < |b| ==> b[j] !in a
    ensures Distinct(a + b)
  {
    assert [] + a == a;
    DistinctAppend(a, b, []);
  }
}
