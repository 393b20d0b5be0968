/**
 * Movie update: the fields of an existing movie are replaced and its genre
 * links are brought in line with the request.
 */
module MovieUpdateHandler {
  import opened Wrappers
  import opened Linq
  import opened Responses
  import opened JoinTable
  import opened MoviesDomain
  import opened MoviesMessages

  datatype MovieUpdateRequest = MovieUpdateRequest(
    id: int,
    name: string,
    releaseDate: Option<int>,
    totalRevenue: real,
    directorId: int,
    genreIds: seq<int>)

  const MovieUpdated: string := "Movie updated successfully"

  /**
   * Why the request is refused, checked in this order: the movie does not
   * exist, the director does not exist, some genres do not exist; none
   * when it is accepted.
   */
  function Refusal(movies: map<int, Movie>, directors: map<int, Director>, genres: map<int, Genre>,
                   request: MovieUpdateRequest): (r: Option<string>)
    ensures r.None? <==> request.id in movies && request.directorId in directors && Elements(request.genreIds) <= genres.Keys
    ensures request.id !in movies ==> r == Some(MovieNotFoundMessage(request.id))
    ensures request.id in movies && request.directorId !in directors ==> r == Some(DirectorNotFoundMessage(request.directorId))
    ensures request.id in movies && request.directorId in directors && r.Some? ==>
              var missing := Except(request.genreIds, genres.Keys);
              && r == Some(GenresNotFoundMessage(missing))
              && missing != []
              && (forall id :: id in missing <==> id in request.genreIds && id !in genres)
  {
    if request.id !in movies then Some(MovieNotFoundMessage(request.id))
    else if request.directorId !in directors then Some(DirectorNotFoundMessage(request.directorId))
    else
      var missing := Except(request.genreIds, genres.Keys);
      ExceptEmpty(request.genreIds, genres.Keys);
      if missing != [] then Some(GenresNotFoundMessage(missing)) else None
  }

  /** The movie with every field from the request; the id is kept. */
  function Updated(movie: Movie, request: MovieUpdateRequest): (r: Movie)
    ensures r.id == movie.id && r.name == request.name && r.releaseDate == request.releaseDate
    ensures r.totalRevenue == request.totalRevenue && r.directorId == request.directorId
  {
    movie.(name := request.name, releaseDate := request.releaseDate, totalRevenue := request.totalRevenue,
           directorId := request.directorId)
  }

  /**
   * Saves the updated movie, adds a link for each requested genre the movie
   * lacks, then deletes the links to genres no longer requested.
   */
  method Revise(db: MoviesDb, request: MovieUpdateRequest)
    requires db.Valid()
    requires request.id in db.movies && request.directorId in db.directors
    requires Elements(request.genreIds) <= db.genres.Keys
    modifies db
    ensures db.Valid()
    ensures db.directors == old(db.directors) && db.genres == old(db.genres)
    ensures db.movies == old(db.movies)[request.id := Updated(old(db.movies)[request.id], request)]
    ensures db.movieGenres == Reconcile(old(db.movieGenres), request.id, request.genreIds, old(db.nextId))
    ensures Targets(db.movieGenres, request.id) == Elements(request.genreIds)
    ensures forall o :: o != request.id ==> Targets(db.movieGenres, o) == Targets(old(db.movieGenres), o)
    ensures db.nextId == old(db.nextId) + |Except(request.genreIds, Targets(old(db.movieGenres), request.id))|
  {
    var links, start := db.movieGenres, db.nextId;
    db.UpdateMovie(Updated(db.movies[request.id], request));
    var added := Except(request.genreIds, Targets(links, request.id));
    db.AddMovieGenres(request.id, added);
    WithLinksShape(links, request.id, added, start);
    db.RemoveMovieGenres(StaleRows(links, request.id, request.genreIds));
    ReconcileTargets(links, request.id, request.genreIds, start);
  }

  /**
   * A refused request changes nothing. An accepted one updates the movie
   * and leaves it linked to exactly the requested genres; the links of other
   * movies keep their genres.
   */
  method Handle(db: MoviesDb, request: MovieUpdateRequest) returns (response: Response)
    requires db.Valid()
    modifies db
    ensures db.Valid()
    ensures db.directors == old(db.directors) && db.genres == old(db.genres)
    ensures Refusal(old(db.movies), old(db.directors), old(db.genres), request).Some? ==>
              && response == Response(false, Refusal(old(db.movies), old(db.directors), old(db.genres), request).value)
              && db.movies == old(db.movies) && db.movieGenres == old(db.movieGenres) && db.nextId == old(db.nextId)
    ensures Refusal(old(db.movies), old(db.directors), old(db.genres), request).None? ==>
              && response == Response(true, MovieUpdated)
              && db.movies == old(db.movies)[request.id := Updated(old(db.movies)[request.id], request)]
              && db.movieGenres == Reconcile(old(db.movieGenres), request.id, request.genreIds, old(db.nextId))
              && Targets(db.movieGenres, request.id) == Elements(request.genreIds)
              && (forall o :: o != request.id ==> Targets(db.movieGenres, o) == Targets(old(db.movieGenres), o))
  {
    var refusal := Refusal(db.movies, db.directors, db.genres, request);
    if refusal.Some? {
      response := Response(false, refusal.value);
    } else {
      Revise(db, request);
      response := Response(true, MovieUpdated);
    }
  }
}
