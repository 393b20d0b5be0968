/**
 * Movie creation: a movie of an existing director, linked to each requested
 * existing genre.
 */
module MovieCreateHandler {
  import opened Wrappers
  import opened Linq
  import opened Responses
  import opened JoinTable
  import opened MoviesDomain
  import opened MoviesMessages

  datatype MovieCreateRequest = MovieCreateRequest(
    name: string,
    releaseDate: Option<int>,
    totalRevenue: real,
    directorId: int,
    genreIds: seq<int>)

  const MovieCreated: string := "Movie created successfully"

  /**
   * Why the request is refused, checked in this order: the director does
   * not exist, some genres do not exist (each missing id listed once, in
   * request order); none when it is accepted.
   */
  function Refusal(directors: map<int, Director>, genres: map<int, Genre>, request: MovieCreateRequest): (r: Option<string>)
    ensures r.None? <==> request.directorId in directors && Elements(request.genreIds) <= genres.Keys
    ensures request.directorId !in directors ==> r == Some(DirectorNotFoundMessage(request.directorId))
    ensures request.directorId in directors && r.Some? ==>
              var missing := Except(request.genreIds, genres.Keys);
              && r == Some(GenresNotFoundMessage(missing))
              && missing != []
              && (forall id :: id in missing <==> id in request.genreIds && id !in genres)
  {
    if request.directorId !in directors then Some(DirectorNotFoundMessage(request.directorId))
    else
      var missing := Except(request.genreIds, genres.Keys);
      ExceptEmpty(request.genreIds, genres.Keys);
      if missing != [] then Some(GenresNotFoundMessage(missing)) else None
  }

  /** The stored movie: every field from the request. */
  function NewMovie(id: int, request: MovieCreateRequest): (movie: Movie)
    ensures movie.id == id && movie.name == request.name && movie.releaseDate == request.releaseDate
    ensures movie.totalRevenue == request.totalRevenue && movie.directorId == request.directorId
  {
    Movie(id, request.name, request.releaseDate, request.totalRevenue, request.directorId)
  }

  /**
   * Stores an accepted movie under the next identity, then one `MovieGenre`
   * row per requested genre id, repetitions included.
   */
  method Register(db: MoviesDb, request: MovieCreateRequest) returns (id: int)
    requires db.Valid()
    requires request.directorId in db.directors && Elements(request.genreIds) <= db.genres.Keys
    modifies db
    ensures db.Valid()
    ensures db.directors == old(db.directors) && db.genres == old(db.genres)
    ensures id == old(db.nextId) && id !in old(db.movies)
    ensures db.movies == old(db.movies)[id := NewMovie(id, request)]
    ensures db.movieGenres == WithLinks(old(db.movieGenres), id, request.genreIds, id + 1)
    ensures Targets(db.movieGenres, id) == Elements(request.genreIds)
    ensures db.nextId == id + 1 + |request.genreIds|
  {
    var links := db.movieGenres;
    id := db.nextId;
    db.AddMovie(NewMovie(id, request));
    WithLinksTargets(links, id, request.genreIds, id + 1);
    db.AddMovieGenres(id, request.genreIds);
  }

  /**
   * A refused request changes nothing and carries id 0. An accepted one is
   * registered and answered with the new movie's id.
   */
  method Handle(db: MoviesDb, request: MovieCreateRequest) returns (response: DataResponse)
    requires db.Valid()
    modifies db
    ensures db.Valid()
    ensures db.directors == old(db.directors) && db.genres == old(db.genres)
    ensures Refusal(old(db.directors), old(db.genres), request).Some? ==>
              && response == DataResponse(false, Refusal(old(db.directors), old(db.genres), request).value, 0)
              && db.movies == old(db.movies) && db.movieGenres == old(db.movieGenres) && db.nextId == old(db.nextId)
    ensures Refusal(old(db.directors), old(db.genres), request).None? ==>
              var id := old(db.nextId);
              && id !in old(db.movies)
              && response == DataResponse(true, MovieCreated, id)
              && db.movies == old(db.movies)[id := NewMovie(id, request)]
              && db.movieGenres == WithLinks(old(db.movieGenres), id, request.genreIds, id + 1)
              && Targets(db.movieGenres, id) == Elements(request.genreIds)
              && db.nextId == id + 1 + |request.genreIds|
  {
    var refusal := Refusal(db.directors, db.genres, request);
    if refusal.Some? {
      response := DataResponse(false, refusal.value, 0);
    } else {
      var id := Register(db, request);
      response := DataResponse(true, MovieCreated, id);
    }
  }
}
