/** Director deletion, refused while some movie has the director. */
module DirectorDeleteHandler {
  import opened Responses
  import opened MoviesDomain
  import opened MoviesMessages

  /** The request record, which the source declares under the handler's own name. */
  datatype DirectorDeleteRequest = DirectorDeleteRequest(id: int)

  const DirectorDeleted: string := "Director deleted successfully"
  const DirectorInUseMessage: string := "Cannot delete director with associated movies. Remove or reassign the movies first."

  /** Some movie has the director (`Movies.Any(m => m.DirectorId == id)`). */
  predicate DirectorInUse(movies: map<int, Movie>, id: int) {
    exists m :: m in movies && movies[m].directorId == id
  }

  /**
   * Refuses an unknown id, then a director with movies, changing nothing;
   * otherwise deletes the director and nothing else.
   */
  method Handle(db: MoviesDb, request: DirectorDeleteRequest) returns (response: Response)
    requires db.Valid()
    modifies db
    ensures db.Valid()
    ensures db.movies == old(db.movies) && db.genres == old(db.genres) && db.movieGenres == old(db.movieGenres)
    ensures db.nextId == old(db.nextId)
    ensures request.id !in old(db.directors) ==>
              response == Response(false, DirectorNotFoundMessage(request.id)) && db.directors == old(db.directors)
    ensures request.id in old(db.directors) && DirectorInUse(old(db.movies), request.id) ==>
              response == Response(false, DirectorInUseMessage) && db.directors == old(db.directors)
    ensures request.id in old(db.directors) && !DirectorInUse(old(db.movies), request.id) ==>
              response == Response(true, DirectorDeleted) && db.directors == old(db.directors) - {request.id}
  {
    if request.id !in db.directors {
      response := Response(false, DirectorNotFoundMessage(request.id));
    } else if DirectorInUse(db.movies, request.id) {
      response := Response(false, DirectorInUseMessage);
    } else {
      db.RemoveDirector(request.id);
      response := Response(true, DirectorDeleted);
    }
  }
}
