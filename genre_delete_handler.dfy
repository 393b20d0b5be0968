/** Genre deletion, refused while some `MovieGenre` row links to the genre. */
module GenreDeleteHandler {
  import opened JoinTable
  import opened Responses
  import opened MoviesDomain
  import opened MoviesMessages

  /** The request record, which the source declares under the handler's own name. */
  datatype GenreDeleteRequest = GenreDeleteRequest(id: int)

  const GenreDeleted: string := "Genre deleted successfully"
  const GenreInUseMessage: string := "Cannot delete genre with associated movies. Remove the genre from those movies first."

  /** Some `MovieGenre` row links to the genre (`MovieGenres.Any(mg => mg.GenreId == id)`). */
  predicate GenreInUse(movieGenres: map<int, Link>, id: int) {
    exists k :: k in movieGenres && movieGenres[k].target == id
  }

  /**
   * Refuses an unknown id, then a genre in use, changing nothing; otherwise
   * deletes the genre and nothing else.
   */
  method Handle(db: MoviesDb, request: GenreDeleteRequest) returns (response: Response)
    requires db.Valid()
    modifies db
    ensures db.Valid()
    ensures db.movies == old(db.movies) && db.directors == old(db.directors) && db.movieGenres == old(db.movieGenres)
    ensures db.nextId == old(db.nextId)
    ensures request.id !in old(db.genres) ==>
              response == Response(false, GenreNotFoundMessage(request.id)) && db.genres == old(db.genres)
    ensures request.id in old(db.genres) && GenreInUse(old(db.movieGenres), request.id) ==>
              response == Response(false, GenreInUseMessage) && db.genres == old(db.genres)
    ensures request.id in old(db.genres) && !GenreInUse(old(db.movieGenres), request.id) ==>
              response == Response(true, GenreDeleted) && db.genres == old(db.genres) - {request.id}
  {
    if request.id !in db.genres {
      response := Response(false, GenreNotFoundMessage(request.id));
    } else if GenreInUse(db.movieGenres, request.id) {
      response := Response(false, GenreInUseMessage);
    } else {
      db.RemoveGenre(request.id);
      response := Response(true, GenreDeleted);
    }
  }
}
