/** Movie deletion: the movie's genre links go first, then the movie. */
module MovieDeleteHandler {
  import opened JoinTable
  import opened Responses
  import opened MoviesDomain
  import opened MoviesMessages

  const MovieDeleted: string := "Movie deleted successfully"

  /**
   * An unknown id changes nothing. Otherwise every `MovieGenre` row of the
   * movie is deleted, then the movie; no other row changes.
   */
  method Handle(db: MoviesDb, id: int) returns (response: Response)
    requires db.Valid()
    modifies db
    ensures db.Valid()
    ensures db.directors == old(db.directors) && db.genres == old(db.genres) && db.nextId == old(db.nextId)
    ensures id !in old(db.movies) ==>
              && response == Response(false, MovieNotFoundMessage(id))
              && db.movies == old(db.movies) && db.movieGenres == old(db.movieGenres)
    ensures id in old(db.movies) ==>
              && response == Response(true, MovieDeleted)
              && db.movies == old(db.movies) - {id}
              && db.movieGenres == WithoutOwner(old(db.movieGenres), id)
  {
    if id !in db.movies {
      response := Response(false, MovieNotFoundMessage(id));
    } else {
      db.RemoveMovieGenres(RowsOf(db.movieGenres, id));
      db.RemoveMovie(id);
      response := Response(true, MovieDeleted);
    }
  }
}
