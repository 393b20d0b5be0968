/** Genre creation: a new genre whose name no genre has yet, up to case. */
module GenreCreateHandler {
  import opened Responses
  import opened MoviesDomain

  /** The request record, which the source declares under the handler's own name. */
  datatype GenreCreateRequest = GenreCreateRequest(name: string)

  const GenreCreated: string := "Genre created successfully"

  function GenreExistsMessage(name: string): string {
    "Genre with name '" + name + "' already exists"
  }

  /**
   * Refuses a name some genre already has up to case, changing nothing;
   * otherwise stores the genre, its name verbatim, under the next identity,
   * which now alone answers to that name.
   */
  method Handle(db: MoviesDb, request: GenreCreateRequest) returns (response: DataResponse)
    requires db.Valid()
    modifies db
    ensures db.Valid()
    ensures db.movies == old(db.movies) && db.directors == old(db.directors) && db.movieGenres == old(db.movieGenres)
    ensures GenresNamed(old(db.genres), request.name) != {} ==>
              && response == DataResponse(false, GenreExistsMessage(request.name), 0)
              && db.genres == old(db.genres) && db.nextId == old(db.nextId)
    ensures GenresNamed(old(db.genres), request.name) == {} ==>
              var id := old(db.nextId);
              && id !in old(db.genres)
              && response == DataResponse(true, GenreCreated, id)
              && db.genres == old(db.genres)[id := Genre(id, request.name)]
              && GenresNamed(db.genres, request.name) == {id}
              && db.nextId == id + 1
  {
    if GenresNamed(db.genres, request.name) != {} {
      response := DataResponse(false, GenreExistsMessage(request.name), 0);
    } else {
      var id := db.nextId;
      db.AddGenre(Genre(id, request.name));
      response := DataResponse(true, GenreCreated, id);
    }
  }
}
