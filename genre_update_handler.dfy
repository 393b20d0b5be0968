/** Genre renaming: an existing genre takes a name no other genre has, up to case. */
module GenreUpdateHandler {
  import opened Text
  import opened Responses
  import opened MoviesDomain
  import opened MoviesMessages

  datatype GenreUpdateRequest = GenreUpdateRequest(id: int, name: string)

  const GenreUpdated: string := "Genre updated successfully"

  function AnotherGenreExistsMessage(name: string): string {
    "Another genre with name '" + name + "' already exists"
  }

  /** A genre may be renamed to its own name in another letter case: no other genre has that name. */
  lemma RenameCaseOnly(genres: map<int, Genre>, id: int, name: string)
    requires UniqueGenreNames(genres) && id in genres
    requires ToLower(name) == ToLower(genres[id].name)
    ensures GenresNamed(genres, name) == {id}
  {
    assert id in GenresNamed(genres, name);
    forall x | x in GenresNamed(genres, name)
      ensures x == id
    {
      assert ToLower(genres[x].name) == ToLower(genres[id].name);
    }
  }

  /**
   * Refuses an unknown id, then a name another genre has up to case,
   * changing nothing; otherwise renames the genre, which then alone answers
   * to the name.
   */
  method Handle(db: MoviesDb, request: GenreUpdateRequest) returns (response: Response)
    requires db.Valid()
    modifies db
    ensures db.Valid()
    ensures db.movies == old(db.movies) && db.directors == old(db.directors) && db.movieGenres == old(db.movieGenres)
    ensures db.nextId == old(db.nextId)
    ensures request.id !in old(db.genres) ==>
              response == Response(false, GenreNotFoundMessage(request.id)) && db.genres == old(db.genres)
    ensures request.id in old(db.genres) && GenresNamed(old(db.genres), request.name) - {request.id} != {} ==>
              response == Response(false, AnotherGenreExistsMessage(request.name)) && db.genres == old(db.genres)
    ensures request.id in old(db.genres) && GenresNamed(old(db.genres), request.name) <= {request.id} ==>
              && response == Response(true, GenreUpdated)
              && db.genres == old(db.genres)[request.id := Genre(request.id, request.name)]
              && GenresNamed(db.genres, request.name) == {request.id}
  {
    if request.id !in db.genres {
      response := Response(false, GenreNotFoundMessage(request.id));
    } else if GenresNamed(db.genres, request.name) - {request.id} != {} {
      response := Response(false, AnotherGenreExistsMessage(request.name));
    } else {
      db.UpdateGenre(db.genres[request.id].(name := request.name));
      response := Response(true, GenreUpdated);
    }
  }
}
