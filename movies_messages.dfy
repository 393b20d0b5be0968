/** The refusal messages several movies-service handlers share. */
module MoviesMessages {
  import opened Text

  function MovieNotFoundMessage(id: int): string {
    "Movie with ID " + IntToString(id) + " not found"
  }

  function DirectorNotFoundMessage(id: int): string {
    "Director with ID " + IntToString(id) + " not found"
  }

  function GenreNotFoundMessage(id: int): string {
    "Genre with ID " + IntToString(id) + " not found"
  }

  /** `string.Join(", ", missing)` after the prefix. */
  function GenresNotFoundMessage(missing: seq<int>): string {
    "Genre IDs not found: " + JoinInts(missing)
  }
}
