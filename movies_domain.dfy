/**
 * The movies service's entities and its database: movies, directors,
 * genres and the movie-genre join table, with the integrity the handlers
 * maintain. Release dates are whole seconds from `DateTime.MinValue`.
 */
module MoviesDomain {
  import opened Wrappers
  import opened Text
  import opened Linq
  import opened DbOperations
  import opened JoinTable

  /** `TotalRevenue` is a `decimal` the handlers only copy. */
  datatype Movie = Movie(id: int, name: string, releaseDate: Option<int>, totalRevenue: real, directorId: int)

  datatype Director = Director(id: int, name: string, surname: string, isRetired: bool)

  datatype Genre = Genre(id: int, name: string)

  /** The genres whose name equals `name` up to case (`g.Name.ToLower() == name.ToLower()`). */
  function GenresNamed(genres: map<int, Genre>, name: string): (r: set<int>)
    ensures forall id :: id in r <==> id in genres && ToLower(genres[id].name) == ToLower(name)
  {
    set id | id in genres && ToLower(genres[id].name) == ToLower(name)
  }

  /** No two genres have the same name up to case. */
  ghost predicate UniqueGenreNames(genres: map<int, Genre>) {
    forall a, b {:trigger ToLower(genres[a].name), ToLower(genres[b].name)} ::
      a in genres && b in genres && ToLower(genres[a].name) == ToLower(genres[b].name) ==> a == b
  }

  /** Movies are keyed by their ids, below `nextId`, and name existing directors. */
  ghost predicate MoviesValid(movies: map<int, Movie>, directors: map<int, Director>, nextId: int) {
    forall id :: id in movies ==> movies[id].id == id && id < nextId && movies[id].directorId in directors
  }

  ghost predicate DirectorsValid(directors: map<int, Director>, nextId: int) {
    forall id :: id in directors ==> directors[id].id == id && id < nextId
  }

  /** Genres are keyed by their ids, below `nextId`, with names distinct up to case. */
  ghost predicate GenresValid(genres: map<int, Genre>, nextId: int) {
    && (forall id :: id in genres ==> genres[id].id == id && id < nextId)
    && UniqueGenreNames(genres)
  }

  /** Storing a genre whose name no other genre has up to case keeps the names distinct, and the name is now its own. */
  lemma PutGenreValid(genres: map<int, Genre>, nextId: int, genre: Genre)
    requires GenresValid(genres, nextId)
    requires genre.id < nextId && GenresNamed(genres, genre.name) <= {genre.id}
    ensures GenresValid(genres[genre.id := genre], nextId)
    ensures GenresNamed(genres[genre.id := genre], genre.name) == {genre.id}
  {
    var r := genres[genre.id := genre];
    forall a, b | a in r && b in r && ToLower(r[a].name) == ToLower(r[b].name)
      ensures a == b
    {
      if a != genre.id && b != genre.id {
        assert genres[a].name == r[a].name && genres[b].name == r[b].name;
      }
    }
  }

  ghost predicate TablesValid(movies: map<int, Movie>, directors: map<int, Director>, genres: map<int, Genre>,
                              movieGenres: map<int, Link>, nextId: int) {
    && MoviesValid(movies, directors, nextId)
    && DirectorsValid(directors, nextId)
    && GenresValid(genres, nextId)
    && LinksWithin(movieGenres, movies.Keys, genres.Keys, nextId)
  }

  /** The movies service's tables. `MovieGenre` rows link a movie (owner) to a genre (target). */
  class MoviesDb {
    var movies: map<int, Movie>
    var directors: map<int, Director>
    var genres: map<int, Genre>
    var movieGenres: map<int, Link>
    /** The next identity the database hands out. */
    var nextId: int

    /**
     * Every row is keyed by its id and below `nextId`; movies name existing
     * directors, genres have names distinct up to case, and every
     * `MovieGenre` row links an existing movie to an existing genre.
     */
    ghost predicate Valid()
      reads this
    {
      TablesValid(movies, directors, genres, movieGenres, nextId)
    }

    constructor ()
      ensures Valid()
      ensures movies == map[] && directors == map[] && genres == map[] && movieGenres == map[]
    {
      movies, directors, genres, movieGenres := map[], map[], map[], map[];
      nextId := 1;
    }

    /** Stores a movie of an existing director under the next identity. */
    method AddMovie(movie: Movie)
      requires Valid()
      requires movie.id == nextId && movie.directorId in directors
      modifies this
      ensures Valid()
      ensures movies == old(movies)[movie.id := movie] && nextId == old(nextId) + 1
      ensures directors == old(directors) && genres == old(genres) && movieGenres == old(movieGenres)
      ensures Targets(movieGenres, movie.id) == {}
    {
      LinksOutside(movieGenres, movies.Keys, genres.Keys, nextId, movie.id);
      movies := Add(movies, nextId, movie);
      nextId := nextId + 1;
    }

    /** Replaces a stored movie by a record with the same id and an existing director. */
    method UpdateMovie(movie: Movie)
      requires Valid()
      requires movie.id in movies && movie.directorId in directors
      modifies this
      ensures Valid()
      ensures movies == old(movies)[movie.id := movie]
      ensures directors == old(directors) && genres == old(genres) && movieGenres == old(movieGenres) && nextId == old(nextId)
    {
      movies := Update(movies, movie.id, movie);
    }

    /** Deletes a movie that no longer has `MovieGenre` rows. */
    method RemoveMovie(id: int)
      requires Valid()
      requires id in movies && RowsOf(movieGenres, id) == {}
      modifies this
      ensures Valid()
      ensures movies == old(movies) - {id}
      ensures directors == old(directors) && genres == old(genres) && movieGenres == old(movieGenres) && nextId == old(nextId)
    {
      forall k | k in movieGenres
        ensures movieGenres[k].owner != id
      {
        assert k !in RowsOf(movieGenres, id);
      }
      var (_, rest) := Delete(movies, id);
      movies := rest;
    }

    /** Deletes a director no movie has. */
    method RemoveDirector(id: int)
      requires Valid()
      requires id in directors && forall m :: m in movies ==> movies[m].directorId != id
      modifies this
      ensures Valid()
      ensures directors == old(directors) - {id}
      ensures movies == old(movies) && genres == old(genres) && movieGenres == old(movieGenres) && nextId == old(nextId)
    {
      var (_, rest) := Delete(directors, id);
      directors := rest;
    }

    /** Stores a genre, whose name no other genre has up to case, under the next identity. */
    method AddGenre(genre: Genre)
      requires Valid()
      requires genre.id == nextId && GenresNamed(genres, genre.name) == {}
      modifies this
      ensures Valid()
      ensures genres == old(genres)[genre.id := genre] && nextId == old(nextId) + 1
      ensures GenresNamed(genres, genre.name) == {genre.id}
      ensures movies == old(movies) && directors == old(directors) && movieGenres == old(movieGenres)
    {
      PutGenreValid(genres, nextId + 1, genre);
      genres := Add(genres, nextId, genre);
      nextId := nextId + 1;
    }

    /** Replaces a stored genre by a record with the same id and a name no other genre has up to case. */
    method UpdateGenre(genre: Genre)
      requires Valid()
      requires genre.id in genres && GenresNamed(genres, genre.name) <= {genre.id}
      modifies this
      ensures Valid()
      ensures genres == old(genres)[genre.id := genre]
      ensures GenresNamed(genres, genre.name) == {genre.id}
      ensures movies == old(movies) && directors == old(directors) && movieGenres == old(movieGenres) && nextId == old(nextId)
    {
      PutGenreValid(genres, nextId, genre);
      genres := Update(genres, genre.id, genre);
    }

    /** Deletes a genre no `MovieGenre` row links to. */
    method RemoveGenre(id: int)
      requires Valid()
      requires id in genres && forall k :: k in movieGenres ==> movieGenres[k].target != id
      modifies this
      ensures Valid()
      ensures genres == old(genres) - {id}
      ensures movies == old(movies) && directors == old(directors) && movieGenres == old(movieGenres) && nextId == old(nextId)
    {
      var (_, rest) := Delete(genres, id);
      genres := rest;
    }

    /** One `MovieGenre` row per genre id, in order, under the next identities. */
    method AddMovieGenres(movieId: int, genreIds: seq<int>)
      requires Valid()
      requires movieId in movies && Elements(genreIds) <= genres.Keys
      modifies this
      ensures Valid()
      ensures movies == old(movies) && directors == old(directors) && genres == old(genres)
      ensures movieGenres == WithLinks(old(movieGenres), movieId, genreIds, old(nextId))
      ensures nextId == old(nextId) + |genreIds|
    {
      var i := 0;
      while i < |genreIds|
        invariant 0 <= i <= |genreIds|
        invariant movieGenres == WithLinks(old(movieGenres), movieId, genreIds[..i], old(nextId))
        invariant nextId == old(nextId) + i
        invariant movies == old(movies) && directors == old(directors) && genres == old(genres)
      {
        assert genreIds[..i + 1][..i] == genreIds[..i];
        WithLinksShape(old(movieGenres), movieId, genreIds[..i], old(nextId));
        movieGenres := Add(movieGenres, nextId, Link(movieId, genreIds[i]));
        nextId := nextId + 1;
        i := i + 1;
      }
      assert genreIds[..i] == genreIds;
      WithLinksWithin(old(movieGenres), movieId, genreIds, old(nextId), movies.Keys, genres.Keys);
    }

    /** Deletes the given `MovieGenre` rows one by one. */
    method RemoveMovieGenres(rows: set<int>)
      requires Valid()
      requires rows <= movieGenres.Keys
      modifies this
      ensures Valid()
      ensures movies == old(movies) && directors == old(directors) && genres == old(genres) && nextId == old(nextId)
      ensures movieGenres == old(movieGenres) - rows
    {
      var pending := rows;
      while exists k :: k in pending
        invariant pending <= rows
        invariant movieGenres == old(movieGenres) - (rows - pending)
        invariant movies == old(movies) && directors == old(directors) && genres == old(genres) && nextId == old(nextId)
        decreases |pending|
      {
        var k :| k in pending;
        var (_, rest) := Delete(movieGenres, k);
        movieGenres := rest;
        pending := pending - {k};
      }
    }
  }
}
