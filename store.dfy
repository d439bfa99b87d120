/**
 * The catalog's tables as one in-memory store, with every statement the
 * repositories write: the insert, update and delete of src/lib/actors.ts,
 * src/lib/genres.ts and src/lib/movies.ts. Each method runs one statement;
 * a statement the engine refuses changes nothing and reports the error the
 * engine raises. `Valid` holds before and after every statement: the rows
 * always meet the schema's constraints.
 */
module Store {
  import opened Common
  import opened Db
  import Actors
  import Movies
  import Genres

  class Catalog {
    var genres: map<nat, Genre>
    var movies: map<nat, Movie>
    var actors: map<nat, Actor>
    var characters: map<CharacterKey, MovieCharacter>

    /** The AUTO_INCREMENT counters: the id the next insert into each table gets. */
    var nextGenreId: nat
    var nextMovieId: nat
    var nextActorId: nat

    /** The tables as a value, for the queries. */
    function Snapshot(): Tables
      reads this
    {
      Tables(genres, movies, actors, characters)
    }

    /** The constraints hold and every id in use was handed out by its counter, starting at 1. */
    ghost predicate Valid()
      reads this
    {
      && Consistent(Snapshot())
      && (forall id :: id in genres ==> 1 <= id < nextGenreId)
      && (forall id :: id in movies ==> 1 <= id < nextMovieId)
      && (forall id :: id in actors ==> 1 <= id < nextActorId)
      && nextGenreId >= 1 && nextMovieId >= 1 && nextActorId >= 1
    }

    /** Empty tables, as the migrations leave them. */
    constructor ()
      ensures Valid()
      ensures Snapshot() == Tables(map[], map[], map[], map[])
    {
      genres, movies, actors, characters := map[], map[], map[], map[];
      nextGenreId, nextMovieId, nextActorId := 1, 1, 1;
    }

    // ----- src/lib/actors.ts -----

    /** DELETE FROM actor WHERE id: true iff the row existed; its character rows go with it. */
    method RemoveActor(id: nat) returns (found: bool)
      requires Valid()
      modifies this
      ensures Valid()
      ensures found <==> id in old(actors)
      ensures Snapshot() == DeleteActor(old(Snapshot()), id)
      ensures !found ==> Snapshot() == old(Snapshot())
      ensures Actors.Find(Snapshot(), id) == None
      ensures forall a :: a != id ==> Actors.Find(Snapshot(), a) == Actors.Find(old(Snapshot()), a)
      ensures nextGenreId == old(nextGenreId) && nextMovieId == old(nextMovieId) && nextActorId == old(nextActorId)
    {
      DeleteActorKeepsConstraints(Snapshot(), id);
      found := id in actors;
      if !found {
        DeleteMissingActor(Snapshot(), id);
      }
      var after := DeleteActor(Snapshot(), id);
      actors, characters := after.actors, after.characters;
    }

    /** INSERT INTO actor: one new row with these fields, under a fresh id that is returned. */
    method CreateActor(name: string, bio: string, bornAt: Date) returns (id: nat)
      requires Valid()
      modifies this
      ensures Valid()
      ensures id >= 1 && id !in old(actors)
      ensures actors == old(actors)[id := Actor(id, name, bio, bornAt)]
      ensures genres == old(genres) && movies == old(movies) && characters == old(characters)
      ensures Actors.Find(Snapshot(), id) == Some(Actor(id, name, bio, bornAt))
      ensures nextGenreId == old(nextGenreId) && nextMovieId == old(nextMovieId) && nextActorId == id + 1
    {
      id := nextActorId;
      actors := actors[id := Actor(id, name, bio, bornAt)];
      nextActorId := nextActorId + 1;
    }

    /** UPDATE actor SET name, bio, bornAt WHERE id: true iff the row exists; only it changes. */
    method UpdateActor(id: nat, name: string, bio: string, bornAt: Date) returns (found: bool)
      requires Valid()
      modifies this
      ensures Valid()
      ensures found <==> id in old(actors)
      ensures actors == if found then old(actors)[id := Actor(id, name, bio, bornAt)] else old(actors)
      ensures genres == old(genres) && movies == old(movies) && characters == old(characters)
      ensures nextGenreId == old(nextGenreId) && nextMovieId == old(nextMovieId) && nextActorId == old(nextActorId)
    {
      found := id in actors;
      if found {
        actors := actors[id := Actor(id, name, bio, bornAt)];
      }
    }

    // ----- src/lib/genres.ts -----

    /**
     * DELETE FROM genre WHERE id: false when no such row; refused with
     * ER_ROW_IS_REFERENCED_2 while a movie refers to it (the foreign key has
     * no ON DELETE action); otherwise true, and only that row goes.
     */
    method RemoveGenre(id: nat) returns (r: Result<bool, DbError>)
      requires Valid()
      modifies this
      ensures Valid()
      ensures id !in old(genres) ==> r == Success(false)
      ensures id in old(genres) ==> (r == Failure(Raise(RowIsReferenced)) <==> GenreReferenced(old(Snapshot()), id))
      ensures id in old(genres) && !GenreReferenced(old(Snapshot()), id) ==> r == Success(true)
      ensures r.Success? || r == Failure(Raise(RowIsReferenced))
      ensures genres == if r == Success(true) then old(genres) - {id} else old(genres)
      ensures movies == old(movies) && actors == old(actors) && characters == old(characters)
      ensures nextGenreId == old(nextGenreId) && nextMovieId == old(nextMovieId) && nextActorId == old(nextActorId)
    {
      if id !in genres {
        r := Success(false);
      } else if GenreReferenced(Snapshot(), id) {
        r := Failure(Raise(RowIsReferenced));
      } else {
        GenreDeleteKeepsConstraints(Snapshot(), id);
        genres := genres - {id};
        r := Success(true);
      }
    }

    /** INSERT INTO genre: one new row with this name, under a fresh id that is returned. */
    method CreateGenre(name: string) returns (id: nat)
      requires Valid()
      modifies this
      ensures Valid()
      ensures id >= 1 && id !in old(genres)
      ensures genres == old(genres)[id := Genre(id, name)]
      ensures movies == old(movies) && actors == old(actors) && characters == old(characters)
      ensures Genres.Find(Snapshot(), id) == Some(Genre(id, name))
      ensures nextGenreId == id + 1 && nextMovieId == old(nextMovieId) && nextActorId == old(nextActorId)
    {
      id := nextGenreId;
      genres := genres[id := Genre(id, name)];
      nextGenreId := nextGenreId + 1;
    }

    /** UPDATE genre SET name WHERE id: true iff the row exists; only its name changes. */
    method UpdateGenre(id: nat, name: string) returns (found: bool)
      requires Valid()
      modifies this
      ensures Valid()
      ensures found <==> id in old(genres)
      ensures genres == if found then old(genres)[id := Genre(id, name)] else old(genres)
      ensures movies == old(movies) && actors == old(actors) && characters == old(characters)
      ensures nextGenreId == old(nextGenreId) && nextMovieId == old(nextMovieId) && nextActorId == old(nextActorId)
    {
      found := id in genres;
      if found {
        genres := genres[id := Genre(id, name)];
      }
    }

    // ----- src/lib/movies.ts -----

    /** DELETE FROM movie WHERE id: true iff the row existed; its character rows go with it. */
    method RemoveMovie(id: nat) returns (found: bool)
      requires Valid()
      modifies this
      ensures Valid()
      ensures found <==> id in old(movies)
      ensures Snapshot() == DeleteMovie(old(Snapshot()), id)
      ensures !found ==> Snapshot() == old(Snapshot())
      ensures Movies.Find(Snapshot(), id) == None
      ensures Movies.ListMoviesCharacters(Snapshot(), id) == []
      ensures nextGenreId == old(nextGenreId) && nextMovieId == old(nextMovieId) && nextActorId == old(nextActorId)
    {
      DeleteMovieKeepsConstraints(Snapshot(), id);
      Movies.DeleteMovieForgetsMovie(Snapshot(), id);
      found := id in movies;
      if !found {
        DeleteMissingMovie(Snapshot(), id);
      }
      var after := DeleteMovie(Snapshot(), id);
      movies, characters := after.movies, after.characters;
    }

    /**
     * INSERT INTO movie: refused with ER_DUP_ENTRY when another movie has
     * the name, else with ER_NO_REFERENCED_ROW_2 when the genre does not
     * exist; otherwise one new row under a fresh id that is returned.
     */
    method CreateMovie(name: string, releasedAt: Date, runtime: int, genreId: nat, synopsis: Option<string>)
      returns (r: Result<nat, DbError>)
      requires Valid()
      modifies this
      ensures Valid()
      ensures var err := MovieWriteError(old(Snapshot()), None, name, Some(genreId));
              && (err.Some? ==> r == Failure(err.value) && Snapshot() == old(Snapshot()))
              && (err.None? ==> r.Success? && r.value >= 1 && r.value !in old(movies)
                                && movies == old(movies)[r.value := Movie(r.value, name, synopsis, releasedAt, runtime, Some(genreId))])
      ensures genres == old(genres) && actors == old(actors) && characters == old(characters)
      ensures r.Success? ==>
                Movies.Find(Snapshot(), r.value) == Some(Movie(r.value, name, synopsis, releasedAt, runtime, Some(genreId)))
      ensures r.Success? ==> r.value == old(nextMovieId)
      ensures nextMovieId == if r.Success? then old(nextMovieId) + 1 else old(nextMovieId)
      ensures nextGenreId == old(nextGenreId) && nextActorId == old(nextActorId)
    {
      var err := MovieWriteError(Snapshot(), None, name, Some(genreId));
      if err.Some? {
        r := Failure(err.value);
      } else {
        var id := nextMovieId;
        var row := Movie(id, name, synopsis, releasedAt, runtime, Some(genreId));
        MovieWriteKeepsConstraints(Snapshot(), row);
        movies := movies[id := row];
        nextMovieId := nextMovieId + 1;
        r := Success(id);
      }
    }

    /**
     * UPDATE movie SET its fields WHERE id: false when no such row;
     * refused like an insert when the new name is another movie's or the
     * genre does not exist; otherwise true, and only that row changes. An
     * absent synopsis is left out of the SET list, so the row keeps its own.
     */
    method UpdateMovie(id: nat, name: string, releasedAt: Date, runtime: int, genreId: nat, synopsis: Option<string>)
      returns (r: Result<bool, DbError>)
      requires Valid()
      modifies this
      ensures Valid()
      ensures id !in old(movies) ==> r == Success(false) && Snapshot() == old(Snapshot())
      ensures id in old(movies) ==>
                var err := MovieWriteError(old(Snapshot()), Some(id), name, Some(genreId));
                && (err.Some? ==> r == Failure(err.value) && Snapshot() == old(Snapshot()))
                && (err.None? ==> r == Success(true)
                                  && movies == old(movies)[id := Movie(id, name, if synopsis.Some? then synopsis else old(movies)[id].synopsis,
                                                                       releasedAt, runtime, Some(genreId))])
      ensures genres == old(genres) && actors == old(actors) && characters == old(characters)
      ensures nextGenreId == old(nextGenreId) && nextMovieId == old(nextMovieId) && nextActorId == old(nextActorId)
    {
      if id !in movies {
        r := Success(false);
      } else {
        var err := MovieWriteError(Snapshot(), Some(id), name, Some(genreId));
        if err.Some? {
          r := Failure(err.value);
        } else {
          var kept := if synopsis.Some? then synopsis else movies[id].synopsis;
          var row := Movie(id, name, kept, releasedAt, runtime, Some(genreId));
          MovieWriteKeepsConstraints(Snapshot(), row);
          movies := movies[id := row];
          r := Success(true);
        }
      }
    }

    /**
     * INSERT INTO movie_character: refused with ER_DUP_ENTRY when the pair
     * already has a row (whose name is left as it was), or with
     * ER_NO_REFERENCED_ROW_2 when the movie or the actor does not exist;
     * otherwise the row (movieId, actorId, name) is added.
     */
    method AddMovieCharacter(movieId: nat, actorId: nat, name: string) returns (r: Result<(), DbError>)
      requires Valid()
      modifies this
      ensures Valid()
      ensures var err := CharacterInsertError(old(Snapshot()), CharacterKey(movieId, actorId));
              && (err.Some? ==> r == Failure(err.value) && Snapshot() == old(Snapshot()))
              && (err.None? ==> r.Success?
                                && characters == old(characters)[CharacterKey(movieId, actorId) := MovieCharacter(movieId, actorId, Some(name))])
      ensures CharacterKey(movieId, actorId) in old(characters) ==>
                r == Failure(Raise(DupEntry)) && characters == old(characters)
      ensures genres == old(genres) && movies == old(movies) && actors == old(actors)
      ensures nextGenreId == old(nextGenreId) && nextMovieId == old(nextMovieId) && nextActorId == old(nextActorId)
    {
      var key := CharacterKey(movieId, actorId);
      var err := CharacterInsertError(Snapshot(), key);
      if err.Some? {
        r := Failure(err.value);
      } else {
        var row := MovieCharacter(movieId, actorId, Some(name));
        CharacterInsertKeepsConstraints(Snapshot(), row);
        characters := characters[key := row];
        r := Success(());
      }
    }

    /** UPDATE movie_character SET name WHERE movieId AND actorId: true iff the row exists; only its name changes. */
    method UpdateMovieCharacter(movieId: nat, actorId: nat, name: string) returns (found: bool)
      requires Valid()
      modifies this
      ensures Valid()
      ensures found <==> CharacterKey(movieId, actorId) in old(characters)
      ensures characters == if found
                            then old(characters)[CharacterKey(movieId, actorId) := MovieCharacter(movieId, actorId, Some(name))]
                            else old(characters)
      ensures genres == old(genres) && movies == old(movies) && actors == old(actors)
      ensures nextGenreId == old(nextGenreId) && nextMovieId == old(nextMovieId) && nextActorId == old(nextActorId)
    {
      var key := CharacterKey(movieId, actorId);
      found := key in characters;
      if found {
        characters := characters[key := MovieCharacter(movieId, actorId, Some(name))];
      }
    }

    /** DELETE FROM movie_character WHERE movieId AND actorId: true iff the row existed; only it goes. */
    method RemoveMovieCharacter(movieId: nat, actorId: nat) returns (found: bool)
      requires Valid()
      modifies this
      ensures Valid()
      ensures found <==> CharacterKey(movieId, actorId) in old(characters)
      ensures characters == old(characters) - {CharacterKey(movieId, actorId)}
      ensures genres == old(genres) && movies == old(movies) && actors == old(actors)
      ensures nextGenreId == old(nextGenreId) && nextMovieId == old(nextMovieId) && nextActorId == old(nextActorId)
    {
      var key := CharacterKey(movieId, actorId);
      found := key in characters;
      characters := characters - {key};
    }
  }
}
