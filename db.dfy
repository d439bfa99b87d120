/**
 * The catalog's relational state: the rows of the genre, movie, actor and
 * movie_character tables, and the constraints the two migrations declare
 * (the DDL of the genre and actor tables is not part of this model: they are
 * taken to have an auto-increment primary key `id` and nothing else).
 *
 * Each table is a map from its primary key to its row, so a primary key can
 * never be held twice; `Consistent` states what else the engine guarantees.
 * The functions at the end give the engine's verdict on a write: which
 * constraint, if any, makes it refuse the statement.
 */
module Db {
  import opened Common
  import Sql

  datatype Genre = Genre(id: nat, name: string)

  /** A movie row; `synopsis` and `genreId` are nullable columns. */
  datatype Movie = Movie(
    id: nat,
    name: string,
    synopsis: Option<string>,
    releasedAt: Date,
    runtime: int,
    genreId: Option<nat>)

  datatype Actor = Actor(id: nat, name: string, bio: string, bornAt: Date)

  /** The composite primary key (movieId, actorId) of movie_character. */
  datatype CharacterKey = CharacterKey(movieId: nat, actorId: nat)

  /** A movie_character row; `movieId` and `actorId` are NOT NULL, `name` is nullable. */
  datatype MovieCharacter = MovieCharacter(movieId: nat, actorId: nat, name: Option<string>)
  {
    function Key(): CharacterKey {
      CharacterKey(movieId, actorId)
    }
  }

  datatype Tables = Tables(
    genres: map<nat, Genre>,
    movies: map<nat, Movie>,
    actors: map<nat, Actor>,
    characters: map<CharacterKey, MovieCharacter>)

  /** Every row is stored under its own primary key. */
  ghost predicate KeyedByPrimaryKey(t: Tables) {
    && (forall id :: id in t.genres ==> t.genres[id].id == id)
    && (forall id :: id in t.movies ==> t.movies[id].id == id)
    && (forall id :: id in t.actors ==> t.actors[id].id == id)
    && (forall k :: k in t.characters ==> t.characters[k].Key() == k)
  }

  /** UNIQUE KEY (name) on movie: the unique key of `Migrations.MovieDef`. */
  ghost predicate MovieNamesUnique(t: Tables) {
    forall i, j :: i in t.movies && j in t.movies && t.movies[i].name == t.movies[j].name ==> i == j
  }

  /**
   * FOREIGN KEY (genreId) REFERENCES genre(id), the foreign key of
   * `Migrations.MovieDef`: a non-null genreId names a genre.
   */
  ghost predicate MovieGenresExist(t: Tables) {
    forall id :: id in t.movies && t.movies[id].genreId.Some? ==> t.movies[id].genreId.value in t.genres
  }

  /**
   * The two foreign keys of movie_character, to movie(id) and to actor(id):
   * those of `Migrations.MovieCharacterDef`. Both cascade, which is what
   * `DeleteMovie` and `DeleteActor` below carry out.
   */
  ghost predicate CharactersReferenceRows(t: Tables) {
    forall k :: k in t.characters ==> k.movieId in t.movies && k.actorId in t.actors
  }

  /** Everything the schema guarantees of the stored rows. */
  ghost predicate Consistent(t: Tables) {
    && KeyedByPrimaryKey(t)
    && MovieNamesUnique(t)
    && MovieGenresExist(t)
    && CharactersReferenceRows(t)
  }

  /** Some movie other than `except` already has this name. */
  predicate NameTaken(t: Tables, name: string, except: Option<nat>) {
    exists id :: id in t.movies && t.movies[id].name == name && except != Some(id)
  }

  /** A non-null genre reference that names no genre. */
  predicate GenreMissing(t: Tables, genreId: Option<nat>) {
    genreId.Some? && genreId.value !in t.genres
  }

  /**
   * The engine's verdict on writing a movie row with this name and genre,
   * as a new row (`except` is None) or over the row `except`: the unique key
   * on `name` is checked before the foreign key on `genreId`.
   */
  function MovieWriteError(t: Tables, except: Option<nat>, name: string, genreId: Option<nat>): (r: Option<DbError>)
    ensures r == None <==> !NameTaken(t, name, except) && !GenreMissing(t, genreId)
    ensures r == Some(Raise(DupEntry)) <==> NameTaken(t, name, except)
    ensures r == Some(Raise(NoReferencedRow)) <==> !NameTaken(t, name, except) && GenreMissing(t, genreId)
  {
    if NameTaken(t, name, except) then Some(Raise(DupEntry))
    else if GenreMissing(t, genreId) then Some(Raise(NoReferencedRow))
    else None
  }

  /**
   * The engine accepts a movie write exactly when the tables it would leave
   * behind still meet every constraint: inserting under a fresh id and
   * updating the row with that id alike.
   */
  lemma MovieWriteKeepsConstraints(t: Tables, row: Movie)
    requires Consistent(t)
    ensures var except := if row.id in t.movies then Some(row.id) else None;
            MovieWriteError(t, except, row.name, row.genreId) == None
            <==> Consistent(t.(movies := t.movies[row.id := row]))
  {
    var except := if row.id in t.movies then Some(row.id) else None;
    var t' := t.(movies := t.movies[row.id := row]);
    if MovieWriteError(t, except, row.name, row.genreId) == None {
      assert MovieNamesUnique(t') by {
        forall i, j | i in t'.movies && j in t'.movies && t'.movies[i].name == t'.movies[j].name
          ensures i == j
        {
          if i != row.id && j != row.id {
            assert t.movies[i].name == t.movies[j].name;
          }
        }
      }
      assert Consistent(t');
    } else if NameTaken(t, row.name, except) {
      var other :| other in t.movies && t.movies[other].name == row.name && except != Some(other);
      assert other != row.id;
      assert t'.movies[other].name == t'.movies[row.id].name;
    } else {
      assert t'.movies[row.id].genreId.Some? && t'.movies[row.id].genreId.value !in t'.genres;
    }
  }

  /**
   * The engine's verdict on inserting the movie_character row with key `k`:
   * the composite primary key, then the two foreign keys.
   */
  function CharacterInsertError(t: Tables, k: CharacterKey): (r: Option<DbError>)
    ensures r == Some(Raise(DupEntry)) <==> k in t.characters
    ensures r == None <==> k !in t.characters && k.movieId in t.movies && k.actorId in t.actors
    ensures r.Some? ==> r == Some(Raise(DupEntry)) || r == Some(Raise(NoReferencedRow))
  {
    if k in t.characters then Some(Raise(DupEntry))
    else if k.movieId !in t.movies || k.actorId !in t.actors then Some(Raise(NoReferencedRow))
    else None
  }

  /** A new movie_character row is accepted exactly when it keeps every constraint. */
  lemma CharacterInsertKeepsConstraints(t: Tables, row: MovieCharacter)
    requires Consistent(t)
    requires row.Key() !in t.characters
    ensures CharacterInsertError(t, row.Key()) == None
            <==> Consistent(t.(characters := t.characters[row.Key() := row]))
  {
  }

  /** Some movie refers to genre `id`. */
  predicate GenreReferenced(t: Tables, id: nat) {
    exists m :: m in t.movies && t.movies[m].genreId == Some(id)
  }

  /**
   * The genreId foreign key has no ON DELETE action, so a genre may be
   * deleted without breaking a constraint exactly when no movie refers to it.
   */
  lemma GenreDeleteKeepsConstraints(t: Tables, id: nat)
    requires Consistent(t)
    requires id in t.genres
    ensures !GenreReferenced(t, id) <==> Consistent(t.(genres := t.genres - {id}))
  {
  }

  /** The movie_character rows that survive deleting the movie `id` (ON DELETE CASCADE). */
  function CharactersWithoutMovie(c: map<CharacterKey, MovieCharacter>, id: nat): map<CharacterKey, MovieCharacter> {
    map k | k in c && k.movieId != id :: c[k]
  }

  /** The movie_character rows that survive deleting the actor `id` (ON DELETE CASCADE). */
  function CharactersWithoutActor(c: map<CharacterKey, MovieCharacter>, id: nat): map<CharacterKey, MovieCharacter> {
    map k | k in c && k.actorId != id :: c[k]
  }

  /** DELETE FROM movie WHERE id = `id`, with the cascade into movie_character. */
  function DeleteMovie(t: Tables, id: nat): (r: Tables)
    ensures r.movies.Keys == t.movies.Keys - {id}
    ensures forall m :: m in r.movies ==> r.movies[m] == t.movies[m]
    ensures forall k :: k in r.characters <==> k in t.characters && k.movieId != id
    ensures forall k :: k in r.characters ==> r.characters[k] == t.characters[k]
    ensures r.genres == t.genres && r.actors == t.actors
  {
    t.(movies := t.movies - {id}, characters := CharactersWithoutMovie(t.characters, id))
  }

  /** DELETE FROM actor WHERE id = `id`, with the cascade into movie_character. */
  function DeleteActor(t: Tables, id: nat): (r: Tables)
    ensures r.actors.Keys == t.actors.Keys - {id}
    ensures forall a :: a in r.actors ==> r.actors[a] == t.actors[a]
    ensures forall k :: k in r.characters <==> k in t.characters && k.actorId != id
    ensures forall k :: k in r.characters ==> r.characters[k] == t.characters[k]
    ensures r.genres == t.genres && r.movies == t.movies
  {
    t.(actors := t.actors - {id}, characters := CharactersWithoutActor(t.characters, id))
  }

  /** Deleting a movie id that has no row deletes nothing, not even through the cascade. */
  lemma DeleteMissingMovie(t: Tables, id: nat)
    requires Consistent(t) && id !in t.movies
    ensures DeleteMovie(t, id) == t
  {
  }

  /** Deleting an actor id that has no row deletes nothing, not even through the cascade. */
  lemma DeleteMissingActor(t: Tables, id: nat)
    requires Consistent(t) && id !in t.actors
    ensures DeleteActor(t, id) == t
  {
  }

  /** Deleting a movie never breaks a constraint, thanks to the cascade. */
  lemma DeleteMovieKeepsConstraints(t: Tables, id: nat)
    requires Consistent(t)
    ensures Consistent(DeleteMovie(t, id))
  {
  }

  /** Deleting an actor never breaks a constraint, thanks to the cascade. */
  lemma DeleteActorKeepsConstraints(t: Tables, id: nat)
    requires Consistent(t)
    ensures Consistent(DeleteActor(t, id))
  {
  }

  /**
   * The cascade is needed: deleting the movie row alone keeps the
   * constraints exactly when no character row refers to that movie.
   */
  lemma MovieDeleteNeedsCascade(t: Tables, id: nat)
    requires Consistent(t)
    ensures Consistent(t.(movies := t.movies - {id}))
            <==> (forall k :: k in t.characters ==> k.movieId != id)
  {
  }

  /**
   * The movie_character rows of actor `a` joined to an existing movie whose
   * genreId is `g`: the rows both aggregations count.
   */
  function CharactersInGenre(t: Tables, a: nat, g: nat): set<CharacterKey> {
    set k | k in t.characters && k.actorId == a && k.movieId in t.movies && t.movies[k.movieId].genreId == Some(g)
  }

  /** The movies of genre `g` that actor `a` plays a character in. */
  function MoviesInGenre(t: Tables, a: nat, g: nat): set<nat> {
    set m | m in t.movies && CharacterKey(m, a) in t.characters && t.movies[m].genreId == Some(g)
  }

  /**
   * Because (movieId, actorId) is the primary key, counting an actor's
   * character rows in a genre counts their distinct movies of that genre.
   */
  lemma {:induction false} CharactersInGenreCountMovies(t: Tables, a: nat, g: nat)
    ensures |CharactersInGenre(t, a, g)| == |MoviesInGenre(t, a, g)|
  {
    var movies := MoviesInGenre(t, a, g);
    var f := (m: nat) => CharacterKey(m, a);
    var image := Sql.Image(movies, f);
    forall k | k in CharactersInGenre(t, a, g)
      ensures k in image
    {
      assert k == f(k.movieId);
    }
    assert CharactersInGenre(t, a, g) == image;
    Sql.InjectiveImageSize(movies, f);
    assert |image| == |movies|;
  }
}
