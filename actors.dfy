/**
 * The read-only queries of the actor repository: the whole table, one row by
 * id, and the joins from an actor to the movies, characters and genres they
 * appear in. Each is a function of the tables; the writes to the actor table
 * are methods of `Store.Catalog`.
 */
module Actors {
  import opened Common
  import opened Db
  import Sql

  /** A row of the per-genre count: genre.id, genre.name and COUNT(movie.genreId). */
  datatype GenreCount = GenreCount(id: nat, name: string, genreCount: nat)

  /** SELECT * FROM actor: every actor row once, in an order the engine chooses. */
  ghost function List(t: Tables): (r: seq<Actor>)
    ensures |r| == |t.actors|
    ensures forall x :: x in r <==> x in t.actors.Values
  {
    Sql.Rows(t.actors)
  }

  /** SELECT * FROM actor WHERE id = `id`, first row: the actor with that id, or absent. */
  function Find(t: Tables, id: nat): (r: Option<Actor>)
    ensures r.Some? ==> r.value in t.actors.Values
    ensures KeyedByPrimaryKey(t) ==>
              (r.Some? ==> r.value.id == id) && (r.None? <==> forall x :: x in t.actors.Values ==> x.id != id)
  {
    if id in t.actors then Some(t.actors[id]) else None
  }

  /** The join movie ⋈ movie_character WHERE actorId = `a`, keyed by the character row each result row comes from. */
  function MoviesJoin(t: Tables, a: nat): map<CharacterKey, Movie> {
    map k | k in t.characters && k.actorId == a && k.movieId in t.movies :: t.movies[k.movieId]
  }

  /** SELECT movie.* FROM movie JOIN movie_character ON movie.id = movieId WHERE actorId = `a`. */
  ghost function ListMovies(t: Tables, a: nat): (r: seq<Movie>)
    ensures |r| == |MoviesJoin(t, a)|
  {
    Sql.Rows(MoviesJoin(t, a))
  }

  /**
   * The movies the actor plays in are exactly the movies with a character
   * row for that actor, each listed once (the composite primary key admits
   * one character per actor and movie); no such row gives the empty list.
   */
  lemma ListMoviesExactly(t: Tables, a: nat)
    requires Consistent(t)
    ensures forall x :: x in ListMovies(t, a) <==> x in t.movies.Values && CharacterKey(x.id, a) in t.characters
    ensures forall i, j :: 0 <= i < j < |ListMovies(t, a)| ==> ListMovies(t, a)[i] != ListMovies(t, a)[j]
    ensures ListMovies(t, a) == [] <==> forall k :: k in t.characters ==> k.actorId != a
  {
    var join := MoviesJoin(t, a);
    var r := ListMovies(t, a);
    var ks := Sql.Enumerate(join.Keys);
    forall x | x in t.movies.Values && CharacterKey(x.id, a) in t.characters
      ensures x in r
    {
      assert join[CharacterKey(x.id, a)] == x;
    }
    forall i, j | 0 <= i < j < |r|
      ensures r[i] != r[j]
    {
      assert ks[i] != ks[j];
      assert r[i].id == ks[i].movieId && r[j].id == ks[j].movieId;
    }
  }

  /** SELECT movie_character.name FROM movie_character WHERE actorId = `a`, keyed by row. */
  function CharacterNames(t: Tables, a: nat): map<CharacterKey, Option<string>> {
    map k | k in t.characters && k.actorId == a :: t.characters[k].name
  }

  /** The keys of the actor's character rows. */
  function CharacterKeysOf(t: Tables, a: nat): set<CharacterKey> {
    set k | k in t.characters && k.actorId == a
  }

  /**
   * The names of the actor's characters, one per character row (equal names
   * repeat): position i holds the name of the i-th row in the engine's order,
   * which lists each of the actor's rows exactly once.
   */
  ghost function ListCharacters(t: Tables, a: nat): (r: seq<Option<string>>)
    ensures var ks := Sql.Enumerate(CharacterKeysOf(t, a));
            && |r| == |ks| == |CharacterKeysOf(t, a)|
            && forall i :: 0 <= i < |r| ==>
                 ks[i] in t.characters && ks[i].actorId == a && r[i] == t.characters[ks[i]].name
    ensures forall n :: n in r <==> exists k :: k in t.characters && k.actorId == a && t.characters[k].name == n
  {
    assert (CharacterNames(t, a)).Keys == CharacterKeysOf(t, a);
    CharacterNamesValues(t, a);
    Sql.Rows(CharacterNames(t, a))
  }

  lemma CharacterNamesValues(t: Tables, a: nat)
    ensures forall n :: n in CharacterNames(t, a).Values <==>
              exists k :: k in t.characters && k.actorId == a && t.characters[k].name == n
  {
    var m := CharacterNames(t, a);
    forall n | n in m.Values
      ensures exists k :: k in t.characters && k.actorId == a && t.characters[k].name == n
    {
      var k :| k in m && m[k] == n;
    }
    forall n | exists k :: k in t.characters && k.actorId == a && t.characters[k].name == n
      ensures n in m.Values
    {
      var k :| k in t.characters && k.actorId == a && t.characters[k].name == n;
      assert m[k] == n;
    }
  }

  /** The genres the actor has a character in, with at least one joined row (the groups of GROUP BY movie.genreId). */
  function GenresOf(t: Tables, a: nat): set<nat> {
    set g | g in t.genres && CharactersInGenre(t, a, g) != {}
  }

  /** The row a group produces: the genre's id and name and the number of joined rows. */
  function GenreRow(t: Tables, a: nat, g: nat): GenreCount
    requires g in t.genres
  {
    GenreCount(g, t.genres[g].name, |CharactersInGenre(t, a, g)|)
  }

  /** The groups of the per-genre count, keyed by genre id. */
  function GenreGroups(t: Tables, a: nat): map<nat, GenreCount> {
    map g | g in GenresOf(t, a) :: GenreRow(t, a, g)
  }

  /**
   * genre ⋈ movie ⋈ movie_character WHERE actorId = `a` GROUP BY genreId:
   * one row per group, in an order the engine chooses.
   */
  ghost function ListMoviesCountByGenre(t: Tables, a: nat): (r: seq<GenreCount>)
    ensures |r| == |GenresOf(t, a)|
    ensures forall x :: x in r <==> exists g :: g in GenresOf(t, a) && x == GenreRow(t, a, g)
  {
    assert GenreGroups(t, a).Keys == GenresOf(t, a);
    Sql.Rows(GenreGroups(t, a))
  }

  /**
   * One row per genre in which the actor plays, none twice; its count is
   * the number of the actor's movies of that genre. Movies whose genreId is
   * null or names no genre are dropped by the inner join.
   */
  lemma ListMoviesCountByGenreExactly(t: Tables, a: nat)
    ensures forall x :: x in ListMoviesCountByGenre(t, a) ==>
              x.id in t.genres && x.name == t.genres[x.id].name && x.genreCount >= 1
              && x.genreCount == |MoviesInGenre(t, a, x.id)|
    ensures forall g :: g in t.genres && MoviesInGenre(t, a, g) != {} ==>
              exists x :: x in ListMoviesCountByGenre(t, a) && x.id == g
    ensures forall i, j :: 0 <= i < j < |ListMoviesCountByGenre(t, a)| ==>
              ListMoviesCountByGenre(t, a)[i].id != ListMoviesCountByGenre(t, a)[j].id
  {
    var r := ListMoviesCountByGenre(t, a);
    var groups := GenreGroups(t, a);
    var ks := Sql.Enumerate(groups.Keys);
    forall x | x in r
      ensures x.id in t.genres && x.name == t.genres[x.id].name && x.genreCount >= 1
      ensures x.genreCount == |MoviesInGenre(t, a, x.id)|
    {
      var g :| g in GenresOf(t, a) && x == GenreRow(t, a, g);
      CharactersInGenreCountMovies(t, a, g);
    }
    forall g | g in t.genres && MoviesInGenre(t, a, g) != {}
      ensures exists x :: x in r && x.id == g
    {
      CharactersInGenreCountMovies(t, a, g);
      assert g in GenresOf(t, a);
      assert GenreRow(t, a, g) in r;
    }
    forall i, j | 0 <= i < j < |r|
      ensures r[i].id != r[j].id
    {
      assert ks[i] != ks[j];
      assert r[i].id == ks[i] && r[j].id == ks[j];
    }
  }

  /**
   * ... ORDER BY genre_count DESC LIMIT 1: at most one row; absent exactly
   * when the actor has no movie of any genre; otherwise a row of the
   * per-genre count whose count no other genre exceeds.
   */
  ghost function GetFavouriteGenre(t: Tables, a: nat): (r: seq<GenreCount>)
    ensures |r| <= 1
    ensures r == [] <==> GenresOf(t, a) == {}
    ensures r != [] ==> r[0] in ListMoviesCountByGenre(t, a)
    ensures r != [] ==> forall x :: x in ListMoviesCountByGenre(t, a) ==> x.genreCount <= r[0].genreCount
  {
    var ordered := Sql.OrderByDesc(GenresOf(t, a), g => |CharactersInGenre(t, a, g)|);
    if ordered == [] then [] else [GenreRow(t, a, ordered[0])]
  }

  /**
   * When one genre has strictly more of the actor's movies than every other,
   * it is the favourite: ties are the only freedom the engine has.
   */
  lemma FavouriteGenreWithoutTie(t: Tables, a: nat, g: nat)
    requires g in t.genres && MoviesInGenre(t, a, g) != {}
    requires forall h :: h in t.genres && h != g ==> |MoviesInGenre(t, a, h)| < |MoviesInGenre(t, a, g)|
    ensures GetFavouriteGenre(t, a) == [GenreRow(t, a, g)]
  {
    CharactersInGenreCountMovies(t, a, g);
    assert GenreRow(t, a, g) in ListMoviesCountByGenre(t, a);
    var r := GetFavouriteGenre(t, a);
    var h :| h in GenresOf(t, a) && r[0] == GenreRow(t, a, h);
    if h != g {
      CharactersInGenreCountMovies(t, a, h);
    }
  }
}
