/**
 * The read-only queries of the movie repository; its writes (create,
 * update, remove and the three character writes) are methods of
 * `Store.Catalog`.
 */
module Movies {
  import opened Common
  import opened Db
  import Sql

  /** SELECT * FROM movie: every movie row once, in an order the engine chooses. */
  ghost function List(t: Tables): (r: seq<Movie>)
    ensures |r| == |t.movies|
    ensures forall x :: x in r <==> x in t.movies.Values
  {
    Sql.Rows(t.movies)
  }

  /** SELECT * FROM movie WHERE id = `id`, first row: the movie with that id, or absent. */
  function Find(t: Tables, id: nat): (r: Option<Movie>)
    ensures r.Some? ==> r.value in t.movies.Values
    ensures KeyedByPrimaryKey(t) ==>
              (r.Some? ==> r.value.id == id) && (r.None? <==> forall x :: x in t.movies.Values ==> x.id != id)
  {
    if id in t.movies then Some(t.movies[id]) else None
  }

  /** SELECT * FROM movie_character WHERE movieId = `m`, keyed by row. */
  function CharactersOf(t: Tables, m: nat): map<CharacterKey, MovieCharacter> {
    map k | k in t.characters && k.movieId == m :: t.characters[k]
  }

  /** The character rows of movie `m`, in an order the engine chooses. */
  ghost function ListMoviesCharacters(t: Tables, m: nat): (r: seq<MovieCharacter>)
    ensures |r| == |set k | k in t.characters && k.movieId == m|
  {
    assert CharactersOf(t, m).Keys == set k | k in t.characters && k.movieId == m;
    Sql.Rows(CharactersOf(t, m))
  }

  /** Exactly the character rows whose movieId is `m`, each once. */
  lemma ListMoviesCharactersExactly(t: Tables, m: nat)
    requires KeyedByPrimaryKey(t)
    ensures forall x :: x in ListMoviesCharacters(t, m) <==> x in t.characters.Values && x.movieId == m
    ensures forall i, j :: 0 <= i < j < |ListMoviesCharacters(t, m)| ==>
              ListMoviesCharacters(t, m)[i] != ListMoviesCharacters(t, m)[j]
  {
    var rows := CharactersOf(t, m);
    var r := ListMoviesCharacters(t, m);
    var ks := Sql.Enumerate(rows.Keys);
    forall x | x in t.characters.Values && x.movieId == m
      ensures x in r
    {
      var k :| k in t.characters && t.characters[k] == x;
      assert rows[k] == x;
    }
    forall x | x in r
      ensures x in t.characters.Values && x.movieId == m
    {
      var k :| k in rows && rows[k] == x;
      assert t.characters[k] == x;
    }
    forall i, j | 0 <= i < j < |r|
      ensures r[i] != r[j]
    {
      assert ks[i] != ks[j];
      assert r[i].Key() == ks[i] && r[j].Key() == ks[j];
    }
  }

  /**
   * After a movie is deleted it cannot be found and, through the cascade,
   * no character row of it remains; every other movie is still there.
   */
  lemma DeleteMovieForgetsMovie(t: Tables, id: nat)
    requires Consistent(t)
    ensures Find(DeleteMovie(t, id), id) == None
    ensures ListMoviesCharacters(DeleteMovie(t, id), id) == []
    ensures forall m :: m != id ==> Find(DeleteMovie(t, id), m) == Find(t, m)
    ensures forall k :: k in DeleteMovie(t, id).characters ==> k.movieId in DeleteMovie(t, id).movies
  {
  }
}
