/**
 * The read-only queries of the genre repository, with the ranking of actors
 * by their appearances in a genre; the writes to the genre table are
 * methods of `Store.Catalog`.
 */
module Genres {
  import opened Common
  import opened Db
  import Sql

  /** A row of the ranking: the actor's columns and COUNT(actor.id) as appearances. */
  datatype ActorAppearances = ActorAppearances(id: nat, name: string, bio: string, bornAt: Date, appearances: nat)

  /** SELECT * FROM genre: every genre row once, in an order the engine chooses. */
  ghost function List(t: Tables): (r: seq<Genre>)
    ensures |r| == |t.genres|
    ensures forall x :: x in r <==> x in t.genres.Values
  {
    Sql.Rows(t.genres)
  }

  /** SELECT * FROM genre WHERE id = `id`, first row: the genre with that id, or absent. */
  function Find(t: Tables, id: nat): (r: Option<Genre>)
    ensures r.Some? ==> r.value in t.genres.Values
    ensures KeyedByPrimaryKey(t) ==>
              (r.Some? ==> r.value.id == id) && (r.None? <==> forall x :: x in t.genres.Values ==> x.id != id)
  {
    if id in t.genres then Some(t.genres[id]) else None
  }

  /** The actors with at least one character in a movie of genre `g`: the groups of GROUP BY actor.id. */
  function ActorsIn(t: Tables, g: nat): set<nat> {
    set a | a in t.actors && CharactersInGenre(t, a, g) != {}
  }

  /** The row a group produces: the actor's columns and the number of joined character rows. */
  function AppearanceRow(t: Tables, g: nat, a: nat): ActorAppearances
    requires a in t.actors
  {
    var actor := t.actors[a];
    ActorAppearances(a, actor.name, actor.bio, actor.bornAt, |CharactersInGenre(t, a, g)|)
  }

  /**
   * movie_character ⋈ actor ⋈ movie WHERE movie.genreId = `g` GROUP BY
   * actor.id ORDER BY appearances DESC: one row per actor with a character
   * in the genre, none twice, appearances non-increasing, ties in an order
   * the engine chooses.
   */
  ghost function ListActorsByMovieAppearances(t: Tables, g: nat): (r: seq<ActorAppearances>)
    ensures |r| == |ActorsIn(t, g)|
    ensures forall x :: x in r <==> exists a :: a in ActorsIn(t, g) && x == AppearanceRow(t, g, a)
    ensures forall i, j :: 0 <= i < j < |r| ==> r[i].id != r[j].id
    ensures forall i, j :: 0 <= i < j < |r| ==> r[i].appearances >= r[j].appearances
  {
    var ids := Sql.OrderByDesc(ActorsIn(t, g), a => |CharactersInGenre(t, a, g)|);
    var r := seq(|ids|, i requires 0 <= i < |ids| => AppearanceRow(t, g, ids[i]));
    RankedRows(t, g, ids, r);
    r
  }

  lemma RankedRows(t: Tables, g: nat, ids: seq<nat>, r: seq<ActorAppearances>)
    requires forall a :: a in ids <==> a in ActorsIn(t, g)
    requires forall i :: 0 <= i < |ids| ==> ids[i] in ActorsIn(t, g)
    requires forall i, j :: 0 <= i < j < |ids| ==> ids[i] != ids[j]
    requires forall i, j :: 0 <= i < j < |ids| ==>
               |CharactersInGenre(t, ids[i], g)| >= |CharactersInGenre(t, ids[j], g)|
    requires |r| == |ids|
    requires forall i :: 0 <= i < |ids| ==> r[i] == AppearanceRow(t, g, ids[i])
    ensures forall x :: x in r <==> exists a :: a in ActorsIn(t, g) && x == AppearanceRow(t, g, a)
    ensures forall i, j :: 0 <= i < j < |r| ==> r[i].id != r[j].id
    ensures forall i, j :: 0 <= i < j < |r| ==> r[i].appearances >= r[j].appearances
  {
  }

  /**
   * Each row's appearances is the number of the actor's movies of genre
   * `g`, at least one; every actor who plays in such a movie has a row.
   */
  lemma AppearancesCountMovies(t: Tables, g: nat)
    ensures forall x :: x in ListActorsByMovieAppearances(t, g) ==>
              x.id in t.actors && x.appearances == |MoviesInGenre(t, x.id, g)| && x.appearances >= 1
    ensures forall a :: a in t.actors && MoviesInGenre(t, a, g) != {} ==>
              exists x :: x in ListActorsByMovieAppearances(t, g) && x.id == a
  {
    var r := ListActorsByMovieAppearances(t, g);
    forall x | x in r
      ensures x.id in t.actors && x.appearances == |MoviesInGenre(t, x.id, g)| && x.appearances >= 1
    {
      var a :| a in ActorsIn(t, g) && x == AppearanceRow(t, g, a);
      CharactersInGenreCountMovies(t, a, g);
    }
    forall a | a in t.actors && MoviesInGenre(t, a, g) != {}
      ensures exists x :: x in r && x.id == a
    {
      CharactersInGenreCountMovies(t, a, g);
      assert a in ActorsIn(t, g);
      assert AppearanceRow(t, g, a) in r;
    }
  }
}
