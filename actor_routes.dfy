/**
 * The handlers of the /actors routes: each turns the outcome of one
 * actor-repository call into a reply. The end-to-end lemmas at the bottom
 * feed the handlers the repository's answers over a set of tables.
 */
module ActorRoutes {
  import opened Common
  import opened Db
  import opened Http
  import Actors

  const Route := "/actors"

  /** GET /actors: the list as it resolves. */
  function GetAll(o: Outcome<seq<Actor>>): (r: Reply<seq<Actor>>)
    ensures o.Resolved? ==> r == Respond(StatusOk, Payload(o.value))
    ensures o.Rejected? ==> r == Rethrow(o.error)
  {
    Returned(o)
  }

  /** GET /actors/{id}: the row unchanged with 200, or 404 when `find` yields nothing. */
  function Get(o: Outcome<Option<Actor>>): (r: Reply<Actor>)
    ensures o.Resolved? && o.value.Some? ==> r == Respond(StatusOk, Payload(o.value.value))
    ensures o == Resolved(None) <==> r == Respond(StatusNotFound, Problem)
    ensures o.Rejected? ==> r == Rethrow(o.error)
  {
    FoundOrNotFound(o)
  }

  /** POST /actors: 201 with the id and its path; ER_DUP_ENTRY answers 409, any other error is thrown on. */
  function Post(o: Outcome<nat>): (r: Reply<()>)
    ensures o.Resolved? ==>
              r == Respond(StatusCreated, Location(o.value, Route + "/" + NatToString(o.value)))
    ensures o.Rejected? ==> (r == Respond(StatusConflict, Problem) <==> HasCode(o.error, {DupEntry}))
    ensures o.Rejected? && !HasCode(o.error, {DupEntry}) ==> r == Rethrow(o.error)
  {
    match o
    case Resolved(id) => CreatedAt(Route, id)
    case Rejected(e) => CatchAsConflict(e, {DupEntry})
  }

  /** PUT /actors/{id}: 204 when a row matched, 404 when none; ER_DUP_ENTRY answers 409, any other error is thrown on. */
  function Put(o: Outcome<bool>): (r: Reply<()>)
    ensures o == Resolved(true) <==> r == Respond(StatusNoContent, NoBody)
    ensures o == Resolved(false) <==> r == Respond(StatusNotFound, Problem)
    ensures o.Rejected? ==> (r == Respond(StatusConflict, Problem) <==> HasCode(o.error, {DupEntry}))
    ensures o.Rejected? && !HasCode(o.error, {DupEntry}) ==> r == Rethrow(o.error)
  {
    match o
    case Resolved(found) => MatchedOrNotFound(found)
    case Rejected(e) => CatchAsConflict(e, {DupEntry})
  }

  /** DELETE /actors/{id}: 204 with no body when a row went, 404 otherwise; errors are thrown on. */
  function Remove(o: Outcome<bool>): (r: Reply<()>)
    ensures o == Resolved(true) <==> r == Respond(StatusNoContent, NoBody)
    ensures o == Resolved(false) <==> r == Respond(StatusNotFound, Problem)
    ensures o.Rejected? ==> r == Rethrow(o.error)
  {
    match o
    case Resolved(found) => MatchedOrNotFound(found)
    case Rejected(e) => Rethrow(e)
  }

  /** GET /actors/{id}/movies: the array, 200 even when empty. */
  function ListMovies(o: Outcome<seq<Movie>>): (r: Reply<seq<Movie>>)
    ensures o.Resolved? ==> r == Respond(StatusOk, Payload(o.value))
    ensures o.Rejected? ==> r == Rethrow(o.error)
  {
    Returned(o)
  }

  /** GET /actors/{id}/characters: the array, 200 even when empty. */
  function ListCharacterNames(o: Outcome<seq<Option<string>>>): (r: Reply<seq<Option<string>>>)
    ensures o.Resolved? ==> r == Respond(StatusOk, Payload(o.value))
    ensures o.Rejected? ==> r == Rethrow(o.error)
  {
    Returned(o)
  }

  /** GET /actors/{id}/favourite-genre: the array of at most one row, 200 even when empty. */
  function GetFavouriteGenre(o: Outcome<seq<Actors.GenreCount>>): (r: Reply<seq<Actors.GenreCount>>)
    ensures o.Resolved? ==> r == Respond(StatusOk, Payload(o.value))
    ensures o.Rejected? ==> r == Rethrow(o.error)
  {
    Returned(o)
  }

  /** GET /actors/{id}/movies-by-genre: the array, 200 even when empty. */
  function ListMoviesCountByGenre(o: Outcome<seq<Actors.GenreCount>>): (r: Reply<seq<Actors.GenreCount>>)
    ensures o.Resolved? ==> r == Respond(StatusOk, Payload(o.value))
    ensures o.Rejected? ==> r == Rethrow(o.error)
  {
    Returned(o)
  }

  // ----- end to end: the route, its {id} rule and the repository over tables `t` -----

  /**
   * GET /actors/{id} over the tables: 400 for a refused parameter, 404 for
   * an id with no row, and otherwise 200 with that id's row, unchanged.
   */
  lemma GetOverTables(t: Tables, param: string)
    requires KeyedByPrimaryKey(t)
    ensures var r := WithParamsId(param, id => Get(Resolved(Actors.Find(t, id))));
            && (ValidateParamsId(param).None? ==> r == Respond(StatusBadRequest, Problem))
            && (ValidateParamsId(param).Some? ==>
                  var id := ValidateParamsId(param).value;
                  && (id !in t.actors <==> r == Respond(StatusNotFound, Problem))
                  && (id in t.actors ==> r == Respond(StatusOk, Payload(t.actors[id])) && r.body.value.id == id))
  {
  }

  /**
   * The relationship routes never answer 404: an actor with no movies, no
   * characters or no genres gets 200 with an empty array.
   */
  lemma RelationshipsNeverNotFound(t: Tables, a: nat)
    requires Consistent(t)
    requires forall k :: k in t.characters ==> k.actorId != a
    ensures ListMovies(Resolved(Actors.ListMovies(t, a))) == Respond(StatusOk, Payload([]))
    ensures ListCharacterNames(Resolved(Actors.ListCharacters(t, a))) == Respond(StatusOk, Payload([]))
    ensures GetFavouriteGenre(Resolved(Actors.GetFavouriteGenre(t, a))) == Respond(StatusOk, Payload([]))
    ensures ListMoviesCountByGenre(Resolved(Actors.ListMoviesCountByGenre(t, a))) == Respond(StatusOk, Payload([]))
  {
  }
}
