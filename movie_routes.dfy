/**
 * The handlers of the /movies routes. Their catch rules differ: POST turns
 * both a taken name and a missing genre into 409, PUT only a taken name,
 * and POST of a character only a duplicate pair. The end-to-end lemmas and
 * methods at the bottom feed the handlers the store's verdict on a write.
 */
module MovieRoutes {
  import opened Common
  import opened Db
  import opened Http
  import Movies
  import Store

  const Route := "/movies"

  /** GET /movies: the list as it resolves. */
  function GetAll(o: Outcome<seq<Movie>>): (r: Reply<seq<Movie>>)
    ensures o.Resolved? ==> r == Respond(StatusOk, Payload(o.value))
    ensures o.Rejected? ==> r == Rethrow(o.error)
  {
    Returned(o)
  }

  /** GET /movies/{id}: the row unchanged with 200, or 404 when `find` yields nothing. */
  function Get(o: Outcome<Option<Movie>>): (r: Reply<Movie>)
    ensures o.Resolved? && o.value.Some? ==> r == Respond(StatusOk, Payload(o.value.value))
    ensures o == Resolved(None) <==> r == Respond(StatusNotFound, Problem)
    ensures o.Rejected? ==> r == Rethrow(o.error)
  {
    FoundOrNotFound(o)
  }

  /** POST /movies: 201 with the id and its path; ER_DUP_ENTRY and ER_NO_REFERENCED_ROW_2 answer 409, other errors are thrown on. */
  function Post(o: Outcome<nat>): (r: Reply<()>)
    ensures o.Resolved? ==>
              r == Respond(StatusCreated, Location(o.value, Route + "/" + NatToString(o.value)))
    ensures o.Rejected? ==>
              (r == Respond(StatusConflict, Problem) <==> HasCode(o.error, {DupEntry, NoReferencedRow}))
    ensures o.Rejected? && !HasCode(o.error, {DupEntry, NoReferencedRow}) ==> r == Rethrow(o.error)
  {
    match o
    case Resolved(id) => CreatedAt(Route, id)
    case Rejected(e) => CatchAsConflict(e, {DupEntry, NoReferencedRow})
  }

  /** PUT /movies/{id}: 204 when a row matched, 404 when none; only ER_DUP_ENTRY answers 409. */
  function Put(o: Outcome<bool>): (r: Reply<()>)
    ensures o == Resolved(true) <==> r == Respond(StatusNoContent, NoBody)
    ensures o == Resolved(false) <==> r == Respond(StatusNotFound, Problem)
    ensures o.Rejected? ==> (r == Respond(StatusConflict, Problem) <==> HasCode(o.error, {DupEntry}))
    ensures o.Rejected? && !HasCode(o.error, {DupEntry}) ==> r == Rethrow(o.error)
  {
    match o
    case Resolved(found) => MatchedOrNotFound(found)
    case Rejected(e) => CatchAsConflict(e, {DupEntry})
  }

  /** DELETE /movies/{id}: 204 with no body when a row went, 404 otherwise; errors are thrown on. */
  function Remove(o: Outcome<bool>): (r: Reply<()>)
    ensures o == Resolved(true) <==> r == Respond(StatusNoContent, NoBody)
    ensures o == Resolved(false) <==> r == Respond(StatusNotFound, Problem)
    ensures o.Rejected? ==> r == Rethrow(o.error)
  {
    match o
    case Resolved(found) => MatchedOrNotFound(found)
    case Rejected(e) => Rethrow(e)
  }

  /**
   * POST /movies/{id}/characters: a resolved insert is an array, always
   * truthy, so it answers 204; ER_DUP_ENTRY answers 409 and a missing movie
   * or actor is thrown on.
   */
  function PostCharacter(o: Outcome<()>): (r: Reply<()>)
    ensures o.Resolved? <==> r == Respond(StatusNoContent, NoBody)
    ensures r.Respond? ==> r.status != StatusNotFound
    ensures o.Rejected? ==> (r == Respond(StatusConflict, Problem) <==> HasCode(o.error, {DupEntry}))
    ensures o.Rejected? && !HasCode(o.error, {DupEntry}) ==> r == Rethrow(o.error)
  {
    match o
    case Resolved(_) => Respond(StatusNoContent, NoBody)
    case Rejected(e) => CatchAsConflict(e, {DupEntry})
  }

  /** DELETE /movies/{id}/characters/{actorId}: not implemented; it calls no repository function. */
  function RemoveCharacter(): (r: Reply<()>)
    ensures r.Respond? && r.status == StatusNotImplemented && r.body == Problem
  {
    Respond(StatusNotImplemented, Problem)
  }

  /** The parameters in the path of DELETE /movies/{id}/characters/{actorId}. */
  const RemoveCharacterPath: set<string> := {"id", "actorId"}

  /** The keys its params schema declares as written: only the shared rule's `id`. */
  const RemoveCharacterSchemaAsWritten: set<string> := {"id"}

  /** The route with a params schema: 400 before the handler when the schema refuses the parameters. */
  function RemoveCharacterRoute(params: Params, schema: set<string>): (r: Reply<()>)
    ensures ValidateParams(params, schema).None? ==> r == Respond(StatusBadRequest, Problem)
    ensures ValidateParams(params, schema).Some? ==> r == RemoveCharacter()
  {
    match ValidateParams(params, schema)
    case None => Respond(StatusBadRequest, Problem)
    case Some(_) => RemoveCharacter()
  }

  /**
   * As written, every request the route matches carries `actorId`, a key the
   * schema does not declare, so it is refused with 400 and never gets the 501.
   */
  lemma RemoveCharacterAlwaysRefused(params: Params)
    requires params.Keys == RemoveCharacterPath
    ensures RemoveCharacterRoute(params, RemoveCharacterSchemaAsWritten) == Respond(StatusBadRequest, Problem)
  {
    assert "actorId" in params && "actorId" !in RemoveCharacterSchemaAsWritten;
  }

  /** With both path parameters declared, two valid ids reach the handler, which answers 501. */
  lemma RemoveCharacterReachedWhenDeclared(params: Params)
    requires params.Keys == RemoveCharacterPath
    requires ValidateParamsId(params["id"]).Some? && ValidateParamsId(params["actorId"]).Some?
    ensures RemoveCharacterRoute(params, RemoveCharacterPath) == Respond(StatusNotImplemented, Problem)
  {
  }

  /** GET /movies/{id}/characters: the rows as they resolve, 200 even when empty. */
  function GetCharacters(o: Outcome<seq<MovieCharacter>>): (r: Reply<seq<MovieCharacter>>)
    ensures o.Resolved? ==> r == Respond(StatusOk, Payload(o.value))
    ensures o.Rejected? ==> r == Rethrow(o.error)
  {
    Returned(o)
  }

  // ----- end to end: the store's verdict on a write, through the handler -----

  /**
   * How `create` settles, given the engine's verdict and the id it would
   * assign. Its ensures only spell out the match; `PostToStore` proves that
   * this is what `Store.Catalog.CreateMovie` returns.
   */
  function CreateOutcome(t: Tables, name: string, genreId: nat, newId: nat): (o: Outcome<nat>)
    ensures o.Resolved? <==> MovieWriteError(t, None, name, Some(genreId)).None?
    ensures o.Resolved? ==> o.value == newId
  {
    match MovieWriteError(t, None, name, Some(genreId))
    case None => Resolved(newId)
    case Some(e) => Rejected(e)
  }

  /**
   * How `update` settles: false for a missing id, else the engine's verdict
   * on the new row. Its ensures only spell out the definition; `PutToStore`
   * proves that this is what `Store.Catalog.UpdateMovie` returns.
   */
  function UpdateOutcome(t: Tables, id: nat, name: string, genreId: nat): (o: Outcome<bool>)
    ensures id !in t.movies ==> o == Resolved(false)
    ensures id in t.movies ==> (o == Resolved(true) <==> MovieWriteError(t, Some(id), name, Some(genreId)).None?)
  {
    if id !in t.movies then Resolved(false)
    else match MovieWriteError(t, Some(id), name, Some(genreId))
      case None => Resolved(true)
      case Some(e) => Rejected(e)
  }

  /**
   * POST /movies never throws an engine verdict on: 201 when the name is free
   * and the genre exists, 409 when either fails.
   */
  lemma PostNeverRethrows(t: Tables, name: string, genreId: nat, newId: nat)
    ensures var r := Post(CreateOutcome(t, name, genreId, newId));
            && (r.Respond? && r.status == StatusCreated
                <==> !NameTaken(t, name, None) && !GenreMissing(t, Some(genreId)))
            && (r == Respond(StatusConflict, Problem)
                <==> NameTaken(t, name, None) || GenreMissing(t, Some(genreId)))
            && !r.Rethrow?
  {
  }

  /**
   * PUT /movies/{id} is irregular: a taken name answers 409, but a missing
   * genre is thrown on with ER_NO_REFERENCED_ROW_2; a missing id answers 404
   * whatever the payload.
   */
  lemma PutOverTables(t: Tables, id: nat, name: string, genreId: nat)
    ensures var r := Put(UpdateOutcome(t, id, name, genreId));
            && (id !in t.movies ==> r == Respond(StatusNotFound, Problem))
            && (id in t.movies ==>
                  && (r == Respond(StatusNoContent, NoBody)
                      <==> !NameTaken(t, name, Some(id)) && !GenreMissing(t, Some(genreId)))
                  && (r == Respond(StatusConflict, Problem) <==> NameTaken(t, name, Some(id)))
                  && (r == Rethrow(Raise(NoReferencedRow))
                      <==> !NameTaken(t, name, Some(id)) && GenreMissing(t, Some(genreId))))
  {
  }

  /**
   * How `addMovieCharacter` settles, given the engine's verdict on the pair.
   * Its ensures only spell out the match; `PostCharacterToStore` proves that
   * this is what `Store.Catalog.AddMovieCharacter` returns.
   */
  function AddCharacterOutcome(t: Tables, movieId: nat, actorId: nat): (o: Outcome<()>)
    ensures o.Resolved? <==> CharacterInsertError(t, CharacterKey(movieId, actorId)).None?
  {
    match CharacterInsertError(t, CharacterKey(movieId, actorId))
    case None => Resolved(())
    case Some(e) => Rejected(e)
  }

  /**
   * POST /movies/{id}/characters over the tables: 204 for a new pair of an
   * existing movie and actor, 409 for a pair that already has a row, and a
   * missing movie or actor is thrown on with ER_NO_REFERENCED_ROW_2.
   */
  lemma PostCharacterOverTables(t: Tables, movieId: nat, actorId: nat)
    ensures var k := CharacterKey(movieId, actorId);
            var r := PostCharacter(AddCharacterOutcome(t, movieId, actorId));
            && (r == Respond(StatusNoContent, NoBody) <==> k !in t.characters && movieId in t.movies && actorId in t.actors)
            && (r == Respond(StatusConflict, Problem) <==> k in t.characters)
            && (r == Rethrow(Raise(NoReferencedRow))
                <==> k !in t.characters && (movieId !in t.movies || actorId !in t.actors))
  {
  }

  /**
   * POST /movies against the store: the reply is the handler's answer to
   * what the insert settles with, the new id being the store's next one, so
   * 201 exactly when the name is free and the genre exists, never a throw.
   */
  method PostToStore(c: Store.Catalog, name: string, releasedAt: Date, runtime: int, genreId: nat, synopsis: Option<string>)
    returns (reply: Reply<()>)
    requires c.Valid()
    modifies c
    ensures c.Valid()
    ensures reply == Post(CreateOutcome(old(c.Snapshot()), name, genreId, old(c.nextMovieId)))
    ensures reply.Respond? && reply.status == StatusCreated
            <==> !NameTaken(old(c.Snapshot()), name, None) && !GenreMissing(old(c.Snapshot()), Some(genreId))
    ensures !reply.Rethrow?
    ensures reply.Respond? && reply.status == StatusCreated ==>
              && c.movies == old(c.movies)[old(c.nextMovieId) := Movie(old(c.nextMovieId), name, synopsis, releasedAt, runtime, Some(genreId))]
              && c.nextMovieId == old(c.nextMovieId) + 1
    ensures !(reply.Respond? && reply.status == StatusCreated) ==>
              c.Snapshot() == old(c.Snapshot()) && c.nextMovieId == old(c.nextMovieId)
    ensures c.genres == old(c.genres) && c.actors == old(c.actors) && c.characters == old(c.characters)
    ensures c.nextGenreId == old(c.nextGenreId) && c.nextActorId == old(c.nextActorId)
  {
    ghost var before := c.Snapshot();
    var res := c.CreateMovie(name, releasedAt, runtime, genreId, synopsis);
    reply := Post(if res.Success? then Resolved(res.value) else Rejected(res.error));
    PostNeverRethrows(before, name, genreId, old(c.nextMovieId));
  }

  /**
   * PUT /movies/{id} against the store: the handler's answer to what the
   * update settles with, so a missing genre is thrown on, not answered.
   */
  method PutToStore(c: Store.Catalog, id: nat, name: string, releasedAt: Date, runtime: int, genreId: nat, synopsis: Option<string>)
    returns (reply: Reply<()>)
    requires c.Valid()
    modifies c
    ensures c.Valid()
    ensures reply == Put(UpdateOutcome(old(c.Snapshot()), id, name, genreId))
    ensures reply == Rethrow(Raise(NoReferencedRow))
            <==> id in old(c.movies) && !NameTaken(old(c.Snapshot()), name, Some(id))
                 && GenreMissing(old(c.Snapshot()), Some(genreId))
    ensures reply == Respond(StatusNoContent, NoBody) ==>
              && id in old(c.movies)
              && c.movies == old(c.movies)[id := Movie(id, name, if synopsis.Some? then synopsis else old(c.movies)[id].synopsis,
                                                       releasedAt, runtime, Some(genreId))]
    ensures reply != Respond(StatusNoContent, NoBody) ==> c.Snapshot() == old(c.Snapshot())
    ensures c.genres == old(c.genres) && c.actors == old(c.actors) && c.characters == old(c.characters)
    ensures c.nextGenreId == old(c.nextGenreId) && c.nextMovieId == old(c.nextMovieId) && c.nextActorId == old(c.nextActorId)
  {
    ghost var before := c.Snapshot();
    var res := c.UpdateMovie(id, name, releasedAt, runtime, genreId, synopsis);
    reply := Put(if res.Success? then Resolved(res.value) else Rejected(res.error));
    PutOverTables(before, id, name, genreId);
  }

  /**
   * POST /movies/{id}/characters against the store: the handler's answer to
   * what the insert settles with; 204 exactly for a new pair of an existing
   * movie and actor.
   */
  method PostCharacterToStore(c: Store.Catalog, movieId: nat, actorId: nat, name: string)
    returns (reply: Reply<()>)
    requires c.Valid()
    modifies c
    ensures c.Valid()
    ensures reply == PostCharacter(AddCharacterOutcome(old(c.Snapshot()), movieId, actorId))
    ensures reply == Respond(StatusNoContent, NoBody)
            <==> CharacterKey(movieId, actorId) !in old(c.characters) && movieId in old(c.movies) && actorId in old(c.actors)
    ensures reply == Respond(StatusNoContent, NoBody) ==>
              c.characters == old(c.characters)[CharacterKey(movieId, actorId) := MovieCharacter(movieId, actorId, Some(name))]
    ensures reply != Respond(StatusNoContent, NoBody) ==> c.Snapshot() == old(c.Snapshot())
    ensures c.genres == old(c.genres) && c.movies == old(c.movies) && c.actors == old(c.actors)
    ensures c.nextGenreId == old(c.nextGenreId) && c.nextMovieId == old(c.nextMovieId) && c.nextActorId == old(c.nextActorId)
  {
    ghost var before := c.Snapshot();
    var res := c.AddMovieCharacter(movieId, actorId, name);
    reply := PostCharacter(if res.Success? then Resolved(res.value) else Rejected(res.error));
    PostCharacterOverTables(before, movieId, actorId);
  }

  /** GET /movies/{id}/characters over the tables: 200 with exactly the movie's character rows. */
  lemma GetCharactersOverTables(t: Tables, m: nat)
    requires KeyedByPrimaryKey(t)
    ensures var r := GetCharacters(Resolved(Movies.ListMoviesCharacters(t, m)));
            && r.Respond? && r.status == StatusOk && r.body.Payload?
            && (forall x :: x in r.body.value <==> x in t.characters.Values && x.movieId == m)
  {
    Movies.ListMoviesCharactersExactly(t, m);
  }
}
