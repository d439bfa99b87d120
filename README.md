# Movie catalog: relational store and route rules

This project models the core of a small HTTP back end for a movie catalog. The back end keeps genres, movies, actors and the characters actors play in movies in a MySQL database, and serves them under `/actors` and `/movies`. The model has four parts:

- **The database** (`db.dfy`, `sql.dfy`). The four tables are maps keyed by primary key. `Db.Consistent` collects the constraints the two migrations declare:
  - the primary keys;
  - the unique movie name;
  - the nullable `genreId` foreign key, which has no `ON DELETE` action;
  - the composite key of `movie_character`, with its two cascading foreign keys.

  `MovieWriteError` and `CharacterInsertError` give the engine's verdict on a write: which constraint refuses it, and with which MySQL error code. A SELECT without ORDER BY returns its rows in an order the engine chooses. `Sql.Enumerate` models that order as an unspecified choice. `Sql.OrderByDesc` sorts by a key and leaves ties to the engine.
- **The repositories** (`actors.dfy`, `movies.dfy`, `genres.dfy`, `store.dfy`).
  - Every read-only query is a function of the tables. That covers lookups, joins, and the two GROUP BY aggregations "favourite genre" and "actors by appearances".
  - Every insert, update and delete is a method of the class `Store.Catalog`. The class holds the tables and the auto-increment counters. Each method keeps `Valid()`, which is `Consistent` plus fresh-id bookkeeping, and states the whole new state. A refused statement changes nothing.
- **The migrations** (`migrations.dfy`). The migrations are the table definitions, the CREATE TABLE / DROP TABLE refusals MySQL applies, and a `Migrator` class whose methods are the `up`s and `down`s.
- **The route handlers** (`http.dfy`, `actor_routes.dfy`, `movie_routes.dfy`).
  - Each handler is a pure function from the outcome of a repository call (resolved value or rejected error) to a reply (status and body, or the error thrown on).
  - The `{id}` parameter rule runs before the handler.
  - The end-to-end lemmas feed the handlers the engine's verdicts, and the end-to-end methods run a handler on what a `Store.Catalog` write returns. They show which catch rule applies where: POST /movies answers 409 for both a taken name and a missing genre, but PUT /movies throws the missing-genre error on.

## Model

| member | source | states |
|---|---|---|
| Db.MovieWriteError | src/db/migrations/20210228115346_create-movie.ts:14-16 | a movie write is refused with ER_DUP_ENTRY exactly when another movie has the name, with ER_NO_REFERENCED_ROW_2 exactly when the name is free but the non-null genre does not exist, and accepted otherwise |
| Db.MovieWriteKeepsConstraints | src/db/migrations/20210228115346_create-movie.ts:14-16 | the engine accepts an insert or update of a movie row exactly when the resulting tables still meet every constraint |
| Db.CharacterInsertError | src/db/migrations/20210228115726_movie-character.ts:11-13 | an insert into movie_character is refused with ER_DUP_ENTRY exactly when the (movieId, actorId) pair already has a row; it is accepted exactly when the pair is new and both the movie and the actor exist; otherwise it fails with ER_NO_REFERENCED_ROW_2 |
| Db.CharacterInsertKeepsConstraints | src/db/migrations/20210228115726_movie-character.ts:11-13 | a new character row is accepted exactly when the resulting tables still meet every constraint |
| Db.GenreDeleteKeepsConstraints | src/db/migrations/20210228115346_create-movie.ts:16 | deleting a genre keeps the constraints exactly when no movie references it, which is why the un-cascaded foreign key has to refuse the delete |
| Db.DeleteMovie | src/db/migrations/20210228115726_movie-character.ts:12 | deleting a movie removes that row only and, through the cascade, exactly the character rows of that movie; other tables are unchanged |
| Db.DeleteActor | src/db/migrations/20210228115726_movie-character.ts:13 | deleting an actor removes that row only and, through the cascade, exactly the character rows of that actor |
| Db.DeleteMissingMovie | src/lib/movies.ts:26-29 | deleting a movie id that has no row changes nothing |
| Db.DeleteMissingActor | src/lib/actors.ts:21-24 | deleting an actor id that has no row changes nothing |
| Db.DeleteMovieKeepsConstraints | src/db/migrations/20210228115726_movie-character.ts:12 | after a cascading movie delete every constraint still holds |
| Db.DeleteActorKeepsConstraints | src/db/migrations/20210228115726_movie-character.ts:13 | after a cascading actor delete every constraint still holds |
| Db.MovieDeleteNeedsCascade | src/db/migrations/20210228115726_movie-character.ts:12 | deleting the movie row alone, without the cascade, keeps the constraints exactly when no character row refers to the movie |
| Db.CharactersInGenreCountMovies | src/db/migrations/20210228115726_movie-character.ts:11 | because of the composite primary key, the number of an actor's joined character rows in a genre equals the number of their movies of that genre |
| Actors.List | src/lib/actors.ts:12-14 | every actor row, each once |
| Actors.Find | src/lib/actors.ts:16-18 | the actor whose id is the argument, or absent exactly when no row has that id |
| Actors.ListMovies | src/lib/actors.ts:38-44 | one result row per joined character row of the actor |
| Actors.ListMoviesExactly | src/lib/actors.ts:38-44 | exactly the movies with a character row for the actor, none twice, and empty exactly when the actor has no character row |
| Actors.ListCharacters | src/lib/actors.ts:46-51 | position i holds the name of the i-th of the actor's character rows in the engine's enumeration, which lists each such row exactly once; so one name per row (equal names repeat), and exactly the names of those rows |
| Actors.ListMoviesCountByGenre | src/lib/actors.ts:71-81 | one row per group, and every row is the row of a genre the actor plays in |
| Actors.ListMoviesCountByGenreExactly | src/lib/actors.ts:71-81 | each row names an existing genre with its name, and its count is the number of the actor's movies of that genre (at least 1); every genre with such a movie has a row; no genre appears twice; movies without a matching genre do not count |
| Actors.GetFavouriteGenre | src/lib/actors.ts:58-69 | at most one row; empty exactly when the actor has no movie of any genre; otherwise a row of the per-genre count whose count no other row exceeds |
| Actors.FavouriteGenreWithoutTie | src/lib/actors.ts:53-69 | when one genre strictly leads, it is the favourite: ties are the only choice left to the engine |
| Movies.List | src/lib/movies.ts:17-19 | every movie row, each once |
| Movies.Find | src/lib/movies.ts:21-23 | the movie whose id is the argument, or absent exactly when no row has that id |
| Movies.ListMoviesCharacters | src/lib/movies.ts:61-63 | one row per character of the movie |
| Movies.ListMoviesCharactersExactly | src/lib/movies.ts:61-63 | exactly the character rows whose movieId is the argument, each once |
| Movies.DeleteMovieForgetsMovie | src/lib/movies.ts:25-29 | after a movie delete the movie cannot be found, it has no character rows, every other movie is found as before, and no character row is left without its movie |
| Genres.List | src/lib/genres.ts:9-11 | every genre row, each once |
| Genres.Find | src/lib/genres.ts:13-15 | the genre whose id is the argument, or absent exactly when no row has that id |
| Genres.ListActorsByMovieAppearances | src/lib/genres.ts:36-46 | one row per actor with a character in a movie of the genre, none twice, carrying the actor's columns and ordered by non-increasing appearances |
| Genres.AppearancesCountMovies | src/lib/genres.ts:36-46 | each row's appearances is the number of the actor's movies of the genre, at least 1, and every actor with such a movie has a row |
| Store.Catalog.constructor | src/db/migrations/20210228115726_movie-character.ts:4-15 | the freshly migrated tables are empty and meet every constraint |
| Store.Catalog.RemoveActor | src/lib/actors.ts:20-24 | true iff the actor existed; afterwards it cannot be found, its character rows are gone, every other actor is unchanged, and a missing id changes nothing |
| Store.Catalog.CreateActor | src/lib/actors.ts:26-30 | inserts exactly one row with the given fields under a fresh id, returns that id, and a later find gives those fields back |
| Store.Catalog.UpdateActor | src/lib/actors.ts:32-36 | true iff the id exists; only that row's name, bio and bornAt change; a missing id changes nothing |
| Store.Catalog.RemoveGenre | src/lib/genres.ts:17-21 | Success(false) for a missing id; refused with ER_ROW_IS_REFERENCED_2, with nothing changed, exactly while a movie references the genre; otherwise Success(true) and only that row goes |
| Store.Catalog.CreateGenre | src/lib/genres.ts:23-27 | inserts one row with the name under a fresh id and returns it |
| Store.Catalog.UpdateGenre | src/lib/genres.ts:29-33 | true iff the id exists; only that row's name changes |
| Store.Catalog.RemoveMovie | src/lib/movies.ts:25-29 | true iff the movie existed; the new tables are the cascading delete, so the movie and all its character rows are gone and a missing id changes nothing |
| Store.Catalog.CreateMovie | src/lib/movies.ts:31-35 | fails with ER_DUP_ENTRY when the name is taken and with ER_NO_REFERENCED_ROW_2 when the genre is missing, changing nothing; otherwise inserts exactly the given row under the next auto-increment id, returns that id and advances the counter; a refused insert leaves the counter as it was |
| Store.Catalog.UpdateMovie | src/lib/movies.ts:37-41 | Success(false) for a missing id; refused like an insert (the movie's own name does not count as taken); otherwise true, and only that row changes: name, date, runtime and genre take the new values, and so does the synopsis unless it is absent, in which case the row keeps its own |
| Store.Catalog.AddMovieCharacter | src/lib/movies.ts:44-47 | inserts the row (movieId, actorId, name); a second insert of the same pair fails with ER_DUP_ENTRY and leaves the existing name unchanged; a missing movie or actor fails with ER_NO_REFERENCED_ROW_2 |
| Store.Catalog.UpdateMovieCharacter | src/lib/movies.ts:49-53 | true iff the row exists; only that row's name changes |
| Store.Catalog.RemoveMovieCharacter | src/lib/movies.ts:55-59 | true iff the row existed; only that row goes |
| Migrations.CreateTable | src/db/migrations/20210228115346_create-movie.ts:4-19 | CREATE TABLE succeeds exactly when the name is free and every referenced parent table exists, and adds just that table |
| Migrations.DropTable | src/db/migrations/20210228115346_create-movie.ts:22-24 | DROP TABLE succeeds exactly when the table exists and no other table references it, and removes just that table |
| Migrations.CreateDropKeepClosed | src/db/migrations/20210228115726_movie-character.ts:12-13 | no successful CREATE or DROP leaves a foreign key pointing at a missing table |
| Migrations.DropUndoesCreate | src/db/migrations/20210228115346_create-movie.ts:4-24 | `down` right after `up` restores the schema, leaving no table of that name |
| Migrations.DefinitionsWellFormed | src/db/migrations/20210228115726_movie-character.ts:7-11 | every key names declared columns; movieId and actorId are NOT NULL; the character name, the movie name and genreId are nullable |
| Migrations.MigrateUp | src/db/migrations/20210228115726_movie-character.ts:4-15 | both `up`s succeed in order; the resulting schema refuses deleting a referenced genre, cascades a movie delete into movie_character only, cascades an actor delete into movie_character, and never refuses a movie delete |
| Migrations.RollbackRestores | src/db/migrations/20210228115726_movie-character.ts:26-28 | create-movie's `down` is refused while movie_character exists; rolling back in reverse order restores the starting schema |
| Migrations.Migrator.UpCreateMovie | src/db/migrations/20210228115346_create-movie.ts:4-19 | applies CREATE TABLE movie, or reports its refusal with the schema unchanged |
| Migrations.Migrator.DownCreateMovie | src/db/migrations/20210228115346_create-movie.ts:22-24 | applies DROP TABLE movie, or reports its refusal with the schema unchanged |
| Migrations.Migrator.UpMovieCharacter | src/db/migrations/20210228115726_movie-character.ts:4-24 | applies CREATE TABLE movie_character, or reports its refusal with the schema unchanged |
| Migrations.Migrator.DownMovieCharacter | src/db/migrations/20210228115726_movie-character.ts:26-28 | applies DROP TABLE movie_character, or reports its refusal with the schema unchanged |
| Http.CatchAsConflict | src/plugins/actors/routes.ts:109-112 | 409 exactly when the error carries one of the caught codes; any other error, including one without a code, is thrown on unchanged |
| Http.FoundOrNotFound | src/plugins/actors/routes.ts:91-96 | a found row is answered with 200 and the row unchanged, an absent one with 404, a rejection is thrown on |
| Http.Returned | src/plugins/actors/routes.ts:134-139 | a resolved array is answered with 200 and the array, never 404, even when empty |
| Http.MatchedOrNotFound | src/plugins/actors/routes.ts:128-132 | 204 with no body exactly when a row matched, 404 exactly when none did |
| Http.DecimalValueOfNatToString | src/plugins/actors/routes.ts:105 | reading back the decimal numeral of an id gives the id |
| Http.ValidateParamsId | src/plugins/actors/routes.ts:20-24 | a parameter is accepted exactly when it is a decimal number of at least 1, and then yields that number |
| Http.ValidateParams | src/plugins/movies/routes.ts:20-24 | the path parameters pass a schema of required ids exactly when they are the schema's keys, no more and no fewer, and each passes the `{id}` rule; any undeclared parameter is refused |
| Http.ParamsIdIsOneKeySchema | src/plugins/movies/routes.ts:20-24 | on a route whose only parameter is `{id}`, the schema accepts exactly what the `{id}` rule accepts, with the same value |
| Http.ValidateNumeral | src/plugins/actors/routes.ts:20-24 | the numeral of every id of at least 1 is accepted with that id, and 0 is refused |
| Http.WithParamsId | src/plugins/actors/routes.ts:49-53 | a refused parameter is answered with 400 and the handler is not consulted; an accepted one goes to the handler with its value |
| Http.CreatedAt | src/plugins/actors/routes.ts:103-107 | 201 with the new id and the path made of the route, a slash and the id |
| Http.CreatedPathRoundTrip | src/plugins/actors/routes.ts:103-107 | the last segment of a created path is accepted by the id rule and yields the created id |
| ActorRoutes.GetAll | src/plugins/actors/routes.ts:87-89 | the list with 200; a rejection is thrown on |
| ActorRoutes.Get | src/plugins/actors/routes.ts:91-96 | 404 exactly when find yields nothing, otherwise 200 with the row unchanged |
| ActorRoutes.Post | src/plugins/actors/routes.ts:98-113 | 201 with `{id, path: "/actors/" + id}`; ER_DUP_ENTRY answers 409; any other error is thrown on unchanged |
| ActorRoutes.Put | src/plugins/actors/routes.ts:115-126 | 204 exactly when update returns true, 404 exactly when false; ER_DUP_ENTRY answers 409, anything else is thrown on |
| ActorRoutes.Remove | src/plugins/actors/routes.ts:128-132 | 204 with no body exactly when remove returns true, 404 exactly when false; errors are thrown on |
| ActorRoutes.ListMovies | src/plugins/actors/routes.ts:134-139 | the array with 200, never 404 |
| ActorRoutes.ListCharacterNames | src/plugins/actors/routes.ts:141-146 | the array with 200, never 404 |
| ActorRoutes.GetFavouriteGenre | src/plugins/actors/routes.ts:148-153 | the array with 200, never 404 |
| ActorRoutes.ListMoviesCountByGenre | src/plugins/actors/routes.ts:155-160 | the array with 200, never 404 |
| ActorRoutes.GetOverTables | src/plugins/actors/routes.ts:91-96 | over the tables: 400 for a refused parameter, 404 exactly when no actor has the id, else 200 with that actor's row unchanged |
| ActorRoutes.RelationshipsNeverNotFound | src/plugins/actors/routes.ts:134-160 | an actor with no character rows gets 200 with an empty array from all four relationship routes |
| MovieRoutes.GetAll | src/plugins/movies/routes.ts:96-98 | the list with 200; a rejection is thrown on |
| MovieRoutes.Get | src/plugins/movies/routes.ts:100-105 | 404 exactly when find yields nothing, otherwise 200 with the row |
| MovieRoutes.Post | src/plugins/movies/routes.ts:107-122 | 201 with `{id, path: "/movies/" + id}`; ER_DUP_ENTRY and ER_NO_REFERENCED_ROW_2 answer 409; all other errors are thrown on |
| MovieRoutes.Put | src/plugins/movies/routes.ts:124-134 | 204 exactly when update returns true, 404 exactly when false; only ER_DUP_ENTRY answers 409 |
| MovieRoutes.Remove | src/plugins/movies/routes.ts:136-139 | 204 exactly when remove returns true, 404 exactly when false |
| MovieRoutes.PostCharacter | src/plugins/movies/routes.ts:142-152 | every resolved insert answers 204 (never 404); ER_DUP_ENTRY answers 409; foreign-key failures are thrown on |
| MovieRoutes.RemoveCharacter | src/plugins/movies/routes.ts:155-162 | the handler always answers 501 Not Implemented, with no repository call |
| MovieRoutes.RemoveCharacterRoute | src/plugins/movies/routes.ts:84-87 | the route answers 400 before the handler when its params schema refuses the path parameters, and the handler's reply otherwise |
| MovieRoutes.RemoveCharacterAlwaysRefused | src/plugins/movies/routes.ts:84-87 | as written, every request the route matches is refused with 400, because `actorId` is not a key of the schema, so the 501 is never sent |
| MovieRoutes.RemoveCharacterReachedWhenDeclared | src/plugins/movies/routes.ts:84-87 | with both path parameters in the schema, two valid ids reach the handler and get 501 |
| MovieRoutes.GetCharacters | src/plugins/movies/routes.ts:164-167 | the rows unchanged with 200 |
| MovieRoutes.PostNeverRethrows | src/plugins/movies/routes.ts:118-121 | POST /movies answers 201 exactly when the name is free and the genre exists, 409 exactly when either fails, and never throws an engine verdict on |
| MovieRoutes.PutOverTables | src/plugins/movies/routes.ts:130-133 | PUT /movies answers 404 for a missing id, 204 exactly when the write is accepted, and 409 exactly when the name is taken; a missing genre is thrown on as ER_NO_REFERENCED_ROW_2 |
| MovieRoutes.PostCharacterOverTables | src/plugins/movies/routes.ts:146-151 | 204 exactly for a new pair of an existing movie and actor, 409 exactly for a pair that already has a row; a missing movie or actor is thrown on as ER_NO_REFERENCED_ROW_2 |
| MovieRoutes.PostToStore | src/plugins/movies/routes.ts:107-122 | POST /movies against the store: the handler's reply to the outcome of the store's insert, with the store's next id; 201 exactly when the name is free and the genre exists; never a throw; on 201 the store holds exactly the new row under that id and the counter has advanced, and otherwise the tables and the counter are unchanged; the store stays valid |
| MovieRoutes.PutToStore | src/plugins/movies/routes.ts:124-134 | PUT /movies/{id} against the store: the handler's reply to the outcome of the store's update; ER_NO_REFERENCED_ROW_2 is thrown on exactly when the movie exists, the name is free and the genre is missing; on 204 only that movie row changes, to the new values (the old synopsis kept when none is sent), and otherwise the tables are unchanged |
| MovieRoutes.PostCharacterToStore | src/plugins/movies/routes.ts:142-152 | POST /movies/{id}/characters against the store: the handler's reply to the outcome of the store's insert; 204 exactly for a new pair of an existing movie and actor; on 204 exactly that character row is added, and otherwise the tables are unchanged |
| MovieRoutes.GetCharactersOverTables | src/plugins/movies/routes.ts:164-167 | 200 with exactly the movie's character rows |

## Left out

- Query building, the MySQL client, connections and promises are not modelled. Each repository call is one statement applied to the tables, and a call settles as a resolved value or a rejected error.
- hapi mechanics are not modelled: route registration, joi payload validation and Boom object shapes. A reply keeps only its status and a body tag. An error thrown on is `Rethrow`; the 500 that hapi turns it into is not modelled.
- The payload validation of DELETE /movies/{id}/characters/{actorId} is not modelled. hapi checks the path parameters first, and as written they are always refused (see Findings).
- `isHasCode` (src/util/types) is not part of this model. An error is a value with an optional code, and an error without a code is thrown on.
- Http.ValidateParamsId: accepts only non-empty strings of decimal digits whose value is at least 1. joi's number conversion also accepts forms such as `1.5`, `+3` or `1e2`, and rejects numbers beyond the safe-integer range; neither is modelled.
- Unsigned 32-bit ids and counter gaps are not modelled. Ids are unbounded naturals, and a refused insert does not consume an auto-increment value in the model.
- VARCHAR lengths are kept in the table definitions, but the truncation or refusal of over-long strings is not modelled.
- Db.MovieWriteError: names are compared exactly. The unique key on `name` compares under the column's collation, and MySQL's default collations ignore case (some also accents or trailing spaces), so MySQL also refuses with ER_DUP_ENTRY a name such as `matrix` next to a stored `Matrix`, which the model accepts. No collation is modelled, so `Db.MovieNamesUnique`, `Store.Catalog.CreateMovie`, `Store.Catalog.UpdateMovie`, `MovieRoutes.PostNeverRethrows`, `MovieRoutes.PutOverTables`, `MovieRoutes.PostToStore` and `MovieRoutes.PutToStore` carry the same simplification.
- Store.Catalog.CreateMovie: `runtime` is an unbounded integer. The column is a signed 32-bit INT (`INT(2)` sets only a display width), so MySQL in strict mode refuses a value outside -2147483648..2147483647, which the model stores.
- Store.Catalog.UpdateMovie: the same signed 32-bit range of `runtime` is not modelled.
- Store.Catalog.CreateMovie, Store.Catalog.UpdateMovie, Store.Catalog.AddMovieCharacter: the payload numbers `runtime`, `genreId` and `actorId` are integers (ids naturals) in the model, while the payload schema accepts any JavaScript number. MySQL rounds a fractional value into an INT column (a runtime of 90.5 is stored as 91, a fractional id is rounded before the foreign-key check), and in strict mode refuses a negative value for the unsigned `genreId` and `actorId` columns with an out-of-range error that no handler catches, so such a POST /movies is thrown on rather than answered 409. Neither the rounding nor that refusal is modelled, and `MovieRoutes.PostNeverRethrows` holds only for the non-negative integer ids the model admits.
- Migrations.MovieDef and Migrations.MovieCharacterDef state the DDL as table definitions, and `Db.Consistent` states the same keys again as the invariant of the rows; the two are connected by doc comments only, with no lemma deriving the invariant from the definitions.
- Store.Catalog.CreateMovie: a movie name is always a string in the model. The `name` column is nullable in the DDL, but the repository always writes a name.
- Dates are uninterpreted values, with no calendar arithmetic.
- When a movie write breaks both the unique name and the genre foreign key, the model reports ER_DUP_ENTRY. InnoDB checks the unique index before the foreign key; the code does not decide this itself.
- The DDL of the genre and actor tables is not part of this model. They are taken to have an auto-increment primary key and no other constraint, so `Store.Catalog.CreateActor` and `Store.Catalog.CreateGenre` never fail.
- The order of rows from a SELECT without ORDER BY, and the order among tied counts, are left to the engine: the model proves nothing about them.
- Store.Catalog.AddMovieCharacter: returns `()` on success. The array the insert resolves with is not modelled; the handler only needs its truthiness.
- `listCharacters` is declared to return strings but returns rows with a `name` column. The model returns the names.
- The counts of affected rows are "rows matched": an update that writes identical values still returns true.

## Findings

| source | as written | input that shows it | evidently intended | confidence | as-written member | corrected member |
|---|---|---|---|---|---|---|
| src/plugins/movies/routes.ts:84-87 | the params schema of DELETE /movies/{id}/characters/{actorId} is the shared `{id}` schema, which declares no `actorId`, so the parameter is refused as unknown | DELETE /movies/1/characters/2 answers 400 | the schema declares both path parameters, so the request reaches the handler and gets its 501 | medium, not executed | MovieRoutes.RemoveCharacterAlwaysRefused | MovieRoutes.RemoveCharacterReachedWhenDeclared |
