/**
 * The two migrations of the catalog: create-movie adds the movie table,
 * movie-character adds the join table between movies and actors. The
 * schema is a map from table name to its definition; CREATE TABLE and DROP
 * TABLE are functions on it with the refusals MySQL applies, and a
 * `Migrator` runs each migration's `up` and `down` against its schema.
 */
module Migrations {
  import opened Common

  datatype SqlType = IntUnsigned | Int | Varchar(length: nat) | SqlDate

  datatype Column = Column(name: string, sqlType: SqlType, nullable: bool, autoIncrement: bool)

  /** What happens to a child row when its parent row is deleted. */
  datatype OnDelete = NoAction | Cascade

  datatype ForeignKey = ForeignKey(column: string, parent: string, parentColumn: string, onDelete: OnDelete)

  datatype TableDef = TableDef(
    columns: seq<Column>,
    primaryKey: seq<string>,
    uniqueKeys: seq<seq<string>>,
    foreignKeys: seq<ForeignKey>)

  type Schema = map<string, TableDef>

  /** Why MySQL refuses a CREATE TABLE or a DROP TABLE. */
  datatype MigrationError =
    | TableExists        // CREATE TABLE of a name already in use
    | MissingParent      // a foreign key names a table that does not exist
    | UnknownTable       // DROP TABLE of a name not in use
    | ReferencedByChild  // DROP TABLE of a table another table's foreign key names

  const Movie := "movie"
  const MovieCharacter := "movie_character"
  const Genre := "genre"
  const Actor := "actor"

  /** The movie table of the create-movie migration. */
  const MovieDef := TableDef(
    [ Column("id", IntUnsigned, false, true),
      Column("name", Varchar(255), true, false),
      Column("synopsis", Varchar(1000), true, false),
      Column("releasedAt", SqlDate, true, false),
      Column("runtime", Int, true, false),
      Column("genreId", IntUnsigned, true, false) ],
    ["id"],
    [["name"]],
    [ForeignKey("genreId", Genre, "id", NoAction)])

  /** The movie_character table of the movie-character migration. */
  const MovieCharacterDef := TableDef(
    [ Column("movieId", IntUnsigned, false, false),
      Column("actorId", IntUnsigned, false, false),
      Column("name", Varchar(255), true, false) ],
    ["movieId", "actorId"],
    [],
    [ ForeignKey("movieId", Movie, "id", Cascade),
      ForeignKey("actorId", Actor, "id", Cascade) ])

  predicate HasColumn(def: TableDef, name: string) {
    exists c :: c in def.columns && c.name == name
  }

  /** The column named `name` of `def` can hold NULL. */
  predicate Nullable(def: TableDef, name: string) {
    exists c :: c in def.columns && c.name == name && c.nullable
  }

  /** Every key names declared columns, and primary-key columns are NOT NULL. */
  predicate WellFormed(def: TableDef) {
    && (forall i, j :: 0 <= i < j < |def.columns| ==> def.columns[i].name != def.columns[j].name)
    && (forall k :: k in def.primaryKey ==> HasColumn(def, k) && !Nullable(def, k))
    && (forall u, k :: u in def.uniqueKeys && k in u ==> HasColumn(def, k))
    && (forall fk :: fk in def.foreignKeys ==> HasColumn(def, fk.column))
  }

  /** Every foreign key names a table that exists. */
  predicate Closed(s: Schema) {
    forall n, fk :: n in s && fk in s[n].foreignKeys ==> fk.parent in s
  }

  /** Some table other than `name` has a foreign key naming `name`. */
  predicate Referenced(s: Schema, name: string) {
    exists n, fk :: n in s && n != name && fk in s[n].foreignKeys && fk.parent == name
  }

  /** CREATE TABLE `name`: refused when the name is taken or a parent table is missing. */
  function CreateTable(s: Schema, name: string, def: TableDef): (r: Result<Schema, MigrationError>)
    ensures r.Success? <==> name !in s && forall fk :: fk in def.foreignKeys ==> fk.parent in s || fk.parent == name
    ensures r.Success? ==> r.value.Keys == s.Keys + {name} && r.value[name] == def
                           && forall n :: n in s ==> r.value[n] == s[n]
    ensures name in s ==> r == Failure(TableExists)
    ensures r.Failure? ==> r.error in {TableExists, MissingParent}
  {
    if name in s then Failure(TableExists)
    else if exists fk :: fk in def.foreignKeys && fk.parent !in s && fk.parent != name then Failure(MissingParent)
    else Success(s[name := def])
  }

  /** DROP TABLE `name`: refused when there is no such table or another table references it. */
  function DropTable(s: Schema, name: string): (r: Result<Schema, MigrationError>)
    ensures r.Success? <==> name in s && !Referenced(s, name)
    ensures r.Success? ==> r.value.Keys == s.Keys - {name} && forall n :: n in r.value ==> r.value[n] == s[n]
    ensures name !in s ==> r == Failure(UnknownTable)
    ensures r.Failure? ==> r.error in {UnknownTable, ReferencedByChild}
  {
    if name !in s then Failure(UnknownTable)
    else if Referenced(s, name) then Failure(ReferencedByChild)
    else Success(s - {name})
  }

  /** Creating and dropping tables never leaves a foreign key pointing at a missing table. */
  lemma CreateDropKeepClosed(s: Schema, name: string, def: TableDef)
    requires Closed(s)
    ensures CreateTable(s, name, def).Success? ==> Closed(CreateTable(s, name, def).value)
    ensures DropTable(s, name).Success? ==> Closed(DropTable(s, name).value)
  {
  }

  /** Dropping a table just created restores the schema, unless it references itself. */
  lemma DropUndoesCreate(s: Schema, name: string, def: TableDef)
    requires Closed(s)
    requires forall fk :: fk in def.foreignKeys ==> fk.parent != name
    requires CreateTable(s, name, def).Success?
    ensures DropTable(CreateTable(s, name, def).value, name) == Success(s)
  {
    var s' := CreateTable(s, name, def).value;
    assert s' - {name} == s;
  }

  /** The definitions carry the keys and the NULL rules the migrations declare. */
  lemma DefinitionsWellFormed()
    ensures WellFormed(MovieDef) && WellFormed(MovieCharacterDef)
    ensures !Nullable(MovieCharacterDef, "movieId") && !Nullable(MovieCharacterDef, "actorId")
    ensures Nullable(MovieCharacterDef, "name") && Nullable(MovieDef, "genreId") && Nullable(MovieDef, "name")
  {
    assert MovieDef.columns[0].name == "id";
    assert MovieDef.columns[1].name == "name" && MovieDef.columns[5].name == "genreId";
    assert MovieCharacterDef.columns[0].name == "movieId" && MovieCharacterDef.columns[1].name == "actorId";
    assert MovieCharacterDef.columns[2].name == "name";
  }

  /** The tables whose rows go with a deleted row of `parent`. */
  function CascadesFrom(s: Schema, parent: string): set<string> {
    set n | n in s && exists fk :: fk in s[n].foreignKeys && fk.parent == parent && fk.onDelete == Cascade
  }

  /** Deleting a referenced row of `parent` is refused by some table's foreign key. */
  predicate RestrictsDelete(s: Schema, parent: string) {
    exists n, fk :: n in s && fk in s[n].foreignKeys && fk.parent == parent && fk.onDelete == NoAction
  }

  /** A schema the migrations can start from: genre and actor exist, neither migration has run. */
  predicate Before(s: Schema) {
    Closed(s) && Genre in s && Actor in s && Movie !in s && MovieCharacter !in s
  }

  /** Both `up`s in order, from a schema that allows them. */
  function Migrated(s: Schema): Schema
    requires Before(s)
  {
    s[Movie := MovieDef][MovieCharacter := MovieCharacterDef]
  }

  /**
   * Running create-movie then movie-character succeeds, and the resulting
   * schema restricts deleting a referenced genre, cascades deleting a movie or
   * an actor into movie_character, and lets a movie row go without refusal.
   */
  lemma MigrateUp(s: Schema)
    requires Before(s)
    ensures CreateTable(s, Movie, MovieDef) == Success(s[Movie := MovieDef])
    ensures CreateTable(s[Movie := MovieDef], MovieCharacter, MovieCharacterDef) == Success(Migrated(s))
    ensures Closed(Migrated(s))
    ensures RestrictsDelete(Migrated(s), Genre)
    ensures CascadesFrom(Migrated(s), Movie) == {MovieCharacter}
    ensures MovieCharacter in CascadesFrom(Migrated(s), Actor)
    ensures !RestrictsDelete(Migrated(s), Movie)
  {
  }

  /**
   * While movie_character exists, create-movie's `down` is refused; rolling
   * back in reverse order (movie-character, then create-movie) restores the
   * schema the migrations started from, with neither table left.
   */
  lemma RollbackRestores(s: Schema)
    requires Before(s)
    ensures DropTable(Migrated(s), Movie) == Failure(ReferencedByChild)
    ensures DropTable(Migrated(s), MovieCharacter) == Success(s[Movie := MovieDef])
    ensures DropTable(s[Movie := MovieDef], Movie) == Success(s)
  {
    MigrateUp(s);
    var m := Migrated(s);
    assert MovieCharacterDef.foreignKeys[0] in m[MovieCharacter].foreignKeys;
    DropUndoesCreate(s[Movie := MovieDef], MovieCharacter, MovieCharacterDef);
    DropUndoesCreate(s, Movie, MovieDef);
  }

  /** The schema a database is in; each method is one migration's `up` or `down`. */
  class Migrator {
    var tables: Schema

    constructor (initial: Schema)
      ensures tables == initial
    {
      tables := initial;
    }

    /** create-movie `up`: CREATE TABLE movie, or the refusal with the schema unchanged. */
    method UpCreateMovie() returns (err: Option<MigrationError>)
      modifies this
      ensures var r := CreateTable(old(tables), Movie, MovieDef);
              && (r.Success? ==> err == None && tables == r.value)
              && (r.Failure? ==> err == Some(r.error) && tables == old(tables))
      ensures err == None ==> Movie in tables && tables[Movie] == MovieDef
    {
      var r := CreateTable(tables, Movie, MovieDef);
      if r.Success? {
        tables := r.value;
        err := None;
      } else {
        err := Some(r.error);
      }
    }

    /** create-movie `down`: DROP TABLE movie, or the refusal with the schema unchanged. */
    method DownCreateMovie() returns (err: Option<MigrationError>)
      modifies this
      ensures var r := DropTable(old(tables), Movie);
              && (r.Success? ==> err == None && tables == r.value)
              && (r.Failure? ==> err == Some(r.error) && tables == old(tables))
      ensures err == None ==> Movie !in tables
    {
      var r := DropTable(tables, Movie);
      if r.Success? {
        tables := r.value;
        err := None;
      } else {
        err := Some(r.error);
      }
    }

    /** movie-character `up`: CREATE TABLE movie_character, or the refusal with the schema unchanged. */
    method UpMovieCharacter() returns (err: Option<MigrationError>)
      modifies this
      ensures var r := CreateTable(old(tables), MovieCharacter, MovieCharacterDef);
              && (r.Success? ==> err == None && tables == r.value)
              && (r.Failure? ==> err == Some(r.error) && tables == old(tables))
      ensures err == None ==> MovieCharacter in tables && tables[MovieCharacter] == MovieCharacterDef
    {
      var r := CreateTable(tables, MovieCharacter, MovieCharacterDef);
      if r.Success? {
        tables := r.value;
        err := None;
      } else {
        err := Some(r.error);
      }
    }

    /** movie-character `down`: DROP TABLE movie_character, or the refusal with the schema unchanged. */
    method DownMovieCharacter() returns (err: Option<MigrationError>)
      modifies this
      ensures var r := DropTable(old(tables), MovieCharacter);
              && (r.Success? ==> err == None && tables == r.value)
              && (r.Failure? ==> err == Some(r.error) && tables == old(tables))
      ensures err == None ==> MovieCharacter !in tables
    {
      var r := DropTable(tables, MovieCharacter);
      if r.Success? {
        tables := r.value;
        err := None;
      } else {
        err := Some(r.error);
      }
    }
  }
}
