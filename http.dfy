/**
 * What the route handlers share: the outcome of a repository call, the
 * reply a handler produces, the catch rule that turns selected engine error
 * codes into 409 Conflict, and the check on the `{id}` path parameter that
 * runs before any handler.
 */
module Http {
  import opened Common

  /** A repository call either resolves with a value or rejects with the engine's error. */
  datatype Outcome<+T> = Resolved(value: T) | Rejected(error: DbError)

  /** What a handler answers with: a body, an empty reply, the created resource, or an error object. */
  datatype Body<+T> = NoBody | Payload(value: T) | Location(id: nat, path: string) | Problem

  /** A reply with a status code, or the error thrown on to the server. */
  datatype Reply<+T> = Respond(status: nat, body: Body<T>) | Rethrow(error: DbError)

  const StatusOk: nat := 200
  const StatusCreated: nat := 201
  const StatusNoContent: nat := 204
  const StatusBadRequest: nat := 400
  const StatusNotFound: nat := 404
  const StatusConflict: nat := 409
  const StatusNotImplemented: nat := 501

  /** The error carries one of `codes`. */
  predicate HasCode(e: DbError, codes: set<string>) {
    e.code.Some? && e.code.value in codes
  }

  /** A catch block that answers 409 for the listed codes and throws anything else on unchanged. */
  function CatchAsConflict<T>(e: DbError, codes: set<string>): (r: Reply<T>)
    ensures r == Respond(StatusConflict, Problem) <==> HasCode(e, codes)
    ensures r.Rethrow? <==> !HasCode(e, codes)
    ensures r.Rethrow? ==> r.error == e
  {
    if HasCode(e, codes) then Respond(StatusConflict, Problem) else Rethrow(e)
  }

  /** A lookup handler: the row with 200, 404 when absent, a rejection thrown on. */
  function FoundOrNotFound<T>(o: Outcome<Option<T>>): (r: Reply<T>)
    ensures r.Respond? <==> o.Resolved?
    ensures o.Resolved? && o.value.Some? ==> r == Respond(StatusOk, Payload(o.value.value))
    ensures r.Respond? && r.status == StatusNotFound <==> o == Resolved(None)
    ensures o.Rejected? ==> r == Rethrow(o.error)
  {
    match o
    case Resolved(Some(x)) => Respond(StatusOk, Payload(x))
    case Resolved(None) => Respond(StatusNotFound, Problem)
    case Rejected(e) => Rethrow(e)
  }

  /**
   * A handler whose value is an array, returned with `|| notFound()`: an
   * array is never falsy, so every resolved value is answered with 200.
   */
  function Returned<T>(o: Outcome<seq<T>>): (r: Reply<seq<T>>)
    ensures o.Resolved? ==> r == Respond(StatusOk, Payload(o.value))
    ensures o.Rejected? ==> r == Rethrow(o.error)
    ensures r.Respond? ==> r.status != StatusNotFound
  {
    match o
    case Resolved(rows) => Respond(StatusOk, Payload(rows))
    case Rejected(e) => Rethrow(e)
  }

  /** A handler on the boolean "a row matched": 204 with no body, else 404. */
  function MatchedOrNotFound<T>(found: bool): (r: Reply<T>)
    ensures found ==> r == Respond(StatusNoContent, NoBody)
    ensures !found ==> r == Respond(StatusNotFound, Problem)
    ensures r.status == StatusNoContent <==> found
    ensures r.status == StatusNotFound <==> !found
  {
    if found then Respond(StatusNoContent, NoBody) else Respond(StatusNotFound, Problem)
  }

  // ----- the {id} path parameter -----

  predicate IsDigit(c: char) {
    '0' <= c <= '9'
  }

  /** The decimal value of a string of digits. */
  function DecimalValue(s: string): nat
    requires forall i :: 0 <= i < |s| ==> IsDigit(s[i])
  {
    if s == [] then 0
    else
      assert IsDigit(s[|s| - 1]);
      DecimalValue(s[..|s| - 1]) * 10 + (s[|s| - 1] as int - '0' as int)
  }

  /** The decimal numeral of `n`, as a template literal writes a number. */
  function NatToString(n: nat): (s: string)
    ensures |s| > 0
    ensures forall i :: 0 <= i < |s| ==> IsDigit(s[i])
    decreases n
  {
    var d := ['0' + (n % 10) as char];
    if n < 10 then d else NatToString(n / 10) + d
  }

  /** Reading back the numeral of `n` gives `n`. */
  lemma {:induction false} DecimalValueOfNatToString(n: nat)
    ensures DecimalValue(NatToString(n)) == n
    decreases n
  {
    var s := NatToString(n);
    if n >= 10 {
      DecimalValueOfNatToString(n / 10);
      assert s[..|s| - 1] == NatToString(n / 10);
    }
  }

  /**
   * The `{id}` rule, a required number of at least 1: a non-empty string of
   * decimal digits whose value is at least 1 gives that value; anything else
   * is refused.
   */
  function ValidateParamsId(param: string): (r: Option<nat>)
    ensures r.Some? <==> |param| > 0 && (forall i :: 0 <= i < |param| ==> IsDigit(param[i])) && DecimalValue(param) >= 1
    ensures r.Some? ==> r.value >= 1 && r.value == DecimalValue(param)
  {
    if |param| > 0 && (forall i :: 0 <= i < |param| ==> IsDigit(param[i])) && DecimalValue(param) >= 1
    then Some(DecimalValue(param))
    else None
  }

  /** The parameter rule accepts the numeral of every id the tables hand out, and refuses 0. */
  lemma ValidateNumeral(n: nat)
    ensures ValidateParamsId(NatToString(n)) == if n >= 1 then Some(n) else None
  {
    DecimalValueOfNatToString(n);
  }

  /** A route with an `{id}` parameter: 400 when the rule refuses it, before the handler runs. */
  function WithParamsId<T>(param: string, handle: nat -> Reply<T>): (r: Reply<T>)
    ensures ValidateParamsId(param).None? ==> r == Respond(StatusBadRequest, Problem)
    ensures ValidateParamsId(param).Some? ==> r == handle(ValidateParamsId(param).value)
  {
    match ValidateParamsId(param)
    case None => Respond(StatusBadRequest, Problem)
    case Some(id) => handle(id)
  }

  /** The path parameters of a request, by name. */
  type Params = map<string, string>

  /**
   * A params schema whose every key is a required id: refused when a
   * parameter is one the schema does not declare (joi refuses unknown keys),
   * when a declared one is missing, or when a value breaks the `{id}` rule.
   */
  function ValidateParams(params: Params, schema: set<string>): (r: Option<map<string, nat>>)
    ensures r.Some? <==> params.Keys == schema && forall k :: k in schema ==> ValidateParamsId(params[k]).Some?
    ensures forall k :: k in params && k !in schema ==> r.None?
    ensures r.Some? ==> r.value.Keys == schema && forall k :: k in schema ==> r.value[k] == ValidateParamsId(params[k]).value
  {
    if params.Keys == schema && forall k :: k in schema ==> ValidateParamsId(params[k]).Some?
    then Some(map k | k in schema :: ValidateParamsId(params[k]).value)
    else None
  }

  /** On a route whose only parameter is `{id}`, the schema rule is the `{id}` rule. */
  lemma ParamsIdIsOneKeySchema(param: string)
    ensures var r := ValidateParams(map["id" := param], {"id"});
            && (r.Some? <==> ValidateParamsId(param).Some?)
            && (r.Some? ==> r.value == map["id" := ValidateParamsId(param).value])
  {
    var params := map["id" := param];
    assert params.Keys == {"id"};
    if ValidateParamsId(param).Some? {
      var r := ValidateParams(params, {"id"});
      assert r.value.Keys == {"id"};
    }
  }

  /** The reply to a successful insert: 201 with the new id and the resource's path under `route`. */
  function CreatedAt<T>(route: string, id: nat): (r: Reply<T>)
    ensures r.Respond? && r.status == StatusCreated && r.body.Location? && r.body.id == id
    ensures r.body.path == route + "/" + NatToString(id)
  {
    Respond(StatusCreated, Location(id, route + "/" + NatToString(id)))
  }

  /**
   * The path of a created resource leads back to it: the segment after the
   * route is a parameter the `{id}` rule accepts, with the created id.
   */
  lemma CreatedPathRoundTrip(route: string, id: nat)
    requires id >= 1
    ensures var path := CreatedAt<()>(route, id).body.path;
            |path| > |route| + 1 && path[..|route| + 1] == route + "/"
            && ValidateParamsId(path[|route| + 1..]) == Some(id)
  {
    var path := CreatedAt<()>(route, id).body.path;
    assert path[|route| + 1..] == NatToString(id);
    ValidateNumeral(id);
  }
}
