/**
 * The five handlers on `/api/usuarios`, each a transition from the store to a
 * response and the store that replaces it. They behave as app.js does,
 * including the two handlers that keep running after an error response.
 */
module Handlers {
  import opened Wrappers
  import opened Store
  import opened Validation

  const NotFoundMessage: string := "Usuario no encontrado"
  const FoundPrefix: string := "Usuario encontrado: "

  /** What a response carries. */
  datatype Body =
    | Message(text: string)  // plain text
    | Invalid(reason: Reason) // the validator's first error message
    | One(user: Usuario)      // one record as JSON
    | All(users: Usuarios)    // the whole store as JSON
    | ServerError             // Express's answer to an error thrown before any send

  /**
   * A JavaScript error the handler raises. The first two come after the
   * handler has sent its response; the third comes before, so Express answers
   * with a 500 instead.
   */
  datatype Fault =
    | ReadOfUndefined    // reading `nombre` of the missing record
    | HeadersAlreadySent // a second `send` on the same response
    | UnrenderableName   // a template literal cannot turn the stored name into a string

  /** The response the client receives, and the error raised after it, if any. */
  datatype Response = Response(status: int, body: Body, fault: Option<Fault>)

  /** One transition: the response and the store after the request. */
  datatype Step = Step(response: Response, store: Usuarios)

  /** How a template literal renders a stored name; None when the conversion throws. */
  function Render(n: Nombre): Option<string>
  {
    match n
    case Missing => Some("undefined")
    case Text(s) => Some(s)
    case NonText(r) => r
  }

  /** The response to a GET whose record is found. */
  function Found(u: Usuario): Response
  {
    match Render(u.nombre)
    case Some(t) => Response(200, Message(FoundPrefix + t), None)
    case None => Response(500, ServerError, Some(UnrenderableName))
  }

  /** GET /api/usuarios: the whole store, in order. */
  function ListUsuarios(store: Usuarios): Step
  {
    Step(Response(200, All(store), None), store)
  }

  /**
   * GET /api/usuarios/:id. A hit answers with the record's name, unless the
   * stored name cannot be turned into a string, in which case the template
   * literal throws and Express answers 500. A miss sends 404 and then falls
   * through to read `nombre` of the missing record, which raises an error.
   */
  function GetUsuario(store: Usuarios, key: Option<int>): (r: Step)
    ensures r.store == store
    ensures !Present(store, key) ==>
      r.response == Response(404, Message(NotFoundMessage), Some(ReadOfUndefined))
    ensures Present(store, key) ==>
      exists i :: FirstMatch(store, key, i) &&
        match Render(store[i].nombre)
        case Some(t) => r.response == Response(200, Message(FoundPrefix + t), None)
        case None => r.response == Response(500, ServerError, Some(UnrenderableName))
  {
    match Find(store, key)
    case None => Step(Response(404, Message(NotFoundMessage), Some(ReadOfUndefined)), store)
    case Some(u) => Step(Found(u), store)
  }

  /**
   * POST /api/usuarios. A valid name is appended as a new record whose id is
   * the store's length plus one; an invalid one is answered with 400.
   */
  function CreateUsuario(store: Usuarios, nombre: Nombre): (r: Step)
    ensures r.response.fault.None?
    ensures r.response.status == 200 <==> Valid(nombre)
    ensures r.response.status == 200 ==>
      && |r.store| == |store| + 1
      && r.store[..|store|] == store
      && r.store[|store|] == Usuario(|store| + 1, nombre)
      && r.response.body == One(r.store[|store|])
    ensures r.response.status != 200 ==>
      && r.response.status == 400
      && r.response.body.Invalid?
      && r.store == store
  {
    var v := Validate(nombre);
    if v.error.None? then
      var u := Usuario(|store| + 1, nombre);
      Step(Response(200, One(u), None), store + [u])
    else
      Step(Response(400, Invalid(v.error.value), None), store)
  }

  /**
   * PUT /api/usuarios/:id. A miss is answered with 404. A hit has its name
   * replaced by the validator's value, and that happens whether or not the
   * name passed: after a failure the handler sends 400, keeps going, stores
   * the rejected name and fails on its second `send`.
   */
  function UpdateUsuario(store: Usuarios, key: Option<int>, nombre: Nombre): (r: Step)
    ensures !Present(store, key) ==>
      r == Step(Response(404, Message(NotFoundMessage), None), store)
    ensures Present(store, key) ==>
      && |r.store| == |store|
      && (exists i :: FirstMatch(store, key, i)
            && r.store[i] == Usuario(store[i].id, nombre)
            && (forall j :: 0 <= j < |store| && j != i ==> r.store[j] == store[j])
            && (Valid(nombre) ==> r.response == Response(200, One(r.store[i]), None)))
      && (!Valid(nombre) ==>
            && r.response.status == 400
            && r.response.body.Invalid?
            && r.response.fault == Some(HeadersAlreadySent))
  {
    match FirstIndex(store, key)
    case None => Step(Response(404, Message(NotFoundMessage), None), store)
    case Some(i) =>
      var v := Validate(nombre);
      var u := store[i].(nombre := v.value);
      if v.error.None? then
        Step(Response(200, One(u), None), store[i := u])
      else
        Step(Response(400, Invalid(v.error.value), Some(HeadersAlreadySent)), store[i := u])
  }

  /**
   * DELETE /api/usuarios/:id. A miss is answered with 404; a hit removes the
   * first matching record, keeps the others in order and returns it.
   */
  function DeleteUsuario(store: Usuarios, key: Option<int>): (r: Step)
    ensures !Present(store, key) ==>
      r == Step(Response(404, Message(NotFoundMessage), None), store)
    ensures Present(store, key) ==>
      && |r.store| == |store| - 1
      && exists i :: FirstMatch(store, key, i)
           && r.response == Response(200, One(store[i]), None)
           && (forall j :: 0 <= j < i ==> r.store[j] == store[j])
           && (forall j :: i <= j < |r.store| ==> r.store[j] == store[j + 1])
  {
    match FirstIndex(store, key)
    case None => Step(Response(404, Message(NotFoundMessage), None), store)
    case Some(i) =>
      var rest := store[..i] + store[i + 1..];
      assert forall j :: i <= j < |rest| ==> rest[j] == store[j + 1];
      Step(Response(200, One(store[i]), None), rest)
  }

  /** A request to one of the routes; the path id is already parsed. */
  datatype Request =
    | GetAll
    | GetById(key: Option<int>)
    | Post(nombre: Nombre)
    | Put(key: Option<int>, nombre: Nombre)
    | DeleteById(key: Option<int>)

  /** Routes a request to its handler. */
  function Handle(store: Usuarios, req: Request): Step
  {
    match req
    case GetAll => ListUsuarios(store)
    case GetById(key) => GetUsuario(store, key)
    case Post(n) => CreateUsuario(store, n)
    case Put(key, n) => UpdateUsuario(store, key, n)
    case DeleteById(key) => DeleteUsuario(store, key)
  }
}
