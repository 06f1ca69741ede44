/**
 * The handlers as their evident intent reads: ids that are never reused
 * while taken, a clean 404 for a missing record, and an update that stops
 * after rejecting a name. The as-written handlers stay the model of app.js;
 * these carry the properties the as-written ones lack.
 */
module Corrected {
  import opened Wrappers
  import opened Store
  import opened Validation
  import opened Handlers
  import opened Sessions

  /** The larger of 0 and every id in the store. */
  function MaxId(store: Usuarios): (m: int)
    ensures m >= 0
    ensures forall i :: 0 <= i < |store| ==> store[i].id <= m
    ensures m == 0 || exists i :: 0 <= i < |store| && store[i].id == m
  {
    if store == [] then 0
    else
      var rest := MaxId(store[..|store| - 1]);
      var last := store[|store| - 1].id;
      if last > rest then last else rest
  }

  /** With ids 1..|store| the largest id is the length, so the fix assigns what app.js assigns. */
  lemma MaxIdOfSequential(store: Usuarios)
    requires IdsSequential(store)
    ensures MaxId(store) == |store|
  {
  }

  /** POST with a fresh id: one more than the largest id in the store. */
  function CreateIntended(store: Usuarios, nombre: Nombre): (r: Step)
    ensures r.response.fault.None?
    ensures r.response.status == 200 <==> Valid(nombre)
    ensures r.response.status == 200 ==>
      && |r.store| == |store| + 1
      && r.store[..|store|] == store
      && r.store[|store|].nombre == nombre
      && (forall i :: 0 <= i < |store| ==> store[i].id < r.store[|store|].id)
      && r.response.body == One(r.store[|store|])
    ensures r.response.status != 200 ==>
      && r.response.status == 400
      && r.response.body.Invalid?
      && r.store == store
  {
    var v := Validate(nombre);
    if v.error.None? then
      var u := Usuario(MaxId(store) + 1, nombre);
      Step(Response(200, One(u), None), store + [u])
    else
      Step(Response(400, Invalid(v.error.value), None), store)
  }

  /** On a store with ids 1..|store| the corrected create behaves exactly as app.js does. */
  lemma CreateIntendedAgrees(store: Usuarios, nombre: Nombre)
    requires IdsSequential(store)
    ensures CreateIntended(store, nombre) == CreateUsuario(store, nombre)
  {
  }

  /** GET /api/usuarios/:id returning after the 404. */
  function GetIntended(store: Usuarios, key: Option<int>): (r: Step)
    ensures r.store == store
    ensures !Present(store, key) ==> r.response == Response(404, Message(NotFoundMessage), None)
    ensures Present(store, key) ==> r == GetUsuario(store, key)
  {
    match Find(store, key)
    case None => Step(Response(404, Message(NotFoundMessage), None), store)
    case Some(u) => Step(Found(u), store)
  }

  /** PUT /api/usuarios/:id returning after the 400, so a rejected name is never stored. */
  function UpdateIntended(store: Usuarios, key: Option<int>, nombre: Nombre): (r: Step)
    ensures r.response.fault.None?
    ensures !Present(store, key) ==>
      r == Step(Response(404, Message(NotFoundMessage), None), store)
    ensures Present(store, key) && !Valid(nombre) ==>
      r.response.status == 400 && r.response.body.Invalid? && r.store == store
    ensures Present(store, key) && Valid(nombre) ==>
      && |r.store| == |store|
      && exists i :: FirstMatch(store, key, i)
           && r.store[i] == Usuario(store[i].id, nombre)
           && (forall j :: 0 <= j < |store| && j != i ==> r.store[j] == store[j])
           && r.response == Response(200, One(r.store[i]), None)
  {
    match FirstIndex(store, key)
    case None => Step(Response(404, Message(NotFoundMessage), None), store)
    case Some(i) =>
      var v := Validate(nombre);
      if v.error.None? then
        var u := store[i].(nombre := v.value);
        Step(Response(200, One(u), None), store[i := u])
      else
        Step(Response(400, Invalid(v.error.value), None), store)
  }

  /** Routes a request to the corrected handlers; listing and deleting are unchanged. */
  function HandleIntended(store: Usuarios, req: Request): Step
  {
    match req
    case GetAll => ListUsuarios(store)
    case GetById(key) => GetIntended(store, key)
    case Post(n) => CreateIntended(store, n)
    case Put(key, n) => UpdateIntended(store, key, n)
    case DeleteById(key) => DeleteUsuario(store, key)
  }

  /** The store after handling the requests in order with the corrected handlers. */
  function RunIntended(store: Usuarios, reqs: seq<Request>): Usuarios
    decreases |reqs|
  {
    if reqs == [] then store else RunIntended(HandleIntended(store, reqs[0]).store, reqs[1..])
  }

  /** A corrected create keeps ids distinct and stored names valid. */
  lemma CreateIntendedKeepsInvariants(store: Usuarios, nombre: Nombre)
    requires DistinctIds(store) && NamesValid(store)
    ensures DistinctIds(CreateIntended(store, nombre).store)
    ensures NamesValid(CreateIntended(store, nombre).store)
  {
  }

  /** A corrected update keeps ids distinct and stored names valid. */
  lemma UpdateIntendedKeepsInvariants(store: Usuarios, key: Option<int>, nombre: Nombre)
    requires DistinctIds(store) && NamesValid(store)
    ensures DistinctIds(UpdateIntended(store, key, nombre).store)
    ensures NamesValid(UpdateIntended(store, key, nombre).store)
  {
  }

  /** Deleting keeps ids distinct and stored names valid. */
  lemma DeleteKeepsInvariants(store: Usuarios, key: Option<int>)
    requires DistinctIds(store) && NamesValid(store)
    ensures DistinctIds(DeleteUsuario(store, key).store)
    ensures NamesValid(DeleteUsuario(store, key).store)
  {
  }

  /** Every corrected request keeps ids distinct and stored names valid, and raises no error. */
  lemma StepIntendedKeepsInvariants(store: Usuarios, req: Request)
    requires DistinctIds(store) && NamesValid(store)
    ensures DistinctIds(HandleIntended(store, req).store)
    ensures NamesValid(HandleIntended(store, req).store)
    ensures HandleIntended(store, req).response.fault.None?
  {
    match req
    case GetAll =>
    case GetById(_) =>
    case Post(n) => CreateIntendedKeepsInvariants(store, n);
    case Put(key, n) => UpdateIntendedKeepsInvariants(store, key, n);
    case DeleteById(key) => DeleteKeepsInvariants(store, key);
  }

  /**
   * From any store with distinct ids and valid names, any sequence of
   * requests to the corrected handlers keeps ids distinct and every stored
   * name valid.
   */
  lemma {:induction false} IntendedKeepsInvariants(store: Usuarios, reqs: seq<Request>)
    requires DistinctIds(store) && NamesValid(store)
    ensures DistinctIds(RunIntended(store, reqs))
    ensures NamesValid(RunIntended(store, reqs))
    decreases |reqs|
  {
    if reqs != [] {
      StepIntendedKeepsInvariants(store, reqs[0]);
      IntendedKeepsInvariants(HandleIntended(store, reqs[0]).store, reqs[1..]);
    }
  }

  /** The request pair that breaks app.js leaves distinct ids under the corrected handlers. */
  lemma SeedNoCollision()
    ensures DistinctIds(RunIntended(Seed, [DeleteById(Some(1)), Post(Text("Ana"))]))
  {
    SeedWellFormed();
    IntendedKeepsInvariants(Seed, [DeleteById(Some(1)), Post(Text("Ana"))]);
  }
}
