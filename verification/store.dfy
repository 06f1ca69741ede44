/**
 * The in-memory `usuarios` array of app.js and the `existeUsuario` lookup.
 *
 * The store is an ordered sequence of records; every handler reads it and
 * returns the sequence that replaces it.
 */
module Store {
  import opened Wrappers

  /** The `nombre` field as the JSON body parser leaves it. */
  datatype Nombre =
    | Missing                   // the field is absent: JavaScript `undefined`
    | Text(s: string)           // a JSON string
    | NonText(rendered: Option<string>) // a number, boolean, null, array or object;
                                        // `rendered` is what String() makes of it,
                                        // None when that conversion throws

  /** One user record, `{id, nombre}`. */
  datatype Usuario = Usuario(id: int, nombre: Nombre)

  type Usuarios = seq<Usuario>

  /** The five records the process starts with. */
  const Seed: Usuarios := [
    Usuario(1, Text("Erick")),
    Usuario(2, Text("Juan")),
    Usuario(3, Text("Pedro")),
    Usuario(4, Text("Carlos")),
    Usuario(5, Text("Luis"))
  ]

  /**
   * Whether a record answers the requested id. The id comes from the path
   * through `Number` and `parseInt`; `None` stands for NaN, which equals
   * nothing.
   */
  predicate Matches(u: Usuario, key: Option<int>)
  {
    key.Some? && u.id == key.value
  }

  /** Some record of the store answers the requested id. */
  predicate Present(store: Usuarios, key: Option<int>)
  {
    exists i :: 0 <= i < |store| && Matches(store[i], key)
  }

  /** `i` is the position of the first record answering the requested id. */
  predicate FirstMatch(store: Usuarios, key: Option<int>, i: int)
  {
    && 0 <= i < |store|
    && Matches(store[i], key)
    && forall j :: 0 <= j < i ==> !Matches(store[j], key)
  }

  /** Position of the first record whose id is the requested one, scanning from the front. */
  function FirstIndex(store: Usuarios, key: Option<int>): (r: Option<nat>)
    ensures r.Some? ==> FirstMatch(store, key, r.value)
    ensures r.None? <==> !Present(store, key)
  {
    if store == [] then None
    else if Matches(store[0], key) then Some(0)
    else
      match FirstIndex(store[1..], key)
      case None => None
      case Some(i) => Some(i + 1)
  }

  /** There is at most one first match. */
  lemma FirstMatchUnique(store: Usuarios, key: Option<int>, i: int, j: int)
    requires FirstMatch(store, key, i) && FirstMatch(store, key, j)
    ensures i == j
  {
  }

  /**
   * `existeUsuario`: the first record whose id is the requested one, or
   * nothing when no record has it.
   */
  function Find(store: Usuarios, key: Option<int>): (r: Option<Usuario>)
    ensures r.None? <==> !Present(store, key)
    ensures r.Some? ==> exists i :: FirstMatch(store, key, i) && store[i] == r.value
  {
    match FirstIndex(store, key)
    case None => None
    case Some(i) => Some(store[i])
  }
}
