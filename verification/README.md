# Usuarios store of api-rest-express, in Dafny

This project models the user resource of the Express service in `app.js`.
It covers the in-memory `usuarios` array, the `existeUsuario` lookup, the
`validarUsuario` name rule, and the five handlers on `/api/usuarios`:
list, get by id, create, update and delete.

The store is an immutable `seq<Usuario>`. Each handler is a pure function
from the store and the request to a `Step`: the response and the store that
replaces the old one. A response records the status and body the client
receives. It also records a `Fault` for a JavaScript error the handler
raises. Most such errors come after the response was already sent. One comes
before any send, when a stored name cannot be turned into a string; Express
then answers 500. `Sessions.Run` handles a sequence of requests in
order.

Modules:

- `Wrappers` (wrappers.dfy): `Option`.
- `Store` (store.dfy): the record type, the five seed records, and the first-match lookup.
- `Validation` (validation.dfy): the name rule. JavaScript measures string length in UTF-16 code units, so the model counts a character outside the Basic Multilingual Plane as two.
- `Handlers` (handlers.dfy): the five handlers as app.js writes them, and the router `Handle`.
- `Sessions` (sessions.dfy): request sequences. Proves that ids stay 1..n when there are no deletes. Proves that a delete followed by a create reuses an id. Proves that a rejected update name gets stored.
- `Corrected` (corrected.dfy): the handlers with the three defects below fixed, with their invariants proved.

Two behaviours of app.js that the model keeps:

- On a miss, get-by-id does not send a success message after the 404. Reading `nombre` of the missing record throws first. The model records this as the `ReadOfUndefined` fault.
- Names of at least three characters are not an invariant of the store. An update with a rejected name still stores that name.

## Model

| member | source | states |
|---|---|---|
| Store.FirstIndex | app.js:178-180 | The position found is the first record whose id equals the requested id. No position means no record has that id. |
| Store.Find | app.js:178-180 | Lookup returns nothing exactly when no record has the requested id. Otherwise it returns the record at the first matching position. |
| Validation.Utf16Length | app.js:184 | The length the minimum rule measures is between the character count and twice the character count. |
| Validation.Validate | app.js:182-187 | A name is accepted exactly when it is present, is a string and is at least 3 long. Missing, non-string and short names are each rejected with their own reason. The value returned is the input unchanged. |
| Validation.LengthBounds | app.js:184 | Every string of 3 or more characters passes. No string of 0 or 1 characters passes. |
| Validation.TwoCharactersCanPass | app.js:184 | A 2-character name with a character outside the Basic Multilingual Plane passes. A 2-character ASCII name fails. |
| Handlers.GetUsuario | app.js:102-111 | The store is unchanged. On a miss the client gets 404 "Usuario no encontrado", followed by an error from reading the missing record; it is never a clean 404. On a hit the body names the first matching record with status 200, unless that record's name cannot be turned into a string: then the template literal throws before any send and the client gets 500. |
| Handlers.CreateUsuario | app.js:114-133 | The status is 200 exactly when the name is valid. A valid create appends exactly one record `{id: |store|+1, nombre}`, keeps all earlier records and returns the new record. An invalid create returns 400 and leaves the store unchanged. |
| Handlers.UpdateUsuario | app.js:138-157 | An absent id gives 404 and leaves the store unchanged. A present id has only the first matching record's name replaced; its id, its position and every other record stay the same. This happens even when the name is rejected: the client gets 400, the rejected name is stored, and a second send fails. |
| Handlers.DeleteUsuario | app.js:161-175 | An absent id gives 404 and leaves the store unchanged. A present id removes exactly the first matching record and returns it. The length drops by one and the other records keep their order. |
| Sessions.ReadsLeaveStore | app.js:93-95 | Listing returns the whole store in order with status 200. Neither listing nor get-by-id changes the store. |
| Sessions.SeedWellFormed | app.js:81-87 | The seed store has ids 1..5, all distinct, and every seed name satisfies the name rule. |
| Sessions.StepKeepsIdsSequential | app.js:114-157 | Any request other than a delete keeps the ids equal to 1..|store| in order. |
| Sessions.NoDeleteKeepsIdsSequential | app.js:123-127 | From a store with ids 1..n, any sequence of requests without deletes keeps the ids 1..|store| and distinct. |
| Sessions.DeleteFromSequential | app.js:170-173 | In a store with ids 1..n, deleting id k removes exactly position k-1. |
| Sessions.RunDeleteCreate | app.js:121-128 | In a store with ids 1..n, deleting id k and then creating a record leaves the other records in order followed by a new record with id n. |
| Sessions.DeleteThenCreate | app.js:124 | From ids 1..n, deleting id k and then creating a record leaves distinct ids exactly when k was the last id. Any other k makes two records share an id. |
| Sessions.SeedCollision | app.js:81-87 | From the seed, DELETE 1 and then POST "Ana" gives ids 2,3,4,5,5. |
| Sessions.StepKeepsNamesValid | app.js:149-155 | From a store where every name is valid, a request keeps all names valid exactly unless it is an update of a present id with an invalid name. |
| Sessions.SeedRejectedNameStored | app.js:149-156 | From the seed, PUT 1 with "Al" answers 400 but stores `{id: 1, nombre: "Al"}`. |
| Sessions.SeedUnrenderableName | app.js:109 | From the seed, PUT 1 with a name whose conversion to a string throws answers 400 but stores it, and the next GET 1 fails with 500. |
| Sessions.SeedScenarios | app.js:81-133 | From the seed, POST "Ana" returns `{id: 6, nombre: "Ana"}` and leaves 6 records. GET 3 answers "Usuario encontrado: Pedro". PUT 99 answers 404 "Usuario no encontrado". |
| Corrected.MaxId | app.js:124 | The result is the larger of 0 and every id in the store: it is at least 0 and at least every id, and it is either 0 or one of the ids. |
| Corrected.MaxIdOfSequential | app.js:124 | With ids 1..n, the largest id is n. |
| Corrected.CreateIntended | app.js:123-127 | The intended create appends a record whose id exceeds every id in the store. The name rule and the 400 path are the same as in app.js. |
| Corrected.CreateIntendedAgrees | app.js:123-127 | On a store with ids 1..n the intended create gives the same result as app.js. |
| Corrected.GetIntended | app.js:105-109 | Get-by-id with the missing return added: a miss is a clean 404 with no error, and a hit gives exactly what app.js gives. |
| Corrected.UpdateIntended | app.js:149-156 | Update with the missing return added: a rejected name gives 400 and leaves the store unchanged, and no error follows. |
| Corrected.CreateIntendedKeepsInvariants | app.js:121-128 | The intended create keeps ids distinct and all names valid. |
| Corrected.UpdateIntendedKeepsInvariants | app.js:149-156 | The intended update keeps ids distinct and all names valid. |
| Corrected.DeleteKeepsInvariants | app.js:170-174 | Delete keeps ids distinct and all names valid. |
| Corrected.StepIntendedKeepsInvariants | app.js:93-175 | Every intended request keeps ids distinct and all names valid, and raises no error after its response. |
| Corrected.IntendedKeepsInvariants | app.js:81-175 | From any store with distinct ids and valid names, any request sequence on the intended handlers keeps both properties. |
| Corrected.SeedNoCollision | app.js:124 | On the intended handlers, the seed's DELETE 1 then POST "Ana" leaves distinct ids. |

## Left out

- Express bootstrap and middleware are not modelled: JSON and urlencoded parsing, static files, morgan, debug, config logging, and `listen` with `PORT` (app.js:1-79). This is framework glue and I/O.
- The root `/` route (app.js:89-91) is not modelled. It has no logic.
- The conversion of the path id by `Number` and `parseInt` is not modelled. The id is taken already parsed, as `Option<int>`, with `None` standing for NaN, which matches no record. So an id such as "1.5", which `parseInt` truncates to 1, is not modelled.
- The validator's message text is not modelled, and neither are its separate codes for an empty string and a short string. Both are `TooShort`, and the body holds only the reason.
- What Express does after a handler throws is not modelled: its error handler and the closed connection. Only the first response and the fact of the error (`Fault`) are modelled.
- JSON serialisation of responses is not modelled. For a non-string name, `NonText` holds the result of `String()` rather than computing it: either the string, or `None` when the conversion throws, for example for an object whose `toString` cannot be called.
- Names containing an unpaired UTF-16 surrogate cannot be represented, because a Dafny `string` holds only Unicode scalar values. So a name such as `"\uD800ab"`, which JavaScript counts as length 3 and accepts, is outside the model.
- Object identity is not modelled. Records are values, so the record returned earlier and the stored one cannot alias. `indexOf` in the delete handler finds the object that `find` returned, which is the first match, and the model uses that position.
- Some members carry no contract of their own; their behaviour is stated by the members that use them:
  - Handlers.ListUsuarios (app.js:93-95), Handlers.Handle (the routes at app.js:93-175) and Sessions.Run are covered by Sessions.ReadsLeaveStore and the session lemmas.
  - Validation.Valid is the name rule of app.js:184, and Validation.Validate states it.
  - Handlers.Render and Handlers.Found model the template literal at app.js:109. Render turns a missing name into "undefined". Handlers.GetUsuario states both.

## Findings

| source | as written | input that shows it | evidently intended | confidence | as-written member | corrected member |
|---|---|---|---|---|---|---|
| app.js:124 | A new id is `usuarios.length + 1` | From the seed, DELETE /api/usuarios/1 then POST `{nombre: "Ana"}`: two records have id 5 | A new id no record already has (ids are unique) | high, not executed | Sessions.DeleteThenCreate | Corrected.IntendedKeepsInvariants |
| app.js:105-109 | No `return` after the 404 send | GET /api/usuarios/99: 404 is sent, then reading `nombre` of `undefined` throws | Stop after the 404 | high, not executed | Handlers.GetUsuario | Corrected.GetIntended |
| app.js:150-155 | No `return` after the 400 send | From the seed, PUT /api/usuarios/1 with `{nombre: "Al"}`: 400 is sent, "Al" is stored, and the second send throws | Stop after the 400 and leave the record unchanged | high, not executed | Sessions.SeedRejectedNameStored | Corrected.UpdateIntended |
