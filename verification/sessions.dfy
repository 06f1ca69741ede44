/**
 * Sequences of requests handled one after another against the store, and the
 * properties that hold, or fail, across them.
 */
module Sessions {
  import opened Wrappers
  import opened Store
  import opened Validation
  import opened Handlers

  /** The store after handling the requests in order. */
  function Run(store: Usuarios, reqs: seq<Request>): Usuarios
    decreases |reqs|
  {
    if reqs == [] then store else Run(Handle(store, reqs[0]).store, reqs[1..])
  }

  /** Record `i` has id `i + 1`: the ids are exactly 1..|store| in order. */
  predicate IdsSequential(store: Usuarios)
  {
    forall i :: 0 <= i < |store| ==> store[i].id == i + 1
  }

  /** No two records share an id. */
  predicate DistinctIds(store: Usuarios)
  {
    forall i, j :: 0 <= i < j < |store| ==> store[i].id != store[j].id
  }

  /** Every stored name satisfies the name rule. */
  predicate NamesValid(store: Usuarios)
  {
    forall i :: 0 <= i < |store| ==> Valid(store[i].nombre)
  }

  /** The initial store has ids 1..5, all distinct, and only valid names. */
  lemma SeedWellFormed()
    ensures IdsSequential(Seed) && DistinctIds(Seed) && NamesValid(Seed)
  {
  }

  /** Listing returns the store as it stands, in order, and reading never changes it. */
  lemma ReadsLeaveStore(store: Usuarios, req: Request)
    requires req.GetAll? || req.GetById?
    ensures Handle(store, req).store == store
    ensures req.GetAll? ==> Handle(store, req).response == Response(200, All(store), None)
  {
  }

  /** A request that is not a delete keeps the ids equal to 1..|store|. */
  lemma StepKeepsIdsSequential(store: Usuarios, req: Request)
    requires IdsSequential(store)
    requires !req.DeleteById?
    ensures IdsSequential(Handle(store, req).store)
  {
  }

  /** Ids 1..|store| in order are distinct. */
  lemma SequentialIsDistinct(store: Usuarios)
    requires IdsSequential(store)
    ensures DistinctIds(store)
  {
  }

  /**
   * Without deletes, ids stay 1..|store| and distinct however many creates,
   * reads and updates are handled.
   */
  lemma {:induction false} NoDeleteKeepsIdsSequential(store: Usuarios, reqs: seq<Request>)
    requires IdsSequential(store)
    requires forall k :: 0 <= k < |reqs| ==> !reqs[k].DeleteById?
    ensures IdsSequential(Run(store, reqs))
    ensures DistinctIds(Run(store, reqs))
    decreases |reqs|
  {
    if reqs == [] {
      SequentialIsDistinct(store);
    } else {
      StepKeepsIdsSequential(store, reqs[0]);
      NoDeleteKeepsIdsSequential(Handle(store, reqs[0]).store, reqs[1..]);
    }
  }

  /** In a store with ids 1..|store|, deleting id `k` removes position `k - 1`. */
  lemma DeleteFromSequential(store: Usuarios, k: int)
    requires IdsSequential(store)
    requires 1 <= k <= |store|
    ensures DeleteUsuario(store, Some(k)).store == store[..k - 1] + store[k..]
  {
    assert FirstMatch(store, Some(k), k - 1);
    var f := FirstIndex(store, Some(k));
    FirstMatchUnique(store, Some(k), f.value, k - 1);
  }

  /** In a store with ids 1..|store|, deleting id `k` and then creating appends id |store| to what is left. */
  lemma {:induction false} RunDeleteCreate(store: Usuarios, k: int, nombre: Nombre)
    requires IdsSequential(store)
    requires 1 <= k <= |store|
    requires Valid(nombre)
    ensures Run(store, [DeleteById(Some(k)), Post(nombre)]) ==
      store[..k - 1] + store[k..] + [Usuario(|store|, nombre)]
  {
    var d := store[..k - 1] + store[k..];
    DeleteFromSequential(store, k);
    var c := d + [Usuario(|store|, nombre)];
    assert CreateUsuario(d, nombre).store == c;
    assert [DeleteById(Some(k)), Post(nombre)][1..] == [Post(nombre)];
    assert Run(store, [DeleteById(Some(k)), Post(nombre)]) == Run(d, [Post(nombre)]);
    assert Run(d, [Post(nombre)]) == Run(c, []);
  }

  /**
   * Deleting record `k` and then creating one reuses an id: the new record
   * gets id |store|, which is still taken unless `k` was the last record.
   * So distinct ids are not an invariant once deletes are allowed.
   */
  lemma {:induction false} DeleteThenCreate(store: Usuarios, k: int, nombre: Nombre)
    requires IdsSequential(store)
    requires 1 <= k <= |store|
    requires Valid(nombre)
    ensures DistinctIds(Run(store, [DeleteById(Some(k)), Post(nombre)])) <==> k == |store|
  {
    var n := |store|;
    RunDeleteCreate(store, k, nombre);
    var c := store[..k - 1] + store[k..] + [Usuario(n, nombre)];
    if k < n {
      assert c[n - 2] == store[n - 1];
      assert c[n - 2].id == c[n - 1].id;
    } else {
      forall j | 0 <= j < n
        ensures c[j].id == j + 1
      {
        if j < n - 1 {
          assert c[j] == store[j];
        }
      }
      SequentialIsDistinct(c);
    }
  }

  /** From the initial store: delete user 1, then create "Ana"; user 5 now exists twice. */
  lemma SeedCollision()
    ensures Run(Seed, [DeleteById(Some(1)), Post(Text("Ana"))]) ==
      [ Usuario(2, Text("Juan")), Usuario(3, Text("Pedro")), Usuario(4, Text("Carlos")),
        Usuario(5, Text("Luis")), Usuario(5, Text("Ana")) ]
    ensures !DistinctIds(Run(Seed, [DeleteById(Some(1)), Post(Text("Ana"))]))
  {
    SeedWellFormed();
    assert Utf16Length("Ana"[1..]) == 2;
    DeleteThenCreate(Seed, 1, Text("Ana"));
    assert FirstIndex(Seed, Some(1)) == Some(0);
    assert [DeleteById(Some(1)), Post(Text("Ana"))][1..] == [Post(Text("Ana"))];
  }

  /**
   * A request keeps every stored name valid, except an update of a present
   * record with an invalid name, which stores the rejected name.
   */
  lemma StepKeepsNamesValid(store: Usuarios, req: Request)
    requires NamesValid(store)
    ensures NamesValid(Handle(store, req).store) <==>
      !(req.Put? && Present(store, req.key) && !Valid(req.nombre))
  {
  }

  /** From the initial store: PUT user 1 with "Al" answers 400 yet stores "Al". */
  lemma SeedRejectedNameStored()
    ensures Handle(Seed, Put(Some(1), Text("Al"))).response.status == 400
    ensures Handle(Seed, Put(Some(1), Text("Al"))).store[0] == Usuario(1, Text("Al"))
    ensures !NamesValid(Handle(Seed, Put(Some(1), Text("Al"))).store)
  {
  }

  /**
   * From the initial store: a PUT of user 1 with a name whose conversion to a
   * string throws is rejected but stored, and a GET of user 1 then fails with 500.
   */
  lemma SeedUnrenderableName()
    ensures Handle(Seed, Put(Some(1), NonText(None))).response.status == 400
    ensures Handle(Handle(Seed, Put(Some(1), NonText(None))).store, GetById(Some(1))).response ==
      Response(500, ServerError, Some(UnrenderableName))
  {
    assert FirstIndex(Seed, Some(1)) == Some(0);
    var s := Handle(Seed, Put(Some(1), NonText(None))).store;
    assert s[0] == Usuario(1, NonText(None));
    assert FirstIndex(s, Some(1)) == Some(0);
  }

  /** The example requests against the initial store. */
  lemma SeedScenarios()
    ensures Handle(Seed, Post(Text("Ana"))).response == Response(200, One(Usuario(6, Text("Ana"))), None)
    ensures |Handle(Seed, Post(Text("Ana"))).store| == 6
    ensures Handle(Seed, GetById(Some(3))).response == Response(200, Message("Usuario encontrado: Pedro"), None)
    ensures Handle(Seed, Put(Some(99), Text("Ana"))).response == Response(404, Message("Usuario no encontrado"), None)
  {
    assert Utf16Length("Ana"[1..]) == 2;
    assert FirstIndex(Seed, Some(3)) == Some(2);
    assert Find(Seed, Some(3)) == Some(Usuario(3, Text("Pedro")));
    assert FoundPrefix + "Pedro" == "Usuario encontrado: Pedro";
    assert !Present(Seed, Some(99));
  }
}
