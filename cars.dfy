/** The `coches` table and its three handlers: register, list and delete a
    car of the authenticated user. */
module Vehicles {
  import opened Common
  import Seqs

  /** One row of `coches`; nullable columns are `Option`s. */
  datatype Car = Car(
    id: nat,
    owner: nat,
    marca: string,
    modelo: string,
    combustible: string,
    kilometrajeInicial: Option<real>,
    capacidadTanque: Option<real>,
    consumoTeorico: Option<real>,
    fechaUltimoCambioAceite: Option<string>,
    kmUltimoCambioAceite: Option<real>,
    intervaloCambioAceiteKm: real,
    intervaloCambioAceiteMeses: real)

  /** The body of `POST /insertCar`. */
  datatype CarRequest = CarRequest(
    marca: Option<string>,
    modelo: Option<string>,
    combustible: Option<string>,
    kilometrajeInicial: Option<real>,
    capacidadTanque: Option<real>,
    consumoTeorico: Option<real>,
    fechaUltimoCambioAceite: Option<string>,
    kmUltimoCambioAceite: Option<real>,
    intervaloCambioAceiteKm: Option<real>,
    intervaloCambioAceiteMeses: Option<real>)

  /** The columns `GET /coches` selects. */
  datatype CarView = CarView(id: nat, marca: string, modelo: string, combustible: string)

  const DefaultOilIntervalKm: real := 15000.0
  const DefaultOilIntervalMonths: real := 12.0

  /** JavaScript truthiness of an optional number: absent, `null` and 0 are
      falsy. */
  predicate NumTruthy(x: Option<real>)
  {
    x.Some? && x.value != 0.0
  }

  /** `x || null` on a number. */
  function NumOrNull(x: Option<real>): (r: Option<real>)
    ensures r.Some? <==> NumTruthy(x)
    ensures r.Some? ==> r == x
  {
    if NumTruthy(x) then x else None
  }

  /** `x || null` on a string. */
  function TextOrNull(x: Option<string>): (r: Option<string>)
    ensures r.Some? <==> Truthy(x)
    ensures r.Some? ==> r == x
  {
    if Truthy(x) then x else None
  }

  /** `x || d` on a number. */
  function NumOr(x: Option<real>, d: real): (r: real)
    ensures NumTruthy(x) ==> r == x.value
    ensures !NumTruthy(x) ==> r == d
  {
    if NumTruthy(x) then x.value else d
  }

  /** The three required fields are truthy. */
  predicate Complete(req: CarRequest)
  {
    Truthy(req.marca) && Truthy(req.modelo) && Truthy(req.combustible)
  }

  /** The row the INSERT writes. */
  function NewCar(id: nat, owner: nat, req: CarRequest): Car
    requires Complete(req)
  {
    Car(id, owner, req.marca.value, req.modelo.value, req.combustible.value,
      NumOrNull(req.kilometrajeInicial), NumOrNull(req.capacidadTanque),
      NumOrNull(req.consumoTeorico), TextOrNull(req.fechaUltimoCambioAceite),
      NumOrNull(req.kmUltimoCambioAceite),
      NumOr(req.intervaloCambioAceiteKm, DefaultOilIntervalKm),
      NumOr(req.intervaloCambioAceiteMeses, DefaultOilIntervalMonths))
  }

  /** The oil-change intervals default to 15000 km and 12 months and are
      never 0; the optional columns are NULL exactly when the request's
      value is falsy. */
  lemma NewCarDefaults(id: nat, owner: nat, req: CarRequest)
    requires Complete(req)
    ensures var c := NewCar(id, owner, req);
      && c.intervaloCambioAceiteKm != 0.0 && c.intervaloCambioAceiteMeses != 0.0
      && (req.intervaloCambioAceiteKm.None? ==> c.intervaloCambioAceiteKm == 15000.0)
      && (req.intervaloCambioAceiteMeses.None? ==> c.intervaloCambioAceiteMeses == 12.0)
      && (req.kilometrajeInicial == Some(0.0) ==> c.kilometrajeInicial.None?)
      && (c.kmUltimoCambioAceite.None? <==> !NumTruthy(req.kmUltimoCambioAceite))
      && (c.fechaUltimoCambioAceite.None? <==> !Truthy(req.fechaUltimoCambioAceite))
  {
  }

  /** The user already has a car of this make and model. */
  predicate HasCar(cars: seq<Car>, uid: nat, marca: string, modelo: string)
  {
    exists k :: 0 <= k < |cars| && cars[k].owner == uid && cars[k].marca == marca && cars[k].modelo == modelo
  }

  /** No user holds two cars of the same make and model. */
  predicate DistinctPairs(cars: seq<Car>)
  {
    forall i, j :: 0 <= i < j < |cars| && cars[i].owner == cars[j].owner ==>
      (cars[i].marca, cars[i].modelo) != (cars[j].marca, cars[j].modelo)
  }

  predicate UniqueIds(cars: seq<Car>)
  {
    forall i, j :: 0 <= i < j < |cars| ==> cars[i].id != cars[j].id
  }

  /** Appending a car whose pair its owner does not yet hold keeps the
      pairs distinct. */
  lemma AppendKeepsDistinct(cars: seq<Car>, c: Car)
    requires DistinctPairs(cars) && !HasCar(cars, c.owner, c.marca, c.modelo)
    ensures DistinctPairs(cars + [c])
  {
    var s := cars + [c];
    forall i, j | 0 <= i < j < |s| && s[i].owner == s[j].owner
      ensures (s[i].marca, s[i].modelo) != (s[j].marca, s[j].modelo)
    {
      if j == |cars| {
        assert s[i] == cars[i];
      }
    }
  }

  /** The caller's cars as `GET /coches` returns them, in table order. */
  function CarsOf(cars: seq<Car>, uid: nat): (r: seq<CarView>)
    ensures |r| == |Seqs.Filter((c: Car) => c.owner == uid, cars)|
    ensures forall v :: v in r <==>
      exists k :: 0 <= k < |cars| && cars[k].owner == uid && ViewOf(cars[k]) == v
    ensures UniqueIds(cars) ==> forall i, j :: 0 <= i < j < |r| ==> r[i].id != r[j].id
  {
    if cars == [] then []
    else
      var n := |cars| - 1;
      var rest := CarsOf(cars[..n], uid);
      OwnedCountSnoc(cars, uid);
      var r := if cars[n].owner == uid then rest + [ViewOf(cars[n])] else rest;
      SnocMembers(cars, cars[..n], uid, rest, r);
      if UniqueIds(cars) then
        PrefixUnique(cars);
        if cars[n].owner == uid then
          NewViewFresh(cars, cars[..n], rest);
          r
        else r
      else r
  }

  /** One more car adds one to the count of the user's rows exactly when it
      is the user's. */
  lemma OwnedCountSnoc(cars: seq<Car>, uid: nat)
    requires cars != []
    ensures var n := |cars| - 1;
      |Seqs.Filter((c: Car) => c.owner == uid, cars)|
        == |Seqs.Filter((c: Car) => c.owner == uid, cars[..n])| + (if cars[n].owner == uid then 1 else 0)
  {
    var n := |cars| - 1;
    assert cars[..n] + [cars[n]] == cars;
    Seqs.FilterAppend((c: Car) => c.owner == uid, cars[..n], [cars[n]]);
  }

  /** Dropping the last car keeps the ids unique. */
  lemma PrefixUnique(cars: seq<Car>)
    requires cars != [] && UniqueIds(cars)
    ensures UniqueIds(cars[..|cars| - 1])
  {
  }

  /** Listing one more car adds its view exactly when it is the user's. */
  lemma SnocMembers(cars: seq<Car>, prefix: seq<Car>, uid: nat, rest: seq<CarView>, r: seq<CarView>)
    requires cars != [] && prefix == cars[..|cars| - 1]
    requires forall v :: v in rest <==>
      exists k :: 0 <= k < |prefix| && prefix[k].owner == uid && ViewOf(prefix[k]) == v
    requires r == if cars[|cars| - 1].owner == uid then rest + [ViewOf(cars[|cars| - 1])] else rest
    ensures forall v :: v in r <==>
      exists k :: 0 <= k < |cars| && cars[k].owner == uid && ViewOf(cars[k]) == v
  {
    var n := |cars| - 1;
    assert forall k :: 0 <= k < n ==> prefix[k] == cars[k];
    forall v ensures v in r <==>
      exists k :: 0 <= k < |cars| && cars[k].owner == uid && ViewOf(cars[k]) == v
    {
      if exists k :: 0 <= k < |cars| && cars[k].owner == uid && ViewOf(cars[k]) == v {
        var k :| 0 <= k < |cars| && cars[k].owner == uid && ViewOf(cars[k]) == v;
        if k < n {
          assert v in rest;
        }
      }
    }
  }

  /** With unique ids, the last car's view differs by id from every view
      taken from the cars before it. */
  lemma NewViewFresh(cars: seq<Car>, prefix: seq<Car>, rest: seq<CarView>)
    requires cars != [] && UniqueIds(cars) && prefix == cars[..|cars| - 1]
    requires forall v :: v in rest ==> exists k :: 0 <= k < |prefix| && ViewOf(prefix[k]) == v
    ensures forall i :: 0 <= i < |rest| ==> rest[i].id != cars[|cars| - 1].id
  {
    var n := |cars| - 1;
    forall i | 0 <= i < |rest| ensures rest[i].id != cars[n].id {
      assert rest[i] in rest;
      var k :| 0 <= k < n && ViewOf(prefix[k]) == rest[i];
      assert prefix[k] == cars[k];
    }
  }

  function ViewOf(c: Car): CarView
  {
    CarView(c.id, c.marca, c.modelo, c.combustible)
  }

  /** Registering a car adds it to its owner's list and to no other list. */
  lemma {:induction false} CarsOfAppend(cars: seq<Car>, c: Car, uid: nat)
    ensures CarsOf(cars + [c], uid) == CarsOf(cars, uid) + (if c.owner == uid then [ViewOf(c)] else [])
  {
    assert (cars + [c])[..|cars|] == cars;
  }

  /** Finds the row with the given `id_coche`. */
  function FindCar(cars: seq<Car>, id: nat): (r: Option<Car>)
    ensures r.None? <==> forall k :: 0 <= k < |cars| ==> cars[k].id != id
    ensures r.Some? ==> r.value in cars && r.value.id == id
  {
    Seqs.FindFirst((c: Car) => c.id == id, cars)
  }

  /** The table with the row of id `id` removed. */
  function WithoutId(cars: seq<Car>, id: nat): seq<Car>
  {
    Seqs.Filter((c: Car) => c.id != id, cars)
  }

  /** With unique ids, removing an existing id removes exactly its row and
      keeps every other row in order. */
  lemma WithoutIdRemovesOne(cars: seq<Car>, k: nat)
    requires UniqueIds(cars) && k < |cars|
    ensures WithoutId(cars, cars[k].id) == cars[..k] + cars[k + 1..]
  {
    var id := cars[k].id;
    Seqs.FilterDropsOne((c: Car) => c.id != id, cars, k);
  }

  class CarTable {
    var cars: seq<Car>
    /** The next `AUTO_INCREMENT` value. */
    var nextId: nat

    ghost predicate Valid()
      reads this
    {
      && UniqueIds(cars)
      && (forall k :: 0 <= k < |cars| ==> cars[k].id < nextId)
      && DistinctPairs(cars)
    }

    constructor ()
      ensures Valid() && cars == [] && nextId == 1
    {
      cars := [];
      nextId := 1;
    }

    /** `POST /insertCar`: 400 on a missing field, 404 on an unknown user,
        409 when the user already has this make and model, otherwise one new
        row owned by the caller and its id. */
    method Insert(users: Users, email: string, req: CarRequest) returns (r: Result<nat>)
      requires Valid()
      modifies this
      ensures Valid()
      ensures !Complete(req) ==> r == Err(BadRequest)
      ensures Complete(req) && email !in users ==> r == Err(UserNotFound)
      ensures (Complete(req) && email in users
               && HasCar(old(cars), users[email], req.marca.value, req.modelo.value)) ==> r == Err(Conflict)
      ensures r.Err? ==> cars == old(cars) && nextId == old(nextId)
      ensures r.Ok? <==>
        Complete(req) && email in users
        && !HasCar(old(cars), users[email], req.marca.value, req.modelo.value)
      ensures r.Ok? ==>
        && r.value == old(nextId)
        && cars == old(cars) + [NewCar(old(nextId), users[email], req)]
        && nextId == old(nextId) + 1
    {
      if !Complete(req) {
        return Err(BadRequest);
      }
      if email !in users {
        return Err(UserNotFound);
      }
      var uid := users[email];
      if HasCar(cars, uid, req.marca.value, req.modelo.value) {
        return Err(Conflict);
      }
      var id := nextId;
      var c := NewCar(id, uid, req);
      AppendKeepsDistinct(cars, c);
      cars := cars + [c];
      nextId := nextId + 1;
      return Ok(id);
    }

    /** `GET /coches`: exactly the caller's cars. */
    function List(users: Users, email: string): (r: Result<seq<CarView>>)
      reads this
      ensures email !in users <==> r == Err(UserNotFound)
      ensures r.Ok? ==> forall v :: v in r.value <==>
        exists k :: 0 <= k < |cars| && cars[k].owner == users[email] && ViewOf(cars[k]) == v
      ensures r.Ok? ==> |r.value| == |Seqs.Filter((c: Car) => c.owner == users[email], cars)|
      ensures r.Ok? && UniqueIds(cars) ==>
        forall i, j :: 0 <= i < j < |r.value| ==> r.value[i].id != r.value[j].id
    {
      if email !in users then Err(UserNotFound) else Ok(CarsOf(cars, users[email]))
    }

    /** `DELETE /coches/:id_coche`: 400 without an id, 404 for an unknown
        user or car, 403 for another user's car, otherwise that one row is
        removed. */
    method Delete(users: Users, email: string, id: Option<nat>) returns (r: Result<()>)
      requires Valid()
      modifies this`cars
      ensures Valid()
      ensures id.None? ==> r == Err(BadRequest)
      ensures id.Some? && email !in users ==> r == Err(UserNotFound)
      ensures id.Some? && email in users && FindCar(old(cars), id.value).None? ==> r == Err(RecordNotFound)
      ensures (id.Some? && email in users && FindCar(old(cars), id.value).Some?
               && FindCar(old(cars), id.value).value.owner != users[email]) ==> r == Err(Forbidden)
      ensures r.Err? ==> cars == old(cars)
      ensures r.Ok? <==>
        id.Some? && email in users && FindCar(old(cars), id.value).Some?
        && FindCar(old(cars), id.value).value.owner == users[email]
      ensures r.Ok? ==>
        exists k :: 0 <= k < |old(cars)| && old(cars)[k].id == id.value
                    && cars == old(cars)[..k] + old(cars)[k + 1..]
    {
      if id.None? {
        return Err(BadRequest);
      }
      if email !in users {
        return Err(UserNotFound);
      }
      var found := FindCar(cars, id.value);
      if found.None? {
        return Err(RecordNotFound);
      }
      if found.value.owner != users[email] {
        return Err(Forbidden);
      }
      var k :| 0 <= k < |cars| && cars[k] == found.value;
      WithoutIdRemovesOne(cars, k);
      SubsequenceKeepsDistinct(cars, k, nextId, cars[..k] + cars[k + 1..]);
      cars := WithoutId(cars, id.value);
      return Ok(());
    }
  }

  /** Removing one row keeps ids and pairs distinct. */
  lemma SubsequenceKeepsDistinct(cars: seq<Car>, k: nat, bound: nat, s: seq<Car>)
    requires k < |cars| && DistinctPairs(cars) && UniqueIds(cars) && s == cars[..k] + cars[k + 1..]
    requires forall i :: 0 <= i < |cars| ==> cars[i].id < bound
    ensures DistinctPairs(s) && UniqueIds(s)
    ensures forall i :: 0 <= i < |s| ==> s[i].id < bound
  {
    assert forall i :: 0 <= i < |s| ==> s[i] == cars[if i < k then i else i + 1];
  }
}
