/**
 The client-side car cache of `CarService`. The service keeps the latest list of
 cars in a reactive value holder and, after each successful HTTP call, patches
 that list locally and publishes the patched copy. Each operation below is the
 success callback of one service method, taken as a single atomic step: it maps
 the cached list to the value handed to the holder's `next`, or to `None` when
 nothing is published.
 */
module CarService {
  import opened Wrappers
  import JsArray

  /** A car as the backend returns it; prices are whole amounts. */
  datatype Car = Car(
    id: int,
    brand: string,
    model: string,
    year: int,
    vin: string,
    price: int,
    horsePower: int,
    ownerId: int,
    renterId: int,
    isAvailableForRent: bool)

  /** The lifecycle actions whose success callback only refreshes the affected car. */
  datatype Action = Rent | Return | Lease | Buy

  /** The cache after an emission: the published list, or the old one when nothing was published. */
  function Published(cache: seq<Car>, emitted: Option<seq<Car>>): seq<Car>
  {
    emitted.GetOr(cache)
  }

  predicate HasId(cars: seq<Car>, id: int)
  {
    exists i :: 0 <= i < |cars| && cars[i].id == id
  }

  /** `i` is the first position of `cars` holding a car with this id. */
  predicate IsFirstWithId(cars: seq<Car>, id: int, i: int)
  {
    && 0 <= i < |cars|
    && cars[i].id == id
    && forall k :: 0 <= k < i ==> cars[k].id != id
  }

  /** Success callback of `addCar`: the car the server returned is appended. */
  function AddCar(cache: seq<Car>, created: Car): (r: Option<seq<Car>>)
    ensures r.Some?
    ensures |r.value| == |cache| + 1
    ensures r.value[..|cache|] == cache && r.value[|cache|] == created
  {
    Some(cache + [created])
  }

  /**
   Shared by `updateCar` and `refreshCar`: the first cached car with the id is
   replaced by `car`; when no cached car has the id nothing is published.
   */
  function ReplaceFirstById(cache: seq<Car>, id: int, car: Car): (r: Option<seq<Car>>)
    ensures r.Some? <==> HasId(cache, id)
    ensures r.Some? ==> |r.value| == |cache|
    ensures r.Some? ==> forall j :: 0 <= j < |cache| ==>
      r.value[j] == if IsFirstWithId(cache, id, j) then car else cache[j]
  {
    var index := JsArray.FindIndex(cache, (c: Car) => c.id == id);
    if index != -1 then Some(cache[index := car]) else None
  }

  /** Success callback of `updateCar(id, ...)` with the car the server returned. */
  function UpdateCar(cache: seq<Car>, id: int, updated: Car): (r: Option<seq<Car>>)
    ensures r.None? <==> !HasId(cache, id)
    ensures r.Some? ==> |r.value| == |cache|
    ensures r.Some? ==> forall j :: 0 <= j < |cache| ==>
      r.value[j] == if IsFirstWithId(cache, id, j) then updated else cache[j]
  {
    ReplaceFirstById(cache, id, updated)
  }

  /** Success callback of `deleteCar(id)`: every car with the id is dropped. */
  function DeleteCar(cache: seq<Car>, id: int): (r: Option<seq<Car>>)
    ensures r.Some?
    ensures forall i :: 0 <= i < |r.value| ==> r.value[i].id != id
    ensures forall c :: c in cache && c.id != id ==> c in r.value
    ensures forall c :: multiset(r.value)[c] == if c.id != id then multiset(cache)[c] else 0
    ensures JsArray.IsSubsequence(r.value, cache)
    ensures r.value == cache <==> !HasId(cache, id)
  {
    var kept := JsArray.Filter(cache, (c: Car) => c.id != id);
    assert forall c :: c in cache ==> c in multiset(cache);
    assert forall c :: c in multiset(kept) ==> c in kept;
    Some(kept)
  }

  /**
   `refreshCar(carId)`: the car is fetched again; on success (`fetched` holds it)
   the first cached car with the id is replaced, on error nothing is published.
   */
  function RefreshCar(cache: seq<Car>, carId: int, fetched: Option<Car>): (r: Option<seq<Car>>)
    ensures fetched.None? ==> r.None?
    ensures fetched.Some? ==> r == UpdateCar(cache, carId, fetched.value)
    ensures r.Some? ==> |r.value| == |cache|
    ensures r.Some? ==> forall j :: 0 <= j < |cache| && r.value[j] != cache[j] ==> cache[j].id == carId
  {
    match fetched
    case None => None
    case Some(car) => ReplaceFirstById(cache, carId, car)
  }

  /**
   Success callback of `rentCar`, `returnCar`, `leaseCar` and `buyCar`: each only
   calls `refreshCar(carId)`, so only the entry for that car can change.
   */
  function AfterAction(action: Action, cache: seq<Car>, carId: int, fetched: Option<Car>): (r: Option<seq<Car>>)
    ensures |Published(cache, r)| == |cache|
    ensures forall j :: 0 <= j < |cache| && Published(cache, r)[j] != cache[j] ==> cache[j].id == carId
    ensures !HasId(cache, carId) ==> r.None?
  {
    RefreshCar(cache, carId, fetched)
  }

  /** Deleting a freshly added car whose id was not cached gives back the old cache. */
  lemma AddThenDelete(cache: seq<Car>, created: Car)
    requires !HasId(cache, created.id)
    ensures DeleteCar(AddCar(cache, created).value, created.id).value == cache
  {
    var added := AddCar(cache, created).value;
    var deleted := DeleteCar(added, created.id).value;
    DeleteCarDistributes(cache, [created], created.id);
    assert DeleteCar(cache, created.id).value == cache;
    assert DeleteCar([created], created.id).value == [];
  }

  /** Deleting from a concatenation deletes from each part. */
  lemma {:induction false} DeleteCarDistributes(a: seq<Car>, b: seq<Car>, id: int)
    ensures DeleteCar(a + b, id).value == DeleteCar(a, id).value + DeleteCar(b, id).value
    decreases |a|
  {
    if |a| == 0 {
      assert a + b == b;
    } else {
      assert (a + b)[1..] == a[1..] + b;
      DeleteCarDistributes(a[1..], b, id);
    }
  }

  /** Deleting twice is deleting once. */
  lemma DeleteCarIdempotent(cache: seq<Car>, id: int)
    ensures DeleteCar(DeleteCar(cache, id).value, id) == DeleteCar(cache, id)
  {
  }

  /** Updating twice with the same car is updating once, when the car keeps the id. */
  lemma UpdateCarIdempotent(cache: seq<Car>, id: int, updated: Car)
    requires updated.id == id
    ensures Published(Published(cache, UpdateCar(cache, id, updated)), UpdateCar(Published(cache, UpdateCar(cache, id, updated)), id, updated))
         == Published(cache, UpdateCar(cache, id, updated))
  {
    var once := Published(cache, UpdateCar(cache, id, updated));
    if HasId(cache, id) {
      var twice := Published(once, UpdateCar(once, id, updated));
      forall j | 0 <= j < |once|
        ensures IsFirstWithId(once, id, j) <==> IsFirstWithId(cache, id, j)
      {
      }
      assert twice == once;
    }
  }

  /** Writing back the car that an update replaced restores the cache. */
  lemma UpdateCarUndo(cache: seq<Car>, id: int, updated: Car, i: int)
    requires IsFirstWithId(cache, id, i)
    requires updated.id == id
    ensures UpdateCar(UpdateCar(cache, id, updated).value, id, cache[i]).value == cache
  {
    var once := UpdateCar(cache, id, updated).value;
    assert IsFirstWithId(once, id, i);
    var back := UpdateCar(once, id, cache[i]).value;
    forall j | 0 <= j < |cache|
      ensures back[j] == cache[j]
    {
      if j != i {
        assert !IsFirstWithId(once, id, j);
        assert !IsFirstWithId(cache, id, j);
      }
    }
  }
}
