/**
 The car list of `CarListComponent`: the cars published by the car cache, a
 separate copy shown to the user, and a price sort of that copy whose direction
 flips on every call.
 */
module CarList {
  import opened CarService

  datatype SortDirection = Asc | Desc

  /** `cars` as published, `sortedCars` as displayed, and the direction of the next sort. */
  datatype State = State(cars: seq<Car>, sortedCars: seq<Car>, sortDirection: SortDirection)

  /** The component before any cars arrive. */
  const Initial: State := State([], [], Asc)

  function Flip(d: SortDirection): SortDirection
  {
    if d == Asc then Desc else Asc
  }

  /** `a` may stand before `b` when sorting by price in direction `d`. */
  predicate PriceOrdered(a: Car, b: Car, d: SortDirection)
  {
    if d == Asc then a.price <= b.price else a.price >= b.price
  }

  /** Non-decreasing (`Asc`) or non-increasing (`Desc`) by price. */
  predicate SortedBy(s: seq<Car>, d: SortDirection)
  {
    forall i, j :: 0 <= i < j < |s| ==> PriceOrdered(s[i], s[j], d)
  }

  /** The displayed list only ever holds the published cars, rearranged. */
  predicate Valid(st: State)
  {
    multiset(st.sortedCars) == multiset(st.cars)
  }

  /** The subscription in `ngOnInit`: store the published cars and display a copy of them. */
  function OnCarsLoaded(st: State, data: seq<Car>): (r: State)
    ensures Valid(r)
    ensures r.cars == data
    ensures |r.sortedCars| == |data| && forall i :: 0 <= i < |data| ==> r.sortedCars[i] == data[i]
    ensures r.sortDirection == st.sortDirection
  {
    State(data, data, st.sortDirection)
  }

  /** Insert `x` into a list already sorted in direction `d`. */
  function Insert(x: Car, s: seq<Car>, d: SortDirection): (r: seq<Car>)
    requires SortedBy(s, d)
    ensures SortedBy(r, d)
    ensures multiset(r) == multiset(s) + multiset{x}
  {
    if |s| == 0 then [x]
    else if PriceOrdered(x, s[0], d) then
      LeadsSorted(x, s, d);
      SortedCons(x, s, d);
      [x] + s
    else
      var rest := Insert(x, s[1..], d);
      assert s == [s[0]] + s[1..];
      LeadsRearrangement(s[0], [x] + s[1..], rest, d);
      SortedCons(s[0], rest, d);
      [s[0]] + rest
  }

  /** `a` may stand before every element of `s`. */
  predicate Leads(a: Car, s: seq<Car>, d: SortDirection)
  {
    forall i :: 0 <= i < |s| ==> PriceOrdered(a, s[i], d)
  }

  lemma SortedCons(a: Car, s: seq<Car>, d: SortDirection)
    requires SortedBy(s, d)
    requires Leads(a, s, d)
    ensures SortedBy([a] + s, d)
  {
    var t := [a] + s;
    forall i, j | 0 <= i < j < |t|
      ensures PriceOrdered(t[i], t[j], d)
    {
      if i > 0 {
        assert t[i] == s[i - 1] && t[j] == s[j - 1];
      }
    }
  }

  /** In a sorted list, whatever may precede the head may precede every element. */
  lemma LeadsSorted(a: Car, s: seq<Car>, d: SortDirection)
    requires SortedBy(s, d)
    requires |s| > 0 && PriceOrdered(a, s[0], d)
    ensures Leads(a, s, d)
  {
  }

  /** Leading a list carries over to any rearrangement of it. */
  lemma LeadsRearrangement(a: Car, s: seq<Car>, t: seq<Car>, d: SortDirection)
    requires Leads(a, s, d)
    requires multiset(t) == multiset(s)
    ensures Leads(a, t, d)
  {
    forall i | 0 <= i < |t|
      ensures PriceOrdered(a, t[i], d)
    {
      assert t[i] in multiset(s);
      var k :| 0 <= k < |s| && s[k] == t[i];
    }
  }

  /** A price sort of `s` in direction `d` (stability is not promised). */
  function Sort(s: seq<Car>, d: SortDirection): (r: seq<Car>)
    ensures SortedBy(r, d)
    ensures multiset(r) == multiset(s)
    ensures |r| == |s|
  {
    if |s| == 0 then []
    else
      assert s == [s[0]] + s[1..];
      Insert(s[0], Sort(s[1..], d), d)
  }

  /**
   `sortByPrice`: sort the displayed copy by price in the current direction and
   flip the direction; the published list is not touched.
   */
  function SortByPrice(st: State): (r: State)
    ensures r.cars == st.cars
    ensures multiset(r.sortedCars) == multiset(st.sortedCars)
    ensures SortedBy(r.sortedCars, st.sortDirection)
    ensures r.sortDirection == Flip(st.sortDirection)
  {
    State(st.cars, Sort(st.sortedCars, st.sortDirection), Flip(st.sortDirection))
  }

  /** Loading and sorting keep the displayed list a rearrangement of the published one. */
  lemma ValidPreserved(st: State, data: seq<Car>)
    ensures Valid(OnCarsLoaded(st, data))
    ensures Valid(st) ==> Valid(SortByPrice(st))
  {
  }

  /**
   The component starts with no cars and the `Asc` direction: the first sort
   after the cars arrive orders them cheapest first and leaves `Desc` for the next.
   */
  lemma FirstSortAscending(data: seq<Car>)
    ensures Valid(Initial)
    ensures SortedBy(SortByPrice(OnCarsLoaded(Initial, data)).sortedCars, Asc)
    ensures multiset(SortByPrice(OnCarsLoaded(Initial, data)).sortedCars) == multiset(data)
    ensures SortByPrice(OnCarsLoaded(Initial, data)).sortDirection == Desc
  {
  }

  /** Two sorts in a row give back the original direction; the second sort is the opposite way. */
  lemma SortByPriceTwice(st: State)
    ensures SortByPrice(SortByPrice(st)).sortDirection == st.sortDirection
    ensures SortedBy(SortByPrice(SortByPrice(st)).sortedCars, Flip(st.sortDirection))
    ensures SortByPrice(SortByPrice(st)).cars == st.cars
  {
  }
  /** The price column of a list. */
  function Prices(s: seq<Car>): (r: seq<int>)
    ensures |r| == |s|
    ensures forall i :: 0 <= i < |s| ==> r[i] == s[i].price
  {
    seq(|s|, i requires 0 <= i < |s| => s[i].price)
  }

  /** Removing one element keeps a list sorted. */
  lemma SortedDelete(s: seq<Car>, k: int, d: SortDirection)
    requires SortedBy(s, d)
    requires 0 <= k < |s|
    ensures SortedBy(s[..k] + s[k + 1..], d)
  {
    var t := s[..k] + s[k + 1..];
    forall i, j | 0 <= i < j < |t|
      ensures PriceOrdered(t[i], t[j], d)
    {
      var i' := if i < k then i else i + 1;
      var j' := if j < k then j else j + 1;
      assert t[i] == s[i'] && t[j] == s[j'];
    }
  }

  /** Two sorts of the same cars in the same direction start with the same price. */
  lemma SortedHeadsSamePrice(a: seq<Car>, b: seq<Car>, d: SortDirection)
    requires SortedBy(a, d) && SortedBy(b, d)
    requires multiset(a) == multiset(b)
    requires |a| > 0
    ensures |b| > 0 && a[0].price == b[0].price
  {
    assert a[0] in multiset(b);
    var k :| 0 <= k < |b| && b[k] == a[0];
    assert b[0] in multiset(a);
    var m :| 0 <= m < |a| && a[m] == b[0];
    assert PriceOrdered(a[0], a[m], d) || m == 0;
    assert PriceOrdered(b[0], b[k], d) || k == 0;
  }

  /** In a sorted list, removing a car priced like the head leaves the head's price in front. */
  lemma PricesAfterRemoval(b: seq<Car>, k: int, d: SortDirection)
    requires SortedBy(b, d)
    requires 0 <= k < |b| && b[k].price == b[0].price
    ensures Prices(b) == [b[0].price] + Prices(b[..k] + b[k + 1..])
  {
    var rest := b[..k] + b[k + 1..];
    var p := b[0].price;
    forall i | 0 <= i < |b|
      ensures Prices(b)[i] == ([p] + Prices(rest))[i]
    {
      if 1 <= i <= k {
        assert PriceOrdered(b[0], b[i], d);
        assert PriceOrdered(b[i], b[k], d) || i == k;
        assert PriceOrdered(b[0], b[i - 1], d) || i == 1;
        assert PriceOrdered(b[i - 1], b[k], d);
        assert rest[i - 1] == b[i - 1];
      } else if i > k {
        assert rest[i - 1] == b[i];
      }
    }
  }

  /** A position at which a car of the list stands. */
  lemma IndexOf(s: seq<Car>, x: Car) returns (k: int)
    requires x in multiset(s)
    ensures 0 <= k < |s| && s[k] == x
  {
    k :| 0 <= k < |s| && s[k] == x;
  }

  lemma MultisetTail(s: seq<Car>)
    requires |s| > 0
    ensures multiset(s[1..]) == multiset(s) - multiset{s[0]}
  {
    assert s == [s[0]] + s[1..];
  }

  lemma MultisetRemoveAt(b: seq<Car>, k: int)
    requires 0 <= k < |b|
    ensures multiset(b[..k] + b[k + 1..]) == multiset(b) - multiset{b[k]}
  {
    assert b == b[..k] + [b[k]] + b[k + 1..];
  }

  /**
   Any two sorts of the same cars in the same direction show the same price
   column, so the order `sortByPrice` leaves among equally priced cars (which the
   browser's sort does not fix) never changes the prices as displayed.
   */
  lemma {:induction false} SortedPricesUnique(a: seq<Car>, b: seq<Car>, d: SortDirection)
    requires SortedBy(a, d) && SortedBy(b, d)
    requires multiset(a) == multiset(b)
    ensures Prices(a) == Prices(b)
    decreases |a|
  {
    if |a| == 0 {
      assert |multiset(b)| == 0;
    } else {
      var rest := RemoveHead(a, b, d);
      SortedPricesUnique(a[1..], rest, d);
      assert Prices(a) == [a[0].price] + Prices(a[1..]);
    }
  }

  /** Take the car at the head of `a` out of `b`: what is left matches the rest of `a`. */
  lemma RemoveHead(a: seq<Car>, b: seq<Car>, d: SortDirection) returns (rest: seq<Car>)
    requires SortedBy(a, d) && SortedBy(b, d)
    requires multiset(a) == multiset(b)
    requires |a| > 0
    ensures SortedBy(rest, d)
    ensures multiset(rest) == multiset(a[1..])
    ensures Prices(b) == [a[0].price] + Prices(rest)
  {
    SortedHeadsSamePrice(a, b, d);
    var k := IndexOf(b, a[0]);
    rest := b[..k] + b[k + 1..];
    MultisetRemoveAt(b, k);
    MultisetTail(a);
    SortedDelete(b, k, d);
    PricesAfterRemoval(b, k, d);
  }
}
