/** Entities of the delivery-routing search: locations, orders, vehicles, and
    an assignment of orders to vehicles (one route per vehicle). */
module Routes {

  /** A point on the globe in degrees. */
  datatype Location = Location(lat: real, lng: real)

  /** A delivery order. Weight and volume are exact reals here. */
  datatype Order = Order(id: int, weight: real, volume: real, location: Location)

  /** A vehicle and its two capacities. */
  datatype Vehicle = Vehicle(id: int, capacityWeight: real, capacityVolume: real)

  /** The orders a vehicle visits, in visiting order. */
  type Route = seq<Order>

  /** One route per vehicle: route i is driven by vehicle i. */
  type Solution = seq<Route>

  /** The orders of all routes together, counted with multiplicity. */
  function OrdersOf(routes: Solution): multiset<Order>
  {
    if |routes| == 0 then multiset{}
    else OrdersOf(routes[..|routes| - 1]) + multiset(routes[|routes| - 1])
  }

  /** Replacing route k by another route swaps that route's orders for the new ones. */
  lemma {:induction false} OrdersOfUpdate(routes: Solution, k: nat, route: Route)
    requires k < |routes|
    ensures OrdersOf(routes[k := route]) + multiset(routes[k]) == OrdersOf(routes) + multiset(route)
  {
    var n := |routes|;
    var updated := routes[k := route];
    if k == n - 1 {
      assert updated[..n - 1] == routes[..n - 1];
    } else {
      assert updated[..n - 1] == routes[..n - 1][k := route];
      assert updated[n - 1] == routes[n - 1] && routes[..n - 1][k] == routes[k];
      OrdersOfUpdate(routes[..n - 1], k, route);
      calc {
        OrdersOf(updated) + multiset(routes[k]);
        OrdersOf(routes[..n - 1][k := route]) + multiset(routes[k]) + multiset(routes[n - 1]);
        OrdersOf(routes[..n - 1]) + multiset(route) + multiset(routes[n - 1]);
        OrdersOf(routes) + multiset(route);
      }
    }
  }

  /** If the new route holds the old route's orders with `gone` taken out and
      `come` put in, the whole assignment changes the same way. */
  lemma ReplaceRoute(routes: Solution, k: nat, route: Route, gone: multiset<Order>, come: multiset<Order>)
    requires k < |routes|
    requires multiset(route) + gone == multiset(routes[k]) + come
    ensures OrdersOf(routes[k := route]) + gone == OrdersOf(routes) + come
  {
    OrdersOfUpdate(routes, k, route);
    var after, before := OrdersOf(routes[k := route]), OrdersOf(routes);
    var oldRoute, newRoute := multiset(routes[k]), multiset(route);
    forall e
      ensures (after + gone)[e] == (before + come)[e]
    {
      assert (after + oldRoute)[e] == (before + newRoute)[e];
      assert (newRoute + gone)[e] == (oldRoute + come)[e];
    }
    assert after + gone == before + come;
  }

  /** Reordering the orders inside one route keeps the orders of the assignment. */
  lemma ReorderRoute(routes: Solution, k: nat, route: Route)
    requires k < |routes| && multiset(route) == multiset(routes[k])
    ensures OrdersOf(routes[k := route]) == OrdersOf(routes)
  {
    OrdersOfUpdate(routes, k, route);
    var after, before, members := OrdersOf(routes[k := route]), OrdersOf(routes), multiset(route);
    forall e
      ensures after[e] == before[e]
    {
      assert (after + members)[e] == (before + members)[e];
    }
  }

  /** Writing v at position i of s trades one occurrence of s[i] for one of v. */
  lemma MultisetUpdate<T>(s: seq<T>, i: nat, v: T)
    requires i < |s|
    ensures multiset(s[i := v]) + multiset{s[i]} == multiset(s) + multiset{v}
  {
    assert s == s[..i] + [s[i]] + s[i + 1..];
    assert s[i := v] == s[..i] + [v] + s[i + 1..];
  }

  /** The two quantities a vehicle's capacity bounds. */
  datatype Measure = Weight | Volume

  function Amount(o: Order, m: Measure): real
  {
    match m
    case Weight => o.weight
    case Volume => o.volume
  }

  function Capacity(v: Vehicle, m: Measure): real
  {
    match m
    case Weight => v.capacityWeight
    case Volume => v.capacityVolume
  }

  /** The sum of one measure over the orders of a route; it is never
      negative when no order's amount is. */
  function Load(route: Route, m: Measure): (r: real)
    ensures NonNegativeAmounts(route, m) ==> r >= 0.0
  {
    if |route| == 0 then 0.0 else Amount(route[0], m) + Load(route[1..], m)
  }

  /** No order of the route has a negative amount of the measure. */
  predicate NonNegativeAmounts(route: Route, m: Measure)
  {
    |route| == 0 || (Amount(route[0], m) >= 0.0 && NonNegativeAmounts(route[1..], m))
  }

  /** Summing over a route split in two adds the two sums: the running total
      of `sum` over the orders, taken in any split. */
  lemma {:induction false} LoadConcat(a: Route, b: Route, m: Measure)
    ensures Load(a + b, m) == Load(a, m) + Load(b, m)
  {
    if |a| == 0 {
      assert a + b == b;
    } else {
      assert (a + b)[1..] == a[1..] + b;
      LoadConcat(a[1..], b, m);
    }
  }

  /** Taking order k out of a route takes its amount out of the load. */
  lemma LoadRemove(b: Route, k: nat, m: Measure)
    requires k < |b|
    ensures Load(b, m) == Amount(b[k], m) + Load(b[..k] + b[k + 1..], m)
  {
    assert b == b[..k] + ([b[k]] + b[k + 1..]);
    LoadConcat(b[..k], [b[k]] + b[k + 1..], m);
    assert ([b[k]] + b[k + 1..])[1..] == b[k + 1..];
    LoadConcat(b[..k], b[k + 1..], m);
  }

  /** Taking position k out of a sequence takes one occurrence of b[k] out of its multiset. */
  lemma MultisetRemove<T>(b: seq<T>, k: nat)
    requires k < |b|
    ensures multiset(b[..k] + b[k + 1..]) + multiset{b[k]} == multiset(b)
  {
    assert b == b[..k] + [b[k]] + b[k + 1..];
  }

  /** Putting v at position p of a sequence adds one occurrence of v. */
  lemma MultisetInsert<T>(b: seq<T>, p: nat, v: T)
    requires p <= |b|
    ensures multiset(b[..p] + [v] + b[p..]) == multiset(b) + multiset{v}
  {
    assert b == b[..p] + b[p..];
  }

  /** Popping position i of route k takes exactly that order out of the assignment. */
  lemma RemoveFromRoute(routes: Solution, k: nat, i: nat)
    requires k < |routes| && i < |routes[k]|
    ensures OrdersOf(routes[k := routes[k][..i] + routes[k][i + 1..]]) + multiset{routes[k][i]} == OrdersOf(routes)
  {
    MultisetRemove(routes[k], i);
    ReplaceRoute(routes, k, routes[k][..i] + routes[k][i + 1..], multiset{routes[k][i]}, multiset{});
    assert OrdersOf(routes) + multiset{} == OrdersOf(routes);
  }

  /** Inserting order o into route k at position p adds exactly that order to the assignment. */
  lemma InsertIntoRoute(routes: Solution, k: nat, p: nat, o: Order)
    requires k < |routes| && p <= |routes[k]|
    ensures OrdersOf(routes[k := routes[k][..p] + [o] + routes[k][p..]]) == OrdersOf(routes) + multiset{o}
  {
    var route := routes[k][..p] + [o] + routes[k][p..];
    MultisetInsert(routes[k], p, o);
    ReplaceRoute(routes, k, route, multiset{}, multiset{o});
    assert OrdersOf(routes[k := route]) + multiset{} == OrdersOf(routes[k := route]);
  }

  /** `route[i : j + 1] = reversed(route[i : j + 1])`: positions i to j
      (both included) read backwards, everything else in place. */
  function ReverseSegment(s: Route, i: nat, j: nat): (r: Route)
    requires i <= j < |s|
    ensures |r| == |s|
    ensures multiset(r) == multiset(s)
    ensures forall p :: 0 <= p < |r| ==> r[p] == s[if i <= p <= j then i + j - p else p]
  {
    var r := s[..i] + Reverse(s[i..j + 1]) + s[j + 1..];
    ReverseKeepsMembers(s[i..j + 1]);
    assert s == s[..i] + s[i..j + 1] + s[j + 1..];
    r
  }

  /** A route's load depends only on which orders it holds, not on their order. */
  lemma {:induction false} LoadDependsOnlyOnMembers(a: Route, b: Route, m: Measure)
    requires multiset(a) == multiset(b)
    ensures Load(a, m) == Load(b, m)
    decreases |a|
  {
    if |a| > 0 {
      var x := a[0];
      assert x in multiset(b);
      var k :| 0 <= k < |b| && b[k] == x;
      var rest := b[..k] + b[k + 1..];
      RemoveSameMember(a, b, k);
      LoadDependsOnlyOnMembers(a[1..], rest, m);
      LoadRemove(b, k, m);
    }
  }

  /** Taking the first element of a and an equal element of b out of two
      sequences with equal multisets leaves equal multisets. */
  lemma RemoveSameMember<T>(a: seq<T>, b: seq<T>, k: nat)
    requires multiset(a) == multiset(b) && 0 < |a| && k < |b| && b[k] == a[0]
    ensures multiset(a[1..]) == multiset(b[..k] + b[k + 1..])
  {
    MultisetRemove(a, 0);
    MultisetRemove(b, k);
    assert a[..0] + a[1..] == a[1..];
    var left, right, x := multiset(a[1..]), multiset(b[..k] + b[k + 1..]), a[0];
    forall e
      ensures left[e] == right[e]
    {
      assert (left + multiset{x})[e] == (right + multiset{x})[e];
    }
  }

  /** The route read backwards: `reversed(route)`. */
  function Reverse(s: Route): (r: Route)
    ensures |r| == |s|
  {
    seq(|s|, k requires 0 <= k < |s| => s[|s| - 1 - k])
  }

  lemma {:induction false} ReverseKeepsMembers(s: Route)
    ensures multiset(Reverse(s)) == multiset(s)
    decreases |s|
  {
    if |s| > 0 {
      assert Reverse(s) == Reverse(s[1..]) + [s[0]];
      ReverseKeepsMembers(s[1..]);
      assert s == [s[0]] + s[1..];
    }
  }
}
