/** The objective `total_distance`: walk depot, orders, depot for every route,
    add up leg distances and leg times, and weigh the two. */
module Scoring {
  import opened Routes

  /** The leg distance between two points. It stands for the great-circle
      formula, which is not modelled; nothing is assumed about it (not even
      symmetry or a zero distance from a point to itself). */
  type Metric = (Location, Location) -> real

  /** Assumed average speed in km/h: a leg of d km takes d / 30 hours. */
  const AverageSpeed: real := 30.0

  ghost predicate NonNegative(dist: Metric)
  {
    forall a, b :: dist(a, b) >= 0.0
  }

  /** Where the vehicle stands after serving `route` from the depot. */
  function LastStop(depot: Location, route: Route): Location
  {
    if |route| == 0 then depot else route[|route| - 1].location
  }

  /** The legs depot -> o1 -> ... -> on, without the return leg. */
  function Outbound(dist: Metric, depot: Location, route: Route): real
  {
    if |route| == 0 then 0.0
    else
      var before := route[..|route| - 1];
      Outbound(dist, depot, before) + dist(LastStop(depot, before), route[|route| - 1].location)
  }

  /** The leg from the last stop back to the depot (depot to depot for an empty route). */
  function ReturnLeg(dist: Metric, depot: Location, route: Route): real
  {
    dist(LastStop(depot, route), depot)
  }

  /** Distance driven on one route, return leg included. */
  function RouteDistance(dist: Metric, depot: Location, route: Route): real
  {
    Outbound(dist, depot, route) + ReturnLeg(dist, depot, route)
  }

  /** Time spent on one route: only the outbound legs are timed. */
  function RouteTime(dist: Metric, depot: Location, route: Route): real
  {
    Outbound(dist, depot, route) / AverageSpeed
  }

  function TotalDist(dist: Metric, depot: Location, routes: Solution): real
  {
    if |routes| == 0 then 0.0
    else TotalDist(dist, depot, routes[..|routes| - 1]) + RouteDistance(dist, depot, routes[|routes| - 1])
  }

  function TotalTime(dist: Metric, depot: Location, routes: Solution): real
  {
    if |routes| == 0 then 0.0
    else TotalTime(dist, depot, routes[..|routes| - 1]) + RouteTime(dist, depot, routes[|routes| - 1])
  }

  /** The sum of the return legs of all routes. */
  function TotalReturn(dist: Metric, depot: Location, routes: Solution): real
  {
    if |routes| == 0 then 0.0
    else TotalReturn(dist, depot, routes[..|routes| - 1]) + ReturnLeg(dist, depot, routes[|routes| - 1])
  }

  /** The weighted score that the search minimises. */
  function Score(dist: Metric, depot: Location, routes: Solution, weightDistance: real, weightTime: real): real
  {
    weightDistance * TotalDist(dist, depot, routes) + weightTime * TotalTime(dist, depot, routes)
  }

  /** The accumulator loop of the source: per route, from the depot through
      each order (adding each leg to the distance and leg / 30 to the time),
      then back to the depot (adding that leg to the distance only). */
  method TotalDistance(routes: Solution, depot: Location, dist: Metric, weightDistance: real, weightTime: real)
    returns (score: real, totalDist: real, totalTime: real)
    ensures totalDist == TotalDist(dist, depot, routes)
    ensures totalTime == TotalTime(dist, depot, routes)
    ensures score == Score(dist, depot, routes, weightDistance, weightTime)
  {
    totalDist := 0.0;
    totalTime := 0.0;
    for r := 0 to |routes|
      invariant totalDist == TotalDist(dist, depot, routes[..r])
      invariant totalTime == TotalTime(dist, depot, routes[..r])
    {
      var route := routes[r];
      var prev := depot;
      for k := 0 to |route|
        invariant prev == LastStop(depot, route[..k])
        invariant totalDist == TotalDist(dist, depot, routes[..r]) + Outbound(dist, depot, route[..k])
        invariant totalTime == TotalTime(dist, depot, routes[..r]) + Outbound(dist, depot, route[..k]) / AverageSpeed
      {
        var distance := dist(prev, route[k].location);
        totalDist := totalDist + distance;
        totalTime := totalTime + distance / AverageSpeed;
        prev := route[k].location;
        assert route[..k + 1][..k] == route[..k];
      }
      totalDist := totalDist + dist(prev, depot);
      assert route[..|route|] == route;
      assert routes[..r + 1][..r] == routes[..r];
    }
    assert routes[..|routes|] == routes;
    score := weightDistance * totalDist + weightTime * totalTime;
  }

  /** Every leg is timed except the return legs: the distance is the timed
      distance (speed times time) plus the return legs. */
  lemma {:induction false} DistanceIsTimedPlusReturn(dist: Metric, depot: Location, routes: Solution)
    ensures TotalDist(dist, depot, routes) == AverageSpeed * TotalTime(dist, depot, routes) + TotalReturn(dist, depot, routes)
  {
    if |routes| > 0 {
      DistanceIsTimedPlusReturn(dist, depot, routes[..|routes| - 1]);
    }
  }

  /** Assignments whose routes are all empty: every route still adds the
      depot-to-depot leg to the distance, and nothing to the time. */
  lemma {:induction false} EmptyRoutesCost(dist: Metric, depot: Location, routes: Solution)
    requires forall k :: 0 <= k < |routes| ==> routes[k] == []
    ensures TotalDist(dist, depot, routes) == (|routes| as real) * dist(depot, depot)
    ensures TotalTime(dist, depot, routes) == 0.0
  {
    if |routes| > 0 {
      EmptyRoutesCost(dist, depot, routes[..|routes| - 1]);
    }
  }

  /** One vehicle serving one order: out and back for the distance, out only for the time. */
  lemma SingleOrderCost(dist: Metric, depot: Location, o: Order)
    ensures TotalDist(dist, depot, [[o]]) == dist(depot, o.location) + dist(o.location, depot)
    ensures TotalTime(dist, depot, [[o]]) == dist(depot, o.location) / AverageSpeed
  {
    assert [[o]][..0] == [];
    assert [o][..0] == [];
    assert Outbound(dist, depot, [o]) == dist(depot, o.location);
    assert ReturnLeg(dist, depot, [o]) == dist(o.location, depot);
  }

  /** With non-negative legs and weights the score is non-negative. */
  lemma {:induction false} ScoreNonNegative(dist: Metric, depot: Location, routes: Solution, weightDistance: real, weightTime: real)
    requires NonNegative(dist) && weightDistance >= 0.0 && weightTime >= 0.0
    ensures TotalDist(dist, depot, routes) >= 0.0 && TotalTime(dist, depot, routes) >= 0.0
    ensures Score(dist, depot, routes, weightDistance, weightTime) >= 0.0
  {
    if |routes| > 0 {
      ScoreNonNegative(dist, depot, routes[..|routes| - 1], weightDistance, weightTime);
      OutboundNonNegative(dist, depot, routes[|routes| - 1]);
    }
  }

  lemma {:induction false} OutboundNonNegative(dist: Metric, depot: Location, route: Route)
    requires NonNegative(dist)
    ensures Outbound(dist, depot, route) >= 0.0
  {
    if |route| > 0 {
      OutboundNonNegative(dist, depot, route[..|route| - 1]);
    }
  }

  /** Replacing one route changes the totals by exactly that route's own
      contribution: a move that touches two routes moves the score only
      through those two routes. */
  lemma {:induction false} TotalsUpdate(dist: Metric, depot: Location, routes: Solution, k: nat, route: Route)
    requires k < |routes|
    ensures TotalDist(dist, depot, routes[k := route])
            == TotalDist(dist, depot, routes) - RouteDistance(dist, depot, routes[k]) + RouteDistance(dist, depot, route)
    ensures TotalTime(dist, depot, routes[k := route])
            == TotalTime(dist, depot, routes) - RouteTime(dist, depot, routes[k]) + RouteTime(dist, depot, route)
  {
    var n := |routes|;
    var updated := routes[k := route];
    if k == n - 1 {
      assert updated[..n - 1] == routes[..n - 1];
    } else {
      assert updated[..n - 1] == routes[..n - 1][k := route];
      assert routes[..n - 1][k] == routes[k];
      TotalsUpdate(dist, depot, routes[..n - 1], k, route);
    }
  }
}
