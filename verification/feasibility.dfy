/** The capacity check `is_valid`: route i must fit vehicle i in weight and in volume. */
module Feasibility {
  import opened Routes

  /** The route's summed weight and summed volume are within the vehicle's capacities
      (reaching a capacity exactly is allowed). */
  predicate Fits(route: Route, v: Vehicle)
  {
    Load(route, Weight) <= v.capacityWeight && Load(route, Volume) <= v.capacityVolume
  }

  /** Every route fits the vehicle at the same index. */
  predicate Feasible(routes: Solution, vehicles: seq<Vehicle>)
    requires |routes| <= |vehicles|
  {
    forall i :: 0 <= i < |routes| ==> Fits(routes[i], vehicles[i])
  }

  /** Walks the routes in order and answers false at the first route that
      exceeds a capacity of its vehicle. The requires asks for no more routes
      than vehicles, as the only caller guarantees; otherwise the source fails
      on the missing index once it reaches a route with no vehicle, unless an
      earlier route already failed. */
  method IsValid(routes: Solution, vehicles: seq<Vehicle>) returns (valid: bool)
    requires |routes| <= |vehicles|
    ensures valid <==> Feasible(routes, vehicles)
  {
    for i := 0 to |routes|
      invariant forall k :: 0 <= k < i ==> Fits(routes[k], vehicles[k])
    {
      var totalWeight := Load(routes[i], Weight);
      var totalVolume := Load(routes[i], Volume);
      if totalWeight > vehicles[i].capacityWeight || totalVolume > vehicles[i].capacityVolume {
        return false;
      }
    }
    return true;
  }

  /** Two assignments whose routes hold the same orders route by route (in any
      order within a route) are feasible together or infeasible together. */
  lemma SameMembersSameFeasibility(a: Solution, b: Solution, vehicles: seq<Vehicle>)
    requires |a| == |b| <= |vehicles|
    requires forall k :: 0 <= k < |a| ==> multiset(a[k]) == multiset(b[k])
    ensures Feasible(a, vehicles) <==> Feasible(b, vehicles)
  {
    forall k | 0 <= k < |a|
      ensures Fits(a[k], vehicles[k]) <==> Fits(b[k], vehicles[k])
    {
      LoadDependsOnlyOnMembers(a[k], b[k], Weight);
      LoadDependsOnlyOnMembers(a[k], b[k], Volume);
    }
  }
}
