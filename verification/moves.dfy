/** The neighbourhood moves. Each move copies the assignment and edits the copy;
    here the copy is a local value, so the caller's assignment never changes.
    The random draws of each move are parameters, constrained to the ranges the
    source draws them from. */
module Moves {
  import opened Routes
  import opened Feasibility

  /** Draws of one swap: two distinct routes, and a position in each
      (the positions are drawn only when both routes are non-empty). */
  datatype SwapDraw = SwapDraw(route1: nat, route2: nat, i: nat, j: nat)

  /** Draws of a relocation: distinct source and destination routes, the
      position taken out of the source and the insertion point in the destination. */
  datatype RelocateDraw = RelocateDraw(source: nat, dest: nat, i: nat, insertAt: nat)

  /** Draws of a 2-opt move: a route and two positions i < j in it. */
  datatype TwoOptDraw = TwoOptDraw(route: nat, i: nat, j: nat)

  /** The move picked by the dispatcher, with that move's own draws. */
  datatype Move =
    | Swap(swap: SwapDraw)
    | Relocate(relocate: RelocateDraw)
    | TwoOpt(twoOpt: TwoOptDraw)
    | MultipleSwap(swaps: seq<SwapDraw>)

  /** Both assignments have the same number of routes, and equally long routes index by index. */
  predicate SameShape(a: Solution, b: Solution)
  {
    |a| == |b| && forall k :: 0 <= k < |a| ==> |a[k]| == |b[k]|
  }

  /** Drawing two distinct route indices needs at least two routes. */
  predicate SwapFits(routes: Solution, d: SwapDraw)
  {
    && d.route1 < |routes| && d.route2 < |routes| && d.route1 != d.route2
    && (|routes[d.route1]| > 0 && |routes[d.route2]| > 0 ==>
          d.i < |routes[d.route1]| && d.j < |routes[d.route2]|)
  }

  predicate RelocateFits(routes: Solution, d: RelocateDraw)
  {
    && d.source < |routes| && d.dest < |routes| && d.source != d.dest
    && (|routes[d.source]| > 0 ==> d.i < |routes[d.source]| && d.insertAt <= |routes[d.dest]|)
  }

  /** Choosing a route needs at least one route. */
  predicate TwoOptFits(routes: Solution, d: TwoOptDraw)
  {
    d.route < |routes| && (|routes[d.route]| > 2 ==> d.i < d.j < |routes[d.route]|)
  }

  /** The multiple swap makes two to four swaps. */
  predicate MoveFits(routes: Solution, m: Move)
  {
    match m
    case Swap(d) => SwapFits(routes, d)
    case Relocate(d) => RelocateFits(routes, d)
    case TwoOpt(d) => TwoOptFits(routes, d)
    case MultipleSwap(ds) => 2 <= |ds| <= 4 && forall k :: 0 <= k < |ds| ==> SwapFits(routes, ds[k])
  }

  /** Route k is named by none of the swaps. */
  predicate Untouched(k: nat, ds: seq<SwapDraw>)
  {
    forall q :: 0 <= q < |ds| ==> k != ds[q].route1 && k != ds[q].route2
  }

  // ---------------------------------------------------------------- swap

  /** One swap: if both chosen routes are non-empty, the order at position i of
      the first and the order at position j of the second change places;
      otherwise nothing changes. */
  function Swapped(routes: Solution, d: SwapDraw): (r: Solution)
    requires SwapFits(routes, d)
    ensures SameShape(r, routes)
    ensures OrdersOf(r) == OrdersOf(routes)
    ensures forall k :: 0 <= k < |r| && k != d.route1 && k != d.route2 ==> r[k] == routes[k]
  {
    if |routes[d.route1]| > 0 && |routes[d.route2]| > 0 then
      var a, b := routes[d.route1][d.i], routes[d.route2][d.j];
      var first := routes[d.route1 := routes[d.route1][d.i := b]];
      var both := first[d.route2 := first[d.route2][d.j := a]];
      SwapKeepsOrders(routes, first, both, d);
      both
    else
      routes
  }

  /** The two drawn orders change places and every other position keeps its
      order; with an empty route among the two, nothing changes. */
  lemma SwapExchanges(routes: Solution, d: SwapDraw)
    requires SwapFits(routes, d)
    ensures var r := Swapped(routes, d);
      && (|routes[d.route1]| > 0 && |routes[d.route2]| > 0 ==>
            && r[d.route1][d.i] == routes[d.route2][d.j]
            && r[d.route2][d.j] == routes[d.route1][d.i]
            && (forall p :: 0 <= p < |r[d.route1]| && p != d.i ==> r[d.route1][p] == routes[d.route1][p])
            && (forall p :: 0 <= p < |r[d.route2]| && p != d.j ==> r[d.route2][p] == routes[d.route2][p]))
      && (|routes[d.route1]| == 0 || |routes[d.route2]| == 0 ==> r == routes)
  {
  }

  lemma SwapKeepsOrders(routes: Solution, first: Solution, both: Solution, d: SwapDraw)
    requires SwapFits(routes, d) && |routes[d.route1]| > 0 && |routes[d.route2]| > 0
    requires first == routes[d.route1 := routes[d.route1][d.i := routes[d.route2][d.j]]]
    requires both == first[d.route2 := first[d.route2][d.j := routes[d.route1][d.i]]]
    ensures OrdersOf(both) == OrdersOf(routes)
  {
    var a, b := routes[d.route1][d.i], routes[d.route2][d.j];
    MultisetUpdate(routes[d.route1], d.i, b);
    ReplaceRoute(routes, d.route1, first[d.route1], multiset{a}, multiset{b});
    assert first[d.route2] == routes[d.route2];
    MultisetUpdate(routes[d.route2], d.j, a);
    ReplaceRoute(first, d.route2, both[d.route2], multiset{b}, multiset{a});
    var o0, o1, o2 := OrdersOf(routes), OrdersOf(first), OrdersOf(both);
    forall e
      ensures o2[e] == o0[e]
    {
      assert (o1 + multiset{a})[e] == (o0 + multiset{b})[e];
      assert (o2 + multiset{b})[e] == (o1 + multiset{a})[e];
    }
    assert o2 == o0;
  }

  /** `swap_move`, as index assignments on a local copy. */
  method SwapMove(routes: Solution, d: SwapDraw) returns (next: Solution)
    requires SwapFits(routes, d)
    ensures next == Swapped(routes, d)
  {
    next := routes;
    if |next[d.route1]| > 0 && |next[d.route2]| > 0 {
      var fromSecond, fromFirst := next[d.route2][d.j], next[d.route1][d.i];
      next := next[d.route1 := next[d.route1][d.i := fromSecond]];
      next := next[d.route2 := next[d.route2][d.j := fromFirst]];
    }
  }

  // ------------------------------------------------------- multiple swap

  /** The swaps applied one after another, each to the result of the previous.
      Swaps keep every route's length, so every draw fits the original shape. */
  function SwapsApplied(routes: Solution, ds: seq<SwapDraw>): (r: Solution)
    requires forall k :: 0 <= k < |ds| ==> SwapFits(routes, ds[k])
    ensures SameShape(r, routes)
    ensures OrdersOf(r) == OrdersOf(routes)
    ensures forall k :: 0 <= k < |r| && Untouched(k, ds) ==> r[k] == routes[k]
    decreases |ds|
  {
    if |ds| == 0 then routes
    else
      var before := SwapsApplied(routes, ds[..|ds| - 1]);
      assert SwapFits(routes, ds[|ds| - 1]);
      Swapped(before, ds[|ds| - 1])
  }

  /** `multiple_swap_move`, as a loop of index assignments on one local copy. */
  method MultipleSwapMove(routes: Solution, swaps: seq<SwapDraw>) returns (next: Solution)
    requires 2 <= |swaps| <= 4
    requires forall k :: 0 <= k < |swaps| ==> SwapFits(routes, swaps[k])
    ensures next == SwapsApplied(routes, swaps)
  {
    next := routes;
    for n := 0 to |swaps|
      invariant next == SwapsApplied(routes, swaps[..n])
    {
      assert swaps[..n + 1][..n] == swaps[..n];
      var d := swaps[n];
      if |next[d.route1]| > 0 && |next[d.route2]| > 0 {
        var fromSecond, fromFirst := next[d.route2][d.j], next[d.route1][d.i];
        next := next[d.route1 := next[d.route1][d.i := fromSecond]];
        next := next[d.route2 := next[d.route2][d.j := fromFirst]];
      }
    }
    assert swaps[..|swaps|] == swaps;
  }

  // ------------------------------------------------------------ relocate

  /** One relocation: if the source route is non-empty, its order at position i
      leaves it and enters the destination at position insertAt; both routes
      keep the relative order of their other orders. */
  function Relocated(routes: Solution, d: RelocateDraw): (r: Solution)
    requires RelocateFits(routes, d)
    ensures |r| == |routes|
    ensures OrdersOf(r) == OrdersOf(routes)
    ensures forall k :: 0 <= k < |r| && k != d.source && k != d.dest ==> r[k] == routes[k]
  {
    if |routes[d.source]| > 0 then
      var src, dst := routes[d.source], routes[d.dest];
      var o := src[d.i];
      var popped := routes[d.source := src[..d.i] + src[d.i + 1..]];
      var inserted := popped[d.dest := dst[..d.insertAt] + [o] + dst[d.insertAt..]];
      RelocateKeepsOrders(routes, popped, inserted, d);
      inserted
    else
      routes
  }

  /** With a non-empty source, exactly the drawn order leaves the source
      route and enters the destination at the drawn position; with an empty
      source nothing changes. */
  lemma RelocateMovesOne(routes: Solution, d: RelocateDraw)
    requires RelocateFits(routes, d)
    ensures var r, src, dst := Relocated(routes, d), routes[d.source], routes[d.dest];
      && (|src| > 0 ==>
            var o := src[d.i];
            && |r[d.source]| == |src| - 1
            && |r[d.dest]| == |dst| + 1
            && r[d.dest][d.insertAt] == o
            && multiset(r[d.source]) + multiset{o} == multiset(src)
            && multiset(r[d.dest]) == multiset(dst) + multiset{o})
      && (|src| == 0 ==> r == routes)
  {
    var r, src := Relocated(routes, d), routes[d.source];
    if |src| > 0 {
      var popped := routes[d.source := src[..d.i] + src[d.i + 1..]];
      RelocateKeepsOrders(routes, popped, r, d);
    }
  }

  /** Both routes keep the relative order of their other orders: the source
      closes the gap at i, the destination opens one at insertAt. */
  lemma RelocateKeepsSequence(routes: Solution, d: RelocateDraw)
    requires RelocateFits(routes, d) && |routes[d.source]| > 0
    ensures var r, src, dst := Relocated(routes, d), routes[d.source], routes[d.dest];
      && (forall p :: 0 <= p < d.i ==> r[d.source][p] == src[p])
      && (forall p :: d.i <= p < |r[d.source]| ==> r[d.source][p] == src[p + 1])
      && (forall p :: 0 <= p < d.insertAt ==> r[d.dest][p] == dst[p])
      && (forall p :: d.insertAt < p <= |dst| ==> r[d.dest][p] == dst[p - 1])
  {
    var r, src, dst := Relocated(routes, d), routes[d.source], routes[d.dest];
    assert r[d.source] == src[..d.i] + src[d.i + 1..];
    assert r[d.dest] == dst[..d.insertAt] + [src[d.i]] + dst[d.insertAt..];
  }

  lemma RelocateKeepsOrders(routes: Solution, popped: Solution, inserted: Solution, d: RelocateDraw)
    requires RelocateFits(routes, d) && |routes[d.source]| > 0
    requires popped == routes[d.source := routes[d.source][..d.i] + routes[d.source][d.i + 1..]]
    requires inserted == popped[d.dest := routes[d.dest][..d.insertAt] + [routes[d.source][d.i]] + routes[d.dest][d.insertAt..]]
    ensures multiset(popped[d.source]) + multiset{routes[d.source][d.i]} == multiset(routes[d.source])
    ensures multiset(inserted[d.dest]) == multiset(routes[d.dest]) + multiset{routes[d.source][d.i]}
    ensures OrdersOf(inserted) == OrdersOf(routes)
  {
    var o := routes[d.source][d.i];
    assert popped[d.dest] == routes[d.dest];
    RemoveFromRoute(routes, d.source, d.i);
    InsertIntoRoute(popped, d.dest, d.insertAt, o);
    var o0, o1, o2 := OrdersOf(routes), OrdersOf(popped), OrdersOf(inserted);
    forall e
      ensures o2[e] == o0[e]
    {
      assert (o1 + multiset{o})[e] == o0[e];
    }
    assert o2 == o0;
    MultisetRemove(routes[d.source], d.i);
    MultisetInsert(routes[d.dest], d.insertAt, o);
  }

  /** `relocate_move`, as a pop and an insert on a local copy. */
  method RelocateMove(routes: Solution, d: RelocateDraw) returns (next: Solution)
    requires RelocateFits(routes, d)
    ensures next == Relocated(routes, d)
  {
    next := routes;
    if |next[d.source]| > 0 {
      var order := next[d.source][d.i];
      next := next[d.source := next[d.source][..d.i] + next[d.source][d.i + 1..]];
      next := next[d.dest := next[d.dest][..d.insertAt] + [order] + next[d.dest][d.insertAt..]];
    }
  }

  // --------------------------------------------------------------- 2-opt

  /** One 2-opt move: if the chosen route has more than two orders, the
      segment from position i to position j (both included) is read backwards. */
  function TwoOpted(routes: Solution, d: TwoOptDraw): (r: Solution)
    requires TwoOptFits(routes, d)
    ensures SameShape(r, routes)
    ensures forall k :: 0 <= k < |r| && k != d.route ==> r[k] == routes[k]
    ensures OrdersOf(r) == OrdersOf(routes)
  {
    var route := routes[d.route];
    if |route| > 2 then
      var reordered := ReverseSegment(route, d.i, d.j);
      ReorderRoute(routes, d.route, reordered);
      routes[d.route := reordered]
    else
      routes
  }

  /** On a route of more than two orders, 2-opt reads positions i to j
      backwards and leaves every other position in place; a route of at most
      two orders is left alone. Either way each route keeps its orders. */
  lemma TwoOptReversesSegment(routes: Solution, d: TwoOptDraw)
    requires TwoOptFits(routes, d)
    ensures var r := TwoOpted(routes, d);
      && (forall k :: 0 <= k < |r| ==> multiset(r[k]) == multiset(routes[k]))
      && (|routes[d.route]| > 2 ==>
            var after, before := r[d.route], routes[d.route];
            && (forall p :: 0 <= p < d.i ==> after[p] == before[p])
            && (forall p :: d.i <= p <= d.j ==> after[p] == before[d.i + d.j - p])
            && (forall p :: d.j < p < |after| ==> after[p] == before[p]))
      && (|routes[d.route]| <= 2 ==> r == routes)
  {
    var r := TwoOpted(routes, d);
    if |routes[d.route]| > 2 {
      assert r[d.route] == ReverseSegment(routes[d.route], d.i, d.j);
    }
  }

  /** 2-opt never moves an order to another route, so it keeps every route's
      weight and volume and the outcome of the capacity check. */
  lemma TwoOptKeepsFeasibility(routes: Solution, d: TwoOptDraw, vehicles: seq<Vehicle>)
    requires TwoOptFits(routes, d) && |routes| <= |vehicles|
    ensures forall k, m :: 0 <= k < |routes| ==> Load(TwoOpted(routes, d)[k], m) == Load(routes[k], m)
    ensures Feasible(TwoOpted(routes, d), vehicles) <==> Feasible(routes, vehicles)
  {
    var r := TwoOpted(routes, d);
    TwoOptReversesSegment(routes, d);
    forall k, m | 0 <= k < |routes|
      ensures Load(r[k], m) == Load(routes[k], m)
    {
      LoadDependsOnlyOnMembers(r[k], routes[k], m);
    }
    SameMembersSameFeasibility(r, routes, vehicles);
  }

  /** `two_opt_move`, as a slice reversal on a local copy. */
  method TwoOptMove(routes: Solution, d: TwoOptDraw) returns (next: Solution)
    requires TwoOptFits(routes, d)
    ensures next == TwoOpted(routes, d)
  {
    next := routes;
    var route := next[d.route];
    if |route| > 2 {
      route := ReverseSegment(route, d.i, d.j);
      next := next[d.route := route];
    }
  }

  // ---------------------------------------------------------- dispatcher

  /** The candidate the dispatcher builds: as many routes as before, and the
      same orders, none created, lost or duplicated. */
  function Neighbor(routes: Solution, m: Move): (r: Solution)
    requires MoveFits(routes, m)
    ensures |r| == |routes|
    ensures OrdersOf(r) == OrdersOf(routes)
  {
    match m
    case Swap(d) => Swapped(routes, d)
    case Relocate(d) => Relocated(routes, d)
    case TwoOpt(d) => TwoOpted(routes, d)
    case MultipleSwap(ds) => SwapsApplied(routes, ds)
  }

  /** `generate_neighbor`, calling the picked move's method. */
  method GenerateNeighbor(routes: Solution, m: Move) returns (next: Solution)
    requires MoveFits(routes, m)
    ensures next == Neighbor(routes, m)
  {
    match m
    case Swap(d) => next := SwapMove(routes, d);
    case Relocate(d) => next := RelocateMove(routes, d);
    case TwoOpt(d) => next := TwoOptMove(routes, d);
    case MultipleSwap(ds) => next := MultipleSwapMove(routes, ds);
  }
}
