/** The annealing controller `simulated_annealing`: deal the shuffled orders
    round-robin, then repeatedly draw a neighbour, drop it if infeasible,
    score it, run the acceptance test, keep the best, and cool down. */
module Annealing {
  import opened Routes
  import opened Feasibility
  import opened Scoring
  import opened Moves

  // ------------------------------------------------------ initial deal

  function EmptyRoutes(n: nat): (r: Solution)
    ensures |r| == n
  {
    seq(n, _ => [])
  }

  /** The round-robin deal of the shuffled orders over n routes: the order at
      position k is appended to route k mod n. Every order lands in exactly one route. */
  function Dealt(orders: seq<Order>, n: nat): (r: Solution)
    requires n > 0 || |orders| == 0
    ensures |r| == n
    ensures OrdersOf(r) == multiset(orders)
    decreases |orders|
  {
    if |orders| == 0 then
      EmptyRoutesHoldNothing(n);
      EmptyRoutes(n)
    else
      var m := |orders| - 1;
      var before := Dealt(orders[..m], n);
      var q := m % n;
      ReplaceRoute(before, q, before[q] + [orders[m]], multiset{}, multiset{orders[m]});
      assert orders == orders[..m] + [orders[m]];
      before[q := before[q] + [orders[m]]]
  }

  /** Route q receives |orders| div n orders, plus one when q < |orders| mod n. */
  lemma {:induction false} DealtLengths(orders: seq<Order>, n: nat)
    requires n > 0
    ensures forall q :: 0 <= q < n ==> |Dealt(orders, n)[q]| == |orders| / n + (if q < |orders| % n then 1 else 0)
    decreases |orders|
  {
    var r := Dealt(orders, n);
    if |orders| == 0 {
      DivModUnique(0, n, 0, 0);
    } else {
      var m := |orders| - 1;
      var before := Dealt(orders[..m], n);
      DealtLengths(orders[..m], n);
      DivModNext(m, n);
      var a, b := m / n, m % n;
      forall q | 0 <= q < n
        ensures |r[q]| == |orders| / n + (if q < |orders| % n then 1 else 0)
      {
        assert |before[q]| == a + (if q < b then 1 else 0);
        if q == b {
          assert |r[q]| == |before[q]| + 1;
        } else {
          assert r[q] == before[q];
        }
      }
    }
  }

  /** The order at shuffled position k sits in route k mod n at position k div n. */
  predicate PlacedAt(r: Solution, orders: seq<Order>, n: nat, k: nat)
    requires n > 0 && |r| == n && k < |orders|
  {
    k / n < |r[k % n]| && r[k % n][k / n] == orders[k]
  }

  lemma {:induction false} DealtPlacement(orders: seq<Order>, n: nat)
    requires n > 0
    ensures forall k :: 0 <= k < |orders| ==> PlacedAt(Dealt(orders, n), orders, n, k)
    decreases |orders|
  {
    if |orders| > 0 {
      var m := |orders| - 1;
      var before := Dealt(orders[..m], n);
      DealtPlacement(orders[..m], n);
      DealtLengths(orders[..m], n);
      assert |before[m % n]| == m / n;
      forall k | 0 <= k < |orders|
        ensures PlacedAt(Dealt(orders, n), orders, n, k)
      {
        PlacementStep(before, orders, n, k);
      }
    }
  }

  /** Appending the last order to route m mod n keeps every earlier placement
      and puts the new order at position m div n. */
  lemma PlacementStep(before: Solution, orders: seq<Order>, n: nat, k: nat)
    requires n > 0 && |before| == n && 0 <= k < |orders|
    requires |before[(|orders| - 1) % n]| == (|orders| - 1) / n
    requires k < |orders| - 1 ==> PlacedAt(before, orders[..|orders| - 1], n, k)
    ensures var m := |orders| - 1;
            PlacedAt(before[m % n := before[m % n] + [orders[m]]], orders, n, k)
  {
    var m := |orders| - 1;
    var b := m % n;
    var r := before[b := before[b] + [orders[m]]];
    var row, col := k % n, k / n;
    if k < m {
      assert col < |before[row]| && before[row][col] == orders[k];
      if row == b {
        assert r[row] == before[row] + [orders[m]];
      } else {
        assert r[row] == before[row];
      }
    }
  }

  /** Route lengths differ by at most one. */
  lemma DealtBalanced(orders: seq<Order>, n: nat)
    requires n > 0
    ensures forall a, b :: 0 <= a < n && 0 <= b < n ==> |Dealt(orders, n)[a]| <= |Dealt(orders, n)[b]| + 1
  {
    DealtLengths(orders, n);
  }

  lemma {:induction false} EmptyRoutesHoldNothing(n: nat)
    ensures OrdersOf(EmptyRoutes(n)) == multiset{}
  {
    if n > 0 {
      EmptyRoutesHoldNothing(n - 1);
      assert EmptyRoutes(n)[..n - 1] == EmptyRoutes(n - 1);
    }
  }

  /** How quotient and remainder move from m to m + 1. */
  lemma DivModNext(m: nat, n: nat)
    requires n > 0
    ensures m % n + 1 < n ==> (m + 1) / n == m / n && (m + 1) % n == m % n + 1
    ensures m % n + 1 == n ==> (m + 1) / n == m / n + 1 && (m + 1) % n == 0
  {
    var q, s := m / n, m % n;
    assert m == q * n + s;
    if s + 1 < n {
      DivModUnique(m + 1, n, q, s + 1);
    } else {
      assert m + 1 == (q + 1) * n;
      DivModUnique(m + 1, n, q + 1, 0);
    }
  }

  /** Quotient and remainder are the only ones: x = q * n + s with 0 <= s < n fixes both. */
  lemma DivModUnique(x: nat, n: nat, q: int, s: int)
    requires n > 0 && 0 <= s < n && x == q * n + s
    ensures x / n == q && x % n == s
  {
    var q', s' := x / n, x % n;
    assert x == q' * n + s';
    if q > q' {
      assert (q - q') * n == q * n - q' * n;
      MulAtLeast(q - q', n);
    } else if q < q' {
      assert (q' - q) * n == q' * n - q * n;
      MulAtLeast(q' - q, n);
    }
  }

  lemma {:induction false} MulAtLeast(d: int, n: nat)
    requires d >= 1
    ensures d * n >= n
    decreases d
  {
    if d > 1 {
      MulAtLeast(d - 1, n);
      assert d * n == (d - 1) * n + n;
    }
  }

  /** The dealing loop: one empty route per vehicle, then the order at
      shuffled position i is appended to route i mod n. */
  method InitialRoutes(vehicleCount: nat, orders: seq<Order>) returns (routes: Solution)
    requires vehicleCount > 0 || |orders| == 0
    ensures routes == Dealt(orders, vehicleCount)
  {
    routes := EmptyRoutes(vehicleCount);
    for i := 0 to |orders|
      invariant routes == Dealt(orders[..i], vehicleCount)
    {
      assert orders[..i + 1][..i] == orders[..i];
      routes := routes[i % vehicleCount := routes[i % vehicleCount] + [orders[i]]];
    }
    assert orders[..|orders|] == orders;
  }

  // ------------------------------------------------- search parameters

  /** The instance, the configuration, and the random source. `chooseMove(t, s)`
      is the move (with its draws) that the dispatcher picks at iteration t from
      assignment s; `metropolisCoin(t)` is whether the draw of uniform(0, 1) at
      iteration t falls below exp((current - candidate) / temperature). */
  datatype Params = Params(
    vehicles: seq<Vehicle>,
    depot: Location,
    dist: Metric,
    initialTemp: real,
    coolingRate: real,
    maxIterations: nat,
    weightDistance: real,
    weightTime: real,
    chooseMove: (nat, Solution) -> Move,
    metropolisCoin: nat -> bool)

  /** Every draw the loop can ask for lies in the range the source draws it from. */
  ghost predicate WellDrawn(p: Params)
  {
    forall t: nat, s: Solution :: t < p.maxIterations && |s| == |p.vehicles| ==> MoveFits(s, p.chooseMove(t, s))
  }

  /** The move drawn at the current iteration fits the current assignment. */
  predicate DrawFits(p: Params, s: AnnealState)
  {
    |s.current| == |p.vehicles| && MoveFits(s.current, p.chooseMove(s.iteration, s.current))
  }

  function ScoreOf(p: Params, routes: Solution): real
  {
    Score(p.dist, p.depot, routes, p.weightDistance, p.weightTime)
  }

  /** The Metropolis test for a candidate that is not strictly better:
      uniform(0, 1) lies in [0, 1), so when the score difference is zero
      (exp(0) = 1) the test always passes; otherwise the coin decides. */
  predicate MetropolisAccepts(difference: real, coin: bool)
  {
    difference == 0.0 || coin
  }

  /** The temperature after k decays: the initial temperature multiplied by
      the cooling rate k times, one multiplication per decay. With a
      non-negative start and a rate in [0, 1] it stays between 0 and the start. */
  function Cooled(initialTemp: real, coolingRate: real, k: nat): (r: real)
    ensures initialTemp >= 0.0 && 0.0 <= coolingRate <= 1.0 ==> 0.0 <= r <= initialTemp
  {
    if k == 0 then initialTemp else Cool(Cooled(initialTemp, coolingRate, k - 1), coolingRate)
  }

  /** One decay, `temperature *= cooling_rate`: with a rate in [0, 1] a
      non-negative temperature never rises and never turns negative. */
  function Cool(temperature: real, coolingRate: real): (r: real)
    ensures temperature >= 0.0 && 0.0 <= coolingRate <= 1.0 ==> 0.0 <= r <= temperature
  {
    assert temperature - temperature * coolingRate == temperature * (1.0 - coolingRate);
    temperature * coolingRate
  }

  // ---------------------------------------------------- the search state

  /** The loop's variables. `iteration` counts iterations begun and
      `decays` counts the temperature decays made so far. */
  datatype AnnealState = AnnealState(
    current: Solution,
    currentScore: real,
    best: Solution,
    bestScore: real,
    temperature: real,
    iteration: nat,
    decays: nat)

  /** Before the loop: the dealt assignment is current and best, unchecked for capacity. */
  function Initial(p: Params, orders: seq<Order>): (s: AnnealState)
    requires |p.vehicles| > 0 || |orders| == 0
  {
    var routes := Dealt(orders, |p.vehicles|);
    var score := ScoreOf(p, routes);
    AnnealState(routes, score, routes, score, p.initialTemp, 0, 0)
  }

  function Candidate(p: Params, s: AnnealState): Solution
    requires DrawFits(p, s)
  {
    Neighbor(s.current, p.chooseMove(s.iteration, s.current))
  }

  /** One pass of the loop body once the temperature is positive. An
      infeasible candidate ends the pass at once (no decay); otherwise a
      strictly better candidate, or one the Metropolis test admits, becomes
      current, a current strictly below the best becomes the best, and the
      temperature is multiplied by the cooling rate. */
  function Step(p: Params, s: AnnealState): (r: AnnealState)
    requires DrawFits(p, s)
    ensures r.iteration == s.iteration + 1
    ensures |r.current| == |s.current|
  {
    var candidate := Candidate(p, s);
    if !Feasible(candidate, p.vehicles) then
      s.(iteration := s.iteration + 1)
    else
      Settle(s, candidate, ScoreOf(p, candidate), p.metropolisCoin(s.iteration), p.coolingRate)
  }

  /** The rest of an iteration once the candidate is feasible and scored:
      the acceptance test, the best update and one decay. */
  function Settle(s: AnnealState, candidate: Solution, newScore: real, coin: bool, coolingRate: real): (r: AnnealState)
    ensures (r.current == candidate && r.currentScore == newScore) || (r.current == s.current && r.currentScore == s.currentScore)
    ensures (r.best == r.current && r.bestScore == r.currentScore) || (r.best == s.best && r.bestScore == s.bestScore)
    ensures r.bestScore <= s.bestScore
  {
    var accepted := newScore < s.currentScore || MetropolisAccepts(s.currentScore - newScore, coin);
    var current := if accepted then candidate else s.current;
    var currentScore := if accepted then newScore else s.currentScore;
    var improved := currentScore < s.bestScore;
    AnnealState(current, currentScore,
                if improved then current else s.best,
                if improved then currentScore else s.bestScore,
                Cool(s.temperature, coolingRate), s.iteration + 1, s.decays + 1)
  }

  /** The acceptance test and the best update decide as the source does: the
      candidate is taken whenever it scores no worse (strictly better always
      passes; an equal score passes because the Metropolis threshold is then
      exp(0) = 1); a strictly worse candidate is taken exactly when the coin
      falls under the Metropolis threshold; best changes only to the new
      current, on a strict improvement; and the temperature decays once. */
  lemma SettleOutcome(s: AnnealState, candidate: Solution, newScore: real, coin: bool, coolingRate: real)
    ensures var r := Settle(s, candidate, newScore, coin, coolingRate);
      && (newScore <= s.currentScore ==> r.current == candidate && r.currentScore == newScore)
      && (s.currentScore < newScore && coin ==> r.current == candidate && r.currentScore == newScore)
      && (s.currentScore < newScore && !coin ==> r.current == s.current && r.currentScore == s.currentScore)
      && (r.currentScore < s.bestScore ==> r.best == r.current && r.bestScore == r.currentScore)
      && (r.best != s.best || r.bestScore != s.bestScore ==>
            r.bestScore < s.bestScore && r.best == r.current && r.bestScore == r.currentScore)
      && r.temperature == Cool(s.temperature, coolingRate)
      && r.iteration == s.iteration + 1 && r.decays == s.decays + 1
  {
  }

  /** An iteration keeps the orders: the new current holds the same orders as the old. */
  lemma StepKeepsOrders(p: Params, s: AnnealState)
    requires DrawFits(p, s)
    ensures OrdersOf(Step(p, s).current) == OrdersOf(s.current)
  {
    var c := Candidate(p, s);
    if Feasible(c, p.vehicles) {
      StepSettles(p, s);
      SettleOutcome(s, c, ScoreOf(p, c), p.metropolisCoin(s.iteration), p.coolingRate);
    } else {
      StepSkips(p, s);
    }
  }

  /** Over one iteration the best score never increases, and best changes
      only to the new current, on a strict improvement. */
  lemma StepBestOnlyImproves(p: Params, s: AnnealState)
    requires DrawFits(p, s)
    ensures var r := Step(p, s);
      && r.bestScore <= s.bestScore
      && (r.best != s.best || r.bestScore != s.bestScore ==>
            r.bestScore < s.bestScore && r.best == r.current && r.bestScore == r.currentScore)
  {
    var c := Candidate(p, s);
    if Feasible(c, p.vehicles) {
      StepSettles(p, s);
      SettleOutcome(s, c, ScoreOf(p, c), p.metropolisCoin(s.iteration), p.coolingRate);
    } else {
      StepSkips(p, s);
    }
  }

  /** A feasible candidate that scores no worse than current always becomes
      current, with its own score, and the temperature decays once. */
  lemma StepAcceptsNoWorse(p: Params, s: AnnealState)
    requires DrawFits(p, s)
    ensures var r, c := Step(p, s), Candidate(p, s);
      Feasible(c, p.vehicles) && ScoreOf(p, c) <= s.currentScore ==>
        && r.current == c && r.currentScore == ScoreOf(p, c)
        && r.temperature == Cool(s.temperature, p.coolingRate) && r.decays == s.decays + 1
  {
    var c := Candidate(p, s);
    if Feasible(c, p.vehicles) && ScoreOf(p, c) <= s.currentScore {
      StepSettles(p, s);
      SettleTakesNoWorse(s, c, ScoreOf(p, c), p.metropolisCoin(s.iteration), p.coolingRate, Step(p, s));
    }
  }

  lemma SettleTakesNoWorse(s: AnnealState, candidate: Solution, newScore: real, coin: bool, coolingRate: real, r: AnnealState)
    requires r == Settle(s, candidate, newScore, coin, coolingRate) && newScore <= s.currentScore
    ensures r.current == candidate && r.currentScore == newScore
    ensures r.temperature == Cool(s.temperature, coolingRate) && r.decays == s.decays + 1
  {
    SettleOutcome(s, candidate, newScore, coin, coolingRate);
  }

  /** A feasible candidate that scores strictly worse than current becomes
      current, with its own score, when the iteration's coin says the
      Metropolis test passes, and current is kept otherwise. */
  lemma StepMetropolis(p: Params, s: AnnealState)
    requires DrawFits(p, s)
    ensures var r, c := Step(p, s), Candidate(p, s);
      Feasible(c, p.vehicles) && s.currentScore < ScoreOf(p, c) ==>
        && (p.metropolisCoin(s.iteration) ==> r.current == c && r.currentScore == ScoreOf(p, c))
        && (!p.metropolisCoin(s.iteration) ==> r.current == s.current && r.currentScore == s.currentScore)
  {
    var c := Candidate(p, s);
    if Feasible(c, p.vehicles) && s.currentScore < ScoreOf(p, c) {
      StepSettles(p, s);
      SettleTakesWorseOnCoin(s, c, ScoreOf(p, c), p.metropolisCoin(s.iteration), p.coolingRate, Step(p, s));
    }
  }

  lemma SettleTakesWorseOnCoin(s: AnnealState, candidate: Solution, newScore: real, coin: bool, coolingRate: real, r: AnnealState)
    requires r == Settle(s, candidate, newScore, coin, coolingRate) && s.currentScore < newScore
    ensures coin ==> r.current == candidate && r.currentScore == newScore
    ensures !coin ==> r.current == s.current && r.currentScore == s.currentScore
  {
    SettleOutcome(s, candidate, newScore, coin, coolingRate);
  }

  /** An infeasible candidate ends the iteration with nothing changed but the
      iteration count: no move, no best update, no decay. */
  lemma StepSkips(p: Params, s: AnnealState)
    requires DrawFits(p, s) && !Feasible(Candidate(p, s), p.vehicles)
    ensures Step(p, s) == s.(iteration := s.iteration + 1)
  {
  }

  /** A feasible candidate goes through the acceptance test, the best update
      and one decay, in that order. */
  lemma StepSettles(p: Params, s: AnnealState)
    requires DrawFits(p, s) && Feasible(Candidate(p, s), p.vehicles)
    ensures Step(p, s) == Settle(s, Candidate(p, s), ScoreOf(p, Candidate(p, s)), p.metropolisCoin(s.iteration), p.coolingRate)
  {
  }

  /** The rest of the run from state s: the loop stops once the iteration
      budget is spent or, at the top of an iteration, the temperature is not positive. */
  function RunFrom(p: Params, s: AnnealState): (r: AnnealState)
    requires WellDrawn(p) && s.iteration <= p.maxIterations && |s.current| == |p.vehicles|
    ensures s.iteration <= r.iteration <= p.maxIterations
    ensures r.iteration == p.maxIterations || r.temperature <= 0.0
    ensures s.iteration == p.maxIterations || s.temperature <= 0.0 ==> r == s
    ensures r.bestScore <= s.bestScore
    ensures |r.current| == |s.current|
    decreases p.maxIterations - s.iteration
  {
    if s.iteration == p.maxIterations || s.temperature <= 0.0 then s
    else RunFrom(p, Step(p, s))
  }

  /** An iteration that starts (budget left, temperature positive) hands the
      rest of the run to the state after it. */
  lemma RunFromStep(p: Params, s: AnnealState)
    requires WellDrawn(p) && s.iteration < p.maxIterations && |s.current| == |p.vehicles|
    requires s.temperature > 0.0
    ensures DrawFits(p, s) && RunFrom(p, s) == RunFrom(p, Step(p, s))
  {
  }

  /** An assignment with its recorded score, as the loop keeps it: one route
      per vehicle, the given orders, the score that belongs to it, and feasible
      unless it is still the dealt assignment. */
  ghost predicate Tracked(p: Params, routes: Solution, score: real, start: Solution, orders: multiset<Order>)
  {
    && |routes| == |p.vehicles|
    && OrdersOf(routes) == orders
    && score == ScoreOf(p, routes)
    && (routes == start || Feasible(routes, p.vehicles))
  }

  /** What holds of the state at the top of every iteration: current and best
      are tracked assignments, best no worse than current, and the temperature
      schedule. */
  ghost predicate Consistent(p: Params, s: AnnealState, start: Solution, orders: multiset<Order>)
  {
    && Tracked(p, s.current, s.currentScore, start, orders)
    && Tracked(p, s.best, s.bestScore, start, orders)
    && s.bestScore <= s.currentScore
    && s.temperature == Cooled(p.initialTemp, p.coolingRate, s.decays)
    && s.decays <= s.iteration
  }

  lemma StepConsistent(p: Params, s: AnnealState, start: Solution, orders: multiset<Order>)
    requires DrawFits(p, s) && Consistent(p, s, start, orders)
    ensures Consistent(p, Step(p, s), start, orders)
  {
    var c := Candidate(p, s);
    if Feasible(c, p.vehicles) {
      SettleConsistent(p, s, c, p.metropolisCoin(s.iteration), start, orders);
    }
  }

  /** A feasible candidate that holds the same orders keeps the invariant
      whatever the acceptance test decides. */
  lemma SettleConsistent(p: Params, s: AnnealState, c: Solution, coin: bool, start: Solution, orders: multiset<Order>)
    requires Consistent(p, s, start, orders)
    requires |c| == |p.vehicles| && OrdersOf(c) == orders && Feasible(c, p.vehicles)
    ensures Consistent(p, Settle(s, c, ScoreOf(p, c), coin, p.coolingRate), start, orders)
  {
    var newScore := ScoreOf(p, c);
    var r := Settle(s, c, newScore, coin, p.coolingRate);
    SettleOutcome(s, c, newScore, coin, p.coolingRate);
    assert r.decays == s.decays + 1 && r.temperature == Cool(s.temperature, p.coolingRate);
    assert Cooled(p.initialTemp, p.coolingRate, r.decays) == Cool(s.temperature, p.coolingRate);
    assert Tracked(p, c, newScore, start, orders);
    TrackedChoice(p, c, newScore, s.current, s.currentScore, r.current, r.currentScore, start, orders);
    TrackedChoice(p, r.current, r.currentScore, s.best, s.bestScore, r.best, r.bestScore, start, orders);
  }

  /** A pair chosen from two tracked pairs is tracked. */
  lemma TrackedChoice(p: Params, a: Solution, aScore: real, b: Solution, bScore: real, x: Solution, xScore: real,
                      start: Solution, orders: multiset<Order>)
    requires Tracked(p, a, aScore, start, orders) && Tracked(p, b, bScore, start, orders)
    requires (x == a && xScore == aScore) || (x == b && xScore == bScore)
    ensures Tracked(p, x, xScore, start, orders)
  {
  }

  lemma {:induction false} RunConsistent(p: Params, s: AnnealState, start: Solution, orders: multiset<Order>)
    requires WellDrawn(p) && s.iteration <= p.maxIterations && Consistent(p, s, start, orders)
    ensures Consistent(p, RunFrom(p, s), start, orders)
    decreases p.maxIterations - s.iteration
  {
    if s.iteration < p.maxIterations && s.temperature > 0.0 {
      StepConsistent(p, s, start, orders);
      RunConsistent(p, Step(p, s), start, orders);
    }
  }

  /** The outcome of a whole run. */
  function Run(p: Params, orders: seq<Order>): AnnealState
    requires WellDrawn(p) && (|p.vehicles| > 0 || |orders| == 0)
  {
    RunFrom(p, Initial(p, orders))
  }

  /** What a run guarantees: the best assignment still holds every order
      exactly once and one route per vehicle; its score is its own and no worse
      than the dealt assignment's; it is feasible unless it is the dealt
      assignment; at most maxIterations iterations ran, and fewer only because
      the temperature fell to zero or below; the temperature is the initial one
      times the cooling rate once per feasible candidate; with no iterations the
      dealt assignment and its score come back. */
  lemma AnnealingGuarantees(p: Params, orders: seq<Order>)
    requires WellDrawn(p) && (|p.vehicles| > 0 || |orders| == 0)
    ensures var dealt, r := Dealt(orders, |p.vehicles|), Run(p, orders);
      && |r.best| == |p.vehicles|
      && OrdersOf(r.best) == multiset(orders)
      && r.bestScore == ScoreOf(p, r.best)
      && r.bestScore <= ScoreOf(p, dealt)
      && r.bestScore <= r.currentScore
      && (r.best == dealt || Feasible(r.best, p.vehicles))
      && r.decays <= r.iteration <= p.maxIterations
      && (r.iteration < p.maxIterations ==> r.temperature <= 0.0)
      && r.temperature == Cooled(p.initialTemp, p.coolingRate, r.decays)
      && (p.maxIterations == 0 || p.initialTemp <= 0.0 ==>
            r == Initial(p, orders) && r.best == dealt && r.bestScore == ScoreOf(p, dealt))
  {
    var init := Initial(p, orders);
    InitialConsistent(p, orders);
    RunConsistent(p, init, init.current, multiset(orders));
  }

  lemma InitialConsistent(p: Params, orders: seq<Order>)
    requires |p.vehicles| > 0 || |orders| == 0
    ensures var init := Initial(p, orders); Consistent(p, init, init.current, multiset(orders))
  {
  }

  /** The cooling schedule never rises: with a non-negative initial
      temperature and a cooling rate in [0, 1], more decays never give a
      higher temperature, and the temperature stays non-negative. */
  lemma {:induction false} CoolingNeverRises(initialTemp: real, coolingRate: real, j: nat, k: nat)
    requires initialTemp >= 0.0 && 0.0 <= coolingRate <= 1.0 && j <= k
    ensures 0.0 <= Cooled(initialTemp, coolingRate, k) <= Cooled(initialTemp, coolingRate, j)
    decreases k
  {
    if k > 0 {
      var previous := Cooled(initialTemp, coolingRate, k - 1);
      CoolingNeverRises(initialTemp, coolingRate, if j < k then j else k - 1, k - 1);
      assert Cooled(initialTemp, coolingRate, k) == Cool(previous, coolingRate);
    }
  }

  /** Over a whole run the temperature ends between zero and where it started. */
  lemma RunCools(p: Params, orders: seq<Order>)
    requires WellDrawn(p) && (|p.vehicles| > 0 || |orders| == 0)
    requires p.initialTemp >= 0.0 && 0.0 <= p.coolingRate <= 1.0
    ensures 0.0 <= Run(p, orders).temperature <= p.initialTemp
  {
    AnnealingGuarantees(p, orders);
  }

  // ------------------------------------------------------------ the loop

  /** The loop body of `simulated_annealing`, as statements on local copies
      of the loop's variables. */
  method Iterate(p: Params, s: AnnealState) returns (r: AnnealState)
    requires DrawFits(p, s)
    ensures r == Step(p, s)
  {
    var current, currentScore, best, bestScore, temperature := s.current, s.currentScore, s.best, s.bestScore, s.temperature;
    var candidate := GenerateNeighbor(current, p.chooseMove(s.iteration, current));
    var valid := IsValid(candidate, p.vehicles);
    if !valid {
      StepSkips(p, s);
      return s.(iteration := s.iteration + 1);
    }
    var newScore, newDistance, newTime :=
      TotalDistance(candidate, p.depot, p.dist, p.weightDistance, p.weightTime);
    StepSettles(p, s);
    if newScore < currentScore || MetropolisAccepts(currentScore - newScore, p.metropolisCoin(s.iteration)) {
      current := candidate;
      currentScore := newScore;
    }
    if currentScore < bestScore {
      best := current;
      bestScore := currentScore;
    }
    temperature := Cool(temperature, p.coolingRate);
    r := AnnealState(current, currentScore, best, bestScore, temperature, s.iteration + 1, s.decays + 1);
  }

  /** `simulated_annealing`: the deal, the first scoring, and the loop. */
  method SimulatedAnnealing(p: Params, orders: seq<Order>) returns (best: Solution, bestScore: real)
    requires WellDrawn(p)
    requires |p.vehicles| > 0 || |orders| == 0
    ensures best == Run(p, orders).best && bestScore == Run(p, orders).bestScore
    ensures |best| == |p.vehicles| && OrdersOf(best) == multiset(orders)
    ensures bestScore == ScoreOf(p, best)
    ensures bestScore <= ScoreOf(p, Dealt(orders, |p.vehicles|))
    ensures best == Dealt(orders, |p.vehicles|) || Feasible(best, p.vehicles)
    ensures p.maxIterations == 0 || p.initialTemp <= 0.0 ==> best == Dealt(orders, |p.vehicles|)
  {
    var routes := InitialRoutes(|p.vehicles|, orders);
    var currentScore, currentDistance, currentTime :=
      TotalDistance(routes, p.depot, p.dist, p.weightDistance, p.weightTime);
    var state := AnnealState(routes, currentScore, routes, currentScore, p.initialTemp, 0, 0);
    ghost var final := Run(p, orders);

    for iteration := 0 to p.maxIterations
      invariant state.iteration == iteration && |state.current| == |p.vehicles|
      invariant RunFrom(p, state) == final
    {
      if state.temperature <= 0.0 {
        break;
      }
      RunFromStep(p, state);
      state := Iterate(p, state);
    }
    best, bestScore := state.best, state.bestScore;
    AnnealingGuarantees(p, orders);
  }
}
