# Simulated annealing for capacitated vehicle routing, modelled in Dafny

This project models the search engine of `annealing.py`. The engine assigns delivery orders to a fleet of vehicles whose weight and volume capacities are limited. An assignment holds one route per vehicle: route `i` is driven by vehicle `i` and lists the orders it visits, in visiting order. The engine has four parts, modelled module by module:

- `Routes`: the entities (`Location`, `Order`, `Vehicle`, `Route`, `Solution`) and the facts the other modules share.
  - `OrdersOf` is the multiset of every order in an assignment.
  - `Load` is the summed weight or volume of a route.
  - `ReverseSegment` reverses a slice of a route.
- `Feasibility`: `is_valid`. Every route must fit, in weight and in volume, the vehicle at the same index.
- `Scoring`: `total_distance`, the accumulator loop that walks depot → orders → depot for every route.
  - The leg distance is an abstract `Metric` parameter.
  - The loop is specified by recursive functions: `TotalDist`, `TotalTime` and `Score`.
- `Moves`: the four neighbourhood moves and the dispatcher.
  - The moves are swap, multiple swap, relocate and 2-opt.
  - Each move is specified by a function (`Swapped`, `SwapsApplied`, `Relocated`, `TwoOpted`, `Neighbor`).
  - A method beside each function makes the same edits in place on a local copy, as the source does after `copy.deepcopy`. Dafny sequences are values, so the caller's assignment can never change.
- `Annealing`: `simulated_annealing`.
  - The round-robin deal is the function `Dealt` plus the loop `InitialRoutes`.
  - The main loop is the method `SimulatedAnnealing`, whose body runs `Iterate` once per iteration.
  - `Iterate` is proved equal to the pure transition `Step`; the loop is proved to end in the state the recursive function `RunFrom` describes.
  - The state invariant `Consistent` is proved to hold at the top of every iteration.

All randomness becomes explicit input:
- The shuffled order list is a parameter.
- Each move's draws are a datatype (`SwapDraw`, `RelocateDraw`, `TwoOptDraw`). Predicates constrain each draw to the range the source draws it from (`SwapFits`, `RelocateFits`, `TwoOptFits`, `MoveFits`).
- The controller receives two oracles in `Params`:
  - `chooseMove(iteration, current)` is the move the dispatcher picks, with its draws.
  - `metropolisCoin(iteration)` is the outcome of `random.uniform(0, 1) < exp(difference / temperature)` for a candidate that is not strictly better.
  - `WellDrawn` says every draw the loop can request lies in range.

`uniform(0, 1)` lies in [0, 1), and `exp(0) = 1`. A candidate with a score equal to the current one therefore always passes the test. `MetropolisAccepts` states this, so the coin decides only for strictly worse candidates.

Three details of the code a reader might not expect:
- An empty route still adds the leg depot → depot to the distance (`annealing.py:43-45`). The metric is not assumed to give 0 for a point to itself, so that leg need not be zero (see `EmptyRoutesCost`).
- The return leg is not timed (`annealing.py:41`, `43-45`). One order at distance d costs time d / 30 (see `SingleOrderCost` and `DistanceIsTimedPlusReturn`).
- An infeasible candidate skips the decay through `continue` (`annealing.py:164-165`), before `temperature *= cooling_rate` (see `StepSkips`). The state therefore keeps a `decays` counter apart from the iteration counter, and the temperature is always `Cooled(initialTemp, coolingRate, decays)`.

## Model

| member | source | states |
|---|---|---|
| Routes.ReverseSegment | annealing.py:114 | Reversing the slice i..j (both ends included) keeps the length and the multiset of orders. Position p holds the old order at i + j - p inside the slice and the old order at p outside it. |
| Routes.Load | annealing.py:121-122 | The generator sum of one measure over a route. It is never negative when no order's amount is negative. `LoadConcat` and `LoadDependsOnlyOnMembers` state how it adds up. |
| Routes.LoadConcat | annealing.py:121-122 | The sum over two consecutive parts of a route is the sum of the two sums, so adding the orders one by one, as `sum` does, gives the same total. |
| Routes.LoadDependsOnlyOnMembers | annealing.py:121-122 | Two routes holding the same orders, in any order, have the same summed weight and the same summed volume. |
| Feasibility.IsValid | annealing.py:119-128 | The loop answers true iff every route's summed weight and summed volume are at most the capacities of the vehicle at the same index. Equality fits. It returns false at the first route that exceeds a capacity. |
| Feasibility.SameMembersSameFeasibility | annealing.py:119-128 | Two assignments whose routes hold the same orders, index by index, are feasible together or infeasible together. |
| Scoring.TotalDistance | annealing.py:25-49 | The nested accumulator loop returns the distance total `TotalDist`, the time total `TotalTime` and the weighted `Score` of the assignment. |
| Scoring.DistanceIsTimedPlusReturn | annealing.py:34-45 | The total distance equals 30 times the total time plus the sum of the return legs: every leg is timed except the return to the depot. |
| Scoring.EmptyRoutesCost | annealing.py:34-45 | An assignment of n empty routes has distance n · dist(depot, depot) and time 0. |
| Scoring.SingleOrderCost | annealing.py:34-45 | One route with one order at location x has distance dist(depot, x) + dist(x, depot) and time dist(depot, x) / 30. |
| Scoring.ScoreNonNegative | annealing.py:47-49 | With non-negative legs and weights, distance, time and score are all non-negative. |
| Scoring.TotalsUpdate | annealing.py:34-45 | Replacing one route changes the distance and time totals by exactly that route's old and new contributions. |
| Moves.Swapped | annealing.py:66-77 | A swap keeps the number of routes, every route's length and the multiset of all orders. Only the two drawn routes can change. |
| Moves.SwapExchanges | annealing.py:69-76 | With both drawn routes non-empty, exactly `routes[r1][i]` and `routes[r2][j]` change places and every other position keeps its order. With either route empty, the result is the input. |
| Moves.SwapMove | annealing.py:66-77 | The in-place edits on the copy produce `Swapped` of the input. |
| Moves.SwapsApplied | annealing.py:81-93 | Swaps applied in sequence keep the shape and the multiset of orders. A route named by none of the swaps is unchanged. |
| Moves.MultipleSwapMove | annealing.py:81-93 | Two to four swaps made in place, one after another, produce `SwapsApplied` of the input. |
| Moves.Relocated | annealing.py:97-105 | A relocation keeps the number of routes and the multiset of orders. Every route other than the source and destination is unchanged. |
| Moves.RelocateMovesOne | annealing.py:100-104 | With a non-empty source, the source loses one order and the destination gains it at the drawn position. The source length drops by one, the destination length rises by one, and the multisets change by exactly that order. With an empty source, the result is the input. |
| Moves.RelocateKeepsSequence | annealing.py:102-104 | The source closes the gap at i and the destination opens one at the insertion point. Both keep the relative order of their other orders. |
| Moves.RelocateMove | annealing.py:97-105 | Popping and inserting on the copy produces `Relocated` of the input. |
| Moves.TwoOpted | annealing.py:109-115 | 2-opt keeps the shape and the multiset of orders. Only the chosen route can change. |
| Moves.TwoOptReversesSegment | annealing.py:112-114 | On a route of more than two orders, positions i..j are reversed and every other position is kept. A route of at most two orders is left alone. Every route keeps its own orders. |
| Moves.TwoOptKeepsFeasibility | annealing.py:109-128 | 2-opt keeps every route's weight and volume, and therefore the outcome of the capacity check. |
| Moves.TwoOptMove | annealing.py:109-115 | Reversing the slice on the copy produces `TwoOpted` of the input. |
| Moves.Neighbor | annealing.py:53-62 | Whichever move is picked, the candidate has as many routes as the input and the same multiset of orders: none created, lost or duplicated. |
| Moves.GenerateNeighbor | annealing.py:53-62 | Dispatching to the picked move's method produces `Neighbor` of the input. |
| Annealing.Dealt | annealing.py:143-146 | The round-robin deal makes one route per vehicle and places every order exactly once. |
| Annealing.DealtLengths | annealing.py:145-146 | With m orders and n routes, route q receives m div n orders, plus one when q < m mod n. |
| Annealing.DealtPlacement | annealing.py:145-146 | The order at shuffled position k sits in route k mod n, at position k div n. |
| Annealing.DealtBalanced | annealing.py:143-146 | Route lengths differ by at most one. |
| Annealing.InitialRoutes | annealing.py:143-146 | The dealing loop produces `Dealt` of the shuffled orders. |
| Annealing.Step | annealing.py:162-192 | One iteration advances the iteration counter by one and keeps the number of routes. What it does to the rest of the state is stated by `StepSkips`, `StepSettles` and `SettleOutcome`. |
| Annealing.Settle | annealing.py:171-192 | The acceptance test, the best update and the decay for a feasible, scored candidate. The new current, with its score, is either the candidate with its score or the old current with its score. The new best, with its score, is either the new current or the old best. The best score never increases. `SettleOutcome` states which choice is made, for better, equal and worse candidates alike. |
| Annealing.SettleOutcome | annealing.py:171-192 | A candidate scoring no worse than current is always taken: strictly better passes the first test, and an equal score passes the Metropolis test, whose threshold is then exp(0) = 1. A strictly worse candidate is taken when the coin says the Metropolis test passes, and the old current with its score is kept when it says the test fails. Best is updated when the new current is strictly below it, and only then, to the new current. The temperature is multiplied by the cooling rate once, and both counters rise by one. |
| Annealing.StepKeepsOrders | annealing.py:162-180 | After an iteration, current holds the same orders as before. |
| Annealing.StepBestOnlyImproves | annealing.py:182-185 | Over an iteration the best score never increases. Best changes only on strict improvement, and then to the new current. |
| Annealing.StepAcceptsNoWorse | annealing.py:171-180 | A feasible candidate scoring no worse than current becomes current with its own score, and the temperature decays once. |
| Annealing.StepMetropolis | annealing.py:171-180 | A feasible candidate scoring strictly worse than current becomes current with its own score when the iteration's coin says the Metropolis test passes. When the coin says it fails, the old current and its score are kept. |
| Annealing.StepSkips | annealing.py:164-165 | An infeasible candidate changes nothing but the iteration counter: no move, no best update, no decay. |
| Annealing.StepSettles | annealing.py:167-192 | A feasible candidate is scored and goes through the acceptance test, the best update and one decay. |
| Annealing.RunFrom | annealing.py:158-160 | The run ends after at most maxIterations iterations, and ends early only when the temperature at the top of an iteration is not positive. A state whose budget is spent, or whose temperature is not positive, is returned unchanged: the loop breaks there. The best score never increases over the run. |
| Annealing.RunFromStep | annealing.py:158-162 | An iteration that starts (budget left, temperature positive) has a draw in range and hands the rest of the run to the state after it. |
| Annealing.StepConsistent | annealing.py:162-192 | One iteration preserves `Consistent`. Current and best each keep one route per vehicle, every order exactly once, the score that belongs to them, and feasibility unless they are still the dealt assignment. The best score stays at most the current score. The temperature is the initial one cooled once per decay, and decays never exceed iterations. |
| Annealing.SettleConsistent | annealing.py:167-192 | A feasible candidate holding the same orders preserves `Consistent`, whatever the acceptance test decides. |
| Annealing.InitialConsistent | annealing.py:143-156 | The dealt assignment, scored and made both current and best at the initial temperature, satisfies `Consistent`. |
| Annealing.RunConsistent | annealing.py:158-192 | `Consistent` holds at the end of the run. |
| Annealing.AnnealingGuarantees | annealing.py:132-194 | The returned best has one route per vehicle and every order exactly once, with its own score, at most the dealt assignment's score and at most the final current score. It is feasible unless it is the dealt assignment. At most maxIterations iterations run, and fewer only once the temperature is not positive. With maxIterations = 0, or an initial temperature that is not positive, the run is the initial state: the dealt assignment and its score are returned. |
| Annealing.Cool | annealing.py:192 | One decay multiplies the temperature by the cooling rate. With a rate in [0, 1], a non-negative temperature neither rises nor turns negative. |
| Annealing.Cooled | annealing.py:156-192 | The temperature after k decays: the initial temperature cooled k times. With a non-negative initial temperature and a rate in [0, 1], it stays between 0 and the initial temperature. |
| Annealing.CoolingNeverRises | annealing.py:192 | With a non-negative initial temperature and a cooling rate in [0, 1], the temperature after k decays is non-negative and at most the temperature after j ≤ k decays. |
| Annealing.RunCools | annealing.py:156-192 | Under the same bounds, the final temperature lies between 0 and the initial temperature. |
| Annealing.Iterate | annealing.py:158-192 | The loop body draws a neighbour, checks it, scores it, accepts it or not, updates best and cools, producing exactly `Step` of the state. |
| Annealing.SimulatedAnnealing | annealing.py:132-194 | The search returns the best assignment and score of `Run`. The best holds every order exactly once in one route per vehicle, its score is its own, it is no worse than the dealt assignment, and it is feasible unless it is the dealt one. With maxIterations = 0, or an initial temperature that is not positive, it is the dealt assignment. |

## Left out

- The body of `haversine_distance` (`annealing.py:11-21`) is floating-point trigonometry; the leg distance is the abstract parameter `dist`. Nothing is assumed about it except, where a lemma says so, non-negativity; no symmetry, no zero self-distance. Line 15 computes `dlng` from `lat2 - lng1` rather than `lng2 - lng1`, so the real distance from a point to itself is generally not zero; the model is correct for that metric too, since it assumes nothing about `dist`.
- The numeric Metropolis test `random.uniform(0, 1) < math.exp(...)` (`annealing.py:173-175`) is the boolean oracle `metropolisCoin`, except that an equal score is always accepted, as the arithmetic forces.
- The `random` module (`annealing.py:7`, `54`, `68-72`, `83-88`, `99-103`, `111-113`) is replaced by explicit draws. `WellDrawn` and the `...Fits` predicates demand that every draw lies in the source's range.
- Runs in which the dispatcher picks swap, relocate or multiple swap with fewer than two routes, or any move with no routes, are not modelled. There the source raises: `random.sample(range(n), 2)` raises `ValueError` when n < 2, and `random.choice` on no routes raises `IndexError`. `WellDrawn` admits only moves whose draws exist. Runs with one vehicle where only 2-opt is drawn are modelled, and so are runs with no vehicles, no orders and no iterations.
- A negative `max_iterations` is not modelled: `maxIterations` is a `nat`. The source accepts a negative value, and `range` then runs no iterations, as `maxIterations = 0` does here.
- With no vehicles and at least one order, the deal divides by zero (`annealing.py:146`); `Dealt`, `InitialRoutes` and `SimulatedAnnealing` require at least one vehicle or no orders.
- `IsValid` requires no more routes than vehicles, as its only caller guarantees. Otherwise the source raises `IndexError` once it reaches a route with no vehicle, unless an earlier route already failed.
- `random.shuffle(orders)` (`annealing.py:144`) shuffles the caller's list in place. The model takes the already-shuffled sequence as input and does not model the caller seeing it reordered.
- Python floats are exact reals here: no rounding, no overflow to infinity, and no underflow of the temperature to zero. Under repeated cooling the source's temperature can underflow to 0.0 and stop the loop; in the model it only does so when the cooling rate makes it exactly non-positive.
- `current_distance`, `current_time` and `accepted` (`annealing.py:149-151`, `171-180`) only feed the commented-out logging. `Iterate` computes the first two through `TotalDistance` and discards them; the state does not keep them.
- The JSON data, the parameter constants, the call and the printing (`annealing.py:197-1135`) are input and output.
- The Streamlit page `ui/HomePage.py` is not part of this model; it is not connected to the search.
