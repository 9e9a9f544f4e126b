# Enemy relocation: constrained placement search and behaviour table

This project models the relocation logic of a Unity enemy. The enemy patrols, chases a target that comes
within a watch radius, and now and then relocates to a random spot of a generated cave.
The relocation component draws random tiles of the tilemap until it finds an allowed one. From that
start it runs a depth-first search for the longest simple 4-connected path of allowed tiles, of at most
`numOfMoves` cells. It accepts the start when that path reaches `numOfMoves` cells, and otherwise starts
over.

Files and modules:

- `grid.dfy`, module `Grid`: tile positions `(x, y)` and the allowed-tile oracle. Also the four
  neighbours tried from a tile, in the order up, down, left, right.
- `path_search.dfy`, module `PathSearch`: the depth-first search `GeneratePath`/`DFS`. It is written as the
  mutually recursive `Dfs`/`Explore`, which thread the `ref bestPath` through the calls. Two reference
  definitions sit beside it:
  - `Visits`, the preorder list of partial paths the search visits;
  - `Longest`, the scan that keeps a path only when it is strictly longer.
  
  The proofs show four things. The search equals `Longest(Visits)`. The visited paths are exactly the
  admissible ones. The result is therefore a longest admissible path. Among equally long ones, it is
  the first one visited.
- The placed start is the first allowed draw whose search passes the acceptance test: the sampling
  loop stops at the first allowed draw, and a rejected start goes on to the draws after it.
- `placement.dfy`, module `Placement`: `FindStartPosition` and the accept-or-retry loop of
  `GenerateLocation`, shared by both generator components.
- `location_generator.dfy`, module `LocationGenerator`: the one-shot component. Here `IsDone()` returns
  the flag and clears it, and every frame re-places while `shouldUpdate` holds.
- `location_generator_with_event_trigger.dfy`, module `LocationGeneratorWithEventTrigger`: the
  event-driven variant. It places when the cave generator reports completion, and it switches
  `shouldUpdate` off after a placement.
- `enemy_controller_state_machine.dfy`, module `EnemyControllerStateMachine`: the behaviour table that
  `Awake` registers. It holds three states and four guarded transitions. Each guard is a predicate over
  what it reads in a frame. The module also covers the odds of the relocation draw.

Randomness is supplied as data. `Random.Range` draws for `FindStartPosition` arrive as a finite sequence
of cells. The program loops forever until a draw is accepted. The model stops when the sequence runs
out and returns `OutOfDraws` (or `None`). So every result is partial correctness: if the program
returns, it returns this.

The tooltip of `probabilityToChangeLocation` promises a chance of 1/n per frame. The guard as written
tests `Random.Range(1, n) == 5`. Unity's integer `Random.Range` excludes its upper end, so that guard
holds with odds 1/(n-1) for n >= 2, and never when 2 <= n <= 5. For n <= 1 the draw returns
a value of at most 1, never 5; that case is outside `RelocationDrawOdds`. The model states the guard as written, and
`RelocationDrawOdds` proves these odds.

One might expect the one-shot component's `IsDone` to report each placement exactly once. The code
guarantees at most once: `shouldUpdate` is never cleared, so every frame places again and raises the
same flag, and two placements between polls are reported once. `ReportsBoundedByPlacements` states what the code guarantees: true polls never
outnumber placements.

## Model

| member | source | states |
|---|---|---|
| `Grid.Neighbors` | Assets/Scripts/5-WeeklyTask/LocationGenerator.cs:103-119 | at most four neighbours, and all four when every adjacent tile is allowed; the full characterisation is `Grid.NeighborsSpec` |
| `Grid.NeighborsSpec` | Assets/Scripts/5-WeeklyTask/LocationGenerator.cs:103-119 | the neighbours returned are exactly the allowed tiles at Manhattan distance one |
| `Grid.NeighborsInTrialOrder` | Assets/Scripts/5-WeeklyTask/LocationGeneratorWithEventTrigger.cs:114-129 | neighbours come in the fixed order up, down, left, right, so none appears twice |
| `PathSearch.Dfs` | Assets/Scripts/5-WeeklyTask/LocationGenerator.cs:81-101 | the best path never gets shorter; if it changes, it extends the current path and stays within the depth limit |
| `PathSearch.Explore` | Assets/Scripts/5-WeeklyTask/LocationGenerator.cs:91-100 | exploring the neighbour list keeps the same two facts: never shorter, and any new best extends the current path within the limit |
| `PathSearch.GeneratePath` | Assets/Scripts/5-WeeklyTask/LocationGenerator.cs:74-79 | empty for a budget below one; otherwise a simple, connected path of allowed tiles from the start within the budget, at least as long as every such path |
| `PathSearch.ExtendPath` | Assets/Scripts/5-WeeklyTask/LocationGenerator.cs:95-98 | appending an allowed, adjacent, unvisited neighbour keeps a path simple, connected and allowed |
| `PathSearch.LongestAppend` | Assets/Scripts/5-WeeklyTask/LocationGeneratorWithEventTrigger.cs:98-101 | scanning two runs of visited paths is scanning the second from where the first left the best |
| `PathSearch.LongestIsFirstMaximal` | Assets/Scripts/5-WeeklyTask/LocationGenerator.cs:86-89 | the strictly-longer replacement keeps the first path of maximal length |
| `PathSearch.DfsScansVisits` | Assets/Scripts/5-WeeklyTask/LocationGeneratorWithEventTrigger.cs:94-112 | the search equals scanning its preorder list of visited paths for the longest |
| `PathSearch.ExploreScansVisits` | Assets/Scripts/5-WeeklyTask/LocationGeneratorWithEventTrigger.cs:104-111 | the neighbour loop equals scanning the concatenated visits of its children |
| `PathSearch.VisitsSound` | Assets/Scripts/5-WeeklyTask/LocationGeneratorWithEventTrigger.cs:96-109 | every visited path extends the current one within the depth limit, and is simple, connected and allowed whenever the current one is |
| `PathSearch.VisitsComplete` | Assets/Scripts/5-WeeklyTask/LocationGenerator.cs:92-99 | every admissible extension of the current path within the limit is visited |
| `PathSearch.VisitsAreAdmissible` | Assets/Scripts/5-WeeklyTask/LocationGenerator.cs:76-77 | from a one-cell start, the visited paths are exactly the admissible paths |
| `PathSearch.GeneratePathIsFirstFound` | Assets/Scripts/5-WeeklyTask/LocationGeneratorWithEventTrigger.cs:87-92 | the result is the first path of maximal length in visiting order |
| `PathSearch.AcceptedIffFullPathExists` | Assets/Scripts/5-WeeklyTask/LocationGenerator.cs:43-45 | the acceptance test holds iff an admissible path of exactly `numOfMoves` cells exists, and then the path has exactly that length |
| `Placement.FindStartPosition` | Assets/Scripts/5-WeeklyTask/LocationGenerator.cs:60-72 | returns the first allowed draw, which lies within the cell bounds; fails only when no draw is allowed |
| `Placement.Accepts` | Assets/Scripts/5-WeeklyTask/LocationGenerator.cs:45 | the acceptance test `path.Count >= numOfMoves` on the path searched from a start; its meaning is `Placement.AcceptsIffFullPathExists` |
| `Placement.AcceptsIffFullPathExists` | Assets/Scripts/5-WeeklyTask/LocationGeneratorWithEventTrigger.cs:58-60 | a start passes iff `numOfMoves` <= 0 or a full-length admissible path exists from it |
| `Placement.Place` | Assets/Scripts/5-WeeklyTask/LocationGenerator.cs:40-58 | a placement stands on an allowed drawn tile, and its path reaches `numOfMoves` cells and is admissible |
| `Placement.PlaceTakesFirstAccepted` | Assets/Scripts/5-WeeklyTask/LocationGenerator.cs:40-72 | the placed start is the first allowed draw that passes the acceptance test, every earlier allowed draw having failed it |
| `Placement.FirstPassingAtFirstAllowed` | Assets/Scripts/5-WeeklyTask/LocationGenerator.cs:64-70 | when the first allowed draw passes, it is the first draw to pass |
| `Placement.FirstPassingAfterFailure` | Assets/Scripts/5-WeeklyTask/LocationGenerator.cs:53-57 | when the first allowed draw fails, the first to pass among the later draws is the first to pass overall |
| `Placement.FirstPassingIsUnique` | Assets/Scripts/5-WeeklyTask/LocationGenerator.cs:64-69 | at most one draw is the first to pass, so that property determines the start |
| `Placement.PlaceRetries` | Assets/Scripts/5-WeeklyTask/LocationGeneratorWithEventTrigger.cs:67-71 | a rejected start is dropped and the search restarts on the remaining draws |
| `Placement.AllFailAfterFailure` | Assets/Scripts/5-WeeklyTask/LocationGeneratorWithEventTrigger.cs:74-85 | skipping a rejected draw and the non-allowed draws before it does not change whether all draws fail |
| `Placement.OutOfDrawsIffAllRejected` | Assets/Scripts/5-WeeklyTask/LocationGeneratorWithEventTrigger.cs:55-72 | the loop runs out of draws exactly when no drawn tile is allowed and accepted |
| `Placement.SmallBudgetAlwaysPlaces` | Assets/Scripts/5-WeeklyTask/LocationGeneratorWithEventTrigger.cs:57-60 | with `numOfMoves` at most one, placement succeeds iff some draw is allowed |
| `LocationGenerator.Init` | Assets/Scripts/5-WeeklyTask/LocationGenerator.cs:11-13 | a fresh component is not done and updates every frame |
| `LocationGenerator.IsDone` | Assets/Scripts/5-WeeklyTask/LocationGenerator.cs:30-38 | returns the flag, leaves it cleared, and touches nothing else |
| `LocationGenerator.GenerateLocation` | Assets/Scripts/5-WeeklyTask/LocationGenerator.cs:40-58 | fails iff every draw is rejected; otherwise raises the flag, keeps `shouldUpdate`, and moves to the first allowed draw that passes the acceptance test, from which a full-length path exists |
| `LocationGenerator.Update` | Assets/Scripts/5-WeeklyTask/LocationGenerator.cs:15-23 | with `shouldUpdate` on, fails iff every draw is rejected, and a placing frame raises the flag, keeps updating on and moves to the first accepted draw; with it off, nothing changes |
| `LocationGenerator.Start` | Assets/Scripts/5-WeeklyTask/LocationGenerator.cs:25-28 | places once on start, whatever `shouldUpdate` says, on the first accepted draw |
| `LocationGenerator.ReportsBoundedByPlacements` | Assets/Scripts/5-WeeklyTask/LocationGenerator.cs:32-36 | over any run, the true polls plus a still-raised flag never exceed the placements plus the initial flag |
| `LocationGenerator.PollAfterReportIsFalse` | Assets/Scripts/5-WeeklyTask/LocationGenerator.cs:34-37 | a second poll right after a true one returns false |
| `LocationGeneratorWithEventTrigger.Init` | Assets/Scripts/5-WeeklyTask/LocationGeneratorWithEventTrigger.cs:12-13 | a fresh component is not done and keeps updating |
| `LocationGeneratorWithEventTrigger.IsDone` | Assets/Scripts/5-WeeklyTask/LocationGeneratorWithEventTrigger.cs:50-53 | a plain read; on a latched component it is true exactly when the per-frame updates have stopped |
| `LocationGeneratorWithEventTrigger.GenerateLocation` | Assets/Scripts/5-WeeklyTask/LocationGeneratorWithEventTrigger.cs:60-66 | fails iff every draw is rejected; otherwise sets the flag, switches updating off, and moves to the first allowed draw that passes the acceptance test, from which a full-length path exists |
| `LocationGeneratorWithEventTrigger.Update` | Assets/Scripts/5-WeeklyTask/LocationGeneratorWithEventTrigger.cs:40-48 | places iff `shouldUpdate`, and a frame that places switches updating off; otherwise leaves the component unchanged |
| `LocationGeneratorWithEventTrigger.HandleGenerationComplete` | Assets/Scripts/5-WeeklyTask/LocationGeneratorWithEventTrigger.cs:34-38 | places on cave completion even when updating is off, and then the component is done |
| `LocationGeneratorWithEventTrigger.DoneIsMonotone` | Assets/Scripts/5-WeeklyTask/LocationGeneratorWithEventTrigger.cs:50-53 | once `IsDone()` is true it stays true after any sequence of frames and completions |
| `LocationGeneratorWithEventTrigger.RunKeepsLatch` | Assets/Scripts/5-WeeklyTask/LocationGeneratorWithEventTrigger.cs:64-65 | the component keeps updating exactly while it is not done, over any run |
| `LocationGeneratorWithEventTrigger.FramesAfterPlacementAreInert` | Assets/Scripts/5-WeeklyTask/LocationGeneratorWithEventTrigger.cs:43-47 | with updating off, any number of frames leaves the component unchanged |
| `EnemyControllerStateMachine.Holds` | Assets/Scripts/3-enemies/EnemyControllerStateMachine.cs:35-38 | the four guard lambdas as predicates over one frame's distance, radius, draw and `IsDone()` value |
| `EnemyControllerStateMachine.Awake` | Assets/Scripts/3-enemies/EnemyControllerStateMachine.cs:31-34 | the first registered behaviour, Patrol, is the initial one |
| `EnemyControllerStateMachine.AddStateKeepsInitial` | Assets/Scripts/3-enemies/EnemyControllerStateMachine.cs:32 | the first state registered stays the initial state, and registering a state leaves the edges alone |
| `EnemyControllerStateMachine.OutgoingAppend` | Assets/Scripts/3-enemies/EnemyControllerStateMachine.cs:35-38 | the edges leaving a state, taken from two runs of registrations, are those of the first run followed by those of the second |
| `EnemyControllerStateMachine.AddTransitionOrdersOutgoing` | Assets/Scripts/3-enemies/EnemyControllerStateMachine.cs:37 | registering an edge appends it to its source's edges and leaves every other state's edges unchanged |
| `EnemyControllerStateMachine.OutgoingSelects` | Assets/Scripts/3-enemies/EnemyControllerStateMachine.cs:35-36 | a state's edges are exactly the registered edges that leave it |
| `EnemyControllerStateMachine.AwakeIsClosed` | Assets/Scripts/3-enemies/EnemyControllerStateMachine.cs:31-38 | every edge joins registered states, and Relocate is entered only from Patrol |
| `EnemyControllerStateMachine.AwakeOutgoing` | Assets/Scripts/3-enemies/EnemyControllerStateMachine.cs:35-38 | Patrol tries chase before relocation; Chase and Relocate each have one edge back to Patrol |
| `EnemyControllerStateMachine.ChaseGuardsComplementary` | Assets/Scripts/3-enemies/EnemyControllerStateMachine.cs:35-36 | for every distance exactly one of the chase guards holds |
| `EnemyControllerStateMachine.OutcomesAreTheRange` | Assets/Scripts/3-enemies/EnemyControllerStateMachine.cs:37 | `Random.Range(lo, hi)` has `hi - lo` outcomes, each value of `[lo, hi)` exactly once |
| `EnemyControllerStateMachine.RelocationDrawOdds` | Assets/Scripts/3-enemies/EnemyControllerStateMachine.cs:13-14 | the relocation draw has n - 1 outcomes, and 5 is among them once iff n > 5 |

## Left out

- Cave generation, the tilemap's rendering and the completion event's source: `TilemapCaveGenerator` and `TilemapCaveGeneratorWithEvent` are not part of this model. The tilemap is a fixed oracle of allowed tiles plus its cell bounds.
- The state-machine engine (`StateMachine`, its tick, and entering or leaving a state) is not part of this model. `Awake` is modelled as the table it registers. Guards are predicates over what they observe in one frame; `Patroller` and `Chaser` are not modelled.
- The side effect of polling `IsDone()` inside the Relocate→Patrol guard is modelled in `LocationGenerator.IsDone` and `Run`. The guard predicate itself only reads the value the poll returned.
- Randomness: `Random.Range` results are supplied as data. The unbounded draw loop and the unbounded retry recursion stop when the data runs out, so only partial correctness is stated. The recursion's possible stack overflow is not modelled.
- Subscription and unsubscription to the completion event (`Start`/`OnDestroy` of the event-driven component) are not modelled. A completion is simply an event of the run.
- `HandleGenerationComplete` re-reads the tilemap from the cave generator. The model assumes it is the tilemap the component was configured with.
- World positions: `GetCellCenterWorld` is left out, and the object's position is the chosen cell. The z coordinate is always 0 and is dropped.
- Distances are reals. `Vector3.Distance` and float rounding and NaN are not modelled.
- `Debug.Log` output, gizmos and serialized-field defaults (`radiusToWatch = 5`, `probabilityToChangeLocation = 10000`, `numOfMoves = 5`) are left out. The defaults are parameters instead.
- Cell arithmetic (`position + direction`) is on unbounded integers. The 32-bit wrap-around at `int.MaxValue` is not modelled; no real tilemap reaches it.
- `Random.Range` with reversed bounds (lo > hi), which Unity swaps, is not modelled. `Placement.InRange` covers lo < hi and lo == hi. `EnemyControllerStateMachine.Outcomes` covers only lo < hi.
- Tie-breaking among equally long paths is stated as "first in the search's visiting order" (`PathSearch.GeneratePathIsFirstFound`). An order-independent statement, such as the least path in lexicographic order of its up/down/left/right step ranks, is not proved.
- `shouldUpdate` is a public field that other code could write. The model changes it only through the component's own methods.
- `LocationGenerator.ReportsBoundedByPlacements`: states "at most one true poll per placement" rather than "exactly once". In the code, placements repeat every frame while `shouldUpdate` holds, and two placements between polls are reported once.
