# Lattice traffic and droplet automaton, in Dafny

This project models the simulation core of two lab programs and proves
properties of it.

**The lattice traffic engine** (`lab_4/lab4.py`). Cars drive on a single-lane
square ring of half-extent L that folds through a 2x2 intersection box.
- Each tick, `step` first may spawn one car at the edge of the ring
  (`maybe_spawn_one`, `pick_spawn_point`).
- It then counts the cars in the measured segment (N).
- It then moves every car once, in list order. A car turns left once per
  pass through the box. It wraps at the edge of the ring. It advances only
  into a free cell. It counts as moved (M) when it leaves a segment cell.
- `run_with_history` records the cells after every tick of a first run. It
  then runs again from no cars: a warm-up, then one (density, flow) sample
  per measured tick.

**The droplet automaton** (`lab_3/droplet_sim.py`). `update` is a synchronous
rule on a square 0/1 grid with a toroidal 8-neighbourhood. Each cell counts
its neighbours of the other colour. It then flips or keeps its colour by
looking the count up in a nine-entry table.

Files:
- `traffic_rules.dfy` (module `TrafficRules`) holds the rules as pure
  functions: wrap, turn, spawn, one car's move, the whole tick, a whole run.
- `traffic_proofs.dfy` (module `TrafficProofs`) holds lemmas about them.
- `traffic_engine.dfy` (module `TrafficEngine`) is the engine as the program
  runs it.
  - `Car` objects are updated in place.
  - A `Traffic` object owns the car list.
  - Each method is proved to compute the pure rules. So every property of the
    rules holds of the running engine: no two cars share a cell, and every
    sample has 0 <= flow <= rho <= 1.
- `droplet.dfy` (module `Droplet`) holds the automaton's specification
  functions, the lemmas about them, and the `update` loops over `array2`.

Notes on the program's behaviour, as the code has it:
- The measured segment is x = 0, 1 <= y <= L (`in_segment`). That lane lies
  north of the box and its cars drive away from it. It is not a lane
  approaching the box from the south.
- `in_segment` reads the module-level `L = 25`, not the `L` passed to `step`.
  The model uses the constant `HalfExtent` there.
- The measurement run does not reseed the random generator. It continues the
  stream the history run left. `RunWithHistory` therefore takes one sequence
  of draws: the first 300 feed the history run, the rest the measurement run.
- A lone car spawned at (0, -25) heading up does not wrap after 50 ticks. It
  reaches (0, 0), where it turns left (`lab_4/lab4.py:68`).

## Model

| member | source | states |
|---|---|---|
| TrafficRules.InSegment | lab_4/lab4.py:54-55 | `in_segment` itself: x == 0 and 1 <= y <= 25 with the module-level L; `SegmentCountBound` proves at most 25 cars fit in it |
| TrafficRules.Forward | lab_4/lab4.py:23-27 | `next_forward` itself; `ForwardMovesOne` states which coordinate moves and in which sense |
| TrafficRules.Wrap | lab_4/lab4.py:75-78 | the four wrap tests as one function; `WrapReenters` states the re-entry at the opposite extreme |
| TrafficRules.Target | lab_4/lab4.py:73-78 | the wrapped next cell; `TargetOnLattice` keeps it on the ring, on the car's lane and off the car's own cell |
| TrafficRules.AtTrigger | lab_4/lab4.py:68-71 | the four (cell, heading) pairs at which a car turns; `TurnRule` uses it through `Fires` |
| TrafficRules.LeftOf | lab_4/lab4.py:68-71 | every turn is a quarter turn: the new direction lies on the other axis; `LeftTurns` shows all turns go the same way round |
| TrafficRules.Turn | lab_4/lab4.py:67-71 | the nested turn test; `TurnRule` states that it fires exactly at a trigger when not turned, rotates left, sets `turned` and never moves the car |
| TrafficRules.Rearm | lab_4/lab4.py:87-88 | the re-arm test; `RearmRule` states that only `turned` changes, and only outside the box |
| TrafficRules.ProcessCar | lab_4/lab4.py:66-88 | one iteration of the car loop; `ProcessCarRule` states its cell, set, direction, `turned` and moved flag |
| TrafficRules.Occupied | lab_4/lab4.py:59 | `{(c.x, c.y) for c in cars}`; `Positions` and `SpawnKeepsExclusive` relate it to the cars |
| TrafficRules.EntryPoint | lab_4/lab4.py:35-40 | each side maps to a boundary cell of the ring, with a direction whose next cell is still on the ring, and the new car has not turned |
| TrafficRules.FirstFree | lab_4/lab4.py:46-51 | the try found has a free entry cell and every earlier try was blocked; no try is found exactly when all of them are blocked |
| TrafficRules.Spawn | lab_4/lab4.py:43-51 | nothing changes at or above target or when the coin fails; otherwise the car appended is the entry of the first try whose cell is free (every earlier try was blocked) and that cell becomes occupied, and nothing changes exactly when every drawn side is blocked |
| TrafficRules.Positions | lab_4/lab4.py:91 | one cell per car, and the cells listed are exactly the occupancy set of line 59 |
| TrafficRules.CountSegment | lab_4/lab4.py:62-63 | N counts at most as many cars as there are |
| TrafficRules.CountTrue | lab_4/lab4.py:90 | M counts at most as many flags as there are |
| TrafficRules.ProcessPrefix | lab_4/lab4.py:66-88 | the loop yields one car value and one moved flag per processed car |
| TrafficRules.StepSpec | lab_4/lab4.py:58-91 | a tick keeps the population, or grows it by exactly one car, and only when it was below target and the coin succeeded |
| TrafficRules.Run | lab_4/lab4.py:95-100 | after n ticks from no cars there are at most n cars |
| TrafficRules.TickOf | lab_4/lab4.py:98-99 | tick t leaves at most t + 1 cars |
| TrafficRules.History | lab_4/lab4.py:96-100 | the history holds one record per tick |
| TrafficRules.Density | lab_4/lab4.py:109 | rho is never negative and is at most 1 while N <= L |
| TrafficRules.Flow | lab_4/lab4.py:110-111 | whenever M <= N the flow lies between 0 and rho |
| TrafficProofs.ForwardMovesOne | lab_4/lab4.py:23-27 | `next_forward` changes exactly one coordinate by one: x stays for up and down; the coordinate sum grows for up and right |
| TrafficProofs.WrapReenters | lab_4/lab4.py:75-78 | a cell past the edge on the travel axis re-enters at the opposite extreme with the other coordinate kept; any other cell is unchanged |
| TrafficProofs.TargetOnLattice | lab_4/lab4.py:73-78 | the wrapped target of a car on the ring is on the ring, on the car's lane, and (L >= 1) never the car's own cell |
| TrafficProofs.LeftTurns | lab_4/lab4.py:68-71 | two turns reverse the direction and four give it back, so every turn goes the same way round |
| TrafficProofs.TurnRule | lab_4/lab4.py:67-71 | the turn never moves the car; when it fires it rotates left and sets `turned`; otherwise the car is unchanged |
| TrafficProofs.RearmRule | lab_4/lab4.py:87-88 | outside the box only `turned` is cleared; inside nothing changes |
| TrafficProofs.ProcessCarRule | lab_4/lab4.py:66-88 | a car moves to its target exactly when that cell is free, and then the set trades its old cell for the new one; it keeps the direction the turn gave it; it ends turned only inside the box; its flag is set exactly when it left a segment cell |
| TrafficProofs.ProcessPrefixStable | lab_4/lab4.py:66-88 | later iterations never rewrite cars or flags already processed |
| TrafficProofs.ProcessPrefixAt | lab_4/lab4.py:66-88 | car k after the loop is car k processed against the set the cars before it left |
| TrafficProofs.MoveOne | lab_4/lab4.py:80-85 | a car staying put, or moving to an unoccupied cell, keeps all cells distinct, and the set becomes the old one minus the old cell plus the new one |
| TrafficProofs.MoveStep | lab_4/lab4.py:80-85 | the same for the car between the processed cars and those still to come |
| TrafficProofs.ProcessPrefixExclusive | lab_4/lab4.py:59-85 | throughout the loop the set is exactly the cells of the cars and no two cars share a cell |
| TrafficProofs.ProcessPrefixOnLattice | lab_4/lab4.py:73-85 | cars on the ring stay on the ring through the loop |
| TrafficProofs.CountTrueWithinSegment | lab_4/lab4.py:83-84 | when a flag is set only for a car in the segment, M <= N |
| TrafficProofs.CountSegmentIsDistinctYs | lab_4/lab4.py:62-63 | with distinct cells, N equals the number of distinct segment rows occupied |
| TrafficProofs.SegmentCountBound | lab_4/lab4.py:54-55 | with distinct cells at most L cars are in the segment |
| TrafficProofs.SpawnKeepsExclusive | lab_4/lab4.py:48-50 | a spawn keeps the cells distinct and the set equal to the cells of the cars |
| TrafficProofs.StepKeepsExclusive | lab_4/lab4.py:58-91 | a tick keeps all cells pairwise distinct |
| TrafficProofs.StepKeepsOnLattice | lab_4/lab4.py:58-91 | with L >= 1 a tick keeps every car on the ring |
| TrafficProofs.StepKeepsPopulation | lab_4/lab4.py:44-45 | a tick never shrinks the population and never takes it above target |
| TrafficProofs.StepRearms | lab_4/lab4.py:87-88 | after a tick no car outside the box is marked turned |
| TrafficProofs.StepCounts | lab_4/lab4.py:62-90 | with distinct cells, M <= N <= L |
| TrafficProofs.StepKeepsHealthy | lab_4/lab4.py:58-91 | a tick preserves distinct cells, ring membership, population within target and the re-arm invariant |
| TrafficProofs.RunHealthy | lab_4/lab4.py:95-100 | every state of a run from no cars satisfies those invariants |
| TrafficProofs.TickHealthy | lab_4/lab4.py:98-99 | every tick of a run ends healthy with M <= N <= L |
| TrafficProofs.TickCounts | lab_4/lab4.py:107-108 | every measured tick has M <= N <= L |
| TrafficProofs.HistoryAt | lab_4/lab4.py:98-100 | record t of the history is the cells after tick t |
| TrafficProofs.HistoryHealthy | lab_4/lab4.py:98-100 | every record has at most 10 cars, on distinct cells of the ring |
| TrafficProofs.SamplesBounded | lab_4/lab4.py:106-113 | every sample has 0 <= flow <= rho <= 1 |
| TrafficEngine.Car.constructor | lab_4/lab4.py:17-21 | a new car has the given cell and direction and has not turned |
| TrafficEngine.Car.TurnAtTrigger | lab_4/lab4.py:67-71 | the nested turn test changes the car as the turn rule says |
| TrafficEngine.Car.RearmOutsideBox | lab_4/lab4.py:87-88 | the re-arm test changes the car as the re-arm rule says |
| TrafficEngine.WrapAtEdge | lab_4/lab4.py:75-78 | the four sequential wrap tests compute `Wrap` |
| TrafficEngine.Car.Advance | lab_4/lab4.py:66-88 | one loop iteration leaves the car, the set and the flag that the pure rule for one car gives |
| TrafficEngine.Traffic.constructor | lab_4/lab4.py:31-32 | a run starts with no cars |
| TrafficEngine.Traffic.MaybeSpawnOne | lab_4/lab4.py:43-51 | the tries loop computes the spawn rule; a new car is a fresh object appended at the end of the list |
| TrafficEngine.Traffic.OccupiedCells | lab_4/lab4.py:59 | the set comprehension is the set of cells of the cars |
| TrafficEngine.Traffic.SegmentCount | lab_4/lab4.py:62-63 | the counting loop computes N |
| TrafficEngine.Traffic.CellList | lab_4/lab4.py:91 | the returned list is the cells of the cars in list order |
| TrafficEngine.Traffic.AdvanceAt | lab_4/lab4.py:66-88 | advancing car i changes only car i |
| TrafficEngine.Traffic.AdvanceAll | lab_4/lab4.py:66-88 | the loop over the cars computes the pure loop: the cars, the set and the flags |
| TrafficEngine.Traffic.SpawnAndCount | lab_4/lab4.py:59-63 | the set, the spawn and N as the pure rules give them |
| TrafficEngine.Traffic.ProcessAll | lab_4/lab4.py:66-90 | the loop and M as the pure rules give them |
| TrafficEngine.Traffic.Step | lab_4/lab4.py:58-91 | `step` leaves the cars the pure tick gives and returns their cells, N and M |
| TrafficEngine.Traffic.StepDraw | lab_4/lab4.py:98-100 | after tick t of a run the engine holds the cars of tick t + 1 |
| TrafficEngine.Traffic.MeasureTick | lab_4/lab4.py:107-113 | one measured tick appends that tick's sample |
| TrafficEngine.RecordHistory | lab_4/lab4.py:95-100 | the history run records the cells of each tick; each record has at most 10 cars on distinct cells of the ring |
| TrafficEngine.Measure | lab_4/lab4.py:102-113 | the measurement run yields the samples of the ticks after the warm-up, in order |
| TrafficEngine.WarmUp | lab_4/lab4.py:102-104 | the warm-up leaves the cars of its last tick |
| TrafficEngine.Sample | lab_4/lab4.py:109-111 | rho = N / L and flow = rho * (M / N), which equals M / L when N > 0 |
| TrafficEngine.RunWithHistory | lab_4/lab4.py:94-114 | the history of the first run, and 100 samples of the second, each with 0 <= flow <= rho <= 1 |
| Droplet.Wrapped | lab_3/droplet_sim.py:32-33 | a wrapped index always lies in [0, N) |
| Droplet.Differs | lab_3/droplet_sim.py:30-35 | neighbour (di, dj), wrapped with `% N`, has the other colour, the centre skipped; `NeighbourCountZero` and `NeighbourCountEight` characterise the count through it |
| Droplet.RuleFlips | lab_3/droplet_sim.py:19 | the table entry is 1 exactly for the counts 4, 6, 7 and 8, and 0 for the others |
| Droplet.RowDifferent | lab_3/droplet_sim.py:29-34 | a row of offsets counts at most three, and at most two in the cell's own row |
| Droplet.Different | lab_3/droplet_sim.py:28-34 | the rows processed so far count at most their non-centre offsets |
| Droplet.NeighbourCount | lab_3/droplet_sim.py:27-38 | the count is at most 8, so `rule[neighbors]` is in range |
| Droplet.NextCell | lab_3/droplet_sim.py:19-41 | a cell changes exactly when its count is 4, 6, 7 or 8, then to `1 - grid[i, j]`; 0/1 stays 0/1 |
| Droplet.CountDifferent | lab_3/droplet_sim.py:27-34 | the nested offset loops compute the neighbour count |
| Droplet.WrapNeighbour | lab_3/droplet_sim.py:32-33 | one step past either edge re-enters at the other edge; inside the grid an index is unchanged |
| Droplet.NeighbourIsOther | lab_3/droplet_sim.py:30-34 | on a grid of side 3 or more, no neighbour is the cell itself |
| Droplet.RowDifferentZero | lab_3/droplet_sim.py:29-34 | a row counts 0 exactly when none of its offsets differ |
| Droplet.RowDifferentFull | lab_3/droplet_sim.py:29-34 | a row reaches its maximum exactly when all its non-centre offsets differ |
| Droplet.DifferentZero | lab_3/droplet_sim.py:28-34 | the rows so far count 0 exactly when none of their offsets differ |
| Droplet.DifferentFull | lab_3/droplet_sim.py:28-34 | the rows so far reach their maximum exactly when all their non-centre offsets differ |
| Droplet.NeighbourCountZero | lab_3/droplet_sim.py:27-34 | the count is 0 exactly when every neighbour has the cell's colour |
| Droplet.NeighbourCountEight | lab_3/droplet_sim.py:27-34 | the count is 8 exactly when every neighbour has the other colour |
| Droplet.UniformIsFixed | lab_3/droplet_sim.py:35-41 | a one-colour grid is left unchanged |
| Droplet.SurroundedFlips | lab_3/droplet_sim.py:37-39 | a cell whose eight neighbours all differ flips |
| Droplet.Automaton.constructor | lab_3/droplet_sim.py:14 | the automaton holds the given square grid |
| Droplet.Automaton.Update | lab_3/droplet_sim.py:21-43 | `grid` becomes a fresh grid of the same size whose every cell is the rule applied to the old grid; the old grid is untouched; a 0/1 grid stays 0/1 |

## Left out

- Plotting, animation and GIF saving are left out: `plot_fundamental`, `animate` and the `__main__` block of `lab_4/lab4.py:117-161`, and `mat.set_data` and `lab_3/droplet_sim.py:44-62`. They are display and file I/O.
- The random generator is left out. Each tick takes a `Draw`: `coin` stands for `random.random() < SPAWN_PROB`, and `sides` for the eight sides `pick_spawn_point` would draw. The seed (`random.seed(1)`) therefore has no counterpart. The draws a run consumes are a parameter.
- Floating-point arithmetic is modelled as exact real arithmetic. `Sample` computes `rho * vavg` as the program does and proves it equal to `Flow`, that is M / L when N > 0; rounding is not modelled.
- Directions are a datatype, so the final `return self.x, self.y` of `next_forward` (`lab_4/lab4.py:28`) is unreachable and not modelled.
- `moved_flags` is a dictionary keyed by `id(c)`. The model keeps one flag per car, in list order, appended as each car is processed. Cars outside the segment get a false flag, so M is the same.
- TrafficRules.ProcessPrefix: its own contract gives only the lengths; what the loop does is stated by `ProcessPrefixAt`, `ProcessCarRule` and `ProcessPrefixExclusive`.
- The droplet grid is any square `array2<int>` rather than a 100x100 one. `np.random.choice` is replaced by the grid passed to `Automaton`'s constructor. `update`'s `frame` argument is unused by the program and not modelled.
- `grid.copy()` is modelled as a fresh array initialised from the old grid. Every cell of it is then overwritten, as in the program.
- `lab_2` is not part of this model.
