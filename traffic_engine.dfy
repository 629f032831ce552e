/** The lattice traffic engine of lab_4/lab4.py as it runs: `Car` objects whose
    fields `step` updates in place, the car list that `maybe_spawn_one` appends
    to, and the tick loop of `run_with_history`. Each method is proved to
    compute the pure rules of module TrafficRules, so the properties proved in
    module TrafficProofs hold of the running engine. */
module TrafficEngine {
  import opened TrafficRules
  import opened TrafficProofs

  /** A car. `step` changes its cell, direction and `turned` flag in place. */
  class Car {
    var x: int
    var y: int
    var dir: Dir
    var turned: bool

    /** `Car(x, y, direction)`: a new car has not turned. */
    constructor (x: int, y: int, dir: Dir)
      ensures this.x == x && this.y == y && this.dir == dir && !turned
    {
      this.x := x;
      this.y := y;
      this.dir := dir;
      turned := false;
    }

    /** The value of this car's fields. */
    function State(): CarState
      reads this
    {
      CarState(x, y, dir, turned)
    }

    /** The head of the loop body of `step`: a car that has not turned yet
        and stands on a trigger cell heading into the box turns left. */
    method TurnAtTrigger()
      modifies this
      ensures State() == Turn(old(State()))
    {
      if !turned {
        if dir == Up && (x, y) == (0, 0) {
          dir, turned := Left, true;
        } else if dir == Right && (x, y) == (0, -1) {
          dir, turned := Up, true;
        } else if dir == Down && (x, y) == (-1, -1) {
          dir, turned := Right, true;
        } else if dir == Left && (x, y) == (-1, 0) {
          dir, turned := Down, true;
        }
      }
    }

    /** The end of the loop body of `step`: outside the box `turned` is cleared. */
    method RearmOutsideBox()
      modifies this
      ensures State() == Rearm(old(State()))
    {
      if !(-1 <= x <= 0 && -1 <= y <= 0) {
        turned := false;
      }
    }

    /** The body of the `for car in cars` loop of `step` for this car: turn if
        it may, target the next wrapped cell, move there if it is free in
        `occupied` (updating the set), and re-arm `turned` outside the box.
        `moved` is the flag this iteration sets for the segment count. */
    method Advance(occupied: set<Cell>, L: int) returns (occ: set<Cell>, moved: bool)
      modifies this
      ensures ProcessCar(old(State()), occupied, L) == Move(State(), occ, moved)
    {
      TurnAtTrigger();
      var nx, ny := WrapAtEdge(Forward(x, y, dir), dir, L);
      occ, moved := occupied, false;
      if (nx, ny) !in occ {
        occ := occ - {(x, y)};
        occ := occ + {(nx, ny)};
        if InSegment(x, y) && (nx, ny) != (x, y) {
          moved := true;
        }
        x, y := nx, ny;
      }
      RearmOutsideBox();
    }
  }

  /** The four wrap tests of `step`, applied in turn to the cell `next_forward`
      gave: a coordinate past L on the travel axis re-enters at -L or L. */
  method WrapAtEdge(next: Cell, dir: Dir, L: int) returns (nx: int, ny: int)
    ensures (nx, ny) == Wrap(next, dir, L)
  {
    nx, ny := next.0, next.1;
    if dir == Up && ny > L { ny := -L; }
    if dir == Down && ny < -L { ny := L; }
    if dir == Right && nx > L { nx := -L; }
    if dir == Left && nx < -L { nx := L; }
  }

  /** The simulation state of one run: the list `cars`, in spawn order. */
  class Traffic {
    var cars: seq<Car>
    /** The values of the cars, in list order. */
    ghost var Model: seq<CarState>
    /** This object and its cars. */
    ghost var Repr: set<object>
    /** The position of each car in the list. */
    ghost var Index: map<Car, nat>

    /** The cars are distinct objects: each was built by its own spawn, so
        each has one position. */
    ghost predicate Indexed()
      reads this
    {
      forall k :: 0 <= k < |cars| ==> cars[k] in Index && Index[cars[k]] == k
    }

    /** The cars are distinct and `Model` holds their values. */
    ghost predicate Valid()
      reads this, cars
    {
      && Indexed()
      && |Model| == |cars|
      && forall k :: 0 <= k < |cars| ==> cars[k].State() == Model[k]
    }

    /** `Repr` holds this object and every car of the list. */
    ghost predicate Owned()
      reads this
    {
      this in Repr && forall k :: 0 <= k < |cars| ==> cars[k] in Repr
    }

    /** The engine holds the cars a run on draws `ds` has after its first
        `t` ticks. */
    ghost predicate At(ds: seq<Draw>, t: nat)
      reads this, cars
    {
      Valid() && Owned() && t <= |ds| && Model == Run(ds, t, HalfExtent, NumCarsTarget)
    }

    /** `init_cars`: a run starts with no cars. */
    constructor ()
      ensures Valid() && Owned() && cars == [] && Model == [] && fresh(Repr)
    {
      cars := [];
      Model := [];
      Repr := {this};
      Index := map[];
    }

    /** `maybe_spawn_one`, with `occupied` passed in and its new value returned.
        `coin` is the outcome of `random.random() < SPAWN_PROB` and `sides` the
        eight sides `pick_spawn_point` would draw. Computes `Spawn`; a spawned
        car is a new object appended at the end of the list. */
    method MaybeSpawnOne(L: int, occupied: set<Cell>, target: int, coin: bool, sides: Tries)
      returns (occ: set<Cell>)
      requires Valid() && Owned()
      modifies this
      ensures Valid() && Owned() && fresh(Repr - old(Repr))
      ensures Spawn(old(Model), occupied, L, target, coin, sides) == Spawned(Model, occ)
      ensures cars == old(cars) ||
        (|cars| == |old(cars)| + 1 && cars[..|old(cars)|] == old(cars) && fresh(cars[|old(cars)|]))
    {
      occ := occupied;
      if |cars| >= target || !coin {
        return;
      }
      for t := 0 to SpawnTries
        invariant FirstFree(sides, occupied, L, 0) == FirstFree(sides, occupied, L, t)
        invariant cars == old(cars) && Model == old(Model) && Repr == old(Repr) && Index == old(Index) && occ == occupied
      {
        var e := EntryPoint(sides[t], L);
        if (e.x, e.y) !in occupied {
          var c := new Car(e.x, e.y, e.dir);
          cars := cars + [c];
          Model := Model + [c.State()];
          Repr := Repr + {c};
          Index := Index[c := |cars| - 1];
          occ := occupied + {(e.x, e.y)};
          break;
        }
      }
    }

    /** `{(c.x, c.y) for c in cars}`: the set of cells the cars occupy. */
    method OccupiedCells() returns (occ: set<Cell>)
      requires Valid()
      ensures occ == Occupied(Model)
    {
      occ := set k | 0 <= k < |cars| :: (cars[k].x, cars[k].y);
      forall p | p in Occupied(Model) ensures p in occ {
        var k :| 0 <= k < |Model| && Pos(Model[k]) == p;
        assert cars[k].State() == Model[k];
      }
    }

    /** `len([c for c in cars if in_segment(c.x, c.y)])`: N. */
    method SegmentCount() returns (n: nat)
      requires Valid()
      ensures n == CountSegment(Model, |Model|)
    {
      n := 0;
      for k := 0 to |cars|
        invariant n == CountSegment(Model, k)
      {
        assert cars[k].State() == Model[k];
        if InSegment(cars[k].x, cars[k].y) {
          n := n + 1;
        }
      }
    }

    /** `[(c.x, c.y) for c in cars]`: the cells of the cars in list order. */
    method CellList() returns (positions: seq<Cell>)
      requires Valid()
      ensures positions == Positions(Model)
    {
      positions := [];
      for k := 0 to |cars|
        invariant |positions| == k && forall q :: 0 <= q < k ==> positions[q] == Pos(Model[q])
      {
        assert cars[k].State() == Model[k];
        positions := positions + [(cars[k].x, cars[k].y)];
      }
    }

    /** One iteration of the `for car in cars` loop of `step`: car `i`
        advances against `occupied`; no other car changes. */
    method AdvanceAt(i: nat, occupied: set<Cell>, L: int) returns (occ: set<Cell>, moved: bool)
      requires Indexed() && i < |cars|
      modifies cars[i]
      ensures ProcessCar(old(cars[i].State()), occupied, L) == Move(cars[i].State(), occ, moved)
      ensures forall k :: 0 <= k < |cars| && k != i ==> cars[k].State() == old(cars[k].State())
    {
      occ, moved := cars[i].Advance(occupied, L);
      forall k | 0 <= k < |cars| && k != i ensures cars[k].State() == old(cars[k].State()) {
        assert Index[cars[k]] != Index[cars[i]];
      }
    }

    /** The `for car in cars` loop of `step`: advance every car, in list
        order, against one occupancy set that each move updates, so earlier cars
        claim cells first. `moved[k]` is the flag the iteration for car `k`
        reports (`moved_flags`, indexed by position in the list). */
    method AdvanceAll(occupied: set<Cell>, L: int) returns (occ: set<Cell>, moved: seq<bool>, ghost after: seq<CarState>)
      requires Valid()
      modifies cars
      ensures ProcessPrefix(Model, occupied, L, |cars|) == Pass(after, occ, moved)
      ensures forall k :: 0 <= k < |cars| ==> cars[k].State() == after[k]
    {
      after, occ, moved := [], occupied, [];
      for i := 0 to |cars|
        invariant ProcessPrefix(Model, occupied, L, i) == Pass(after, occ, moved)
        invariant forall k :: 0 <= k < i ==> cars[k].State() == after[k]
        invariant forall k :: i <= k < |cars| ==> cars[k].State() == Model[k]
      {
        var hasMoved;
        occ, hasMoved := AdvanceAt(i, occ, L);
        moved := moved + [hasMoved];
        after := after + [cars[i].State()];
      }
    }

    /** The start of `step`: build `occupied` from the cars, maybe spawn one
        car, and count the segment cars (after the spawn) as N. */
    method SpawnAndCount(L: int, target: int, coin: bool, sides: Tries) returns (occ: set<Cell>, n: nat)
      requires Valid() && Owned()
      modifies this
      ensures Valid() && Owned() && fresh(Repr - old(Repr))
      ensures Spawn(old(Model), Occupied(old(Model)), L, target, coin, sides) == Spawned(Model, occ)
      ensures n == CountSegment(Model, |Model|)
    {
      occ := OccupiedCells();
      occ := MaybeSpawnOne(L, occ, target, coin, sides);
      n := SegmentCount();
    }

    /** The loop of `step` over the cars, against the occupancy the spawn
        left, and its count M of segment cars that moved. */
    method ProcessAll(occupied: set<Cell>, L: int) returns (m: nat)
      requires Valid()
      modifies this, cars
      ensures Valid() && cars == old(cars) && Repr == old(Repr)
      ensures var p := ProcessPrefix(old(Model), occupied, L, |old(Model)|);
        Model == p.cars && m == CountTrue(p.moved, |p.moved|)
    {
      var occ, moved;
      ghost var after;
      occ, moved, after := AdvanceAll(occupied, L);
      Model := after;
      m := CountTrue(moved, |moved|);
    }

    /** `step`: one tick. Computes `StepSpec` on the values of the cars and
        returns the cells of all cars, N and M. */
    method Step(L: int, target: int, coin: bool, sides: Tries) returns (positions: seq<Cell>, n: nat, m: nat)
      requires Valid() && Owned()
      modifies Repr
      ensures Valid() && Owned() && fresh(Repr - old(Repr))
      ensures StepSpec(old(Model), L, target, coin, sides) == Tick(Model, n, m)
      ensures positions == Positions(Model)
    {
      var occupied;
      occupied, n := SpawnAndCount(L, target, coin, sides);
      ghost var spawned := Model;
      m := ProcessAll(occupied, L);
      positions := CellList();
      StepSpecUnfold(old(Model), L, target, coin, sides, spawned, occupied);
    }

    /** The tick of `run_with_history` that consumes draw `t` of `ds`: `step`
        on the cars the earlier draws left, which is tick `t` of the run. */
    method StepDraw(ds: seq<Draw>, t: nat) returns (positions: seq<Cell>, n: nat, m: nat)
      requires At(ds, t) && t < |ds|
      modifies Repr
      ensures At(ds, t + 1) && fresh(Repr - old(Repr))
      ensures positions == Positions(Model)
    {
      positions, n, m := Step(HalfExtent, NumCarsTarget, ds[t].coin, ds[t].sides);
    }

    /** One tick of the measurement loop of `run_with_history`: tick `t` of
        the run, whose density and flow are appended to the samples of the
        ticks `from` up to `t - 1`. */
    method MeasureTick(ds: seq<Draw>, from: nat, t: nat, rhos: seq<real>, flows: seq<real>)
      returns (rhos': seq<real>, flows': seq<real>)
      requires At(ds, t) && from <= t < |ds| && Sampled(ds, from, t, rhos, flows)
      modifies Repr
      ensures At(ds, t + 1) && fresh(Repr - old(Repr))
      ensures Sampled(ds, from, t + 1, rhos', flows')
    {
      var _, n, m := Step(HalfExtent, NumCarsTarget, ds[t].coin, ds[t].sides);
      var rho, flow := Sample(n, m);
      SampledSnoc(ds, from, t, rhos, flows, rho, flow);
      rhos', flows' := rhos + [rho], flows + [flow];
    }
  }

  /** The first phase of `run_with_history`: one tick per draw from no cars,
      recording the cells after each tick. Every record has at most `target`
      cars, on pairwise distinct cells of the ring. */
  method RecordHistory(ds: seq<Draw>) returns (hist: seq<seq<Cell>>)
    ensures hist == History(ds, |ds|, HalfExtent, NumCarsTarget)
    ensures forall t :: 0 <= t < |ds| ==>
      |hist[t]| <= NumCarsTarget && Distinct(hist[t]) &&
      forall q :: 0 <= q < |hist[t]| ==> InLattice(hist[t][q], HalfExtent)
  {
    var traffic := new Traffic();
    hist := [];
    for t := 0 to |ds|
      invariant fresh(traffic.Repr) && traffic.At(ds, t)
      invariant hist == History(ds, t, HalfExtent, NumCarsTarget)
    {
      var positions, _, _ := traffic.StepDraw(ds, t);
      hist := hist + [positions];
    }
    forall t | 0 <= t < |ds|
      ensures |hist[t]| <= NumCarsTarget && Distinct(hist[t]) &&
        forall q :: 0 <= q < |hist[t]| ==> InLattice(hist[t][q], HalfExtent)
    {
      HistoryHealthy(ds, |ds|, t);
    }
  }

  /** The second phase of `run_with_history`: from no cars, `warmup` ticks
      whose counts are discarded, then one (rho, flow) sample per tick for the
      remaining draws. Every sample has 0 <= flow <= rho <= 1. */
  method Measure(ds: seq<Draw>, warmup: nat) returns (rhos: seq<real>, flows: seq<real>)
    requires warmup <= |ds|
    ensures Sampled(ds, warmup, |ds|, rhos, flows)
  {
    var traffic := WarmUp(ds, warmup);
    rhos, flows := [], [];
    for t := warmup to |ds|
      invariant fresh(traffic.Repr) && traffic.At(ds, t)
      invariant Sampled(ds, warmup, t, rhos, flows)
    {
      rhos, flows := traffic.MeasureTick(ds, warmup, t, rhos, flows);
    }
  }

  /** The warm-up of the measurement run: a new run from no cars, advanced by
      its first `warmup` ticks, whose results are discarded. */
  method WarmUp(ds: seq<Draw>, warmup: nat) returns (traffic: Traffic)
    requires warmup <= |ds|
    ensures fresh(traffic.Repr) && traffic.At(ds, warmup)
  {
    traffic := new Traffic();
    for t := 0 to warmup
      invariant fresh(traffic.Repr) && traffic.At(ds, t)
    {
      var _, _, _ := traffic.StepDraw(ds, t);
    }
  }

  /** The metrics of one measured tick, computed as `run_with_history` does:
      `rho = N / L` (0 when L is not positive), `vavg = M / N` (0 when N is
      0) and `flow = rho * vavg`. */
  method Sample(n: nat, m: nat) returns (rho: real, flow: real)
    ensures rho == Density(n) && flow == Flow(n, m)
  {
    rho := if HalfExtent > 0 then (n as real) / (HalfExtent as real) else 0.0;
    var vavg := if n > 0 then (m as real) / (n as real) else 0.0;
    flow := rho * vavg;
    if n > 0 {
      calc {
        flow;
        ((n as real) / (HalfExtent as real)) * ((m as real) / (n as real));
        (m as real) / (HalfExtent as real);
      }
    }
  }

  /** `run_with_history`, on the constants of lab4.py (L = 25, target 10,
      300 ticks, warm-up 200). The draws are consumed in order: the first
      `TotalSteps` by the history run, the rest by the measurement run, which
      starts again from no cars. */
  method RunWithHistory(draws: seq<Draw>) returns (hist: seq<seq<Cell>>, rhos: seq<real>, flows: seq<real>)
    requires |draws| == TotalSteps + WarmupSteps + MeasureSteps
    ensures hist == History(draws[..TotalSteps], TotalSteps, HalfExtent, NumCarsTarget)
    ensures Sampled(draws[TotalSteps..], WarmupSteps, WarmupSteps + MeasureSteps, rhos, flows)
    ensures |rhos| == |flows| == MeasureSteps
    ensures forall q :: 0 <= q < MeasureSteps ==> 0.0 <= flows[q] <= rhos[q] <= 1.0
  {
    hist := RecordHistory(draws[..TotalSteps]);
    rhos, flows := Measure(draws[TotalSteps..], WarmupSteps);
    SamplesBounded(draws[TotalSteps..], WarmupSteps, WarmupSteps + MeasureSteps, rhos, flows);
  }
}
