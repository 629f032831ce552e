/** The rules of the lattice traffic engine of lab_4/lab4.py, as pure functions:
    the ring topology and its wrap rule, the measured segment, the per-car turning
    state machine, the spawn policy, the move of one car within a tick, and the
    whole tick (spawn, count, move every car in list order).

    The engine itself (lab4.py's `step`, which mutates `Car` objects in place) is
    in module TrafficEngine; its methods are proved to compute `StepSpec`. */
module TrafficRules {

  /** Travel direction of a car; the source spells these 'up', 'down', 'right', 'left'. */
  datatype Dir = Up | Down | Right | Left

  /** The side of the ring drawn by one spawn try. */
  datatype Side = South | West | North | East

  datatype Option<T> = None | Some(value: T)

  /** A lattice cell (x, y). */
  type Cell = (int, int)

  /** The module-level half-extent `L`. `in_segment` reads this value, not the
      `L` handed to `step`. */
  const HalfExtent: int := 25
  const NumCarsTarget: int := 10
  const TotalSteps: nat := 300
  const WarmupSteps: nat := 200
  const MeasureSteps: nat := TotalSteps - WarmupSteps
  /** How many sides `maybe_spawn_one` draws at most before giving up for the tick. */
  const SpawnTries: nat := 8

  /** The sides one call of `maybe_spawn_one` would draw, one per try. */
  type Tries = s: seq<Side> | |s| == SpawnTries
    witness [South, South, South, South, South, South, South, South]

  /** The value of one `Car`: its cell, its direction and whether it has used its
      turn during the current pass through the intersection box. */
  datatype CarState = CarState(x: int, y: int, dir: Dir, turned: bool)

  function Pos(c: CarState): Cell { (c.x, c.y) }

  function Abs(k: int): nat { if k < 0 then -k else k }

  predicate Vertical(d: Dir) { d == Up || d == Down }

  /** The cells [-L, L] x [-L, L] of the square ring. */
  predicate InLattice(p: Cell, L: int) { -L <= p.0 <= L && -L <= p.1 <= L }

  /** The 2x2 intersection box {-1, 0} x {-1, 0}. */
  predicate InBox(x: int, y: int) { -1 <= x <= 0 && -1 <= y <= 0 }

  /** `in_segment`: the lane x == 0 just north of the box, 1 <= y <= L, with
      the module-level L. Only cars heading up use that lane, so its cars
      drive away from the box. */
  predicate InSegment(x: int, y: int) { x == 0 && 1 <= y <= HalfExtent }

  // ---------------------------------------------------------------- topology

  /** `Car.next_forward`: one cell along the direction of travel
      (`TrafficProofs.ForwardMovesOne` states which coordinate changes). */
  function Forward(x: int, y: int, d: Dir): (r: Cell)
  {
    match d
    case Up => (x, y + 1)
    case Down => (x, y - 1)
    case Right => (x + 1, y)
    case Left => (x - 1, y)
  }

  function Opposite(d: Dir): Dir {
    match d
    case Up => Down
    case Down => Up
    case Right => Left
    case Left => Right
  }

  /** The travel-axis coordinate of `n` lies beyond the edge it is travelling towards. */
  predicate PastEdge(n: Cell, d: Dir, L: int) {
    match d
    case Up => n.1 > L
    case Down => n.1 < -L
    case Right => n.0 > L
    case Left => n.0 < -L
  }

  /** The wrap rule of `step`: a coordinate that went past L on the travel axis
      re-enters at the opposite extreme (`TrafficProofs.WrapReenters`). */
  function Wrap(n: Cell, d: Dir, L: int): (r: Cell)
  {
    var ny1 := if d == Up && n.1 > L then -L else n.1;
    var ny2 := if d == Down && ny1 < -L then L else ny1;
    var nx1 := if d == Right && n.0 > L then -L else n.0;
    var nx2 := if d == Left && nx1 < -L then L else nx1;
    (nx2, ny2)
  }

  /** The cell a car heading `c.dir` tries to enter this tick
      (`TrafficProofs.TargetOnLattice` keeps it on the ring). */
  function Target(c: CarState, L: int): (r: Cell)
  {
    Wrap(Forward(c.x, c.y, c.dir), c.dir, L)
  }

  // ------------------------------------------------------- turning state machine

  /** The four (cell, incoming direction) pairs at the corners of the box where a
      car turns. */
  predicate AtTrigger(x: int, y: int, d: Dir) {
    match d
    case Up => x == 0 && y == 0
    case Right => x == 0 && y == -1
    case Down => x == -1 && y == -1
    case Left => x == -1 && y == 0
  }

  /** A 90-degree counter-clockwise rotation: the turn made at every trigger. */
  function LeftOf(d: Dir): (r: Dir)
    ensures Vertical(r) != Vertical(d)
  {
    match d
    case Up => Left
    case Left => Down
    case Down => Right
    case Right => Up
  }

  /** The turn fires: the car has not turned during this pass and stands on a trigger. */
  predicate Fires(c: CarState) { !c.turned && AtTrigger(c.x, c.y, c.dir) }

  /** The turning rule at the head of the loop body of `step`. Its effect is stated
      by `TrafficProofs.TurnRule`. */
  function Turn(c: CarState): (r: CarState)
  {
    if c.turned then c
    else if c.dir == Up && (c.x, c.y) == (0, 0) then c.(dir := Left, turned := true)
    else if c.dir == Right && (c.x, c.y) == (0, -1) then c.(dir := Up, turned := true)
    else if c.dir == Down && (c.x, c.y) == (-1, -1) then c.(dir := Right, turned := true)
    else if c.dir == Left && (c.x, c.y) == (-1, 0) then c.(dir := Down, turned := true)
    else c
  }

  /** The re-arm rule at the end of the loop body of `step`: outside the box the
      `turned` flag is cleared (`TrafficProofs.RearmRule`). */
  function Rearm(c: CarState): (r: CarState)
  {
    if !InBox(c.x, c.y) then c.(turned := false) else c
  }

  // ------------------------------------------------------------------ spawning

  /** `pick_spawn_point` after the side is drawn, with the fresh `Car` built from
      it: a boundary cell of the ring, a direction pointing inwards, `turned` false. */
  function EntryPoint(s: Side, L: int): (r: CarState)
    ensures !r.turned
    ensures L >= 0 ==> Abs(r.x) == L || Abs(r.y) == L
    ensures L >= 1 ==> InLattice(Pos(r), L) && InLattice(Forward(r.x, r.y, r.dir), L)
  {
    match s
    case South => CarState(0, -L, Up, false)
    case West => CarState(-L, -1, Right, false)
    case North => CarState(-1, L, Down, false)
    case East => CarState(L, 0, Left, false)
  }

  /** The first try, from try `from` on, whose drawn side has a free entry cell. */
  function FirstFree(sides: Tries, occ: set<Cell>, L: int, from: nat): (r: Option<nat>)
    requires from <= |sides|
    ensures r.Some? ==> from <= r.value < |sides| && Pos(EntryPoint(sides[r.value], L)) !in occ
    ensures r.Some? ==> forall j :: from <= j < r.value ==> Pos(EntryPoint(sides[j], L)) in occ
    ensures r.None? ==> forall j :: from <= j < |sides| ==> Pos(EntryPoint(sides[j], L)) in occ
    decreases |sides| - from
  {
    if from == |sides| then None
    else if Pos(EntryPoint(sides[from], L)) !in occ then Some(from)
    else FirstFree(sides, occ, L, from + 1)
  }

  datatype Spawned = Spawned(cars: seq<CarState>, occ: set<Cell>)

  /** `maybe_spawn_one`: `coin` stands for `random.random() < SPAWN_PROB` and
      `sides` for the up to eight sides drawn. At most one car is appended, only
      when the population is below target and the coin succeeds: the entry of
      the first try whose cell is free, which then becomes occupied. */
  function Spawn(cs: seq<CarState>, occ: set<Cell>, L: int, target: int, coin: bool, sides: Tries): (r: Spawned)
    ensures r == Spawned(cs, occ) ||
      exists k :: 0 <= k < |sides| && Pos(EntryPoint(sides[k], L)) !in occ &&
        (forall j :: 0 <= j < k ==> Pos(EntryPoint(sides[j], L)) in occ) &&
        r == Spawned(cs + [EntryPoint(sides[k], L)], occ + {Pos(EntryPoint(sides[k], L))})
    ensures |cs| >= target || !coin ==> r == Spawned(cs, occ)
    ensures |cs| < target && coin ==>
      (r == Spawned(cs, occ) <==> forall s :: s in sides ==> Pos(EntryPoint(s, L)) in occ)
  {
    if |cs| >= target || !coin then Spawned(cs, occ)
    else
      match FirstFree(sides, occ, L, 0)
      case None => Spawned(cs, occ)
      case Some(k) =>
        var e := EntryPoint(sides[k], L);
        assert |cs + [e]| != |cs|;
        Spawned(cs + [e], occ + {Pos(e)})
  }

  // ------------------------------------------------------------ one tick

  /** The outcome of processing one car: its new value, the occupancy set after
      its move, and whether it counts as moved for the segment flow. */
  datatype Move = Move(car: CarState, occ: set<Cell>, moved: bool)

  /** One iteration of the `for car in cars` loop of `step`. The car turns if it
      may, targets the next (wrapped) cell, and moves there only if that cell is
      free in `occ`; otherwise it stays. It counts as moved exactly when it
      started in the segment and its cell changed. Outside the box it ends with
      `turned` cleared (`TrafficProofs.ProcessCarRule`). */
  function ProcessCar(c: CarState, occ: set<Cell>, L: int): (r: Move)
  {
    var t := Turn(c);
    var n := Target(t, L);
    if n !in occ then
      Move(Rearm(t.(x := n.0, y := n.1)), occ - {Pos(t)} + {n}, InSegment(t.x, t.y) && n != Pos(t))
    else
      Move(Rearm(t), occ, false)
  }

  /** The state of the loop of `step` after its first `n` iterations: the
      processed cars, the occupancy set and the moved flags of those cars. */
  datatype Pass = Pass(cars: seq<CarState>, occ: set<Cell>, moved: seq<bool>)

  function ProcessPrefix(cs: seq<CarState>, occ: set<Cell>, L: int, n: nat): (r: Pass)
    requires n <= |cs|
    ensures |r.cars| == n && |r.moved| == n
    decreases n
  {
    if n == 0 then Pass([], occ, [])
    else
      var p := ProcessPrefix(cs, occ, L, n - 1);
      var o := ProcessCar(cs[n - 1], p.occ, L);
      Pass(p.cars + [o.car], o.occ, p.moved + [o.moved])
  }

  /** The cells of the cars, in list order (the first result of `step`); as a
      set they are exactly the occupancy set `Occupied`. */
  function Positions(cs: seq<CarState>): (r: seq<Cell>)
    ensures |r| == |cs|
    ensures forall p :: p in r <==> p in Occupied(cs)
  {
    var r := seq(|cs|, k requires 0 <= k < |cs| => Pos(cs[k]));
    assert forall k :: 0 <= k < |cs| ==> r[k] == Pos(cs[k]) && Pos(cs[k]) in Occupied(cs);
    r
  }

  /** The occupancy set `{(c.x, c.y) for c in cars}`. */
  function Occupied(cs: seq<CarState>): set<Cell> {
    set k | 0 <= k < |cs| :: Pos(cs[k])
  }

  predicate Distinct(ps: seq<Cell>) {
    forall i, j :: 0 <= i < j < |ps| ==> ps[i] != ps[j]
  }

  /** `len([c for c in cars if in_segment(c.x, c.y)])`. */
  function CountSegment(cs: seq<CarState>, n: nat): (r: nat)
    requires n <= |cs|
    ensures r <= n
  {
    if n == 0 then 0
    else CountSegment(cs, n - 1) + (if InSegment(cs[n - 1].x, cs[n - 1].y) then 1 else 0)
  }

  /** `sum(moved_flags.values())`. */
  function CountTrue(bs: seq<bool>, n: nat): (r: nat)
    requires n <= |bs|
    ensures r <= n
  {
    if n == 0 then 0
    else CountTrue(bs, n - 1) + (if bs[n - 1] then 1 else 0)
  }

  /** The result of one tick: the cars afterwards, N and M. */
  datatype Tick = Tick(cars: seq<CarState>, n: nat, m: nat)

  /** `step`: spawn against the occupancy of the current cars, count the segment
      (after spawning), then process every car in list order against the
      occupancy set the spawn left. */
  function StepSpec(cs: seq<CarState>, L: int, target: int, coin: bool, sides: Tries): (r: Tick)
    ensures |r.cars| == |cs| || (|r.cars| == |cs| + 1 && |cs| < target && coin)
  {
    var sp := Spawn(cs, Occupied(cs), L, target, coin, sides);
    var p := ProcessPrefix(sp.cars, sp.occ, L, |sp.cars|);
    Tick(p.cars, CountSegment(sp.cars, |sp.cars|), CountTrue(p.moved, |p.moved|))
  }

  // ------------------------------------------------------------ a whole run

  /** The random draws consumed by one tick: the spawn coin and the sides the
      spawn tries would pick. */
  datatype Draw = Draw(coin: bool, sides: Tries)

  /** The car values after the first `n` ticks of a run that starts with no
      cars (`init_cars`) and consumes draw `t` in tick `t`. */
  function Run(ds: seq<Draw>, n: nat, L: int, target: int): (r: seq<CarState>)
    requires n <= |ds|
    ensures |r| <= n
    decreases n, 0
  {
    if n == 0 then []
    else TickOf(ds, n - 1, L, target).cars
  }

  /** Tick `t` of that run: `step` on the cars the earlier ticks left. */
  function TickOf(ds: seq<Draw>, t: nat, L: int, target: int): (r: Tick)
    requires t < |ds|
    ensures |r.cars| <= t + 1
    decreases t, 1
  {
    StepSpec(Run(ds, t, L, target), L, target, ds[t].coin, ds[t].sides)
  }

  /** `hist` after the first `n` ticks: the cells of the cars after each. */
  function History(ds: seq<Draw>, n: nat, L: int, target: int): (h: seq<seq<Cell>>)
    requires n <= |ds|
    ensures |h| == n
  {
    if n == 0 then [] else History(ds, n - 1, L, target) + [Positions(Run(ds, n, L, target))]
  }

  /** The density `rho = N / L` of a measured tick, with the module-level L;
      it never exceeds 1 while N <= L. */
  function Density(n: nat): (rho: real)
    ensures 0.0 <= rho
    ensures n <= HalfExtent ==> rho <= 1.0
  {
    if HalfExtent > 0 then (n as real) / (HalfExtent as real) else 0.0
  }

  /** The flow `rho * vavg` of a measured tick, where the average velocity
      `vavg` is M / N, or 0 when no car is in the segment. In exact arithmetic
      that product is M / L whenever N > 0 (`Sample` computes it the source's
      way and is proved equal). With M <= N it lies between 0 and rho. */
  function Flow(n: nat, m: nat): (j: real)
    ensures m <= n ==> 0.0 <= j <= Density(n)
  {
    if n > 0 && HalfExtent > 0 then (m as real) / (HalfExtent as real) else 0.0
  }

  /** `rhos` and `flows` hold, in order, the (rho, flow) samples of ticks
      `from` up to `t - 1` of the run. */
  ghost predicate Sampled(ds: seq<Draw>, from: nat, t: nat, rhos: seq<real>, flows: seq<real>)
    requires from <= t <= |ds|
  {
    |rhos| == |flows| == t - from &&
    forall q :: 0 <= q < t - from ==>
      var tick := TickOf(ds, from + q, HalfExtent, NumCarsTarget);
      rhos[q] == Density(tick.n) && flows[q] == Flow(tick.n, tick.m)
  }
}
