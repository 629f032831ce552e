/** Properties of one tick of the lattice traffic engine (lab_4/lab4.py, `step`
    and `maybe_spawn_one`), proved about the pure rules of module TrafficRules:
    mutual exclusion of cells, the population bound, coordinates staying on the
    ring, the re-arming of `turned`, and 0 <= M <= N <= L. */
module TrafficProofs {
  import opened TrafficRules

  // ------------------------------------------------------ one car, rule by rule

  /** `next_forward` changes exactly one coordinate, by one, on the axis the
      direction names: up and right increase it, down and left decrease it. */
  lemma ForwardMovesOne(x: int, y: int, d: Dir)
    ensures Abs(Forward(x, y, d).0 - x) + Abs(Forward(x, y, d).1 - y) == 1
    ensures Vertical(d) <==> Forward(x, y, d).0 == x
    ensures (d == Up || d == Right) <==> Forward(x, y, d).0 + Forward(x, y, d).1 == x + y + 1
  {
  }

  /** A coordinate that went past L on the travel axis re-enters at the
      opposite extreme; any other cell is left as it is. */
  lemma WrapReenters(n: Cell, d: Dir, L: int)
    ensures !PastEdge(n, d, L) ==> Wrap(n, d, L) == n
    ensures PastEdge(n, d, L) && Vertical(d) ==> Wrap(n, d, L) == (n.0, if d == Up then -L else L)
    ensures PastEdge(n, d, L) && !Vertical(d) ==> Wrap(n, d, L) == (if d == Right then -L else L, n.1)
  {
  }

  /** A car on the ring targets a cell on the ring, on its own lane, and, once
      L >= 1, never its own cell. */
  lemma TargetOnLattice(c: CarState, L: int)
    ensures InLattice(Pos(c), L) ==> InLattice(Target(c, L), L)
    ensures InLattice(Pos(c), L) && L >= 1 ==> Target(c, L) != Pos(c)
    ensures Vertical(c.dir) ==> Target(c, L).0 == c.x
    ensures !Vertical(c.dir) ==> Target(c, L).1 == c.y
  {
    ForwardMovesOne(c.x, c.y, c.dir);
    WrapReenters(Forward(c.x, c.y, c.dir), c.dir, L);
  }

  /** The turn never moves the car; when it fires it rotates the direction a
      quarter turn to the left and sets `turned`; otherwise the car is unchanged. */
  lemma TurnRule(c: CarState)
    ensures Pos(Turn(c)) == Pos(c)
    ensures Fires(c) ==> Turn(c).dir == LeftOf(c.dir) && Turn(c).turned
    ensures !Fires(c) ==> Turn(c) == c
  {
  }

  /** Two turns make a U-turn and four turns the full circle, so every turn
      goes the same way round: up, left, down, right, as in `step`. */
  lemma LeftTurns(d: Dir)
    ensures LeftOf(LeftOf(d)) == Opposite(d)
    ensures LeftOf(LeftOf(LeftOf(LeftOf(d)))) == d
  {
  }

  /** Outside the box the re-arm clears `turned` and nothing else; inside it
      changes nothing. */
  lemma RearmRule(c: CarState)
    ensures !InBox(c.x, c.y) ==> Rearm(c) == c.(turned := false)
    ensures InBox(c.x, c.y) ==> Rearm(c) == c
  {
  }

  /** One iteration of the loop of `step`: the car moves to its target exactly
      when that cell is free, and then the set trades the old cell for the new
      one; it keeps the direction the turn gave it; it ends with `turned` set
      only inside the box; it counts as moved exactly when it started in the
      segment and changed cell. */
  lemma ProcessCarRule(c: CarState, occ: set<Cell>, L: int)
    ensures var r := ProcessCar(c, occ, L); var n := Target(Turn(c), L);
      && (n !in occ ==> Pos(r.car) == n && r.occ == occ - {Pos(c)} + {n})
      && (n in occ ==> Pos(r.car) == Pos(c) && r.occ == occ)
      && r.car.dir == Turn(c).dir
      && (r.car.turned <==> Turn(c).turned && InBox(r.car.x, r.car.y))
      && (r.moved <==> InSegment(c.x, c.y) && Pos(r.car) != Pos(c))
  {
    TurnRule(c);
  }

  // ------------------------------------------------- the loop, car by car

  /** Running more iterations of the loop of `step` never rewrites the cars and
      flags already processed: the loop neither removes nor reorders cars. */
  lemma {:induction false} ProcessPrefixStable(cs: seq<CarState>, occ: set<Cell>, L: int, k: nat, n: nat)
    requires k <= n <= |cs|
    ensures ProcessPrefix(cs, occ, L, n).cars[..k] == ProcessPrefix(cs, occ, L, k).cars
    ensures ProcessPrefix(cs, occ, L, n).moved[..k] == ProcessPrefix(cs, occ, L, k).moved
    decreases n
  {
    if n > k {
      ProcessPrefixStable(cs, occ, L, k, n - 1);
      var p := ProcessPrefix(cs, occ, L, n - 1);
      var o := ProcessCar(cs[n - 1], p.occ, L);
      AppendKeepsPrefix(p.cars, o.car, k);
      AppendKeepsPrefix(p.moved, o.moved, k);
    }
  }

  lemma AppendKeepsPrefix<T>(s: seq<T>, x: T, k: nat)
    requires k <= |s|
    ensures (s + [x])[..k] == s[..k]
  {
    assert forall i :: 0 <= i < k ==> (s + [x])[..k][i] == s[..k][i];
  }

  /** Car `k` after the loop is car `k` of the list processed against the
      occupancy set that the cars before it left behind. */
  lemma ProcessPrefixAt(cs: seq<CarState>, occ: set<Cell>, L: int, n: nat, k: nat)
    requires k < n <= |cs|
    ensures var o := ProcessCar(cs[k], ProcessPrefix(cs, occ, L, k).occ, L);
      ProcessPrefix(cs, occ, L, n).cars[k] == o.car && ProcessPrefix(cs, occ, L, n).moved[k] == o.moved
  {
    ProcessPrefixStable(cs, occ, L, k + 1, n);
    assert ProcessPrefix(cs, occ, L, n).cars[k] == ProcessPrefix(cs, occ, L, n).cars[..k + 1][k];
    assert ProcessPrefix(cs, occ, L, n).moved[k] == ProcessPrefix(cs, occ, L, n).moved[..k + 1][k];
  }

  // ------------------------------------------------------ mutual exclusion

  /** Replacing car `k` by a car on its own cell or on a cell nobody occupies
      keeps the cells pairwise distinct and updates the occupancy set as
      `step` does: discard the old cell, add the new one. */
  lemma MoveOne(cur: seq<CarState>, k: nat, c: CarState)
    requires k < |cur| && Distinct(Positions(cur))
    requires Pos(c) == Pos(cur[k]) || Pos(c) !in Occupied(cur)
    ensures Distinct(Positions(cur[k := c]))
    ensures Pos(c) == Pos(cur[k]) ==> Occupied(cur[k := c]) == Occupied(cur)
    ensures Pos(c) != Pos(cur[k]) ==>
      Occupied(cur[k := c]) == Occupied(cur) - {Pos(cur[k])} + {Pos(c)}
  {
    var nxt := cur[k := c];
    forall i, j | 0 <= i < j < |nxt| ensures Positions(nxt)[i] != Positions(nxt)[j] {
      if i != k && j != k {
        assert Positions(cur)[i] != Positions(cur)[j];
      } else if Pos(c) != Pos(cur[k]) {
        var other := if i == k then j else i;
        assert Pos(cur[other]) in Occupied(cur);
      } else {
        assert Positions(cur)[i] != Positions(cur)[j];
      }
    }
    if Pos(c) != Pos(cur[k]) {
      var want := Occupied(cur) - {Pos(cur[k])} + {Pos(c)};
      forall p | p in Occupied(nxt) ensures p in want {
        var i :| 0 <= i < |nxt| && Pos(nxt[i]) == p;
        if i != k {
          assert Positions(cur)[i] != Positions(cur)[k];
          assert Pos(cur[i]) in Occupied(cur);
        }
      }
      forall p | p in want ensures p in Occupied(nxt) {
        if p == Pos(c) {
          assert Pos(nxt[k]) == p;
        } else {
          var i :| 0 <= i < |cur| && Pos(cur[i]) == p;
          assert i != k && Pos(nxt[i]) == p;
        }
      }
    } else {
      forall p | p in Occupied(nxt) ensures p in Occupied(cur) {
        var i :| 0 <= i < |nxt| && Pos(nxt[i]) == p;
        assert Pos(cur[i]) == p;
      }
      forall p | p in Occupied(cur) ensures p in Occupied(nxt) {
        var i :| 0 <= i < |cur| && Pos(cur[i]) == p;
        assert Pos(nxt[i]) == p;
      }
    }
  }

  /** One iteration of the loop of `step` on car `c`, between the cars
      already processed and the ones still to come: the car stays, or moves
      to a cell nobody occupies while the set trades its old cell for the new. */
  lemma MoveStep(done: seq<CarState>, c: CarState, rest: seq<CarState>, occ: set<Cell>, o: Move)
    requires Distinct(Positions(done + [c] + rest)) && occ == Occupied(done + [c] + rest)
    requires (Pos(o.car) == Pos(c) && o.occ == occ) ||
      (Pos(o.car) !in occ && o.occ == occ - {Pos(c)} + {Pos(o.car)})
    ensures Distinct(Positions(done + [o.car] + rest)) && o.occ == Occupied(done + [o.car] + rest)
  {
    var cur := done + [c] + rest;
    assert cur[|done|] == c;
    MoveOne(cur, |done|, o.car);
    assert cur[|done| := o.car] == done + [o.car] + rest;
  }

  /** Throughout the loop of `step`, the occupancy set is exactly the set of
      current cells (processed cars followed by the ones still to come), and no
      two cars share a cell. */
  lemma {:induction false} ProcessPrefixExclusive(cs: seq<CarState>, occ: set<Cell>, L: int, n: nat)
    requires n <= |cs| && Distinct(Positions(cs)) && occ == Occupied(cs)
    ensures var p := ProcessPrefix(cs, occ, L, n);
      Distinct(Positions(p.cars + cs[n..])) && p.occ == Occupied(p.cars + cs[n..])
    decreases n
  {
    if n == 0 {
      assert ProcessPrefix(cs, occ, L, 0).cars + cs[0..] == cs;
    } else {
      ProcessPrefixExclusive(cs, occ, L, n - 1);
      var p := ProcessPrefix(cs, occ, L, n - 1);
      assert cs[n - 1..] == [cs[n - 1]] + cs[n..];
      assert p.cars + cs[n - 1..] == p.cars + [cs[n - 1]] + cs[n..];
      ProcessCarRule(cs[n - 1], p.occ, L);
      MoveStep(p.cars, cs[n - 1], cs[n..], p.occ, ProcessCar(cs[n - 1], p.occ, L));
    }
  }

  /** Every car that starts the loop on the ring ends it on the ring. */
  lemma {:induction false} ProcessPrefixOnLattice(cs: seq<CarState>, occ: set<Cell>, L: int, n: nat)
    requires n <= |cs| && forall k :: 0 <= k < |cs| ==> InLattice(Pos(cs[k]), L)
    ensures forall k :: 0 <= k < n ==> InLattice(Pos(ProcessPrefix(cs, occ, L, n).cars[k]), L)
    decreases n
  {
    if n > 0 {
      ProcessPrefixOnLattice(cs, occ, L, n - 1);
      var p := ProcessPrefix(cs, occ, L, n - 1);
      var o := ProcessCar(cs[n - 1], p.occ, L);
      TurnRule(cs[n - 1]);
      TargetOnLattice(Turn(cs[n - 1]), L);
      ProcessCarRule(cs[n - 1], p.occ, L);
      assert InLattice(Target(Turn(cs[n - 1]), L), L);
      assert InLattice(Pos(o.car), L);
    }
  }

  // ---------------------------------------------------------- counting

  /** If a flag is set only for a car that is in the segment, the number of set
      flags is at most the number of cars in the segment. */
  lemma {:induction false} CountTrueWithinSegment(moved: seq<bool>, cs: seq<CarState>, n: nat)
    requires n <= |moved| == |cs|
    requires forall k :: 0 <= k < |cs| && moved[k] ==> InSegment(cs[k].x, cs[k].y)
    ensures CountTrue(moved, n) <= CountSegment(cs, n)
  {
    if n > 0 {
      CountTrueWithinSegment(moved, cs, n - 1);
    }
  }

  /** The y-coordinates of the first `n` cars that are in the segment. */
  ghost function SegmentYs(cs: seq<CarState>, n: nat): set<int>
    requires n <= |cs|
  {
    set k | 0 <= k < n && InSegment(cs[k].x, cs[k].y) :: cs[k].y
  }

  lemma {:induction false} CountSegmentIsDistinctYs(cs: seq<CarState>, n: nat)
    requires n <= |cs| && Distinct(Positions(cs))
    ensures CountSegment(cs, n) == |SegmentYs(cs, n)|
  {
    if n > 0 {
      CountSegmentIsDistinctYs(cs, n - 1);
      var last := cs[n - 1];
      if InSegment(last.x, last.y) {
        assert SegmentYs(cs, n) == SegmentYs(cs, n - 1) + {last.y};
        forall k | 0 <= k < n - 1 && InSegment(cs[k].x, cs[k].y) ensures cs[k].y != last.y {
          assert Positions(cs)[k] != Positions(cs)[n - 1];
        }
        assert last.y !in SegmentYs(cs, n - 1);
      } else {
        assert SegmentYs(cs, n) == SegmentYs(cs, n - 1);
      }
    }
  }

  lemma SubsetCard(a: set<int>, b: set<int>)
    requires a <= b
    ensures |a| <= |b|
  {
    assert b == a + (b - a);
    assert a * (b - a) == {};
  }

  /** The integers lo, lo + 1, ..., hi - 1. */
  ghost function Range(lo: int, hi: int): (r: set<int>)
    ensures forall y :: y in r <==> lo <= y < hi
    ensures |r| == if lo <= hi then hi - lo else 0
    decreases hi - lo
  {
    if lo >= hi then {} else Range(lo, hi - 1) + {hi - 1}
  }

  /** The segment has L cells, so with cells pairwise distinct at most L cars
      are in it: N <= L, the density N / L never exceeds 1. */
  lemma SegmentCountBound(cs: seq<CarState>)
    requires Distinct(Positions(cs))
    ensures CountSegment(cs, |cs|) <= HalfExtent
  {
    CountSegmentIsDistinctYs(cs, |cs|);
    SubsetCard(SegmentYs(cs, |cs|), Range(1, HalfExtent + 1));
  }

  // ------------------------------------------------------------ spawning

  /** A spawn appends its car on a free cell and records that cell, so the
      occupancy set stays the set of car cells and the cells stay distinct. */
  lemma SpawnKeepsExclusive(cs: seq<CarState>, L: int, target: int, coin: bool, sides: Tries)
    requires Distinct(Positions(cs))
    ensures var sp := Spawn(cs, Occupied(cs), L, target, coin, sides);
      Distinct(Positions(sp.cars)) && sp.occ == Occupied(sp.cars)
  {
    var sp := Spawn(cs, Occupied(cs), L, target, coin, sides);
    if sp != Spawned(cs, Occupied(cs)) {
      var k :| 0 <= k < |sides| && Pos(EntryPoint(sides[k], L)) !in Occupied(cs) &&
        sp == Spawned(cs + [EntryPoint(sides[k], L)], Occupied(cs) + {Pos(EntryPoint(sides[k], L))});
      var e := EntryPoint(sides[k], L);
      forall i, j | 0 <= i < j < |sp.cars| ensures Positions(sp.cars)[i] != Positions(sp.cars)[j] {
        if j < |cs| {
          assert Positions(cs)[i] != Positions(cs)[j];
        } else {
          assert Pos(cs[i]) in Occupied(cs);
        }
      }
      assert Occupied(sp.cars) == Occupied(cs) + {Pos(e)} by {
        forall p | p in Occupied(sp.cars) ensures p in Occupied(cs) + {Pos(e)} {
          var i :| 0 <= i < |sp.cars| && Pos(sp.cars[i]) == p;
          if i < |cs| { assert Pos(cs[i]) in Occupied(cs); }
        }
        forall p | p in Occupied(cs) + {Pos(e)} ensures p in Occupied(sp.cars) {
          if p == Pos(e) {
            assert Pos(sp.cars[|cs|]) == p;
          } else {
            var i :| 0 <= i < |cs| && Pos(cs[i]) == p;
            assert Pos(sp.cars[i]) == p;
          }
        }
      }
    }
  }

  // ------------------------------------------------------------ one tick

  /** No two cars share a cell after a tick if none did before it. */
  lemma StepKeepsExclusive(cs: seq<CarState>, L: int, target: int, coin: bool, sides: Tries)
    requires Distinct(Positions(cs))
    ensures Distinct(Positions(StepSpec(cs, L, target, coin, sides).cars))
  {
    var sp := Spawn(cs, Occupied(cs), L, target, coin, sides);
    SpawnKeepsExclusive(cs, L, target, coin, sides);
    ProcessPrefixExclusive(sp.cars, sp.occ, L, |sp.cars|);
    var p := ProcessPrefix(sp.cars, sp.occ, L, |sp.cars|);
    assert p.cars + sp.cars[|sp.cars|..] == p.cars;
  }

  /** With L >= 1, a tick keeps every car on the ring [-L, L] x [-L, L]. */
  lemma StepKeepsOnLattice(cs: seq<CarState>, L: int, target: int, coin: bool, sides: Tries)
    requires L >= 1
    requires forall k :: 0 <= k < |cs| ==> InLattice(Pos(cs[k]), L)
    ensures var r := StepSpec(cs, L, target, coin, sides);
      forall k :: 0 <= k < |r.cars| ==> InLattice(Pos(r.cars[k]), L)
  {
    var sp := Spawn(cs, Occupied(cs), L, target, coin, sides);
    assert forall k :: 0 <= k < |sp.cars| ==> InLattice(Pos(sp.cars[k]), L) by {
      if sp != Spawned(cs, Occupied(cs)) {
        var k :| 0 <= k < |sides| &&
          sp == Spawned(cs + [EntryPoint(sides[k], L)], Occupied(cs) + {Pos(EntryPoint(sides[k], L))});
      }
    }
    ProcessPrefixOnLattice(sp.cars, sp.occ, L, |sp.cars|);
  }

  /** The population never exceeds the target: a tick adds at most one car and
      only while the population is below target. */
  lemma StepKeepsPopulation(cs: seq<CarState>, L: int, target: int, coin: bool, sides: Tries)
    requires |cs| <= target
    ensures |cs| <= |StepSpec(cs, L, target, coin, sides).cars| <= target
  {
  }

  /** A tick, given the cars and occupancy its spawn leaves. */
  lemma StepSpecUnfold(cs: seq<CarState>, L: int, target: int, coin: bool, sides: Tries,
                       spawned: seq<CarState>, occ: set<Cell>)
    requires Spawn(cs, Occupied(cs), L, target, coin, sides) == Spawned(spawned, occ)
    ensures var p := ProcessPrefix(spawned, occ, L, |spawned|);
      StepSpec(cs, L, target, coin, sides) == Tick(p.cars, CountSegment(spawned, |spawned|), CountTrue(p.moved, |p.moved|))
  {
  }

  /** After a tick, every car outside the box has `turned` cleared, whatever
      the flags were before. */
  lemma StepRearms(cs: seq<CarState>, L: int, target: int, coin: bool, sides: Tries)
    ensures var r := StepSpec(cs, L, target, coin, sides);
      forall k :: 0 <= k < |r.cars| && !InBox(r.cars[k].x, r.cars[k].y) ==> !r.cars[k].turned
  {
    var sp := Spawn(cs, Occupied(cs), L, target, coin, sides);
    var r := StepSpec(cs, L, target, coin, sides);
    forall k | 0 <= k < |r.cars| && !InBox(r.cars[k].x, r.cars[k].y) ensures !r.cars[k].turned {
      ProcessPrefixAt(sp.cars, sp.occ, L, |sp.cars|, k);
      ProcessCarRule(sp.cars[k], ProcessPrefix(sp.cars, sp.occ, L, k).occ, L);
    }
  }

  /** The moved count M never exceeds the segment count N, and, with cells
      pairwise distinct, N never exceeds the segment length L. */
  lemma StepCounts(cs: seq<CarState>, L: int, target: int, coin: bool, sides: Tries)
    requires Distinct(Positions(cs))
    ensures var r := StepSpec(cs, L, target, coin, sides); r.m <= r.n <= HalfExtent
  {
    var sp := Spawn(cs, Occupied(cs), L, target, coin, sides);
    var p := ProcessPrefix(sp.cars, sp.occ, L, |sp.cars|);
    forall k | 0 <= k < |sp.cars| && p.moved[k] ensures InSegment(sp.cars[k].x, sp.cars[k].y) {
      ProcessPrefixAt(sp.cars, sp.occ, L, |sp.cars|, k);
      ProcessCarRule(sp.cars[k], ProcessPrefix(sp.cars, sp.occ, L, k).occ, L);
    }
    CountTrueWithinSegment(p.moved, sp.cars, |sp.cars|);
    SpawnKeepsExclusive(cs, L, target, coin, sides);
    SegmentCountBound(sp.cars);
  }

  // ------------------------------------------------------------ a whole run

  /** The tick invariants: cells pairwise distinct, every car on the ring,
      population within target, `turned` clear outside the box. */
  ghost predicate Healthy(cs: seq<CarState>, L: int, target: int) {
    && Distinct(Positions(cs))
    && (forall k :: 0 <= k < |cs| ==> InLattice(Pos(cs[k]), L))
    && |cs| <= target
    && forall k :: 0 <= k < |cs| && !InBox(cs[k].x, cs[k].y) ==> !cs[k].turned
  }

  lemma StepKeepsHealthy(cs: seq<CarState>, L: int, target: int, coin: bool, sides: Tries)
    requires L >= 1 && Healthy(cs, L, target)
    ensures Healthy(StepSpec(cs, L, target, coin, sides).cars, L, target)
  {
    StepKeepsExclusive(cs, L, target, coin, sides);
    StepKeepsOnLattice(cs, L, target, coin, sides);
    StepKeepsPopulation(cs, L, target, coin, sides);
    StepRearms(cs, L, target, coin, sides);
  }

  /** From an empty ring, every tick of a run keeps the tick invariants. */
  lemma {:induction false} RunHealthy(ds: seq<Draw>, n: nat, L: int, target: int)
    requires n <= |ds| && L >= 1 && target >= 0
    ensures Healthy(Run(ds, n, L, target), L, target)
    decreases n
  {
    if n > 0 {
      RunHealthy(ds, n - 1, L, target);
      StepKeepsHealthy(Run(ds, n - 1, L, target), L, target, ds[n - 1].coin, ds[n - 1].sides);
    }
  }

  /** Every tick of a run from no cars ends healthy, with M <= N <= L. */
  lemma TickHealthy(ds: seq<Draw>, t: nat)
    requires t < |ds|
    ensures var tick := TickOf(ds, t, HalfExtent, NumCarsTarget);
      Healthy(tick.cars, HalfExtent, NumCarsTarget) && tick.m <= tick.n <= HalfExtent
  {
    var before := Run(ds, t, HalfExtent, NumCarsTarget);
    RunHealthy(ds, t, HalfExtent, NumCarsTarget);
    StepKeepsHealthy(before, HalfExtent, NumCarsTarget, ds[t].coin, ds[t].sides);
    StepCounts(before, HalfExtent, NumCarsTarget, ds[t].coin, ds[t].sides);
  }

  /** The counts of every tick of a run from no cars: M <= N <= L. */
  lemma TickCounts(ds: seq<Draw>, t: nat)
    requires t < |ds|
    ensures var tick := TickOf(ds, t, HalfExtent, NumCarsTarget); tick.m <= tick.n <= HalfExtent
  {
    TickHealthy(ds, t);
  }

  /** Record `t` of the history is the cells of the cars after tick `t`. */
  lemma {:induction false} HistoryAt(ds: seq<Draw>, n: nat, L: int, target: int, t: nat)
    requires t < n <= |ds|
    ensures History(ds, n, L, target)[t] == Positions(Run(ds, t + 1, L, target))
    decreases n
  {
    if t < n - 1 {
      HistoryAt(ds, n - 1, L, target, t);
    }
  }

  /** Every record of the history has at most `target` cars, on pairwise
      distinct cells of the ring. */
  lemma HistoryHealthy(ds: seq<Draw>, n: nat, t: nat)
    requires t < n <= |ds|
    ensures var h := History(ds, n, HalfExtent, NumCarsTarget)[t];
      |h| <= NumCarsTarget && Distinct(h) && forall q :: 0 <= q < |h| ==> InLattice(h[q], HalfExtent)
  {
    HistoryAt(ds, n, HalfExtent, NumCarsTarget, t);
    RunHealthy(ds, t + 1, HalfExtent, NumCarsTarget);
  }

  /** Appending the sample of tick `t` to the samples of ticks `from` to
      `t - 1` gives the samples of ticks `from` to `t`. */
  lemma SampledSnoc(ds: seq<Draw>, from: nat, t: nat, rhos: seq<real>, flows: seq<real>, rho: real, flow: real)
    requires from <= t < |ds| && Sampled(ds, from, t, rhos, flows)
    requires rho == Density(TickOf(ds, t, HalfExtent, NumCarsTarget).n)
    requires flow == Flow(TickOf(ds, t, HalfExtent, NumCarsTarget).n, TickOf(ds, t, HalfExtent, NumCarsTarget).m)
    ensures Sampled(ds, from, t + 1, rhos + [rho], flows + [flow])
  {
    var rhos', flows' := rhos + [rho], flows + [flow];
    forall q | 0 <= q < t + 1 - from
      ensures var tick := TickOf(ds, from + q, HalfExtent, NumCarsTarget);
        rhos'[q] == Density(tick.n) && flows'[q] == Flow(tick.n, tick.m)
    {
      if q < t - from {
        assert rhos'[q] == rhos[q] && flows'[q] == flows[q];
      }
    }
  }

  /** Every measured sample has 0 <= flow <= rho <= 1. */
  lemma SamplesBounded(ds: seq<Draw>, from: nat, t: nat, rhos: seq<real>, flows: seq<real>)
    requires from <= t <= |ds| && Sampled(ds, from, t, rhos, flows)
    ensures forall q :: 0 <= q < |rhos| ==> 0.0 <= flows[q] <= rhos[q] <= 1.0
  {
    forall q | 0 <= q < |rhos| ensures 0.0 <= flows[q] <= rhos[q] <= 1.0 {
      TickCounts(ds, from + q);
    }
  }
}
