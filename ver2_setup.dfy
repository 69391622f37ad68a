/**
 * ver2.cpp: the configuration the game runs on, the car record, the lane
 * registry (`cars_on_lane[]` and `*free_lanes`), `change_car_position` and
 * `init_cars`.
 *
 * Lanes have no direction of their own in this version: a car keeps the
 * direction it was given when it was set up. Cars are never hidden, so every
 * car stands on a lane at all times.
 */
module Setup2 {
  import opened Common
  import opened LaneCounts

  const MAX_NUM := 70
  const CAR_HEIGHT := 2
  const CAR_WIDTH := 4

  /** The fields of `GameConfig` the simulation reads (the file name is left out). */
  datatype Config = Config(
    jumpDelay: int,
    carNumber: int,
    roadLanes: int,
    minCarDelay: int,
    maxCarDelay: int,
    width: int,
    height: int)
  {
    /**
     * What the code takes for granted of a configuration: the board fits the
     * fixed arrays, there is at least one lane, and `max_car_delay` exceeds
     * `min_car_delay` (the difference is used as a modulus).
     */
    predicate Valid()
    {
      && 3 <= width <= MAX_NUM
      && 1 <= height <= MAX_NUM
      && carNumber >= 0
      && roadLanes >= 1
      && minCarDelay < maxCarDelay
    }
  }

  /** One element of the `cars` array; `direction` is 1 (to the right) or -1 (to the left). */
  datatype Car = Car(x: int, y: int, direction: int, delay: int, lastMoveTime: int)

  /** Every car stands on its row for the registry. */
  function RowOf(c: Car): Option<int>
  {
    Some(c.y)
  }

  predicate Heading(c: Car)
  {
    c.direction == 1 || c.direction == -1
  }

  predicate AllHeaded(cars: seq<Car>)
  {
    forall i :: 0 <= i < |cars| ==> Heading(cars[i])
  }

  /** All the cars of this version stand on some row. */
  lemma {:induction false} AllResident(cars: seq<Car>)
    ensures Resident(cars, RowOf) == |cars|
  {
    if cars != [] {
      AllResident(cars[..|cars| - 1]);
    }
  }

  class Lanes {
    /** `roads_pos[0 .. road_lanes)`: the board row of the top of each lane. */
    const roadsPos: seq<int>
    /** `cars_on_lane[]`. */
    const carsOnLane: array<int>
    /** `free_lanes`. */
    var freeLanes: int

    /**
     * Lanes are distinct rows listed top to bottom, no counter is negative,
     * and `freeLanes` is the number of empty lanes.
     */
    ghost predicate Valid()
      reads this, carsOnLane
    {
      && |roadsPos| == carsOnLane.Length >= 1
      && StrictlyIncreasing(roadsPos)
      && (forall k :: 0 <= k < carsOnLane.Length ==> carsOnLane[k] >= 0)
      && freeLanes == ZeroLanes(carsOnLane[..])
    }

    /** The registry as `main` sets it up: every counter zero and `free_lanes = road_lanes`. */
    constructor (roadsPos: seq<int>, carsOnLane: array<int>)
      requires |roadsPos| >= 1 && carsOnLane.Length == |roadsPos|
      requires StrictlyIncreasing(roadsPos)
      requires forall k :: 0 <= k < carsOnLane.Length ==> carsOnLane[k] == 0
      ensures Valid()
      ensures this.roadsPos == roadsPos && this.carsOnLane == carsOnLane
      ensures freeLanes == |roadsPos|
    {
      this.roadsPos := roadsPos;
      this.carsOnLane := carsOnLane;
      freeLanes := |roadsPos|;
      new;
      ZeroLanesAllZero(carsOnLane[..]);
    }

    /**
     * change_car_position: puts the car on the lowest empty lane (on lane
     * `laneDraw % road_lanes` when none is empty), moves it to that lane's
     * top row and counts it on that lane; its direction is kept.
     */
    method ChangeCarPosition(c: Car, laneDraw: nat) returns (c': Car, ghost lane: nat)
      requires Valid()
      modifies carsOnLane, this`freeLanes
      ensures Valid()
      ensures lane == ChosenLane(old(carsOnLane[..]), laneDraw)
      ensures carsOnLane[..] == old(carsOnLane[..])[lane := old(carsOnLane[lane]) + 1]
      ensures c' == c.(y := roadsPos[lane] + 1)
    {
      ghost var before := carsOnLane[..];
      var found := -1;
      var i := 0;
      while i < carsOnLane.Length
        invariant 0 <= i <= carsOnLane.Length
        invariant found == -1 ==> forall k :: 0 <= k < i ==> carsOnLane[k] != 0
        invariant found != -1 ==> found == IndexOf(before, 0)
      {
        if carsOnLane[i] == 0 {
          found := i;
          break;
        }
        i := i + 1;
      }
      var l: int;
      if found == -1 {
        l := laneDraw % carsOnLane.Length;
      } else {
        l := found;
        if carsOnLane[l] == 0 {
          freeLanes := freeLanes - 1;
        }
      }
      lane := l;
      c' := c.(y := roadsPos[l] + 1);
      ZeroLanesUpdate(carsOnLane[..], l, carsOnLane[l] + 1);
      carsOnLane[l] := carsOnLane[l] + 1;
    }

    /**
     * The first half of a lane change in `update_car_pos`: the car is taken
     * off lane `k`, which becomes free when that was its last car.
     */
    method LeaveLane(k: nat)
      requires Valid() && k < carsOnLane.Length && carsOnLane[k] >= 1
      modifies carsOnLane, this`freeLanes
      ensures Valid()
      ensures carsOnLane[..] == old(carsOnLane[..])[k := old(carsOnLane[k]) - 1]
    {
      ZeroLanesUpdate(carsOnLane[..], k, carsOnLane[k] - 1);
      carsOnLane[k] := carsOnLane[k] - 1;
      if carsOnLane[k] == 0 {
        freeLanes := freeLanes + 1;
      }
    }
  }

  /** The registry's counters are exactly the cars on each lane, and every car is on a lane. */
  ghost predicate Coupled(lanes: Lanes, cars: seq<Car>)
    reads lanes, lanes.carsOnLane
  {
    lanes.Valid() && Consistent(lanes.roadsPos, lanes.carsOnLane[..], lanes.freeLanes, cars, RowOf)
  }

  /** The lane car `c` stands on, whose counter includes it. */
  ghost predicate RegisteredOn(lanes: Lanes, c: Car, k: int)
    reads lanes, lanes.carsOnLane
  {
    0 <= k < |lanes.roadsPos| && k < lanes.carsOnLane.Length
    && lanes.roadsPos[k] + 1 == c.y && lanes.carsOnLane[k] >= 1
  }

  /** Under a coupled registry every car stands on a lane that counts it. */
  lemma CoupledRegistered(lanes: Lanes, cars: seq<Car>, i: nat)
    requires Coupled(lanes, cars)
    requires i < |cars|
    ensures exists k :: RegisteredOn(lanes, cars[i], k)
  {
    assert RowOf(cars[i]).Some?;
    var k :| 0 <= k < |lanes.roadsPos| && lanes.roadsPos[k] + 1 == cars[i].y;
    MemberCounted(cars, RowOf, i, lanes.roadsPos[k] + 1);
    assert RegisteredOn(lanes, cars[i], k);
  }

  /** Under a coupled registry the lane counters add up to the number of cars. */
  lemma CountersMatchCars(lanes: Lanes, cars: seq<Car>)
    requires Coupled(lanes, cars)
    ensures Sum(lanes.carsOnLane[..]) == |cars|
  {
    CountersSumToResidentCars(lanes.roadsPos, lanes.carsOnLane[..], lanes.freeLanes, cars, RowOf);
    AllResident(cars);
  }

  /**
   * The values `rand()` returns while `init_cars` sets up one car: its
   * column, its speed, its direction and, when no lane is empty, its lane.
   */
  datatype InitDraws = InitDraws(x: nat, speed: nat, heading: nat, lane: nat)

  /**
   * A car as `init_cars` sets it up: in columns 2 .. width - 1, with a delay
   * in [min_car_delay, max_car_delay), last moved at the start, and driving
   * right on an even draw and left on an odd one.
   */
  predicate StartsWell(cfg: Config, c: Car, now: int, d: InitDraws)
  {
    && 2 <= c.x <= cfg.width - 1
    && cfg.minCarDelay <= c.delay < cfg.maxCarDelay
    && c.lastMoveTime == now
    && c.direction == (if d.heading % 2 == 0 then 1 else -1)
  }

  /** The fields `init_cars` sets before the car is placed on a lane. */
  function NewCar(cfg: Config, now: int, d: InitDraws): (c: Car)
    requires cfg.Valid()
    ensures StartsWell(cfg, c, now, d)
  {
    Car(x := d.x % (cfg.width - 2) + 2,
        y := 0,
        direction := if d.heading % 2 == 0 then 1 else -1,
        delay := d.speed % (cfg.maxCarDelay - cfg.minCarDelay) + cfg.minCarDelay,
        lastMoveTime := now)
  }

  /**
   * What `init_cars` promises of the cars `placed` so far: each started as
   * its draws say, and while there were empty lanes the cars took the lanes
   * one by one in order; once every lane holds a car, each further car goes
   * to the lane its draw picks modulo the number of lanes.
   */
  ghost predicate PlacedInOrder(cfg: Config, roadsPos: seq<int>, counts: seq<int>,
                                placed: seq<Car>, now: int, draws: seq<InitDraws>)
  {
    && |placed| <= |draws| && |counts| == |roadsPos|
    && AllHeaded(placed)
    && (forall j {:trigger placed[j]} :: 0 <= j < |placed| ==> StartsWell(cfg, placed[j], now, draws[j]))
    && (forall j {:trigger placed[j]} :: 0 <= j < |placed| && j < |roadsPos| ==> placed[j].y == roadsPos[j] + 1)
    && (forall j {:trigger placed[j]} :: 0 < |roadsPos| <= j < |placed| ==>
          placed[j].y == roadsPos[draws[j].lane % |roadsPos|] + 1)
    && (|placed| <= |roadsPos| ==>
          forall k :: 0 <= k < |roadsPos| ==> counts[k] == if k < |placed| then 1 else 0)
    && (|roadsPos| <= |placed| ==> forall k :: 0 <= k < |roadsPos| ==> counts[k] >= 1)
  }

  /** The state after `init_cars` has placed the cars `placed`: the registry counts them, and they are placed in order. */
  ghost predicate InitProgress(cfg: Config, roadsPos: seq<int>, counts: seq<int>, free: int,
                               placed: seq<Car>, now: int, draws: seq<InitDraws>)
  {
    Consistent(roadsPos, counts, free, placed, RowOf) && PlacedInOrder(cfg, roadsPos, counts, placed, now, draws)
  }

  /** A car that joins lane `lane` is counted on that lane only. */
  lemma CountedOnItsLane(roadsPos: seq<int>, c: Car, lane: nat)
    requires StrictlyIncreasing(roadsPos) && lane < |roadsPos| && c.y == roadsPos[lane] + 1
    ensures forall k :: 0 <= k < |roadsPos| ==> Counted(RowOf, c, roadsPos[k] + 1) == if k == lane then 1 else 0
  {
    forall k | 0 <= k < |roadsPos|
      ensures Counted(RowOf, c, roadsPos[k] + 1) == if k == lane then 1 else 0
    {
      if k < lane {
        assert roadsPos[k] < roadsPos[lane];
      } else if lane < k {
        assert roadsPos[lane] < roadsPos[k];
      }
    }
  }

  /** Placing the next car where `change_car_position` puts it keeps the cars in order. */
  lemma PlacedInOrderStep(cfg: Config, roadsPos: seq<int>, counts: seq<int>,
                          placed: seq<Car>, now: int, draws: seq<InitDraws>, c: Car, lane: nat)
    requires cfg.Valid() && |roadsPos| >= 1
    requires PlacedInOrder(cfg, roadsPos, counts, placed, now, draws)
    requires |placed| < |draws|
    requires lane == ChosenLane(counts, draws[|placed|].lane)
    requires c == NewCar(cfg, now, draws[|placed|]).(y := roadsPos[lane] + 1)
    ensures PlacedInOrder(cfg, roadsPos, counts[lane := counts[lane] + 1], placed + [c], now, draws)
  {
    var n := |placed|;
    if n < |roadsPos| {
      ChosenLaneInOrder(counts, n, draws[n].lane);
    }
    assert (placed + [c])[..n] == placed;
  }

  /** Setting up and placing one more car keeps `InitProgress`. */
  lemma InitProgressStep(cfg: Config, roadsPos: seq<int>, counts: seq<int>, free: int,
                         placed: seq<Car>, now: int, draws: seq<InitDraws>, c: Car, lane: nat)
    requires cfg.Valid()
    requires StrictlyIncreasing(roadsPos) && |roadsPos| == |counts| >= 1
    requires InitProgress(cfg, roadsPos, counts, free, placed, now, draws)
    requires |placed| < |draws|
    requires lane == ChosenLane(counts, draws[|placed|].lane)
    requires c == NewCar(cfg, now, draws[|placed|]).(y := roadsPos[lane] + 1)
    ensures InitProgress(cfg, roadsPos, counts[lane := counts[lane] + 1],
                         ZeroLanes(counts[lane := counts[lane] + 1]), placed + [c], now, draws)
  {
    var counts' := counts[lane := counts[lane] + 1];
    CountedOnItsLane(roadsPos, c, lane);
    ConsistentAppend(roadsPos, counts, free, counts', ZeroLanes(counts'), placed, RowOf, c);
    PlacedInOrderStep(cfg, roadsPos, counts, placed, now, draws, c, lane);
  }

  /**
   * One pass of `init_cars`' loop: car `i` is set up, placed with
   * `change_car_position` and stored in `cars[i]`.
   */
  method PlaceNewCar(cfg: Config, lanes: Lanes, cars: array<Car>, ghost placed: seq<Car>, i: nat, now: int,
                     draws: seq<InitDraws>)
    returns (ghost placed': seq<Car>)
    requires cfg.Valid() && lanes.Valid() && i < cars.Length && |draws| == cars.Length && cars[..i] == placed
    requires InitProgress(cfg, lanes.roadsPos, lanes.carsOnLane[..], lanes.freeLanes, placed, now, draws)
    modifies cars, lanes.carsOnLane, lanes`freeLanes
    ensures lanes.Valid() && cars[..i + 1] == placed'
    ensures InitProgress(cfg, lanes.roadsPos, lanes.carsOnLane[..], lanes.freeLanes, placed', now, draws)
  {
    var unplaced := NewCar(cfg, now, draws[i]);
    ghost var counts := lanes.carsOnLane[..];
    ghost var free := lanes.freeLanes;
    var c, lane := lanes.ChangeCarPosition(unplaced, draws[i].lane);
    InitProgressStep(cfg, lanes.roadsPos, counts, free, placed, now, draws, c, lane);
    counts := lanes.carsOnLane[..];
    cars[i] := c;
    assert lanes.carsOnLane[..] == counts;
    placed' := placed + [c];
    assert cars[..i + 1] == cars[..i] + [c];
  }

  /**
   * init_cars: every car starts as `StartsWell` says and is placed with
   * `change_car_position`; the first cars go one to a lane, in lane order,
   * the others to the lane their draw picks, and the registry ends up
   * consistent with the cars.
   */
  method InitCars(cfg: Config, lanes: Lanes, now: int, draws: seq<InitDraws>) returns (cars: array<Car>)
    requires cfg.Valid() && |draws| == cfg.carNumber
    requires lanes.Valid() && forall k :: 0 <= k < lanes.carsOnLane.Length ==> lanes.carsOnLane[k] == 0
    modifies lanes.carsOnLane, lanes`freeLanes
    ensures fresh(cars) && cars.Length == cfg.carNumber && lanes.Valid()
    ensures InitProgress(cfg, lanes.roadsPos, lanes.carsOnLane[..], lanes.freeLanes, cars[..], now, draws)
  {
    cars := new Car[cfg.carNumber];
    InitiallyConsistent(lanes.roadsPos, lanes.carsOnLane[..], RowOf);
    ghost var placed: seq<Car> := [];
    var i := 0;
    while i < cars.Length
      invariant 0 <= i <= cars.Length && cars[..i] == placed
      invariant lanes.Valid()
      invariant InitProgress(cfg, lanes.roadsPos, lanes.carsOnLane[..], lanes.freeLanes, placed, now, draws)
    {
      placed := PlaceNewCar(cfg, lanes, cars, placed, i, now, draws);
      i := i + 1;
    }
    assert cars[..] == cars[..cars.Length];
  }

  /**
   * After `init_cars` the registry is coupled to the cars and its counters
   * add up to `car_number`.
   */
  lemma InitCarsCoupled(cfg: Config, lanes: Lanes, cars: seq<Car>, now: int, draws: seq<InitDraws>)
    requires lanes.Valid()
    requires InitProgress(cfg, lanes.roadsPos, lanes.carsOnLane[..], lanes.freeLanes, cars, now, draws)
    ensures Coupled(lanes, cars) && AllHeaded(cars)
    ensures Sum(lanes.carsOnLane[..]) == |cars|
  {
    CountersMatchCars(lanes, cars);
  }
}
