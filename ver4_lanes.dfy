/**
 * ver4.cpp: the car record and the lane registry: the per-lane car counters
 * `cars_on_lane[]`, the number of empty lanes `*free_lanes`, the fixed travel
 * direction of each lane `lane_direction[]`, and the two operations that
 * move a car into a lane (`change_car_position`) and out of it
 * (`manage_lanes`).
 */
module Lanes4 {
  import opened Common
  import opened LaneCounts
  import opened Board4

  /** The `car_type` codes 'h', 'n' and 'f'. */
  datatype CarType = Hostile | Neutral | Friendly

  /**
   * One element of the `cars` array. Times are in milliseconds; `direction`
   * is 1 (to the right) or -1 (to the left).
   */
  datatype Car = Car(
    x: int,
    y: int,
    direction: int,
    delay: int,
    lastMoveTime: int,
    hidden: bool,
    carType: CarType,
    carryingFrog: bool,
    hiddenUntil: int,
    untilDelayChange: int)

  /** The row a car stands on for the registry; a hidden car stands on none. */
  function RowOf(c: Car): Option<int>
  {
    if c.hidden then None else Some(c.y)
  }

  predicate Heading(c: Car)
  {
    c.direction == 1 || c.direction == -1
  }

  predicate AllHeaded(cars: seq<Car>)
  {
    forall i :: 0 <= i < |cars| ==> Heading(cars[i])
  }

  /** set_cars_type: the type a draw of `rand()` gives a car. */
  function SetCarsType(draw: nat): CarType
  {
    var t := draw % 10;
    if t < 6 then Hostile else if t < 8 then Neutral else Friendly
  }

  /** Of the ten residues of a draw, six give a hostile car, two a neutral one and two a friendly one. */
  lemma CarTypeShares()
    ensures |set t | 0 <= t < 10 && SetCarsType(t) == Hostile| == 6
    ensures |set t | 0 <= t < 10 && SetCarsType(t) == Neutral| == 2
    ensures |set t | 0 <= t < 10 && SetCarsType(t) == Friendly| == 2
  {
    assert (set t | 0 <= t < 10 && SetCarsType(t) == Hostile) == {0, 1, 2, 3, 4, 5};
    assert (set t | 0 <= t < 10 && SetCarsType(t) == Neutral) == {6, 7};
    assert (set t | 0 <= t < 10 && SetCarsType(t) == Friendly) == {8, 9};
  }

  /** setup_cars_on_lane: a fresh counter array with every lane at zero. */
  method SetupCarsOnLane(roadLanes: nat) returns (counts: array<int>)
    ensures fresh(counts) && counts.Length == roadLanes
    ensures forall k :: 0 <= k < roadLanes ==> counts[k] == 0
  {
    counts := new int[roadLanes];
    var i := 0;
    while i < roadLanes
      invariant 0 <= i <= roadLanes
      invariant forall k :: 0 <= k < i ==> counts[k] == 0
    {
      counts[i] := 0;
      i := i + 1;
    }
  }

  /** setup_lane_directions: lane k drives right when its draw is even, left otherwise. */
  method SetupLaneDirections(roadLanes: nat, draws: seq<nat>) returns (dirs: array<int>)
    requires |draws| == roadLanes
    ensures fresh(dirs) && dirs.Length == roadLanes
    ensures forall k :: 0 <= k < roadLanes ==> dirs[k] == if draws[k] % 2 == 0 then 1 else -1
  {
    dirs := new int[roadLanes];
    var i := 0;
    while i < roadLanes
      invariant 0 <= i <= roadLanes
      invariant forall k :: 0 <= k < i ==> dirs[k] == if draws[k] % 2 == 0 then 1 else -1
    {
      if draws[i] % 2 == 0 {
        dirs[i] := 1;
      } else {
        dirs[i] := -1;
      }
      i := i + 1;
    }
  }

  /**
   * The car as `manage_lanes` leaves it: hidden for 500 to 1499 ms
   * (`500 + draw % 1000`) and parked outside the board at
   * (width + 5, height + 5), where neither the frog nor the registry sees it.
   */
  function Hide(cfg: Config, c: Car, now: int, cooldownDraw: nat): (c': Car)
    ensures c'.hidden && RowOf(c') == None
    ensures c'.x == cfg.width + 5 && c'.y == cfg.height + 5
    ensures now + 500 <= c'.hiddenUntil < now + 1500
    ensures c' == c.(hidden := true, hiddenUntil := c'.hiddenUntil, x := c'.x, y := c'.y)
  {
    c.(hidden := true,
       hiddenUntil := now + (cooldownDraw % 1000 + 500),
       x := cfg.width + 5,
       y := cfg.height + 5)
  }

  class Lanes {
    /** `roads_pos[0 .. road_lanes)`: the board row of the top of each lane. */
    const roadsPos: seq<int>
    /** `lane_direction[]`: fixed when the game starts. */
    const direction: seq<int>
    /** `cars_on_lane[]`. */
    const carsOnLane: array<int>
    /** `*free_lanes`. */
    var freeLanes: int

    /**
     * Lanes are distinct rows listed top to bottom, each drives in one of the
     * two directions, no counter is negative, and `freeLanes` is the number
     * of empty lanes.
     */
    ghost predicate Valid()
      reads this, carsOnLane
    {
      && |roadsPos| == |direction| == carsOnLane.Length >= 1
      && StrictlyIncreasing(roadsPos)
      && (forall k :: 0 <= k < |direction| ==> direction[k] == 1 || direction[k] == -1)
      && (forall k :: 0 <= k < carsOnLane.Length ==> carsOnLane[k] >= 0)
      && freeLanes == ZeroLanes(carsOnLane[..])
    }

    /** The registry as `main` sets it up: every counter zero and `free_lanes = road_lanes`. */
    constructor (roadsPos: seq<int>, carsOnLane: array<int>, direction: seq<int>)
      requires |roadsPos| >= 1 && |direction| == |roadsPos| && carsOnLane.Length == |roadsPos|
      requires StrictlyIncreasing(roadsPos)
      requires forall k :: 0 <= k < |direction| ==> direction[k] == 1 || direction[k] == -1
      requires forall k :: 0 <= k < carsOnLane.Length ==> carsOnLane[k] == 0
      ensures Valid()
      ensures this.roadsPos == roadsPos && this.direction == direction && this.carsOnLane == carsOnLane
      ensures freeLanes == |roadsPos|
    {
      this.roadsPos := roadsPos;
      this.direction := direction;
      this.carsOnLane := carsOnLane;
      freeLanes := |roadsPos|;
      new;
      ZeroLanesAllZero(carsOnLane[..]);
    }

    /**
     * change_car_position: puts the car on the lowest empty lane (on lane
     * `laneDraw % road_lanes` when none is empty), moves it to that lane's
     * top row, gives it the lane's direction and counts it on that lane.
     */
    method ChangeCarPosition(c: Car, laneDraw: nat) returns (c': Car, ghost lane: nat)
      requires Valid()
      modifies carsOnLane, this`freeLanes
      ensures Valid()
      ensures lane == ChosenLane(old(carsOnLane[..]), laneDraw)
      ensures carsOnLane[..] == old(carsOnLane[..])[lane := old(carsOnLane[lane]) + 1]
      ensures c' == c.(y := roadsPos[lane] + 1, direction := direction[lane])
      ensures forall k :: 0 <= k < |roadsPos| ==> (roadsPos[k] + 1 == c'.y <==> k == lane)
    {
      ghost var before := carsOnLane[..];
      var found := -1;
      var i := 0;
      while i < carsOnLane.Length
        invariant 0 <= i <= carsOnLane.Length
        invariant found == -1 ==> forall k :: 0 <= k < i ==> carsOnLane[k] != 0
        invariant found != -1 ==> found == IndexOf(before, 0)
      {
        if carsOnLane[i] == 0 {
          found := i;
          break;
        }
        i := i + 1;
      }
      var l: int;
      if found == -1 {
        l := laneDraw % carsOnLane.Length;
      } else {
        l := found;
        if carsOnLane[l] == 0 {
          freeLanes := freeLanes - 1;
        }
      }
      lane := l;
      c' := c.(y := roadsPos[l] + 1, direction := direction[l]);
      ZeroLanesUpdate(carsOnLane[..], l, carsOnLane[l] + 1);
      carsOnLane[l] := carsOnLane[l] + 1;
    }

    /**
     * manage_lanes: takes the car off the lane whose top row is its row,
     * hides it for 500 to 1499 ms (`500 + draw % 1000`) and parks it
     * outside the board at (width + 5, height + 5).
     */
    method ManageLanes(cfg: Config, c: Car, now: int, cooldownDraw: nat) returns (c': Car, ghost lane: nat)
      requires Valid()
      requires exists k :: 0 <= k < |roadsPos| && roadsPos[k] + 1 == c.y && carsOnLane[k] >= 1
      modifies carsOnLane, this`freeLanes
      ensures Valid()
      ensures lane < |roadsPos| && roadsPos[lane] + 1 == c.y
      ensures carsOnLane[..] == old(carsOnLane[..])[lane := old(carsOnLane[lane]) - 1]
      ensures c' == Hide(cfg, c, now, cooldownDraw)
    {
      var current := -1;
      var i := 0;
      while i < |roadsPos|
        invariant 0 <= i <= |roadsPos|
        invariant current == -1 ==> forall k :: 0 <= k < i ==> roadsPos[k] != c.y - 1
        invariant current != -1 ==> current == IndexOf(roadsPos, c.y - 1)
      {
        if c.y == roadsPos[i] + 1 {
          current := i;
          break;
        }
        i := i + 1;
      }
      var k :| 0 <= k < |roadsPos| && roadsPos[k] + 1 == c.y && carsOnLane[k] >= 1;
      assert current == k;
      ZeroLanesUpdate(carsOnLane[..], current, carsOnLane[current] - 1);
      carsOnLane[current] := carsOnLane[current] - 1;
      if carsOnLane[current] == 0 {
        freeLanes := freeLanes + 1;
      }
      lane := current;
      c' := Hide(cfg, c, now, cooldownDraw);
    }
  }

  /** The registry's counters are exactly the cars on each lane, and every visible car is on a lane. */
  ghost predicate Coupled(lanes: Lanes, cars: seq<Car>)
    reads lanes, lanes.carsOnLane
  {
    lanes.Valid() && Consistent(lanes.roadsPos, lanes.carsOnLane[..], lanes.freeLanes, cars, RowOf)
  }

  /** A visible car stands on a lane whose counter includes it. */
  ghost predicate Registered(lanes: Lanes, c: Car)
    reads lanes, lanes.carsOnLane
  {
    !c.hidden ==>
      exists k :: 0 <= k < |lanes.roadsPos| && k < lanes.carsOnLane.Length
               && lanes.roadsPos[k] + 1 == c.y && lanes.carsOnLane[k] >= 1
  }

  /** Under a coupled registry every car of the array is registered on its lane. */
  lemma CoupledRegistered(lanes: Lanes, cars: seq<Car>, i: nat)
    requires Coupled(lanes, cars)
    requires i < |cars|
    ensures Registered(lanes, cars[i])
  {
    if !cars[i].hidden {
      assert RowOf(cars[i]).Some?;
      var k :| 0 <= k < |lanes.roadsPos| && lanes.roadsPos[k] + 1 == cars[i].y;
      MemberCounted(cars, RowOf, i, lanes.roadsPos[k] + 1);
    }
  }

  /** Under a coupled registry the lane counters add up to the number of visible cars. */
  lemma CountersMatchVisibleCars(lanes: Lanes, cars: seq<Car>)
    requires Coupled(lanes, cars)
    ensures Sum(lanes.carsOnLane[..]) == Resident(cars, RowOf)
  {
    CountersSumToResidentCars(lanes.roadsPos, lanes.carsOnLane[..], lanes.freeLanes, cars, RowOf);
  }
}
