/**
 * ver4.cpp: one car's step (`update_car_pos` and the helpers it calls), its
 * change of speed (`change_car_delay`), the time-gated pass over all cars
 * (`cars_move`) and the initial placement of the cars (`init_cars`).
 *
 * A car whose lane changes takes part in the lane registry; the step of a
 * car that is already on the board is described by the function `Advance`,
 * which the method `UpdateCarPos` follows.
 */
module Cars4 {
  import opened Common
  import opened LaneCounts
  import opened Board4
  import opened Lanes4

  /** A neutral car stops, and a friendly car can be boarded, within this many cells of the frog. */
  const PROXIMITY := 2
  /** A car keeps its speed for DELAY_CHANGE_T to 2 * DELAY_CHANGE_T - 1 ms. */
  const DELAY_CHANGE_T := 4000

  /**
   * The values `rand()` returns during one car's turn, in the order they are
   * drawn: the lane for a reappearing car when no lane is empty, the 1-in-3
   * wrap draw and the hiding time of `cars_destiny`, and the new speed and
   * the time to keep it of `change_car_delay`. Draws a turn does not reach
   * are ignored.
   */
  datatype CarDraws = CarDraws(lane: nat, fate: nat, cooldown: nat, speed: nat, speedWindow: nat)

  /**
   * is_frog_near: the frog is within PROXIMITY columns of the car's front
   * column (the column at x + 2 for a car driving right, x for one driving
   * left), and on a row from y - 1 to y + 2: the car's two rows y and
   * y + 1 and one row on either side.
   */
  function IsFrogNear(fx: int, fy: int, c: Car): (near: bool)
    requires Heading(c)
    ensures near <==>
      var front := if c.direction == 1 then c.x + CAR_WIDTH - 2 else c.x;
      && front - PROXIMITY <= fx <= front + PROXIMITY
      && c.y - PROXIMITY + 1 <= fy <= c.y + PROXIMITY
  {
    var dx := if c.direction == 1 then fx - (CAR_WIDTH - 2 + c.x) else fx - c.x;
    var distanceX := if dx < 0 then -dx else dx;
    var dy := if fy < c.y then fy - c.y - 1 else fy - c.y;
    var distanceY := if dy < 0 then -dy else dy;
    distanceX <= PROXIMITY && distanceY <= PROXIMITY
  }

  /**
   * hits_the_border: the car has reached column 1 on the left, or its
   * column x + 2 has reached column width on the right; otherwise its left
   * column is past column 1 and its last column x + 3 is at most column
   * width.
   */
  function HitsTheBorder(cfg: Config, c: Car): (hit: bool)
    ensures !hit <==> 1 < c.x && c.x + CAR_WIDTH - 1 <= cfg.width
  {
    c.x <= 1 || c.x + CAR_WIDTH - 2 >= cfg.width
  }

  /** A neutral car, or a friendly car that carries nobody, stops while the frog is near. */
  predicate Waits(c: Car, fx: int, fy: int)
    requires Heading(c)
  {
    || (c.carType == Neutral && IsFrogNear(fx, fy, c))
    || (c.carType == Friendly && IsFrogNear(fx, fy, c) && !c.carryingFrog)
  }

  /** A carrying car moves only while it is clear of both borders. */
  predicate CarrierMayMove(cfg: Config, c: Car)
  {
    c.x + 1 > 1 && c.x + CAR_WIDTH - 1 < cfg.width
  }

  /**
   * The step `update_car_pos` gives a car that is on the board, for given
   * draws: a waiting car stays put; a carrying car moves one column while it
   * is clear of the borders and never leaves the board; any other car moves
   * one column and, when that takes it to a border, either wraps to the far
   * border of its lane (a draw divisible by 3) or is hidden.
   */
  function Advance(cfg: Config, c: Car, fx: int, fy: int, now: int, fate: nat, cooldown: nat): (c': Car)
    requires Heading(c) && !c.hidden
    ensures c'.carType == c.carType && c'.carryingFrog == c.carryingFrog && c'.direction == c.direction
    ensures c'.delay == c.delay && c'.lastMoveTime == c.lastMoveTime && c'.untilDelayChange == c.untilDelayChange
    ensures Waits(c, fx, fy) ==> c' == c
    ensures c.carryingFrog ==>
      && !c'.hidden && c'.y == c.y
      && (c'.x == c.x + c.direction <==> !Waits(c, fx, fy) && CarrierMayMove(cfg, c))
      && (c'.x != c.x + c.direction ==> c'.x == c.x)
      && (0 <= c.x && c.x + CAR_WIDTH - 1 <= cfg.width ==> 0 <= c'.x && c'.x + CAR_WIDTH - 1 <= cfg.width)
    ensures !Waits(c, fx, fy) && !c.carryingFrog ==>
      var m := c.(x := c.x + c.direction);
      && (!HitsTheBorder(cfg, m) ==> c' == m)
      && (HitsTheBorder(cfg, m) && fate % 3 == 0 ==>
            c' == m.(x := if c.direction == 1 then 1 else cfg.width - CAR_WIDTH))
      && (HitsTheBorder(cfg, m) && fate % 3 != 0 ==> c' == Hide(cfg, m, now, cooldown))
    ensures c'.hidden ==> !c.carryingFrog && !Waits(c, fx, fy) && HitsTheBorder(cfg, c.(x := c.x + c.direction))
    ensures !c'.hidden ==> c'.y == c.y && c'.hiddenUntil == c.hiddenUntil
  {
    if Waits(c, fx, fy) then c
    else if c.carryingFrog then
      if CarrierMayMove(cfg, c) then c.(x := c.x + c.direction) else c
    else
      var m := c.(x := c.x + c.direction);
      if !HitsTheBorder(cfg, m) then m
      else if fate % 3 == 0 then m.(x := if m.direction == 1 then 1 else cfg.width - CAR_WIDTH)
      else Hide(cfg, m, now, cooldown)
  }

  /** The car as `car_visibility_check` shows it again on lane `k`. */
  function ShownOn(c: Car, roadsPos: seq<int>, direction: seq<int>, k: nat): Car
    requires k < |roadsPos| && k < |direction|
  {
    c.(hidden := false, y := roadsPos[k] + 1, direction := direction[k])
  }

  /**
   * What `update_car_pos` does to car `c`: a hidden car whose time has not
   * come stays as it is; a car on the board advances; a hidden car whose
   * time has come is shown on some lane and then advances from there.
   */
  ghost predicate CarStep(cfg: Config, roadsPos: seq<int>, direction: seq<int>, c: Car, c': Car,
                          fx: int, fy: int, now: int, d: CarDraws)
  {
    && Heading(c)
    && (forall k :: 0 <= k < |direction| ==> direction[k] == 1 || direction[k] == -1)
    && if c.hidden && now < c.hiddenUntil then c' == c
       else if !c.hidden then c' == Advance(cfg, c, fx, fy, now, d.fate, d.cooldown)
       else exists k :: 0 <= k < |roadsPos| && k < |direction|
                        && c' == Advance(cfg, ShownOn(c, roadsPos, direction, k), fx, fy, now, d.fate, d.cooldown)
  }

  /**
   * car_visibility_check: a hidden car whose hiding time has passed is shown
   * again and placed on a lane with `change_car_position`; the car then
   * takes its step unless it is still hidden.
   */
  method CarVisibilityCheck(lanes: Lanes, c: Car, now: int, laneDraw: nat) returns (visible: bool, c': Car)
    requires lanes.Valid()
    modifies lanes.carsOnLane, lanes`freeLanes
    ensures lanes.Valid()
    ensures visible <==> !c.hidden || now >= c.hiddenUntil
    ensures !(c.hidden && now >= c.hiddenUntil) ==>
      c' == c && lanes.carsOnLane[..] == old(lanes.carsOnLane[..])
    ensures c.hidden && now >= c.hiddenUntil ==>
      var lane := ChosenLane(old(lanes.carsOnLane[..]), laneDraw);
      && c' == ShownOn(c, lanes.roadsPos, lanes.direction, lane)
      && lanes.carsOnLane[..] == old(lanes.carsOnLane[..])[lane := old(lanes.carsOnLane[lane]) + 1]
  {
    c' := c;
    if c.hidden {
      if now >= c.hiddenUntil {
        c' := c'.(hidden := false);
        ghost var lane;
        c', lane := lanes.ChangeCarPosition(c', laneDraw);
      } else {
        return false, c';
      }
    }
    return true, c';
  }

  /**
   * cars_destiny: a car at a border wraps to the far border of its lane when
   * the draw is divisible by 3, keeping its lane; otherwise `manage_lanes`
   * takes it off its lane and hides it.
   */
  method CarsDestiny(cfg: Config, lanes: Lanes, c: Car, now: int, fate: nat, cooldownDraw: nat) returns (c': Car)
    requires lanes.Valid()
    requires exists k :: 0 <= k < |lanes.roadsPos| && lanes.roadsPos[k] + 1 == c.y && lanes.carsOnLane[k] >= 1
    modifies lanes.carsOnLane, lanes`freeLanes
    ensures lanes.Valid()
    ensures fate % 3 == 0 ==>
      && c' == c.(x := if c.direction == 1 then 1 else cfg.width - CAR_WIDTH)
      && lanes.carsOnLane[..] == old(lanes.carsOnLane[..])
    ensures fate % 3 != 0 ==>
      && c' == Hide(cfg, c, now, cooldownDraw)
      && exists lane :: 0 <= lane < |lanes.roadsPos| && lanes.roadsPos[lane] + 1 == c.y
           && lanes.carsOnLane[..] == old(lanes.carsOnLane[..])[lane := old(lanes.carsOnLane[lane]) - 1]
  {
    if fate % 3 == 0 {
      if c.direction == 1 {
        c' := c.(x := 1);
      } else {
        c' := c.(x := cfg.width - CAR_WIDTH);
      }
    } else {
      ghost var lane;
      c', lane := lanes.ManageLanes(cfg, c, now, cooldownDraw);
    }
  }

  /**
   * The part of `update_car_pos` after the visibility check, for a car on
   * lane `k`: the car advances, and the counters change only when it is
   * hidden, when its lane loses it.
   */
  method Drive(cfg: Config, lanes: Lanes, c: Car, fx: int, fy: int, now: int, d: CarDraws, ghost k: nat)
    returns (c': Car)
    requires lanes.Valid()
    requires Heading(c) && !c.hidden
    requires k < |lanes.roadsPos| && lanes.roadsPos[k] + 1 == c.y && lanes.carsOnLane[k] >= 1
    modifies lanes.carsOnLane, lanes`freeLanes
    ensures lanes.Valid()
    ensures c' == Advance(cfg, c, fx, fy, now, d.fate, d.cooldown)
    ensures Tracks(lanes.roadsPos, old(lanes.carsOnLane[..]), lanes.carsOnLane[..], RowOf, c, c')
    ensures RowOf(c').Some? ==> c'.y == c.y
  {
    ghost var before := lanes.carsOnLane[..];
    if Waits(c, fx, fy) {
      c' := c;
    } else if !c.carryingFrog {
      var m := c.(x := c.x + c.direction);
      if HitsTheBorder(cfg, m) {
        c' := CarsDestiny(cfg, lanes, m, now, d.fate, d.cooldown);
        if d.fate % 3 != 0 {
          ghost var lane :| 0 <= lane < |lanes.roadsPos| && lanes.roadsPos[lane] + 1 == m.y
                      && lanes.carsOnLane[..] == before[lane := before[lane] - 1];
          TracksLeave(lanes.roadsPos, before, RowOf, c, c', k);
          return;
        }
      } else {
        c' := m;
      }
    } else if CarrierMayMove(cfg, c) {
      c' := c.(x := c.x + c.direction);
    } else {
      c' := c;
    }
    TracksStay(lanes.roadsPos, before, RowOf, c, c');
  }

  /**
   * update_car_pos: one step of car `c` as `CarStep` describes it, with the
   * lane of a reappearing car chosen by `change_car_position`; the lane
   * counters change exactly as the car's row does, so the registry stays
   * consistent with the cars.
   */
  method UpdateCarPos(cfg: Config, lanes: Lanes, c: Car, fx: int, fy: int, now: int, d: CarDraws)
    returns (c': Car)
    requires lanes.Valid()
    requires Heading(c) && Registered(lanes, c)
    modifies lanes.carsOnLane, lanes`freeLanes
    ensures lanes.Valid()
    ensures Tracks(lanes.roadsPos, old(lanes.carsOnLane[..]), lanes.carsOnLane[..], RowOf, c, c')
    ensures RowOf(c').Some? ==> OnLane(lanes.roadsPos, c'.y)
    ensures Heading(c')
    ensures CarStep(cfg, lanes.roadsPos, lanes.direction, c, c', fx, fy, now, d)
    ensures c.hidden && now >= c.hiddenUntil ==>
      c' == Advance(cfg, ShownOn(c, lanes.roadsPos, lanes.direction, ChosenLane(old(lanes.carsOnLane[..]), d.lane)),
                    fx, fy, now, d.fate, d.cooldown)
  {
    ghost var before := lanes.carsOnLane[..];
    var visible, s := CarVisibilityCheck(lanes, c, now, d.lane);
    if !visible {
      c' := c;
      TracksStay(lanes.roadsPos, before, RowOf, c, c');
      return;
    }
    ghost var mid := lanes.carsOnLane[..];
    ghost var k: nat;
    if c.hidden {
      k := ChosenLane(before, d.lane);
      TracksJoin(lanes.roadsPos, before, RowOf, c, s, k);
    } else {
      k :| 0 <= k < |lanes.roadsPos| && lanes.roadsPos[k] + 1 == c.y && lanes.carsOnLane[k] >= 1;
      TracksStay(lanes.roadsPos, before, RowOf, c, s);
    }
    c' := Drive(cfg, lanes, s, fx, fy, now, d, k);
    TracksCompose(lanes.roadsPos, before, mid, lanes.carsOnLane[..], RowOf, c, s, c');
    assert RowOf(c').Some? ==> lanes.roadsPos[k] + 1 == c'.y;
  }

  /**
   * change_car_delay: once its time to keep a speed has passed, a car draws
   * a new delay in [min_car_delay, max_car_delay) and a new time to keep it,
   * 4 to 8 seconds from now; before that the car is unchanged.
   */
  function ChangeCarDelay(cfg: Config, c: Car, now: int, speedDraw: nat, windowDraw: nat): (c': Car)
    requires cfg.Valid()
    ensures now < c.untilDelayChange ==> c' == c
    ensures now >= c.untilDelayChange ==>
      && c' == c.(delay := c'.delay, untilDelayChange := c'.untilDelayChange)
      && cfg.minCarDelay <= c'.delay < cfg.maxCarDelay
      && now + DELAY_CHANGE_T <= c'.untilDelayChange < now + 2 * DELAY_CHANGE_T
  {
    if now >= c.untilDelayChange then
      c.(delay := speedDraw % (cfg.maxCarDelay - cfg.minCarDelay) + cfg.minCarDelay,
         untilDelayChange := now + (windowDraw % DELAY_CHANGE_T + DELAY_CHANGE_T))
    else c
  }

  /** `cars_move`'s gate: at least `delay` ms have passed since the car last moved. */
  predicate CarIsDue(c: Car, now: int)
  {
    now - c.lastMoveTime >= c.delay
  }

  /**
   * What `cars_move` does to one car: a car that is not due is untouched; a
   * due car takes its step, records `now` as its last move and may change
   * its speed.
   */
  ghost predicate CarTurn(cfg: Config, roadsPos: seq<int>, direction: seq<int>, c: Car, c': Car,
                          fx: int, fy: int, now: int, d: CarDraws)
    requires cfg.Valid()
  {
    if !CarIsDue(c, now) then c' == c
    else exists s :: CarStep(cfg, roadsPos, direction, c, s, fx, fy, now, d)
                     && c' == ChangeCarDelay(cfg, s.(lastMoveTime := now), now, d.speed, d.speedWindow)
  }

  /**
   * One car's turn in `cars_move`: a due car takes its step, records `now`
   * as its last move and may change its speed; the counters follow the
   * car's row.
   */
  method TakeTurn(cfg: Config, lanes: Lanes, c: Car, fx: int, fy: int, now: int, d: CarDraws) returns (c': Car)
    requires cfg.Valid() && lanes.Valid()
    requires Heading(c) && Registered(lanes, c)
    modifies lanes.carsOnLane, lanes`freeLanes
    ensures lanes.Valid()
    ensures Tracks(lanes.roadsPos, old(lanes.carsOnLane[..]), lanes.carsOnLane[..], RowOf, c, c')
    ensures RowOf(c').Some? ==> OnLane(lanes.roadsPos, c'.y)
    ensures Heading(c') && c'.carType == c.carType && c'.carryingFrog == c.carryingFrog
    ensures CarTurn(cfg, lanes.roadsPos, lanes.direction, c, c', fx, fy, now, d)
  {
    if CarIsDue(c, now) {
      var s := UpdateCarPos(cfg, lanes, c, fx, fy, now, d);
      c' := ChangeCarDelay(cfg, s.(lastMoveTime := now), now, d.speed, d.speedWindow);
      assert RowOf(c') == RowOf(s);
      assert c'.carType == c.carType && c'.carryingFrog == c.carryingFrog by {
        if !c.hidden {
          assert s == Advance(cfg, c, fx, fy, now, d.fate, d.cooldown);
        } else if now >= c.hiddenUntil {
          var k :| 0 <= k < |lanes.roadsPos| && k < |lanes.direction|
                   && s == Advance(cfg, ShownOn(c, lanes.roadsPos, lanes.direction, k), fx, fy, now, d.fate, d.cooldown);
        }
      }
    } else {
      c' := c;
      TracksStay(lanes.roadsPos, lanes.carsOnLane[..], RowOf, c, c');
    }
  }

  /**
   * cars_move: the cars take their turns in index order, each with its own
   * draws; the registry stays consistent with the cars and every car keeps
   * a direction of 1 or -1.
   */
  method CarsMove(cfg: Config, cars: array<Car>, lanes: Lanes, fx: int, fy: int, now: int, draws: seq<CarDraws>)
    requires cfg.Valid() && cars.Length == cfg.carNumber && |draws| == cars.Length
    requires Coupled(lanes, cars[..]) && AllHeaded(cars[..])
    modifies cars, lanes.carsOnLane, lanes`freeLanes
    ensures Coupled(lanes, cars[..]) && AllHeaded(cars[..])
    ensures forall i :: 0 <= i < cars.Length ==>
      CarTurn(cfg, lanes.roadsPos, lanes.direction, old(cars[i]), cars[i], fx, fy, now, draws[i])
    ensures forall i :: 0 <= i < cars.Length ==>
      cars[i].carType == old(cars[i].carType) && cars[i].carryingFrog == old(cars[i].carryingFrog)
  {
    ghost var before := cars[..];
    var i := 0;
    while i < cars.Length
      invariant 0 <= i <= cars.Length
      invariant Coupled(lanes, cars[..]) && AllHeaded(cars[..])
      invariant forall j :: 0 <= j < i ==>
        && CarTurn(cfg, lanes.roadsPos, lanes.direction, before[j], cars[j], fx, fy, now, draws[j])
        && cars[j].carType == before[j].carType && cars[j].carryingFrog == before[j].carryingFrog
      invariant forall j :: i <= j < cars.Length ==> cars[j] == before[j]
    {
      TurnAt(cfg, cars, lanes, i, fx, fy, now, draws[i]);
      i := i + 1;
    }
  }

  /** Car `i` of the array takes its turn in place; the registry stays coupled to the whole array. */
  method TurnAt(cfg: Config, cars: array<Car>, lanes: Lanes, i: nat, fx: int, fy: int, now: int, d: CarDraws)
    requires cfg.Valid() && i < cars.Length
    requires Coupled(lanes, cars[..]) && AllHeaded(cars[..])
    modifies cars, lanes.carsOnLane, lanes`freeLanes
    ensures Coupled(lanes, cars[..]) && AllHeaded(cars[..])
    ensures cars[..] == old(cars[..])[i := cars[i]]
    ensures CarTurn(cfg, lanes.roadsPos, lanes.direction, old(cars[i]), cars[i], fx, fy, now, d)
    ensures cars[i].carType == old(cars[i].carType) && cars[i].carryingFrog == old(cars[i].carryingFrog)
  {
    CoupledRegistered(lanes, cars[..], i);
    ghost var counts := lanes.carsOnLane[..];
    ghost var free := lanes.freeLanes;
    var c' := TakeTurn(cfg, lanes, cars[i], fx, fy, now, d);
    ConsistentUpdate(lanes.roadsPos, counts, free, lanes.carsOnLane[..], lanes.freeLanes, cars[..], RowOf, i, c');
    cars[i] := c';
  }

  /**
   * The values `rand()` returns while `init_cars` sets up one car: its
   * column, its speed, its time to keep that speed, its type and, when no
   * lane is empty, its lane.
   */
  datatype InitDraws = InitDraws(x: nat, speed: nat, speedWindow: nat, carType: nat, lane: nat)

  /**
   * A car as `init_cars` sets it up: visible, in columns 2 .. width - 1,
   * not carrying, last moved at the start, with a delay in
   * [min_car_delay, max_car_delay) kept until a time between 4 and 8
   * seconds after the start, and with the type its draw gives.
   */
  predicate StartsWell(cfg: Config, c: Car, now: int, d: InitDraws)
  {
    && 2 <= c.x <= cfg.width - 1
    && cfg.minCarDelay <= c.delay < cfg.maxCarDelay
    && DELAY_CHANGE_T <= c.untilDelayChange < 2 * DELAY_CHANGE_T
    && c.lastMoveTime == now && c.hiddenUntil == 0
    && c.carType == SetCarsType(d.carType) && !c.carryingFrog && !c.hidden
  }

  /** The fields `init_cars` sets before the car is placed on a lane. */
  function NewCar(cfg: Config, now: int, d: InitDraws): (c: Car)
    requires cfg.Valid()
    ensures StartsWell(cfg, c, now, d)
  {
    Car(x := d.x % (cfg.width - 2) + 2,
        y := 0,
        direction := 1,
        delay := d.speed % (cfg.maxCarDelay - cfg.minCarDelay) + cfg.minCarDelay,
        lastMoveTime := now,
        hidden := false,
        carType := SetCarsType(d.carType),
        carryingFrog := false,
        hiddenUntil := 0,
        untilDelayChange := d.speedWindow % DELAY_CHANGE_T + DELAY_CHANGE_T)
  }

  /**
   * What `init_cars` promises of the cars `placed` so far, in terms of the
   * lane tops `roadsPos`, the lane directions and the counters: every car
   * heads one way or the other and starts as `StartsWell` says, and while
   * there are lanes to spare the cars fill them one to a lane, in lane
   * order, taking each lane's direction. Once every lane holds a car, each
   * further car goes to the lane its draw picks modulo the number of lanes,
   * again with that lane's direction.
   */
  ghost predicate PlacedInOrder(cfg: Config, roadsPos: seq<int>, direction: seq<int>, counts: seq<int>,
                                placed: seq<Car>, now: int, draws: seq<InitDraws>)
  {
    && |placed| <= |draws| && |counts| == |roadsPos|
    && AllHeaded(placed)
    && (forall j {:trigger placed[j]} :: 0 <= j < |placed| ==> StartsWell(cfg, placed[j], now, draws[j]))
    && (forall j {:trigger placed[j]} :: 0 <= j < |placed| && j < |roadsPos| && j < |direction| ==>
          placed[j].y == roadsPos[j] + 1 && placed[j].direction == direction[j])
    && (forall j {:trigger placed[j]} :: 0 < |roadsPos| <= j < |placed| ==>
          var lane := draws[j].lane % |roadsPos|;
          placed[j].y == roadsPos[lane] + 1 && (lane < |direction| ==> placed[j].direction == direction[lane]))
    && (|placed| <= |roadsPos| ==>
          forall k :: 0 <= k < |roadsPos| ==> counts[k] == if k < |placed| then 1 else 0)
    && (|roadsPos| <= |placed| ==> forall k :: 0 <= k < |roadsPos| ==> counts[k] >= 1)
  }

  /**
   * The state after `init_cars` has placed the cars `placed`: the counters
   * agree with the cars, every car is visible on a lane, and the cars are
   * placed in order.
   */
  ghost predicate InitProgress(cfg: Config, roadsPos: seq<int>, direction: seq<int>, counts: seq<int>, free: int,
                               placed: seq<Car>, now: int, draws: seq<InitDraws>)
  {
    && Consistent(roadsPos, counts, free, placed, RowOf)
    && Resident(placed, RowOf) == |placed|
    && PlacedInOrder(cfg, roadsPos, direction, counts, placed, now, draws)
  }

  /** Placing the next car where `change_car_position` puts it keeps the cars in order. */
  lemma PlacedInOrderStep(cfg: Config, roadsPos: seq<int>, direction: seq<int>, counts: seq<int>,
                          placed: seq<Car>, now: int, draws: seq<InitDraws>, c: Car, lane: nat)
    requires cfg.Valid()
    requires |direction| == |roadsPos| == |counts| >= 1
    requires forall k :: 0 <= k < |direction| ==> direction[k] == 1 || direction[k] == -1
    requires PlacedInOrder(cfg, roadsPos, direction, counts, placed, now, draws)
    requires |placed| < |draws|
    requires lane == ChosenLane(counts, draws[|placed|].lane)
    requires c == ShownOn(NewCar(cfg, now, draws[|placed|]), roadsPos, direction, lane)
    ensures PlacedInOrder(cfg, roadsPos, direction, counts[lane := counts[lane] + 1], placed + [c], now, draws)
  {
    var n := |placed|;
    if n < |roadsPos| {
      ChosenLaneInOrder(counts, n, draws[n].lane);
    }
    assert (placed + [c])[..n] == placed;
  }

  /** Setting up and placing one more car keeps `InitProgress`. */
  lemma InitProgressStep(cfg: Config, roadsPos: seq<int>, direction: seq<int>, counts: seq<int>, free: int,
                         placed: seq<Car>, now: int, draws: seq<InitDraws>, c: Car, lane: nat)
    requires cfg.Valid()
    requires StrictlyIncreasing(roadsPos) && |direction| == |roadsPos| == |counts| >= 1
    requires forall k :: 0 <= k < |direction| ==> direction[k] == 1 || direction[k] == -1
    requires InitProgress(cfg, roadsPos, direction, counts, free, placed, now, draws)
    requires |placed| < |draws|
    requires lane == ChosenLane(counts, draws[|placed|].lane)
    requires c == ShownOn(NewCar(cfg, now, draws[|placed|]), roadsPos, direction, lane)
    ensures InitProgress(cfg, roadsPos, direction, counts[lane := counts[lane] + 1],
                         ZeroLanes(counts[lane := counts[lane] + 1]), placed + [c], now, draws)
  {
    var counts' := counts[lane := counts[lane] + 1];
    TracksJoin(roadsPos, counts, RowOf, c.(hidden := true), c, lane);
    ConsistentAppend(roadsPos, counts, free, counts', ZeroLanes(counts'), placed, RowOf, c);
    PlacedInOrderStep(cfg, roadsPos, direction, counts, placed, now, draws, c, lane);
    assert (placed + [c])[..|placed|] == placed;
  }

  /**
   * One pass of `init_cars`' loop: car `i` is set up, placed with
   * `change_car_position` and stored in `cars[i]`.
   */
  method PlaceNewCar(cfg: Config, lanes: Lanes, cars: array<Car>, ghost placed: seq<Car>, i: nat, now: int,
                     draws: seq<InitDraws>)
    returns (ghost placed': seq<Car>)
    requires cfg.Valid() && lanes.Valid() && i < cars.Length && |draws| == cars.Length && cars[..i] == placed
    requires InitProgress(cfg, lanes.roadsPos, lanes.direction, lanes.carsOnLane[..], lanes.freeLanes, placed, now, draws)
    modifies cars, lanes.carsOnLane, lanes`freeLanes
    ensures lanes.Valid() && cars[..i + 1] == placed'
    ensures InitProgress(cfg, lanes.roadsPos, lanes.direction, lanes.carsOnLane[..], lanes.freeLanes, placed', now, draws)
  {
    var unplaced := NewCar(cfg, now, draws[i]);
    ghost var counts := lanes.carsOnLane[..];
    ghost var free := lanes.freeLanes;
    var c, lane := lanes.ChangeCarPosition(unplaced, draws[i].lane);
    InitProgressStep(cfg, lanes.roadsPos, lanes.direction, counts, free, placed, now, draws, c, lane);
    counts := lanes.carsOnLane[..];
    cars[i] := c;
    assert lanes.carsOnLane[..] == counts;
    placed' := placed + [c];
    assert cars[..i + 1] == cars[..i] + [c];
  }

  /**
   * init_cars: every car starts as `StartsWell` says and is placed with
   * `change_car_position`; the first cars go one to a lane, in lane order,
   * the others to the lane their draw picks, and the registry ends up
   * consistent with the cars.
   */
  method InitCars(cfg: Config, lanes: Lanes, now: int, draws: seq<InitDraws>) returns (cars: array<Car>)
    requires cfg.Valid() && |draws| == cfg.carNumber
    requires lanes.Valid() && forall k :: 0 <= k < lanes.carsOnLane.Length ==> lanes.carsOnLane[k] == 0
    modifies lanes.carsOnLane, lanes`freeLanes
    ensures fresh(cars) && cars.Length == cfg.carNumber && lanes.Valid()
    ensures InitProgress(cfg, lanes.roadsPos, lanes.direction, lanes.carsOnLane[..], lanes.freeLanes, cars[..], now, draws)
  {
    cars := new Car[cfg.carNumber];
    InitiallyConsistent(lanes.roadsPos, lanes.carsOnLane[..], RowOf);
    ghost var placed: seq<Car> := [];
    var i := 0;
    while i < cars.Length
      invariant 0 <= i <= cars.Length && cars[..i] == placed
      invariant lanes.Valid()
      invariant InitProgress(cfg, lanes.roadsPos, lanes.direction, lanes.carsOnLane[..], lanes.freeLanes, placed, now, draws)
    {
      placed := PlaceNewCar(cfg, lanes, cars, placed, i, now, draws);
      i := i + 1;
    }
    assert cars[..] == cars[..cars.Length];
  }

  /** After `init_cars` the registry is coupled to the cars, and every car is visible, on its lane. */
  lemma InitCarsCoupled(cfg: Config, lanes: Lanes, cars: seq<Car>, now: int, draws: seq<InitDraws>)
    requires lanes.Valid()
    requires InitProgress(cfg, lanes.roadsPos, lanes.direction, lanes.carsOnLane[..], lanes.freeLanes, cars, now, draws)
    ensures Coupled(lanes, cars) && AllHeaded(cars)
    ensures Sum(lanes.carsOnLane[..]) == |cars|
  {
    CountersMatchVisibleCars(lanes, cars);
  }
}
