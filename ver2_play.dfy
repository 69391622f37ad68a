/**
 * ver2.cpp: one round of play — the frog's jump (`frogs_move`), the cars'
 * steps (`update_car_pos`, `cars_move`) and the end of the game
 * (`check_collision`, the decision of `check_game_status`).
 *
 * The frog is two cells wide and ignores the board's cells; a car that
 * reaches a border turns round or changes lane and starts again at the
 * border it now drives away from.
 */
module Play2 {
  import opened Common
  import opened LaneCounts
  import opened Setup2

  /** The frog standing at (x, y) covers two board cells that exist. */
  predicate OnBoard(cfg: Config, x: int, y: int)
  {
    1 <= y <= cfg.height && 1 <= x <= cfg.width - 1
  }

  /**
   * Where an arrow key takes the frog from (x, y): one row up or down, two
   * columns right or left, or nowhere when that would cross the border.
   */
  function Jump(cfg: Config, key: Key, x: int, y: int): (p: (int, int))
    requires key.IsArrow()
    ensures OnBoard(cfg, x, y) ==> OnBoard(cfg, p.0, p.1)
    ensures p.0 % 2 == x % 2
    ensures p.0 == x + 2 <==> key == KeyRight && x < cfg.width - 2
    ensures p.0 == x - 2 <==> key == KeyLeft && x > 2
    ensures p.1 == y - 1 <==> key == KeyUp && y > 1
    ensures p.1 == y + 1 <==> key == KeyDown && y < cfg.height
    ensures p.0 == x || p.1 == y
  {
    match key
    case KeyUp => if y > 1 then (x, y - 1) else (x, y)
    case KeyDown => if y < cfg.height then (x, y + 1) else (x, y)
    case KeyRight => if x < cfg.width - 2 then (x + 2, y) else (x, y)
    case KeyLeft => if x > 2 then (x - 2, y) else (x, y)
  }

  /** A jump that went through can be undone by the opposite jump. */
  lemma JumpUndone(cfg: Config, x: int, y: int)
    requires OnBoard(cfg, x, y)
    ensures x < cfg.width - 2 ==> Jump(cfg, KeyLeft, x + 2, y) == (x, y)
    ensures x > 2 ==> Jump(cfg, KeyRight, x - 2, y) == (x, y)
    ensures y > 1 ==> Jump(cfg, KeyDown, x, y - 1) == (x, y)
    ensures y < cfg.height ==> Jump(cfg, KeyUp, x, y + 1) == (x, y)
  {
  }

  class Frog {
    var x: int
    var y: int
    var direction: Facing
    var moves: int
    var lastJumpTime: int
    /** `jump_delay`, read from the configuration. */
    const jumpDelay: int

    /** The fields a jump may change, as one value. */
    function Pose(): (int, int, Facing, int, int)
      reads this
    {
      (x, y, direction, moves, lastJumpTime)
    }

    /** init_frog: the frog starts at the middle of the bottom row facing up. */
    constructor (cfg: Config, now: int)
      requires cfg.Valid()
      ensures x == cfg.width / 2 + 1 && y == cfg.height && OnBoard(cfg, x, y)
      ensures direction == Up && moves == 0 && lastJumpTime == now
      ensures jumpDelay == cfg.jumpDelay
    {
      x := cfg.width / 2 + 1;
      y := cfg.height;
      direction := Up;
      moves := 0;
      lastJumpTime := now;
      jumpDelay := cfg.jumpDelay;
    }

    /**
     * frogs_move: before `jump_delay` ms have passed since the last jump no
     * key does anything; afterwards an arrow key turns the frog, records the
     * time of the jump and moves the frog as `Jump` says, counting a move
     * only when the frog changed place. Other keys do nothing.
     */
    method FrogsMove(cfg: Config, key: Key, now: int)
      modifies this`x, this`y, this`direction, this`moves, this`lastJumpTime
      ensures now - old(lastJumpTime) < jumpDelay || !key.IsArrow() ==> Pose() == old(Pose())
      ensures now - old(lastJumpTime) >= jumpDelay && key.IsArrow() ==>
        && (x, y) == Jump(cfg, key, old(x), old(y))
        && direction == FacingOf(key) && lastJumpTime == now
        && moves == old(moves) + (if (x, y) == (old(x), old(y)) then 0 else 1)
    {
      if now - lastJumpTime < jumpDelay {
        return;
      }
      match key
      case KeyUp =>
        if y > 1 {
          y := y - 1;
          moves := moves + 1;
        }
        direction := Up;
        lastJumpTime := now;
      case KeyDown =>
        if y < cfg.height {
          y := y + 1;
          moves := moves + 1;
        }
        direction := Down;
        lastJumpTime := now;
      case KeyRight =>
        if x < cfg.width - 2 {
          x := x + 2;
          moves := moves + 1;
        }
        direction := Right;
        lastJumpTime := now;
      case KeyLeft =>
        if x > 2 {
          x := x - 2;
          moves := moves + 1;
        }
        direction := Left;
        lastJumpTime := now;
      case Ch(_) =>
    }
  }

  /**
   * hits_the_border: the car has reached column 1 on the left, or its
   * column x + 2 has reached column width on the right; otherwise its left
   * column is past column 1 and its last column x + 3 is at most column
   * width.
   */
  function HitsTheBorder(cfg: Config, x: int): (hit: bool)
    ensures !hit <==> 1 < x && x + CAR_WIDTH - 1 <= cfg.width
  {
    x <= 1 || x + CAR_WIDTH - 2 >= cfg.width
  }

  /** The column a car restarts from after a border: the left border when it drives right, the right one otherwise. */
  function RestartColumn(cfg: Config, direction: int): int
  {
    if direction == 1 then 1 else cfg.width - CAR_WIDTH
  }

  /** The values `rand()` returns during one car's step: the 1-in-3 turn draw and the lane of a lane change. */
  datatype CarDraws = CarDraws(fate: nat, lane: nat)

  /**
   * One step of `update_car_pos`, on the car alone: it moves one column; at a
   * border it either turns round (a draw divisible by 3) or moves to the top
   * row of some lane, and restarts at the border it now drives away from.
   */
  ghost predicate CarStep(cfg: Config, roadsPos: seq<int>, c: Car, c': Car, d: CarDraws)
  {
    var moved := c.x + c.direction;
    if !HitsTheBorder(cfg, moved) then c' == c.(x := moved)
    else if d.fate % 3 == 0 then c' == c.(direction := -c.direction, x := RestartColumn(cfg, -c.direction))
    else exists k :: 0 <= k < |roadsPos| && c' == c.(y := roadsPos[k] + 1, x := RestartColumn(cfg, c.direction))
  }

  /**
   * The border branch of `update_car_pos` for a car that stepped from lane
   * `from` onto a border: it turns round in its lane (a draw divisible by
   * 3), or leaves lane `from`, freeing it when it was the last car there, and
   * is placed by `change_car_position` on lane `to` (possibly `from` again);
   * then it restarts at the border it now drives away from.
   */
  method Rebound(cfg: Config, lanes: Lanes, c: Car, from: nat, d: CarDraws) returns (c': Car, ghost to: nat)
    requires cfg.Valid() && lanes.Valid()
    requires Heading(c) && RegisteredOn(lanes, c, from) && HitsTheBorder(cfg, c.x + c.direction)
    modifies lanes.carsOnLane, lanes`freeLanes
    ensures lanes.Valid() && Heading(c')
    ensures CarStep(cfg, lanes.roadsPos, c, c', d)
    ensures Tracks(lanes.roadsPos, old(lanes.carsOnLane[..]), lanes.carsOnLane[..], RowOf, c, c')
    ensures to < |lanes.roadsPos| && c'.y == lanes.roadsPos[to] + 1
    ensures c'.x == RestartColumn(cfg, c'.direction)
    ensures d.fate % 3 == 0 ==> to == from && lanes.carsOnLane[..] == old(lanes.carsOnLane[..])
    ensures d.fate % 3 != 0 ==>
      var left := old(lanes.carsOnLane[..])[from := old(lanes.carsOnLane[from]) - 1];
      to == ChosenLane(left, d.lane) && lanes.carsOnLane[..] == left[to := left[to] + 1]
  {
    var moved := c.(x := c.x + c.direction);
    if d.fate % 3 == 0 {
      var turned := moved.(direction := -moved.direction);
      c' := turned.(x := RestartColumn(cfg, turned.direction));
      to := from;
      TracksStay(lanes.roadsPos, lanes.carsOnLane[..], RowOf, c, c');
    } else {
      c', to := ChangeLane(cfg, lanes, c, from, d.lane);
    }
  }

  /**
   * The lane change of `update_car_pos`: the car leaves lane `from`, which
   * becomes free when it was the last car there, `change_car_position`
   * places it on lane `to` (possibly `from` again) and it restarts at the
   * border it drives away from.
   */
  method ChangeLane(cfg: Config, lanes: Lanes, c: Car, from: nat, laneDraw: nat) returns (c': Car, ghost to: nat)
    requires cfg.Valid() && lanes.Valid() && RegisteredOn(lanes, c, from)
    modifies lanes.carsOnLane, lanes`freeLanes
    ensures lanes.Valid()
    ensures var left := old(lanes.carsOnLane[..])[from := old(lanes.carsOnLane[from]) - 1];
      to == ChosenLane(left, laneDraw) && lanes.carsOnLane[..] == left[to := left[to] + 1]
    ensures to < |lanes.roadsPos| && c' == c.(y := lanes.roadsPos[to] + 1, x := RestartColumn(cfg, c.direction))
    ensures Tracks(lanes.roadsPos, old(lanes.carsOnLane[..]), lanes.carsOnLane[..], RowOf, c, c')
  {
    ghost var before := lanes.carsOnLane[..];
    lanes.LeaveLane(from);
    var placed;
    placed, to := lanes.ChangeCarPosition(c, laneDraw);
    c' := placed.(x := RestartColumn(cfg, c.direction));
    TracksMove(lanes.roadsPos, before, RowOf, c, c', from, to);
  }

  /**
   * update_car_pos: the step `CarStep` describes, with the registry
   * following the car: only a lane change (`Rebound`) touches the counters.
   * Afterwards the car is back at or inside the borders.
   */
  method UpdateCarPos(cfg: Config, lanes: Lanes, c: Car, d: CarDraws) returns (c': Car)
    requires cfg.Valid() && lanes.Valid()
    requires Heading(c) && exists k :: RegisteredOn(lanes, c, k)
    modifies lanes.carsOnLane, lanes`freeLanes
    ensures lanes.Valid() && Heading(c')
    ensures CarStep(cfg, lanes.roadsPos, c, c', d)
    ensures Tracks(lanes.roadsPos, old(lanes.carsOnLane[..]), lanes.carsOnLane[..], RowOf, c, c')
    ensures OnLane(lanes.roadsPos, c'.y)
    ensures 2 <= c'.x <= cfg.width - 3 || c'.x == 1 || c'.x == cfg.width - CAR_WIDTH
    ensures !HitsTheBorder(cfg, c.x + c.direction) ==> lanes.carsOnLane[..] == old(lanes.carsOnLane[..])
  {
    var current := -1;
    var i := 0;
    while i < |lanes.roadsPos|
      invariant 0 <= i <= |lanes.roadsPos|
      invariant current == -1 ==> forall k :: 0 <= k < i ==> lanes.roadsPos[k] != c.y - 1
      invariant current != -1 ==> current == IndexOf(lanes.roadsPos, c.y - 1)
    {
      if c.y == lanes.roadsPos[i] + 1 {
        current := i;
        break;
      }
      i := i + 1;
    }
    ghost var k :| RegisteredOn(lanes, c, k);
    assert current == k;
    if HitsTheBorder(cfg, c.x + c.direction) {
      ghost var to;
      c', to := Rebound(cfg, lanes, c, current, d);
    } else {
      c' := c.(x := c.x + c.direction);
      TracksStay(lanes.roadsPos, lanes.carsOnLane[..], RowOf, c, c');
    }
  }

  /** The car has waited at least its `delay` since its last move. */
  predicate CarIsDue(c: Car, now: int)
  {
    now - c.lastMoveTime >= c.delay
  }

  /** What `cars_move` does to one car: a due car takes its step and records `now` as its last move. */
  ghost predicate CarTurn(cfg: Config, roadsPos: seq<int>, c: Car, c': Car, now: int, d: CarDraws)
  {
    if !CarIsDue(c, now) then c' == c
    else exists s :: CarStep(cfg, roadsPos, c, s, d) && c' == s.(lastMoveTime := now)
  }

  /**
   * One car's turn in `cars_move`: a due car takes its step and records
   * `now` as its last move; the counters follow the car's row.
   */
  method TakeTurn(cfg: Config, lanes: Lanes, c: Car, now: int, d: CarDraws) returns (c': Car)
    requires cfg.Valid() && lanes.Valid()
    requires Heading(c) && exists k :: RegisteredOn(lanes, c, k)
    modifies lanes.carsOnLane, lanes`freeLanes
    ensures lanes.Valid() && Heading(c')
    ensures CarTurn(cfg, lanes.roadsPos, c, c', now, d)
    ensures Tracks(lanes.roadsPos, old(lanes.carsOnLane[..]), lanes.carsOnLane[..], RowOf, c, c')
    ensures OnLane(lanes.roadsPos, c'.y)
  {
    if CarIsDue(c, now) {
      var s := UpdateCarPos(cfg, lanes, c, d);
      c' := s.(lastMoveTime := now);
    } else {
      c' := c;
      ghost var k :| RegisteredOn(lanes, c, k);
      TracksStay(lanes.roadsPos, lanes.carsOnLane[..], RowOf, c, c');
    }
  }

  /**
   * cars_move: the cars take their turns in index order; the registry stays
   * coupled to the cars and its counters keep adding up to `car_number`.
   */
  method CarsMove(cfg: Config, cars: array<Car>, lanes: Lanes, now: int, draws: seq<CarDraws>)
    requires cfg.Valid() && |draws| == cars.Length
    requires Coupled(lanes, cars[..]) && AllHeaded(cars[..])
    modifies cars, lanes.carsOnLane, lanes`freeLanes
    ensures Coupled(lanes, cars[..]) && AllHeaded(cars[..])
    ensures Sum(lanes.carsOnLane[..]) == cars.Length
    ensures forall i :: 0 <= i < cars.Length ==>
      CarTurn(cfg, lanes.roadsPos, old(cars[i]), cars[i], now, draws[i])
  {
    ghost var before := cars[..];
    var i := 0;
    while i < cars.Length
      invariant 0 <= i <= cars.Length
      invariant Coupled(lanes, cars[..]) && AllHeaded(cars[..])
      invariant forall j :: 0 <= j < i ==> CarTurn(cfg, lanes.roadsPos, before[j], cars[j], now, draws[j])
      invariant forall j :: i <= j < cars.Length ==> cars[j] == before[j]
    {
      TurnAt(cfg, cars, lanes, i, now, draws[i]);
      i := i + 1;
    }
    CountersMatchCars(lanes, cars[..]);
  }

  /** Car `i` of the array takes its turn in place; the registry stays coupled to the whole array. */
  method TurnAt(cfg: Config, cars: array<Car>, lanes: Lanes, i: nat, now: int, d: CarDraws)
    requires cfg.Valid() && i < cars.Length
    requires Coupled(lanes, cars[..]) && AllHeaded(cars[..])
    modifies cars, lanes.carsOnLane, lanes`freeLanes
    ensures Coupled(lanes, cars[..]) && AllHeaded(cars[..])
    ensures cars[..] == old(cars[..])[i := cars[i]]
    ensures CarTurn(cfg, lanes.roadsPos, old(cars[i]), cars[i], now, d)
  {
    CoupledRegistered(lanes, cars[..], i);
    ghost var counts := lanes.carsOnLane[..];
    ghost var free := lanes.freeLanes;
    var c' := TakeTurn(cfg, lanes, cars[i], now, d);
    ConsistentUpdate(lanes.roadsPos, counts, free, lanes.carsOnLane[..], lanes.freeLanes, cars[..], RowOf, i, c');
    cars[i] := c';
  }

  /** The cell (px, py) lies inside the car's CAR_WIDTH x CAR_HEIGHT box. */
  predicate InCar(px: int, py: int, c: Car)
  {
    c.y <= py < c.y + CAR_HEIGHT && c.x <= px < c.x + CAR_WIDTH
  }

  /** Some car's box holds the cell (px, py). */
  predicate Hit(px: int, py: int, cars: seq<Car>)
  {
    exists i :: 0 <= i < |cars| && InCar(px, py, cars[i])
  }

  /** check_collision: some car's box holds the frog's left cell. */
  method CheckCollision(frog: Frog, cars: array<Car>) returns (hit: bool)
    ensures hit <==> Hit(frog.x, frog.y, cars[..])
  {
    var i := 0;
    while i < cars.Length
      invariant 0 <= i <= cars.Length
      invariant forall j :: 0 <= j < i ==> !InCar(frog.x, frog.y, cars[j])
    {
      if frog.y >= cars[i].y && frog.y < cars[i].y + CAR_HEIGHT && frog.x >= cars[i].x && frog.x < cars[i].x + CAR_WIDTH {
        return true;
      }
      i := i + 1;
    }
    return false;
  }

  /**
   * Only the frog's left cell is tested. The frog's right cell is in a car
   * while its left cell is not exactly when the frog stands just left of the
   * car on one of its rows; such a frog, alone with that car, is not hit.
   */
  lemma LeftCellOnly(fx: int, fy: int, c: Car)
    ensures !InCar(fx, fy, c) && InCar(fx + 1, fy, c) <==> fx == c.x - 1 && c.y <= fy < c.y + CAR_HEIGHT
    ensures fx == c.x - 1 && c.y <= fy < c.y + CAR_HEIGHT ==> !Hit(fx, fy, [c]) && InCar(fx + 1, fy, c)
  {
  }

  /**
   * The decision of check_game_status: reaching row 1 wins even when a car
   * is there too; otherwise a collision ends the game.
   */
  method CheckGameStatus(frog: Frog, cars: array<Car>) returns (s: Status)
    ensures s == Won <==> frog.y == 1
    ensures s == Crashed <==> frog.y != 1 && exists i :: 0 <= i < cars.Length && InCar(frog.x, frog.y, cars[i])
    ensures s == Ongoing <==> frog.y != 1 && forall i :: 0 <= i < cars.Length ==> !InCar(frog.x, frog.y, cars[i])
  {
    if frog.y == 1 {
      return Won;
    }
    var hit := CheckCollision(frog, cars);
    if hit {
      return Crashed;
    }
    return Ongoing;
  }
}
