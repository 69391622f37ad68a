/**
 * The bookkeeping behind the lane registry of both game versions: one counter
 * per lane (`cars_on_lane[]`), a count of lanes that hold no car
 * (`free_lanes`), the scan that picks the lane a car is placed on, and the
 * relation between the counters and the cars that actually stand on the lanes.
 *
 * A car is on lane `k` when its top row is `roadsPos[k] + 1` (the screen is
 * shifted one row down from the board).  Which cars take part is left to the
 * caller through `rowOf`: the function giving the row a car occupies, or
 * `None` for a car that is parked off the lanes (a hidden car in ver4.cpp).
 */
module LaneCounts {
  import opened Common

  /** Number of lanes whose counter is zero: the value `free_lanes` is meant to hold. */
  function ZeroLanes(counts: seq<int>): (n: nat)
    ensures n <= |counts|
    ensures n == 0 <==> forall k :: 0 <= k < |counts| ==> counts[k] != 0
  {
    if counts == [] then 0
    else ZeroLanes(counts[..|counts| - 1]) + (if counts[|counts| - 1] == 0 then 1 else 0)
  }

  /** Total of all lane counters. */
  function Sum(counts: seq<int>): int
  {
    if counts == [] then 0 else Sum(counts[..|counts| - 1]) + counts[|counts| - 1]
  }

  /**
   * Index of the first entry of `s` equal to `v`, or -1 when there is none:
   * the scans `for (i ...) if (...) { lane = i; break; }` of the source.
   */
  function IndexOf(s: seq<int>, v: int): (r: int)
    ensures -1 <= r < |s|
    ensures r == -1 <==> forall k :: 0 <= k < |s| ==> s[k] != v
    ensures r >= 0 ==> s[r] == v && forall k :: 0 <= k < r ==> s[k] != v
  {
    if s == [] then -1
    else if s[0] == v then 0
    else
      var r := IndexOf(s[1..], v);
      if r == -1 then -1 else r + 1
  }

  /**
   * The lane a car is placed on: the lowest empty lane, and only when no lane
   * is empty the lane `draw % |counts|` given by a random draw.
   */
  function ChosenLane(counts: seq<int>, draw: nat): (lane: nat)
    requires |counts| > 0
    ensures lane < |counts|
    ensures (exists k :: 0 <= k < |counts| && counts[k] == 0) ==>
              counts[lane] == 0 && forall k :: 0 <= k < lane ==> counts[k] != 0
    ensures (forall k :: 0 <= k < |counts| ==> counts[k] != 0) ==> lane == draw % |counts|
  {
    var e := IndexOf(counts, 0);
    if e == -1 then draw % |counts| else e
  }

  /**
   * While lanes `0 .. n - 1` hold one car each and the others none, the
   * next car goes to lane `n`: cars fill the lanes in order.
   */
  lemma ChosenLaneInOrder(counts: seq<int>, n: nat, draw: nat)
    requires n < |counts|
    requires forall k :: 0 <= k < |counts| ==> counts[k] == if k < n then 1 else 0
    ensures ChosenLane(counts, draw) == n
  {
    assert counts[n] == 0;
  }

  /** Changing one counter changes the number of empty lanes only through that counter. */
  lemma {:induction false} ZeroLanesUpdate(counts: seq<int>, k: nat, v: int)
    requires k < |counts|
    ensures ZeroLanes(counts[k := v])
         == ZeroLanes(counts) - (if counts[k] == 0 then 1 else 0) + (if v == 0 then 1 else 0)
  {
    var n := |counts| - 1;
    if k == n {
      assert counts[k := v][..n] == counts[..n];
    } else {
      assert counts[k := v][..n] == counts[..n][k := v];
      ZeroLanesUpdate(counts[..n], k, v);
    }
  }

  /** With every counter at zero, every lane is free. */
  lemma {:induction false} ZeroLanesAllZero(counts: seq<int>)
    requires forall k :: 0 <= k < |counts| ==> counts[k] == 0
    ensures ZeroLanes(counts) == |counts|
  {
    if counts != [] {
      ZeroLanesAllZero(counts[..|counts| - 1]);
    }
  }

  predicate StrictlyIncreasing(s: seq<int>)
  {
    forall i, j :: 0 <= i < j < |s| ==> s[i] < s[j]
  }

  /** Screen row `y` is the top row of some lane. */
  predicate OnLane(roadsPos: seq<int>, y: int)
  {
    exists k :: 0 <= k < |roadsPos| && roadsPos[k] + 1 == y
  }

  /** 1 when `rowOf` puts car `c` on row `y`, else 0. */
  function Counted<C>(rowOf: C -> Option<int>, c: C, y: int): nat
  {
    if rowOf(c) == Some(y) then 1 else 0
  }

  /** Number of cars of `cars` standing on row `y`. */
  function Occupancy<C>(cars: seq<C>, rowOf: C -> Option<int>, y: int): nat
  {
    if cars == [] then 0
    else Occupancy(cars[..|cars| - 1], rowOf, y) + Counted(rowOf, cars[|cars| - 1], y)
  }

  /** Number of cars of `cars` standing on some row (the cars that are not parked). */
  function Resident<C>(cars: seq<C>, rowOf: C -> Option<int>): nat
  {
    if cars == [] then 0
    else Resident(cars[..|cars| - 1], rowOf) + (if rowOf(cars[|cars| - 1]).Some? then 1 else 0)
  }

  /**
   * The registry agrees with the cars: each lane counter is the number of cars
   * on that lane, every car that is not parked is on some lane, and `free`
   * is the number of empty lanes.
   */
  ghost predicate Consistent<C>(roadsPos: seq<int>, counts: seq<int>, free: int,
                                cars: seq<C>, rowOf: C -> Option<int>)
  {
    && |counts| == |roadsPos|
    && (forall k :: 0 <= k < |roadsPos| ==> counts[k] == Occupancy(cars, rowOf, roadsPos[k] + 1))
    && (forall j :: 0 <= j < |cars| && rowOf(cars[j]).Some? ==> OnLane(roadsPos, rowOf(cars[j]).value))
    && free == ZeroLanes(counts)
  }

  /**
   * The counters went from `before` to `after` exactly as car `c` turning
   * into `c'` demands: the lane it left loses one, the lane it joined gains one.
   */
  ghost predicate Tracks<C>(roadsPos: seq<int>, before: seq<int>, after: seq<int>,
                            rowOf: C -> Option<int>, c: C, c': C)
  {
    && |before| == |roadsPos| && |after| == |roadsPos|
    && forall k :: 0 <= k < |roadsPos| ==>
         after[k] == before[k] - Counted(rowOf, c, roadsPos[k] + 1) + Counted(rowOf, c', roadsPos[k] + 1)
  }

  /** A car that keeps its row leaves the counters as they are. */
  lemma TracksStay<C>(roadsPos: seq<int>, counts: seq<int>, rowOf: C -> Option<int>, c: C, c': C)
    requires |counts| == |roadsPos| && rowOf(c') == rowOf(c)
    ensures Tracks(roadsPos, counts, counts, rowOf, c, c')
  {
  }

  /** A parked car that joins lane `k` adds one to that lane's counter only. */
  lemma TracksJoin<C>(roadsPos: seq<int>, counts: seq<int>, rowOf: C -> Option<int>, c: C, c': C, k: nat)
    requires |counts| == |roadsPos| && k < |roadsPos| && StrictlyIncreasing(roadsPos)
    requires rowOf(c) == None && rowOf(c') == Some(roadsPos[k] + 1)
    ensures Tracks(roadsPos, counts, counts[k := counts[k] + 1], rowOf, c, c')
  {
    forall j | 0 <= j < |roadsPos| && j != k
      ensures roadsPos[j] != roadsPos[k]
    {
      if j < k {
        assert roadsPos[j] < roadsPos[k];
      } else {
        assert roadsPos[k] < roadsPos[j];
      }
    }
  }

  /** A car that leaves lane `k` to be parked takes one off that lane's counter only. */
  lemma TracksLeave<C>(roadsPos: seq<int>, counts: seq<int>, rowOf: C -> Option<int>, c: C, c': C, k: nat)
    requires |counts| == |roadsPos| && k < |roadsPos| && StrictlyIncreasing(roadsPos)
    requires rowOf(c) == Some(roadsPos[k] + 1) && rowOf(c') == None
    ensures Tracks(roadsPos, counts, counts[k := counts[k] - 1], rowOf, c, c')
  {
    forall j | 0 <= j < |roadsPos| && j != k
      ensures roadsPos[j] != roadsPos[k]
    {
      if j < k {
        assert roadsPos[j] < roadsPos[k];
      } else {
        assert roadsPos[k] < roadsPos[j];
      }
    }
  }

  /**
   * A car that leaves lane `k` for lane `m` (possibly the same lane) takes
   * one off the counter of `k` and adds one to the counter of `m`.
   */
  lemma TracksMove<C>(roadsPos: seq<int>, counts: seq<int>, rowOf: C -> Option<int>, c: C, c': C, k: nat, m: nat)
    requires |counts| == |roadsPos| && k < |roadsPos| && m < |roadsPos| && StrictlyIncreasing(roadsPos)
    requires rowOf(c) == Some(roadsPos[k] + 1) && rowOf(c') == Some(roadsPos[m] + 1)
    ensures var left := counts[k := counts[k] - 1];
      Tracks(roadsPos, counts, left[m := left[m] + 1], rowOf, c, c')
  {
    forall j | 0 <= j < |roadsPos|
      ensures (roadsPos[j] == roadsPos[k] <==> j == k) && (roadsPos[j] == roadsPos[m] <==> j == m)
    {
      if j != k {
        if j < k {
          assert roadsPos[j] < roadsPos[k];
        } else {
          assert roadsPos[k] < roadsPos[j];
        }
      }
      if j != m {
        if j < m {
          assert roadsPos[j] < roadsPos[m];
        } else {
          assert roadsPos[m] < roadsPos[j];
        }
      }
    }
  }

  /** Two changes of one car in a row change the counters as one change would. */
  lemma TracksCompose<C>(roadsPos: seq<int>, c0: seq<int>, c1: seq<int>, c2: seq<int>,
                         rowOf: C -> Option<int>, a: C, b: C, c: C)
    requires Tracks(roadsPos, c0, c1, rowOf, a, b) && Tracks(roadsPos, c1, c2, rowOf, b, c)
    ensures Tracks(roadsPos, c0, c2, rowOf, a, c)
  {
  }

  /** Replacing one car changes the occupancy of a row only through that car. */
  lemma {:induction false} OccupancyUpdate<C>(cars: seq<C>, rowOf: C -> Option<int>, i: nat, c: C, y: int)
    requires i < |cars|
    ensures Occupancy(cars[i := c], rowOf, y)
         == Occupancy(cars, rowOf, y) - Counted(rowOf, cars[i], y) + Counted(rowOf, c, y)
  {
    var n := |cars| - 1;
    if i == n {
      assert cars[i := c][..n] == cars[..n];
    } else {
      assert cars[i := c][..n] == cars[..n][i := c];
      OccupancyUpdate(cars[..n], rowOf, i, c, y);
    }
  }

  /** A car that stands on row `y` is among the cars counted on that row. */
  lemma MemberCounted<C>(cars: seq<C>, rowOf: C -> Option<int>, i: nat, y: int)
    requires i < |cars|
    ensures Occupancy(cars, rowOf, y) >= Counted(rowOf, cars[i], y)
  {
    var n := |cars| - 1;
    if i < n {
      MemberCounted(cars[..n], rowOf, i, y);
    } else {
      assert cars[..n + 1][n] == cars[i];
    }
  }

  /** One car changing as `Tracks` describes keeps the registry consistent with the cars. */
  lemma ConsistentUpdate<C>(roadsPos: seq<int>, counts: seq<int>, free: int, counts': seq<int>, free': int,
                            cars: seq<C>, rowOf: C -> Option<int>, i: nat, c': C)
    requires Consistent(roadsPos, counts, free, cars, rowOf)
    requires i < |cars|
    requires Tracks(roadsPos, counts, counts', rowOf, cars[i], c')
    requires rowOf(c').Some? ==> OnLane(roadsPos, rowOf(c').value)
    requires free' == ZeroLanes(counts')
    ensures Consistent(roadsPos, counts', free', cars[i := c'], rowOf)
  {
    forall k | 0 <= k < |roadsPos|
      ensures counts'[k] == Occupancy(cars[i := c'], rowOf, roadsPos[k] + 1)
    {
      OccupancyUpdate(cars, rowOf, i, c', roadsPos[k] + 1);
    }
  }

  /** Adding a car that the counters already account for keeps the registry consistent. */
  lemma ConsistentAppend<C>(roadsPos: seq<int>, counts: seq<int>, free: int, counts': seq<int>, free': int,
                            cars: seq<C>, rowOf: C -> Option<int>, c: C)
    requires Consistent(roadsPos, counts, free, cars, rowOf)
    requires |counts'| == |roadsPos|
    requires forall k :: 0 <= k < |roadsPos| ==> counts'[k] == counts[k] + Counted(rowOf, c, roadsPos[k] + 1)
    requires rowOf(c).Some? ==> OnLane(roadsPos, rowOf(c).value)
    requires free' == ZeroLanes(counts')
    ensures Consistent(roadsPos, counts', free', cars + [c], rowOf)
  {
    assert (cars + [c])[..|cars|] == cars;
  }

  /** Sum over the lanes of the number of cars on each lane. */
  function LaneTotal<C>(roadsPos: seq<int>, cars: seq<C>, rowOf: C -> Option<int>): nat
  {
    if roadsPos == [] then 0
    else LaneTotal(roadsPos[..|roadsPos| - 1], cars, rowOf)
         + Occupancy(cars, rowOf, roadsPos[|roadsPos| - 1] + 1)
  }

  /** Number of lanes car `c` stands on. */
  function Hits<C>(roadsPos: seq<int>, rowOf: C -> Option<int>, c: C): nat
  {
    if roadsPos == [] then 0
    else Hits(roadsPos[..|roadsPos| - 1], rowOf, c) + Counted(rowOf, c, roadsPos[|roadsPos| - 1] + 1)
  }

  lemma {:induction false} SumIsLaneTotal<C>(roadsPos: seq<int>, counts: seq<int>, cars: seq<C>,
                                             rowOf: C -> Option<int>)
    requires |counts| == |roadsPos|
    requires forall k :: 0 <= k < |roadsPos| ==> counts[k] == Occupancy(cars, rowOf, roadsPos[k] + 1)
    ensures Sum(counts) == LaneTotal(roadsPos, cars, rowOf)
  {
    if roadsPos != [] {
      var n := |roadsPos| - 1;
      SumIsLaneTotal(roadsPos[..n], counts[..n], cars, rowOf);
    }
  }

  lemma {:induction false} LaneTotalSnoc<C>(roadsPos: seq<int>, cars: seq<C>, rowOf: C -> Option<int>, c: C)
    ensures LaneTotal(roadsPos, cars + [c], rowOf) == LaneTotal(roadsPos, cars, rowOf) + Hits(roadsPos, rowOf, c)
  {
    assert (cars + [c])[..|cars|] == cars;
    if roadsPos != [] {
      LaneTotalSnoc(roadsPos[..|roadsPos| - 1], cars, rowOf, c);
    }
  }

  /** On distinct lanes a car stands on exactly one lane, or on none when it is parked or off the lanes. */
  lemma {:induction false} HitsAtMostOne<C>(roadsPos: seq<int>, rowOf: C -> Option<int>, c: C)
    requires StrictlyIncreasing(roadsPos)
    ensures Hits(roadsPos, rowOf, c) == if rowOf(c).Some? && OnLane(roadsPos, rowOf(c).value) then 1 else 0
  {
    if roadsPos != [] {
      var n := |roadsPos| - 1;
      var front := roadsPos[..n];
      HitsAtMostOne(front, rowOf, c);
      if rowOf(c) == Some(roadsPos[n] + 1) {
        assert !OnLane(front, rowOf(c).value) by {
          forall k | 0 <= k < n ensures front[k] + 1 != rowOf(c).value {
            assert roadsPos[k] < roadsPos[n];
          }
        }
      } else if rowOf(c).Some? && OnLane(roadsPos, rowOf(c).value) {
        var k :| 0 <= k < |roadsPos| && roadsPos[k] + 1 == rowOf(c).value;
        assert k < n && front[k] == roadsPos[k];
      }
    }
  }

  lemma {:induction false} LaneTotalIsResident<C>(roadsPos: seq<int>, cars: seq<C>, rowOf: C -> Option<int>)
    requires StrictlyIncreasing(roadsPos)
    requires forall j :: 0 <= j < |cars| && rowOf(cars[j]).Some? ==> OnLane(roadsPos, rowOf(cars[j]).value)
    ensures LaneTotal(roadsPos, cars, rowOf) == Resident(cars, rowOf)
  {
    if cars == [] {
      LaneTotalEmpty(roadsPos, rowOf);
    } else {
      var n := |cars| - 1;
      var front := cars[..n];
      assert front + [cars[n]] == cars;
      LaneTotalIsResident(roadsPos, front, rowOf);
      LaneTotalSnoc(roadsPos, front, rowOf, cars[n]);
      HitsAtMostOne(roadsPos, rowOf, cars[n]);
    }
  }

  lemma {:induction false} LaneTotalEmpty<C>(roadsPos: seq<int>, rowOf: C -> Option<int>)
    ensures LaneTotal(roadsPos, [], rowOf) == 0
  {
    if roadsPos != [] {
      LaneTotalEmpty(roadsPos[..|roadsPos| - 1], rowOf);
    }
  }

  /**
   * When the registry is consistent with the cars, the lane counters add up
   * to the number of cars standing on the lanes.
   */
  lemma CountersSumToResidentCars<C>(roadsPos: seq<int>, counts: seq<int>, free: int,
                                     cars: seq<C>, rowOf: C -> Option<int>)
    requires StrictlyIncreasing(roadsPos)
    requires Consistent(roadsPos, counts, free, cars, rowOf)
    ensures Sum(counts) == Resident(cars, rowOf)
  {
    SumIsLaneTotal(roadsPos, counts, cars, rowOf);
    LaneTotalIsResident(roadsPos, cars, rowOf);
  }

  /** Before any car is placed, all-zero counters with every lane free are consistent. */
  lemma InitiallyConsistent<C>(roadsPos: seq<int>, counts: seq<int>, rowOf: C -> Option<int>)
    requires |counts| == |roadsPos|
    requires forall k :: 0 <= k < |counts| ==> counts[k] == 0
    ensures Consistent(roadsPos, counts, |roadsPos|, [], rowOf)
  {
    ZeroLanesAllZero(counts);
  }
}
