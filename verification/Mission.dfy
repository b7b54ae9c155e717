/** The waypoint mission of driveInnerLoop: global state advanced by each call of
    `waypointControlMode`. */
module Mission {
  import opened Bits

  const WP_MAX_LAPS := 5
  const CLOSE_TO_HOME := 20.0
  const CLOSE_TO_WAYPOINT := 250.0

  /** Speed, north and east of the point the robot is heading for. */
  datatype Target = Target(v: real, pn: real, pe: real)

  function Waypoint(n: nat): Target
    requires 1 <= n <= 4
  {
    match n
    case 1 => Target(450.0, -2000.0, -2000.0)
    case 2 => Target(450.0, 2000.0, -2000.0)
    case 3 => Target(450.0, 2000.0, 2000.0)
    case 4 => Target(450.0, -2000.0, 2000.0)
  }

  /** The globals; `visited` and `homing` record the run: the numbers of the
      waypoints arrived at, and the distances seen by the homing calls since
      go-home was last entered. */
  datatype State = State(
    count: nat, laps: nat, goHome: bool, finalYaw: bool, target: Target, cycles: nat,
    visited: seq<nat>, homing: seq<real>)

  /** What one call is given: the distance to the current target, and the yaw. */
  datatype Input = Input(dist: real, yaw: real)

  /** The state after a call and whether the mission goes on (the result is not 0). */
  datatype Result = Result(state: State, more: bool)

  function Truncate(x: real): int {
    if x >= 0.0 then x.Floor else -((-x).Floor)
  }

  /** `abs(yaw_err) < 0.5` with the integer `abs` of C. */
  predicate Aligned(yaw: real) {
    Magnitude(Truncate(0.0 - yaw)) as real < 0.5
  }

  /** The integer `abs` truncates first, so the test accepts errors below 1. */
  lemma AlignedMeans(yaw: real)
    ensures Aligned(yaw) <==> -1.0 < yaw < 1.0
  {
  }

  predicate Arrives(i: Input) {
    i.dist < CLOSE_TO_WAYPOINT
  }

  /** A mission that has no waypoint yet starts with the first one. */
  function Begin(s: State): State {
    if s.count == 0 && !s.goHome then s.(count := 1, target := Waypoint(1)) else s
  }

  function Home(s: State, i: Input): Result {
    var near := i.dist < CLOSE_TO_HOME || s.finalYaw;
    var t := s.(laps := 0, count := 0, target := Target(i.dist / 5.0, 0.0, 0.0), finalYaw := near,
                homing := s.homing + [i.dist]);
    if near && Aligned(i.yaw) then Result(t.(goHome := false, finalYaw := false), false) else Result(t, true)
  }

  function Outbound(s: State, i: Input): State {
    var count := if Arrives(i) then s.count + 1 else s.count;
    var t := if Arrives(i) then s.(visited := s.visited + [s.count]) else s;
    if 1 <= count <= 4 then t.(count := count, target := Waypoint(count))
    else if s.laps < WP_MAX_LAPS then t.(laps := s.laps + 1, count := 1, target := Waypoint(1))
    else t.(goHome := true, laps := 0, count := 0, target := Target(0.0, 0.0, 0.0), homing := [])
  }

  function Step(s: State, i: Input): Result {
    var t := Begin(s).(cycles := if s.cycles + 1 >= 3 then 3 else s.cycles + 1);
    if t.goHome then Home(t, i) else Result(Outbound(t, i), true)
  }

  function Run(s: State, inputs: seq<Input>): State {
    if inputs == [] then s
    else Step(Run(s, inputs[..|inputs| - 1]), inputs[|inputs| - 1]).state
  }

  function Arrivals(inputs: seq<Input>): nat {
    if inputs == [] then 0
    else Arrivals(inputs[..|inputs| - 1]) + if inputs[|inputs| - 1].dist < 250.0 then 1 else 0
  }

  // ---- the routine with its globals ------------------------------------------------------

  class Pilot {
    var count: nat
    var laps: nat
    var goHome: bool
    var finalYaw: bool
    var target: Target
    var cycles: nat
    ghost var visited: seq<nat>
    ghost var homing: seq<real>

    ghost function View(): State
      reads this
    {
      State(count, laps, goHome, finalYaw, target, cycles, visited, homing)
    }

    constructor ()
      ensures View() == START
    {
      count, laps, goHome, finalYaw, target, cycles := 0, 1, false, false, Target(0.0, 0.0, 0.0), 0;
      visited, homing := [], [];
    }

    /** `waypointControlMode`, given the distance that PositionCommand computes. */
    method WaypointControlMode(dist: real, yaw: real) returns (start: int)
      modifies this
      ensures var r := Step(old(View()), Input(dist, yaw));
              View() == r.state && start == if r.more then 1 else 0
    {
      start := 1;
      if count == 0 && !goHome {
        count := count + 1;
        target := Waypoint(1);
      }
      cycles := cycles + 1;
      if cycles >= 3 {
        cycles := 3;
      }
      var speed := dist / 5.0;
      if !goHome {
        speed := target.v;
      }
      if goHome {
        start := HomeCall(dist, yaw, speed);
      } else {
        WaypointCall(dist);
      }
    }

    /** The call while homing; counting an arrival has no effect there, because
        the branch sets the count to 0. */
    method HomeCall(dist: real, yaw: real, speed: real) returns (start: int)
      requires goHome && speed == dist / 5.0
      modifies this
      ensures var r := Home(old(View()), Input(dist, yaw));
              View() == r.state && start == if r.more then 1 else 0
    {
      start := 1;
      if dist < CLOSE_TO_WAYPOINT {
        count := count + 1;
      }
      goHome := true;
      laps, count := 0, 0;
      target := Target(speed, 0.0, 0.0);
      homing := homing + [dist];
      if dist < CLOSE_TO_HOME || finalYaw {
        finalYaw := true;
        var yawErr := 0.0 - yaw;
        if Magnitude(Truncate(yawErr)) as real < 0.5 {
          start := 0;
          goHome, laps, count, finalYaw := false, 0, 0, false;
        }
      }
    }

    method WaypointCall(dist: real)
      requires !goHome
      modifies this
      ensures forall yaw :: View() == Outbound(old(View()), Input(dist, yaw))
    {
      if dist < CLOSE_TO_WAYPOINT {
        visited := visited + [count];
        count := count + 1;
      }
      if count == 1 {
        target := Waypoint(1);
      } else if count == 2 {
        target := Waypoint(2);
      } else if count == 3 {
        target := Waypoint(3);
      } else if count == 4 {
        target := Waypoint(4);
      } else if laps < WP_MAX_LAPS {
        laps := laps + 1;
        count := 1;
        target := Waypoint(1);
      } else {
        goHome := true;
        laps, count := 0, 0;
        target := Target(0.0, 0.0, 0.0);
        homing := [];
      }
    }
  }

  const START := State(0, 1, false, false, Target(0.0, 0.0, 0.0), 0, [], [])

  // ---- what every call keeps --------------------------------------------------------------

  predicate Inv(s: State) {
    && s.count <= 4
    && (s.goHome ==> s.count == 0 && s.laps == 0 && s.target.pn == 0.0 && s.target.pe == 0.0)
    && (!s.goHome && s.count > 0 ==> s.target == Waypoint(s.count))
    && s.laps <= WP_MAX_LAPS
    && (s.finalYaw ==> s.goHome && exists k :: 0 <= k < |s.homing| && s.homing[k] < CLOSE_TO_HOME)
  }

  lemma StepKeepsInv(s: State, i: Input)
    requires Inv(s)
    ensures Inv(Step(s, i).state)
  {
    var t := Step(s, i).state;
    if s.goHome {
      assert t.homing[|s.homing|] == i.dist;
      if s.finalYaw {
        var k :| 0 <= k < |s.homing| && s.homing[k] < CLOSE_TO_HOME;
        assert t.homing[k] < CLOSE_TO_HOME;
      }
    }
  }

  /** On every run, at every call boundary: the waypoint number is at most 4,
      homing has none and aims at the origin, and the target is the numbered one. */
  lemma {:induction false} RunKeepsInv(inputs: seq<Input>)
    ensures Inv(Run(START, inputs))
    decreases |inputs|
  {
    if inputs != [] {
      RunKeepsInv(inputs[..|inputs| - 1]);
      StepKeepsInv(Run(START, inputs[..|inputs| - 1]), inputs[|inputs| - 1]);
    }
  }

  /** On every run the robot heads for the corner of the square with its waypoint's
      number, and counts its first three calls. */
  lemma HeadsFor(inputs: seq<Input>)
    ensures var s := Run(START, inputs);
            && s.count <= 4
            && (!s.goHome && s.count == 1 ==> s.target == Target(450.0, -2000.0, -2000.0))
            && (!s.goHome && s.count == 2 ==> s.target == Target(450.0, 2000.0, -2000.0))
            && (!s.goHome && s.count == 3 ==> s.target == Target(450.0, 2000.0, 2000.0))
            && (!s.goHome && s.count == 4 ==> s.target == Target(450.0, -2000.0, 2000.0))
            && (s.goHome ==> s.target.pn == 0.0 && s.target.pe == 0.0)
            && s.cycles == if |inputs| < 3 then |inputs| else 3
  {
    RunKeepsInv(inputs);
    CountsCalls(inputs);
  }

  lemma {:induction false} CountsCalls(inputs: seq<Input>)
    ensures Run(START, inputs).cycles == if |inputs| < 3 then |inputs| else 3
    decreases |inputs|
  {
    if inputs != [] { CountsCalls(inputs[..|inputs| - 1]); }
  }

  /** Some homing call of this approach was within 20 mm. */
  ghost predicate WasHome(homing: seq<real>) {
    exists k :: 0 <= k < |homing| && homing[k] < 20.0
  }

  lemma {:induction false} FinalYawIff(inputs: seq<Input>)
    ensures var s := Run(START, inputs); s.goHome ==> (s.finalYaw <==> WasHome(s.homing))
    decreases |inputs|
  {
    if inputs != [] {
      var before, last := inputs[..|inputs| - 1], inputs[|inputs| - 1];
      FinalYawIff(before);
      RunKeepsInv(before);
      var s, t := Run(START, before), Run(START, inputs);
      if s.goHome && t.goHome {
        WasHomeGrows(s.homing, last.dist);
      }
    }
  }

  lemma WasHomeGrows(homing: seq<real>, dist: real)
    ensures WasHome(homing + [dist]) <==> WasHome(homing) || dist < 20.0
  {
    var more := homing + [dist];
    if WasHome(homing) {
      var k :| 0 <= k < |homing| && homing[k] < 20.0;
      assert more[k] < 20.0;
    }
    assert more[|homing|] == dist;
  }

  /** The routine returns 0 exactly in a homing call within a degree of the wanted
      heading, once a homing call of this approach, this one included, was within
      20 mm of the origin. */
  lemma StopsOnlyAtHome(inputs: seq<Input>, last: Input)
    ensures var s := Run(START, inputs);
            !Step(s, last).more <==> s.goHome && -1.0 < last.yaw < 1.0 && WasHome(s.homing + [last.dist])
  {
    FinalYawIff(inputs);
    AlignedMeans(last.yaw);
    WasHomeGrows(Run(START, inputs).homing, last.dist);
  }

  /** A homing call steers for the origin, the slower the nearer it is. */
  lemma HomingCall(s: State, i: Input)
    requires s.goHome
    ensures var t := Step(s, i).state;
            t.target == Target(i.dist / 5.0, 0.0, 0.0) && t.count == 0 && t.laps == 0 && t.homing == s.homing + [i.dist]
  {
  }

  // ---- the laps ----------------------------------------------------------------------------

  /** Waypoints 1, 2, 3, 4 and again, `k` of them. */
  function Cycle(k: nat): seq<nat> {
    seq(k, i requires i >= 0 => i % 4 + 1)
  }

  /** Arrivals before go-home, from lap count `laps`. */
  function Quota(laps: nat): nat {
    if laps < 5 then 4 * (5 - laps + 1) else 4
  }

  predicate Fresh(s: State) {
    s.count == 0 && !s.goHome
  }

  /** Still on its way after `k` arrivals. */
  predicate OnLap(start: State, s: State, k: nat, called: bool) {
    && !s.goHome && s.laps == start.laps + k / 4
    && s.count == (if called then k % 4 + 1 else 0)
    && s.visited == start.visited + Cycle(k)
  }

  lemma LapStep(start: State, s: State, i: Input, k: nat, called: bool)
    requires Fresh(start) && OnLap(start, s, k, called) && k < Quota(start.laps) && (k > 0 ==> called)
    ensures var t, k' := Step(s, i).state, if Arrives(i) then k + 1 else k;
            && Step(s, i).more
            && (k' < Quota(start.laps) ==> OnLap(start, t, k', true))
            && (k' == Quota(start.laps) ==> t.goHome && t.visited == start.visited + Cycle(k'))
  {
    if Arrives(i) {
      assert Cycle(k + 1) == Cycle(k) + [k % 4 + 1];
      assert start.visited + Cycle(k) + [k % 4 + 1] == start.visited + (Cycle(k) + [k % 4 + 1]);
      LapArithmetic(start.laps, k);
    }
  }

  lemma LapArithmetic(laps: nat, k: nat)
    requires k < Quota(laps)
    ensures k % 4 == 3 ==> (k + 1) % 4 == 0 && (k + 1) / 4 == k / 4 + 1
    ensures k % 4 < 3 ==> (k + 1) % 4 == k % 4 + 1 && (k + 1) / 4 == k / 4 && k + 1 < Quota(laps)
    ensures k % 4 == 3 ==> (k + 1 == Quota(laps) <==> laps + k / 4 >= WP_MAX_LAPS)
  {
  }

  /** Until the quota is reached the mission visits 1, 2, 3, 4 cyclically, counting
      a lap for every four arrivals; it heads for the next waypoint of the cycle. */
  lemma {:induction false} MissionVisitsCyclically(start: State, inputs: seq<Input>)
    requires Fresh(start) && Arrivals(inputs) < Quota(start.laps)
    ensures OnLap(start, Run(start, inputs), Arrivals(inputs), inputs != [])
    decreases |inputs|
  {
    if inputs == [] {
      assert start.visited + Cycle(0) == start.visited;
    } else {
      var before, last := inputs[..|inputs| - 1], inputs[|inputs| - 1];
      MissionVisitsCyclically(start, before);
      LapStep(start, Run(start, before), last, Arrivals(before), before != []);
    }
  }

  /** Go-home is entered by the call of exactly the last arrival of the quota:
      four waypoints in each of the laps still to go, this one included. */
  lemma GoesHomeAfterQuota(start: State, before: seq<Input>, last: Input)
    requires Fresh(start) && Arrivals(before) == Quota(start.laps) - 1 && last.dist < 250.0
    ensures !Run(start, before).goHome
    ensures Run(start, before + [last]).goHome
    ensures Run(start, before + [last]).visited == start.visited + Cycle(Quota(start.laps))
  {
    MissionVisitsCyclically(start, before);
    LapStep(start, Run(start, before), last, Arrivals(before), before != []);
    assert (before + [last])[..|before|] == before;
  }

  /** The first mission takes 20 arrivals.  One that starts after a homecoming
      takes 24: the lap count was reset to 0, not to its initial 1. */
  lemma MissionLengths(s: State, i: Input)
    ensures Quota(START.laps) == 20
    ensures !Step(s, i).more ==> Fresh(Step(s, i).state) && Quota(Step(s, i).state.laps) == 24
  {
  }
}
