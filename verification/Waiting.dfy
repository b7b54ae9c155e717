/** `waitDistance` and `stopWait` of the Create library. */
module Waiting {
  import opened Bits
  import opened SensorCache

  // ---- stopWait ----------------------------------------------------------------------

  /** How many readings at the end of `history` are positive without a gap. */
  function PositiveRun(history: seq<int>): nat {
    if history == [] || history[|history| - 1] <= 0 then 0
    else 1 + PositiveRun(history[..|history| - 1])
  }

  /** The overcurrent sensor has been positive 5, 10, 15, ... times in a row. */
  predicate Overcurrent(history: seq<int>) {
    PositiveRun(history) > 0 && PositiveRun(history) % 5 == 0
  }

  /** `stopWait` with its static counter. */
  class StopCheck {
    var overCurrentCount: nat
    /** All overcurrent readings so far. */
    ghost var history: seq<int>

    ghost predicate Valid()
      reads this
    {
      overCurrentCount == PositiveRun(history) % 5
    }

    constructor ()
      ensures Valid() && history == []
    {
      overCurrentCount, history := 0, [];
    }

    method StopWait(overcurrent: int, bumps: int, cliffs: int) returns (shouldStop: int)
      requires Valid()
      modifies this
      ensures Valid() && history == old(history) + [overcurrent]
      ensures shouldStop == (if Overcurrent(history) then 1 else 0) + bumps + cliffs
    {
      shouldStop := 0;
      history := history + [overcurrent];
      assert history[..|history| - 1] == old(history);
      if overcurrent > 0 {
        overCurrentCount := overCurrentCount + 1;
      } else {
        overCurrentCount := 0;
      }
      if overCurrentCount > 4 {
        shouldStop := shouldStop + 1;
        overCurrentCount := 0;
      }
      shouldStop := shouldStop + (bumps + cliffs);
    }
  }

  // ---- waitDistance --------------------------------------------------------------------

  /** What happens up to one poll: the increments the sensor thread adds during
      the sleep, and what `stopWait` then reads. */
  datatype Poll = Poll(increments: seq<int>, overcurrent: int, bumps: int, cliffs: int)

  datatype Result = StillWaiting | Failed | Travelled(count: int)

  /** Everything sensed up to and including poll number `k`. */
  function Sensed(polls: seq<Poll>, k: nat): seq<int>
    requires k <= |polls|
  {
    if k == 0 then [] else Sensed(polls, k - 1) + polls[k - 1].increments
  }

  function Count(polls: seq<Poll>, k: nat): int
    requires k <= |polls|
  {
    if k == 0 then 0 else Count(polls, k - 1) + Sum(polls[k - 1].increments)
  }

  /** The overcurrent readings of the first `k` polls. */
  function Readings(polls: seq<Poll>, k: nat): (r: seq<int>)
    requires k <= |polls|
    ensures |r| == k
  {
    if k == 0 then [] else Readings(polls, k - 1) + [polls[k - 1].overcurrent]
  }

  /** The signed target is reached. */
  predicate Reached(dist: int, count: int) {
    if dist >= 0 then count >= dist else count <= dist
  }

  /** `stopWait` objects after the readings `history`, the last one of this poll. */
  predicate Objects(history: seq<int>, poll: Poll) {
    (if Overcurrent(history) then 1 else 0) + poll.bumps + poll.cliffs != 0
  }

  /** The loop ends at poll number `k`, counting from 1; `history` is what
      `stopWait` had read before. */
  predicate Ends(dist: int, interrupt: bool, history: seq<int>, polls: seq<Poll>, k: nat)
    requires 1 <= k <= |polls|
  {
    || Sum(polls[k - 1].increments) == INT_MIN
    || (interrupt && Objects(history + Readings(polls, k), polls[k - 1]))
    || Reached(dist, Count(polls, k))
  }

  predicate NoneEnds(dist: int, interrupt: bool, history: seq<int>, polls: seq<Poll>, n: nat)
    requires n <= |polls|
  {
    forall k: nat :: 1 <= k <= n ==> !Ends(dist, interrupt, history, polls, k)
  }

  lemma {:induction false} CountIsSum(polls: seq<Poll>, k: nat)
    requires k <= |polls|
    ensures Count(polls, k) == Sum(Sensed(polls, k))
  {
    if k > 0 {
      CountIsSum(polls, k - 1);
      SumAppends(Sensed(polls, k - 1), polls[k - 1].increments);
    }
  }

  /** Without interruption the loop overshoots a target it started short of by
      less than what the last poll brought, which points toward the target. */
  lemma Overshoot(dist: int, history: seq<int>, polls: seq<Poll>, k: nat)
    requires 1 <= k <= |polls| && dist != 0
    requires NoneEnds(dist, false, history, polls, k - 1)
    requires Reached(dist, Count(polls, k))
    ensures var last := Sum(polls[k - 1].increments);
            if dist > 0 then 0 <= Count(polls, k) - dist < last else last < Count(polls, k) - dist <= 0
  {
    if k > 1 {
      assert !Ends(dist, false, history, polls, k - 1);
    }
  }

  // ---- overcurrent during a wait ---------------------------------------------------------

  lemma RunOfOneMore(history: seq<int>, polls: seq<Poll>, k: nat)
    requires 1 <= k <= |polls|
    ensures PositiveRun(history + Readings(polls, k))
         == if polls[k - 1].overcurrent <= 0 then 0 else 1 + PositiveRun(history + Readings(polls, k - 1))
  {
    var h := history + Readings(polls, k);
    assert h[|h| - 1] == polls[k - 1].overcurrent;
    assert h[..|h| - 1] == history + Readings(polls, k - 1);
  }

  lemma {:induction false} RunOfMore(history: seq<int>, polls: seq<Poll>, i: nat, m: nat)
    requires i + m <= |polls| && forall j :: i <= j < i + m ==> polls[j].overcurrent > 0
    ensures PositiveRun(history + Readings(polls, i + m)) == m + PositiveRun(history + Readings(polls, i))
    decreases m
  {
    if m > 0 {
      RunOfMore(history, polls, i, m - 1);
      RunOfOneMore(history, polls, i + m);
    }
  }

  lemma {:induction false} RunIsPositive(history: seq<int>)
    ensures PositiveRun(history) <= |history|
    ensures forall j :: |history| - PositiveRun(history) <= j < |history| ==> history[j] > 0
    decreases |history|
  {
    if PositiveRun(history) > 0 {
      var before := history[..|history| - 1];
      RunIsPositive(before);
      forall j | |history| - PositiveRun(history) <= j < |history|
        ensures history[j] > 0
      {
        assert j < |history| - 1 ==> before[j] == history[j];
      }
    }
  }

  /** The overcurrent contribution needs five positive readings in a row. */
  lemma OvercurrentNeedsFive(history: seq<int>)
    requires Overcurrent(history)
    ensures |history| >= 5 && forall j :: |history| - 5 <= j < |history| ==> history[j] > 0
  {
    RunIsPositive(history);
    AtLeastFive(PositiveRun(history));
  }

  lemma AtLeastFive(n: nat)
    requires n > 0 && n % 5 == 0
    ensures n >= 5
  {
  }

  lemma NextMultiple(r: nat)
    ensures 1 <= 5 - r % 5 <= 5 && (5 - r % 5 + r) % 5 == 0
  {
  }

  /** Overcurrent at five polls in a row ends an interruptible wait at one of them at
      the latest, whatever `stopWait` counted before. */
  lemma FiveInARowEnds(dist: int, history: seq<int>, polls: seq<Poll>, i: nat)
    requires i + 5 <= |polls| && forall j :: i <= j < i + 5 ==> polls[j].overcurrent > 0
    requires forall p <- polls :: p.bumps >= 0 && p.cliffs >= 0
    ensures exists k :: i < k <= i + 5 && Ends(dist, true, history, polls, k)
  {
    var run := PositiveRun(history + Readings(polls, i));
    var m := 5 - run % 5;
    NextMultiple(run);
    RunOfMore(history, polls, i, m);
    assert Objects(history + Readings(polls, i + m), polls[i + m - 1]);
    assert Ends(dist, true, history, polls, i + m);
  }

  // ---- the loop ------------------------------------------------------------------------------

  /** The result `r` after `n` polls: the last one is the first that ends the
      loop, and the count is everything sensed up to it. */
  predicate IsWait(dist: int, interrupt: bool, history: seq<int>, polls: seq<Poll>, r: Result, n: nat) {
    if r.StillWaiting? then n == |polls| && NoneEnds(dist, interrupt, history, polls, n)
    else
      && 1 <= n <= |polls| && NoneEnds(dist, interrupt, history, polls, n - 1)
      && Ends(dist, interrupt, history, polls, n)
      && (r.Failed? <==> Sum(polls[n - 1].increments) == INT_MIN)
      && (r.Travelled? ==> r.count == Sum(Sensed(polls, n)))
  }

  /** What one round decides. */
  function Verdict(dist: int, interrupt: bool, history: seq<int>, poll: Poll, count: int): Result {
    if Sum(poll.increments) == INT_MIN then Failed
    else if (interrupt && Objects(history, poll)) || Reached(dist, count) then Travelled(count)
    else StillWaiting
  }

  /** `read` is all that `stopWait` has read by then. */
  lemma RoundDecides(dist: int, interrupt: bool, history: seq<int>, polls: seq<Poll>, n: nat, read: seq<int>, r: Result)
    requires 1 <= n <= |polls| && NoneEnds(dist, interrupt, history, polls, n - 1)
    requires interrupt && Sum(polls[n - 1].increments) != INT_MIN ==> read == history + Readings(polls, n)
    requires r == Verdict(dist, interrupt, read, polls[n - 1], Count(polls, n))
    ensures if r.StillWaiting? then NoneEnds(dist, interrupt, history, polls, n)
            else IsWait(dist, interrupt, history, polls, r, n)
  {
    CountIsSum(polls, n);
    assert r.StillWaiting? <==> !Ends(dist, interrupt, history, polls, n);
  }

  /** Poll number `k` finds nothing wrong and the target not reached. */
  predicate GoesOn(dist: int, interrupt: bool, history: seq<int>, polls: seq<Poll>, k: nat)
    requires 1 <= k <= |polls|
  {
    && Sum(polls[k - 1].increments) != -2147483648
    && (if dist >= 0 then Sum(Sensed(polls, k)) < dist else Sum(Sensed(polls, k)) > dist)
    && (interrupt ==> (if Overcurrent(history + Readings(polls, k)) then 1 else 0)
                      + polls[k - 1].bumps + polls[k - 1].cliffs == 0)
  }

  lemma GoesOnIff(dist: int, interrupt: bool, history: seq<int>, polls: seq<Poll>, k: nat)
    requires 1 <= k <= |polls|
    ensures GoesOn(dist, interrupt, history, polls, k) <==> !Ends(dist, interrupt, history, polls, k)
  {
    CountIsSum(polls, k);
  }

  /** The loop goes on while nothing is wrong and the target is not reached, and only as
      long; what it returns is everything sensed, for a reason at the last poll. */
  lemma WaitMeans(dist: int, interrupt: bool, history: seq<int>, polls: seq<Poll>, r: Result, n: nat)
    requires IsWait(dist, interrupt, history, polls, r, n)
    ensures n <= |polls|
    ensures forall k: nat :: 1 <= k < n ==> GoesOn(dist, interrupt, history, polls, k)
    ensures r.StillWaiting? ==> n == |polls| && (n > 0 ==> GoesOn(dist, interrupt, history, polls, n))
    ensures !r.StillWaiting? ==> n >= 1 && !GoesOn(dist, interrupt, history, polls, n)
    ensures !r.StillWaiting? ==>
              if Sum(polls[n - 1].increments) == -2147483648 then r == Failed else r == Travelled(Sum(Sensed(polls, n)))
  {
    forall k: nat | 1 <= k <= n
      ensures GoesOn(dist, interrupt, history, polls, k) <==> !Ends(dist, interrupt, history, polls, k)
    {
      GoesOnIff(dist, interrupt, history, polls, k);
    }
  }

  /** The distance field of the cache; the two methods are the critical sections
      of module SensorCache as one step each. */
  class Cache {
    var distance: int
    /** All increments added so far. */
    ghost var sensed: seq<int>

    constructor ()
      ensures distance == 0 && sensed == []
    {
      distance, sensed := 0, [];
    }

    method Sense(d: int)
      modifies this
      ensures distance == old(distance) + d && sensed == old(sensed) + [d]
    {
      distance := distance + d;
      sensed := sensed + [d];
    }

    method SenseAll(ds: seq<int>)
      modifies this
      ensures distance == old(distance) + Sum(ds) && sensed == old(sensed) + ds
    {
      var i := 0;
      while i < |ds|
        invariant 0 <= i <= |ds|
        invariant distance == old(distance) + Sum(ds[..i]) && sensed == old(sensed) + ds[..i]
      {
        assert ds[..i + 1] == ds[..i] + [ds[i]];
        SumAppends(ds[..i], [ds[i]]);
        assert [ds[i]][1..] == [];
        Sense(ds[i]);
        i := i + 1;
      }
      assert ds[..i] == ds;
    }

    method GetDistance() returns (dist: int)
      modifies this`distance
      ensures dist == old(distance) && distance == 0
    {
      dist := distance;
      distance := 0;
    }

    /** The sleep and the poll after it; `stopWait` is called only if the wait may be
        interrupted and the poll did not fail. */
    method Round(dist: int, interrupt: bool, poll: Poll, count: int, check: StopCheck) returns (r: Result, total: int)
      requires distance == 0 && check.Valid()
      modifies this, check
      ensures distance == 0 && sensed == old(sensed) + poll.increments && check.Valid()
      ensures check.history == old(check.history)
                               + if interrupt && Sum(poll.increments) != INT_MIN then [poll.overcurrent] else []
      ensures total == count + Sum(poll.increments)
      ensures r == Verdict(dist, interrupt, check.history, poll, total)
    {
      SenseAll(poll.increments);
      var current := GetDistance();
      total := count + current;
      assert check.history + [] == check.history;
      if current == INT_MIN {
        return Failed, total;
      }
      var stop := 0;
      if interrupt {
        stop := check.StopWait(poll.overcurrent, poll.bumps, poll.cliffs);
      }
      if stop != 0 || (dist >= 0 && total >= dist) || (dist < 0 && total <= dist) {
        r := Travelled(total);
      } else {
        r := StillWaiting;
      }
    }

    /** `waitDistance`, while `polls` lasts; `n` polls were made.  The count is
        the distance sensed since the initial reset, and the loop ends at the
        first poll that fails, is interrupted or reaches the target. */
    method WaitDistance(dist: int, interrupt: bool, polls: seq<Poll>, check: StopCheck) returns (r: Result, n: nat)
      requires check.Valid()
      modifies this, check
      ensures check.Valid()
      ensures if old(distance) == INT_MIN then r.Failed? && n == 0
              else IsWait(dist, interrupt, old(check.history), polls, r, n)
      ensures n <= |polls| && sensed == old(sensed) + Sensed(polls, n)
    {
      ghost var history, before := check.history, sensed;
      var count, current := 0, 0;
      n := 0;
      current := GetDistance();
      r := StillWaiting;
      assert history + [] == history && before + [] == before;
      if current == INT_MIN {
        return Failed, n;
      }
      while n < |polls|
        invariant n <= |polls| && distance == 0 && count == Count(polls, n) && check.Valid()
        invariant sensed == before + Sensed(polls, n)
        invariant check.history == history + if interrupt then Readings(polls, n) else []
        invariant r.StillWaiting? && NoneEnds(dist, interrupt, history, polls, n)
      {
        r, count := Round(dist, interrupt, polls[n], count, check);
        n := n + 1;
        Appended(before, Sensed(polls, n - 1), polls[n - 1].increments);
        Appended(history, Readings(polls, n - 1), [polls[n - 1].overcurrent]);
        RoundDecides(dist, interrupt, history, polls, n, check.history, r);
        if !r.StillWaiting? {
          return;
        }
      }
    }
  }

  lemma Appended(a: seq<int>, b: seq<int>, c: seq<int>)
    ensures a + b + c == a + (b + c) && a + [] == a
  {
  }

  // ---- a wait on the interleaved cache ---------------------------------------------------

  /** In the run `s` with one caller, fetch 0 is the reset and fetch `k` poll number
      `k`; the polls hold what the sensor thread added in between. */
  predicate Describes(s: State, polls: seq<Poll>) {
    && |polls| + 1 <= |s.returned| <= |s.takes|
    && forall k: nat :: k < |polls| ==> Between(s, k, polls[k].increments)
  }

  predicate Between(s: State, k: nat, increments: seq<int>)
    requires k + 1 < |s.takes|
  {
    Mark(s.takes, k + 1) <= Mark(s.takes, k + 2) <= |s.sensed|
    && increments == s.sensed[Mark(s.takes, k + 1)..Mark(s.takes, k + 2)]
  }

  lemma {:induction false} SensedInRun(s: State, polls: seq<Poll>, k: nat)
    requires Describes(s, polls) && k <= |polls| && Mark(s.takes, 1) <= |s.sensed|
    ensures Mark(s.takes, 1) <= Mark(s.takes, k + 1) <= |s.sensed|
    ensures Sensed(polls, k) == s.sensed[Mark(s.takes, 1)..Mark(s.takes, k + 1)]
    decreases k
  {
    if k > 0 {
      SensedInRun(s, polls, k - 1);
      assert Between(s, k - 1, polls[k - 1].increments);
    }
  }

  /** What poll number `k` returned in the run is what its increments add up to. */
  lemma FetchedInRun(s: State, polls: seq<Poll>, k: nat)
    requires Inv(s) && Describes(s, polls) && k < |polls|
    ensures s.returned[k + 1].1 == Sum(polls[k].increments)
  {
    assert Exact(s.takes, s.sensed, k + 1);
    assert Between(s, k, polls[k].increments);
    ValuesAt(s.takes);
    assert s.returned[k + 1] == Values(s.takes)[k + 1];
  }

  /** A wait whose fetches are those of a run with any interleaving of the sensor
      thread: each poll is what `getDistance` returned there, and the count is the
      distance sensed between the reset and the last poll. */
  lemma WaitOnRun(acts: seq<Action>, polls: seq<Poll>, dist: int, interrupt: bool, history: seq<int>, r: Result, n: nat)
    requires Describes(Run(Start(1), acts), polls)
    requires IsWait(dist, interrupt, history, polls, r, n) && r.Travelled?
    ensures var s := Run(Start(1), acts);
            && (forall k: nat :: k < |polls| ==> s.returned[k + 1].1 == Sum(polls[k].increments))
            && Mark(s.takes, 1) <= Mark(s.takes, n + 1) <= |s.sensed|
            && r.count == Sum(s.sensed[Mark(s.takes, 1)..Mark(s.takes, n + 1)])
            && r.count == Sum(Returned(s.returned[1..n + 1]))
  {
    RunKeepsInv(Start(1), acts);
    PollsCountWhatWasSensed(acts, 1, n + 1);
    PollsInRun(Run(Start(1), acts), polls, n);
  }

  lemma PollsInRun(s: State, polls: seq<Poll>, n: nat)
    requires Inv(s) && Describes(s, polls) && n <= |polls|
    ensures forall k: nat :: k < |polls| ==> s.returned[k + 1].1 == Sum(polls[k].increments)
    ensures Mark(s.takes, 1) <= Mark(s.takes, n + 1) <= |s.sensed|
    ensures Sensed(polls, n) == s.sensed[Mark(s.takes, 1)..Mark(s.takes, n + 1)]
  {
    PollsAreFetches(s, polls);
    assert Exact(s.takes, s.sensed, 0);
    SensedInRun(s, polls, n);
  }

  lemma PollsAreFetches(s: State, polls: seq<Poll>)
    requires Inv(s) && Describes(s, polls)
    ensures forall k: nat :: k < |polls| ==> s.returned[k + 1].1 == Sum(polls[k].increments)
  {
    forall k: nat | k < |polls|
      ensures s.returned[k + 1].1 == Sum(polls[k].increments)
    {
      FetchedInRun(s, polls, k);
    }
  }

  /** What was sensed between fetch `k` and the next one. */
  function SensedBetween(s: State, k: nat): seq<int> {
    if k + 2 <= |s.takes| && Mark(s.takes, k + 1) <= Mark(s.takes, k + 2) <= |s.sensed|
    then s.sensed[Mark(s.takes, k + 1)..Mark(s.takes, k + 2)] else []
  }

  /** The polls of a run, with what `stopWait` reads at each of them. */
  function PollsOf(s: State, readings: seq<(int, int, int)>): (polls: seq<Poll>)
    ensures |polls| == |readings|
  {
    seq(|readings|, k requires 0 <= k < |readings| =>
      Poll(SensedBetween(s, k), readings[k].0, readings[k].1, readings[k].2))
  }

  /** Every run with a reset and enough fetches behind it has polls. */
  lemma RunHasPolls(s: State, readings: seq<(int, int, int)>)
    requires Inv(s) && |readings| + 1 <= |s.returned|
    ensures Describes(s, PollsOf(s, readings))
  {
    ValuesAt(s.takes);
    forall k: nat | k < |readings|
      ensures Between(s, k, PollsOf(s, readings)[k].increments)
    {
      assert Exact(s.takes, s.sensed, k + 1);
    }
  }
}
