/** The distance cache of the Create library: one sensor thread adds what it
    sensed, any number of threads fetch and reset, under one mutex.  A step is one
    lock operation or one access to the cache. */
module SensorCache {

  function Sum(s: seq<int>): int {
    if s == [] then 0 else s[0] + Sum(s[1..])
  }

  lemma {:induction false} SumAppends(s: seq<int>, t: seq<int>)
    ensures Sum(s + t) == Sum(s) + Sum(t)
    decreases |s|
  {
    if s == [] {
      assert [] + t == t;
    } else {
      assert (s + t)[0] == s[0] && (s + t)[1..] == s[1..] + t;
      SumAppends(s[1..], t);
    }
  }

  datatype Owner = Nobody | Sensor | Caller(id: nat)

  /** `getDistance`: call, lock, load, store 0, unlock. */
  datatype CallerPc = Idle | Waiting | Holding | Loaded(v: int) | Cleared(v: int)

  /** The sensor loop: a reading taken, lock, load, store the sum, unlock. */
  datatype SensorPc = Reading | Wanting(d: int) | Owning(d: int) | Adding(d: int, v: int) | Added

  /** One fetch-and-reset: who did it, the value, and how many increments had
      been added to the cache by then. */
  datatype Take = Take(id: nat, v: int, mark: nat)

  datatype State = State(
    owner: Owner, distance: int, callers: seq<CallerPc>, sensor: SensorPc,
    sensed: seq<int>, takes: seq<Take>, returned: seq<(nat, int)>)

  datatype Action = Call(id: nat) | Step(id: nat) | Sense(d: int) | SensorStep

  function Start(n: nat): State {
    State(Nobody, 0, seq(n, _ => Idle), Reading, [], [], [])
  }

  function CallerStep(s: State, i: nat): State
    requires i < |s.callers|
  {
    match s.callers[i]
    case Idle => s
    case Waiting => if s.owner.Nobody? then s.(owner := Caller(i), callers := s.callers[i := Holding]) else s
    case Holding => s.(callers := s.callers[i := Loaded(s.distance)])
    case Loaded(v) =>
      s.(distance := 0, callers := s.callers[i := Cleared(v)], takes := s.takes + [Take(i, v, |s.sensed|)])
    case Cleared(v) =>
      s.(owner := Nobody, callers := s.callers[i := Idle], returned := s.returned + [(i, v)])
  }

  function SensorThread(s: State): State {
    match s.sensor
    case Reading => s
    case Wanting(d) => if s.owner.Nobody? then s.(owner := Sensor, sensor := Owning(d)) else s
    case Owning(d) => s.(sensor := Adding(d, s.distance))
    case Adding(d, v) => s.(distance := v + d, sensor := Added, sensed := s.sensed + [d])
    case Added => s.(owner := Nobody, sensor := Reading)
  }

  function Next(s: State, a: Action): State {
    match a
    case Call(i) =>
      if i < |s.callers| && s.callers[i].Idle? then s.(callers := s.callers[i := Waiting]) else s
    case Step(i) => if i < |s.callers| then CallerStep(s, i) else s
    case Sense(d) => if s.sensor.Reading? then s.(sensor := Wanting(d)) else s
    case SensorStep => SensorThread(s)
  }

  function Run(s: State, acts: seq<Action>): State
    decreases |acts|
  {
    if acts == [] then s else Run(Next(s, acts[0]), acts[1..])
  }

  // ---- the invariant -------------------------------------------------------------------

  predicate Inside(pc: CallerPc) {
    pc.Holding? || pc.Loaded? || pc.Cleared?
  }

  /** Increments added before take `k`, counted from the start. */
  function Mark(takes: seq<Take>, k: nat): nat
    requires k <= |takes|
  {
    if k == 0 then 0 else takes[k - 1].mark
  }

  /** Take `k` fetched exactly what was sensed since the take before it. */
  predicate Exact(takes: seq<Take>, sensed: seq<int>, k: nat)
    requires k < |takes|
  {
    Mark(takes, k) <= takes[k].mark <= |sensed| && takes[k].v == Sum(sensed[Mark(takes, k)..takes[k].mark])
  }

  predicate MutualExclusion(s: State) {
    && (forall i :: 0 <= i < |s.callers| ==> (Inside(s.callers[i]) <==> s.owner == Caller(i)))
    && ((s.sensor.Owning? || s.sensor.Adding? || s.sensor.Added?) <==> s.owner == Sensor)
    && (s.owner.Caller? ==> s.owner.id < |s.callers|)
  }

  predicate LocalsFresh(s: State) {
    && (forall i :: 0 <= i < |s.callers| && s.callers[i].Loaded? ==> s.callers[i].v == s.distance)
    && (s.sensor.Adding? ==> s.sensor.v == s.distance)
  }

  predicate Ledger(s: State) {
    && (forall k: nat :: k < |s.takes| ==> Exact(s.takes, s.sensed, k))
    && Mark(s.takes, |s.takes|) <= |s.sensed|
    && s.distance == Sum(s.sensed[Mark(s.takes, |s.takes|)..])
  }

  /** A value taken and not yet returned belongs to the lock holder. */
  function InFlight(s: State): seq<(nat, int)> {
    if s.owner.Caller? && s.owner.id < |s.callers| && s.callers[s.owner.id].Cleared?
    then [(s.owner.id, s.callers[s.owner.id].v)] else []
  }

  function Values(takes: seq<Take>): seq<(nat, int)> {
    if takes == [] then []
    else Values(takes[..|takes| - 1]) + [(takes[|takes| - 1].id, takes[|takes| - 1].v)]
  }

  predicate Inv(s: State) {
    MutualExclusion(s) && LocalsFresh(s) && Ledger(s) && Values(s.takes) == s.returned + InFlight(s)
  }

  /** A new increment leaves all earlier takes as they are. */
  lemma LedgerSenses(s: State, d: int)
    requires Ledger(s)
    ensures Ledger(s.(distance := s.distance + d, sensed := s.sensed + [d]))
  {
    var more := s.sensed + [d];
    forall k: nat | k < |s.takes|
      ensures Exact(s.takes, more, k)
    {
      assert Exact(s.takes, s.sensed, k);
      assert more[Mark(s.takes, k)..s.takes[k].mark] == s.sensed[Mark(s.takes, k)..s.takes[k].mark];
    }
    var m := Mark(s.takes, |s.takes|);
    assert more[m..] == s.sensed[m..] + [d];
    SumAppends(s.sensed[m..], [d]);
  }

  lemma LedgerTakes(s: State, i: nat)
    requires Ledger(s)
    ensures Ledger(s.(distance := 0, takes := s.takes + [Take(i, s.distance, |s.sensed|)]))
  {
    var more := s.takes + [Take(i, s.distance, |s.sensed|)];
    assert s.sensed[Mark(s.takes, |s.takes|)..|s.sensed|] == s.sensed[Mark(s.takes, |s.takes|)..];
    forall k: nat | k < |more|
      ensures Exact(more, s.sensed, k)
    {
      assert Mark(more, k) == Mark(s.takes, k);
      assert k < |s.takes| ==> Exact(s.takes, s.sensed, k);
    }
  }

  lemma CallerStepKeepsInv(s: State, i: nat)
    requires Inv(s) && i < |s.callers|
    ensures Inv(CallerStep(s, i))
  {
    var pc := s.callers[i];
    assert Inside(pc) <==> s.owner == Caller(i);
    if pc.Loaded? {
      LedgerTakes(s, i);
      var t := CallerStep(s, i);
      assert t.takes[..|t.takes| - 1] == s.takes;
    }
  }

  lemma NextKeepsInv(s: State, a: Action)
    requires Inv(s)
    ensures Inv(Next(s, a))
  {
    match a
    case Call(i) =>
    case Step(i) => if i < |s.callers| { CallerStepKeepsInv(s, i); }
    case Sense(d) =>
    case SensorStep => if s.sensor.Adding? { LedgerSenses(s, s.sensor.d); }
  }

  lemma {:induction false} RunKeepsInv(s: State, acts: seq<Action>)
    requires Inv(s)
    ensures Inv(Run(s, acts))
    decreases |acts|
  {
    if acts == [] {
    } else {
      NextKeepsInv(s, acts[0]);
      RunKeepsInv(Next(s, acts[0]), acts[1..]);
    }
  }

  // ---- main results --------------------------------------------------------------------

  function Returned(r: seq<(nat, int)>): seq<int> {
    if r == [] then [] else Returned(r[..|r| - 1]) + [r[|r| - 1].1]
  }

  lemma {:induction false} ReturnedAppends(r: seq<(nat, int)>, t: seq<(nat, int)>)
    ensures Returned(r + t) == Returned(r) + Returned(t)
    decreases |t|
  {
    if t == [] {
      assert r + [] == r;
    } else {
      assert (r + t)[..|r + t| - 1] == r + t[..|t| - 1];
      ReturnedAppends(r, t[..|t| - 1]);
    }
  }

  /** Every fetch, by whichever caller, returns exactly what was sensed since the
      fetch before it, in every interleaving with any number of callers; and the
      callers get these values in that order. */
  lemma FetchesPartitionTheSensed(n: nat, acts: seq<Action>)
    ensures var s := Run(Start(n), acts);
            && (forall k: nat :: k < |s.takes| ==> Exact(s.takes, s.sensed, k))
            && Values(s.takes) == s.returned + InFlight(s)
  {
    RunKeepsInv(Start(n), acts);
  }

  /** Nothing is lost or counted twice: the values returned, the one in flight and
      the cache add up to everything sensed. */
  lemma DistanceIsConserved(n: nat, acts: seq<Action>)
    ensures var s := Run(Start(n), acts);
            Sum(Returned(s.returned)) + Sum(Returned(InFlight(s))) + s.distance == Sum(s.sensed)
  {
    RunKeepsInv(Start(n), acts);
    TakenAndCached(Run(Start(n), acts));
    TakenIsReturned(Run(Start(n), acts));
  }

  lemma TakenAndCached(s: State)
    requires Ledger(s)
    ensures Sum(Returned(Values(s.takes))) + s.distance == Sum(s.sensed)
  {
    var m := Mark(s.takes, |s.takes|);
    TakenSince(s, 0, |s.takes|);
    assert s.takes[0..|s.takes|] == s.takes && s.sensed[0..m] == s.sensed[..m];
    assert s.sensed == s.sensed[..m] + s.sensed[m..];
    SumAppends(s.sensed[..m], s.sensed[m..]);
  }

  lemma TakenIsReturned(s: State)
    requires Values(s.takes) == s.returned + InFlight(s)
    ensures Sum(Returned(Values(s.takes))) == Sum(Returned(s.returned)) + Sum(Returned(InFlight(s)))
  {
    ReturnedAppends(s.returned, InFlight(s));
    SumAppends(Returned(s.returned), Returned(InFlight(s)));
  }

  /** The sum of the fetches number `j` up to `k`. */
  function TakeSum(takes: seq<Take>, j: nat, k: nat): int
    requires j <= k <= |takes|
    decreases k
  {
    if j == k then 0 else TakeSum(takes, j, k - 1) + takes[k - 1].v
  }

  lemma {:induction false} TakeSumIs(takes: seq<Take>, j: nat, k: nat)
    requires j <= k <= |takes|
    ensures TakeSum(takes, j, k) == Sum(Returned(Values(takes[j..k])))
    decreases k
  {
    if j < k {
      TakeSumIs(takes, j, k - 1);
      assert takes[j..k] == takes[j..k - 1] + [takes[k - 1]];
      OneMoreTake(takes[j..k - 1], takes[k - 1]);
    }
  }

  lemma OneMoreTake(front: seq<Take>, t: Take)
    ensures Sum(Returned(Values(front + [t]))) == Sum(Returned(Values(front))) + t.v
  {
    var all := front + [t];
    assert all[..|all| - 1] == front && all[|all| - 1] == t;
    OneMoreReturned(Values(front), (t.id, t.v));
  }

  lemma OneMoreReturned(r: seq<(nat, int)>, last: (nat, int))
    ensures Sum(Returned(r + [last])) == Sum(Returned(r)) + last.1
  {
    var all := r + [last];
    assert all[..|all| - 1] == r && all[|all| - 1] == last;
    SumAppends(Returned(r), [last.1]);
    assert [last.1][1..] == [];
  }

  /** The fetches number `j` up to `k` add up to what was sensed in between. */
  lemma {:induction false} TakenBetween(takes: seq<Take>, sensed: seq<int>, j: nat, k: nat)
    requires j <= k <= |takes| && forall i: nat :: i < |takes| ==> Exact(takes, sensed, i)
    ensures Mark(takes, j) <= Mark(takes, k) <= |sensed|
    ensures TakeSum(takes, j, k) == Sum(sensed[Mark(takes, j)..Mark(takes, k)])
    decreases k
  {
    if j == k {
      assert j > 0 ==> Exact(takes, sensed, j - 1);
    } else {
      TakenBetween(takes, sensed, j, k - 1);
      assert Exact(takes, sensed, k - 1);
      var lo, mid, hi := Mark(takes, j), Mark(takes, k - 1), Mark(takes, k);
      assert sensed[lo..hi] == sensed[lo..mid] + sensed[mid..hi];
      SumAppends(sensed[lo..mid], sensed[mid..hi]);
    }
  }

  lemma TakenSince(s: State, j: nat, k: nat)
    requires Ledger(s) && j <= k <= |s.takes|
    ensures Mark(s.takes, j) <= Mark(s.takes, k) <= |s.sensed|
    ensures Sum(Returned(Values(s.takes[j..k]))) == Sum(s.sensed[Mark(s.takes, j)..Mark(s.takes, k)])
  {
    TakenBetween(s.takes, s.sensed, j, k);
    TakeSumIs(s.takes, j, k);
  }

  /** A waiting loop that is the only caller: the values of its polls number j to
      k - 1 add up to exactly the distance sensed between fetch j - 1, its reset
      when j is 1, and fetch k - 1, its last poll. */
  lemma PollsCountWhatWasSensed(acts: seq<Action>, j: nat, k: nat)
    requires var s := Run(Start(1), acts); j <= k <= |s.returned|
    ensures var s := Run(Start(1), acts);
            && |s.returned| <= |s.takes| && Mark(s.takes, j) <= Mark(s.takes, k) <= |s.sensed|
            && Sum(Returned(s.returned[j..k])) == Sum(s.sensed[Mark(s.takes, j)..Mark(s.takes, k)])
  {
    RunKeepsInv(Start(1), acts);
    PollsIn(Run(Start(1), acts), j, k);
  }

  lemma PollsIn(s: State, j: nat, k: nat)
    requires Ledger(s) && Values(s.takes) == s.returned + InFlight(s) && j <= k <= |s.returned|
    ensures |s.returned| <= |s.takes| && Mark(s.takes, j) <= Mark(s.takes, k) <= |s.sensed|
    ensures Sum(Returned(s.returned[j..k])) == Sum(s.sensed[Mark(s.takes, j)..Mark(s.takes, k)])
  {
    ValuesAt(s.takes);
    ValuesSlice(s.takes, j, k);
    TakenSince(s, j, k);
    assert Values(s.takes)[j..k] == s.returned[j..k];
  }

  lemma ValuesSlice(takes: seq<Take>, j: nat, k: nat)
    requires j <= k <= |takes|
    ensures |Values(takes)| == |takes| && Values(takes)[j..k] == Values(takes[j..k])
  {
    ValuesAt(takes);
    ValuesAt(takes[j..k]);
  }

  lemma {:induction false} ValuesAt(takes: seq<Take>)
    ensures |Values(takes)| == |takes|
    ensures forall i :: 0 <= i < |takes| ==> Values(takes)[i] == (takes[i].id, takes[i].v)
    decreases |takes|
  {
    if takes != [] { ValuesAt(takes[..|takes| - 1]); }
  }

  // ---- completion ----------------------------------------------------------------------

  ghost predicate Reachable(s: State) {
    exists n: nat, acts: seq<Action> :: s == Run(Start(n), acts)
  }

  lemma ReachableInv(s: State)
    requires Reachable(s)
    ensures Inv(s)
  {
    var n: nat, acts: seq<Action> :| s == Run(Start(n), acts);
    RunKeepsInv(Start(n), acts);
  }

  lemma {:induction false} RunSplits(s: State, a: seq<Action>, b: seq<Action>)
    ensures Run(s, a + b) == Run(Run(s, a), b)
    decreases |a|
  {
    if a == [] {
      assert a + b == b;
    } else {
      assert (a + b)[0] == a[0] && (a + b)[1..] == a[1..] + b;
      RunSplits(Next(s, a[0]), a[1..], b);
    }
  }

  /** While caller `i` holds the lock, nothing but its own steps touches the lock,
      the cache or its locals. */
  predicate UntouchedBy(s: State, t: State, i: nat)
    requires i < |s.callers|
  {
    && |t.callers| == |s.callers| && t.callers[i] == s.callers[i]
    && t.owner == s.owner && t.distance == s.distance
    && t.sensed == s.sensed && t.takes == s.takes && t.returned == s.returned
  }

  lemma {:induction false} CallerUndisturbed(s: State, i: nat, acts: seq<Action>)
    requires Inv(s) && i < |s.callers| && s.owner == Caller(i) && Step(i) !in acts
    ensures Inv(Run(s, acts)) && UntouchedBy(s, Run(s, acts), i)
    decreases |acts|
  {
    if acts != [] {
      NextKeepsInv(s, acts[0]);
      OthersWait(s, i, acts[0]);
      CallerUndisturbed(Next(s, acts[0]), i, acts[1..]);
    }
  }

  lemma OthersWait(s: State, i: nat, a: Action)
    requires MutualExclusion(s) && i < |s.callers| && s.owner == Caller(i) && a != Step(i)
    ensures UntouchedBy(s, Next(s, a), i)
  {
    assert Inside(s.callers[i]);
    if a.Step? && a.id < |s.callers| {
      assert Inside(s.callers[a.id]) <==> s.owner == Caller(a.id);
    }
  }

  /** Actions of others and then a step of the lock holder. */
  lemma OneMoreStep(s: State, i: nat, acts: seq<Action>, pc: CallerPc)
    requires Inv(s) && i < |s.callers| && s.owner == Caller(i) && s.callers[i] == pc && Step(i) !in acts
    ensures Inv(Run(s, acts + [Step(i)]))
    ensures var t := Run(s, acts + [Step(i)]); |t.callers| == |s.callers| && t.sensed == s.sensed
    ensures pc.Holding? ==>
              var t := Run(s, acts + [Step(i)]);
              t.owner == s.owner && t.callers[i] == Loaded(s.distance) && t.distance == s.distance && t.returned == s.returned
    ensures pc.Loaded? ==>
              var t := Run(s, acts + [Step(i)]);
              t.owner == s.owner && t.callers[i] == Cleared(pc.v) && t.distance == 0 && t.returned == s.returned
    ensures pc.Cleared? ==>
              var t := Run(s, acts + [Step(i)]);
              t.owner.Nobody? && t.callers[i].Idle? && t.distance == s.distance && t.returned == s.returned + [(i, pc.v)]
  {
    CallerUndisturbed(s, i, acts);
    NextKeepsInv(Run(s, acts), Step(i));
    RunSplits(s, acts, [Step(i)]);
    assert [Step(i)][1..] == [];
  }

  /** A call waits from its start until its own next step. */
  lemma {:induction false} CallWaits(s: State, i: nat, acts: seq<Action>)
    requires i < |s.callers| && Step(i) !in acts
    requires s.callers[i].Waiting? || (s.callers[i].Idle? && acts != [] && acts[0] == Call(i))
    ensures var t := Run(s, acts); |t.callers| == |s.callers| && t.callers[i].Waiting?
    decreases |acts|
  {
    if acts != [] { CallWaits(Next(s, acts[0]), i, acts[1..]); }
  }

  lemma RunInFour(s: State, a: seq<Action>, b: seq<Action>, c: seq<Action>, d: seq<Action>)
    ensures Run(s, a + b + c + d) == Run(Run(Run(Run(s, a), b), c), d)
  {
    RunSplits(s, a, b);
    RunSplits(s, a + b, c);
    RunSplits(s, a + b + c, d);
  }

  lemma LockTaken(s: State, i: nat)
    requires Inv(s) && i < |s.callers| && s.callers[i].Waiting? && s.owner.Nobody?
    ensures Inv(Run(s, [Step(i)]))
    ensures Run(s, [Step(i)]) == s.(owner := Caller(i), callers := s.callers[i := Holding])
  {
    NextKeepsInv(s, Step(i));
    assert [Step(i)][1..] == [];
  }

  /** A call of `getDistance` that finds the lock free returns at its fourth step,
      whatever others do in between: it gives back what the cache held and leaves
      the cache 0 and the lock free. */
  lemma CallCompletes(s: State, i: nat, a1: seq<Action>, a2: seq<Action>, a3: seq<Action>)
    requires Reachable(s) && i < |s.callers| && s.callers[i].Waiting? && s.owner.Nobody?
    requires Step(i) !in a1 && Step(i) !in a2 && Step(i) !in a3
    ensures var t := Run(s, [Step(i)] + (a1 + [Step(i)]) + (a2 + [Step(i)]) + (a3 + [Step(i)]));
            && t.returned == s.returned + [(i, s.distance)] && t.distance == 0 && t.sensed == s.sensed
            && t.owner.Nobody? && |t.callers| == |s.callers| && t.callers[i].Idle?
  {
    ReachableInv(s);
    LockTaken(s, i);
    var s1 := Run(s, [Step(i)]);
    OneMoreStep(s1, i, a1, Holding);
    var s2 := Run(s1, a1 + [Step(i)]);
    OneMoreStep(s2, i, a2, Loaded(s.distance));
    var s3 := Run(s2, a2 + [Step(i)]);
    OneMoreStep(s3, i, a3, Cleared(s.distance));
    RunInFour(s, [Step(i)], a1 + [Step(i)], a2 + [Step(i)], a3 + [Step(i)]);
  }

  // The same for the sensor thread.

  lemma {:induction false} SensorUndisturbed(s: State, acts: seq<Action>)
    requires Inv(s) && s.owner == Sensor && SensorStep !in acts
    ensures var t := Run(s, acts);
            && Inv(t) && t.owner == s.owner && t.sensor == s.sensor && t.distance == s.distance
            && t.sensed == s.sensed && t.returned == s.returned
    decreases |acts|
  {
    if acts != [] {
      var a := acts[0];
      NextKeepsInv(s, a);
      if a.Step? && a.id < |s.callers| {
        assert Inside(s.callers[a.id]) <==> s.owner == Caller(a.id);
      }
      SensorUndisturbed(Next(s, a), acts[1..]);
    }
  }

  lemma OneMoreSensorStep(s: State, acts: seq<Action>, pc: SensorPc)
    requires Inv(s) && s.owner == Sensor && s.sensor == pc && SensorStep !in acts
    ensures Inv(Run(s, acts + [SensorStep]))
    ensures Run(s, acts + [SensorStep]).returned == s.returned
    ensures pc.Owning? ==>
              var t := Run(s, acts + [SensorStep]);
              t.owner == Sensor && t.sensor == Adding(pc.d, s.distance) && t.distance == s.distance && t.sensed == s.sensed
    ensures pc.Adding? ==>
              var t := Run(s, acts + [SensorStep]);
              t.owner == Sensor && t.sensor == Added && t.distance == pc.v + pc.d && t.sensed == s.sensed + [pc.d]
    ensures pc.Added? ==>
              var t := Run(s, acts + [SensorStep]);
              t.owner.Nobody? && t.sensor.Reading? && t.distance == s.distance && t.sensed == s.sensed
  {
    SensorUndisturbed(s, acts);
    NextKeepsInv(Run(s, acts), SensorStep);
    RunSplits(s, acts, [SensorStep]);
    assert [SensorStep][1..] == [];
  }

  /** A reading is kept until the sensor thread's next step. */
  lemma {:induction false} ReadingWaits(s: State, d: int, acts: seq<Action>)
    requires SensorStep !in acts
    requires s.sensor == Wanting(d) || (s.sensor.Reading? && acts != [] && acts[0] == Sense(d))
    ensures Run(s, acts).sensor == Wanting(d)
    decreases |acts|
  {
    if acts != [] { ReadingWaits(Next(s, acts[0]), d, acts[1..]); }
  }

  /** A reading `d` whose thread finds the lock free is in the cache after four of
      its steps, added to what was there, whatever others do in between. */
  lemma ReadingCompletes(s: State, d: int, a1: seq<Action>, a2: seq<Action>, a3: seq<Action>)
    requires Reachable(s) && s.sensor == Wanting(d) && s.owner.Nobody?
    requires SensorStep !in a1 && SensorStep !in a2 && SensorStep !in a3
    ensures var t := Run(s, [SensorStep] + (a1 + [SensorStep]) + (a2 + [SensorStep]) + (a3 + [SensorStep]));
            && t.sensed == s.sensed + [d] && t.distance == s.distance + d && t.returned == s.returned
            && t.owner.Nobody? && t.sensor.Reading?
  {
    ReachableInv(s);
    NextKeepsInv(s, SensorStep);
    assert [SensorStep][1..] == [];
    var s1 := Run(s, [SensorStep]);
    OneMoreSensorStep(s1, a1, Owning(d));
    var s2 := Run(s1, a1 + [SensorStep]);
    OneMoreSensorStep(s2, a2, Adding(d, s.distance));
    var s3 := Run(s2, a2 + [SensorStep]);
    OneMoreSensorStep(s3, a3, Added);
    RunInFour(s, [SensorStep], a1 + [SensorStep], a2 + [SensorStep], a3 + [SensorStep]);
  }

  /** The holder's own step. */
  function OwnStep(o: Owner): Action
    requires !o.Nobody?
  {
    if o.Sensor? then SensorStep else Step(o.id)
  }

  function StepsOf(acts: seq<Action>, a: Action): nat {
    if acts == [] then 0 else (if acts[0] == a then 1 else 0) + StepsOf(acts[1..], a)
  }

  /** The steps that the lock holder has left. */
  function StepsLeft(s: State): nat {
    if s.owner.Nobody? then 0
    else if s.owner.Sensor? then (if s.sensor.Owning? then 3 else if s.sensor.Adding? then 2 else 1)
    else if s.owner.id >= |s.callers| then 0
    else if s.callers[s.owner.id].Holding? then 3 else if s.callers[s.owner.id].Loaded? then 2 else 1
  }

  /** Whoever holds the lock, every run with three of its own steps frees it on the
      way. */
  lemma HolderReleases(s: State, acts: seq<Action>)
    requires Reachable(s) && !s.owner.Nobody? && StepsOf(acts, OwnStep(s.owner)) >= 3
    ensures exists k :: 0 <= k <= |acts| && Run(s, acts[..k]).owner.Nobody?
  {
    ReachableInv(s);
    var k := Release(s, acts);
  }

  lemma {:induction false} Release(s: State, acts: seq<Action>) returns (k: nat)
    requires Inv(s) && !s.owner.Nobody? && StepsOf(acts, OwnStep(s.owner)) >= StepsLeft(s)
    ensures k <= |acts| && Run(s, acts[..k]).owner.Nobody?
    decreases |acts|
  {
    HolderStep(s, acts[0]);
    NextKeepsInv(s, acts[0]);
    var t := Next(s, acts[0]);
    if t.owner.Nobody? {
      k := 1;
      assert acts[..1][1..] == [];
    } else {
      var k' := Release(t, acts[1..]);
      k := k' + 1;
      assert acts[..k][1..] == acts[1..][..k'];
    }
  }

  lemma HolderStep(s: State, a: Action)
    requires Inv(s) && !s.owner.Nobody?
    ensures StepsLeft(s) >= 1
    ensures var t := Next(s, a);
            if a != OwnStep(s.owner) then t.owner == s.owner && StepsLeft(t) == StepsLeft(s)
            else if StepsLeft(s) == 1 then t.owner.Nobody?
            else t.owner == s.owner && StepsLeft(t) == StepsLeft(s) - 1
  {
    if s.owner.Caller? {
      assert Inside(s.callers[s.owner.id]);
      if a != OwnStep(s.owner) { OthersWait(s, s.owner.id, a); }
    } else if a.Step? && a.id < |s.callers| {
      assert Inside(s.callers[a.id]) <==> s.owner == Caller(a.id);
    }
  }
}
