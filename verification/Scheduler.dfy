/** The rate scheduler of iMain: semaphore posts at 50 Hz and 2 Hz, and the
    threads they wake. */
module Scheduler {
  import opened Bits

  const NSEC_PER_SEC := 1_000_000_000
  const PERIOD_US := 10_000
  const HZ_50 := 20_000 / PERIOD_US
  const HZ_2 := 500_000 / PERIOD_US
  const WRAP := 1000

  // ---- deadlines -----------------------------------------------------------------------

  class TimeSpec {
    var sec: int
    var nsec: nat

    constructor (sec: int, nsec: nat)
      ensures this.sec == sec && this.nsec == nsec
    {
      this.sec, this.nsec := sec, nsec;
    }

    /** All of it in nanoseconds. */
    function Total(): int
      reads this
    {
      sec * NSEC_PER_SEC + nsec
    }

    /** `timespec_add_us`, in 64-bit unsigned arithmetic: the result is normalised,
        and exact precisely when the sum fits 64 bits. */
    method AddMicroseconds(us: nat)
      requires us < UINT64 && nsec < UINT64
      modifies this
      ensures nsec < 1_000_000_000
      ensures Total() == old(sec) * 1_000_000_000 + (us * 1000 + old(nsec)) % UINT64
      ensures Total() == sec * 1_000_000_000 + nsec
      ensures Total() == old(Total()) + us * 1000 <==> us * 1000 + old(nsec) < 0x1_0000_0000_0000_0000
    {
      var d := (us * 1000) % UINT64;
      d := (d + nsec) % UINT64;
      ghost var start := d;
      ModAdd(us * 1000, nsec, UINT64);
      while d >= NSEC_PER_SEC
        invariant 0 <= d && sec * NSEC_PER_SEC + d == old(sec) * NSEC_PER_SEC + start
        decreases d
      {
        d := d - NSEC_PER_SEC;
        sec := sec + 1;
      }
      nsec := d;
    }
  }

  // ---- the posts of one run ------------------------------------------------------------

  /** How many of the first `n` ticks, counted from 0, are multiples of `k`. */
  function Multiples(n: nat, k: nat): nat
    requires k > 0
  {
    if n == 0 then 0 else Multiples(n - 1, k) + if (n - 1) % k == 0 then 1 else 0
  }

  /** That is n/k rounded up. */
  lemma {:induction false} MultiplesAreCeil(n: nat, k: nat)
    requires k > 0
    ensures Multiples(n, k) == (n + k - 1) / k
  {
    if n == 0 {
      ModUnique(k - 1, k, 0, k - 1);
    } else {
      MultiplesAreCeil(n - 1, k);
      var q, r := (n - 1) / k, (n - 1) % k;
      assert n - 1 == k * q + r;
      if r == 0 {
        ModUnique(n + k - 1, k, q + 1, 0);
        ModUnique(n - 1 + k - 1, k, q, k - 1);
      } else {
        ModUnique(n + k - 1, k, q + 1, r);
        ModUnique(n - 1 + k - 1, k, q + 1, r - 1);
      }
    }
  }

  /** The wrapping counter tests the same ticks as one that never wraps. */
  lemma WrapIsInvisible(n: nat)
    ensures n % WRAP % HZ_50 == n % HZ_50 && n % WRAP % HZ_2 == n % HZ_2
    ensures (n + 1) % WRAP == if n % WRAP + 1 == WRAP then 0 else n % WRAP + 1
  {
    ModOfWrap(n, 2, 500);
    ModOfWrap(n, 50, 20);
    NextOfWrap(n);
  }

  lemma NextOfWrap(n: nat)
    ensures (n + 1) % 1000 == if n % 1000 + 1 == 1000 then 0 else n % 1000 + 1
  {
  }

  /** `execute` for `n` ticks: the posts it makes. */
  method Execute(n: nat) returns (posts50: nat, posts2: nat)
    ensures posts50 == (n + 1) / 2
    ensures posts2 == (n + 49) / 50
  {
    var cnt, tick := 0, 0;
    posts50, posts2 := 0, 0;
    while tick < n
      invariant 0 <= tick <= n && cnt == tick % WRAP
      invariant posts50 == Multiples(tick, HZ_50) && posts2 == Multiples(tick, HZ_2)
    {
      WrapIsInvisible(tick);
      if cnt % HZ_50 == 0 {
        posts50 := posts50 + 1;
      }
      if cnt % HZ_2 == 0 {
        posts2 := posts2 + 1;
      }
      cnt := cnt + 1;
      if cnt == WRAP {
        cnt := 0;
      }
      tick := tick + 1;
    }
    MultiplesAreCeil(n, 2);
    MultiplesAreCeil(n, 50);
  }

  // ---- all threads interleaved ----------------------------------------------------------

  /** A semaphore with its history. */
  datatype Semaphore = Semaphore(value: nat, posts: nat, waits: nat)
  {
    function Post(): Semaphore { Semaphore(value + 1, posts + 1, waits) }
    function Wait(): Semaphore
      requires value > 0
    {
      Semaphore(value - 1, posts, waits + 1)
    }
  }

  const NEW := Semaphore(0, 0, 0)

  datatype SchedulerPc = Post50 | Post2 | Sleep
  datatype FastPc = FastCheck | FastWait | PostCreate | PostImu | FastDone
  datatype SlowPc = SlowCheck | SlowWait | Broadcast | SlowDone
  /** A sensor thread: wait, read (begun), look at its shut-down flag. */
  datatype ReaderPc = ReaderWait | Read | ReaderDone

  /** `begun` counts scheduler iterations started, `cnt` is the wrapping counter. */
  datatype State = State(
    begun: nat, cnt: nat, sched: SchedulerPc, fast: FastPc, slow: SlowPc, create: ReaderPc, imu: ReaderPc,
    s50: Semaphore, s2: Semaphore, sCreate: Semaphore, sImu: Semaphore,
    broadcasts: nat, createReads: nat, imuReads: nat, shutdown: bool, stopSensors: bool)

  datatype Action = SchedulerStep | FastStep | SlowStep | CreateStep | ImuStep | Shutdown

  const START := State(0, 0, Sleep, FastCheck, SlowCheck, ReaderWait, ReaderWait,
                       NEW, NEW, NEW, NEW, 0, 0, 0, false, false)

  /** One iteration: the 50 Hz post, the 2 Hz post, the counter and the sleep. */
  function Schedule(s: State): State {
    match s.sched
    case Sleep => s.(sched := Post50, begun := s.begun + 1)
    case Post50 => s.(sched := Post2, s50 := if s.cnt % HZ_50 == 0 then s.s50.Post() else s.s50)
    case Post2 =>
      s.(sched := Sleep, s2 := if s.cnt % HZ_2 == 0 then s.s2.Post() else s.s2,
         cnt := if s.cnt + 1 == WRAP then 0 else s.cnt + 1)
  }

  function Fast(s: State): State {
    match s.fast
    case FastCheck => if s.shutdown then s.(fast := FastDone, stopSensors := true) else s.(fast := FastWait)
    case FastWait => if s.s50.value > 0 then s.(s50 := s.s50.Wait(), fast := PostCreate) else s
    case PostCreate => s.(sCreate := s.sCreate.Post(), fast := PostImu)
    case PostImu => s.(sImu := s.sImu.Post(), fast := FastCheck)
    case FastDone => s
  }

  function Slow(s: State): State {
    match s.slow
    case SlowCheck => s.(slow := if s.shutdown then SlowDone else SlowWait)
    case SlowWait => if s.s2.value > 0 then s.(s2 := s.s2.Wait(), slow := Broadcast) else s
    case Broadcast => s.(broadcasts := s.broadcasts + 1, slow := SlowCheck)
    case SlowDone => s
  }

  function Create(s: State): State {
    match s.create
    case ReaderWait =>
      if s.sCreate.value > 0 then s.(sCreate := s.sCreate.Wait(), create := Read, createReads := s.createReads + 1)
      else s
    case Read => s.(create := if s.stopSensors then ReaderDone else ReaderWait)
    case ReaderDone => s
  }

  function Imu(s: State): State {
    match s.imu
    case ReaderWait =>
      if s.sImu.value > 0 then s.(sImu := s.sImu.Wait(), imu := Read, imuReads := s.imuReads + 1) else s
    case Read => s.(imu := if s.stopSensors then ReaderDone else ReaderWait)
    case ReaderDone => s
  }

  function Next(s: State, a: Action): State {
    match a
    case SchedulerStep => Schedule(s)
    case FastStep => Fast(s)
    case SlowStep => Slow(s)
    case CreateStep => Create(s)
    case ImuStep => Imu(s)
    case Shutdown => s.(shutdown := true)
  }

  function Run(s: State, acts: seq<Action>): State
    decreases |acts|
  {
    if acts == [] then s else Run(Next(s, acts[0]), acts[1..])
  }

  predicate Balanced(s: Semaphore) {
    s.value + s.waits == s.posts
  }

  /** Iterations whose 50 Hz (2 Hz) decision is already made. */
  function Decided50(s: State): int {
    if s.sched.Post50? then s.begun - 1 else s.begun
  }

  function Decided2(s: State): int {
    if s.sched.Sleep? then s.begun else s.begun - 1
  }

  predicate SchedulerInv(s: State) {
    && (s.sched.Sleep? || s.begun > 0)
    && s.cnt == Decided2(s) % WRAP
    && s.s50.posts == Multiples(Decided50(s), HZ_50)
    && s.s2.posts == Multiples(Decided2(s), HZ_2)
  }

  /** Each 50 Hz wait is followed by one post for the robot and one for the IMU. */
  predicate ThreadInv(s: State) {
    && s.s50.waits == s.sImu.posts + (if s.fast.PostCreate? || s.fast.PostImu? then 1 else 0)
    && s.sCreate.posts == s.sImu.posts + (if s.fast.PostImu? then 1 else 0)
    && s.createReads == s.sCreate.waits && s.imuReads == s.sImu.waits
    && s.s2.waits == s.broadcasts + (if s.slow.Broadcast? then 1 else 0)
  }

  predicate AllBalanced(s: State) {
    Balanced(s.s50) && Balanced(s.s2) && Balanced(s.sCreate) && Balanced(s.sImu)
  }

  predicate Inv(s: State) {
    SchedulerInv(s) && Others(s)
  }

  /** The scheduler's part of the state is the same. */
  predicate SameSchedule(s: State, t: State) {
    && t.sched == s.sched && t.begun == s.begun && t.cnt == s.cnt
    && t.s50.posts == s.s50.posts && t.s2.posts == s.s2.posts
  }

  predicate Others(s: State) {
    ThreadInv(s) && AllBalanced(s)
  }

  lemma FastKeeps(s: State)
    requires Others(s)
    ensures Others(Fast(s)) && SameSchedule(s, Fast(s))
  {
    match s.fast
    case FastCheck =>
    case FastWait =>
    case PostCreate =>
    case PostImu =>
    case FastDone =>
  }

  lemma SlowKeeps(s: State)
    requires Others(s)
    ensures Others(Slow(s)) && SameSchedule(s, Slow(s))
  {
    match s.slow
    case SlowCheck =>
    case SlowWait =>
    case Broadcast =>
    case SlowDone =>
  }

  lemma CreateKeeps(s: State)
    requires Others(s)
    ensures Others(Create(s)) && SameSchedule(s, Create(s))
  {
    match s.create
    case ReaderWait =>
    case Read =>
    case ReaderDone =>
  }

  lemma ImuKeeps(s: State)
    requires Others(s)
    ensures Others(Imu(s)) && SameSchedule(s, Imu(s))
  {
  }

  lemma ScheduleKeepsOthers(s: State)
    requires Others(s)
    ensures Others(Schedule(s))
  {
    match s.sched
    case Sleep =>
    case Post50 =>
    case Post2 =>
  }

  lemma ScheduleKeepsInv(s: State)
    requires SchedulerInv(s)
    ensures SchedulerInv(Schedule(s))
  {
    match s.sched
    case Sleep =>
    case Post50 => CounterTests(s.begun - 1, s.cnt);
    case Post2 => CounterTests(s.begun - 1, s.cnt);
  }

  /** The counter of iteration `n` decides as `n` itself, and moves on to the next one. */
  lemma CounterTests(n: nat, cnt: nat)
    requires cnt == n % WRAP
    ensures cnt % HZ_50 == n % HZ_50 && cnt % HZ_2 == n % HZ_2
    ensures (if cnt + 1 == WRAP then 0 else cnt + 1) == (n + 1) % WRAP
    ensures Multiples(n + 1, HZ_50) == Multiples(n, HZ_50) + if cnt % HZ_50 == 0 then 1 else 0
    ensures Multiples(n + 1, HZ_2) == Multiples(n, HZ_2) + if cnt % HZ_2 == 0 then 1 else 0
  {
    WrapIsInvisible(n);
  }

  lemma SameScheduleKeepsInv(s: State, t: State)
    requires SchedulerInv(s) && SameSchedule(s, t)
    ensures SchedulerInv(t)
  {
  }

  /** Steps of the other threads. */
  lemma ThreadKeepsOthers(s: State, a: Action)
    requires Others(s) && !a.SchedulerStep?
    ensures Others(Next(s, a)) && SameSchedule(s, Next(s, a))
  {
    match a
    case FastStep => FastKeeps(s);
    case SlowStep => SlowKeeps(s);
    case CreateStep => CreateKeeps(s);
    case ImuStep => ImuKeeps(s);
    case Shutdown =>
  }

  lemma NextKeepsInv(s: State, a: Action)
    requires Inv(s)
    ensures Inv(Next(s, a))
  {
    if a.SchedulerStep? {
      ScheduleKeepsInv(s);
      ScheduleKeepsOthers(s);
    } else {
      ThreadKeepsOthers(s, a);
      SameScheduleKeepsInv(s, Next(s, a));
    }
  }

  lemma {:induction false} RunKeepsInv(s: State, acts: seq<Action>)
    requires Inv(s)
    ensures Inv(Run(s, acts))
    decreases |acts|
  {
    if acts == [] {
    } else {
      NextKeepsInv(s, acts[0]);
      RunKeepsInv(Next(s, acts[0]), acts[1..]);
    }
  }

  // ---- main result -----------------------------------------------------------------------

  /** Between iterations exactly ceil(n/2) and ceil(n/50) posts have been made. */
  predicate PostsOnTime(s: State) {
    && (s.sched.Sleep? ==> s.s50.posts == (s.begun + 1) / 2 && s.s2.posts == (s.begun + 49) / 50)
    && s.s50.posts <= (s.begun + 1) / 2 && s.s2.posts <= (s.begun + 49) / 50
  }

  /** Each sensor gets at most one read per 50 Hz post, the two sensors are never
      more than one post apart, and there is at most one broadcast per 2 Hz post. */
  predicate ReadsFollowPosts(s: State) {
    && s.createReads <= s.sCreate.posts <= s.s50.waits <= s.s50.posts
    && s.imuReads <= s.sImu.posts <= s.sCreate.posts <= s.sImu.posts + 1
    && s.broadcasts <= s.s2.waits <= s.s2.posts
  }

  /** In every interleaving each semaphore's value plus its completed waits equals
      its posts, and the rates are kept: in particular the reads begun by either
      sensor thread never exceed ceil(n/2) after n ticks. */
  lemma RatesAreKept(acts: seq<Action>)
    ensures AllBalanced(Run(START, acts))
    ensures PostsOnTime(Run(START, acts)) && ReadsFollowPosts(Run(START, acts))
  {
    StartIsFine();
    RunKeepsInv(START, acts);
    OnTime(Run(START, acts));
    Following(Run(START, acts));
  }

  lemma StartIsFine()
    ensures Inv(START)
  {
    assert Multiples(0, HZ_50) == 0 && Multiples(0, HZ_2) == 0;
  }

  lemma OnTime(s: State)
    requires SchedulerInv(s)
    ensures PostsOnTime(s)
  {
    MultiplesAreCeil(Decided50(s), HZ_50);
    MultiplesAreCeil(Decided2(s), HZ_2);
  }

  lemma Following(s: State)
    requires Others(s)
    ensures ReadsFollowPosts(s)
  {
  }

  // ---- every post is answered ---------------------------------------------------------

  /** Without a shut-down no thread has left its loop. */
  predicate Alive(s: State) {
    && !s.shutdown && !s.stopSensors && !s.fast.FastDone? && !s.slow.SlowDone?
    && !s.create.ReaderDone? && !s.imu.ReaderDone?
  }

  lemma {:induction false} RunAlive(s: State, acts: seq<Action>)
    requires Alive(s) && Shutdown !in acts
    ensures Alive(Run(s, acts))
    decreases |acts|
  {
    if acts != [] {
      assert Alive(Next(s, acts[0]));
      RunAlive(Next(s, acts[0]), acts[1..]);
    }
  }

  // The steps of its own that each thread needs until it waits on an empty semaphore.

  function FastWork(s: State): nat {
    4 * s.s50.value + match s.fast case FastCheck => 1 case PostImu => 2 case PostCreate => 3 case _ => 0
  }

  function SlowWork(s: State): nat {
    3 * s.s2.value + match s.slow case SlowCheck => 1 case Broadcast => 2 case _ => 0
  }

  function CreateWork(s: State): nat {
    2 * s.sCreate.value + if s.create.Read? then 1 else 0
  }

  function ImuWork(s: State): nat {
    2 * s.sImu.value + if s.imu.Read? then 1 else 0
  }

  /** One step less, unless nothing is left. */
  function Less(n: nat, own: bool): nat {
    if own && n > 0 then n - 1 else n
  }

  lemma FastStepWork(s: State, a: Action)
    requires Alive(s) && !a.SchedulerStep? && !a.Shutdown?
    ensures FastWork(Next(s, a)) == Less(FastWork(s), a.FastStep?)
    ensures SlowWork(Next(s, a)) == Less(SlowWork(s), a.SlowStep?)
  {
  }

  lemma ReaderStepWork(s: State, a: Action)
    requires Alive(s) && !a.SchedulerStep? && !a.Shutdown? && FastWork(s) == 0
    ensures CreateWork(Next(s, a)) == Less(CreateWork(s), a.CreateStep?)
    ensures ImuWork(Next(s, a)) == Less(ImuWork(s), a.ImuStep?)
  {
  }

  function StepsOf(acts: seq<Action>, a: Action): nat {
    if acts == [] then 0 else (if acts[0] == a then 1 else 0) + StepsOf(acts[1..], a)
  }

  lemma ThreadStep(s: State, a: Action)
    requires Inv(s) && Alive(s) && !a.SchedulerStep? && !a.Shutdown?
    ensures Inv(Next(s, a)) && Alive(Next(s, a)) && SameSchedule(s, Next(s, a))
  {
    NextKeepsInv(s, a);
    ThreadKeepsOthers(s, a);
  }

  lemma {:induction false} FastDrains(s: State, acts: seq<Action>)
    requires Inv(s) && Alive(s) && SchedulerStep !in acts && Shutdown !in acts
    requires StepsOf(acts, FastStep) >= FastWork(s)
    ensures var t := Run(s, acts);
            Inv(t) && Alive(t) && FastWork(t) == 0 && SameSchedule(s, t)
    decreases |acts|
  {
    if acts != [] {
      FastStepWork(s, acts[0]);
      ThreadStep(s, acts[0]);
      FastDrains(Next(s, acts[0]), acts[1..]);
    }
  }

  lemma {:induction false} ReadersDrain(s: State, acts: seq<Action>)
    requires Inv(s) && Alive(s) && FastWork(s) == 0 && SchedulerStep !in acts && Shutdown !in acts
    requires StepsOf(acts, CreateStep) >= CreateWork(s) && StepsOf(acts, ImuStep) >= ImuWork(s)
    requires StepsOf(acts, SlowStep) >= SlowWork(s)
    ensures var t := Run(s, acts);
            && Inv(t) && Alive(t) && SameSchedule(s, t)
            && FastWork(t) == CreateWork(t) == ImuWork(t) == SlowWork(t) == 0
    decreases |acts|
  {
    if acts != [] {
      FastStepWork(s, acts[0]);
      ReaderStepWork(s, acts[0]);
      ThreadStep(s, acts[0]);
      ReadersDrain(Next(s, acts[0]), acts[1..]);
    }
  }

  /** The scheduler's own steps so far. */
  function Phase(s: State): int {
    match s.sched
    case Sleep => 3 * s.begun
    case Post50 => 3 * s.begun - 2
    case Post2 => 3 * s.begun - 1
  }

  lemma PhaseStep(s: State, a: Action)
    requires s.sched.Sleep? || s.begun > 0
    ensures var t := Next(s, a);
            (t.sched.Sleep? || t.begun > 0) && Phase(t) == Phase(s) + if a.SchedulerStep? then 1 else 0
  {
  }

  lemma {:induction false} PhaseOfRun(s: State, acts: seq<Action>)
    requires s.sched.Sleep? || s.begun > 0
    ensures Phase(Run(s, acts)) == Phase(s) + StepsOf(acts, SchedulerStep)
    decreases |acts|
  {
    if acts != [] {
      PhaseStep(s, acts[0]);
      PhaseOfRun(Next(s, acts[0]), acts[1..]);
    }
  }

  /** Three steps of the scheduler make a tick, whatever the other threads do. */
  lemma TicksGoOn(acts: seq<Action>, n: nat)
    requires StepsOf(acts, SchedulerStep) == 3 * n
    ensures Run(START, acts).sched.Sleep? && Run(START, acts).begun == n
  {
    PhaseOfRun(START, acts);
  }

  /** A bound on the work left, in terms of the posts made. */
  lemma WorkBound(s: State)
    requires Others(s)
    ensures FastWork(s) <= 4 * s.s50.posts + 3 && SlowWork(s) <= 3 * s.s2.posts + 2
    ensures CreateWork(s) <= 2 * s.s50.posts + 1 && ImuWork(s) <= 2 * s.s50.posts + 1
  {
  }

  /** When n ticks are over and the threads have time to catch up, in whatever
      interleaving, each sensor has been read ceil(n/2) times and the status was sent
      ceil(n/50) times. */
  lemma PostsAreAnswered(acts: seq<Action>, s: State, n: nat, a: seq<Action>, b: seq<Action>)
    requires Shutdown !in acts && s == Run(START, acts) && s.sched.Sleep? && n == s.begun
    requires SchedulerStep !in a && Shutdown !in a && SchedulerStep !in b && Shutdown !in b
    requires StepsOf(a, FastStep) >= 4 * n + 3 && StepsOf(b, SlowStep) >= 3 * n + 2
    requires StepsOf(b, CreateStep) >= 2 * n + 1 && StepsOf(b, ImuStep) >= 2 * n + 1
    ensures var t := Run(Run(s, a), b);
            t.createReads == t.imuReads == (n + 1) / 2 && t.broadcasts == (n + 49) / 50
  {
    StaysFine(acts, s);
    StaysAlive(acts, s);
    PostsAt(s, n);
    CatchUp(s, a, b, n);
  }

  lemma StaysFine(acts: seq<Action>, s: State)
    requires s == Run(START, acts)
    ensures Inv(s)
  {
    StartIsFine();
    RunKeepsInv(START, acts);
  }

  lemma StaysAlive(acts: seq<Action>, s: State)
    requires s == Run(START, acts) && Shutdown !in acts
    ensures Alive(s)
  {
    RunAlive(START, acts);
  }

  /** Between iterations the posts are those of all ticks. */
  lemma PostsAt(s: State, n: nat)
    requires SchedulerInv(s) && s.sched.Sleep? && n == s.begun
    ensures s.s50.posts == (n + 1) / 2 <= n && s.s2.posts == (n + 49) / 50 <= n
  {
    OnTime(s);
    FewPosts(n);
  }

  lemma CatchUp(s: State, a: seq<Action>, b: seq<Action>, n: nat)
    requires Inv(s) && Alive(s) && s.s50.posts <= n && s.s2.posts <= n
    requires SchedulerStep !in a && Shutdown !in a && SchedulerStep !in b && Shutdown !in b
    requires StepsOf(a, FastStep) >= 4 * n + 3 && StepsOf(b, SlowStep) >= 3 * n + 2
    requires StepsOf(b, CreateStep) >= 2 * n + 1 && StepsOf(b, ImuStep) >= 2 * n + 1
    ensures var t := Run(Run(s, a), b);
            t.createReads == t.imuReads == s.s50.posts && t.broadcasts == s.s2.posts
  {
    WorkBound(s);
    FastDrains(s, a);
    WorkBound(Run(s, a));
    ReadersDrain(Run(s, a), b);
    AllAnswered(Run(Run(s, a), b));
  }

  lemma FewPosts(n: nat)
    ensures (n + 1) / 2 <= n && (n + 49) / 50 <= n
  {
  }

  lemma AllAnswered(t: State)
    requires Others(t) && Alive(t) && FastWork(t) == CreateWork(t) == ImuWork(t) == SlowWork(t) == 0
    ensures t.createReads == t.imuReads == t.s50.posts && t.broadcasts == t.s2.posts
  {
  }
}
