/** The comments of the transfer loops promise to give up after three calls in a
    row that moved nothing; the code counts them in total. */
module TransferPromise {
  import opened Transfer

  /** What the comments promise; `row` empty calls in a row came last. */
  function Documented(schedule: seq<int>, total: nat, moved: nat, row: nat): (o: Outcome)
    requires moved <= total && row <= 2
    ensures moved <= o.moved <= total
    decreases total - moved, 3 - row
  {
    if moved == total then Outcome(moved, 0, moved)
    else
      var n := Answer(schedule, total - moved);
      var rest := if schedule == [] then [] else schedule[1..];
      if n < 0 then Outcome(moved, 1, -1)
      else if n == 0 && row == 2 then Outcome(moved, 1, moved)
      else
        var o := Documented(rest, total, moved + n, if n == 0 then row + 1 else 0);
        o.(calls := o.calls + 1)
  }

  /** Bytes handed over and value returned. */
  datatype End = End(moved: nat, result: int)

  function EndOf(o: Outcome): End {
    End(o.moved, o.result)
  }

  /** A transfer that never gives up, for as long as there are answers. */
  function Patient(schedule: seq<int>, total: nat, moved: nat): (e: End)
    requires moved <= total
    ensures e.moved >= moved
    decreases |schedule|
  {
    if moved == total || schedule == [] then End(moved, moved)
    else
      var n := Answer(schedule, total - moved);
      if n < 0 then End(moved, -1) else Patient(schedule[1..], total, moved + n)
  }

  // ---- where code and comments stop ------------------------------------------------------

  /** How many answers come before the fourth zero, all of them if there is none. */
  function CodeStop(s: seq<int>, zeroes: nat): (k: nat)
    requires zeroes <= 3
    ensures k <= |s|
  {
    if s == [] || (s[0] == 0 && zeroes == 3) then 0 else 1 + CodeStop(s[1..], Seen(zeroes, s[0]))
  }

  /** How many answers come before the third zero in a row. */
  function PromisedStop(s: seq<int>, row: nat): (k: nat)
    requires row <= 2
    ensures k <= |s|
  {
    if s == [] || (s[0] == 0 && row == 2) then 0
    else 1 + PromisedStop(s[1..], if s[0] == 0 then row + 1 else 0)
  }

  /** ... or for `k` answers. */
  function PatientFor(s: seq<int>, k: nat, total: nat, moved: nat): End
    requires k <= |s| && moved <= total
  {
    if moved == total || k == 0 then End(moved, moved)
    else
      var n := Answer(s, total - moved);
      if n < 0 then End(moved, -1) else PatientFor(s[1..], k - 1, total, moved + n)
  }

  lemma {:induction false} PatientForIs(s: seq<int>, k: nat, total: nat, moved: nat)
    requires k <= |s| && moved <= total
    ensures PatientFor(s, k, total, moved) == Patient(s[..k], total, moved)
    decreases k
  {
    if moved < total && k > 0 {
      assert s[..k][0] == s[0] && s[..k][1..] == s[1..][..k - 1];
      var n := Answer(s, total - moved);
      if n >= 0 {
        PatientForIs(s[1..], k - 1, total, moved + n);
      }
    }
  }

  lemma {:induction false} LoopIsPatient(s: seq<int>, total: nat, moved: nat, zeroes: nat)
    requires moved <= total && zeroes <= 3
    ensures EndOf(Loop(s, total, moved, zeroes)) == PatientFor(s, CodeStop(s, zeroes), total, moved)
    decreases |s|
  {
    if moved < total {
      if s == [] {
        OutOfCalls(total, moved, zeroes);
      } else if !(s[0] == 0 && zeroes == 3) {
        var n := Answer(s, total - moved);
        if n >= 0 {
          LoopIsPatient(s[1..], total, moved + n, Seen(zeroes, s[0]));
        }
      }
    }
  }

  lemma {:induction false} DocumentedOutOfCalls(total: nat, moved: nat, row: nat)
    requires moved < total && row <= 2
    ensures EndOf(Documented([], total, moved, row)) == End(moved, moved)
    decreases 3 - row
  {
    if row < 2 { DocumentedOutOfCalls(total, moved, row + 1); }
  }

  lemma {:induction false} DocumentedIsPatient(s: seq<int>, total: nat, moved: nat, row: nat)
    requires moved <= total && row <= 2
    ensures EndOf(Documented(s, total, moved, row)) == PatientFor(s, PromisedStop(s, row), total, moved)
    decreases |s|
  {
    if moved < total {
      if s == [] {
        DocumentedOutOfCalls(total, moved, row);
      } else if !(s[0] == 0 && row == 2) {
        var n := Answer(s, total - moved);
        if n >= 0 {
          DocumentedIsPatient(s[1..], total, moved + n, if s[0] == 0 then row + 1 else 0);
        }
      }
    }
  }

  // ---- when they agree --------------------------------------------------------------------

  /** The transfer fails or completes within these calls. */
  predicate Ended(calls: seq<int>, wanted: nat) {
    !NonNegative(calls) || Total(calls) >= wanted
  }

  predicate AllZero(calls: seq<int>) {
    forall i :: 0 <= i < |calls| ==> calls[i] == 0
  }

  lemma {:induction false} PatientWaits(b: seq<int>, total: nat, moved: nat)
    requires moved < total
    ensures Patient(b, total, moved) == End(moved, moved) <==> AllZero(b)
    decreases |b|
  {
    if b != [] {
      if b[0] == 0 {
        PatientWaits(b[1..], total, moved);
        assert AllZero(b[1..]) ==> forall i :: 1 <= i < |b| ==> b[i] == b[1..][i - 1];
      } else {
        assert !AllZero(b);
      }
    }
  }

  /** More calls make no difference exactly when it was over before, or they move
      nothing. */
  lemma {:induction false} PatientExtends(a: seq<int>, b: seq<int>, total: nat, moved: nat)
    requires moved <= total
    ensures Patient(a + b, total, moved) == Patient(a, total, moved) <==> Ended(a, total - moved) || AllZero(b)
    decreases |a|
  {
    if moved == total {
      if NonNegative(a) { TotalNonNegative(a); }
    } else if a == [] {
      assert a + b == b;
      PatientWaits(b, total, moved);
    } else {
      assert (a + b)[0] == a[0] && (a + b)[1..] == a[1..] + b;
      var n := Answer(a, total - moved);
      if n >= 0 {
        EndedStep(a, total - moved);
        PatientExtends(a[1..], b, total, moved + n);
      } else {
        assert !NonNegative(a);
      }
    }
  }

  lemma EndedStep(a: seq<int>, wanted: nat)
    requires a != [] && a[0] >= 0 && wanted > 0
    ensures Ended(a, wanted) <==> Ended(a[1..], wanted - Answer(a, wanted))
  {
    if NonNegative(a[1..]) {
      TotalNonNegative(a[1..]);
      assert forall i :: 1 <= i < |a| ==> a[i] == a[1..][i - 1];
      assert NonNegative(a);
    } else {
      var i :| 0 <= i < |a| - 1 && a[1..][i] < 0;
      assert a[i + 1] < 0;
    }
  }

  function Min(x: nat, y: nat): nat {
    if x < y then x else y
  }

  function Max(x: nat, y: nat): nat {
    if x < y then y else x
  }

  /** On every schedule code and comments hand over the same bytes and return the
      same exactly when the transfer is over before either gives up, or nothing
      moves between the two points where they give up. */
  lemma AgreesIff(s: seq<int>, total: nat)
    ensures var c, d := CodeStop(s, 0), PromisedStop(s, 0);
            EndOf(Loop(s, total, 0, 0)) == EndOf(Documented(s, total, 0, 0))
            <==> Ended(s[..Min(c, d)], total) || AllZero(s[Min(c, d)..Max(c, d)])
  {
    var c, d := CodeStop(s, 0), PromisedStop(s, 0);
    var lo, hi := Min(c, d), Max(c, d);
    LoopIsPatient(s, total, 0, 0);
    DocumentedIsPatient(s, total, 0, 0);
    PatientForIs(s, c, total, 0);
    PatientForIs(s, d, total, 0);
    assert s[..hi] == s[..lo] + s[lo..hi];
    PatientExtends(s[..lo], s[lo..hi], total, 0);
  }

  // ---- the two points in terms of the schedule ---------------------------------------------

  predicate ThreeAt(s: seq<int>, i: nat)
    requires i + 2 < |s|
  {
    s[i] == 0 && s[i + 1] == 0 && s[i + 2] == 0
  }

  predicate ThreeInARow(s: seq<int>) {
    exists i :: 0 <= i < |s| - 2 && ThreeAt(s, i)
  }

  /** The first three zeroes in a row start at `i`. */
  predicate FirstThree(s: seq<int>, i: nat) {
    i + 2 < |s| && ThreeAt(s, i) && forall j: nat :: j < i ==> !ThreeAt(s, j)
  }

  /** Answer `m` is the third zero in a row, `row` zeroes standing before the schedule. */
  predicate RowEndsAt(s: seq<int>, row: nat, m: nat)
    requires m < |s|
  {
    && m + row >= 2 && s[m] == 0
    && (m >= 1 ==> s[m - 1] == 0) && (m >= 2 ==> s[m - 2] == 0)
  }

  lemma {:induction false} PromisedStopIs(s: seq<int>, row: nat)
    requires row <= 2
    ensures var k := PromisedStop(s, row);
            && (k < |s| ==> RowEndsAt(s, row, k))
            && forall m: nat :: m < k ==> !RowEndsAt(s, row, m)
    decreases |s|
  {
    if s != [] && !(s[0] == 0 && row == 2) {
      var rest, next := s[1..], if s[0] == 0 then row + 1 else 0;
      var k := PromisedStop(rest, next);
      PromisedStopIs(rest, next);
      if k < |rest| { RowStep(s, row, k); }
      forall m: nat | m < 1 + k
        ensures !RowEndsAt(s, row, m)
      {
        if m > 0 {
          RowStep(s, row, m - 1);
          assert !RowEndsAt(rest, next, m - 1);
        }
      }
    }
  }

  lemma RowStep(s: seq<int>, row: nat, m: nat)
    requires m + 1 < |s| && row <= 2 && !(s[0] == 0 && row == 2)
    ensures RowEndsAt(s, row, m + 1) <==> RowEndsAt(s[1..], if s[0] == 0 then row + 1 else 0, m)
  {
  }

  /** The promised point is the third of the first three zeroes in a row. */
  lemma PromisedStopAt(s: seq<int>)
    ensures forall i: nat :: FirstThree(s, i) ==> PromisedStop(s, 0) == i + 2
    ensures !ThreeInARow(s) ==> PromisedStop(s, 0) == |s|
  {
    var k := PromisedStop(s, 0);
    PromisedStopIs(s, 0);
    if k < |s| {
      assert ThreeAt(s, k - 2);
    }
    forall i: nat | FirstThree(s, i)
      ensures k == i + 2
    {
      assert RowEndsAt(s, 0, i + 2);
    }
  }

  /** The code's point is the fourth zero. */
  lemma {:induction false} CodeStopIs(s: seq<int>, zeroes: nat)
    requires zeroes <= 3
    ensures var k := CodeStop(s, zeroes);
            && zeroes + Zeroes(s[..k]) <= 3
            && (k < |s| ==> s[k] == 0 && zeroes + Zeroes(s[..k]) == 3)
    decreases |s|
  {
    if s != [] && !(s[0] == 0 && zeroes == 3) {
      var k := CodeStop(s[1..], Seen(zeroes, s[0]));
      CodeStopIs(s[1..], Seen(zeroes, s[0]));
      assert s[..1 + k][0] == s[0] && s[..1 + k][1..] == s[1..][..k];
    }
  }

  lemma {:induction false} ZeroesAppend(a: seq<int>, b: seq<int>)
    ensures Zeroes(a + b) == Zeroes(a) + Zeroes(b)
    decreases |a|
  {
    if a == [] {
      assert a + b == b;
    } else {
      assert (a + b)[0] == a[0] && (a + b)[1..] == a[1..] + b;
      ZeroesAppend(a[1..], b);
    }
  }

  lemma OneMoreAnswer(s: seq<int>, k: nat)
    requires k < |s|
    ensures Zeroes(s[..k + 1]) == Zeroes(s[..k]) + if s[k] == 0 then 1 else 0
  {
    assert s[..k + 1] == s[..k] + [s[k]];
    ZeroesAppend(s[..k], [s[k]]);
    assert [s[k]][1..] == [] && Zeroes([]) == 0;
  }

  lemma ZeroesMono(s: seq<int>, k: nat, m: nat)
    requires k <= m <= |s|
    ensures Zeroes(s[..k]) <= Zeroes(s[..m])
  {
    assert s[..m] == s[..k] + s[k..m];
    ZeroesAppend(s[..k], s[k..m]);
  }

  /** Up to the code's point there are at most three zeroes, behind it four. */
  lemma CodeStopBefore(s: seq<int>, k: nat)
    requires k <= |s|
    ensures k <= CodeStop(s, 0) <==> Zeroes(s[..k]) <= 3
  {
    var c := CodeStop(s, 0);
    CodeStopIs(s, 0);
    if k <= c {
      ZeroesMono(s, k, c);
    } else {
      OneMoreAnswer(s, c);
      ZeroesMono(s, c + 1, k);
    }
  }

  /** Nothing moves between the two points where code and comments give up. */
  predicate StopTogether(s: seq<int>) {
    var c, d := CodeStop(s, 0), PromisedStop(s, 0);
    AllZero(s[Min(c, d)..Max(c, d)])
  }

  /** Counting from the start of the first three in a row. */
  lemma ZeroesOfThree(s: seq<int>, i: nat)
    requires FirstThree(s, i)
    ensures var z := Zeroes(s[..i]);
            Zeroes(s[..i + 1]) == z + 1 && Zeroes(s[..i + 2]) == z + 2 && Zeroes(s[..i + 3]) == z + 3
  {
    OneMoreAnswer(s, i);
    OneMoreAnswer(s, i + 1);
    OneMoreAnswer(s, i + 2);
  }

  lemma TogetherAfterNone(s: seq<int>, i: nat)
    requires FirstThree(s, i) && Zeroes(s[..i]) == 0
    ensures StopTogether(s) <==> i + 3 == |s| || s[i + 3] == 0
  {
    var c, d := CodeStop(s, 0), PromisedStop(s, 0);
    PromisedStopAt(s);
    ZeroesOfThree(s, i);
    CodeStopBefore(s, i + 3);
    assert s[d..c][0] == s[i + 2];
    if i + 3 < |s| {
      OneMoreAnswer(s, i + 3);
      CodeStopBefore(s, i + 4);
      if s[i + 3] != 0 {
        assert s[d..c][1] == s[i + 3];
      }
    }
  }

  lemma TogetherAfterSome(s: seq<int>, i: nat)
    requires FirstThree(s, i) && Zeroes(s[..i]) >= 1
    ensures StopTogether(s) <==> Zeroes(s[..i]) <= 3
  {
    var c, d := CodeStop(s, 0), PromisedStop(s, 0);
    PromisedStopAt(s);
    ZeroesOfThree(s, i);
    CodeStopBefore(s, i);
    CodeStopBefore(s, i + 3);
    if c < i && AllZero(s[c..d]) {
      assert s[c..d][0] == s[c] && s[c..d][1] == s[c + 1] && s[c..d][2] == s[c + 2];
      assert ThreeAt(s, c);
    }
  }

  /** With three zeroes in a row, the first at `i`, the two points come to the same
      exactly when one to three zeroes stand before them, or none does and a fourth
      zero or the end follows. */
  lemma StopTogetherIff(s: seq<int>, i: nat)
    requires FirstThree(s, i)
    ensures var z := Zeroes(s[..i]);
            StopTogether(s) <==> 1 <= z <= 3 || (z == 0 && (i + 3 == |s| || s[i + 3] == 0))
  {
    if Zeroes(s[..i]) == 0 {
      TogetherAfterNone(s, i);
    } else {
      TogetherAfterSome(s, i);
    }
  }

  /** The answers of a schedule that bring exactly what is wanted, the last byte
      with the last of them. */
  predicate AddsUp(s: seq<int>, wanted: nat) {
    NonNegative(s) && Total(s) == wanted && (s != [] ==> s[|s| - 1] > 0)
  }

  lemma {:induction false} NotBeforeTheEnd(s: seq<int>, k: nat)
    requires NonNegative(s) && k < |s| && s[|s| - 1] > 0
    ensures NonNegative(s[..k]) && 0 <= Total(s[..k]) < Total(s)
    decreases k
  {
    if k == 0 {
      TotalPositive(s);
    } else {
      assert s[..k][0] == s[0] && s[..k][1..] == s[1..][..k - 1];
      NotBeforeTheEnd(s[1..], k - 1);
    }
  }

  /** On a schedule that adds up code and comments come to the same exactly when
      there are at most three zeroes, or else three in a row with the fourth zero
      among them or next to them. */
  lemma AgreesOnFullSchedule(s: seq<int>, total: nat)
    requires AddsUp(s, total)
    ensures var agree := EndOf(Loop(s, total, 0, 0)) == EndOf(Documented(s, total, 0, 0));
            && (!ThreeInARow(s) ==> (agree <==> Zeroes(s) <= 3))
            && forall i: nat :: FirstThree(s, i) ==>
                 var z := Zeroes(s[..i]);
                 agree <==> 1 <= z <= 3 || (z == 0 && i + 3 < |s| && s[i + 3] == 0)
  {
    var c, d := CodeStop(s, 0), PromisedStop(s, 0);
    AgreesIff(s, total);
    PromisedStopAt(s);
    CodeStopBefore(s, |s|);
    assert s[..|s|] == s;
    if Min(c, d) < |s| {
      NotBeforeTheEnd(s, Min(c, d));
    }
    if c < |s| == d {
      assert s[c..d][|s| - 1 - c] > 0;
    }
    forall i: nat | FirstThree(s, i)
      ensures i + 3 < |s|
      ensures StopTogether(s) <==> (1 <= Zeroes(s[..i]) <= 3 || (Zeroes(s[..i]) == 0 && s[i + 3] == 0))
    {
      assert s[|s| - 1] > 0;
      StopTogetherIff(s, i);
    }
  }

  // ---- inputs on which they differ ---------------------------------------------------------

  /** The first answer, in the code and in the comments. */
  lemma FirstAnswer(n: nat, rest: seq<int>, total: nat, moved: nat, zeroes: nat, row: nat)
    requires moved < total && moved + n <= total && zeroes <= 3 && row <= 2
    ensures Zeroes([n] + rest) == Zeroes(rest) + if n == 0 then 1 else 0
    ensures Loop([n] + rest, total, moved, zeroes).moved
         == if n == 0 && zeroes == 3 then moved else Loop(rest, total, moved + n, Seen(zeroes, n)).moved
    ensures Documented([n] + rest, total, moved, row).moved
         == if n == 0 && row == 2 then moved else Documented(rest, total, moved + n, if n == 0 then row + 1 else 0).moved
  {
    assert ([n] + rest)[1..] == rest;
  }

  /** One byte, then nothing. */
  lemma ByteThenNothing(rest: seq<int>, total: nat, moved: nat, zeroes: nat, row: nat)
    requires moved + 1 < total && zeroes <= 3 && row <= 2
    ensures Zeroes([1] + ([0] + rest)) == 1 + Zeroes(rest)
    ensures Loop([1] + ([0] + rest), total, moved, zeroes).moved
         == if zeroes == 3 then moved + 1 else Loop(rest, total, moved + 1, zeroes + 1).moved
    ensures Documented([1] + ([0] + rest), total, moved, row).moved == Documented(rest, total, moved + 1, 1).moved
  {
    FirstAnswer(1, [0] + rest, total, moved, zeroes, row);
    FirstAnswer(0, rest, total, moved + 1, zeroes, 0);
  }

  /** `n + 1` single bytes with an empty call between any two of them. */
  function InTurn(n: nat): seq<int> {
    if n == 0 then [1] else [1] + ([0] + InTurn(n - 1))
  }

  lemma {:induction false} InTurnRuns(n: nat, moved: nat, zeroes: nat, row: nat)
    requires zeroes <= 3 && row <= 2
    ensures Zeroes(InTurn(n)) == n
    ensures Documented(InTurn(n), moved + n + 1, moved, row).moved == moved + n + 1
    ensures Loop(InTurn(n), moved + n + 1, moved, zeroes).moved
         == if zeroes + n <= 3 then moved + n + 1 else moved + 4 - zeroes
  {
    if n == 0 {
      FirstAnswer(1, [], moved + 1, moved, zeroes, row);
      assert [1] + [] == InTurn(0);
    } else {
      ByteThenNothing(InTurn(n - 1), moved + n + 1, moved, zeroes, row);
      InTurnRuns(n - 1, moved + 1, if zeroes < 3 then zeroes + 1 else 3, 1);
    }
  }

  lemma {:induction false} InTurnAt(n: nat, i: nat)
    requires i < |InTurn(n)|
    ensures InTurn(n)[i] == 1 - i % 2
  {
    if n > 0 && i >= 2 {
      InTurnAt(n - 1, i - 2);
    }
  }

  /** Never three in a row, and for five bytes or more the code gives up after
      four of them. */
  lemma GivesUpEarly(n: nat)
    requires n >= 4
    ensures !ThreeInARow(InTurn(n)) && Zeroes(InTurn(n)) == n
    ensures Loop(InTurn(n), n + 1, 0, 0).moved == 4 && Documented(InTurn(n), n + 1, 0, 0).moved == n + 1
  {
    InTurnRuns(n, 0, 0, 0);
    forall i | 0 <= i < |InTurn(n)| - 2
      ensures !ThreeAt(InTurn(n), i)
    {
      InTurnAt(n, i);
      InTurnAt(n, i + 1);
    }
  }

  lemma NothingThreeTimes(rest: seq<int>, total: nat, moved: nat)
    requires moved < total
    ensures Zeroes([0] + ([0] + ([0] + rest))) == 3 + Zeroes(rest)
    ensures Loop([0] + ([0] + ([0] + rest)), total, moved, 0).moved == Loop(rest, total, moved, 3).moved
    ensures Documented([0] + ([0] + ([0] + rest)), total, moved, 0).moved == moved
  {
    FirstAnswer(0, [0] + ([0] + rest), total, moved, 0, 0);
    FirstAnswer(0, [0] + rest, total, moved, 1, 1);
    FirstAnswer(0, rest, total, moved, 2, 2);
  }

  /** A byte, three empty calls, and the rest. */
  function WithGap(n: nat): seq<int> {
    [1] + ([0] + ([0] + ([0] + [n])))
  }

  /** Three in a row, and the code goes on and completes. */
  lemma GoesOn(n: nat)
    requires n > 0
    ensures ThreeInARow(WithGap(n)) && Zeroes(WithGap(n)) == 3
    ensures Loop(WithGap(n), n + 1, 0, 0).moved == n + 1 && Documented(WithGap(n), n + 1, 0, 0).moved == 1
  {
    FirstAnswer(1, [0] + ([0] + ([0] + [n])), n + 1, 0, 0, 0);
    NothingThreeTimes([n], n + 1, 1);
    FirstAnswer(n, [], n + 1, 1, 3, 0);
    assert [n] + [] == [n] && ThreeAt(WithGap(n), 1);
  }
}
