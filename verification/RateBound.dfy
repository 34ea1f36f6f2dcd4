/**
 How many 401 answers a window can hold when at most `m` requests are in flight: the
 bound for every run, a run that meets it for every `m`, and so the exact in-flight
 limit under which ten is the bound.
 */
module RateBound {
  import opened Collections
  import opened Wrappers
  import opened RateLimiter

  /** At most `m` requests are in flight throughout the run. */
  ghost predicate AtMost(steps: seq<Step>, m: nat) {
    |Run(steps).inFlight| <= m && (steps == [] || AtMost(steps[..|steps| - 1], m))
  }

  /**
   Failures of requests that an earlier lockout overtook, recorded after it expired and
   forgotten at the next check; then ten that count; then those the next lockout overtakes.
   */
  function Bound(m: nat): int { Min(m - 1, 9) + 10 + (m - 1) }

  // ------------------------------------------------------------------- upper bound

  /** Locked, with no lockout started in the window yet. */
  ghost predicate Before(c: Config, count: nat, start: int, m: nat) {
    && c.st.lockedUntil.Some?
    && count <= CountFrom(c.st.failures, start)
    && count + |c.inFlight| <= m - 1
  }

  /** Not locked: what counts stands in the list, but for failures forgotten when a lockout was reset. */
  ghost predicate Open(c: Config, count: nat, start: int, m: nat) {
    && c.st.lockedUntil.None?
    && count <= Min(m - 1, MAX_FAILED_ATTEMPTS - 1) + CountFrom(c.st.failures, start)
  }

  /** Locked by a failure in the window, so until after its end. */
  ghost predicate Shut(c: Config, count: nat, start: int, m: nat) {
    && c.st.lockedUntil.Some? && c.st.lockedUntil.value >= start + LOCKOUT
    && count + |c.inFlight| <= Bound(m)
  }

  ghost predicate Phase(c: Config, count: nat, start: int, m: nat) {
    && m >= 1 && |c.st.failures| < MAX_FAILED_ATTEMPTS && |c.inFlight| <= m
    && (Before(c, count, start, m) || Open(c, count, start, m) || Shut(c, count, start, m))
  }

  lemma PhaseBound(c: Config, count: nat, start: int, m: nat)
    requires Phase(c, count, start, m)
    ensures count <= Bound(m)
  {
    CountBound(c.st.failures, start);
  }

  lemma PhaseCheck(c: Config, s: Step, count: nat, start: int, m: nat)
    requires Phase(c, count, start, m) && s.Check? && Enabled(c, s) && start <= s.time < start + WINDOW
    requires |Next(c, s).inFlight| <= m
    ensures Phase(Next(c, s), count, start, m)
  {
    CountBound(c.st.failures, start);
    CountRecent(c.st.failures, s.time, start);
    RecentNoLonger(c.st.failures, s.time);
  }

  lemma PhaseAccept(c: Config, s: Step, count: nat, start: int, m: nat)
    requires Phase(c, count, start, m) && s.Accept? && Enabled(c, s)
    ensures Phase(Next(c, s), count, start, m)
  {
    assert |c.inFlight - {s.id}| == |c.inFlight| - 1;
  }

  lemma PhaseFail(c: Config, s: Step, count: nat, start: int, m: nat)
    requires Phase(c, count, start, m) && s.Fail? && Enabled(c, s) && start <= s.time < start + WINDOW
    ensures Phase(Next(c, s), count + 1, start, m)
  {
    var failures, now := c.st.failures, s.time;
    assert |c.inFlight - {s.id}| == |c.inFlight| - 1;
    CountBound(failures, start);
    CountAppend(failures, now, start);
    CountRecent(failures + [now], now, start);
    RecentNoLonger(failures + [now], now);
  }

  lemma {:induction false} RecentNoLonger(failures: seq<int>, now: int)
    ensures |Recent(failures, now)| <= |failures|
  {
    if failures == [] {
    } else {
      RecentNoLonger(failures[1..], now);
    }
  }

  /** Outside any window: the list is short, and a lockout leaves one request fewer in flight. */
  ghost predicate Always(c: Config, m: nat) {
    |c.st.failures| < MAX_FAILED_ATTEMPTS && |c.inFlight| <= m && (c.st.lockedUntil.Some? ==> |c.inFlight| <= m - 1)
  }

  lemma AlwaysStep(c: Config, s: Step, m: nat)
    requires Always(c, m) && Enabled(c, s) && |Next(c, s).inFlight| <= m
    ensures Always(Next(c, s), m)
  {
    RecentNoLonger(c.st.failures, s.time);
    RecentNoLonger(c.st.failures + [s.time], s.time);
    if !s.Check? {
      assert |c.inFlight - {s.id}| == |c.inFlight| - 1;
    }
  }

  lemma {:induction false} AlwaysHolds(steps: seq<Step>, m: nat)
    requires ValidRun(steps) && AtMost(steps, m)
    ensures Always(Run(steps), m)
  {
    if steps == [] {
    } else {
      var n := |steps| - 1;
      AlwaysHolds(steps[..n], m);
      AlwaysStep(Run(steps[..n]), steps[n], m);
    }
  }

  /** Before the window nothing is counted. */
  lemma {:induction false} NothingYet(steps: seq<Step>, start: int)
    requires ValidRun(steps) && (steps != [] ==> steps[|steps| - 1].time < start)
    ensures Unauthorizeds(steps, start, false) == 0
  {
    if steps == [] {
    } else {
      var n := |steps| - 1;
      assert n > 0 ==> steps[..n][n - 1] == steps[n - 1];
      NothingYet(steps[..n], start);
    }
  }

  lemma PhaseBegins(c: Config, start: int, m: nat)
    requires Always(c, m) && m >= 1
    ensures Phase(c, 0, start, m)
  {
  }

  lemma PhaseStep(c: Config, s: Step, count: nat, start: int, m: nat)
    requires Phase(c, count, start, m) && Enabled(c, s) && start <= s.time < start + WINDOW && |Next(c, s).inFlight| <= m
    ensures Phase(Next(c, s), count + if s.Fail? then 1 else 0, start, m)
  {
    if s.Check? {
      PhaseCheck(c, s, count, start, m);
    } else if s.Accept? {
      PhaseAccept(c, s, count, start, m);
    } else {
      PhaseFail(c, s, count, start, m);
    }
  }

  lemma {:induction false} PhaseHolds(steps: seq<Step>, start: int, m: nat)
    requires ValidRun(steps) && AtMost(steps, m) && m >= 1
    requires steps != [] ==> steps[|steps| - 1].time < start + WINDOW
    ensures Phase(Run(steps), Unauthorizeds(steps, start, false), start, m)
  {
    if steps == [] || steps[|steps| - 1].time < start {
      NothingYet(steps, start);
      AlwaysHolds(steps, m);
      PhaseBegins(Run(steps), start, m);
    } else {
      var n := |steps| - 1;
      var front := steps[..n];
      assert n > 0 ==> front[n - 1] == steps[n - 1];
      PhaseHolds(front, start, m);
      PhaseSnoc(steps, start, m);
    }
  }

  lemma PhaseSnoc(steps: seq<Step>, start: int, m: nat)
    requires ValidRun(steps) && AtMost(steps, m) && steps != [] && start <= steps[|steps| - 1].time < start + WINDOW
    requires Phase(Run(steps[..|steps| - 1]), Unauthorizeds(steps[..|steps| - 1], start, false), start, m)
    ensures Phase(Run(steps), Unauthorizeds(steps, start, false), start, m)
  {
    var front := steps[..|steps| - 1];
    PhaseStep(Run(front), steps[|steps| - 1], Unauthorizeds(front, start, false), start, m);
  }

  /** Every run with at most `m` requests in flight: no half-open 60 s window holds more 401 answers than the bound. */
  lemma {:induction false} AtMostBound(steps: seq<Step>, start: int, m: nat)
    requires ValidRun(steps) && AtMost(steps, m) && m >= 1
    ensures Unauthorizeds(steps, start, false) <= Bound(m)
  {
    if steps == [] || steps[|steps| - 1].time < start + WINDOW {
      PhaseHolds(steps, start, m);
      PhaseBound(Run(steps), Unauthorizeds(steps, start, false), start, m);
    } else {
      AtMostBound(steps[..|steps| - 1], start, m);
    }
  }

  // --------------------------------------------------------------- the bound is met

  /** The first `n` request numbers. */
  function Ids(n: nat): (r: set<nat>)
    ensures |r| == n && forall id: nat :: id in r <==> id < n
  {
    if n == 0 then {} else Ids(n - 1) + {n - 1}
  }

  /** `n` failures at one time. */
  function Same(time: int, n: nat): (r: seq<int>)
    ensures |r| == n && forall i :: 0 <= i < n ==> r[i] == time
  {
    if n == 0 then [] else [time] + Same(time, n - 1)
  }

  lemma {:induction false} SameKept(time: int, n: nat)
    ensures Recent(Same(time, n), time) == Same(time, n)
  {
    if n == 0 {
    } else {
      assert Same(time, n)[1..] == Same(time, n - 1);
      SameKept(time, n - 1);
    }
  }

  lemma SameMore(time: int, n: nat)
    ensures Same(time, n) + [time] == Same(time, n + 1)
  {
  }

  /** A run up to `time`: requests 0 to n - 1 are in flight, and `count` answers in the window from `start` were 401. */
  ghost predicate Reached(steps: seq<Step>, m: nat, time: int, start: int, n: nat, count: nat, st: State) {
    && ValidRun(steps) && AtMost(steps, m) && (steps != [] ==> steps[|steps| - 1].time <= time)
    && Run(steps).inFlight == Ids(n) && Run(steps).st == st
    && Unauthorizeds(steps, start, false) == count
  }

  lemma Snoc(steps: seq<Step>, s: Step, m: nat, start: int)
    requires ValidRun(steps) && AtMost(steps, m) && Enabled(Run(steps), s)
    requires steps != [] ==> steps[|steps| - 1].time <= s.time
    requires |Next(Run(steps), s).inFlight| <= m
    ensures var r := steps + [s];
            && ValidRun(r) && AtMost(r, m) && r[|r| - 1] == s && Run(r) == Next(Run(steps), s)
            && Unauthorizeds(r, start, false) == Unauthorizeds(steps, start, false) + if s.Fail? && InWindow(s.time, start) then 1 else 0
  {
    assert (steps + [s])[..|steps|] == steps;
  }

  lemma CheckNext(c: Config, n: nat, time: int)
    requires c.inFlight == Ids(n) && !Blocked(c.st, time)
    ensures Enabled(c, Check(n, time))
    ensures var c' := Next(c, Check(n, time)); c'.st == Checked(c.st, time) && c'.inFlight == Ids(n + 1)
  {
  }

  lemma FailNext(c: Config, n: nat, time: int)
    requires c.inFlight == Ids(n) && n > 0
    ensures Enabled(c, Fail(n - 1, time))
    ensures var c' := Next(c, Fail(n - 1, time)); c'.st == Failed(c.st, time) && c'.inFlight == Ids(n - 1)
  {
    assert Ids(n) - {n - 1} == Ids(n - 1);
  }

  /** One more request passes its check. */
  lemma Enter(steps: seq<Step>, m: nat, time: int, start: int, n: nat, count: nat, st: State) returns (r: seq<Step>)
    requires Reached(steps, m, time, start, n, count, st) && n < m && !Blocked(st, time)
    ensures Reached(r, m, time, start, n + 1, count, Checked(st, time))
  {
    CheckNext(Run(steps), n, time);
    Snoc(steps, Check(n, time), m, start);
    r := steps + [Check(n, time)];
  }

  /** The last request fails. */
  lemma Leave(steps: seq<Step>, m: nat, time: int, start: int, n: nat, count: nat, st: State) returns (r: seq<Step>)
    requires Reached(steps, m, time, start, n, count, st) && n > 0
    ensures Reached(r, m, time, start, n - 1, count + if InWindow(time, start) then 1 else 0, Failed(st, time))
  {
    FailNext(Run(steps), n, time);
    Snoc(steps, Fail(n - 1, time), m, start);
    r := steps + [Fail(n - 1, time)];
  }

  /** Fewer than ten failures at one time neither expire nor lock. */
  lemma FailedSame(time: int, f: nat, until: Option<int>)
    ensures var st := State(Same(time, f), until);
            Failed(st, time) == if f + 1 < MAX_FAILED_ATTEMPTS then State(Same(time, f + 1), until) else State([], Some(time + LOCKOUT))
  {
    SameMore(time, f);
    SameKept(time, f + 1);
  }

  lemma CheckedSame(time: int, f: nat)
    ensures Checked(State(Same(time, f), None), time) == State(Same(time, f), None)
  {
    SameKept(time, f);
  }

  lemma EnterOne(steps: seq<Step>, m: nat, time: int, start: int, n: nat, count: nat, f: nat) returns (r: seq<Step>)
    requires Reached(steps, m, time, start, n, count, State(Same(time, f), None)) && n < m
    ensures Reached(r, m, time, start, n + 1, count, State(Same(time, f), None))
  {
    CheckedSame(time, f);
    r := Enter(steps, m, time, start, n, count, State(Same(time, f), None));
  }

  lemma LeaveOne(steps: seq<Step>, m: nat, time: int, start: int, n: nat, count: nat, f: nat, until: Option<int>) returns (r: seq<Step>)
    requires Reached(steps, m, time, start, n, count, State(Same(time, f), until)) && n > 0 && f + 1 < MAX_FAILED_ATTEMPTS
    ensures Reached(r, m, time, start, n - 1, count + if InWindow(time, start) then 1 else 0, State(Same(time, f + 1), until))
  {
    FailedSame(time, f, until);
    r := Leave(steps, m, time, start, n, count, State(Same(time, f), until));
  }

  /** `k` more requests pass their check while `f` failures stand. */
  lemma {:induction false} EnterAll(steps: seq<Step>, m: nat, time: int, start: int, n: nat, count: nat, f: nat, k: nat) returns (r: seq<Step>)
    requires Reached(steps, m, time, start, n, count, State(Same(time, f), None)) && n + k <= m
    ensures Reached(r, m, time, start, n + k, count, State(Same(time, f), None))
    decreases k
  {
    if k == 0 {
      r := steps;
    } else {
      var next := EnterOne(steps, m, time, start, n, count, f);
      r := EnterAll(next, m, time, start, n + 1, count, f, k - 1);
    }
  }

  /** `k` requests in flight fail without reaching ten. */
  lemma {:induction false} LeaveAll(steps: seq<Step>, m: nat, time: int, start: int, n: nat, count: nat, f: nat, until: Option<int>, k: nat)
    returns (r: seq<Step>)
    requires Reached(steps, m, time, start, n, count, State(Same(time, f), until)) && k <= n && f + k < MAX_FAILED_ATTEMPTS
    ensures Reached(r, m, time, start, n - k, count + if InWindow(time, start) then k else 0, State(Same(time, f + k), until))
    decreases k
  {
    if k == 0 {
      r := steps;
    } else {
      var one := if InWindow(time, start) then 1 else 0;
      var next := LeaveOne(steps, m, time, start, n, count, f, until);
      r := LeaveAll(next, m, time, start, n - 1, count + one, f + 1, until, k - 1);
    }
  }

  /** One request is checked and fails. */
  lemma Round(steps: seq<Step>, m: nat, time: int, start: int, n: nat, count: nat, f: nat) returns (r: seq<Step>)
    requires Reached(steps, m, time, start, n, count, State(Same(time, f), None)) && n < m && f + 1 < MAX_FAILED_ATTEMPTS
    ensures Reached(r, m, time, start, n, count + if InWindow(time, start) then 1 else 0, State(Same(time, f + 1), None))
  {
    var entered := EnterOne(steps, m, time, start, n, count, f);
    r := LeaveOne(entered, m, time, start, n + 1, count, f, None);
  }

  /** `k` requests are checked and fail one after the other. */
  lemma {:induction false} Rounds(steps: seq<Step>, m: nat, time: int, start: int, n: nat, count: nat, f: nat, k: nat) returns (r: seq<Step>)
    requires Reached(steps, m, time, start, n, count, State(Same(time, f), None)) && n < m && f + k < MAX_FAILED_ATTEMPTS
    ensures Reached(r, m, time, start, n, count + if InWindow(time, start) then k else 0, State(Same(time, f + k), None))
    decreases k
  {
    if k == 0 {
      r := steps;
    } else {
      var next := Round(steps, m, time, start, n, count, f);
      r := Rounds(next, m, time, start, n, count + if InWindow(time, start) then 1 else 0, f + 1, k - 1);
    }
  }

  /** Nine failures stand: all that fit pass their check and one of them locks. */
  lemma Lock(steps: seq<Step>, m: nat, time: int, start: int, n: nat, count: nat) returns (r: seq<Step>)
    requires Reached(steps, m, time, start, n, count, State(Same(time, 9), None)) && n < m
    ensures Reached(r, m, time, start, m - 1, count + if InWindow(time, start) then 1 else 0, State([], Some(time + LOCKOUT)))
  {
    var full := EnterAll(steps, m, time, start, n, count, 9, m - n);
    FailedSame(time, 9, None);
    r := Leave(full, m, time, start, m, count, State(Same(time, 9), None));
  }

  /** Unlocked: requests fail one after the other until nine failures stand, then all that fit pass their check and one of them locks. */
  lemma Fill(steps: seq<Step>, m: nat, time: int, start: int, n: nat, count: nat, f: nat) returns (r: seq<Step>)
    requires Reached(steps, m, time, start, n, count, State(Same(time, f), None)) && n < m && f <= 9
    ensures Reached(r, m, time, start, m - 1, count + if InWindow(time, start) then 10 - f else 0, State([], Some(time + LOCKOUT)))
  {
    var nine := Rounds(steps, m, time, start, n, count, f, 9 - f);
    r := Lock(nine, m, time, start, n, count + if InWindow(time, start) then 9 - f else 0);
  }

  /** Whatever the limiter does meanwhile, everything in flight can still fail. */
  lemma {:induction false} Drain(steps: seq<Step>, m: nat, time: int, start: int, n: nat, count: nat, st: State) returns (r: seq<Step>)
    requires Reached(steps, m, time, start, n, count, st) && InWindow(time, start)
    ensures ValidRun(r) && AtMost(r, m) && Unauthorizeds(r, start, false) == count + n
    decreases n
  {
    if n == 0 {
      r := steps;
    } else {
      var next := Leave(steps, m, time, start, n, count, st);
      r := Drain(next, m, time, start, n - 1, count + 1, Failed(st, time));
    }
  }

  /** The bound is met by a run with at most `m` requests in flight, for every `m`. */
  lemma BoundIsMet(m: nat) returns (steps: seq<Step>)
    requires m >= 1
    ensures ValidRun(steps) && AtMost(steps, m) && Unauthorizeds(steps, LOCKOUT, false) == Bound(m)
  {
    var start, k := LOCKOUT, Min(m - 1, 9);
    var locked := Fill([], m, 0, start, 0, 0, 0);
    assert Reached(locked, m, start, start, m - 1, 0, State(Same(start, 0), Some(LOCKOUT)));
    var forgotten := LeaveAll(locked, m, start, start, m - 1, 0, 0, Some(LOCKOUT), k);
    var n := m - 1 - k;
    var reset := Enter(forgotten, m, start, start, n, k, State(Same(start, k), Some(LOCKOUT)));
    var again := Refill(reset, m, n, k);
    steps := Drain(again, m, start, start, m - 1, k + 10, State([], Some(start + LOCKOUT)));
  }

  /** The check that resets an expired lockout begins the ten that count. */
  lemma Refill(steps: seq<Step>, m: nat, n: nat, count: nat) returns (r: seq<Step>)
    requires Reached(steps, m, LOCKOUT, LOCKOUT, n + 1, count, EMPTY) && n < m
    ensures Reached(r, m, LOCKOUT, LOCKOUT, m - 1, count + 10, State([], Some(LOCKOUT + LOCKOUT)))
  {
    var one := LeaveOne(steps, m, LOCKOUT, LOCKOUT, n + 1, count, 0, None);
    r := Fill(one, m, LOCKOUT, LOCKOUT, n, count + 1, 1);
  }

  /** Ten is a bound for all runs with at most `m` requests in flight. */
  ghost predicate TenAlways(m: nat) {
    forall steps, start :: ValidRun(steps) && AtMost(steps, m) ==> Unauthorizeds(steps, start, false) <= 10
  }

  /** That is so exactly for `m` = 1: requests handled one at a time. */
  lemma TenExactly(m: nat)
    requires m >= 1
    ensures TenAlways(m) <==> m == 1
  {
    if m == 1 {
      forall steps, start | ValidRun(steps) && AtMost(steps, m)
        ensures Unauthorizeds(steps, start, false) <= 10
      {
        AtMostBound(steps, start, m);
      }
    } else {
      var steps := BoundIsMet(m);
      assert Bound(m) > 10;
    }
  }

  /** Without a limit on requests in flight there is no bound: some window of some run holds any number of 401 answers. */
  lemma NoBoundWithoutLimit(k: nat)
    ensures exists steps, start :: ValidRun(steps) && Unauthorizeds(steps, start, false) >= k
  {
    var steps := BoundIsMet(k + 1);
  }

  // ------------------------------------------------------------ one after the other

  /** Requests run one after the other: none is checked while another is unanswered. */
  ghost predicate Sequential(steps: seq<Step>) {
    steps == [] ||
    var n := |steps| - 1;
    Sequential(steps[..n]) && (steps[n].Check? ==> Run(steps[..n]).inFlight == {})
  }

  lemma {:induction false} SequentialIsAtMostOne(steps: seq<Step>)
    requires ValidRun(steps) && Sequential(steps)
    ensures AtMost(steps, 1)
  {
    if steps == [] {
    } else {
      var n := |steps| - 1;
      SequentialIsAtMostOne(steps[..n]);
      var c, s := Run(steps[..n]), steps[n];
      if !s.Check? {
        assert |c.inFlight - {s.id}| == |c.inFlight| - 1;
      }
    }
  }

  /** Sequential runs: at most 10 attempts answered 401 in any half-open 60 s window. */
  lemma SequentialAtMostTen(steps: seq<Step>, start: int)
    requires ValidRun(steps) && Sequential(steps)
    ensures Unauthorizeds(steps, start, false) <= 10
  {
    SequentialIsAtMostOne(steps);
    AtMostBound(steps, start, 1);
  }
}
