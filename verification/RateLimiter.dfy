/**
 API-key authentication behind a global rate limiter: a sliding window of failed
 attempts and a timed lockout. Times are integers (nanoseconds of a monotonic
 clock). A request takes the limiter's lock twice, once to be checked and once to
 record a failure, so requests interleave between the two.
 */
module RateLimiter {
  import opened Wrappers

  const MAX_FAILED_ATTEMPTS := 10
  const WINDOW := 60 * 1_000_000_000
  const LOCKOUT := 300 * 1_000_000_000

  datatype State = State(failures: seq<int>, lockedUntil: Option<int>)

  const EMPTY := State([], None)

  /** `retain(t > now - window)`. */
  function Recent(failures: seq<int>, now: int): (r: seq<int>)
    ensures |r| <= |failures|
  {
    if failures == [] then []
    else (if failures[0] > now - WINDOW then [failures[0]] else []) + Recent(failures[1..], now)
  }

  lemma {:induction false} RecentMembers(failures: seq<int>, now: int)
    ensures forall t :: t in Recent(failures, now) <==> t in failures && t > now - 60_000_000_000
  {
    if failures == [] {
    } else {
      RecentMembers(failures[1..], now);
    }
  }

  predicate Blocked(st: State, now: int) {
    st.lockedUntil.Some? && now < st.lockedUntil.value
  }

  /** The limiter after a request's check; a blocked request changes nothing. */
  function Checked(st: State, now: int): State {
    if Blocked(st, now) then st
    else if st.lockedUntil.Some? then EMPTY
    else State(Recent(st.failures, now), None)
  }

  predicate Locks(st: State, now: int) {
    |Recent(st.failures + [now], now)| >= MAX_FAILED_ATTEMPTS
  }

  /** The limiter after a failed attempt is recorded. */
  function Failed(st: State, now: int): State {
    if Locks(st, now) then State([], Some(now + LOCKOUT))
    else State(Recent(st.failures + [now], now), st.lockedUntil)
  }

  // ------------------------------------------------------------ implementation

  type Key = seq<bv8>

  datatype Status = Accepted | Unauthorized | TooManyRequests

  /** The constant-time comparison: equal keys leave no differing bit. */
  method SameKey(key: Key, expected: Key) returns (same: bool)
    ensures same <==> key == expected
  {
    var maxLen := if |key| >= |expected| then |key| else |expected|;
    var diff: bv8 := 0;
    for i := 0 to maxLen
      invariant diff == 0 <==> forall j :: 0 <= j < i ==> ByteOr(key, j, 0xFF) == ByteOr(expected, j, 0xFE)
    {
      var a, b := ByteOr(key, i, 0xFF), ByteOr(expected, i, 0xFE);
      OrXorZero(diff, a, b);
      diff := diff | (a ^ b);
    }
    diff := diff | (if |key| != |expected| then 1 else 0);
    if key == expected {
    } else if |key| == |expected| {
      var j :| 0 <= j < |key| && key[j] != expected[j];
      assert ByteOr(key, j, 0xFF) != ByteOr(expected, j, 0xFE);
    }
    same := diff == 0;
  }

  function ByteOr(key: Key, i: nat, default: bv8): bv8 {
    if i < |key| then key[i] else default
  }

  lemma OrXorZero(d: bv8, a: bv8, b: bv8)
    ensures d | (a ^ b) == 0 <==> d == 0 && a == b
  {
  }

  class Limiter {
    var failures: seq<int>
    var lockedUntil: Option<int>

    function Abs(): State
      reads this
    {
      State(failures, lockedUntil)
    }

    constructor ()
      ensures Abs() == EMPTY
    {
      failures, lockedUntil := [], None;
    }

    /** The check block: reject during a lockout, reset after one, prune old failures. */
    method Check(now: int) returns (blocked: bool)
      modifies this
      ensures blocked == Blocked(old(Abs()), now)
      ensures Abs() == Checked(old(Abs()), now)
      ensures !blocked ==> lockedUntil.None? && forall t :: t in failures ==> t in old(failures) && t > now - 60_000_000_000
      ensures old(lockedUntil).None? ==> forall t :: t in old(failures) && t > now - 60_000_000_000 ==> t in failures
    {
      if lockedUntil.Some? {
        if now < lockedUntil.value {
          return true;
        }
        lockedUntil := None;
        failures := [];
      }
      RecentMembers(failures, now);
      failures := Recent(failures, now);
      blocked := false;
    }

    method RecordFailure(now: int)
      modifies this
      ensures Abs() == Failed(old(Abs()), now)
      ensures forall t :: t in failures ==> (t in old(failures) || t == now) && t > now - 60_000_000_000
      ensures lockedUntil == old(lockedUntil) || (lockedUntil == Some(now + 300_000_000_000) && failures == [])
    {
      failures := failures + [now];
      RecentMembers(failures, now);
      failures := Recent(failures, now);
      if |failures| >= MAX_FAILED_ATTEMPTS {
        lockedUntil := Some(now + LOCKOUT);
        failures := [];
      }
    }

    /** One key-requiring request that runs without interference. */
    method Authenticate(key: Option<Key>, expected: Key, checkedAt: int, failedAt: int) returns (status: Status)
      modifies this
      ensures status == TooManyRequests <==> Blocked(old(Abs()), checkedAt)
      ensures status == Accepted <==> !Blocked(old(Abs()), checkedAt) && key == Some(expected)
      ensures Abs() == if status == Unauthorized then Failed(Checked(old(Abs()), checkedAt), failedAt)
                       else Checked(old(Abs()), checkedAt)
    {
      var blocked := Check(checkedAt);
      if blocked {
        return TooManyRequests;
      }
      if key.Some? {
        var same := SameKey(key.value, expected);
        if same {
          return Accepted;
        }
      }
      RecordFailure(failedAt);
      status := Unauthorized;
    }
  }

  // ---------------------------------------------------------------- runs

  /** The steps of concurrent requests: the check, then a recorded failure or an acceptance. */
  datatype Step =
    | Check(id: nat, time: int)
    | Fail(id: nat, time: int)
    | Accept(id: nat, time: int)

  /**
   `inFlight`: requests that passed their check and have not been answered;
   `standing`: those among them that no lockout has overtaken since.
   */
  datatype Config = Config(st: State, inFlight: set<nat>, standing: set<nat>)

  const INIT := Config(EMPTY, {}, {})

  ghost predicate Enabled(c: Config, s: Step) {
    if s.Check? then s.id !in c.inFlight else s.id in c.inFlight
  }

  function Next(c: Config, s: Step): Config {
    match s
    case Check(id, now) =>
      if Blocked(c.st, now) then c
      else Config(Checked(c.st, now), c.inFlight + {id}, c.standing + {id})
    case Fail(id, now) =>
      Config(Failed(c.st, now), c.inFlight - {id}, if Locks(c.st, now) then {} else c.standing - {id})
    case Accept(id, now) =>
      c.(inFlight := c.inFlight - {id}, standing := c.standing - {id})
  }

  function Run(steps: seq<Step>): Config {
    if steps == [] then INIT else Next(Run(steps[..|steps| - 1]), steps[|steps| - 1])
  }

  /** Steps happen when enabled, at non-decreasing times. */
  ghost predicate ValidRun(steps: seq<Step>) {
    steps == [] ||
    var n := |steps| - 1;
    && ValidRun(steps[..n])
    && Enabled(Run(steps[..n]), steps[n])
    && (n > 0 ==> steps[n - 1].time <= steps[n].time)
  }

  predicate InWindow(time: int, start: int) {
    start <= time < start + 60_000_000_000
  }

  /** Attempts answered 401 in a window; with `onlyStanding`, those no lockout overtook. */
  function Unauthorizeds(steps: seq<Step>, start: int, onlyStanding: bool): nat {
    if steps == [] then 0
    else
      var n := |steps| - 1;
      var s := steps[n];
      Unauthorizeds(steps[..n], start, onlyStanding) +
      if s.Fail? && InWindow(s.time, start) && (onlyStanding ==> s.id in Run(steps[..n]).standing) then 1 else 0
  }

  function CountFrom(failures: seq<int>, start: int): nat {
    if failures == [] then 0
    else CountFrom(failures[1..], start) + if failures[0] >= start then 1 else 0
  }

  lemma {:induction false} CountBound(failures: seq<int>, start: int)
    ensures CountFrom(failures, start) <= |failures|
  {
    if failures == [] {
    } else {
      CountBound(failures[1..], start);
    }
  }

  lemma {:induction false} CountAppend(failures: seq<int>, t: int, start: int)
    ensures CountFrom(failures + [t], start) == CountFrom(failures, start) + if t >= start then 1 else 0
  {
    if failures == [] {
    } else {
      assert (failures + [t])[1..] == failures[1..] + [t];
      CountAppend(failures[1..], t, start);
    }
  }

  /** Pruning inside a window keeps every failure of the window. */
  lemma {:induction false} CountRecent(failures: seq<int>, now: int, start: int)
    requires now < start + WINDOW
    ensures CountFrom(Recent(failures, now), start) == CountFrom(failures, start)
  {
    if failures == [] {
    } else {
      CountRecent(failures[1..], now, start);
      var rest := Recent(failures[1..], now);
      assert ([failures[0]] + rest)[1..] == rest && [] + rest == rest;
    }
  }

  /** What every run keeps about one window, up to its end. */
  ghost predicate WindowInv(c: Config, count: nat, start: int) {
    && |c.st.failures| < MAX_FAILED_ATTEMPTS
    && (c.standing != {} ==> c.st.lockedUntil.None?)
    && (count > 0 ==>
          match c.st.lockedUntil
          case None => count <= CountFrom(c.st.failures, start)
          case Some(until) => count <= MAX_FAILED_ATTEMPTS && until >= start + LOCKOUT)
  }

  lemma WindowStep(c: Config, s: Step, count: nat, start: int)
    requires WindowInv(c, count, start) && s.time < start + WINDOW
    ensures WindowInv(Next(c, s), count + if s.Fail? && s.time >= start && s.id in c.standing then 1 else 0, start) || (s.time < start && count > 0)
  {
    var failures, now := c.st.failures, s.time;
    CountBound(failures, start);
    CountRecent(failures, now, start);
    CountRecent(failures + [now], now, start);
    CountAppend(failures, now, start);
    if s.Fail? && s.id in c.standing {
      assert c.st.lockedUntil.None?;
    }
  }

  lemma {:induction false} WindowKept(steps: seq<Step>, start: int)
    requires ValidRun(steps)
    ensures var c, count := Run(steps), Unauthorizeds(steps, start, true);
            && count <= MAX_FAILED_ATTEMPTS
            && |c.st.failures| < MAX_FAILED_ATTEMPTS && (c.standing != {} ==> c.st.lockedUntil.None?)
            && (steps != [] && steps[|steps| - 1].time < start + WINDOW ==> WindowInv(c, count, start))
            && (steps != [] && steps[|steps| - 1].time < start ==> count == 0)
  {
    if steps == [] {
    } else {
      var n := |steps| - 1;
      var front, s := steps[..n], steps[n];
      WindowKept(front, start);
      var c, count := Run(front), Unauthorizeds(front, start, true);
      assert n > 0 ==> front[n - 1] == steps[n - 1];
      if s.time < start + WINDOW {
        assert WindowInv(c, count, start);
        WindowStep(c, s, count, start);
        CountBound(Next(c, s).st.failures, start);
      } else {
        WindowInvAlways(c, s);
      }
    }
  }

  lemma WindowInvAlways(c: Config, s: Step)
    requires |c.st.failures| < MAX_FAILED_ATTEMPTS && (c.standing != {} ==> c.st.lockedUntil.None?)
    ensures var d := Next(c, s);
            |d.st.failures| < MAX_FAILED_ATTEMPTS && (d.standing != {} ==> d.st.lockedUntil.None?)
  {
  }

  /**
   Every interleaving: any half-open 60 s window holds at most 10 attempts answered
   401, not counting requests that a lockout overtook between check and failure.
   */
  lemma AtMostTenPerWindow(steps: seq<Step>, start: int)
    requires ValidRun(steps)
    ensures Unauthorizeds(steps, start, true) <= 10
  {
    WindowKept(steps, start);
  }

  // -------------------------------------------------------------- lockout

  ghost predicate LockedFrom(c: Config, since: int) {
    c.st.lockedUntil.Some? && c.st.lockedUntil.value >= since + LOCKOUT
  }

  lemma {:induction false} PrefixValid(steps: seq<Step>, m: nat)
    requires ValidRun(steps) && m <= |steps|
    ensures ValidRun(steps[..m])
    decreases |steps|
  {
    var n := |steps| - 1;
    if m <= n {
      PrefixValid(steps[..n], m);
      assert steps[..n][..m] == steps[..m];
    } else {
      assert steps[..m] == steps;
    }
  }

  lemma RunSnoc(steps: seq<Step>, k: nat)
    requires k < |steps|
    ensures Run(steps[..k + 1]) == Next(Run(steps[..k]), steps[k])
  {
    assert steps[..k + 1][..k] == steps[..k] && steps[..k + 1][k] == steps[k];
  }

  lemma LastStepEnabled(steps: seq<Step>, m: nat)
    requires ValidRun(steps) && m < |steps|
    ensures Enabled(Run(steps[..m]), steps[m])
  {
    PrefixValid(steps, m + 1);
    assert steps[..m + 1][..m] == steps[..m] && steps[..m + 1][m] == steps[m];
  }

  lemma {:induction false} LockoutPersists(steps: seq<Step>, n: nat, m: nat)
    requires ValidRun(steps) && n < m < |steps|
    requires steps[n].Fail? && Locks(Run(steps[..n]).st, steps[n].time)
    requires steps[m].time < steps[n].time + LOCKOUT
    ensures LockedFrom(Run(steps[..m]), steps[n].time)
    ensures Run(steps[..m]).inFlight <= Run(steps[..n + 1]).inFlight
    decreases m
  {
    var p := m - 1;
    RunSnoc(steps, p);
    if p == n {
      LockoutStarts(Run(steps[..n]), steps[n]);
    } else {
      TimeOrder(steps, n, p);
      TimeOrder(steps, p, m);
      LockoutPersists(steps, n, p);
      var before := Run(steps[..p]);
      LockedStep(before, steps[p], steps[n].time);
      assert Next(before, steps[p]).inFlight <= before.inFlight;
    }
  }

  /**
   Every interleaving: from the failure that starts a lockout and for 300 s, every
   check is blocked, and only requests already in flight can still be answered 401.
   */
  lemma {:induction false} LockoutHolds(steps: seq<Step>, n: nat, m: nat)
    requires ValidRun(steps) && n < m < |steps|
    requires steps[n].Fail? && Locks(Run(steps[..n]).st, steps[n].time)
    requires steps[m].time < steps[n].time + 300_000_000_000
    ensures LockedFrom(Run(steps[..m]), steps[n].time)
    ensures Run(steps[..m]).inFlight <= Run(steps[..n + 1]).inFlight
    ensures steps[m].Check? ==> Blocked(Run(steps[..m]).st, steps[m].time)
    ensures steps[m].Fail? ==> steps[m].id in Run(steps[..n + 1]).inFlight
  {
    LockoutPersists(steps, n, m);
    LastStepEnabled(steps, m);
    LockedAnswer(Run(steps[..m]), steps[m], steps[n].time);
  }

  lemma LockoutStarts(c: Config, s: Step)
    requires s.Fail? && Locks(c.st, s.time)
    ensures LockedFrom(Next(c, s), s.time)
  {
  }

  lemma LockedAnswer(c: Config, s: Step, since: int)
    requires LockedFrom(c, since) && Enabled(c, s) && s.time < since + LOCKOUT
    ensures s.Check? ==> Blocked(c.st, s.time)
    ensures s.Fail? ==> s.id in c.inFlight
  {
  }

  lemma LockedStep(c: Config, s: Step, since: int)
    requires LockedFrom(c, since) && since <= s.time < since + LOCKOUT
    ensures LockedFrom(Next(c, s), since) && Next(c, s).inFlight <= c.inFlight
  {
  }

  lemma {:induction false} TimeOrder(steps: seq<Step>, i: nat, j: nat)
    requires ValidRun(steps) && i <= j < |steps|
    ensures steps[i].time <= steps[j].time
    decreases |steps|, j
  {
    var n := |steps| - 1;
    if j < n {
      TimeOrder(steps[..n], i, j);
    } else if i < j {
      assert steps[..n][n - 1] == steps[n - 1];
      TimeOrder(steps[..n], i, n - 1);
    }
  }
}
