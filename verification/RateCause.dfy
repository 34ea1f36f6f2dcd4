/** What begins a lockout: ten failures within 60 seconds, counted among the steps of the run. */
module RateCause {
  import opened RateLimiter

  /** The failures of a run after `time`. */
  function FailsAfter(steps: seq<Step>, time: int): nat {
    if steps == [] then 0
    else
      var n := |steps| - 1;
      FailsAfter(steps[..n], time) + if steps[n].Fail? && steps[n].time > time then 1 else 0
  }

  /** Pruning keeps only what is less than 60 s old. */
  lemma {:induction false} RecentCounts(failures: seq<int>, now: int)
    ensures |Recent(failures, now)| == CountFrom(failures, now - 60_000_000_000 + 1)
  {
    if failures == [] {
    } else {
      RecentCounts(failures[1..], now);
    }
  }

  lemma {:induction false} RecentFewer(failures: seq<int>, now: int, start: int)
    ensures CountFrom(Recent(failures, now), start) <= CountFrom(failures, start)
  {
    if failures == [] {
    } else {
      RecentFewer(failures[1..], now, start);
      var rest := Recent(failures[1..], now);
      assert ([failures[0]] + rest)[1..] == rest && [] + rest == rest;
    }
  }

  /** The list holds no more failures after any time than the run had. */
  ghost predicate Listed(steps: seq<Step>, failures: seq<int>) {
    forall time :: CountFrom(failures, time + 1) <= FailsAfter(steps, time)
  }

  lemma ListedStep(steps: seq<Step>, s: Step)
    requires Listed(steps, Run(steps).st.failures)
    ensures Listed(steps + [s], Next(Run(steps), s).st.failures)
  {
    forall time ensures CountFrom(Next(Run(steps), s).st.failures, time + 1) <= FailsAfter(steps + [s], time) {
      assert CountFrom(Run(steps).st.failures, time + 1) <= FailsAfter(steps, time);
      FailsSnoc(steps, s, time);
      NextCounts(Run(steps), s, time + 1);
    }
  }

  /** A step adds at most its own failure to the list. */
  lemma NextCounts(c: Config, s: Step, start: int)
    ensures CountFrom(Next(c, s).st.failures, start) <= CountFrom(c.st.failures, start) + if s.Fail? && s.time >= start then 1 else 0
  {
    RecentFewer(c.st.failures, s.time, start);
    RecentFewer(c.st.failures + [s.time], s.time, start);
    CountAppend(c.st.failures, s.time, start);
  }

  lemma {:induction false} AlwaysListed(steps: seq<Step>)
    ensures Listed(steps, Run(steps).st.failures)
  {
    if steps == [] {
    } else {
      var n := |steps| - 1;
      AlwaysListed(steps[..n]);
      ListedStep(steps[..n], steps[n]);
      assert steps == steps[..n] + [steps[n]];
    }
  }

  /** The lockout until `until` was begun by failure `n`, the last of ten or more within 60 s. */
  ghost predicate BegunBy(steps: seq<Step>, n: nat, until: int) {
    && n < |steps| && steps[n].Fail? && until == steps[n].time + 300_000_000_000
    && FailsAfter(steps[..n + 1], steps[n].time - 60_000_000_000) >= 10
  }

  lemma BegunLast(steps: seq<Step>)
    requires steps != [] && steps[|steps| - 1].Fail? && FailsAfter(steps, steps[|steps| - 1].time - 60_000_000_000) >= 10
    ensures BegunBy(steps, |steps| - 1, steps[|steps| - 1].time + 300_000_000_000)
  {
    assert steps[..|steps|] == steps;
  }

  lemma TenCounted(steps: seq<Step>, s: Step)
    requires s.Fail? && Locks(Run(steps).st, s.time)
    ensures FailsAfter(steps + [s], s.time - 60_000_000_000) >= 10
  {
    var failures, start := Run(steps).st.failures, s.time - 60_000_000_000;
    AlwaysListed(steps);
    RecentCounts(failures + [s.time], s.time);
    CountAppend(failures, s.time, start + 1);
    assert CountFrom(failures, start + 1) <= FailsAfter(steps, start);
    FailsSnoc(steps, s, start);
  }

  lemma FailsSnoc(steps: seq<Step>, s: Step, time: int)
    ensures FailsAfter(steps + [s], time) == FailsAfter(steps, time) + if s.Fail? && s.time > time then 1 else 0
  {
    assert (steps + [s])[..|steps|] == steps;
  }

  lemma BegunLonger(steps: seq<Step>, s: Step, n: nat, until: int)
    requires BegunBy(steps, n, until)
    ensures BegunBy(steps + [s], n, until)
  {
    assert (steps + [s])[..n + 1] == steps[..n + 1];
  }

  /** Every lockout of every run was begun by ten failures within 60 s. */
  lemma {:induction false} LockoutBegun(steps: seq<Step>)
    requires Run(steps).st.lockedUntil.Some?
    ensures exists n :: BegunBy(steps, n, Run(steps).st.lockedUntil.value)
  {
    if steps == [] {
    } else {
      var n := |steps| - 1;
      var front, s := steps[..n], steps[n];
      var before := Run(front).st;
      assert steps == front + [s];
      if s.Fail? && Locks(before, s.time) {
        TenCounted(front, s);
        BegunLast(steps);
      } else {
        LockoutBegun(front);
        var k :| BegunBy(front, k, before.lockedUntil.value);
        BegunLonger(front, s, k, before.lockedUntil.value);
      }
    }
  }

  /**
   Every run: a check that is blocked comes less than 300 s after a failure at which at
   least ten failures of the run, that one included, lay within 60 s.
   */
  lemma BlockedOnlyAfterTen(steps: seq<Step>, m: nat) returns (n: nat)
    requires ValidRun(steps) && m < |steps| && steps[m].Check? && Blocked(Run(steps[..m]).st, steps[m].time)
    ensures n < m && steps[n].Fail? && steps[n].time <= steps[m].time < steps[n].time + 300_000_000_000
    ensures FailsAfter(steps[..n + 1], steps[n].time - 60_000_000_000) >= 10
    ensures forall i :: 0 <= i <= n ==> steps[i].time <= steps[n].time
  {
    LockoutBegun(steps[..m]);
    n :| BegunBy(steps[..m], n, Run(steps[..m]).st.lockedUntil.value);
    assert steps[..m][..n + 1] == steps[..n + 1];
    TimeOrder(steps, n, m);
    forall i | 0 <= i <= n ensures steps[i].time <= steps[n].time {
      TimeOrder(steps, i, n);
    }
  }

  /** No failure of the run is the tenth within 60 s. */
  ghost predicate NeverTen(steps: seq<Step>) {
    forall n :: 0 <= n < |steps| ==> FailsAfter(steps[..n + 1], steps[n].time - 60_000_000_000) < 10
  }

  /** So a run without ten failures within 60 s answers no request 429. */
  lemma NeverBlocked(steps: seq<Step>, m: nat)
    requires ValidRun(steps) && m < |steps| && steps[m].Check? && NeverTen(steps)
    ensures !Blocked(Run(steps[..m]).st, steps[m].time)
  {
    if Blocked(Run(steps[..m]).st, steps[m].time) {
      var n := BlockedOnlyAfterTen(steps, m);
    }
  }
}
