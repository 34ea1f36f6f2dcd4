/** What the shared record of a migration shows over a run: percentage, counts and error. */
module MigrationRecord {
  import opened Wrappers
  import opened Migration

  /** The percentage tells how far the thread has got. */
  predicate InPhase(s: State) {
    match s.main
    case Building => s.progress.percent == 0
    case Initiating => s.progress.percent == 5
    case Starting => s.progress.percent == 10
    case Monitoring => s.progress.percent == 10
    case Ended(NeverStarted) => s.progress.percent == 10
    case Ended(Succeeded) => s.progress.percent == 100
    case _ => 20 <= s.progress.percent <= 99
  }

  lemma {:induction false} PercentByPhase(states: seq<State>, steps: seq<Step>, n: nat)
    requires IsRun(states, steps) && n < |states|
    ensures InPhase(states[n])
  {
    if n == 0 {
    } else {
      PercentByPhase(states, steps, n - 1);
      RunInv(states, steps, n - 1);
      PhaseStep(states[n - 1], steps[n - 1]);
    }
  }

  lemma PhaseStep(s: State, step: Step)
    requires Inv(s) && Enabled(s, step) && InPhase(s)
    ensures InPhase(Next(s, step))
  {
    if step.QueryAnswers? {
      ParsedPercent(s.progress, step.lines);
    }
  }

  /** Each count stays until the next answered query. */
  lemma {:induction false} CountsStay(states: seq<State>, steps: seq<Step>, n: nat, m: nat)
    requires IsRun(states, steps) && n <= m < |states|
    requires forall k {:trigger steps[k]} :: n <= k < m ==> !steps[k].QueryAnswers?
    ensures var p, q := states[n].progress, states[m].progress;
            q.transferred == p.transferred && q.remaining == p.remaining && q.memoryBps == p.memoryBps
    decreases m
  {
    if n == m {
    } else {
      CountsStay(states, steps, n, m - 1);
      assert !steps[m - 1].QueryAnswers?;
    }
  }

  /** From one answered query until the next, the record shows the counts of that output's last readable lines. */
  lemma AnswersShow(states: seq<State>, steps: seq<Step>, n: nat, m: nat, lines: seq<Line>)
    requires IsRun(states, steps) && n < m < |states| && steps[n] == QueryAnswers(lines)
    requires forall k {:trigger steps[k]} :: n < k < m ==> !steps[k].QueryAnswers?
    ensures var before, p, read := states[n].progress, states[m].progress, BeforeStop(lines);
            && p.transferred == LastCount(read, ProcessedLine, before.transferred)
            && p.remaining == LastCount(read, RemainingLine, before.remaining)
            && p.memoryBps == LastCount(read, BandwidthLine, before.memoryBps)
  {
    ParsedCounts(states[n].progress, lines);
    CountsStay(states, steps, n + 1, m);
  }

  /** The message the step reports, if it reports one. */
  function Reported(s: State, step: Step): Option<string> {
    match step
    case StartFails(e) => Some(e)
    case TimeOut(e) => Some(e)
    case Finish(e) => if s.main.Finishing? && s.main.outcome.Succeeded? then None else Some(e)
    case _ => None
  }

  lemma ErrorStep(s: State, step: Step)
    requires Enabled(s, step)
    ensures Next(s, step).progress.error == if Reported(s, step).Some? then Reported(s, step) else s.progress.error
  {
    if step.QueryAnswers? {
      ParsedCounts(s.progress, step.lines);
    }
  }

  /** The error is the message reported last: by the start, by the poller giving up, or by the failed end. */
  lemma {:induction false} ErrorIsLastReported(states: seq<State>, steps: seq<Step>, n: nat, m: nat)
    requires IsRun(states, steps) && n < m < |states|
    requires forall k {:trigger steps[k]} :: n < k < m ==> Reported(states[k], steps[k]).None?
    ensures Reported(states[n], steps[n]).Some? ==> states[m].progress.error == Reported(states[n], steps[n])
    decreases m
  {
    if m == n + 1 {
      ErrorStep(states[n], steps[n]);
    } else {
      ErrorIsLastReported(states, steps, n, m - 1);
      ErrorStep(states[m - 1], steps[m - 1]);
    }
  }

  /** The poller leaves only a completed migration, and a check of a completed one makes it leave. */
  lemma {:induction false} PollerLeavesCompleted(states: seq<State>, steps: seq<Step>, n: nat)
    requires IsRun(states, steps) && n < |states|
    ensures states[n].poller.Exited? ==> states[n].progress.completed
    ensures n < |steps| && steps[n].Poll? && states[n].poller.Checking? && states[n].progress.completed ==> states[n + 1].poller.Exited?
    decreases n
  {
    if n == 0 {
    } else {
      PollerLeavesCompleted(states, steps, n - 1);
      RunInv(states, steps, n - 1);
      StepKeepsInv(states[n - 1], steps[n - 1]);
    }
  }
}
