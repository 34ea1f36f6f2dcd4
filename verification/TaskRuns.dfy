/**
 Workers and manager interleaved. The manager reads task statuses one at a time,
 each under its own lock, so workers may finish between any two reads of a count,
 a pruning pass or a clearing pass.
 */
module TaskRuns {
  import opened Tasks

  type Statuses = map<nat, Status>

  /** Where the manager is; `flags` and `kept` record what its reads returned. */
  datatype Pc =
    | Idle
    | Counting(seen: nat)
    | Pruning(flags: seq<bool>)
    | Clearing(at: nat, kept: seq<nat>)

  datatype State = State(tasks: seq<nat>, status: Statuses, pc: Pc, position: nat)

  datatype Step =
    | WorkerCompletes(id: nat)
    | WorkerFails(id: nat, error: string)
    | Cancel(id: nat)
    | BeginSpawn
    | CountOne
    | Reject
    | Admit(id: nat, started: bool)
    | ReadOne
    | EndPrune
    | BeginClear
    | KeepOne
    | EndClear

  const INIT := State([], map[], Idle, 0)

  ghost predicate IsActive(st: Statuses, id: nat) { id in st && Active(st[id]) }

  function ActiveIn(tasks: seq<nat>, st: Statuses): nat {
    if tasks == [] then 0 else (if tasks[0] in st && Active(st[tasks[0]]) then 1 else 0) + ActiveIn(tasks[1..], st)
  }

  predicate Enabled(s: State, step: Step) {
    match step
    case WorkerCompletes(id) => id in s.status
    case WorkerFails(id, _) => id in s.status
    case Cancel(id) => id in s.status
    case BeginSpawn => s.pc.Idle?
    case CountOne => s.pc.Counting? && s.position < |s.tasks|
    case Reject => s.pc.Counting? && s.position == |s.tasks| && s.pc.seen >= MAX_ACTIVE_TASKS
    case Admit(id, _) => s.pc.Counting? && s.position == |s.tasks| && s.pc.seen < MAX_ACTIVE_TASKS && id !in s.status
    case ReadOne => s.pc.Pruning? && |s.pc.flags| < |s.tasks|
    case EndPrune => s.pc.Pruning? && |s.pc.flags| == |s.tasks|
    case BeginClear => s.pc.Idle?
    case KeepOne => s.pc.Clearing? && s.pc.at < |s.tasks|
    case EndClear => s.pc.Clearing? && s.pc.at == |s.tasks|
  }

  function Next(s: State, step: Step): State
    requires Enabled(s, step)
  {
    match step
    case WorkerCompletes(id) => s.(status := s.status[id := Completed])
    case WorkerFails(id, error) => s.(status := s.status[id := Failed(error)])
    case Cancel(id) => if Active(s.status[id]) then s.(status := s.status[id := Cancelled]) else s
    case BeginSpawn => s.(pc := Counting(0), position := 0)
    case CountOne =>
      var id := s.tasks[s.position];
      s.(pc := Counting(s.pc.seen + if id in s.status && Active(s.status[id]) then 1 else 0), position := s.position + 1)
    case Reject => s.(pc := Idle)
    case Admit(id, started) =>
      State(s.tasks + [id], s.status[id := if started then Running else Failed("Thread spawn failed")], Pruning([]), 0)
    case ReadOne =>
      var id := s.tasks[|s.pc.flags|];
      s.(pc := Pruning(s.pc.flags + [!(id in s.status && Active(s.status[id]))]))
    case EndPrune => s.(tasks := Survivors(s.tasks, s.pc.flags), pc := Idle)
    case BeginClear => s.(pc := Clearing(0, []))
    case KeepOne =>
      var id := s.tasks[s.pc.at];
      s.(pc := Clearing(s.pc.at + 1, s.pc.kept + if id in s.status && Active(s.status[id]) then [id] else []))
    case EndClear => s.(tasks := s.pc.kept, pc := Idle)
  }

  // --------------------------------------------------------------- counting facts

  /** From `st` to `st'` no task becomes active again. */
  ghost predicate OnlyEnds(st: Statuses, st': Statuses) {
    forall id :: id in st ==> id in st' && (Active(st'[id]) ==> Active(st[id]))
  }

  lemma {:induction false} ActiveShrinks(tasks: seq<nat>, st: Statuses, st': Statuses)
    requires OnlyEnds(st, st') && forall i :: 0 <= i < |tasks| ==> tasks[i] in st
    ensures ActiveIn(tasks, st') <= ActiveIn(tasks, st)
  {
    if tasks == [] {
    } else {
      ActiveShrinks(tasks[1..], st, st');
    }
  }

  lemma {:induction false} ActiveAppend(a: seq<nat>, b: seq<nat>, st: Statuses)
    ensures ActiveIn(a + b, st) == ActiveIn(a, st) + ActiveIn(b, st)
  {
    if a == [] {
      assert a + b == b;
    } else {
      assert (a + b)[1..] == a[1..] + b;
      ActiveAppend(a[1..], b, st);
    }
  }

  lemma {:induction false} SurvivorsActive(tasks: seq<nat>, flags: seq<bool>, st: Statuses)
    requires |tasks| == |flags|
    ensures ActiveIn(Survivors(tasks, flags), st) <= ActiveIn(tasks, st)
    ensures forall id :: id in Survivors(tasks, flags) ==> id in tasks
  {
    if tasks == [] {
    } else {
      SurvivorsActive(tasks[1..], flags[1..], st);
      var rest := Survivors(tasks[1..], flags[1..]);
      assert ([tasks[0]] + rest)[1..] == rest && [] + rest == rest;
      assert forall id :: id in tasks[1..] ==> id in tasks;
    }
  }

  // ------------------------------------------------------------------- invariant

  ghost predicate Progress(s: State) {
    match s.pc
    case Idle => |s.tasks| <= MAX_ACTIVE_TASKS + MAX_HISTORY
    case Counting(seen) =>
      && |s.tasks| <= MAX_ACTIVE_TASKS + MAX_HISTORY
      && s.position <= |s.tasks| && ActiveIn(s.tasks[..s.position], s.status) <= seen
    case Pruning(flags) =>
      && |flags| <= |s.tasks|
      && |flags| - CountTrue(flags) + ActiveIn(s.tasks[|flags|..], s.status) <= MAX_ACTIVE_TASKS
    case Clearing(at, kept) =>
      && |s.tasks| <= MAX_ACTIVE_TASKS + MAX_HISTORY
      && at <= |s.tasks| && |kept| + ActiveIn(s.tasks[at..], s.status) <= MAX_ACTIVE_TASKS
  }

  /** No running task is forgotten: it is held now and will survive the pass under way. */
  ghost predicate Held(s: State, id: nat) {
    match s.pc
    case Pruning(flags) => exists i :: 0 <= i < |s.tasks| && s.tasks[i] == id && (i < |flags| ==> !flags[i])
    case Clearing(at, kept) => id in kept || exists i :: at <= i < |s.tasks| && s.tasks[i] == id
    case _ => id in s.tasks
  }

  ghost predicate Inv(s: State) {
    && (forall i :: 0 <= i < |s.tasks| ==> s.tasks[i] in s.status)
    && (s.pc.Clearing? ==> forall i :: 0 <= i < |s.pc.kept| ==> s.pc.kept[i] in s.status)
    && ActiveIn(s.tasks, s.status) <= MAX_ACTIVE_TASKS
    && Progress(s)
    && forall id :: IsActive(s.status, id) ==> Held(s, id)
  }

  predicate OutsideManager(step: Step) { step.WorkerCompletes? || step.WorkerFails? || step.Cancel? }

  lemma StatusesOnlyEnd(s: State, step: Step)
    requires Enabled(s, step)
    ensures OnlyEnds(s.status, Next(s, step).status)
  {
  }

  lemma SliceShrinks(tasks: seq<nat>, from: nat, to: nat, st: Statuses, st': Statuses)
    requires from <= to <= |tasks| && OnlyEnds(st, st') && forall i :: 0 <= i < |tasks| ==> tasks[i] in st
    ensures ActiveIn(tasks[from..to], st') <= ActiveIn(tasks[from..to], st)
    ensures from == 0 ==> ActiveIn(tasks[..to], st') <= ActiveIn(tasks[..to], st)
    ensures to == |tasks| ==> ActiveIn(tasks[from..], st') <= ActiveIn(tasks[from..], st)
  {
    assert forall i :: 0 <= i < to - from ==> tasks[from..to][i] == tasks[from + i];
    ActiveShrinks(tasks[from..to], st, st');
    assert to == |tasks| ==> tasks[from..to] == tasks[from..];
    assert from == 0 ==> tasks[from..to] == tasks[..to];
  }

  lemma WorkerKeepsInv(s: State, step: Step)
    requires Inv(s) && Enabled(s, step) && OutsideManager(step)
    ensures Inv(Next(s, step))
  {
    var s' := Next(s, step);
    StatusesOnlyEnd(s, step);
    ActiveShrinks(s.tasks, s.status, s'.status);
    match s.pc {
      case Idle =>
      case Counting(seen) => SliceShrinks(s.tasks, 0, s.position, s.status, s'.status);
      case Pruning(flags) => SliceShrinks(s.tasks, |flags|, |s.tasks|, s.status, s'.status);
      case Clearing(at, kept) => SliceShrinks(s.tasks, at, |s.tasks|, s.status, s'.status);
    }
    forall id | IsActive(s'.status, id) ensures Held(s', id) {
      assert IsActive(s.status, id);
    }
  }

  lemma {:induction false} ActiveAtMost(tasks: seq<nat>, st: Statuses)
    ensures ActiveIn(tasks, st) <= |tasks|
  {
    if tasks == [] {
    } else {
      ActiveAtMost(tasks[1..], st);
    }
  }

  lemma SpawnKeepsInv(s: State, step: Step)
    requires Inv(s) && Enabled(s, step) && (step.BeginSpawn? || step.CountOne? || step.Reject? || step.Admit?)
    ensures Inv(Next(s, step))
  {
    var s' := Next(s, step);
    match step
    case BeginSpawn =>
    case CountOne =>
      var p := s.position;
      assert s.tasks[..p + 1] == s.tasks[..p] + [s.tasks[p]];
      ActiveAppend(s.tasks[..p], [s.tasks[p]], s.status);
      assert forall id :: IsActive(s.status, id) ==> Held(s, id) && Held(s', id);
    case Reject =>
    case Admit(id, started) =>
      StatusesOnlyEnd(s, step);
      assert s.tasks[..|s.tasks|] == s.tasks;
      ActiveShrinks(s.tasks, s.status, s'.status);
      ActiveAppend(s.tasks, [id], s'.status);
      assert s'.tasks[0..] == s'.tasks;
      forall x | IsActive(s'.status, x) ensures Held(s', x) {
        if x == id {
          assert s'.tasks[|s.tasks|] == id;
        } else {
          assert IsActive(s.status, x) && Held(s, x);
          var i :| 0 <= i < |s.tasks| && s.tasks[i] == x;
          assert s'.tasks[i] == x;
        }
      }
  }

  lemma ReadKeepsInv(s: State, step: Step)
    requires Inv(s) && Enabled(s, step) && step.ReadOne?
    ensures Inv(Next(s, step))
  {
    var s' := Next(s, step);
    var flags := s.pc.flags;
    var n := |flags|;
    var flag := !(s.tasks[n] in s.status && Active(s.status[s.tasks[n]]));
    assert s.tasks[n..] == [s.tasks[n]] + s.tasks[n + 1..];
    CountTrueAppend(flags, [flag]);
    forall id | IsActive(s'.status, id) ensures Held(s', id) {
      assert Held(s, id);
      var i :| 0 <= i < |s.tasks| && s.tasks[i] == id && (i < n ==> !flags[i]);
      assert i < n + 1 ==> !s'.pc.flags[i];
    }
  }

  lemma PruneKeepsInv(s: State, step: Step)
    requires Inv(s) && Enabled(s, step) && step.EndPrune?
    ensures Inv(Next(s, step))
  {
    var s', flags := Next(s, step), s.pc.flags;
    SurvivorsSize(s.tasks, flags);
    SurvivorsActive(s.tasks, flags, s.status);
    assert forall i :: 0 <= i < |s'.tasks| ==> s'.tasks[i] in s'.tasks && s'.tasks[i] in s.tasks;
    forall id | IsActive(s'.status, id) ensures id in s'.tasks {
      assert Held(s, id);
      var i :| 0 <= i < |s.tasks| && s.tasks[i] == id && (i < |flags| ==> !flags[i]);
      SurvivorsMembers(s.tasks, flags, i);
    }
  }

  lemma ClearKeepsInv(s: State, step: Step)
    requires Inv(s) && Enabled(s, step) && (step.BeginClear? || step.KeepOne? || step.EndClear?)
    ensures Inv(Next(s, step))
  {
    var s' := Next(s, step);
    match step
    case BeginClear =>
      assert s.tasks[0..] == s.tasks;
      forall id | IsActive(s'.status, id) ensures Held(s', id) {
        assert Held(s, id);
        var i :| 0 <= i < |s.tasks| && s.tasks[i] == id;
      }
    case KeepOne =>
      var at := s.pc.at;
      assert s.tasks[at..] == [s.tasks[at]] + s.tasks[at + 1..];
      forall id | IsActive(s'.status, id) ensures Held(s', id) {
        assert Held(s, id);
        if id !in s.pc.kept {
          var i :| at <= i < |s.tasks| && s.tasks[i] == id;
          assert i == at ==> id in s'.pc.kept;
        }
      }
    case EndClear =>
      ActiveAtMost(s.pc.kept, s.status);
  }

  lemma StepKeepsInv(s: State, step: Step)
    requires Inv(s) && Enabled(s, step)
    ensures Inv(Next(s, step)) && OnlyEnds(s.status, Next(s, step).status)
  {
    StatusesOnlyEnd(s, step);
    if OutsideManager(step) {
      WorkerKeepsInv(s, step);
    } else if step.ReadOne? {
      ReadKeepsInv(s, step);
    } else if step.EndPrune? {
      PruneKeepsInv(s, step);
    } else if step.BeginClear? || step.KeepOne? || step.EndClear? {
      ClearKeepsInv(s, step);
    } else {
      SpawnKeepsInv(s, step);
    }
  }

  // ------------------------------------------------------------------------ runs

  ghost predicate IsRun(states: seq<State>, steps: seq<Step>) {
    && |states| == |steps| + 1 && states[0] == INIT
    && forall i {:trigger steps[i]} :: 0 <= i < |steps| ==> Enabled(states[i], steps[i]) && states[i + 1] == Next(states[i], steps[i])
  }

  lemma {:induction false} RunInv(states: seq<State>, steps: seq<Step>, n: nat)
    requires IsRun(states, steps) && n < |states|
    ensures Inv(states[n])
  {
    if n == 0 {
    } else {
      RunInv(states, steps, n - 1);
      StepKeepsInv(states[n - 1], steps[n - 1]);
    }
  }

  /**
   Every interleaving: at most 64 tasks are active at any moment, at most 114 are
   held between manager calls, and every active task is still held.
   */
  lemma Bounds(states: seq<State>, steps: seq<Step>, n: nat)
    requires IsRun(states, steps) && n < |states|
    ensures var s := states[n];
            && ActiveIn(s.tasks, s.status) <= 64
            && (s.pc.Idle? ==> |s.tasks| <= 114)
            && (s.pc.Idle? ==> forall id :: IsActive(s.status, id) ==> id in s.tasks)
  {
    RunInv(states, steps, n);
    assert forall id :: IsActive(states[n].status, id) ==> Held(states[n], id);
  }

  /** Every interleaving: a task that has left Running or Pending never becomes active again. */
  lemma {:induction false} NeverActiveAgain(states: seq<State>, steps: seq<Step>, n: nat, m: nat, id: nat)
    requires IsRun(states, steps) && n <= m < |states|
    requires id in states[n].status && !Active(states[n].status[id])
    ensures id in states[m].status && !Active(states[m].status[id])
    decreases m
  {
    if n < m {
      NeverActiveAgain(states, steps, n, m - 1, id);
      StatusesOnlyEnd(states[m - 1], steps[m - 1]);
    }
  }

  /** While a spawn counts from step `n` on, it sees no more active tasks than there were at its start. */
  ghost predicate CountsFrom(start: State, s: State) {
    && s.pc.Counting? && s.tasks == start.tasks && s.position <= |s.tasks|
    && OnlyEnds(start.status, s.status)
    && s.pc.seen <= ActiveIn(start.tasks[..s.position], start.status)
  }

  lemma CountsStep(start: State, s: State, step: Step)
    requires CountsFrom(start, s) && Enabled(s, step) && Next(s, step).pc.Counting?
    requires forall i :: 0 <= i < |start.tasks| ==> start.tasks[i] in start.status
    ensures CountsFrom(start, Next(s, step))
  {
    StatusesOnlyEnd(s, step);
    if step.CountOne? {
      var p := s.position;
      assert start.tasks[..p + 1] == start.tasks[..p] + [start.tasks[p]];
      ActiveAppend(start.tasks[..p], [start.tasks[p]], start.status);
    }
  }

  lemma {:induction false} CountsOn(states: seq<State>, steps: seq<Step>, n: nat, m: nat)
    requires IsRun(states, steps) && n < m < |states| && steps[n] == BeginSpawn
    requires forall k :: n < k <= m ==> states[k].pc.Counting?
    ensures CountsFrom(states[n], states[m])
    decreases m
  {
    if m == n + 1 {
      assert states[n].tasks[..0] == [];
    } else {
      CountsOn(states, steps, n, m - 1);
      RunInv(states, steps, n);
      CountsStep(states[n], states[m - 1], steps[m - 1]);
    }
  }

  /** A spawn is refused only if 64 tasks were active when it began to count. */
  lemma RefusedOnlyWhenFull(states: seq<State>, steps: seq<Step>, n: nat, m: nat)
    requires IsRun(states, steps) && n < m < |steps| && steps[n] == BeginSpawn && steps[m] == Reject
    requires forall k :: n < k <= m ==> states[k].pc.Counting?
    ensures ActiveIn(states[n].tasks, states[n].status) == 64
  {
    CountsOn(states, steps, n, m);
    Bounds(states, steps, n);
    assert states[m].tasks[..|states[m].tasks|] == states[n].tasks;
  }

  // -------------------------------------------------------------------- own steps

  /** The step is this task's own: its admission, its worker's end, or a cancellation. */
  predicate Own(step: Step, id: nat) {
    match step
    case Admit(i, _) => i == id
    case WorkerCompletes(i) => i == id
    case WorkerFails(i, _) => i == id
    case Cancel(i) => i == id
    case _ => false
  }

  /** What a task's own step makes of its status; no other step changes it. */
  lemma StatusStep(s: State, step: Step, id: nat)
    requires Enabled(s, step)
    ensures var st, st' := s.status, Next(s, step).status;
            && (Own(step, id) ==> id in st')
            && (step == Admit(id, true) ==> id !in st && st'[id] == Running)
            && (step == Admit(id, false) ==> id !in st && st'[id] == Failed("Thread spawn failed"))
            && (step == WorkerCompletes(id) ==> st'[id] == Completed)
            && (step.WorkerFails? && step.id == id ==> st'[id] == Failed(step.error))
            && (step == Cancel(id) ==> st'[id] == if st[id] == Running || st[id] == Pending then Cancelled else st[id])
            && (!Own(step, id) ==> (id in st <==> id in st') && (id in st ==> st'[id] == st[id]))
  {
  }

  /** A task's status stays until its next own step, whatever the manager and other tasks do. */
  lemma {:induction false} StatusStays(states: seq<State>, steps: seq<Step>, n: nat, m: nat, id: nat)
    requires IsRun(states, steps) && n <= m < |states| && id in states[n].status
    requires forall k {:trigger steps[k]} :: n <= k < m ==> !Own(steps[k], id)
    ensures id in states[m].status && states[m].status[id] == states[n].status[id]
    decreases m
  {
    if n == m {
    } else {
      StatusStays(states, steps, n, m - 1, id);
      StatusStep(states[m - 1], steps[m - 1], id);
    }
  }

  /** A started task runs, and is held, until its worker ends or it is cancelled. */
  lemma StartedRuns(states: seq<State>, steps: seq<Step>, n: nat, m: nat, id: nat)
    requires IsRun(states, steps) && n < m < |states| && steps[n] == Admit(id, true)
    requires forall k {:trigger steps[k]} :: n < k < m ==> !Own(steps[k], id)
    ensures id in states[m].status && states[m].status[id] == Running
    ensures states[m].pc.Idle? ==> id in states[m].tasks
  {
    StatusStep(states[n], steps[n], id);
    StatusStays(states, steps, n + 1, m, id);
    Bounds(states, steps, m);
    assert IsActive(states[m].status, id);
  }

  /** The clearing pass from state `start` on: what it keeps was active then, and what it has passed is kept if still active. */
  ghost predicate ClearsFrom(start: State, s: State) {
    && s.pc.Clearing? && s.tasks == start.tasks && s.pc.at <= |s.tasks| && OnlyEnds(start.status, s.status)
    && forall id :: id in s.pc.kept ==> id in start.tasks && IsActive(start.status, id)
  }

  lemma ClearsStep(start: State, s: State, step: Step)
    requires ClearsFrom(start, s) && Enabled(s, step) && Next(s, step).pc.Clearing?
    requires forall i :: 0 <= i < |start.tasks| ==> start.tasks[i] in start.status
    ensures ClearsFrom(start, Next(s, step))
  {
    StatusesOnlyEnd(s, step);
  }

  lemma {:induction false} ClearsOn(states: seq<State>, steps: seq<Step>, n: nat, m: nat)
    requires IsRun(states, steps) && n < m < |states| && steps[n] == BeginClear
    requires forall k :: n < k <= m ==> states[k].pc.Clearing?
    ensures ClearsFrom(states[n], states[m])
    decreases m
  {
    if m == n + 1 {
    } else {
      ClearsOn(states, steps, n, m - 1);
      RunInv(states, steps, n);
      ClearsStep(states[n], states[m - 1], steps[m - 1]);
    }
  }

  /** A clearing pass leaves only tasks that were active when it began, and every one still active when it ends. */
  lemma ClearedExactly(states: seq<State>, steps: seq<Step>, n: nat, m: nat)
    requires IsRun(states, steps) && n < m < |steps| && steps[n] == BeginClear && steps[m] == EndClear
    requires forall k :: n < k <= m ==> states[k].pc.Clearing?
    ensures forall id :: id in states[m + 1].tasks ==> id in states[n].tasks && IsActive(states[n].status, id)
    ensures var s := states[m + 1]; forall id :: IsActive(s.status, id) ==> id in s.tasks
  {
    ClearsOn(states, steps, n, m);
    Bounds(states, steps, m + 1);
  }

  /** During a pruning pass every flagged task has ended. */
  ghost predicate FlagsTrue(s: State) {
    s.pc.Pruning? ==> |s.pc.flags| <= |s.tasks| && forall i :: 0 <= i < |s.pc.flags| && s.pc.flags[i] ==> !IsActive(s.status, s.tasks[i])
  }

  lemma FlagsStep(s: State, step: Step)
    requires Inv(s) && Enabled(s, step) && FlagsTrue(s)
    ensures FlagsTrue(Next(s, step))
  {
    StatusesOnlyEnd(s, step);
  }

  lemma {:induction false} RunFlags(states: seq<State>, steps: seq<Step>, n: nat)
    requires IsRun(states, steps) && n < |states|
    ensures FlagsTrue(states[n])
  {
    if n == 0 {
    } else {
      RunFlags(states, steps, n - 1);
      RunInv(states, steps, n - 1);
      FlagsStep(states[n - 1], steps[n - 1]);
    }
  }

  lemma {:induction false} FlaggedHaveEnded(tasks: seq<nat>, flags: seq<bool>, st: Statuses)
    requires |tasks| == |flags| && forall i :: 0 <= i < |flags| && flags[i] ==> !IsActive(st, tasks[i])
    ensures CountTrue(flags) + ActiveIn(tasks, st) <= |tasks|
  {
    if tasks == [] {
    } else {
      assert flags[0] ==> !IsActive(st, tasks[0]);
      forall i | 0 <= i < |flags[1..]| && flags[1..][i] ensures !IsActive(st, tasks[1..][i]) {
        assert flags[i + 1] && tasks[1..][i] == tasks[i + 1];
      }
      FlaggedHaveEnded(tasks[1..], flags[1..], st);
    }
  }

  /** A pruning pass forgets only a task that has ended, with at least fifty later ones that have. */
  lemma PrunedOnlyOld(states: seq<State>, steps: seq<Step>, n: nat, i: nat)
    requires IsRun(states, steps) && n < |steps| && steps[n] == EndPrune
    requires i < |states[n].tasks| && states[n].tasks[i] !in states[n + 1].tasks
    ensures var s := states[n];
            !IsActive(s.status, s.tasks[i]) && |s.tasks| - i - ActiveIn(s.tasks[i..], s.status) > 50
  {
    var s := states[n];
    RunFlags(states, steps, n);
    SurvivorsMembers(s.tasks, s.pc.flags, i);
    FlaggedHaveEnded(s.tasks[i..], s.pc.flags[i..], s.status);
  }
}
