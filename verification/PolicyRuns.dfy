/** Whole runs of policy savers, loaders and deleters. */
module PolicyRuns {
  import opened PolicyStore

  ghost predicate IsRun(states: seq<State>, steps: seq<Step>) {
    && |states| == |steps| + 1 && states[0] == INIT
    && forall i {:trigger steps[i]} :: 0 <= i < |steps| ==> Enabled(states[i], steps[i]) && states[i + 1] == Next(states[i], steps[i])
  }

  lemma {:induction false} RunInv(states: seq<State>, steps: seq<Step>, n: nat)
    requires IsRun(states, steps) && n < |states|
    ensures Inv(states[n])
  {
    if n == 0 {
    } else {
      RunInv(states, steps, n - 1);
      StepKeepsInv(states[n - 1], steps[n - 1]);
    }
  }

  /**
   Every interleaving, with failures, crashes and power losses: a policy path is
   absent or names the complete serialisation of a policy saved for that VM.
   */
  lemma PolicyNeverPartial(states: seq<State>, steps: seq<Step>, n: nat, vm: string)
    requires IsRun(states, steps) && n < |states| && Final(vm) in states[n].dir
    ensures var s := states[n];
            s.dir[Final(vm)] in s.inodes && (vm, s.inodes[s.dir[Final(vm)]].content) in s.saved
  {
    RunInv(states, steps, n);
    assert Complete(states[n], vm, states[n].dir[Final(vm)]);
  }

  /** Every load that returns a policy returns one that was saved, however its steps are interleaved. */
  lemma LoadReturnsSaved(states: seq<State>, steps: seq<Step>, n: nat, id: nat, json: string)
    requires IsRun(states, steps) && n < |states|
    requires id in states[n].readers && states[n].readers[id].pc == Done(Policy(json))
    ensures (states[n].readers[id].vm, json) in states[n].saved
  {
    RunInv(states, steps, n);
    assert ReaderOk(states[n], states[n].readers[id]);
  }

  /** A rename always finds its own, fully written temporary file. */
  lemma RenameFindsOwnFile(states: seq<State>, steps: seq<Step>, n: nat, id: nat)
    requires IsRun(states, steps) && n < |states| && id in states[n].writers && states[n].writers[id].pc.Renaming?
    ensures var s, w := states[n], states[n].writers[id];
            Enabled(s, Rename(id)) && s.dir[w.Tmp()] == w.pc.inode && w.pc.inode in s.inodes && s.inodes[w.pc.inode] == Inode(w.json, true)
  {
    RunInv(states, steps, n);
    assert WriterOk(states[n], states[n].writers[id]);
  }

  // ------------------------------------------------------------- stale temporary files

  /** The save `id` refers to the temporary file at this path. */
  ghost predicate Holds(s: State, id: nat, vm: string, pid: nat) {
    id in s.writers && s.writers[id].Tmp() == Temp(vm, pid) && !s.writers[id].pc.Create?
  }

  ghost predicate Held(s: State, vm: string, pid: nat) {
    exists id :: Holds(s, id, vm, pid)
  }

  /** A temporary file no running save refers to. */
  ghost predicate Stale(s: State, vm: string, pid: nat) {
    Temp(vm, pid) in s.dir && !Held(s, vm, pid)
  }

  /**
   The steps that leave the file behind: its writer's write fails, its clean-up after
   a failed rename fails, or its process dies while it holds the file.
   */
  ghost predicate Abandons(s: State, step: Step, vm: string, pid: nat) {
    match step
    case WriteFails(id) => Holds(s, id, vm, pid)
    case RemoveFails(id) => Holds(s, id, vm, pid)
    case Crash(p) => p == pid && Held(s, vm, pid)
    case _ => false
  }

  lemma HolderOwns(s: State, id: nat, vm: string, pid: nat)
    requires Inv(s) && Holds(s, id, vm, pid)
    ensures Temp(vm, pid) in s.dir && forall other :: Holds(s, other, vm, pid) ==> other == id
  {
    assert WriterOk(s, s.writers[id]);
    forall other | Holds(s, other, vm, pid) ensures other == id {
      assert WriterOk(s, s.writers[other]);
      assert other != id ==> s.writers[id].Holds() != s.writers[other].Holds();
    }
  }

  /** A held file stays held, or its holder's last step decides. */
  lemma HeldStep(s: State, step: Step, id: nat, vm: string, pid: nat)
    requires Inv(s) && Enabled(s, step) && Holds(s, id, vm, pid) && !step.PowerLoss?
    ensures Stale(Next(s, step), vm, pid) <==> Abandons(s, step, vm, pid)
  {
    var s' := Next(s, step);
    HolderOwns(s, id, vm, pid);
    if Holds(s', id, vm, pid) {
    } else if Abandons(s, step, vm, pid) {
      forall other ensures !Holds(s', other, vm, pid) {
        assert Holds(s', other, vm, pid) ==> Holds(s, other, vm, pid);
      }
    }
  }

  /** The step creates the file at this path. */
  predicate Creates(s: State, step: Step, vm: string, pid: nat) {
    step.CreateTemp? && step.id in s.writers && s.writers[step.id].Tmp() == Temp(vm, pid)
  }

  /** Only creating the file makes a save hold it. */
  lemma NotHeldStep(s: State, step: Step, vm: string, pid: nat)
    requires Enabled(s, step) && !Held(s, vm, pid) && !step.PowerLoss?
    ensures Held(Next(s, step), vm, pid) <==> Creates(s, step, vm, pid)
  {
    var s' := Next(s, step);
    if Creates(s, step, vm, pid) {
      assert Holds(s', step.id, vm, pid);
    } else {
      forall id ensures !Holds(s', id, vm, pid) {
        assert !Holds(s, id, vm, pid);
      }
    }
  }

  /** Only creating the file puts it at a path no save holds, and nothing takes it away. */
  lemma NotHeldPath(s: State, step: Step, vm: string, pid: nat)
    requires Enabled(s, step) && !Held(s, vm, pid) && !step.PowerLoss?
    ensures Temp(vm, pid) in Next(s, step).dir <==> Temp(vm, pid) in s.dir || Creates(s, step, vm, pid)
    ensures Temp(vm, pid) in s.dir ==> Next(s, step).dir[Temp(vm, pid)] == s.dir[Temp(vm, pid)]
  {
    if step.Rename? || step.RemoveTemp? {
      assert !Holds(s, step.id, vm, pid);
    }
  }

  /** A stale file stays stale without a power loss; a path without a file gets no stale one. */
  lemma UnheldStep(s: State, step: Step, vm: string, pid: nat)
    requires Inv(s) && Enabled(s, step) && !Held(s, vm, pid) && !step.PowerLoss?
    ensures Stale(Next(s, step), vm, pid) <==> Stale(s, vm, pid)
    ensures !Abandons(s, step, vm, pid)
    ensures Stale(s, vm, pid) ==> Next(s, step).dir[Temp(vm, pid)] == s.dir[Temp(vm, pid)]
  {
    NotHeldStep(s, step, vm, pid);
    NotHeldPath(s, step, vm, pid);
  }

  /** Exactly which steps leave a stale file: a power loss whose directory lists it, and otherwise where it was stale or is abandoned. */
  lemma StaleExactly(s: State, step: Step, vm: string, pid: nat)
    requires Inv(s) && Enabled(s, step)
    ensures Stale(Next(s, step), vm, pid) <==>
              if step.PowerLoss? then Temp(vm, pid) in step.dir else Stale(s, vm, pid) || Abandons(s, step, vm, pid)
  {
    if step.PowerLoss? {
      assert !Held(Next(s, step), vm, pid);
    } else if id :| Holds(s, id, vm, pid) {
      HeldStep(s, step, id, vm, pid);
    } else {
      UnheldStep(s, step, vm, pid);
    }
  }

  /** Every run: step `n` makes the file stale exactly if it abandons it, or is a power loss that leaves it listed. */
  lemma BecomesStaleExactly(states: seq<State>, steps: seq<Step>, n: nat, vm: string, pid: nat)
    requires IsRun(states, steps) && n < |steps| && !Stale(states[n], vm, pid)
    ensures Stale(states[n + 1], vm, pid) <==>
              if steps[n].PowerLoss? then Temp(vm, pid) in steps[n].dir else Abandons(states[n], steps[n], vm, pid)
  {
    RunInv(states, steps, n);
    StaleExactly(states[n], steps[n], vm, pid);
  }

  /** In particular a failed write, or a failed clean-up, always leaves the file. */
  lemma FailureGoesStale(states: seq<State>, steps: seq<Step>, n: nat, id: nat)
    requires IsRun(states, steps) && n < |steps| && (steps[n] == WriteFails(id) || steps[n] == RemoveFails(id))
    ensures var w := states[n].writers[id];
            Stale(states[n + 1], w.vm, w.pid)
  {
    var w := states[n].writers[id];
    RunInv(states, steps, n);
    assert Holds(states[n], id, w.vm, w.pid);
    StaleExactly(states[n], steps[n], w.vm, w.pid);
  }

  /** Step `k` abandons the file or is a power loss that leaves it listed, and no later power loss before `n` unlists it. */
  ghost predicate LeftAt(states: seq<State>, steps: seq<Step>, k: nat, n: nat, vm: string, pid: nat)
    requires k < n < |states| && |states| == |steps| + 1
  {
    && (if steps[k].PowerLoss? then Temp(vm, pid) in steps[k].dir else Abandons(states[k], steps[k], vm, pid))
    && forall i :: k < i < n && steps[i].PowerLoss? ==> Temp(vm, pid) in steps[i].dir
  }

  lemma LeftLonger(states: seq<State>, steps: seq<Step>, k: nat, n: nat, vm: string, pid: nat)
    requires k < n < |steps| && |states| == |steps| + 1
    ensures LeftAt(states, steps, k, n + 1, vm, pid) <==>
              LeftAt(states, steps, k, n, vm, pid) && (steps[n].PowerLoss? ==> Temp(vm, pid) in steps[n].dir)
  {
  }

  ghost predicate Left(states: seq<State>, steps: seq<Step>, n: nat, vm: string, pid: nat)
    requires n < |states| && |states| == |steps| + 1
  {
    exists k :: 0 <= k < n && LeftAt(states, steps, k, n, vm, pid)
  }

  lemma LeftStep(states: seq<State>, steps: seq<Step>, n: nat, vm: string, pid: nat)
    requires n < |steps| && |states| == |steps| + 1
    ensures Left(states, steps, n + 1, vm, pid) <==>
              if steps[n].PowerLoss? then Temp(vm, pid) in steps[n].dir
              else Abandons(states[n], steps[n], vm, pid) || Left(states, steps, n, vm, pid)
  {
    var m := n + 1;
    assert LeftAt(states, steps, n, m, vm, pid) <==>
             if steps[n].PowerLoss? then Temp(vm, pid) in steps[n].dir else Abandons(states[n], steps[n], vm, pid);
    if k :| 0 <= k < m && LeftAt(states, steps, k, m, vm, pid) {
      if k < n { LeftLonger(states, steps, k, n, vm, pid); }
    }
    if k :| 0 <= k < n && LeftAt(states, steps, k, n, vm, pid) {
      LeftLonger(states, steps, k, n, vm, pid);
    }
  }

  /** Every run: the file is stale exactly if some step left it and no power loss since took it from the directory. */
  lemma {:induction false} StaleSince(states: seq<State>, steps: seq<Step>, n: nat, vm: string, pid: nat)
    requires IsRun(states, steps) && n < |states|
    ensures Stale(states[n], vm, pid) <==> Left(states, steps, n, vm, pid)
    decreases n
  {
    if n == 0 {
    } else {
      StaleSince(states, steps, n - 1, vm, pid);
      RunInv(states, steps, n - 1);
      StaleExactly(states[n - 1], steps[n - 1], vm, pid);
      LeftStep(states, steps, n - 1, vm, pid);
    }
  }

  /**
   A save cannot create its temporary file exactly while the file is stale or another
   save of this VM by this process id holds it.
   */
  lemma BlockedExactly(states: seq<State>, steps: seq<Step>, n: nat, id: nat, inode: nat)
    requires IsRun(states, steps) && n < |states|
    requires id in states[n].writers && states[n].writers[id].pc.Create? && inode !in states[n].inodes
    ensures var s, w := states[n], states[n].writers[id];
            !Enabled(s, CreateTemp(id, inode)) <==> Stale(s, w.vm, w.pid) || Held(s, w.vm, w.pid)
  {
    RunInv(states, steps, n);
    var s, w := states[n], states[n].writers[id];
    if other :| Holds(s, other, w.vm, w.pid) {
      HolderOwns(s, other, w.vm, w.pid);
    }
  }

  /**
   A stale temporary file is never published and never removed: from then on, until
   a power loss, no save of this VM by this process id gets past creating its file.
   */
  lemma {:induction false} StaleBlocksSaves(states: seq<State>, steps: seq<Step>, n: nat, m: nat, vm: string, pid: nat)
    requires IsRun(states, steps) && n <= m < |states| && Stale(states[n], vm, pid)
    requires forall i :: n <= i < m ==> !steps[i].PowerLoss?
    ensures Stale(states[m], vm, pid) && states[m].dir[Temp(vm, pid)] == states[n].dir[Temp(vm, pid)]
    ensures forall id :: id in states[m].writers && states[m].writers[id].Tmp() == Temp(vm, pid) ==>
              !Enabled(states[m], Rename(id)) && forall i :: !Enabled(states[m], CreateTemp(id, i))
    decreases m
  {
    if n == m {
      StaleStops(states[m], vm, pid);
    } else {
      StaleBlocksSaves(states, steps, n, m - 1, vm, pid);
      RunInv(states, steps, m - 1);
      UnheldStep(states[m - 1], steps[m - 1], vm, pid);
      StaleStops(states[m], vm, pid);
    }
  }

  lemma StaleStops(s: State, vm: string, pid: nat)
    requires Stale(s, vm, pid)
    ensures forall id :: id in s.writers && s.writers[id].Tmp() == Temp(vm, pid) ==>
              !Enabled(s, Rename(id)) && forall i :: !Enabled(s, CreateTemp(id, i))
  {
    forall id | id in s.writers && s.writers[id].Tmp() == Temp(vm, pid)
      ensures !Enabled(s, Rename(id)) && forall i :: !Enabled(s, CreateTemp(id, i))
    {
      assert !Holds(s, id, vm, pid);
    }
  }
}
