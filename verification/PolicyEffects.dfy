/**
 What saves, deletions and loads achieve: the policy a VM has at any moment of a run is
 the one of the last rename, unless a deletion or a power loss came after it, and a load
 returns what was current when it opened the file.
 */
module PolicyEffects {
  import opened Wrappers
  import opened PolicyStore
  import opened PolicyRuns

  /** The text a reader who opens the policy path now will find. */
  function Current(s: State, vm: string): Option<string> {
    if Final(vm) in s.dir && s.dir[Final(vm)] in s.inodes then Some(s.inodes[s.dir[Final(vm)]].content) else None
  }

  lemma NoneIsAbsent(s: State, vm: string)
    requires Inv(s)
    ensures Current(s, vm) == None <==> Final(vm) !in s.dir
  {
    if Final(vm) in s.dir {
      assert Complete(s, vm, s.dir[Final(vm)]);
    }
  }

  /** The step replaces, removes or may lose the VM's policy. */
  predicate Touches(s: State, step: Step, vm: string) {
    match step
    case Rename(id) => id in s.writers && s.writers[id].vm == vm
    case Delete(v) => v == vm
    case PowerLoss(_, _) => true
    case _ => false
  }

  ghost predicate Untouched(states: seq<State>, steps: seq<Step>, n: nat, m: nat, vm: string)
    requires n <= m <= |steps| < |states|
  {
    forall i {:trigger steps[i]} :: n <= i < m ==> !Touches(states[i], steps[i], vm)
  }

  /** Once a path of a policy has named a file, only a power loss can change what is in it. */
  lemma PublishedStays(s: State, step: Step, vm: string, i: nat)
    requires Inv(s) && Enabled(s, step) && !step.PowerLoss? && (Final(vm), i) in s.bound
    ensures (Final(vm), i) in Next(s, step).bound && i in s.inodes && i in Next(s, step).inodes
    ensures Next(s, step).inodes[i].content == s.inodes[i].content
  {
    assert Complete(s, vm, i);
    if step.WriteChunk? || step.Sync? {
      assert WriterOk(s, s.writers[step.id]);
    }
  }

  /** What one step does to a VM's policy. */
  lemma CurrentStep(s: State, step: Step, vm: string)
    requires Inv(s) && Enabled(s, step) && !step.PowerLoss?
    ensures Current(Next(s, step), vm) ==
              if step.Rename? && s.writers[step.id].vm == vm then Some(s.writers[step.id].json)
              else if step.Delete? && step.vm == vm then None
              else Current(s, vm)
  {
    if step.Rename? && s.writers[step.id].vm == vm {
      assert WriterOk(s, s.writers[step.id]);
    } else if Final(vm) in s.dir {
      PublishedStays(s, step, vm, s.dir[Final(vm)]);
    }
  }

  lemma CurrentRun(states: seq<State>, steps: seq<Step>, n: nat, vm: string)
    requires IsRun(states, steps) && n < |steps| && !steps[n].PowerLoss?
    ensures Current(states[n + 1], vm) ==
              if steps[n].Rename? && states[n].writers[steps[n].id].vm == vm then Some(states[n].writers[steps[n].id].json)
              else if steps[n].Delete? && steps[n].vm == vm then None
              else Current(states[n], vm)
  {
    RunInv(states, steps, n);
    CurrentStep(states[n], steps[n], vm);
  }

  /** A policy stays as it is until a step touches it. */
  lemma {:induction false} CurrentStays(states: seq<State>, steps: seq<Step>, n: nat, m: nat, vm: string)
    requires IsRun(states, steps) && n <= m < |states| && Untouched(states, steps, n, m, vm)
    ensures Current(states[m], vm) == Current(states[n], vm)
    decreases m
  {
    if n == m {
    } else {
      CurrentStays(states, steps, n, m - 1, vm);
      CurrentRun(states, steps, m - 1, vm);
    }
  }

  /** From a rename on, until the policy is touched again, the VM's policy is the one the renamer saved. */
  lemma SaveTakesEffect(states: seq<State>, steps: seq<Step>, n: nat, m: nat, id: nat)
    requires IsRun(states, steps) && n < m < |states| && steps[n] == Rename(id)
    requires Untouched(states, steps, n + 1, m, states[n].writers[id].vm)
    ensures Current(states[m], states[n].writers[id].vm) == Some(states[n].writers[id].json)
  {
    var vm := states[n].writers[id].vm;
    CurrentRun(states, steps, n, vm);
    CurrentStays(states, steps, n + 1, m, vm);
  }

  /** From a deletion on, until the policy is touched again, there is none. */
  lemma DeleteTakesEffect(states: seq<State>, steps: seq<Step>, n: nat, m: nat, vm: string)
    requires IsRun(states, steps) && n < m < |states| && steps[n] == Delete(vm)
    requires Untouched(states, steps, n + 1, m, vm)
    ensures Current(states[m], vm) == None && Final(vm) !in states[m].dir
  {
    CurrentRun(states, steps, n, vm);
    CurrentStays(states, steps, n + 1, m, vm);
    RunInv(states, steps, m);
    NoneIsAbsent(states[m], vm);
  }

  // --------------------------------------------------------------------------- loads

  /** What a load that has opened `i`, whose text is `text`, may have got. */
  ghost predicate Reads(s: State, id: nat, vm: string, i: nat, text: string) {
    && id in s.readers && s.readers[id].vm == vm
    && (Final(vm), i) in s.bound && i in s.inodes && s.inodes[i].content == text
    && match s.readers[id].pc
       case Reading(j, got) => j == i && got <= text
       case Done(result) => result == Policy(text)
       case _ => false
  }

  lemma ReadsStep(s: State, step: Step, id: nat, vm: string, i: nat, text: string)
    requires Inv(s) && Enabled(s, step) && !step.PowerLoss? && Reads(s, id, vm, i, text)
    ensures Reads(Next(s, step), id, vm, i, text)
  {
    PublishedStays(s, step, vm, i);
  }

  lemma {:induction false} ReadsOn(states: seq<State>, steps: seq<Step>, n: nat, m: nat, id: nat, vm: string, i: nat, text: string)
    requires IsRun(states, steps) && n <= m < |states| && Reads(states[n], id, vm, i, text)
    requires forall k :: n <= k < m ==> !steps[k].PowerLoss?
    ensures Reads(states[m], id, vm, i, text)
    decreases m
  {
    if n == m {
    } else {
      ReadsOn(states, steps, n, m - 1, id, vm, i, text);
      RunInv(states, steps, m - 1);
      ReadsStep(states[m - 1], steps[m - 1], id, vm, i, text);
    }
  }

  lemma {:induction false} DoneStays(states: seq<State>, steps: seq<Step>, n: nat, m: nat, id: nat)
    requires IsRun(states, steps) && n <= m < |states| && id in states[n].readers && states[n].readers[id].pc.Done?
    requires forall k :: n <= k < m ==> !steps[k].PowerLoss?
    ensures id in states[m].readers && states[m].readers[id] == states[n].readers[id]
    decreases m
  {
    if n == m {
    } else {
      DoneStays(states, steps, n, m - 1, id);
      DoneStep(states[m - 1], steps[m - 1], id);
    }
  }

  lemma DoneStep(s: State, step: Step, id: nat)
    requires Enabled(s, step) && !step.PowerLoss? && id in s.readers && s.readers[id].pc.Done?
    ensures id in Next(s, step).readers && Next(s, step).readers[id] == s.readers[id]
  {
  }

  /**
   A load that comes to its end returns exactly the policy that was current when it opened the
   file, whatever happens to the policy meanwhile; if there was none, it is not readable.
   */
  lemma LoadReturnsOpened(states: seq<State>, steps: seq<Step>, n: nat, m: nat, id: nat)
    requires IsRun(states, steps) && n < m < |states| && steps[n] == OpenFinal(id)
    requires forall k :: n <= k < m ==> !steps[k].PowerLoss?
    requires id in states[m].readers && states[m].readers[id].pc.Done?
    ensures var policy := Current(states[n], states[n].readers[id].vm);
            states[m].readers[id].pc.result == if policy.Some? then Policy(policy.value) else NotReadable
  {
    var s, vm := states[n], states[n].readers[id].vm;
    RunInv(states, steps, n);
    if Final(vm) in s.dir {
      var i := s.dir[Final(vm)];
      assert Complete(s, vm, i);
      ReadsOn(states, steps, n + 1, m, id, vm, i, s.inodes[i].content);
    } else {
      DoneStays(states, steps, n + 1, m, id);
    }
  }

  /** A load that finds no file when it checks ends as absent. */
  lemma LoadSeesAbsence(states: seq<State>, steps: seq<Step>, n: nat, m: nat, id: nat)
    requires IsRun(states, steps) && n < m < |states| && steps[n] == CheckExists(id)
    requires forall k :: n <= k < m ==> !steps[k].PowerLoss?
    requires Current(states[n], states[n].readers[id].vm) == None
    ensures id in states[m].readers && states[m].readers[id].pc == Done(Absent)
  {
    var s, vm := states[n], states[n].readers[id].vm;
    RunInv(states, steps, n);
    NoneIsAbsent(s, vm);
    DoneStays(states, steps, n + 1, m, id);
  }

  /** After its check a load of an untouched policy has found it, is reading it, or has returned it. */
  ghost predicate OnItsWay(s: State, id: nat, vm: string, text: string) {
    && id in s.readers && s.readers[id].vm == vm
    && Final(vm) in s.dir && s.dir[Final(vm)] in s.inodes && s.inodes[s.dir[Final(vm)]].content == text
    && (s.readers[id].pc.Open? || Reads(s, id, vm, s.dir[Final(vm)], text))
  }

  lemma OnItsWayStep(s: State, step: Step, id: nat, vm: string, text: string)
    requires Inv(s) && Enabled(s, step) && !Touches(s, step, vm) && OnItsWay(s, id, vm, text)
    ensures OnItsWay(Next(s, step), id, vm, text)
  {
    PublishedStays(s, step, vm, s.dir[Final(vm)]);
    if !s.readers[id].pc.Open? {
      ReadsStep(s, step, id, vm, s.dir[Final(vm)], text);
    }
  }

  lemma {:induction false} StaysOnItsWay(states: seq<State>, steps: seq<Step>, n: nat, m: nat, id: nat, vm: string, text: string)
    requires IsRun(states, steps) && n <= m < |states| && OnItsWay(states[n], id, vm, text)
    requires Untouched(states, steps, n, m, vm)
    ensures OnItsWay(states[m], id, vm, text)
    decreases m
  {
    if n == m {
    } else {
      StaysOnItsWay(states, steps, n, m - 1, id, vm, text);
      OnItsWayRun(states, steps, m - 1, id, vm, text);
    }
  }

  lemma OnItsWayRun(states: seq<State>, steps: seq<Step>, n: nat, id: nat, vm: string, text: string)
    requires IsRun(states, steps) && n < |steps| && !Touches(states[n], steps[n], vm) && OnItsWay(states[n], id, vm, text)
    ensures OnItsWay(states[n + 1], id, vm, text)
  {
    RunInv(states, steps, n);
    OnItsWayStep(states[n], steps[n], id, vm, text);
  }

  lemma StartsOut(states: seq<State>, steps: seq<Step>, n: nat, id: nat)
    requires IsRun(states, steps) && n < |steps| && steps[n] == CheckExists(id)
    requires Current(states[n], states[n].readers[id].vm).Some?
    ensures OnItsWay(states[n + 1], id, states[n].readers[id].vm, Current(states[n], states[n].readers[id].vm).value)
  {
  }

  /** A load that runs from check to end while the policy is untouched returns it, or its absence. */
  lemma LoadReturnsCurrent(states: seq<State>, steps: seq<Step>, n: nat, m: nat, id: nat)
    requires IsRun(states, steps) && n < m < |states| && steps[n] == CheckExists(id)
    requires Untouched(states, steps, n, m, states[n].readers[id].vm)
    requires id in states[m].readers && states[m].readers[id].pc.Done?
    ensures var policy := Current(states[n], states[n].readers[id].vm);
            states[m].readers[id].pc.result == if policy.Some? then Policy(policy.value) else Absent
  {
    var vm := states[n].readers[id].vm;
    if Current(states[n], vm).Some? {
      StartsOut(states, steps, n, id);
      StaysOnItsWay(states, steps, n + 1, m, id, vm, Current(states[n], vm).value);
    } else {
      LoadSeesAbsence(states, steps, n, m, id);
    }
  }

  /** A load between a rename and the next touch returns exactly the policy saved. */
  lemma LoadAfterSave(states: seq<State>, steps: seq<Step>, save: nat, n: nat, m: nat, writer: nat, id: nat)
    requires IsRun(states, steps) && save < n < m < |states| && steps[save] == Rename(writer) && steps[n] == CheckExists(id)
    requires states[n].readers[id].vm == states[save].writers[writer].vm
    requires Untouched(states, steps, save + 1, m, states[n].readers[id].vm)
    requires id in states[m].readers && states[m].readers[id].pc.Done?
    ensures states[m].readers[id].pc.result == Policy(states[save].writers[writer].json)
  {
    SaveTakesEffect(states, steps, save, n, writer);
    LoadReturnsCurrent(states, steps, n, m, id);
  }

  /** A load between a deletion and the next touch finds no policy. */
  lemma LoadAfterDelete(states: seq<State>, steps: seq<Step>, deletion: nat, n: nat, m: nat, id: nat)
    requires IsRun(states, steps) && deletion < n < m < |states| && steps[n] == CheckExists(id)
    requires steps[deletion] == Delete(states[n].readers[id].vm)
    requires Untouched(states, steps, deletion + 1, m, states[n].readers[id].vm)
    ensures id in states[m].readers && states[m].readers[id].pc == Done(Absent)
  {
    DeleteTakesEffect(states, steps, deletion, n, states[n].readers[id].vm);
    LoadSeesAbsence(states, steps, n, m, id);
  }

  // ------------------------------------------------------------------- going through

  /** The steps can be taken from `s` one after the other. */
  ghost predicate Possible(s: State, steps: seq<Step>)
    decreases |steps|
  {
    steps == [] || (Enabled(s, steps[0]) && Possible(Next(s, steps[0]), steps[1..]))
  }

  function After(s: State, steps: seq<Step>): State
    requires Possible(s, steps)
    decreases |steps|
  {
    if steps == [] then s else After(Next(s, steps[0]), steps[1..])
  }

  lemma FirstStep(s: State, step: Step, rest: seq<Step>)
    requires Enabled(s, step) && Possible(Next(s, step), rest)
    ensures Possible(s, [step] + rest) && After(s, [step] + rest) == After(Next(s, step), rest)
  {
    assert ([step] + rest)[1..] == rest;
  }

  /** From a created file on: write, sync, rename. */
  lemma WriteGoesThrough(s: State, id: nat, inode: nat)
    requires id in s.writers && s.writers[id].pc == Writing(inode, 0) && inode in s.inodes && s.inodes[inode].content == ""
    requires s.writers[id].Tmp() in s.dir && s.dir[s.writers[id].Tmp()] == inode
    ensures var w := s.writers[id];
            var steps := [WriteChunk(id, |w.json|), Sync(id), Rename(id)];
            Possible(s, steps) && Current(After(s, steps), w.vm) == Some(w.json)
  {
    var w := s.writers[id];
    var s1 := Next(s, WriteChunk(id, |w.json|));
    assert s1.inodes[inode].content == w.json by { assert w.json[0..|w.json|] == w.json; }
    var s2 := Next(s1, Sync(id));
    var s3 := Next(s2, Rename(id));
    assert Current(s3, w.vm) == Some(w.json);
    assert Possible(s3, []) && After(s3, []) == s3;
    FirstStep(s2, Rename(id), []);
    FirstStep(s1, Sync(id), [Rename(id)]);
    FirstStep(s, WriteChunk(id, |w.json|), [Sync(id), Rename(id)]);
    assert [Sync(id)] + [Rename(id)] == [Sync(id), Rename(id)];
    assert [WriteChunk(id, |w.json|)] + [Sync(id), Rename(id)] == [WriteChunk(id, |w.json|), Sync(id), Rename(id)];
  }

  /** A save whose temporary path is free can go through, and then the VM has its policy. */
  lemma SaveGoesThrough(s: State, id: nat, vm: string, pid: nat, json: string, inode: nat)
    requires id !in s.writers && Temp(vm, pid) !in s.dir && inode !in s.inodes
    ensures var steps := [BeginSave(id, vm, pid, json), CreateTemp(id, inode)] + [WriteChunk(id, |json|), Sync(id), Rename(id)];
            Possible(s, steps) && Current(After(s, steps), vm) == Some(json)
  {
    var rest := [WriteChunk(id, |json|), Sync(id), Rename(id)];
    var s1 := Next(s, BeginSave(id, vm, pid, json));
    var s2 := Next(s1, CreateTemp(id, inode));
    WriteGoesThrough(s2, id, inode);
    FirstStep(s1, CreateTemp(id, inode), rest);
    FirstStep(s, BeginSave(id, vm, pid, json), [CreateTemp(id, inode)] + rest);
    assert [BeginSave(id, vm, pid, json)] + ([CreateTemp(id, inode)] + rest) == [BeginSave(id, vm, pid, json), CreateTemp(id, inode)] + rest;
  }

  /** From an existing file on: open, read, end. */
  lemma ReadGoesThrough(s: State, id: nat)
    requires id in s.readers && s.readers[id].pc.Open? && Current(s, s.readers[id].vm).Some?
    ensures var text := Current(s, s.readers[id].vm).value;
            var steps := [OpenFinal(id), ReadChunk(id, |text|), EndLoad(id)];
            && Possible(s, steps)
            && id in After(s, steps).readers && After(s, steps).readers[id].pc == Done(Policy(text))
  {
    var text := Current(s, s.readers[id].vm).value;
    var s1 := Next(s, OpenFinal(id));
    var s2 := Next(s1, ReadChunk(id, |text|));
    assert s2.readers[id].pc.got == text by { assert "" + text[0..|text|] == text; }
    var s3 := Next(s2, EndLoad(id));
    assert Possible(s3, []) && After(s3, []) == s3;
    FirstStep(s2, EndLoad(id), []);
    FirstStep(s1, ReadChunk(id, |text|), [EndLoad(id)]);
    FirstStep(s, OpenFinal(id), [ReadChunk(id, |text|), EndLoad(id)]);
    assert [ReadChunk(id, |text|)] + [EndLoad(id)] == [ReadChunk(id, |text|), EndLoad(id)];
    assert [OpenFinal(id)] + [ReadChunk(id, |text|), EndLoad(id)] == [OpenFinal(id), ReadChunk(id, |text|), EndLoad(id)];
  }

  /** A load can begin at any moment and go through: it finds no policy, or returns the current one. */
  lemma LoadGoesThrough(s: State, id: nat, vm: string)
    requires Inv(s) && id !in s.readers
    ensures var check, policy := [BeginLoad(id, vm), CheckExists(id)], Current(s, vm);
            && Possible(s, check)
            && id in After(s, check).readers
            && (policy == None ==> After(s, check).readers[id].pc == Done(Absent))
            && (policy.Some? ==>
                  var read := [OpenFinal(id), ReadChunk(id, |policy.value|), EndLoad(id)];
                  && Possible(After(s, check), read)
                  && id in After(After(s, check), read).readers
                  && After(After(s, check), read).readers[id].pc == Done(Policy(policy.value)))
  {
    var s1 := Next(s, BeginLoad(id, vm));
    var s2 := Next(s1, CheckExists(id));
    NoneIsAbsent(s, vm);
    assert Possible(s2, []) && After(s2, []) == s2;
    FirstStep(s1, CheckExists(id), []);
    FirstStep(s, BeginLoad(id, vm), [CheckExists(id)]);
    assert [BeginLoad(id, vm)] + [CheckExists(id)] == [BeginLoad(id, vm), CheckExists(id)];
    if Current(s, vm).Some? {
      ReadGoesThrough(s2, id);
    }
  }
}
