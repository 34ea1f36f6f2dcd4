/**
 Restriction policy files: `save` writes a temporary file and renames it over the
 policy file, `load` reads it, `delete` removes it. Any number of threads and
 processes run these steps in any order; each may fail or die at any step, and
 the machine may lose power.

 The file system has a directory (path to inode) and inodes (content, and whether
 that content is on disk). A write goes to an open inode, a rename to a path.
 */
module PolicyStore {
  import opened Wrappers

  datatype Path = Final(vm: string) | Temp(vm: string, pid: nat)

  datatype Inode = Inode(content: string, synced: bool)

  datatype WriterPc =
    | Create
    | Writing(inode: nat, written: nat)
    | Renaming(inode: nat)
    | Removing(inode: nat)

  datatype Writer = Writer(vm: string, pid: nat, json: string, pc: WriterPc) {
    function Tmp(): Path { Temp(vm, pid) }

    /** The temporary file this writer created and still refers to. */
    function Holds(): Option<nat> { if pc.Create? then None else Some(pc.inode) }
  }

  datatype ReaderPc = Check | Open | Reading(inode: nat, got: string) | Done(result: Loaded)

  datatype Loaded = Absent | NotReadable | Policy(json: string)

  datatype Reader = Reader(vm: string, pc: ReaderPc)

  /**
   `saved`: every (vm, json) passed to `save` so far; `bound`: every inode a path has
   ever named.
   */
  datatype State = State(
    dir: map<Path, nat>,
    inodes: map<nat, Inode>,
    writers: map<nat, Writer>,
    readers: map<nat, Reader>,
    saved: set<(string, string)>,
    bound: set<(Path, nat)>)

  const INIT := State(map[], map[], map[], map[], {}, {})

  datatype Step =
    | BeginSave(id: nat, vm: string, pid: nat, json: string)
    | CreateTemp(id: nat, inode: nat)
    | CreateFails(id: nat)
    | WriteChunk(id: nat, n: nat)
    | Sync(id: nat)
    | WriteFails(id: nat)
    | Rename(id: nat)
    | RenameFails(id: nat)
    | RemoveTemp(id: nat)
    | RemoveFails(id: nat)
    | BeginLoad(id: nat, vm: string)
    | CheckExists(id: nat)
    | OpenFinal(id: nat)
    | ReadChunk(id: nat, n: nat)
    | EndLoad(id: nat)
    | Delete(vm: string)
    | Crash(pid: nat)
    | PowerLoss(dir: map<Path, nat>, content: map<nat, string>)

  predicate Enabled(s: State, step: Step) {
    match step
    case BeginSave(id, _, _, _) => id !in s.writers
    case CreateTemp(id, inode) =>
      id in s.writers && s.writers[id].pc.Create? && s.writers[id].Tmp() !in s.dir && inode !in s.inodes
    case CreateFails(id) => id in s.writers && s.writers[id].pc.Create?
    case WriteChunk(id, n) =>
      id in s.writers && s.writers[id].pc.Writing? && s.writers[id].pc.inode in s.inodes &&
      s.writers[id].pc.written + n <= |s.writers[id].json|
    case Sync(id) =>
      id in s.writers && s.writers[id].pc.Writing? && s.writers[id].pc.inode in s.inodes &&
      s.writers[id].pc.written == |s.writers[id].json|
    case WriteFails(id) => id in s.writers && s.writers[id].pc.Writing?
    case Rename(id) => id in s.writers && s.writers[id].pc.Renaming? && s.writers[id].Tmp() in s.dir
    case RenameFails(id) => id in s.writers && s.writers[id].pc.Renaming?
    case RemoveTemp(id) => id in s.writers && s.writers[id].pc.Removing?
    case RemoveFails(id) => id in s.writers && s.writers[id].pc.Removing?
    case BeginLoad(id, _) => id !in s.readers
    case CheckExists(id) => id in s.readers && s.readers[id].pc.Check?
    case OpenFinal(id) => id in s.readers && s.readers[id].pc.Open?
    case ReadChunk(id, n) =>
      id in s.readers && s.readers[id].pc.Reading? && s.readers[id].pc.inode in s.inodes &&
      |s.readers[id].pc.got| + n <= |s.inodes[s.readers[id].pc.inode].content|
    case EndLoad(id) =>
      id in s.readers && s.readers[id].pc.Reading? && s.readers[id].pc.inode in s.inodes &&
      |s.readers[id].pc.got| >= |s.inodes[s.readers[id].pc.inode].content|
    case Delete(_) => true
    case Crash(_) => true
    case PowerLoss(dir, content) =>
      && (forall p :: p in dir ==> (p, dir[p]) in s.bound)
      && content.Keys == s.inodes.Keys
      && forall i :: i in content && s.inodes[i].synced ==> content[i] == s.inodes[i].content
  }

  function SetWriter(s: State, id: nat, pc: WriterPc): State
    requires id in s.writers
  {
    s.(writers := s.writers[id := s.writers[id].(pc := pc)])
  }

  function SetReader(s: State, id: nat, pc: ReaderPc): State
    requires id in s.readers
  {
    s.(readers := s.readers[id := s.readers[id].(pc := pc)])
  }

  function EndSave(s: State, id: nat): State {
    s.(writers := s.writers - {id})
  }

  function Next(s: State, step: Step): State
    requires Enabled(s, step)
  {
    match step
    case BeginSave(id, vm, pid, json) =>
      s.(writers := s.writers[id := Writer(vm, pid, json, Create)], saved := s.saved + {(vm, json)})
    case CreateTemp(id, inode) =>
      var tmp := s.writers[id].Tmp();
      SetWriter(s, id, Writing(inode, 0)).(
        dir := s.dir[tmp := inode], inodes := s.inodes[inode := Inode("", false)], bound := s.bound + {(tmp, inode)})
    case CreateFails(id) => EndSave(s, id)
    case WriteChunk(id, n) =>
      var w := s.writers[id];
      var file := s.inodes[w.pc.inode];
      SetWriter(s, id, Writing(w.pc.inode, w.pc.written + n)).(
        inodes := s.inodes[w.pc.inode := Inode(file.content + w.json[w.pc.written..w.pc.written + n], false)])
    case Sync(id) =>
      var i := s.writers[id].pc.inode;
      SetWriter(s, id, Renaming(i)).(inodes := s.inodes[i := s.inodes[i].(synced := true)])
    case WriteFails(id) => EndSave(s, id)
    case Rename(id) =>
      var w := s.writers[id];
      var i := s.dir[w.Tmp()];
      EndSave(s, id).(dir := (s.dir - {w.Tmp()})[Final(w.vm) := i], bound := s.bound + {(Final(w.vm), i)})
    case RenameFails(id) => SetWriter(s, id, Removing(s.writers[id].pc.inode))
    case RemoveTemp(id) => EndSave(s, id).(dir := s.dir - {s.writers[id].Tmp()})
    case RemoveFails(id) => EndSave(s, id)
    case BeginLoad(id, vm) => s.(readers := s.readers[id := Reader(vm, Check)])
    case CheckExists(id) =>
      SetReader(s, id, if Final(s.readers[id].vm) in s.dir then Open else Done(Absent))
    case OpenFinal(id) =>
      var p := Final(s.readers[id].vm);
      SetReader(s, id, if p in s.dir then Reading(s.dir[p], "") else Done(NotReadable))
    case ReadChunk(id, n) =>
      var pc := s.readers[id].pc;
      SetReader(s, id, Reading(pc.inode, pc.got + s.inodes[pc.inode].content[|pc.got|..|pc.got| + n]))
    case EndLoad(id) => SetReader(s, id, Done(Policy(s.readers[id].pc.got)))
    case Delete(vm) => s.(dir := s.dir - {Final(vm)})
    case Crash(pid) => s.(writers := map id | id in s.writers && s.writers[id].pid != pid :: s.writers[id])
    case PowerLoss(dir, content) =>
      s.(dir := dir, inodes := map i | i in content :: Inode(content[i], s.inodes[i].synced), writers := map[], readers := map[])
  }

  // ------------------------------------------------------------------- invariant

  /** The inode carries, on disk, the whole serialisation of a policy saved for `vm`. */
  ghost predicate Complete(s: State, vm: string, i: nat) {
    i in s.inodes && s.inodes[i].synced && (vm, s.inodes[i].content) in s.saved
  }

  ghost predicate WriterOk(s: State, w: Writer) {
    && (w.vm, w.json) in s.saved
    && match w.pc
       case Create => true
       case Writing(i, n) => Owns(s, w, i) && n <= |w.json| && s.inodes[i].content == w.json[..n]
       case Renaming(i) => Owns(s, w, i) && s.inodes[i] == Inode(w.json, true)
       case Removing(i) => Owns(s, w, i)
  }

  /** The temporary path still names the writer's own, never published inode. */
  ghost predicate Owns(s: State, w: Writer, i: nat) {
    && i in s.inodes && w.Tmp() in s.dir && s.dir[w.Tmp()] == i
    && forall b :: b in s.bound && b.1 == i ==> b.0 == w.Tmp()
  }

  ghost predicate ReaderOk(s: State, r: Reader) {
    match r.pc
    case Reading(i, got) => (Final(r.vm), i) in s.bound && i in s.inodes && got <= s.inodes[i].content
    case Done(Policy(json)) => (r.vm, json) in s.saved
    case _ => true
  }

  /** Directory entries are bound; every inode a policy path ever named is complete. */
  ghost predicate FilesOk(s: State) {
    && (forall p :: p in s.dir ==> (p, s.dir[p]) in s.bound)
    && (forall b :: b in s.bound ==> b.1 in s.inodes)
    && (forall b :: b in s.bound && b.0.Final? ==> Complete(s, b.0.vm, b.1))
  }

  /** Every writer owns its temporary file, and no two refer to the same one. */
  ghost predicate WritersOk(s: State) {
    && (forall id :: id in s.writers ==> WriterOk(s, s.writers[id]))
    && (forall a, b :: a in s.writers && b in s.writers && a != b && s.writers[a].Holds().Some? ==>
          s.writers[a].Holds() != s.writers[b].Holds())
  }

  ghost predicate ReadersOk(s: State) {
    forall id :: id in s.readers ==> ReaderOk(s, s.readers[id])
  }

  ghost predicate Inv(s: State) {
    FilesOk(s) && WritersOk(s) && ReadersOk(s)
  }

  /** A writer whose files are as they were is in order as it was. */
  lemma WriterKept(s: State, s': State, w: Writer)
    requires WriterOk(s, w) && s.saved <= s'.saved
    requires w.Holds().Some? ==>
               var i := w.Holds().value;
               && i in s'.inodes && s'.inodes[i] == s.inodes[i]
               && w.Tmp() in s'.dir && s'.dir[w.Tmp()] == i
               && forall b :: b in s'.bound && b.1 == i ==> b in s.bound
    ensures WriterOk(s', w)
  {
  }

  lemma CreateKeepsInv(s: State, step: Step)
    requires Inv(s) && Enabled(s, step) && step.CreateTemp?
    ensures Inv(Next(s, step))
  {
    OthersKept(s, Next(s, step), step.inode);
    CreateKeepsWriters(s, step);
  }

  lemma CreateKeepsWriters(s: State, step: Step)
    requires Inv(s) && Enabled(s, step) && step.CreateTemp?
    ensures WritersOk(Next(s, step))
  {
    var s' := Next(s, step);
    assert Owns(s', s'.writers[step.id], step.inode);
    forall id | id in s'.writers ensures WriterOk(s', s'.writers[id]) {
      assert WriterOk(s, s.writers[id]);
      if id != step.id { WriterKept(s, s', s.writers[id]); }
    }
  }

  lemma WriteKeepsInv(s: State, step: Step)
    requires Inv(s) && Enabled(s, step) && (step.WriteChunk? || step.Sync?)
    ensures Inv(Next(s, step))
  {
    var s', w := Next(s, step), s.writers[step.id];
    assert WriterOk(s, w) && Owns(s, w, w.pc.inode);
    OthersKept(s, s', w.pc.inode);
    WriteKeepsWriters(s, step);
  }

  lemma WriteKeepsWriters(s: State, step: Step)
    requires Inv(s) && Enabled(s, step) && (step.WriteChunk? || step.Sync?)
    ensures WritersOk(Next(s, step))
  {
    var s', w := Next(s, step), s.writers[step.id];
    assert WriterOk(s, w);
    forall id | id in s'.writers ensures WriterOk(s', s'.writers[id]) {
      assert WriterOk(s, s.writers[id]);
      if id != step.id {
        assert s.writers[id].Holds() != w.Holds();
        WriterKept(s, s', s.writers[id]);
      }
    }
  }

  /** Touching an inode that no policy path ever named keeps all files and readers in order. */
  lemma OthersKept(s: State, s': State, i: nat)
    requires Inv(s) && s'.saved == s.saved && s'.readers == s.readers
    requires forall j :: j in s.inodes && j != i ==> j in s'.inodes && s'.inodes[j] == s.inodes[j]
    requires forall b :: b in s.bound && b.1 == i ==> b.0.Temp?
    requires s.bound <= s'.bound && forall b :: b in s'.bound && b !in s.bound ==> b.0.Temp?
    ensures forall b :: b in s'.bound && b.0.Final? ==> Complete(s', b.0.vm, b.1)
    ensures ReadersOk(s')
  {
    forall b | b in s'.bound && b.0.Final? ensures Complete(s', b.0.vm, b.1) {
      assert Complete(s, b.0.vm, b.1);
    }
    forall id | id in s'.readers ensures ReaderOk(s', s'.readers[id]) {
      assert ReaderOk(s, s.readers[id]);
    }
  }

  predicate EndsOrBegins(step: Step) {
    step.BeginSave? || step.CreateFails? || step.WriteFails? || step.RenameFails? || step.RemoveFails?
  }

  lemma EndOrBeginKeepsInv(s: State, step: Step)
    requires Inv(s) && Enabled(s, step) && EndsOrBegins(step)
    ensures Inv(Next(s, step))
  {
    var s' := Next(s, step);
    forall b | b in s'.bound && b.0.Final? ensures Complete(s', b.0.vm, b.1) {
      assert Complete(s, b.0.vm, b.1);
    }
    forall id | id in s'.readers ensures ReaderOk(s', s'.readers[id]) {
      assert ReaderOk(s, s.readers[id]);
    }
    forall id | id in s'.writers ensures WriterOk(s', s'.writers[id]) {
      assert id in s.writers ==> WriterOk(s, s.writers[id]);
    }
  }

  lemma RenameKeepsInv(s: State, step: Step)
    requires Inv(s) && Enabled(s, step) && (step.Rename? || step.RemoveTemp?)
    ensures Inv(Next(s, step))
  {
    var s' := Next(s, step);
    var w := s.writers[step.id];
    assert WriterOk(s, w);
    forall id | id in s'.writers ensures WriterOk(s', s'.writers[id]) {
      assert WriterOk(s, s.writers[id]) && id != step.id;
      assert s.writers[id].Holds().Some? ==> s.writers[id].Tmp() != w.Tmp();
    }
    forall id | id in s'.readers ensures ReaderOk(s', s'.readers[id]) {
      assert ReaderOk(s, s.readers[id]);
    }
  }

  predicate IsLoad(step: Step) {
    step.BeginLoad? || step.CheckExists? || step.OpenFinal? || step.ReadChunk? || step.EndLoad?
  }

  lemma LoadKeepsWriters(s: State, step: Step)
    requires Inv(s) && Enabled(s, step) && IsLoad(step)
    ensures WritersOk(Next(s, step)) && FilesOk(Next(s, step))
  {
    forall id | id in s.writers ensures WriterOk(Next(s, step), s.writers[id]) {
      assert WriterOk(s, s.writers[id]);
    }
  }

  lemma LoadKeepsInv(s: State, step: Step)
    requires Inv(s) && Enabled(s, step) && IsLoad(step)
    ensures Inv(Next(s, step))
  {
    var s' := Next(s, step);
    LoadKeepsWriters(s, step);
    forall id | id in s'.readers ensures ReaderOk(s', s'.readers[id]) {
      assert id in s.readers ==> ReaderOk(s, s.readers[id]);
      if step.EndLoad? && id == step.id {
        var r := s.readers[id];
        assert Complete(s, r.vm, r.pc.inode);
        assert r.pc.got == s.inodes[r.pc.inode].content;
      }
    }
  }

  lemma DeleteOrDeathKeepsInv(s: State, step: Step)
    requires Inv(s) && Enabled(s, step) && (step.Delete? || step.Crash?)
    ensures Inv(Next(s, step))
  {
    var s' := Next(s, step);
    forall id | id in s'.writers ensures WriterOk(s', s'.writers[id]) {
      assert WriterOk(s, s.writers[id]);
    }
    forall id | id in s'.readers ensures ReaderOk(s', s'.readers[id]) {
      assert ReaderOk(s, s.readers[id]);
    }
  }

  lemma PowerLossKeepsInv(s: State, step: Step)
    requires Inv(s) && Enabled(s, step) && step.PowerLoss?
    ensures Inv(Next(s, step))
  {
    var s' := Next(s, step);
    forall b | b in s'.bound && b.0.Final? ensures Complete(s', b.0.vm, b.1) {
      assert Complete(s, b.0.vm, b.1);
    }
  }

  lemma StepKeepsInv(s: State, step: Step)
    requires Inv(s) && Enabled(s, step)
    ensures Inv(Next(s, step))
  {
    if step.CreateTemp? {
      CreateKeepsInv(s, step);
    } else if step.WriteChunk? || step.Sync? {
      WriteKeepsInv(s, step);
    } else if EndsOrBegins(step) {
      EndOrBeginKeepsInv(s, step);
    } else if IsLoad(step) {
      LoadKeepsInv(s, step);
    } else if step.Rename? || step.RemoveTemp? {
      RenameKeepsInv(s, step);
    } else if step.PowerLoss? {
      PowerLossKeepsInv(s, step);
    } else {
      DeleteOrDeathKeepsInv(s, step);
    }
  }
}
