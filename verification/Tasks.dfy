/** Background tasks: shared statuses, and a manager that caps and prunes them. */
module Tasks {
  import opened Wrappers

  datatype Status = Pending | Running | Completed | Failed(message: string) | Cancelled

  const MAX_ACTIVE_TASKS := 64
  const MAX_HISTORY := 50

  predicate Active(s: Status) { s.Running? || s.Pending? }

  function CountTrue(flags: seq<bool>): nat {
    if flags == [] then 0 else (if flags[0] then 1 else 0) + CountTrue(flags[1..])
  }

  /**
   The order-preserving subsequence that keeps every unflagged item and the last
   `MAX_HISTORY` flagged ones.
   */
  function Survivors<T>(items: seq<T>, flags: seq<bool>): seq<T>
    requires |items| == |flags|
  {
    if items == [] then []
    else
      (if !flags[0] || CountTrue(flags) <= MAX_HISTORY then [items[0]] else []) + Survivors(items[1..], flags[1..])
  }

  /** `items` without its first `k` flagged members. */
  function DropFlagged<T>(items: seq<T>, flags: seq<bool>, k: nat): seq<T>
    requires |items| == |flags|
  {
    if items == [] || k == 0 then items
    else if flags[0] then DropFlagged(items[1..], flags[1..], k - 1)
    else [items[0]] + DropFlagged(items[1..], flags[1..], k)
  }

  lemma {:induction false} SurvivorsDrop<T>(items: seq<T>, flags: seq<bool>, k: nat)
    requires |items| == |flags|
    requires k == if CountTrue(flags) > 50 then CountTrue(flags) - 50 else 0
    ensures DropFlagged(items, flags, k) == Survivors(items, flags)
  {
    if items == [] {
    } else {
      SurvivorsDrop(items[1..], flags[1..], if k > 0 && flags[0] then k - 1 else k);
    }
  }

  lemma {:induction false} SurvivorsSize<T>(items: seq<T>, flags: seq<bool>)
    requires |items| == |flags|
    ensures |Survivors(items, flags)| == |items| - CountTrue(flags) + if CountTrue(flags) <= 50 then CountTrue(flags) else 50
    ensures CountTrue(flags) <= |flags|
  {
    if items == [] {
    } else {
      SurvivorsSize(items[1..], flags[1..]);
    }
  }

  lemma {:induction false} SurvivorsMembers<T>(items: seq<T>, flags: seq<bool>, i: nat)
    requires |items| == |flags| && i < |items|
    ensures !flags[i] || CountTrue(flags[i..]) <= 50 ==> items[i] in Survivors(items, flags)
  {
    if i == 0 {
    } else {
      SurvivorsMembers(items[1..], flags[1..], i - 1);
      assert flags[1..][i - 1..] == flags[i..];
    }
  }

  /** A stretch without flags passes through untouched. */
  lemma {:induction false} DropPast<T>(items: seq<T>, flags: seq<bool>, n: nat, k: nat)
    requires |items| == |flags| && n <= |items|
    requires forall j :: 0 <= j < n ==> !flags[j]
    ensures DropFlagged(items, flags, k) == items[..n] + DropFlagged(items[n..], flags[n..], k)
    decreases n
  {
    if n > 0 && k > 0 {
      DropPast(items[1..], flags[1..], n - 1, k);
      assert items[1..][n - 1..] == items[n..] && flags[1..][n - 1..] == flags[n..];
      assert items[..n] == [items[0]] + items[1..][..n - 1];
    } else if n > 0 {
      assert items == items[..n] + items[n..];
    }
  }

  /** Positions of the flagged members below `n`. */
  function Positions(flags: seq<bool>, n: nat): (r: seq<nat>)
    requires n <= |flags|
    ensures |r| <= n && forall a :: 0 <= a < |r| ==> r[a] < n && flags[r[a]]
  {
    if n == 0 then [] else Positions(flags, n - 1) + if flags[n - 1] then [n - 1] else []
  }

  lemma {:induction false} PositionsCount(flags: seq<bool>, n: nat)
    requires n <= |flags|
    ensures |Positions(flags, n)| == CountTrue(flags[..n])
  {
    if n == 0 {
    } else {
      PositionsCount(flags, n - 1);
      assert flags[..n] == flags[..n - 1] + [flags[n - 1]];
      CountTrueAppend(flags[..n - 1], [flags[n - 1]]);
    }
  }

  ghost predicate Ascending(r: seq<nat>) { forall a, b :: 0 <= a < b < |r| ==> r[a] < r[b] }

  lemma {:induction false} PositionsAscend(flags: seq<bool>, n: nat)
    requires n <= |flags|
    ensures Ascending(Positions(flags, n))
  {
    if n == 0 {
    } else {
      PositionsAscend(flags, n - 1);
    }
  }

  lemma {:induction false} PositionsComplete(flags: seq<bool>, n: nat, i: nat)
    requires i < n <= |flags| && flags[i]
    ensures i in Positions(flags, n)
  {
    if i < n - 1 {
      PositionsComplete(flags, n - 1, i);
    }
  }

  lemma {:induction false} CountTrueAppend(a: seq<bool>, b: seq<bool>)
    ensures CountTrue(a + b) == CountTrue(a) + CountTrue(b)
  {
    if a == [] {
      assert a + b == b;
    } else {
      assert (a + b)[1..] == a[1..] + b;
      CountTrueAppend(a[1..], b);
    }
  }

  /** Between two consecutive flagged positions nothing is flagged. */
  lemma PositionsGap(flags: seq<bool>, a: nat, i: nat)
    requires a < |Positions(flags, |flags|)|
    requires i < Positions(flags, |flags|)[a] && (a > 0 ==> Positions(flags, |flags|)[a - 1] < i)
    ensures !flags[i]
  {
    var r := Positions(flags, |flags|);
    PositionsAscend(flags, |flags|);
    forall b | 0 <= b < |r| ensures r[b] != i {
      if b < a { assert b == a - 1 || r[b] < r[a - 1]; }
    }
    if flags[i] {
      PositionsComplete(flags, |flags|, i);
    }
  }

  // ------------------------------------------------------------ implementation

  class TaskHandle {
    const id: nat
    var status: Status
    var fraction: real
    var message: string

    constructor (id: nat, status: Status)
      ensures this.id == id && this.status == status && fraction == -1.0 && message == ""
    {
      this.id, this.status := id, status;
      fraction, message := -1.0, "";
    }

    /** From 0 to 1, or -1 where unknown; the status stays, so a cancelled task can still report progress. */
    method SetProgress(fraction: real, message: string)
      modifies this`fraction, this`message
      ensures this.fraction == fraction && this.message == message
    {
      this.fraction, this.message := fraction, message;
    }

    /** The message stays as the last progress report left it. */
    method SetCompleted()
      modifies this`status, this`fraction
      ensures status == Completed && fraction == 1.0
    {
      status, fraction := Completed, 1.0;
    }

    method SetFailed(error: string)
      modifies this`status
      ensures status == Failed(error)
    {
      status := Failed(error);
    }

    /** Only a running or pending task can be cancelled. */
    method RequestCancel()
      modifies this`status
      ensures status == if Active(old(status)) then Cancelled else old(status)
    {
      if Active(status) {
        status := Cancelled;
      }
    }
  }

  class TaskManager {
    var tasks: seq<TaskHandle>

    constructor ()
      ensures tasks == []
    {
      tasks := [];
    }

    /** For each task, whether it is no longer active. */
    function Terminal(): (r: seq<bool>)
      reads this, tasks
      ensures |r| == |tasks|
    {
      seq(|tasks|, i requires 0 <= i < |tasks| reads this, tasks => !Active(tasks[i].status))
    }

    method ActiveCount() returns (n: nat)
      ensures n == |tasks| - CountTrue(Terminal())
    {
      n := 0;
      for i := 0 to |tasks|
        invariant n == i - CountTrue(Terminal()[..i])
      {
        assert Terminal()[..i + 1] == Terminal()[..i] + [Terminal()[i]];
        CountTrueAppend(Terminal()[..i], [Terminal()[i]]);
        if Active(tasks[i].status) {
          n := n + 1;
        }
      }
      assert Terminal()[..|tasks|] == Terminal();
    }

    method TerminalPositions() returns (completed: seq<nat>)
      ensures completed == Positions(Terminal(), |tasks|)
    {
      completed := [];
      for i := 0 to |tasks|
        invariant completed == Positions(Terminal(), i)
      {
        if !Active(tasks[i].status) {
          completed := completed + [i];
        }
      }
    }

    /** Collect the terminal positions, then remove the surplus ones from the highest down. */
    method PruneHistory()
      modifies this
      ensures tasks == Survivors(old(tasks), old(Terminal()))
    {
      ghost var items, flags := tasks, Terminal();
      var completed := TerminalPositions();
      CountPositions(flags);
      if |completed| > MAX_HISTORY {
        var removeCount := |completed| - MAX_HISTORY;
        tasks := RemoveDescending(tasks, flags, completed, removeCount);
        SurvivorsDrop(items, flags, removeCount);
      } else {
        SurvivorsDrop(items, flags, 0);
      }
    }

    method ClearHistory()
      modifies this
      ensures tasks == Unflagged(old(tasks), old(Terminal()))
    {
      var kept: seq<TaskHandle> := [];
      ghost var flags := Terminal();
      for i := 0 to |tasks|
        invariant tasks == old(tasks) && flags == Terminal()
        invariant kept == Unflagged(tasks[..i], flags[..i])
      {
        UnflaggedStep(tasks, flags, i);
        if Active(tasks[i].status) {
          kept := kept + [tasks[i]];
        }
      }
      assert tasks[..|tasks|] == tasks && flags[..|tasks|] == flags;
      tasks := kept;
    }

    /** Position of the first task with this id, from `i` on. */
    function FirstWith(id: nat, i: nat): (r: Option<nat>)
      reads this
      requires i <= |tasks|
      ensures r.Some? ==> i <= r.value < |tasks| && tasks[r.value].id == id && forall j :: i <= j < r.value ==> tasks[j].id != id
      ensures r.None? ==> forall j :: i <= j < |tasks| ==> tasks[j].id != id
      decreases |tasks| - i
    {
      if i == |tasks| then None else if tasks[i].id == id then Some(i) else FirstWith(id, i + 1)
    }

    /** Cancel the first task with this id, if it is still active; no other task changes. */
    method Cancel(id: nat)
      modifies (set t | t in tasks)`status
      ensures var first := FirstWith(id, 0);
              && (first.Some? ==> tasks[first.value].status == if Active(old(tasks[first.value].status)) then Cancelled else old(tasks[first.value].status))
              && forall t :: t in tasks && (first.Some? ==> t != tasks[first.value]) ==> t.status == old(t.status)
    {
      for i := 0 to |tasks|
        invariant FirstWith(id, i) == FirstWith(id, 0)
        invariant forall t :: t in tasks ==> t.status == old(t.status)
      {
        if tasks[i].id == id {
          tasks[i].RequestCancel();
          return;
        }
      }
    }

    /** Register a task unless 64 are active; `started` is whether its thread could be spawned. */
    method Spawn(id: nat, started: bool) returns (handle: TaskHandle)
      modifies this
      ensures fresh(handle) && handle.id == id
      ensures old(|tasks| - CountTrue(Terminal())) >= 64 ==> tasks == old(tasks) && handle.status.Failed?
      ensures old(|tasks| - CountTrue(Terminal())) < 64 ==>
              && (handle.status == Running <==> started) && (!started ==> handle.status.Failed?)
              && tasks == Survivors(old(tasks) + [handle], old(Terminal()) + [!started])
    {
      var active := ActiveCount();
      if active >= MAX_ACTIVE_TASKS {
        handle := new TaskHandle(id, Failed("Too many active tasks (max 64)"));
        return;
      }
      handle := new TaskHandle(id, Running);
      tasks := tasks + [handle];
      if !started {
        handle.SetFailed("Thread spawn failed");
      }
      assert Terminal() == old(Terminal()) + [!started];
      PruneHistory();
    }
  }

  function RemoveAt<T>(items: seq<T>, p: nat): seq<T>
    requires p < |items|
  {
    items[..p] + items[p + 1..]
  }

  /** Remove the next listed position, counting down. */
  method RemoveOne<T>(ghost items: seq<T>, ghost flags: seq<bool>, position: nat, left: seq<T>, ghost j: nat, ghost count: nat) returns (left': seq<T>)
    requires |items| == |flags| && j < count < |Positions(flags, |flags|)| && position == Positions(flags, |flags|)[j]
    requires left == PartlyDropped(items, flags, j + 1, count - (j + 1))
    ensures left' == PartlyDropped(items, flags, j, count - j)
  {
    RemovalStep(items, flags, j, count - (j + 1));
    left' := RemoveAt(left, position);
  }

  /** Remove the first `count` listed positions, the highest first, so that the others keep their place. */
  method RemoveDescending<T>(items: seq<T>, ghost flags: seq<bool>, completed: seq<nat>, count: nat) returns (left: seq<T>)
    requires |items| == |flags| && completed == Positions(flags, |flags|) && count < |completed|
    ensures left == DropFlagged(items, flags, count)
  {
    left := items;
    NothingDropped(items, flags, count);
    for j := count downto 0
      invariant left == PartlyDropped(items, flags, j, count - j)
    {
      left := RemoveOne(items, flags, completed[j], left, j, count);
    }
    FirstRemoval(items, flags, count);
  }

  /** The unflagged items, in order. */
  function Unflagged<T>(items: seq<T>, flags: seq<bool>): seq<T>
    requires |items| == |flags|
  {
    if items == [] then [] else (if !flags[0] then [items[0]] else []) + Unflagged(items[1..], flags[1..])
  }

  lemma UnflaggedStep<T>(items: seq<T>, flags: seq<bool>, i: nat)
    requires |items| == |flags| && i < |items|
    ensures Unflagged(items[..i + 1], flags[..i + 1]) == Unflagged(items[..i], flags[..i]) + if flags[i] then [] else [items[i]]
  {
    UnflaggedAppend(items[..i], flags[..i], items[i], flags[i]);
    assert items[..i] + [items[i]] == items[..i + 1] && flags[..i] + [flags[i]] == flags[..i + 1];
  }

  lemma {:induction false} UnflaggedAppend<T>(items: seq<T>, flags: seq<bool>, item: T, flag: bool)
    requires |items| == |flags|
    ensures Unflagged(items + [item], flags + [flag]) == Unflagged(items, flags) + if flag then [] else [item]
  {
    if items == [] {
      assert [item][1..] == [] && [flag][1..] == [];
    } else {
      assert (items + [item])[1..] == items[1..] + [item] && (flags + [flag])[1..] == flags[1..] + [flag];
      UnflaggedAppend(items[1..], flags[1..], item, flag);
    }
  }

  lemma CountPositions(flags: seq<bool>)
    ensures |Positions(flags, |flags|)| == CountTrue(flags)
  {
    PositionsCount(flags, |flags|);
    assert flags[..|flags|] == flags;
  }

  /** `items` with `k` flagged members gone from the `j`-th flagged position on. */
  function PartlyDropped<T>(items: seq<T>, flags: seq<bool>, j: nat, k: nat): seq<T>
    requires |items| == |flags| && j < |Positions(flags, |flags|)|
  {
    var p := Positions(flags, |flags|)[j];
    items[..p] + DropFlagged(items[p..], flags[p..], k)
  }

  lemma NothingDropped<T>(items: seq<T>, flags: seq<bool>, j: nat)
    requires |items| == |flags| && j < |Positions(flags, |flags|)|
    ensures PartlyDropped(items, flags, j, 0) == items
  {
  }

  /** The stretch from one flagged position up to the next loses just its head. */
  lemma DropStretch<T>(items: seq<T>, flags: seq<bool>, p: nat, q: nat, k: nat)
    requires |items| == |flags| && p < q <= |items| && flags[p]
    requires forall i :: p < i < q ==> !flags[i]
    ensures DropFlagged(items[p..], flags[p..], k + 1) == items[p + 1..q] + DropFlagged(items[q..], flags[q..], k)
  {
    DropPast(items[p + 1..], flags[p + 1..], q - p - 1, k);
    assert items[p + 1..][..q - p - 1] == items[p + 1..q];
    assert items[p + 1..][q - p - 1..] == items[q..] && flags[p + 1..][q - p - 1..] == flags[q..];
    assert items[p..][1..] == items[p + 1..] && flags[p..][1..] == flags[p + 1..];
  }

  lemma RemoveWithin<T>(items: seq<T>, p: nat, q: nat, rest: seq<T>)
    requires p < q <= |items|
    ensures var before := items[..q] + rest;
            RemoveAt(before, p) == items[..p] + (items[p + 1..q] + rest)
  {
  }

  /** Removing the `j`-th flagged position extends the dropped suffix by one. */
  lemma RemovalStep<T>(items: seq<T>, flags: seq<bool>, j: nat, k: nat)
    requires |items| == |flags| && j + 1 < |Positions(flags, |flags|)|
    ensures var p, before := Positions(flags, |flags|)[j], PartlyDropped(items, flags, j + 1, k);
            p < |before| && RemoveAt(before, p) == PartlyDropped(items, flags, j, k + 1)
  {
    var r := Positions(flags, |flags|);
    assert r[j] < r[j + 1] by { PositionsAscend(flags, |flags|); }
    forall i | r[j] < i < r[j + 1] ensures !flags[i] { PositionsGap(flags, j + 1, i); }
    DropStretch(items, flags, r[j], r[j + 1], k);
    RemoveWithin(items, r[j], r[j + 1], DropFlagged(items[r[j + 1]..], flags[r[j + 1]..], k));
  }

  lemma FirstRemoval<T>(items: seq<T>, flags: seq<bool>, k: nat)
    requires |items| == |flags| && |Positions(flags, |flags|)| > 0
    ensures PartlyDropped(items, flags, 0, k) == DropFlagged(items, flags, k)
  {
    var p := Positions(flags, |flags|)[0];
    forall i | 0 <= i < p ensures !flags[i] { PositionsGap(flags, 0, i); }
    DropPast(items, flags, p, k);
  }
}
