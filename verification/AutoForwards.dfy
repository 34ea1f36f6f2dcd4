/**
 The imperative side of automatic port forwarding: the nested table and the chain
 as mutable state, updated loop by loop, proved against `PortForward.Do`.
 */
module AutoForwards {
  import opened Wrappers
  import opened PortForward

  type Table = map<string, map<Port, Port>>

  function Own(t: Table, vm: string): map<Port, Port> {
    if vm in t then t[vm] else map[]
  }

  ghost function Flat(t: Table): Entries {
    map v, g | v in t && g in t[v] :: (v, g) := t[v][g]
  }

  lemma FlatAt(t: Table, k: Key)
    ensures k in Flat(t) <==> k.1 in Own(t, k.0)
    ensures k in Flat(t) ==> Flat(t)[k] == Own(t, k.0)[k.1]
  {
  }

  lemma FlatTracked(t: Table, vm: string)
    ensures Tracked(Flat(t), vm) == Own(t, vm).Keys
  {
    forall g | g in Own(t, vm) ensures g in Tracked(Flat(t), vm) { FlatAt(t, (vm, g)); }
  }

  /** Forget one forward; a VM without a table has nothing to forget. */
  function DropPort(t: Table, vm: string, g: Port): Table {
    if vm in t then t[vm := t[vm] - {g}] else t
  }

  lemma FlatDrop(t: Table, vm: string, g: Port)
    ensures Flat(DropPort(t, vm, g)) == Flat(t) - {(vm, g)}
  {
  }

  lemma SameEntries(e: Entries, f: Entries)
    requires forall k: Key :: (k in e <==> k in f) && (k in e ==> e[k] == f[k])
    ensures e == f
  {
  }

  lemma FlatInsert(t: Table, vm: string, g: Port, h: Port)
    ensures Flat(t[vm := Own(t, vm)[g := h]]) == Flat(t)[(vm, g) := h]
  {
    var t' := t[vm := Own(t, vm)[g := h]];
    var f, f' := Flat(t)[(vm, g) := h], Flat(t');
    forall k: Key
      ensures (k in f <==> k in f') && (k in f ==> f[k] == f'[k])
    {
      FlatAt(t, k);
      FlatAt(t', k);
    }
    SameEntries(f, f');
  }

  lemma OthersAt(e: Entries, vm: string, k: Key)
    ensures k in Others(e, vm) <==> k in e && k.0 != vm
    ensures k in Others(e, vm) ==> Others(e, vm)[k] == e[k]
  {
  }

  lemma FlatValues(t: Table)
    ensures Flat(t).Values == set v, g | v in t && g in t[v] :: t[v][g]
  {
    var f := Flat(t);
    forall v, g | v in t && g in t[v] ensures t[v][g] in f.Values {
      assert (v, g) in f && f[(v, g)] == t[v][g];
    }
  }

  // ------------------------------------------------------------------ reports

  ghost predicate NoRepeats(s: seq<Port>) {
    forall i, j :: 0 <= i < j < |s| ==> s[i] != s[j]
  }

  ghost predicate Ascending(s: seq<Port>) {
    forall i, j :: 0 <= i < j < |s| ==> s[i] < s[j]
  }

  /** `s` lists each port of `ports` once, in ascending order. */
  ghost predicate Lists(s: seq<Port>, ports: set<Port>) {
    Ascending(s) && forall p :: p in s <==> p in ports
  }

  function InsertPort(s: seq<Port>, p: Port): (r: seq<Port>)
    requires Ascending(s) && p !in s
    ensures Ascending(r) && forall q :: q in r <==> q in s || q == p
  {
    if s == [] then [p]
    else if p < s[0] then [p] + s
    else
      var rest := InsertPort(s[1..], p);
      assert forall q :: q in s <==> q == s[0] || q in s[1..];
      assert forall i :: 0 <= i < |rest| ==> rest[i] in s[1..] || rest[i] == p;
      [s[0]] + rest
  }

  function SortPorts(s: seq<Port>): (r: seq<Port>)
    requires NoRepeats(s)
    ensures Ascending(r) && forall q :: q in r <==> q in s
  {
    if s == [] then []
    else
      assert forall q :: q in s <==> q == s[0] || q in s[1..];
      InsertPort(SortPorts(s[1..]), s[0])
  }

  function Ports(attempts: seq<Attempt>): seq<Port> {
    seq(|attempts|, i requires 0 <= i < |attempts| => attempts[i].guestPort)
  }

  lemma PortsVisited(attempts: seq<Attempt>, ports: set<Port>)
    requires Enumerates(attempts, ports)
    ensures NoRepeats(Ports(attempts)) && forall p :: p in Ports(attempts) <==> p in ports
  {
    var ps := Ports(attempts);
    forall p | p in ports ensures p in ps {
      var i :| 0 <= i < |attempts| && attempts[i].guestPort == p;
      assert ps[i] == p;
    }
  }

  /** The guest ports a run of additions records, in order. */
  function AddedPorts(st: State, vm: string, ip: string, attempts: seq<Attempt>): seq<Port> {
    if attempts == [] then []
    else
      var n := |attempts| - 1;
      var before := AddAll(st, vm, ip, attempts[..n]);
      AddedPorts(st, vm, ip, attempts[..n]) +
      if PickHostPort(attempts[n].guestPort, before.entries.Values).Some? && attempts[n].ok && attempts[n].guestPort > 0
      then [attempts[n].guestPort] else []
  }

  lemma {:induction false} AddedPortsAreNew(st: State, vm: string, ip: string, attempts: seq<Attempt>)
    requires Distinct(attempts) && forall a :: a in attempts ==> (vm, a.guestPort) !in st.entries
    ensures var ps, e := AddedPorts(st, vm, ip, attempts), AddAll(st, vm, ip, attempts).entries;
            NoRepeats(ps) && forall p :: p in ps <==> (vm, p) in e && (vm, p) !in st.entries
  {
    if attempts == [] {
    } else {
      FrontOf(attempts);
      AddedPortsAreNew(st, vm, ip, attempts[..|attempts| - 1]);
      NotYetAdded(st, vm, ip, attempts);
      assert attempts[|attempts| - 1] in attempts;
    }
  }

  class AutoForwardState {
    var table: Table
    var chain: seq<Rule>

    ghost function Abs(): State
      reads this
    {
      State(Flat(table), chain)
    }

    constructor ()
      ensures Abs() == EMPTY
    {
      table, chain := map[], [];
    }

    /** `iptables -A`, with the port check that precedes it. */
    method ApplyPortForward(vm: string, ip: string, hostPort: Port, guestPort: Port, ok: bool) returns (applied: bool)
      modifies this`chain
      ensures applied <==> ok && hostPort != 0 && guestPort != 0
      ensures chain == old(chain) + if applied then [Rule(vm, ip, hostPort, guestPort)] else []
    {
      applied := hostPort != 0 && guestPort != 0 && ok;
      if applied {
        chain := chain + [Rule(vm, ip, hostPort, guestPort)];
      }
    }

    /** `iptables -D`; a missing rule is not an error. */
    method RemovePortForward(vm: string, ip: string, hostPort: Port, guestPort: Port, ok: bool)
      modifies this`chain
      ensures chain == if ok then DropRule(old(chain), Rule(vm, ip, hostPort, guestPort)) else old(chain)
    {
      if ok {
        chain := DropRule(chain, Rule(vm, ip, hostPort, guestPort));
      }
    }

    /** The removal loop of a sync: rule first, then the table entry. */
    method ApplyRemovals(vm: string, ip: string, removals: seq<Attempt>, ghost live: set<Port>) returns (removed: seq<Port>)
      requires Enumerates(removals, Tracked(Abs().entries, vm) - live)
      modifies this
      ensures Abs() == RemoveAll(old(Abs()), vm, Some(ip), removals)
      ensures removed == Ports(removals)
    {
      ghost var st := Abs();
      var tracked := Own(table, vm);
      removed := [];
      for i := 0 to |removals|
        invariant Abs() == RemoveAll(st, vm, Some(ip), removals[..i])
        invariant removed == Ports(removals[..i])
      {
        var a := removals[i];
        RemovalRefines(st, old(table), table, chain, vm, ip, removals, live, i);
        RemovePortForward(vm, ip, tracked[a.guestPort], a.guestPort, a.ok);
        removed := removed + [a.guestPort];
        table := DropPort(table, vm, a.guestPort);
      }
      assert removals[..|removals|] == removals;
    }

    /** The addition loop: the used ports are read again before each pick. */
    method ApplyAdditions(vm: string, ip: string, additions: seq<Attempt>) returns (added: seq<Port>)
      modifies this
      ensures Abs() == AddAll(old(Abs()), vm, ip, additions)
      ensures added == AddedPorts(old(Abs()), vm, ip, additions)
    {
      ghost var st := Abs();
      added := [];
      for i := 0 to |additions|
        invariant Abs() == AddAll(st, vm, ip, additions[..i])
        invariant added == AddedPorts(st, vm, ip, additions[..i])
      {
        var a := additions[i];
        assert additions[..i + 1][..i] == additions[..i];
        FlatValues(table);
        var used := set v, g | v in table && g in table[v] :: table[v][g];
        var hostPort := PickHostPort(a.guestPort, used);
        if hostPort.Some? {
          var applied := ApplyPortForward(vm, ip, hostPort.value, a.guestPort, a.ok);
          if applied {
            FlatInsert(table, vm, a.guestPort, hostPort.value);
            table := table[vm := Own(table, vm)[a.guestPort := hostPort.value]];
            added := added + [a.guestPort];
          }
        }
      }
      assert additions[..|additions|] == additions;
    }

    /** Ports tracked before the call and still listening, in any order. */
    method KeptPorts(tracked: map<Port, Port>, live: set<Port>) returns (kept: seq<Port>)
      ensures NoRepeats(kept) && forall p :: p in kept <==> p in tracked && p in live
    {
      kept := [];
      var rest := tracked.Keys;
      while rest != {}
        invariant rest <= tracked.Keys && NoRepeats(kept)
        invariant forall p :: p in kept <==> p in tracked.Keys - rest && p in live
        decreases rest
      {
        var p :| p in rest;
        if p in live {
          kept := kept + [p];
        }
        rest := rest - {p};
      }
    }

    /** Reconcile the forwards of one VM with its live listeners. */
    method DiffAndApply(call: Call) returns (report: Report)
      requires call.Sync? && ValidCall(Abs().entries, call)
      modifies this
      ensures Abs() == Do(old(Abs()), call)
      ensures Reports(old(Abs()).entries, Abs().entries, call, report)
    {
      var vm := call.vm;
      var tracked := Own(table, vm);
      FlatTracked(table, vm);
      ghost var st := Abs();
      var removed := ApplyRemovals(vm, call.ip, call.removals, call.live);
      var added := ApplyAdditions(vm, call.ip, call.additions);
      var kept := KeptPorts(tracked, call.live);
      ReportsHold(st, call, removed, added, kept);
      report := Report(SortPorts(added), SortPorts(removed), SortPorts(kept));
    }

    /** Drop every forward of a VM; the table entry goes first, the rules follow best-effort. */
    method ClearAutoForwards(call: Call) returns (report: Report)
      requires call.Clear? && ValidCall(Abs().entries, call)
      modifies this
      ensures Abs() == Do(old(Abs()), call)
      ensures Tracked(Abs().entries, call.vm) == {}
      ensures report.added == report.kept == []
      ensures Lists(report.removed, Tracked(old(Abs()).entries, call.vm))
    {
      var vm := call.vm;
      ghost var st := Abs();
      var tracked := Own(table, vm);
      var removed: seq<Port> := [];
      FlatRemoveVm(table, vm);
      table := table - {vm};
      ClearLeavesOthers(st, call);
      for i := 0 to |call.removals|
        invariant Flat(table) == Others(st.entries, vm)
        invariant chain == RemoveAll(st, vm, call.resolved, call.removals[..i]).chain
        invariant removed == Ports(call.removals[..i])
      {
        var a := call.removals[i];
        RemovalStep(st, old(table), vm, call.resolved, call.removals, {}, i);
        if call.resolved.Some? {
          RemovePortForward(vm, call.resolved.value, tracked[a.guestPort], a.guestPort, a.ok);
        }
        removed := removed + [a.guestPort];
      }
      assert call.removals[..|call.removals|] == call.removals;
      PortsVisited(call.removals, Tracked(st.entries, vm));
      report := Report([], SortPorts(removed), []);
    }
  }

  /** What a sync reports: ports gone, ports still forwarded, ports gained. */
  ghost predicate Reports(was: Entries, now: Entries, call: Call, report: Report)
    requires call.Sync?
  {
    var before, after := Tracked(was, call.vm), Tracked(now, call.vm);
    && Lists(report.removed, before - call.live)
    && Lists(report.kept, before * call.live)
    && Lists(report.added, after - before)
  }

  lemma ReportsHold(st: State, call: Call, removed: seq<Port>, added: seq<Port>, kept: seq<Port>)
    requires call.Sync? && ValidCall(st.entries, call)
    requires removed == Ports(call.removals)
    requires added == AddedPorts(RemoveAll(st, call.vm, Some(call.ip), call.removals), call.vm, call.ip, call.additions)
    requires NoRepeats(kept) && forall p :: p in kept <==> p in Tracked(st.entries, call.vm) && p in call.live
    ensures NoRepeats(removed) && NoRepeats(added)
    ensures Reports(st.entries, Do(st, call).entries, call, Report(SortPorts(added), SortPorts(removed), SortPorts(kept)))
  {
    var vm := call.vm;
    var mid := RemoveAll(st, vm, Some(call.ip), call.removals);
    PortsVisited(call.removals, Tracked(st.entries, vm) - call.live);
    RemoveAllEntries(st, vm, Some(call.ip), call.removals);
    forall a | a in call.additions ensures (vm, a.guestPort) !in st.entries {
      assert a.guestPort in call.live - Tracked(st.entries, vm);
    }
    AddedPortsAreNew(mid, vm, call.ip, call.additions);
    SyncFrame(st, call);
    forall p ensures p in added <==> p in Tracked(Do(st, call).entries, vm) - Tracked(st.entries, vm) {
      var k := (vm, p);
      if k in st.entries {
        RemovedExactly(st.entries, call.removals, vm, call.live, k);
      }
    }
  }

  /** `e` holds the entries of `t`. */
  ghost predicate Flattens(e: Entries, t: Table) {
    forall k: Key :: (k in e <==> k.1 in Own(t, k.0)) && (k in e ==> e[k] == Own(t, k.0)[k.1])
  }

  lemma FlatFlattens(t: Table)
    ensures Flattens(Flat(t), t)
  {
    forall k: Key ensures (k in Flat(t) <==> k.1 in Own(t, k.0)) && (k in Flat(t) ==> Flat(t)[k] == Own(t, k.0)[k.1]) {
      FlatAt(t, k);
    }
  }

  lemma WithoutVm(e: Entries, f: Entries, t: Table, vm: string)
    requires Flattens(e, t) && Flattens(f, t - {vm})
    ensures f == Others(e, vm)
  {
    forall k: Key ensures (k in f <==> k in Others(e, vm)) && (k in f ==> f[k] == Others(e, vm)[k]) {
      OthersAt(e, vm, k);
    }
    SameEntries(f, Others(e, vm));
  }

  lemma FlatRemoveVm(t: Table, vm: string)
    ensures Flat(t - {vm}) == Others(Flat(t), vm)
  {
    FlatFlattens(t);
    FlatFlattens(t - {vm});
    WithoutVm(Flat(t), Flat(t - {vm}), t, vm);
  }

  lemma ClearLeavesOthers(st: State, call: Call)
    requires call.Clear? && ValidCall(st.entries, call)
    ensures Do(st, call).entries == Others(st.entries, call.vm)
    ensures Tracked(Do(st, call).entries, call.vm) == {}
  {
    RemoveAllEntries(st, call.vm, call.resolved, call.removals);
    forall k | k in st.entries && k.0 == call.vm
      ensures exists a :: a in call.removals && a.guestPort == k.1
    {
      assert Tracked(st.entries, call.vm) - {} == Tracked(st.entries, call.vm);
      RemovedExactly(st.entries, call.removals, call.vm, {}, k);
    }
  }

  /**
   One iteration of a removal loop: the port is still tracked with the host port
   read at the start (table `t0`).
   */
  lemma RemovalStep(st: State, t0: Table, vm: string, ip: Option<string>, removals: seq<Attempt>, live: set<Port>, i: nat)
    requires st.entries == Flat(t0) && i < |removals|
    requires Enumerates(removals, Tracked(st.entries, vm) - live)
    ensures var gp, before := removals[i].guestPort, RemoveAll(st, vm, ip, removals[..i]);
            && gp in Own(t0, vm) && Ports(removals[..i + 1]) == Ports(removals[..i]) + [gp]
            && RemoveAll(st, vm, ip, removals[..i + 1]) ==
               State(before.entries - {(vm, gp)},
                     if removals[i].ok && ip.Some? then DropRule(before.chain, Rule(vm, ip.value, Own(t0, vm)[gp], gp)) else before.chain)
  {
    var gp := removals[i].guestPort;
    assert gp in Tracked(st.entries, vm);
    FlatAt(t0, (vm, gp));
    StillTracked(st, vm, ip, removals, i);
    RemoveAllSnoc(st, vm, ip, removals, i);
    PortsSnoc(removals, i);
  }

  lemma StillTracked(st: State, vm: string, ip: Option<string>, removals: seq<Attempt>, i: nat)
    requires i < |removals| && (vm, removals[i].guestPort) in st.entries
    requires forall j :: 0 <= j < i ==> removals[j].guestPort != removals[i].guestPort
    ensures var k, before := (vm, removals[i].guestPort), RemoveAll(st, vm, ip, removals[..i]).entries;
            k in before && before[k] == st.entries[k]
  {
    RemoveAllEntries(st, vm, ip, removals[..i]);
  }

  lemma RemoveAllSnoc(st: State, vm: string, ip: Option<string>, removals: seq<Attempt>, i: nat)
    requires i < |removals|
    ensures RemoveAll(st, vm, ip, removals[..i + 1]) == RemoveOne(RemoveAll(st, vm, ip, removals[..i]), vm, ip, removals[i])
  {
    assert removals[..i + 1][..i] == removals[..i];
  }

  lemma PortsSnoc(attempts: seq<Attempt>, i: nat)
    requires i < |attempts|
    ensures Ports(attempts[..i + 1]) == Ports(attempts[..i]) + [attempts[i].guestPort]
  {
  }

  /** One iteration of a sync's removal loop, on the nested table and the chain. */
  lemma RemovalRefines(st: State, t0: Table, t: Table, chain: seq<Rule>, vm: string, ip: string, removals: seq<Attempt>, live: set<Port>, i: nat)
    requires st.entries == Flat(t0) && i < |removals|
    requires Enumerates(removals, Tracked(st.entries, vm) - live)
    requires State(Flat(t), chain) == RemoveAll(st, vm, Some(ip), removals[..i])
    ensures var a := removals[i];
            && a.guestPort in Own(t0, vm) && Ports(removals[..i + 1]) == Ports(removals[..i]) + [a.guestPort]
            && State(Flat(DropPort(t, vm, a.guestPort)),
                     if a.ok then DropRule(chain, Rule(vm, ip, Own(t0, vm)[a.guestPort], a.guestPort)) else chain)
               == RemoveAll(st, vm, Some(ip), removals[..i + 1])
  {
    RemovalStep(st, t0, vm, Some(ip), removals, live, i);
    FlatDrop(t, vm, removals[i].guestPort);
  }
}
