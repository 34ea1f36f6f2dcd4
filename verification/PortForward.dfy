/**
 Automatic guest port forwarding: a table `vm -> (guest port -> host port)` is
 reconciled against the live listeners of one VM at a time, host ports are drawn
 from a finite pool, and every entry is mirrored by a rule of the iptables chain.

 The order in which a hash map is iterated and the outcome of each iptables
 command are parameters: a call carries one `Attempt` per iteration.
 */
module PortForward {
  import opened Collections
  import opened Wrappers

  type Port = p: nat | p < 0x1_0000
  type Key = (string, Port)
  type Entries = map<Key, Port>

  datatype Rule = Rule(vm: string, ip: string, hostPort: Port, guestPort: Port)

  /** The table, flattened, and the PREROUTING chain. */
  datatype State = State(entries: Entries, chain: seq<Rule>)

  /** One iteration over a guest port, and whether its iptables command succeeds. */
  datatype Attempt = Attempt(guestPort: Port, ok: bool)

  datatype Call =
    | Sync(vm: string, ip: string, live: set<Port>, removals: seq<Attempt>, additions: seq<Attempt>)
    | Clear(vm: string, resolved: Option<string>, removals: seq<Attempt>)

  datatype Report = Report(added: seq<Port>, removed: seq<Port>, kept: seq<Port>)

  const POOL_START: Port := 30_000
  const POOL_END: Port := 39_999

  const EMPTY := State(map[], [])

  // ---------------------------------------------------------------- allocation

  function FirstFree(p: Port, used: set<Port>): (r: Option<Port>)
    requires p <= POOL_END + 1
    ensures r.Some? ==> p <= r.value <= POOL_END && r.value !in used
    ensures r.Some? ==> forall q: Port :: p <= q < r.value ==> q in used
    ensures r.None? ==> forall q: Port :: p <= q <= POOL_END ==> q in used
    decreases POOL_END + 1 - p
  {
    if p > POOL_END then None
    else if p !in used then Some(p)
    else FirstFree(p + 1, used)
  }

  /** Prefer the guest port itself, then the lowest free port of the pool. */
  function PickHostPort(guestPort: Port, used: set<Port>): (r: Option<Port>)
    ensures r.Some? ==> r.value !in used && r.value > 0
    ensures r.Some? ==> r.value == guestPort || 30_000 <= r.value <= 39_999
    ensures guestPort > 0 && guestPort !in used ==> r == Some(guestPort)
    ensures r.None? ==> forall q: Port :: 30_000 <= q <= 39_999 ==> q in used
    ensures r.Some? && r.value != guestPort ==> forall q: Port :: 30_000 <= q < r.value ==> q in used
  {
    if guestPort !in used && guestPort > 0 then Some(guestPort)
    else FirstFree(POOL_START, used)
  }

  // ------------------------------------------------------------- specification

  /** `iptables -D`: delete the first rule equal to `r`. */
  function DropRule(chain: seq<Rule>, r: Rule): (rest: seq<Rule>)
    ensures multiset(rest) == multiset(chain) - multiset{r}
  {
    if chain == [] then []
    else if chain[0] == r then
      assert chain == [chain[0]] + chain[1..];
      chain[1..]
    else
      assert chain == [chain[0]] + chain[1..];
      [chain[0]] + DropRule(chain[1..], r)
  }

  function Tracked(e: Entries, vm: string): set<Port> {
    set k | k in e && k.0 == vm :: k.1
  }

  function RemoveOne(st: State, vm: string, ip: Option<string>, a: Attempt): State {
    var k := (vm, a.guestPort);
    if k !in st.entries then st
    else
      State(st.entries - {k},
            if a.ok && ip.Some?
            then DropRule(st.chain, Rule(vm, ip.value, st.entries[k], a.guestPort))
            else st.chain)
  }

  function RemoveAll(st: State, vm: string, ip: Option<string>, attempts: seq<Attempt>): State {
    if attempts == [] then st
    else
      var n := |attempts| - 1;
      RemoveOne(RemoveAll(st, vm, ip, attempts[..n]), vm, ip, attempts[n])
  }

  /** Guest port 0 is refused by the rule validation, whatever the command would do. */
  function AddOne(st: State, vm: string, ip: string, a: Attempt): State {
    match PickHostPort(a.guestPort, st.entries.Values)
    case None => st
    case Some(hp) =>
      if a.ok && a.guestPort > 0 then
        State(st.entries[(vm, a.guestPort) := hp], st.chain + [Rule(vm, ip, hp, a.guestPort)])
      else st
  }

  function AddAll(st: State, vm: string, ip: string, attempts: seq<Attempt>): State {
    if attempts == [] then st
    else
      var n := |attempts| - 1;
      AddOne(AddAll(st, vm, ip, attempts[..n]), vm, ip, attempts[n])
  }

  function Do(st: State, call: Call): State {
    match call
    case Sync(vm, ip, live, removals, additions) =>
      AddAll(RemoveAll(st, vm, Some(ip), removals), vm, ip, additions)
    case Clear(vm, ip, removals) =>
      RemoveAll(st, vm, ip, removals)
  }

  ghost predicate Distinct(attempts: seq<Attempt>) {
    forall i, j :: 0 <= i < j < |attempts| ==> attempts[i].guestPort != attempts[j].guestPort
  }

  ghost predicate Enumerates(attempts: seq<Attempt>, ports: set<Port>) {
    && Distinct(attempts)
    && (forall i :: 0 <= i < |attempts| ==> attempts[i].guestPort in ports)
    && (forall p :: p in ports ==> exists i :: 0 <= i < |attempts| && attempts[i].guestPort == p)
  }

  /** The attempts of a call visit exactly the ports its loops range over. */
  ghost predicate ValidCall(e: Entries, call: Call) {
    match call
    case Sync(vm, _, live, removals, additions) =>
      && Enumerates(removals, Tracked(e, vm) - live)
      && Enumerates(additions, live - Tracked(e, vm))
    case Clear(vm, _, removals) => Enumerates(removals, Tracked(e, vm))
  }

  function Run(calls: seq<Call>): State {
    if calls == [] then EMPTY else Do(Run(calls[..|calls| - 1]), calls[|calls| - 1])
  }

  ghost predicate ValidRun(calls: seq<Call>) {
    calls == [] ||
    (ValidRun(calls[..|calls| - 1]) && ValidCall(Run(calls[..|calls| - 1]).entries, calls[|calls| - 1]))
  }

  // --------------------------------------------------------- allocation safety

  ghost predicate Allocated(e: Entries) {
    && (forall j, k :: j in e && k in e && e[j] == e[k] ==> j == k)
    && (forall k :: k in e ==> e[k] > 0 && (e[k] == k.1 || 30_000 <= e[k] <= 39_999))
  }

  lemma {:induction false} RemoveAllAllocated(st: State, vm: string, ip: Option<string>, attempts: seq<Attempt>)
    requires Allocated(st.entries)
    ensures Allocated(RemoveAll(st, vm, ip, attempts).entries)
  {
    if attempts == [] {
    } else {
      RemoveAllAllocated(st, vm, ip, attempts[..|attempts| - 1]);
    }
  }

  lemma {:induction false} AddAllAllocated(st: State, vm: string, ip: string, attempts: seq<Attempt>)
    requires Allocated(st.entries)
    ensures Allocated(AddAll(st, vm, ip, attempts).entries)
  {
    if attempts == [] {
    } else {
      AddAllAllocated(st, vm, ip, attempts[..|attempts| - 1]);
      var before := AddAll(st, vm, ip, attempts[..|attempts| - 1]);
      assert forall k :: k in before.entries ==> before.entries[k] in before.entries.Values;
    }
  }

  /**
   Over every run of completed calls, with any failures, no two entries share a
   host port and each host port equals its guest port or comes from the pool.
   */
  lemma {:induction false} RunAllocated(calls: seq<Call>)
    ensures Allocated(Run(calls).entries)
  {
    if calls == [] {
    } else {
      var before := Run(calls[..|calls| - 1]);
      RunAllocated(calls[..|calls| - 1]);
      match calls[|calls| - 1]
      case Sync(vm, ip, live, removals, additions) =>
        RemoveAllAllocated(before, vm, Some(ip), removals);
        AddAllAllocated(RemoveAll(before, vm, Some(ip), removals), vm, ip, additions);
      case Clear(vm, ip, removals) =>
        RemoveAllAllocated(before, vm, ip, removals);
    }
  }

  // ------------------------------------------------------ effect on the entries

  lemma {:induction false} RemoveAllEntries(st: State, vm: string, ip: Option<string>, attempts: seq<Attempt>)
    ensures RemoveAll(st, vm, ip, attempts).entries
         == map k | k in st.entries && !(k.0 == vm && exists a :: a in attempts && a.guestPort == k.1) :: st.entries[k]
  {
    if attempts == [] {
    } else {
      var n := |attempts| - 1;
      RemoveAllEntries(st, vm, ip, attempts[..n]);
      assert forall a :: a in attempts <==> a in attempts[..n] || a == attempts[n];
    }
  }

  lemma {:induction false} AddAllEntries(st: State, vm: string, ip: string, attempts: seq<Attempt>)
    requires Distinct(attempts)
    requires forall a :: a in attempts ==> (vm, a.guestPort) !in st.entries
    ensures var e := AddAll(st, vm, ip, attempts).entries;
            && (forall k :: k in st.entries ==> k in e && e[k] == st.entries[k])
            && (forall k :: k in e && k !in st.entries ==> k.0 == vm && k.1 > 0 && Attempt(k.1, true) in attempts)
  {
    if attempts == [] {
    } else {
      var n := |attempts| - 1;
      var front := attempts[..n];
      FrontOf(attempts);
      AddAllEntries(st, vm, ip, front);
      NotYetAdded(st, vm, ip, attempts);
      var e := AddOne(AddAll(st, vm, ip, front), vm, ip, attempts[n]).entries;
      forall k | k in e && k !in st.entries
        ensures k.0 == vm && k.1 > 0 && Attempt(k.1, true) in attempts
      {
        if k != (vm, attempts[n].guestPort) {
          assert Attempt(k.1, true) in front;
        } else {
          assert attempts[n].ok && attempts[n] == Attempt(k.1, true);
        }
      }
    }
  }

  lemma FrontOf(attempts: seq<Attempt>)
    requires attempts != [] && Distinct(attempts)
    ensures var n := |attempts| - 1;
            && Distinct(attempts[..n])
            && (forall a :: a in attempts <==> a in attempts[..n] || a == attempts[n])
            && (forall a :: a in attempts[..n] ==> a.guestPort != attempts[n].guestPort)
  {
  }

  /** The last port of a list is untracked until its own turn comes. */
  lemma {:induction false} NotYetAdded(st: State, vm: string, ip: string, attempts: seq<Attempt>)
    requires attempts != [] && Distinct(attempts)
    requires forall a :: a in attempts ==> (vm, a.guestPort) !in st.entries
    ensures (vm, attempts[|attempts| - 1].guestPort) !in AddAll(st, vm, ip, attempts[..|attempts| - 1]).entries
  {
    var n := |attempts| - 1;
    FrontOf(attempts);
    assert attempts[n] in attempts;
    AddAllKeys(st, vm, ip, attempts[..n], (vm, attempts[n].guestPort));
  }

  lemma {:induction false} AddAllKeys(st: State, vm: string, ip: string, attempts: seq<Attempt>, k: Key)
    requires k !in st.entries && forall a :: a in attempts ==> (vm, a.guestPort) != k
    ensures k !in AddAll(st, vm, ip, attempts).entries
  {
    if attempts == [] {
    } else {
      var n := |attempts| - 1;
      assert attempts[n] in attempts;
      AddAllKeys(st, vm, ip, attempts[..n], k);
    }
  }

  lemma RemovedExactly(e: Entries, removals: seq<Attempt>, vm: string, live: set<Port>, k: Key)
    requires Enumerates(removals, Tracked(e, vm) - live) && k in e && k.0 == vm
    ensures (exists a :: a in removals && a.guestPort == k.1) <==> k.1 !in live
  {
    assert k.1 in Tracked(e, vm);
    if k.1 !in live {
      assert k.1 in Tracked(e, vm) - live;
      var i :| 0 <= i < |removals| && removals[i].guestPort == k.1;
      assert removals[i] in removals;
    }
  }

  /**
   One sync, whatever fails: entries of other VMs are untouched, surviving ports
   keep their host port, and nothing outside the live set stays tracked.
   */
  lemma SyncFrame(st: State, call: Call)
    requires call.Sync? && ValidCall(st.entries, call)
    ensures var e, e' := st.entries, Do(st, call).entries;
            && (forall k: Key :: k.0 != call.vm ==> (k in e <==> k in e') && (k in e ==> e'[k] == e[k]))
            && (forall k :: k in e && k.0 == call.vm ==> (k in e' <==> k.1 in call.live))
            && (forall k :: k in e && k in e' ==> e'[k] == e[k])
            && Tracked(e', call.vm) <= call.live
  {
    var mid := RemoveAll(st, call.vm, Some(call.ip), call.removals);
    RemoveAllEntries(st, call.vm, Some(call.ip), call.removals);
    AddAllEntries(mid, call.vm, call.ip, call.additions);
    forall k | k in st.entries && k.0 == call.vm
      ensures k in mid.entries <==> k.1 in call.live
    {
      RemovedExactly(st.entries, call.removals, call.vm, call.live, k);
    }
  }

  // ---------------------------------------------------------------- pigeonhole

  function Others(e: Entries, vm: string): Entries {
    map k | k in e && k.0 != vm :: e[k]
  }

  function Pool(lo: Port, n: nat): (r: set<Port>)
    requires lo + n <= 0x1_0000
    ensures |r| == n && forall q: Port :: q in r <==> lo <= q < lo + n
  {
    if n == 0 then {} else Pool(lo, n - 1) + {lo + n - 1}
  }

  /** Fewer used ports than the pool holds leave a port to pick. */
  lemma PickSucceeds(guestPort: Port, used: set<Port>)
    requires |used| < 10_000
    ensures PickHostPort(guestPort, used).Some?
  {
    if PickHostPort(guestPort, used).None? {
      SubsetSize(Pool(30_000, 10_000), used);
    }
  }

  lemma EntriesSplit(e: Entries, vm: string)
    ensures |e| == |Others(e, vm)| + |Tracked(e, vm)|
  {
    var own := set k | k in e && k.0 == vm;
    var others := set k | k in e && k.0 != vm;
    assert e.Keys == own + others;
    assert Others(e, vm).Keys == others;
    ImageSize(own, vm);
    assert Tracked(e, vm) == set k | k in own :: k.1;
  }

  lemma {:induction false} ImageSize(own: set<Key>, vm: string)
    requires forall k :: k in own ==> k.0 == vm
    ensures |set k | k in own :: k.1| == |own|
    decreases |own|
  {
    if own != {} {
      var k :| k in own;
      ImageSize(own - {k}, vm);
      var image := set j | j in own - {k} :: j.1;
      assert (set j | j in own :: j.1) == image + {k.1};
      assert forall j :: j in own - {k} ==> j.1 != k.1;
    }
  }

  /** With room in the pool, the next attempt is recorded. */
  lemma AddOneFits(st: State, vm: string, ip: string, a: Attempt, live: set<Port>)
    requires a.ok && a.guestPort > 0 && a.guestPort in live
    requires (vm, a.guestPort) !in st.entries && Tracked(st.entries, vm) <= live
    requires |Others(st.entries, vm)| + |live| <= 10_000
    ensures (vm, a.guestPort) in AddOne(st, vm, ip, a).entries
  {
    var own := Tracked(st.entries, vm);
    assert own <= live - {a.guestPort};
    SubsetSize(own, live - {a.guestPort});
    EntriesSplit(st.entries, vm);
    PickSucceeds(a.guestPort, st.entries.Values);
  }

  lemma {:induction false} AddAllSucceeds(st: State, vm: string, ip: string, attempts: seq<Attempt>, live: set<Port>)
    requires Distinct(attempts)
    requires forall a :: a in attempts ==> a.ok && a.guestPort > 0 && a.guestPort in live
    requires forall a :: a in attempts ==> (vm, a.guestPort) !in st.entries
    requires Tracked(st.entries, vm) <= live
    requires |Others(st.entries, vm)| + |live| <= 10_000
    ensures var e := AddAll(st, vm, ip, attempts).entries;
            && (forall a :: a in attempts ==> (vm, a.guestPort) in e)
            && Tracked(e, vm) <= live && Others(e, vm) == Others(st.entries, vm)
  {
    if attempts == [] {
    } else {
      var n := |attempts| - 1;
      FrontOf(attempts);
      AddAllSucceeds(st, vm, ip, attempts[..n], live);
      NotYetAdded(st, vm, ip, attempts);
      assert attempts[n] in attempts;
      AddOneFits(AddAll(st, vm, ip, attempts[..n]), vm, ip, attempts[n], live);
    }
  }

  ghost predicate AllOk(attempts: seq<Attempt>) {
    forall a :: a in attempts ==> a.ok
  }

  /**
   While the entries of other VMs and the live set together fit the pool and the
   apply commands succeed, one sync makes the tracked ports equal the live set.
   */
  lemma SyncReachesLive(st: State, call: Call)
    requires call.Sync? && ValidCall(st.entries, call)
    requires AllOk(call.additions) && 0 !in call.live
    requires |Others(st.entries, call.vm)| + |call.live| <= 10_000
    ensures Tracked(Do(st, call).entries, call.vm) == call.live
  {
    var vm, live := call.vm, call.live;
    var mid := RemoveAll(st, vm, Some(call.ip), call.removals);
    RemoveAllEntries(st, vm, Some(call.ip), call.removals);
    forall k | k in st.entries && k.0 == vm
      ensures k in mid.entries <==> k.1 in live
    {
      RemovedExactly(st.entries, call.removals, vm, live, k);
    }
    assert Others(mid.entries, vm) == Others(st.entries, vm);
    AddAllSucceeds(mid, vm, call.ip, call.additions, live);
    AddAllEntries(mid, vm, call.ip, call.additions);
    forall p | p in live
      ensures (vm, p) in Do(st, call).entries
    {
      if p !in Tracked(st.entries, vm) {
        assert p in live - Tracked(st.entries, vm);
        var i :| 0 <= i < |call.additions| && call.additions[i].guestPort == p;
        assert call.additions[i] in call.additions;
      }
    }
  }

  /** Once the tracked ports equal the live set, any further sync changes nothing. */
  lemma SyncIdempotent(st: State, call: Call)
    requires call.Sync? && ValidCall(st.entries, call)
    requires Tracked(st.entries, call.vm) == call.live
    ensures Do(st, call) == st
  {
  }

  // ------------------------------------------------------- chain against table

  function RuleSet(e: Entries, ips: string -> string): set<Rule> {
    set k | k in e :: Rule(k.0, ips(k.0), e[k], k.1)
  }

  /** The rule an attempt leaves behind when it drops its table entry. */
  function LeakedOne(e: Entries, vm: string, ip: Option<string>, a: Attempt, ips: string -> string): multiset<Rule> {
    if (vm, a.guestPort) in e && !(a.ok && ip.Some?)
    then multiset{Rule(vm, ips(vm), e[(vm, a.guestPort)], a.guestPort)}
    else multiset{}
  }

  /** Rules whose table entry a call drops while the rule itself stays in the chain. */
  function LeakedBy(st: State, vm: string, ip: Option<string>, attempts: seq<Attempt>, ips: string -> string): multiset<Rule> {
    if attempts == [] then multiset{}
    else
      var n := |attempts| - 1;
      LeakedBy(st, vm, ip, attempts[..n], ips) + LeakedOne(RemoveAll(st, vm, ip, attempts[..n]).entries, vm, ip, attempts[n], ips)
  }

  function Leaked(calls: seq<Call>, ips: string -> string): multiset<Rule> {
    if calls == [] then multiset{}
    else
      var n := |calls| - 1;
      Leaked(calls[..n], ips) + LeakedBy(Run(calls[..n]), calls[n].vm, IpOf(calls[n]), calls[n].removals, ips)
  }

  /** The guest IP a call's removals work with. */
  function IpOf(c: Call): Option<string> { if c.Sync? then Some(c.ip) else c.resolved }

  /** Each VM keeps one guest IP over the run. */
  ghost predicate FixedIps(calls: seq<Call>, ips: string -> string) {
    forall c :: c in calls ==>
      match c
      case Sync(vm, ip, _, _, _) => ip == ips(vm)
      case Clear(vm, resolved, _) => resolved.Some? ==> resolved.value == ips(vm)
  }

  lemma RuleSetDrop(e: Entries, k: Key, ips: string -> string)
    requires k in e
    ensures var r := Rule(k.0, ips(k.0), e[k], k.1);
            r in RuleSet(e, ips) && RuleSet(e - {k}, ips) == RuleSet(e, ips) - {r}
  {
    var e' := e - {k};
    assert forall j :: j in e' ==> e'[j] == e[j];
  }

  lemma RuleSetAdd(e: Entries, k: Key, hp: Port, ips: string -> string)
    requires k !in e
    ensures var r := Rule(k.0, ips(k.0), hp, k.1);
            r !in RuleSet(e, ips) && RuleSet(e[k := hp], ips) == RuleSet(e, ips) + {r}
  {
    var e' := e[k := hp];
    assert forall j :: j in e ==> e'[j] == e[j];
    assert e'[k] == hp;
  }

  lemma {:induction false} RemoveAllChain(st: State, vm: string, ip: Option<string>, attempts: seq<Attempt>,
                                          ips: string -> string, leaked: multiset<Rule>)
    requires ip.Some? ==> ip.value == ips(vm)
    requires multiset(st.chain) == multiset(RuleSet(st.entries, ips)) + leaked
    ensures var st' := RemoveAll(st, vm, ip, attempts);
            multiset(st'.chain) == multiset(RuleSet(st'.entries, ips)) + leaked + LeakedBy(st, vm, ip, attempts, ips)
  {
    if attempts == [] {
    } else {
      var n := |attempts| - 1;
      RemoveAllChain(st, vm, ip, attempts[..n], ips, leaked);
      RemoveOneChain(RemoveAll(st, vm, ip, attempts[..n]), vm, ip, attempts[n], ips, leaked + LeakedBy(st, vm, ip, attempts[..n], ips));
    }
  }

  lemma RemoveOneChain(st: State, vm: string, ip: Option<string>, a: Attempt, ips: string -> string, leaked: multiset<Rule>)
    requires ip.Some? ==> ip.value == ips(vm)
    requires multiset(st.chain) == multiset(RuleSet(st.entries, ips)) + leaked
    ensures var st' := RemoveOne(st, vm, ip, a);
            multiset(st'.chain) == multiset(RuleSet(st'.entries, ips)) + leaked + LeakedOne(st.entries, vm, ip, a, ips)
  {
    var k := (vm, a.guestPort);
    if k in st.entries {
      RuleSetDrop(st.entries, k, ips);
    }
  }

  lemma {:induction false} AddAllChain(st: State, vm: string, ip: string, attempts: seq<Attempt>,
                                       ips: string -> string, leaked: multiset<Rule>)
    requires ip == ips(vm)
    requires Distinct(attempts)
    requires forall a :: a in attempts ==> (vm, a.guestPort) !in st.entries
    requires multiset(st.chain) == multiset(RuleSet(st.entries, ips)) + leaked
    ensures var st' := AddAll(st, vm, ip, attempts);
            multiset(st'.chain) == multiset(RuleSet(st'.entries, ips)) + leaked
  {
    if attempts == [] {
    } else {
      var n := |attempts| - 1;
      FrontOf(attempts);
      AddAllChain(st, vm, ip, attempts[..n], ips, leaked);
      NotYetAdded(st, vm, ip, attempts);
      var mid := AddAll(st, vm, ip, attempts[..n]);
      var k := (vm, attempts[n].guestPort);
      var hp := PickHostPort(k.1, mid.entries.Values);
      if hp.Some? {
        RuleSetAdd(mid.entries, k, hp.value, ips);
      }
    }
  }

  /**
   Conservation over every run: the chain holds exactly the rules of the table
   plus the rules whose removal did not reach iptables.
   */
  lemma {:induction false} ChainIsTablePlusLeaked(calls: seq<Call>, ips: string -> string)
    requires ValidRun(calls) && FixedIps(calls, ips)
    ensures multiset(Run(calls).chain) == multiset(RuleSet(Run(calls).entries, ips)) + Leaked(calls, ips)
  {
    if calls == [] {
    } else {
      var n := |calls| - 1;
      var front := calls[..n];
      assert forall c :: c in front ==> c in calls;
      assert calls[n] in calls;
      ChainIsTablePlusLeaked(front, ips);
      var before := Run(front);
      match calls[n]
      case Sync(vm, ip, live, removals, additions) =>
        RemoveAllChain(before, vm, Some(ip), removals, ips, Leaked(front, ips));
        RemoveAllEntries(before, vm, Some(ip), removals);
        var mid := RemoveAll(before, vm, Some(ip), removals);
        assert forall k :: k in before.entries && k.0 == vm ==> k.1 in Tracked(before.entries, vm);
        AddAllChain(mid, vm, ip, additions, ips, Leaked(front, ips) + LeakedBy(before, vm, Some(ip), removals, ips));
      case Clear(vm, ip, removals) =>
        RemoveAllChain(before, vm, ip, removals, ips, Leaked(front, ips));
    }
  }

  /** Every removal of the run had a resolved IP and a successful command. */
  ghost predicate NoFailedRemoval(calls: seq<Call>) {
    forall c :: c in calls ==> CleanCall(c)
  }

  /** The call removes nothing, or each removal reaches iptables. */
  ghost predicate CleanCall(c: Call) {
    c.removals == [] || (AllOk(c.removals) && (c.Sync? || c.resolved.Some?))
  }

  lemma CleanSnoc(front: seq<Call>, c: Call)
    ensures NoFailedRemoval(front + [c]) <==> NoFailedRemoval(front) && CleanCall(c)
  {
    assert forall d :: d in front + [c] <==> d in front || d == c;
  }

  lemma {:induction false} LeakedByNothing(st: State, vm: string, ip: Option<string>, attempts: seq<Attempt>, ips: string -> string)
    requires Distinct(attempts)
    requires forall a :: a in attempts ==> (vm, a.guestPort) in st.entries
    ensures LeakedBy(st, vm, ip, attempts, ips) == multiset{} <==> attempts == [] || (AllOk(attempts) && ip.Some?)
  {
    if attempts == [] {
    } else {
      var n := |attempts| - 1;
      var front := attempts[..n];
      assert forall a :: a in front ==> a in attempts;
      assert attempts[n] in attempts;
      LeakedByNothing(st, vm, ip, front, ips);
      RemoveAllEntries(st, vm, ip, front);
      var before := RemoveAll(st, vm, ip, front).entries;
      assert (vm, attempts[n].guestPort) in before by {
        assert forall a :: a in front ==> a.guestPort != attempts[n].guestPort;
      }
      assert AllOk(attempts) <==> AllOk(front) && attempts[n].ok by {
        assert forall a :: a in attempts <==> a in front || a == attempts[n];
      }
      var last := LeakedBy(st, vm, ip, attempts, ips) - LeakedBy(st, vm, ip, front, ips);
      if !(attempts[n].ok && ip.Some?) {
        assert Rule(vm, ips(vm), before[(vm, attempts[n].guestPort)], attempts[n].guestPort) in LeakedBy(st, vm, ip, attempts, ips);
      }
    }
  }

  lemma CleanCallLeaksNothing(before: State, c: Call, ips: string -> string)
    requires ValidCall(before.entries, c)
    ensures LeakedBy(before, c.vm, IpOf(c), c.removals, ips) == multiset{} <==> CleanCall(c)
  {
    forall a | a in c.removals ensures (c.vm, a.guestPort) in before.entries {
      assert a.guestPort in Tracked(before.entries, c.vm);
    }
    LeakedByNothing(before, c.vm, IpOf(c), c.removals, ips);
  }

  lemma EmptySum<T>(a: multiset<T>, b: multiset<T>)
    ensures a + b == multiset{} <==> a == multiset{} && b == multiset{}
  {
    assert |a + b| == |a| + |b|;
  }

  lemma LastLeaksNothing(calls: seq<Call>, ips: string -> string)
    requires calls != [] && ValidRun(calls)
    ensures var n := |calls| - 1;
            Leaked(calls, ips) == multiset{} <==> Leaked(calls[..n], ips) == multiset{} && CleanCall(calls[n])
  {
    var front, c := calls[..|calls| - 1], calls[|calls| - 1];
    CleanCallLeaksNothing(Run(front), c, ips);
    EmptySum(Leaked(front, ips), LeakedBy(Run(front), c.vm, IpOf(c), c.removals, ips));
  }

  lemma {:induction false} NothingLeaked(calls: seq<Call>, ips: string -> string)
    requires ValidRun(calls)
    ensures Leaked(calls, ips) == multiset{} <==> NoFailedRemoval(calls)
  {
    if calls == [] {
    } else {
      var n := |calls| - 1;
      var front, c := calls[..n], calls[n];
      NothingLeaked(front, ips);
      LastLeaksNothing(calls, ips);
      assert calls == front + [c];
      CleanSnoc(front, c);
    }
  }

  /** Chain and table mirror each other exactly when no removal of the run failed. */
  lemma ChainMirrorsTable(calls: seq<Call>, ips: string -> string)
    requires ValidRun(calls) && FixedIps(calls, ips)
    ensures multiset(Run(calls).chain) == multiset(RuleSet(Run(calls).entries, ips)) <==> NoFailedRemoval(calls)
  {
    ChainIsTablePlusLeaked(calls, ips);
    NothingLeaked(calls, ips);
    var t, l := multiset(RuleSet(Run(calls).entries, ips)), Leaked(calls, ips);
    assert |t + l| == |t| + |l|;
  }
}
