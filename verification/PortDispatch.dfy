/** First-match dispatch of packets over the chain, against the table. */
module PortDispatch {
  import opened Wrappers
  import opened PortForward

  /** First-match dispatch of a packet to host port `hp`. */
  function Dispatch(chain: seq<Rule>, hp: Port): (r: Option<Rule>)
    ensures r.Some? ==> r.value in chain && r.value.hostPort == hp
    ensures r.None? ==> forall x :: x in chain ==> x.hostPort != hp
  {
    if chain == [] then None
    else if chain[0].hostPort == hp then Some(chain[0])
    else Dispatch(chain[1..], hp)
  }

  /** With no leaked rule on a host port, dispatch on that port is table lookup. */
  lemma DispatchIsLookup(calls: seq<Call>, ips: string -> string, hp: Port, k: Key)
    requires ValidRun(calls) && FixedIps(calls, ips)
    requires forall r :: r in Leaked(calls, ips) ==> r.hostPort != hp
    ensures var st := Run(calls);
            Dispatch(st.chain, hp) == Some(Rule(k.0, ips(k.0), hp, k.1)) <==> k in st.entries && st.entries[k] == hp
  {
    var st := Run(calls);
    ChainIsTablePlusLeaked(calls, ips);
    RunAllocated(calls);
    var all := multiset(RuleSet(st.entries, ips)) + Leaked(calls, ips);
    assert forall r :: r in st.chain <==> r in multiset(st.chain);
    assert forall r :: r in all <==> r in RuleSet(st.entries, ips) || r in Leaked(calls, ips);
    var rule := Rule(k.0, ips(k.0), hp, k.1);
    if k in st.entries && st.entries[k] == hp {
      assert rule in RuleSet(st.entries, ips);
      assert rule in st.chain;
      var got := Dispatch(st.chain, hp).value;
      assert got in RuleSet(st.entries, ips);
    }
  }

  /** A host port the table does not hold is answered exactly if a leaked rule is on it. */
  lemma UnownedExactly(calls: seq<Call>, ips: string -> string, hp: Port)
    requires ValidRun(calls) && FixedIps(calls, ips) && hp !in Run(calls).entries.Values
    ensures Dispatch(Run(calls).chain, hp).Some? <==> exists r :: r in Leaked(calls, ips) && r.hostPort == hp
  {
    var st := Run(calls);
    ChainIsTablePlusLeaked(calls, ips);
    var all := multiset(RuleSet(st.entries, ips)) + Leaked(calls, ips);
    assert forall r :: r in st.chain <==> r in multiset(st.chain);
    assert forall r :: r in all <==> r in RuleSet(st.entries, ips) || r in Leaked(calls, ips);
    forall r | r in RuleSet(st.entries, ips) ensures r.hostPort != hp {
      var k :| k in st.entries && r == Rule(k.0, ips(k.0), st.entries[k], k.1);
      assert st.entries[k] in st.entries.Values;
    }
  }

  // ------------------------------------------------- the owner's rule comes last

  /** The last rule on a host port. */
  function LastOn(chain: seq<Rule>, hp: Port): Option<Rule> {
    if chain == [] then None
    else
      var later := LastOn(chain[1..], hp);
      if later.Some? then later else if chain[0].hostPort == hp then Some(chain[0]) else None
  }

  lemma {:induction false} LastOnAppend(chain: seq<Rule>, r: Rule, hp: Port)
    ensures LastOn(chain + [r], hp) == if r.hostPort == hp then Some(r) else LastOn(chain, hp)
  {
    if chain == [] {
      assert [r][1..] == [];
    } else {
      assert (chain + [r])[1..] == chain[1..] + [r];
      LastOnAppend(chain[1..], r, hp);
    }
  }

  lemma {:induction false} LastOnDrop(chain: seq<Rule>, r: Rule, hp: Port)
    requires r.hostPort != hp
    ensures LastOn(DropRule(chain, r), hp) == LastOn(chain, hp)
  {
    if chain == [] {
    } else if chain[0] == r {
      assert DropRule(chain, r) == chain[1..];
    } else {
      LastOnDrop(chain[1..], r, hp);
      assert DropRule(chain, r)[1..] == DropRule(chain[1..], r);
    }
  }

  /** The rule of a table entry. */
  function RuleOf(e: Entries, k: Key, ips: string -> string): Rule
    requires k in e
  {
    Rule(k.0, ips(k.0), e[k], k.1)
  }

  /** On every host port of the table the last rule is the owner's. */
  ghost predicate OwnersLast(st: State, ips: string -> string) {
    forall k :: k in st.entries ==> LastOn(st.chain, st.entries[k]) == Some(RuleOf(st.entries, k, ips))
  }

  lemma RemoveOneKeepsLast(st: State, vm: string, ip: Option<string>, a: Attempt, ips: string -> string)
    requires Allocated(st.entries) && OwnersLast(st, ips) && (ip.Some? ==> ip.value == ips(vm))
    ensures OwnersLast(RemoveOne(st, vm, ip, a), ips)
  {
    var k, st' := (vm, a.guestPort), RemoveOne(st, vm, ip, a);
    if k in st.entries {
      forall j | j in st'.entries ensures LastOn(st'.chain, st'.entries[j]) == Some(RuleOf(st'.entries, j, ips)) {
        assert st.entries[j] != st.entries[k];
        LastOnDrop(st.chain, RuleOf(st.entries, k, ips), st.entries[j]);
      }
    }
  }

  lemma AddOneKeepsLast(st: State, vm: string, ip: string, a: Attempt, ips: string -> string)
    requires OwnersLast(st, ips) && ip == ips(vm)
    ensures OwnersLast(AddOne(st, vm, ip, a), ips)
  {
    var hp, k, st' := PickHostPort(a.guestPort, st.entries.Values), (vm, a.guestPort), AddOne(st, vm, ip, a);
    if hp.Some? {
      var r := Rule(vm, ip, hp.value, a.guestPort);
      forall j | j in st'.entries ensures LastOn(st'.chain, st'.entries[j]) == Some(RuleOf(st'.entries, j, ips)) {
        if j != k {
          assert st.entries[j] in st.entries.Values;
        }
        LastOnAppend(st.chain, r, st'.entries[j]);
      }
    }
  }

  lemma {:induction false} RemoveAllKeepsLast(st: State, vm: string, ip: Option<string>, attempts: seq<Attempt>, ips: string -> string)
    requires Allocated(st.entries) && OwnersLast(st, ips) && (ip.Some? ==> ip.value == ips(vm))
    ensures OwnersLast(RemoveAll(st, vm, ip, attempts), ips)
  {
    if attempts == [] {
    } else {
      var n := |attempts| - 1;
      RemoveAllKeepsLast(st, vm, ip, attempts[..n], ips);
      RemoveAllAllocated(st, vm, ip, attempts[..n]);
      RemoveOneKeepsLast(RemoveAll(st, vm, ip, attempts[..n]), vm, ip, attempts[n], ips);
    }
  }

  lemma {:induction false} AddAllKeepsLast(st: State, vm: string, ip: string, attempts: seq<Attempt>, ips: string -> string)
    requires OwnersLast(st, ips) && ip == ips(vm)
    ensures OwnersLast(AddAll(st, vm, ip, attempts), ips)
  {
    if attempts == [] {
    } else {
      var n := |attempts| - 1;
      AddAllKeepsLast(st, vm, ip, attempts[..n], ips);
      AddOneKeepsLast(AddAll(st, vm, ip, attempts[..n]), vm, ip, attempts[n], ips);
    }
  }

  /** Over every run with fixed guest IPs, whatever fails. */
  lemma {:induction false} RunOwnersLast(calls: seq<Call>, ips: string -> string)
    requires FixedIps(calls, ips)
    ensures OwnersLast(Run(calls), ips)
  {
    if calls == [] {
    } else {
      var n := |calls| - 1;
      var front, c := calls[..n], calls[n];
      assert c in calls && forall d :: d in front ==> d in calls;
      RunOwnersLast(front, ips);
      RunAllocated(front);
      RemoveAllKeepsLast(Run(front), c.vm, IpOf(c), c.removals, ips);
      if c.Sync? {
        AddAllKeepsLast(RemoveAll(Run(front), c.vm, Some(c.ip), c.removals), c.vm, c.ip, c.additions, ips);
      }
    }
  }

  /** Where the first and the last rule on a port are one and the same, it is the only one. */
  lemma {:induction false} FirstIsLast(chain: seq<Rule>, hp: Port, r: Rule)
    requires Dispatch(chain, hp) == Some(r) && LastOn(chain, hp) == Some(r) && multiset(chain)[r] == 1
    ensures forall x :: x in chain && x.hostPort == hp ==> x == r
  {
    var rest := chain[1..];
    assert chain == [chain[0]] + rest;
    if chain[0].hostPort == hp {
      LastOnSpec(rest, hp);
      assert multiset(rest)[r] == 0 && r !in rest;
    } else {
      FirstIsLast(rest, hp, r);
    }
  }

  lemma {:induction false} LastOnSpec(chain: seq<Rule>, hp: Port)
    ensures LastOn(chain, hp).Some? ==> LastOn(chain, hp).value in chain
    ensures LastOn(chain, hp).None? ==> forall x :: x in chain ==> x.hostPort != hp
  {
    if chain == [] {
    } else {
      LastOnSpec(chain[1..], hp);
      assert chain == [chain[0]] + chain[1..];
    }
  }

  /**
   A host port the table holds, none of whose leaked rules repeats the owner's own: it
   is answered by the owner's rule exactly if no leaked rule is on it.
   */
  lemma OwnedExactly(calls: seq<Call>, ips: string -> string, k: Key)
    requires ValidRun(calls) && FixedIps(calls, ips)
    requires k in Run(calls).entries && RuleOf(Run(calls).entries, k, ips) !in Leaked(calls, ips)
    ensures var st := Run(calls);
            var own, hp := RuleOf(st.entries, k, ips), st.entries[k];
            Dispatch(st.chain, hp) == Some(own) <==> forall r :: r in Leaked(calls, ips) ==> r.hostPort != hp
  {
    var st := Run(calls);
    var own, hp := RuleOf(st.entries, k, ips), st.entries[k];
    if forall r :: r in Leaked(calls, ips) ==> r.hostPort != hp {
      DispatchIsLookup(calls, ips, hp, k);
    }
    if Dispatch(st.chain, hp) == Some(own) {
      var owned := multiset(RuleSet(st.entries, ips));
      ChainIsTablePlusLeaked(calls, ips);
      RunOwnersLast(calls, ips);
      assert own in RuleSet(st.entries, ips) && owned[own] == 1;
      assert multiset(st.chain)[own] == owned[own] + Leaked(calls, ips)[own];
      FirstIsLast(st.chain, hp, own);
      forall r | r in Leaked(calls, ips) ensures r.hostPort != hp {
        assert multiset(st.chain)[r] == owned[r] + Leaked(calls, ips)[r];
        assert r in st.chain && r != own;
      }
    }
  }

  /**
   A failed removal breaks dispatch: the table frees host port 8080 and hands it
   to another VM, but packets still reach the first one.
   */
  lemma StaleRuleShadows(ips: string -> string)
    ensures var calls := [Sync("a", ips("a"), {8080}, [], [Attempt(8080, true)]),
                          Sync("a", ips("a"), {}, [Attempt(8080, false)], []),
                          Sync("b", ips("b"), {8080}, [], [Attempt(8080, true)])];
            && ValidRun(calls) && FixedIps(calls, ips)
            && Run(calls).entries == map[("b", 8080) := 8080]
            && Dispatch(Run(calls).chain, 8080) == Some(Rule("a", ips("a"), 8080, 8080))
  {
    var c0 := Sync("a", ips("a"), {8080}, [], [Attempt(8080, true)]);
    var c1 := Sync("a", ips("a"), {}, [Attempt(8080, false)], []);
    var c2 := Sync("b", ips("b"), {8080}, [], [Attempt(8080, true)]);
    var ra, rb := Rule("a", ips("a"), 8080, 8080), Rule("b", ips("b"), 8080, 8080);
    var s1 := State(map[("a", 8080) := 8080], [ra]);
    var s2 := State(map[], [ra]);
    assert [c0, c1, c2][..2] == [c0, c1] && [c0, c1][..1] == [c0] && [c0][..0] == [];
    assert Run([]) == EMPTY && ValidRun([]);
    assert Tracked(EMPTY.entries, "a") == {};
    assert c0.additions[0].guestPort == 8080;
    assert Run([c0]) == s1 by { AddSingle(EMPTY, "a", ips("a"), 8080); }
    assert ValidRun([c0]);
    assert Tracked(s1.entries, "a") == {8080} by { assert ("a", 8080) in s1.entries; }
    assert c1.removals[0].guestPort == 8080;
    assert RemoveAll(s1, "a", Some(ips("a")), c1.removals) == s2 by { assert c1.removals[..0] == []; assert s1.entries - {("a", 8080)} == map[]; }
    assert Do(s1, c1) == s2 && Run([c0, c1]) == s2;
    assert ValidRun([c0, c1]);
    assert Tracked(s2.entries, "b") == {};
    assert c2.additions[0].guestPort == 8080;
    assert Run([c0, c1, c2]) == State(map[("b", 8080) := 8080], [ra, rb]) by { AddSingle(s2, "b", ips("b"), 8080); }
  }

  lemma AddSingle(st: State, vm: string, ip: string, p: Port)
    requires p > 0 && st.entries == map[]
    ensures AddAll(st, vm, ip, [Attempt(p, true)]) == State(map[(vm, p) := p], st.chain + [Rule(vm, ip, p, p)])
  {
    assert [Attempt(p, true)][..0] == [];
    assert p !in st.entries.Values;
  }
}
