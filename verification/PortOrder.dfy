/** The order of the chain: it is the list of rules ever added, less the earliest copies of each rule removed. */
module PortOrder {
  import opened Wrappers
  import opened PortForward
  import opened PortDispatch

  // ----------------------------------------------------------- what a run issued

  /** The rule an attempt appends. */
  function AddedOne(e: Entries, vm: string, ip: string, a: Attempt): seq<Rule> {
    var hp := PickHostPort(a.guestPort, e.Values);
    if hp.Some? && a.ok && a.guestPort > 0 then [Rule(vm, ip, hp.value, a.guestPort)] else []
  }

  function AddedBy(st: State, vm: string, ip: string, attempts: seq<Attempt>): seq<Rule> {
    if attempts == [] then []
    else
      var n := |attempts| - 1;
      AddedBy(st, vm, ip, attempts[..n]) + AddedOne(AddAll(st, vm, ip, attempts[..n]).entries, vm, ip, attempts[n])
  }

  /** The rule whose deletion an attempt gets through. */
  function DroppedOne(e: Entries, vm: string, ip: Option<string>, a: Attempt): multiset<Rule> {
    if (vm, a.guestPort) in e && a.ok && ip.Some?
    then multiset{Rule(vm, ip.value, e[(vm, a.guestPort)], a.guestPort)}
    else multiset{}
  }

  function DroppedBy(st: State, vm: string, ip: Option<string>, attempts: seq<Attempt>): multiset<Rule> {
    if attempts == [] then multiset{}
    else
      var n := |attempts| - 1;
      DroppedBy(st, vm, ip, attempts[..n]) + DroppedOne(RemoveAll(st, vm, ip, attempts[..n]).entries, vm, ip, attempts[n])
  }

  /** Every rule a run appended, in order. */
  function Added(calls: seq<Call>): seq<Rule> {
    if calls == [] then []
    else
      var n := |calls| - 1;
      var c := calls[n];
      Added(calls[..n]) + if c.Sync? then AddedBy(RemoveAll(Run(calls[..n]), c.vm, Some(c.ip), c.removals), c.vm, c.ip, c.additions) else []
  }

  /** How often a run deleted each rule. */
  function Dropped(calls: seq<Call>): multiset<Rule> {
    if calls == [] then multiset{}
    else
      var n := |calls| - 1;
      Dropped(calls[..n]) + DroppedBy(Run(calls[..n]), calls[n].vm, IpOf(calls[n]), calls[n].removals)
  }

  // -------------------------------------------------------------- what remains

  /** The additions that remain: of each rule, the earliest copies are gone. */
  function Remaining(added: seq<Rule>, dropped: multiset<Rule>): seq<Rule> {
    if added == [] then []
    else if dropped[added[0]] > 0 then Remaining(added[1..], dropped - multiset{added[0]})
    else [added[0]] + Remaining(added[1..], dropped)
  }

  lemma HeadFirst(s: seq<Rule>)
    requires s != []
    ensures multiset(s) == multiset{s[0]} + multiset(s[1..])
  {
    assert s == [s[0]] + s[1..];
  }

  lemma {:induction false} RemainingCounts(added: seq<Rule>, dropped: multiset<Rule>)
    requires dropped <= multiset(added)
    ensures multiset(Remaining(added, dropped)) == multiset(added) - dropped
  {
    if added == [] {
    } else {
      HeadFirst(added);
      if dropped[added[0]] > 0 {
        RemainingCounts(added[1..], dropped - multiset{added[0]});
      } else {
        RemainingCounts(added[1..], dropped);
      }
    }
  }

  lemma {:induction false} RemainingAppend(added: seq<Rule>, dropped: multiset<Rule>, r: Rule)
    requires dropped <= multiset(added)
    ensures Remaining(added + [r], dropped) == Remaining(added, dropped) + [r]
  {
    if added == [] {
      assert [r][1..] == [];
    } else {
      HeadFirst(added);
      assert (added + [r])[1..] == added[1..] + [r];
      if dropped[added[0]] > 0 {
        RemainingAppend(added[1..], dropped - multiset{added[0]}, r);
      } else {
        RemainingAppend(added[1..], dropped, r);
      }
    }
  }

  /** Deleting the first copy in the chain takes the earliest addition that remains. */
  lemma {:induction false} RemainingDrop(added: seq<Rule>, dropped: multiset<Rule>, r: Rule)
    requires r in Remaining(added, dropped)
    ensures DropRule(Remaining(added, dropped), r) == Remaining(added, dropped + multiset{r})
  {
    var x, rest := added[0], added[1..];
    if dropped[x] > 0 {
      RemainingDrop(rest, dropped - multiset{x}, r);
      assert dropped - multiset{x} + multiset{r} == dropped + multiset{r} - multiset{x};
    } else if x == r {
      assert dropped + multiset{r} - multiset{x} == dropped;
    } else {
      RemainingDrop(rest, dropped, r);
    }
  }

  ghost predicate Tells(chain: seq<Rule>, added: seq<Rule>, dropped: multiset<Rule>) {
    dropped <= multiset(added) && chain == Remaining(added, dropped)
  }

  lemma DropTells(chain: seq<Rule>, added: seq<Rule>, dropped: multiset<Rule>, r: Rule)
    requires Tells(chain, added, dropped) && r in chain
    ensures Tells(DropRule(chain, r), added, dropped + multiset{r})
  {
    RemainingDrop(added, dropped, r);
    RemainingCounts(added, dropped);
    assert r in multiset(chain);
  }

  lemma AppendTells(chain: seq<Rule>, added: seq<Rule>, dropped: multiset<Rule>, r: Rule)
    requires Tells(chain, added, dropped)
    ensures Tells(chain + [r], added + [r], dropped)
  {
    RemainingAppend(added, dropped, r);
  }

  // ----------------------------------------------------------------- whole runs

  lemma {:induction false} RemoveAllTells(st: State, vm: string, ip: Option<string>, attempts: seq<Attempt>, ips: string -> string,
                                          added: seq<Rule>, dropped: multiset<Rule>)
    requires Allocated(st.entries) && OwnersLast(st, ips) && (ip.Some? ==> ip.value == ips(vm))
    requires Tells(st.chain, added, dropped)
    ensures Tells(RemoveAll(st, vm, ip, attempts).chain, added, dropped + DroppedBy(st, vm, ip, attempts))
  {
    if attempts == [] {
      assert dropped + DroppedBy(st, vm, ip, attempts) == dropped;
    } else {
      var n := |attempts| - 1;
      var mid, sofar := RemoveAll(st, vm, ip, attempts[..n]), DroppedBy(st, vm, ip, attempts[..n]);
      RemoveAllTells(st, vm, ip, attempts[..n], ips, added, dropped);
      RemoveAllKeepsLast(st, vm, ip, attempts[..n], ips);
      RemoveOneTells(mid, vm, ip, attempts[n], ips, added, dropped + sofar);
      MultisetAssoc(dropped, sofar, DroppedOne(mid.entries, vm, ip, attempts[n]));
    }
  }

  lemma RemoveOneTells(st: State, vm: string, ip: Option<string>, a: Attempt, ips: string -> string,
                       added: seq<Rule>, dropped: multiset<Rule>)
    requires OwnersLast(st, ips) && (ip.Some? ==> ip.value == ips(vm))
    requires Tells(st.chain, added, dropped)
    ensures Tells(RemoveOne(st, vm, ip, a).chain, added, dropped + DroppedOne(st.entries, vm, ip, a))
  {
    var k := (vm, a.guestPort);
    if k in st.entries && a.ok && ip.Some? {
      LastOnSpec(st.chain, st.entries[k]);
      DropTells(st.chain, added, dropped, RuleOf(st.entries, k, ips));
    } else {
      assert dropped + multiset{} == dropped;
    }
  }

  lemma MultisetAssoc(a: multiset<Rule>, b: multiset<Rule>, c: multiset<Rule>)
    ensures a + b + c == a + (b + c)
  {
  }

  lemma {:induction false} AddAllTells(st: State, vm: string, ip: string, attempts: seq<Attempt>, added: seq<Rule>, dropped: multiset<Rule>)
    requires Tells(st.chain, added, dropped)
    ensures Tells(AddAll(st, vm, ip, attempts).chain, added + AddedBy(st, vm, ip, attempts), dropped)
  {
    if attempts == [] {
      assert added + AddedBy(st, vm, ip, attempts) == added;
    } else {
      var n := |attempts| - 1;
      var mid, sofar := AddAll(st, vm, ip, attempts[..n]), added + AddedBy(st, vm, ip, attempts[..n]);
      AddAllTells(st, vm, ip, attempts[..n], added, dropped);
      AddOneTells(mid, vm, ip, attempts[n], sofar, dropped);
      SeqAssoc(added, AddedBy(st, vm, ip, attempts[..n]), AddedOne(mid.entries, vm, ip, attempts[n]));
    }
  }

  lemma SeqAssoc(a: seq<Rule>, b: seq<Rule>, c: seq<Rule>)
    ensures a + b + c == a + (b + c)
  {
  }

  lemma AddOneTells(st: State, vm: string, ip: string, a: Attempt, added: seq<Rule>, dropped: multiset<Rule>)
    requires Tells(st.chain, added, dropped)
    ensures Tells(AddOne(st, vm, ip, a).chain, added + AddedOne(st.entries, vm, ip, a), dropped)
  {
    var one := AddedOne(st.entries, vm, ip, a);
    if one == [] {
      assert added + one == added;
    } else {
      AppendTells(st.chain, added, dropped, one[0]);
    }
  }

  /** Over every run with fixed guest IPs, whatever fails: the chain, in order, is what remains of the additions. */
  lemma {:induction false} ChainIsRemaining(calls: seq<Call>, ips: string -> string)
    requires FixedIps(calls, ips)
    ensures Run(calls).chain == Remaining(Added(calls), Dropped(calls)) && Dropped(calls) <= multiset(Added(calls))
  {
    if calls == [] {
    } else {
      var n := |calls| - 1;
      var front, c := calls[..n], calls[n];
      assert c in calls && forall d :: d in front ==> d in calls;
      ChainIsRemaining(front, ips);
      RunOwnersLast(front, ips);
      RunAllocated(front);
      RemoveAllTells(Run(front), c.vm, IpOf(c), c.removals, ips, Added(front), Dropped(front));
      if c.Sync? {
        AddAllTells(RemoveAll(Run(front), c.vm, Some(c.ip), c.removals), c.vm, c.ip, c.additions, Added(front), Dropped(calls));
      } else {
        assert Added(front) + [] == Added(front);
      }
    }
  }

  // ------------------------------------------------------------------- dispatch

  /** Addition `i` remains: at least as many copies of its rule came before it as were deleted. */
  predicate Remains(added: seq<Rule>, dropped: multiset<Rule>, i: nat)
    requires i < |added|
  {
    dropped[added[i]] <= multiset(added[..i])[added[i]]
  }

  /** Addition `i` is on the host port and remains, and none before it does. */
  ghost predicate FirstAt(added: seq<Rule>, dropped: multiset<Rule>, hp: Port, i: nat)
    requires i < |added|
  {
    && added[i].hostPort == hp && Remains(added, dropped, i)
    && forall j :: 0 <= j < i && Remains(added, dropped, j) ==> added[j].hostPort != hp
  }

  /** The earliest remaining addition on a host port. */
  ghost predicate FirstRemaining(added: seq<Rule>, dropped: multiset<Rule>, hp: Port, r: Rule) {
    exists i :: 0 <= i < |added| && FirstAt(added, dropped, hp, i) && added[i] == r
  }

  /** What the tail of the additions is compared with. */
  function Left(dropped: multiset<Rule>, x: Rule): multiset<Rule> {
    if dropped[x] > 0 then dropped - multiset{x} else dropped
  }

  lemma RemainsShift(x: Rule, rest: seq<Rule>, dropped: multiset<Rule>, i: nat)
    requires i < |rest|
    ensures ([x] + rest)[i + 1] == rest[i]
    ensures Remains([x] + rest, dropped, i + 1) <==> Remains(rest, Left(dropped, x), i)
  {
    assert ([x] + rest)[..i + 1] == [x] + rest[..i];
  }

  /** The first addition is gone or on another port. */
  ghost predicate PassedOver(x: Rule, dropped: multiset<Rule>, hp: Port) {
    dropped[x] > 0 || x.hostPort != hp
  }

  lemma FirstLater(x: Rule, rest: seq<Rule>, dropped: multiset<Rule>, hp: Port, i: nat)
    requires PassedOver(x, dropped, hp) && i < |rest| && FirstAt([x] + rest, dropped, hp, i + 1)
    ensures FirstAt(rest, Left(dropped, x), hp, i)
  {
    RemainsShift(x, rest, dropped, i);
    forall j | 0 <= j < i && Remains(rest, Left(dropped, x), j) ensures rest[j].hostPort != hp {
      RemainsShift(x, rest, dropped, j);
    }
  }

  lemma FirstEarlier(x: Rule, rest: seq<Rule>, dropped: multiset<Rule>, hp: Port, i: nat)
    requires PassedOver(x, dropped, hp) && i < |rest| && FirstAt(rest, Left(dropped, x), hp, i)
    ensures FirstAt([x] + rest, dropped, hp, i + 1)
  {
    RemainsShift(x, rest, dropped, i);
    forall j | 0 <= j < i + 1 && Remains([x] + rest, dropped, j) ensures ([x] + rest)[j].hostPort != hp {
      if j > 0 { RemainsShift(x, rest, dropped, j - 1); }
    }
  }

  lemma RemainingLater(x: Rule, rest: seq<Rule>, dropped: multiset<Rule>, hp: Port, r: Rule)
    requires PassedOver(x, dropped, hp) && FirstRemaining([x] + rest, dropped, hp, r)
    ensures FirstRemaining(rest, Left(dropped, x), hp, r)
  {
    var added := [x] + rest;
    var i :| 0 <= i < |added| && FirstAt(added, dropped, hp, i) && added[i] == r;
    if i > 0 {
      FirstLater(x, rest, dropped, hp, i - 1);
      RemainsShift(x, rest, dropped, i - 1);
    }
  }

  lemma RemainingEarlier(x: Rule, rest: seq<Rule>, dropped: multiset<Rule>, hp: Port, r: Rule)
    requires PassedOver(x, dropped, hp) && FirstRemaining(rest, Left(dropped, x), hp, r)
    ensures FirstRemaining([x] + rest, dropped, hp, r)
  {
    var i :| 0 <= i < |rest| && FirstAt(rest, Left(dropped, x), hp, i) && rest[i] == r;
    FirstEarlier(x, rest, dropped, hp, i);
    RemainsShift(x, rest, dropped, i);
  }

  lemma FirstShift(x: Rule, rest: seq<Rule>, dropped: multiset<Rule>, hp: Port, r: Rule)
    requires PassedOver(x, dropped, hp)
    ensures FirstRemaining([x] + rest, dropped, hp, r) <==> FirstRemaining(rest, Left(dropped, x), hp, r)
  {
    if FirstRemaining([x] + rest, dropped, hp, r) {
      RemainingLater(x, rest, dropped, hp, r);
    }
    if FirstRemaining(rest, Left(dropped, x), hp, r) {
      RemainingEarlier(x, rest, dropped, hp, r);
    }
  }

  lemma {:induction false} DispatchRemaining(added: seq<Rule>, dropped: multiset<Rule>, hp: Port, r: Rule)
    ensures Dispatch(Remaining(added, dropped), hp) == Some(r) <==> FirstRemaining(added, dropped, hp, r)
  {
    if added == [] {
    } else if dropped[added[0]] == 0 && added[0].hostPort == hp {
      assert FirstAt(added, dropped, hp, 0) && Dispatch(Remaining(added, dropped), hp) == Some(added[0]);
    } else {
      assert added == [added[0]] + added[1..];
      FirstShift(added[0], added[1..], dropped, hp, r);
      DispatchRemaining(added[1..], Left(dropped, added[0]), hp, r);
    }
  }

  /**
   Which rule answers a host port, over every run with fixed guest IPs and for every
   rule, the owner's and its leaked copies included: the earliest addition on that port
   with at least as many copies before it as the run deleted.
   */
  lemma AnsweredExactly(calls: seq<Call>, ips: string -> string, hp: Port, r: Rule)
    requires FixedIps(calls, ips)
    ensures Dispatch(Run(calls).chain, hp) == Some(r) <==> FirstRemaining(Added(calls), Dropped(calls), hp, r)
  {
    ChainIsRemaining(calls, ips);
    DispatchRemaining(Added(calls), Dropped(calls), hp, r);
  }
}
