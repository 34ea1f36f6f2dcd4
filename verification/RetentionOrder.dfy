/** Whether pruning loses the oldest: exactly when, with deletions refused along the way. */
module RetentionOrder {
  import opened Collections
  import opened Retention

  /** Nothing lost is newer than something there is afterwards. */
  ghost predicate LosesOldest(before: seq<Item>, after: seq<Item>) {
    forall y, z :: y in before && y !in after && z in after ==> y.time <= z.time
  }

  /** No victim deleted is newer than a victim refused. */
  ghost predicate RefusedAreNewest(victims: seq<Item>, refused: set<string>) {
    forall y, z :: y in victims && z in victims && y.name !in refused && z.name in refused ==> y.time <= z.time
  }

  /** The victims are some of the items, none newer than the others. */
  ghost predicate OldestOf(victims: seq<Item>, all: seq<Item>) {
    (forall x :: x in victims ==> x in all) && DropsOldest(victims, ItemsOf(all) - ItemsOf(victims))
  }

  lemma LeftMember(all: seq<Item>, gone: set<string>, x: Item)
    ensures x in Without(all, gone) <==> x in all && x.name !in gone
  {
    SelectMembers(all, (y: Item) => y.name !in gone);
  }

  lemma VictimByName(all: seq<Item>, victims: seq<Item>, x: Item)
    requires Distinct(all) && x in all && forall y :: y in victims ==> y in all
    ensures x.name in Names(victims) <==> x in victims
  {
    if x.name in Names(victims) {
      var y :| y in victims && y.name == x.name;
      var i :| 0 <= i < |all| && all[i] == x;
      var j :| 0 <= j < |all| && all[j] == y;
      assert i == j;
    }
  }

  /** What is lost and what is left, in terms of the victims. */
  lemma LeftExactly(all: seq<Item>, victims: seq<Item>, refused: set<string>, x: Item)
    requires Distinct(all) && x in all && forall y :: y in victims ==> y in all
    ensures x in Without(all, Names(victims) - refused) <==> x !in victims || x.name in refused
  {
    LeftMember(all, Names(victims) - refused, x);
    VictimByName(all, victims, x);
  }

  /** Deleting the oldest, with some deletions refused, loses the oldest exactly if the refused victims are the newest of them. */
  lemma PrunedExactly(all: seq<Item>, victims: seq<Item>, refused: set<string>)
    requires Distinct(all) && OldestOf(victims, all)
    ensures LosesOldest(all, Without(all, Names(victims) - refused)) <==> RefusedAreNewest(victims, refused)
  {
    var after := Without(all, Names(victims) - refused);
    if RefusedAreNewest(victims, refused) {
      forall y, z | y in all && y !in after && z in after ensures y.time <= z.time {
        LeftMember(all, Names(victims) - refused, z);
        LeftExactly(all, victims, refused, y);
        LeftExactly(all, victims, refused, z);
      }
    }
    if LosesOldest(all, after) {
      forall y, z | y in victims && z in victims && y.name !in refused && z.name in refused ensures y.time <= z.time {
        LeftExactly(all, victims, refused, y);
        LeftExactly(all, victims, refused, z);
      }
    }
  }

  // ------------------------------------------------------------ automatic snapshots

  /** No victim deleted is newer than the snapshot just made. */
  ghost predicate DeletedBefore(victims: seq<Item>, refused: set<string>, time: int) {
    forall y :: y in victims && y.name !in refused ==> y.time <= time
  }

  lemma AutosChecked(snaps: seq<Item>, c: CheckInput)
    requires Distinct(snaps) && Created(snaps, c).Some?
    ensures Autos(Checked(snaps, c)) == Without(Autos(snaps), Pruned(snaps, c)) + [Created(snaps, c).value]
  {
    var x, gone := Created(snaps, c).value, Pruned(snaps, c);
    CreatedIsNew(snaps, c);
    PrunedNames(snaps, c);
    SelectCommutes(snaps + [x], gone, IsAuto);
    assert (Autos(snaps) + [x])[..|Autos(snaps)|] == Autos(snaps);
  }

  lemma AutoVictimsOldest(snaps: seq<Item>, retention: nat)
    requires Distinct(snaps)
    ensures Distinct(Autos(snaps)) && OldestOf(AutoVictims(Autos(snaps), retention), Autos(snaps))
  {
    SelectDistinct(snaps, IsAuto);
    AutoVictimsDistinct(snaps, retention);
    VictimsAreOldest(Autos(snaps), retention);
  }

  /**
   A check that makes a snapshot: no automatic snapshot it loses is newer than one there
   is afterwards exactly if no deleted victim is newer than a refused one or than the
   snapshot made.
   */
  lemma CheckedLosesOldest(snaps: seq<Item>, c: CheckInput)
    requires Distinct(snaps) && Created(snaps, c).Some?
    ensures var victims := AutoVictims(Autos(snaps), c.retention);
            LosesOldest(Autos(snaps), Autos(Checked(snaps, c))) <==>
              RefusedAreNewest(victims, c.refused) && DeletedBefore(victims, c.refused, c.creation.value.time)
  {
    var all, x := Autos(snaps), Created(snaps, c).value;
    var victims := AutoVictims(all, c.retention);
    AutosChecked(snaps, c);
    AutoVictimsOldest(snaps, c.retention);
    PrunedExactly(all, victims, c.refused);
    SelectMembers(snaps, IsAuto);
    assert x !in all by { CreatedIsNew(snaps, c); assert x in all ==> x.name in Names(snaps); }
    OneMore(all, victims, c.refused, x);
  }

  lemma OneMore(all: seq<Item>, victims: seq<Item>, refused: set<string>, x: Item)
    requires Distinct(all) && x !in all && forall y :: y in victims ==> y in all
    ensures var after := Without(all, Names(victims) - refused);
            LosesOldest(all, after + [x]) <==> LosesOldest(all, after) && DeletedBefore(victims, refused, x.time)
  {
    var after := Without(all, Names(victims) - refused);
    forall y | y in all ensures y !in after <==> y in victims && y.name !in refused {
      LeftExactly(all, victims, refused, y);
    }
    assert forall z :: z in after + [x] <==> z in after || z == x;
  }

  // ---------------------------------------------------------------- rollback points

  /** The number of rollback points left: those to keep, and the refused victims. */
  lemma RollbackCount(snaps: seq<Item>, keep: nat, refused: set<string>)
    requires Distinct(snaps)
    ensures var points := Rollbacks(snaps);
            |Rollbacks(AfterRollback(snaps, keep, refused))| == Min(|points|, keep) + |Names(RollbackVictims(points, keep)) * refused|
  {
    var points := Rollbacks(snaps);
    var names := Names(RollbackVictims(points, keep));
    RollbackVictimsOldest(snaps, keep);
    assert names - refused <= Names(points);
    SelectedSize(snaps, names - refused, IsRollback);
    DistinctSizes(RollbackVictims(points, keep));
    assert names == (names - refused) + (names * refused);
  }

  lemma RollbackVictimsOldest(snaps: seq<Item>, keep: nat)
    requires Distinct(snaps)
    ensures var points := Rollbacks(snaps);
            Distinct(points) && Distinct(RollbackVictims(points, keep)) && OldestOf(RollbackVictims(points, keep), points)
  {
    var points := Rollbacks(snaps);
    SelectDistinct(snaps, IsRollback);
    RollbackKeepsNewest(points, keep);
    SortKeepsDistinct(points, false);
    SortMembers(points, false);
    if |points| > keep {
      PrefixMembers(OldestFirst(points), |points| - keep, points);
    }
  }

  /** Rollback pruning loses the oldest exactly if no point it deleted is newer than one whose deletion was refused. */
  lemma RollbackLosesOldest(snaps: seq<Item>, keep: nat, refused: set<string>)
    requires Distinct(snaps)
    ensures LosesOldest(Rollbacks(snaps), Rollbacks(AfterRollback(snaps, keep, refused))) <==>
              RefusedAreNewest(RollbackVictims(Rollbacks(snaps), keep), refused)
  {
    var points := Rollbacks(snaps);
    var victims := RollbackVictims(points, keep);
    SelectCommutes(snaps, Names(victims) - refused, IsRollback);
    RollbackVictimsOldest(snaps, keep);
    PrunedExactly(points, victims, refused);
  }

  // ------------------------------------------------------------------------ backups

  lemma BackupVictimsOldest(backups: seq<Item>, keep: nat)
    requires Distinct(backups)
    ensures Distinct(BackupVictims(backups, keep)) && OldestOf(BackupVictims(backups, keep), backups)
    ensures Sorted(BackupVictims(backups, keep), true)
  {
    BackupVictimsListed(backups, keep);
    BackupKeepsNewest(backups, keep);
    SortIsStable(backups, true);
  }

  /** The number of backups left: those to keep, and what the first refusal spared. */
  lemma BackupCount(backups: seq<Item>, keep: nat, refused: set<string>)
    requires Distinct(backups)
    ensures var victims := BackupVictims(backups, keep);
            |AfterRetention(backups, keep, refused)| == Min(|backups|, keep) + |victims| - |BeforeRefusal(victims, refused)|
  {
    var victims := BackupVictims(backups, keep);
    var done := BeforeRefusal(victims, refused);
    BackupVictimsOldest(backups, keep);
    DistinctSizes(done);
    assert Names(done) <= Names(backups);
    WithoutSize(backups, Names(done));
  }

  /** Which of the victims the loop deleted. */
  lemma DoneExactly(backups: seq<Item>, keep: nat, done: seq<Item>, x: Item)
    requires Distinct(backups) && x in backups && done <= BackupVictims(backups, keep)
    ensures x in Without(backups, Names(done)) <==> x !in done
  {
    BackupVictimsListed(backups, keep);
    assert forall y :: y in done ==> y in BackupVictims(backups, keep);
    LeftMember(backups, Names(done), x);
    VictimByName(backups, done, x);
  }

  lemma FirstAndLast(victims: seq<Item>, done: seq<Item>)
    requires Distinct(victims) && Sorted(victims, true) && done <= victims && done != [] && done != victims
    ensures victims[0] in done && victims[|victims| - 1] !in done
    ensures forall x :: x in victims ==> victims[|victims| - 1].time <= x.time <= victims[0].time
  {
    var n := |victims| - 1;
    assert done[0] == victims[0];
    assert forall i :: 0 <= i < |done| ==> done[i] == victims[i];
    forall x | x in victims ensures victims[n].time <= x.time <= victims[0].time {
      var i :| 0 <= i <= n && victims[i] == x;
      assert Key(victims[0], true) <= Key(victims[i], true) <= Key(victims[n], true);
    }
  }

  /**
   Backup retention deletes the newest victim first and stops at the first refusal: it
   loses the oldest exactly if it deleted none, deleted all, or the victims have one time.
   */
  lemma BackupLosesOldest(backups: seq<Item>, keep: nat, refused: set<string>)
    requires Distinct(backups)
    ensures var victims := BackupVictims(backups, keep);
            var done := BeforeRefusal(victims, refused);
            LosesOldest(backups, AfterRetention(backups, keep, refused)) <==>
              done == [] || done == victims || victims[0].time == victims[|victims| - 1].time
  {
    var victims := BackupVictims(backups, keep);
    var done := BeforeRefusal(victims, refused);
    var after := AfterRetention(backups, keep, refused);
    BackupVictimsOldest(backups, keep);
    AfterExactly(backups, keep, done);
    CutExactly(backups, after, victims, done);
  }

  lemma AfterExactly(backups: seq<Item>, keep: nat, done: seq<Item>)
    requires Distinct(backups) && done <= BackupVictims(backups, keep)
    ensures forall x :: x in Without(backups, Names(done)) <==> x in backups && x !in done
  {
    forall x ensures x in Without(backups, Names(done)) <==> x in backups && x !in done {
      LeftMember(backups, Names(done), x);
      if x in backups { DoneExactly(backups, keep, done, x); }
    }
  }

  /** The victims are listed newest first and deleted up to a point. */
  lemma CutExactly(backups: seq<Item>, after: seq<Item>, victims: seq<Item>, done: seq<Item>)
    requires OldestOf(victims, backups) && Distinct(victims) && Sorted(victims, true) && done <= victims
    requires forall x :: x in after <==> x in backups && x !in done
    ensures LosesOldest(backups, after) <==> done == [] || done == victims || victims[0].time == victims[|victims| - 1].time
  {
    if done == [] {
    } else if done == victims {
      forall y, z | y in backups && y !in after && z in after ensures y.time <= z.time {
        assert y in ItemsOf(victims) && z in ItemsOf(backups) - ItemsOf(victims);
      }
    } else {
      FirstAndLast(victims, done);
      OneTimeSuffices(backups, after, victims, done);
      assert victims[0] in victims && victims[|victims| - 1] in victims;
    }
  }

  lemma OneTimeSuffices(backups: seq<Item>, after: seq<Item>, victims: seq<Item>, done: seq<Item>)
    requires OldestOf(victims, backups) && done <= victims && victims != []
    requires forall x :: x in after <==> x in backups && x !in done
    requires forall x :: x in victims ==> victims[|victims| - 1].time <= x.time <= victims[0].time
    ensures victims[0].time == victims[|victims| - 1].time ==> LosesOldest(backups, after)
  {
    if victims[0].time == victims[|victims| - 1].time {
      forall y, z | y in backups && y !in after && z in after ensures y.time <= z.time {
        assert y in done && y in ItemsOf(victims);
        if z !in victims { assert z in ItemsOf(backups) - ItemsOf(victims); }
      }
    }
  }

  // ---------------------------------------------------------------- failing inputs

  lemma {:induction false} SortedStays(s: seq<Item>, newest: bool)
    requires Sorted(s, newest)
    ensures Sort(s, newest) == s
  {
    if s == [] {
    } else {
      SortedStays(s[..|s| - 1], newest);
    }
  }

  /** Backups at times 3, 2 and 1, one to keep: when the oldest cannot be deleted, the middle one goes and the oldest stays. */
  lemma BackupKeepsOlder()
    ensures var backups, refused := [Item("c", 3), Item("b", 2), Item("a", 1)], {"a"};
            && Distinct(backups) && !LosesOldest(backups, AfterRetention(backups, 1, refused))
  {
    var backups, refused := [Item("c", 3), Item("b", 2), Item("a", 1)], {"a"};
    assert "c"[0] != "b"[0] && "b"[0] != "a"[0] && "c"[0] != "a"[0];
    SortedStays(backups, true);
    var victims := BackupVictims(backups, 1);
    assert victims == [Item("b", 2), Item("a", 1)];
    assert victims[1..] == [Item("a", 1)] && BeforeRefusal([Item("a", 1)], refused) == [];
    assert BeforeRefusal(victims, refused) == [Item("b", 2)];
    BackupLosesOldest(backups, 1, refused);
  }

  lemma TwoAutos(a: Item, b: Item)
    requires IsAuto(a) && IsAuto(b) && a.time < b.time
    ensures Autos([a, b]) == [a, b] && Latest([a, b]) == b.time
  {
    SelectEvery([a, b], IsAuto);
    assert a in [a, b] && b in [a, b];
  }

  lemma TwoVictims(a: Item, b: Item)
    requires a.time < b.time
    ensures AutoVictims([a, b], 1) == [a, b]
  {
    SortedStays([a, b], false);
  }

  /** Two automatic snapshots, one to keep: when the older cannot be deleted, the newer goes and the older stays. */
  lemma CheckKeepsOlder(a: Item, b: Item, c: CheckInput)
    requires IsAuto(a) && IsAuto(b) && Distinct([a, b]) && 0 <= a.time < b.time
    requires c.listed && b.time + c.interval < c.now < 0x1_0000_0000_0000_0000
    requires c.creation.Some? && AUTO + c.creation.value.stamp != a.name && AUTO + c.creation.value.stamp != b.name
    requires c.retention == 1 && c.refused == {a.name}
    ensures Created([a, b], c).Some? && !LosesOldest(Autos([a, b]), Autos(Checked([a, b], c)))
  {
    var snaps := [a, b];
    TwoAutos(a, b);
    assert Created(snaps, c).Some?;
    TwoVictims(a, b);
    assert snaps[0].name != snaps[1].name;
    assert b in snaps && a in snaps;
    CheckedLosesOldest(snaps, c);
  }

  /** Rollback points at times 1, 2 and 3, one to keep: when the oldest cannot be deleted, the middle one goes and the oldest stays. */
  lemma RollbackKeepsOlder(a: Item, b: Item, c: Item)
    requires IsRollback(a) && IsRollback(b) && IsRollback(c) && Distinct([a, b, c])
    requires a.time < b.time < c.time
    ensures !LosesOldest(Rollbacks([a, b, c]), Rollbacks(AfterRollback([a, b, c], 1, {a.name})))
  {
    var snaps := [a, b, c];
    SelectEvery(snaps, IsRollback);
    ThreeVictims(a, b, c);
    assert snaps[0].name != snaps[1].name;
    assert a in [a, b] && b in [a, b];
    RollbackLosesOldest(snaps, 1, {a.name});
  }

  lemma ThreeVictims(a: Item, b: Item, c: Item)
    requires a.time < b.time < c.time
    ensures RollbackVictims([a, b, c], 1) == [a, b]
  {
    SortedStays([a, b, c], false);
  }

  lemma {:induction false} SelectEvery(s: seq<Item>, pass: Item -> bool)
    requires forall x :: x in s ==> pass(x)
    ensures Select(s, pass) == s
  {
    if s == [] {
    } else {
      SelectEvery(s[..|s| - 1], pass);
    }
  }

  /** Two items of one time, one to keep: dropping the oldest and cutting off after the newest keep different ones. */
  lemma TieKeepsDifferent(a: Item, b: Item)
    requires Distinct([a, b]) && a.time == b.time
    ensures KeptOldestFirst([a, b], 1) != KeptNewestFirst([a, b], 1)
  {
    var s := [a, b];
    SortedStays(s, false);
    assert OldestFirst(s)[0] == a && OldestFirst(s)[1] == b;
    PoliciesAgree(s, 1);
  }
}
