/**
 The three "keep the newest" policies: automatic snapshots pruned inside the
 scheduler's check, rollback points pruned oldest first, and backups cut off after the
 newest ones. What libvirt or the file system refuses to delete is a parameter.
 */
module Retention {
  import opened Collections
  import opened Wrappers

  /** A snapshot or a backup: its name and its creation time. */
  datatype Item = Item(name: string, time: int)

  /** The items that pass, in order. */
  function Select(s: seq<Item>, pass: Item -> bool): seq<Item> {
    if s == [] then []
    else Select(s[..|s| - 1], pass) + (if pass(s[|s| - 1]) then [s[|s| - 1]] else [])
  }

  lemma {:induction false} SelectMembers(s: seq<Item>, pass: Item -> bool)
    ensures forall x :: x in Select(s, pass) <==> x in s && pass(x)
  {
    if s == [] {
    } else {
      SelectMembers(s[..|s| - 1], pass);
      assert s == s[..|s| - 1] + [s[|s| - 1]];
    }
  }

  // ------------------------------------------------------------------ stable sort

  /** The sort key: creation time, or its opposite when the newest come first. */
  function Key(x: Item, newest: bool): int { if newest then -x.time else x.time }

  function Insert(s: seq<Item>, x: Item, newest: bool): (r: seq<Item>)
    ensures |r| == |s| + 1
  {
    if s == [] || Key(s[|s| - 1], newest) <= Key(x, newest) then s + [x]
    else Insert(s[..|s| - 1], x, newest) + [s[|s| - 1]]
  }

  /** The stable sort by key. */
  function Sort(s: seq<Item>, newest: bool): (r: seq<Item>)
    ensures |r| == |s|
  {
    if s == [] then [] else Insert(Sort(s[..|s| - 1], newest), s[|s| - 1], newest)
  }

  function OldestFirst(s: seq<Item>): (r: seq<Item>)
    ensures |r| == |s|
  {
    Sort(s, false)
  }

  function NewestFirst(s: seq<Item>): (r: seq<Item>)
    ensures |r| == |s|
  {
    Sort(s, true)
  }

  ghost predicate Sorted(s: seq<Item>, newest: bool) {
    forall i, j :: 0 <= i < j < |s| ==> Key(s[i], newest) <= Key(s[j], newest)
  }

  function AtTime(s: seq<Item>, t: int): seq<Item> { Select(s, (x: Item) => x.time == t) }

  lemma AtTimeSnoc(s: seq<Item>, x: Item, t: int)
    ensures AtTime(s + [x], t) == AtTime(s, t) + (if x.time == t then [x] else [])
  {
    assert (s + [x])[..|s|] == s;
  }

  lemma {:induction false} InsertMembers(s: seq<Item>, x: Item, newest: bool)
    ensures multiset(Insert(s, x, newest)) == multiset(s + [x])
  {
    if s != [] && Key(s[|s| - 1], newest) > Key(x, newest) {
      var n := |s| - 1;
      InsertMembers(s[..n], x, newest);
      assert s == s[..n] + [s[n]];
    }
  }

  lemma InsertMember(s: seq<Item>, x: Item, newest: bool, y: Item)
    requires y in Insert(s, x, newest)
    ensures y in s || y == x
  {
    InsertMembers(s, x, newest);
    assert y in multiset(Insert(s, x, newest));
    assert y in s + [x];
  }

  lemma {:induction false} InsertSorts(s: seq<Item>, x: Item, newest: bool)
    requires Sorted(s, newest)
    ensures Sorted(Insert(s, x, newest), newest)
  {
    if s != [] && Key(s[|s| - 1], newest) > Key(x, newest) {
      var n := |s| - 1;
      var r := Insert(s[..n], x, newest);
      InsertSorts(s[..n], x, newest);
      forall i | 0 <= i < |r| ensures Key(r[i], newest) <= Key(s[n], newest) {
        InsertMember(s[..n], x, newest, r[i]);
      }
    }
  }

  lemma {:induction false} InsertStable(s: seq<Item>, x: Item, newest: bool, t: int)
    ensures AtTime(Insert(s, x, newest), t) == AtTime(s + [x], t)
  {
    if s != [] && Key(s[|s| - 1], newest) > Key(x, newest) {
      var n := |s| - 1;
      InsertStable(s[..n], x, newest, t);
      AtTimeSnoc(Insert(s[..n], x, newest), s[n], t);
      AtTimeSnoc(s[..n], x, t);
      AtTimeSnoc(s, x, t);
    }
  }

  /** Sorting permutes, orders by key, and keeps items of one time in their order. */
  lemma {:induction false} SortIsStable(s: seq<Item>, newest: bool)
    ensures Sorted(Sort(s, newest), newest) && multiset(Sort(s, newest)) == multiset(s)
    ensures forall t :: AtTime(Sort(s, newest), t) == AtTime(s, t)
  {
    if s == [] {
    } else {
      var n := |s| - 1;
      var front := Sort(s[..n], newest);
      SortIsStable(s[..n], newest);
      assert s == s[..n] + [s[n]];
      InsertSorts(front, s[n], newest);
      InsertMembers(front, s[n], newest);
      forall t ensures AtTime(Sort(s, newest), t) == AtTime(s, t) {
        InsertStable(front, s[n], newest, t);
        AtTimeSnoc(front, s[n], t);
      }
    }
  }

  // -------------------------------------------------------------------- contents

  const AUTO := "auto-"
  const ROLLBACK := "libre-vmm-rollback-"

  predicate IsAuto(x: Item) { AUTO <= x.name }

  predicate IsRollback(x: Item) { ROLLBACK <= x.name }

  lemma PrefixesDiffer(x: Item)
    ensures !(IsAuto(x) && IsRollback(x))
  {
    if IsRollback(x) {
      assert x.name[0] == ROLLBACK[0];
    }
  }

  /** Names are unique, as libvirt and the backup directory keep them. */
  ghost predicate Distinct(s: seq<Item>) { forall i, j :: 0 <= i < j < |s| ==> s[i].name != s[j].name }

  function Names(s: seq<Item>): set<string> { set x | x in s :: x.name }

  function Autos(s: seq<Item>): seq<Item> { Select(s, IsAuto) }

  function Rollbacks(s: seq<Item>): seq<Item> { Select(s, IsRollback) }

  /** What is left, in order, when the named items are gone. */
  function Without(s: seq<Item>, gone: set<string>): seq<Item> { Select(s, (x: Item) => x.name !in gone) }

  lemma {:induction false} SelectCong(s: seq<Item>, p: Item -> bool, q: Item -> bool)
    requires forall x :: x in s ==> p(x) == q(x)
    ensures Select(s, p) == Select(s, q)
  {
    if s == [] {
    } else {
      assert s[|s| - 1] in s;
      SelectCong(s[..|s| - 1], p, q);
    }
  }

  lemma {:induction false} SelectTwice(s: seq<Item>, p: Item -> bool, q: Item -> bool)
    ensures Select(Select(s, p), q) == Select(s, (x: Item) => p(x) && q(x))
  {
    if s == [] {
    } else {
      var n := |s| - 1;
      SelectTwice(s[..n], p, q);
      var front := Select(s[..n], p);
      assert front + [] == front;
    }
  }

  lemma WithoutTwice(s: seq<Item>, a: set<string>, b: set<string>)
    ensures Without(Without(s, a), b) == Without(s, a + b)
  {
    SelectTwice(s, (x: Item) => x.name !in a, (x: Item) => x.name !in b);
    SelectCong(s, (x: Item) => ((y: Item) => y.name !in a)(x) && ((y: Item) => y.name !in b)(x), (x: Item) => x.name !in a + b);
  }

  /** Removing names that none of the selected items has leaves the selection as it was. */
  lemma {:induction false} SelectWithout(s: seq<Item>, gone: set<string>, pass: Item -> bool)
    requires forall x :: x in s && pass(x) ==> x.name !in gone
    ensures Select(Without(s, gone), pass) == Select(s, pass)
  {
    if s == [] {
    } else {
      var n := |s| - 1;
      assert s[n] in s;
      SelectWithout(s[..n], gone, pass);
      assert Without(s, gone) == Without(s[..n], gone) + (if s[n].name in gone then [] else [s[n]]);
      assert Without(s[..n], gone) + [] == Without(s[..n], gone);
    }
  }

  lemma WithoutMissing(s: seq<Item>, gone: set<string>)
    requires gone !! Names(s)
    ensures Without(s, gone) == s
  {
    SelectCong(s, (x: Item) => x.name !in gone, (x: Item) => true);
    SelectAll(s);
  }

  lemma {:induction false} SelectAll(s: seq<Item>)
    ensures Select(s, (x: Item) => true) == s
  {
    if s != [] { SelectAll(s[..|s| - 1]); }
  }

  lemma SelectDistinct(s: seq<Item>, pass: Item -> bool)
    requires Distinct(s)
    ensures Distinct(Select(s, pass))
  {
    if s != [] {
      var n := |s| - 1;
      SelectDistinct(s[..n], pass);
      SelectMembers(s[..n], pass);
      var front := Select(s[..n], pass);
      forall i | 0 <= i < |front| ensures front[i].name != s[n].name {
        assert front[i] in s[..n];
      }
    }
  }

  lemma {:induction false} WithoutSize(s: seq<Item>, gone: set<string>)
    requires Distinct(s) && gone <= Names(s)
    ensures |Without(s, gone)| == |s| - |gone|
  {
    if s == [] {
      assert gone == {};
    } else {
      var n := |s| - 1;
      var name := s[n].name;
      NamesSnoc(s);
      WithoutSize(s[..n], gone - {name});
      SelectCong(s[..n], (x: Item) => x.name !in gone - {name}, (x: Item) => x.name !in gone);
      assert Without(s[..n], gone - {name}) == Without(s[..n], gone);
    }
  }

  lemma NamesSnoc(s: seq<Item>)
    requires Distinct(s) && s != []
    ensures s[|s| - 1].name !in Names(s[..|s| - 1]) && Names(s) == Names(s[..|s| - 1]) + {s[|s| - 1].name}
  {
    assert s == s[..|s| - 1] + [s[|s| - 1]];
  }

  // --------------------------------------------------------------------- policies

  /** `existing` was listed before one more snapshot was made. */
  function AutoVictims(existing: seq<Item>, retention: nat): seq<Item> {
    if |existing| + 1 <= retention then []
    else OldestFirst(existing)[..Min(|existing| + 1 - retention, |existing|)]
  }

  function RollbackVictims(points: seq<Item>, keep: nat): seq<Item> {
    if |points| <= keep then [] else OldestFirst(points)[..|points| - keep]
  }

  function BackupVictims(backups: seq<Item>, keep: nat): seq<Item> {
    if |NewestFirst(backups)| <= keep then [] else NewestFirst(backups)[keep..]
  }

  /** The snapshots left by rollback pruning: a refused deletion is skipped. */
  function AfterRollback(snaps: seq<Item>, keep: nat, refused: set<string>): seq<Item> {
    Without(snaps, Names(RollbackVictims(Rollbacks(snaps), keep)) - refused)
  }

  /** The backups left by retention: a refused deletion ends the loop. */
  function AfterRetention(backups: seq<Item>, keep: nat, refused: set<string>): seq<Item> {
    Without(backups, Names(BeforeRefusal(BackupVictims(backups, keep), refused)))
  }

  /** The deletions made when the first refusal ends the loop. */
  function BeforeRefusal(victims: seq<Item>, refused: set<string>): (r: seq<Item>)
    ensures r <= victims
    ensures forall x :: x in r ==> x.name !in refused
    ensures r != victims ==> victims[|r|].name in refused
  {
    if victims == [] || victims[0].name in refused then []
    else [victims[0]] + BeforeRefusal(victims[1..], refused)
  }

  // ------------------------------------------------------------ what a policy keeps

  function ItemsOf(s: seq<Item>): set<Item> { set x | x in s }

  lemma ItemsSnoc(s: seq<Item>)
    requires Distinct(s) && s != []
    ensures s[|s| - 1] !in ItemsOf(s[..|s| - 1]) && ItemsOf(s) == ItemsOf(s[..|s| - 1]) + {s[|s| - 1]}
  {
    assert s == s[..|s| - 1] + [s[|s| - 1]];
  }

  lemma {:induction false} DistinctSizes(s: seq<Item>)
    requires Distinct(s)
    ensures |ItemsOf(s)| == |s| && |Names(s)| == |s|
  {
    if s == [] {
    } else {
      var n := |s| - 1;
      DistinctSizes(s[..n]);
      NamesSnoc(s);
      ItemsSnoc(s);
    }
  }

  lemma {:induction false} AtMostOnce(s: seq<Item>, x: Item)
    requires Distinct(s)
    ensures multiset(s)[x] <= 1
  {
    if s == [] {
    } else {
      var n := |s| - 1;
      AtMostOnce(s[..n], x);
      assert s == s[..n] + [s[n]];
    }
  }

  lemma SortMembers(s: seq<Item>, newest: bool)
    ensures forall x :: x in Sort(s, newest) <==> x in s
    ensures ItemsOf(Sort(s, newest)) == ItemsOf(s) && Names(Sort(s, newest)) == Names(s)
  {
    SortIsStable(s, newest);
    var r := Sort(s, newest);
    forall x ensures x in r <==> x in s {
      assert (x in r <==> x in multiset(r)) && (x in s <==> x in multiset(s));
    }
  }

  lemma RepeatCounts(r: seq<Item>, i: nat, j: nat)
    requires i < j < |r| && r[i] == r[j]
    ensures multiset(r)[r[i]] >= 2
  {
    assert r == r[..j] + r[j..];
    assert r[i] in r[..j] && r[i] in r[j..];
    assert multiset(r) == multiset(r[..j]) + multiset(r[j..]);
  }

  lemma SortKeepsDistinct(s: seq<Item>, newest: bool)
    requires Distinct(s)
    ensures Distinct(Sort(s, newest))
  {
    var r := Sort(s, newest);
    SortMembers(s, newest);
    SortIsStable(s, newest);
    forall i, j | 0 <= i < j < |r| ensures r[i].name != r[j].name {
      assert r[i] in s && r[j] in s;
      var a :| 0 <= a < |s| && s[a] == r[i];
      var b :| 0 <= b < |s| && s[b] == r[j];
      AtMostOnce(s, r[i]);
      if a == b { RepeatCounts(r, i, j); }
    }
  }

  /** The items rollback pruning leaves, and those backup retention leaves. */
  function KeptOldestFirst(s: seq<Item>, keep: nat): set<Item> {
    ItemsOf(s) - ItemsOf(RollbackVictims(s, keep))
  }

  function KeptNewestFirst(s: seq<Item>, keep: nat): set<Item> {
    ItemsOf(s) - ItemsOf(BackupVictims(s, keep))
  }

  /** The last item dropped and the first item kept, oldest first, have different times. */
  predicate CleanCut(s: seq<Item>, keep: nat) {
    keep == 0 || |s| <= keep || OldestFirst(s)[|s| - keep - 1].time < OldestFirst(s)[|s| - keep].time
  }

  lemma SliceRest(o: seq<Item>, c: nat, all: set<Item>)
    requires Distinct(o) && c <= |o| && ItemsOf(o) == all
    ensures all - ItemsOf(o[..c]) == ItemsOf(o[c..]) && all - ItemsOf(o[c..]) == ItemsOf(o[..c])
  {
    var a, b := ItemsOf(o[..c]), ItemsOf(o[c..]);
    assert o == o[..c] + o[c..];
    assert all == a + b;
    forall x | x in a ensures x !in b {
      var i :| 0 <= i < c && o[..c][i] == x;
      assert o[i] == x && forall j :: c <= j < |o| ==> o[j] != o[i];
    }
  }

  lemma KeptOldestIs(s: seq<Item>, keep: nat)
    requires Distinct(s) && keep < |s|
    ensures KeptOldestFirst(s, keep) == ItemsOf(OldestFirst(s)[|s| - keep..])
  {
    SortKeepsDistinct(s, false);
    SortMembers(s, false);
    SliceRest(OldestFirst(s), |s| - keep, ItemsOf(s));
  }

  lemma KeptNewestIs(s: seq<Item>, keep: nat)
    requires Distinct(s) && keep < |s|
    ensures KeptNewestFirst(s, keep) == ItemsOf(NewestFirst(s)[..keep])
  {
    SortKeepsDistinct(s, true);
    SortMembers(s, true);
    SliceRest(NewestFirst(s), keep, ItemsOf(s));
  }

  /** In a list sorted newest first, what comes after an item is no newer. */
  lemma NewerComeFirst(d: seq<Item>, keep: nat, x: Item, y: Item)
    requires Sorted(d, true) && keep <= |d| && x in d[keep..] && y in d[..keep]
    ensures x.time <= y.time
  {
    var i :| 0 <= i < keep && d[..keep][i] == y;
    var j :| 0 <= j < |d| - keep && d[keep..][j] == x;
    assert Key(d[i], true) <= Key(d[keep + j], true);
  }

  lemma UpperInFront(o: seq<Item>, d: seq<Item>, c: nat, x: Item)
    requires Sorted(o, false) && Sorted(d, true) && Distinct(o) && Distinct(d)
    requires ItemsOf(o) == ItemsOf(d) && |o| == |d|
    requires 0 < c < |o| && o[c - 1].time < o[c].time && x in o[c..]
    ensures x in d[..|d| - c]
  {
    var keep := |d| - c;
    var upper, front := ItemsOf(o[c..]), ItemsOf(d[..keep]);
    if x !in front {
      assert x in ItemsOf(o) && x in d[keep..];
      AboveCut(o, c);
      forall y | y in front ensures y in upper && y != x {
        NewerComeFirst(d, keep, x, y);
        assert y in ItemsOf(o);
      }
      assert front <= upper - {x};
      DistinctSizes(o[c..]);
      DistinctSizes(d[..keep]);
      SubsetSize(front, upper - {x});
    }
  }

  /** A clean cut: the newest of one list are the first of the other. */
  lemma CleanSlicesAgree(o: seq<Item>, d: seq<Item>, c: nat)
    requires Sorted(o, false) && Sorted(d, true) && Distinct(o) && Distinct(d)
    requires ItemsOf(o) == ItemsOf(d) && |o| == |d|
    requires 0 < c < |o| && o[c - 1].time < o[c].time
    ensures ItemsOf(o[c..]) == ItemsOf(d[..|d| - c])
  {
    forall x | x in o[c..] ensures x in d[..|d| - c] {
      UpperInFront(o, d, c, x);
    }
    DistinctSizes(o[c..]);
    DistinctSizes(d[..|d| - c]);
    SubsetSame(ItemsOf(o[c..]), ItemsOf(d[..|d| - c]));
  }

  lemma AboveCut(o: seq<Item>, c: nat)
    requires Sorted(o, false) && 0 < c < |o| && o[c - 1].time < o[c].time
    ensures forall x :: x in o[c..] <==> x in o && x.time >= o[c].time
  {
    forall i | 0 <= i < |o| ensures i >= c <==> o[i].time >= o[c].time {
      assert i < c - 1 ==> Key(o[i], false) <= Key(o[c - 1], false);
      assert i > c ==> Key(o[c], false) <= Key(o[i], false);
    }
    assert forall i :: c <= i < |o| ==> o[i] == o[c..][i - c];
  }

  // Items of one time come out of both sorts in the order they went in.

  lemma {:induction false} BeforeSelected(s: seq<Item>, i: nat, j: nat, pass: Item -> bool)
    requires i < j < |s| && pass(s[i]) && pass(s[j])
    ensures exists p, q :: 0 <= p < q < |Select(s, pass)| && Select(s, pass)[p] == s[i] && Select(s, pass)[q] == s[j]
  {
    var n := |s| - 1;
    var front := Select(s[..n], pass);
    if j == n {
      SelectMembers(s[..n], pass);
      assert s[..n][i] in front;
      var p :| 0 <= p < |front| && front[p] == s[i];
      assert Select(s, pass)[p] == s[i] && Select(s, pass)[|front|] == s[j];
    } else {
      BeforeSelected(s[..n], i, j, pass);
      var p, q :| 0 <= p < q < |front| && front[p] == s[i] && front[q] == s[j];
      assert Select(s, pass)[p] == s[i] && Select(s, pass)[q] == s[j];
    }
  }

  lemma {:induction false} BeforeInWhole(s: seq<Item>, p: nat, q: nat, pass: Item -> bool)
    requires p < q < |Select(s, pass)|
    ensures exists i, j :: 0 <= i < j < |s| && s[i] == Select(s, pass)[p] && s[j] == Select(s, pass)[q]
  {
    var n := |s| - 1;
    var front := Select(s[..n], pass);
    if q == |front| {
      SelectMembers(s[..n], pass);
      assert front[p] in s[..n];
      var i :| 0 <= i < n && s[i] == front[p];
      assert s[i] == Select(s, pass)[p] && s[n] == Select(s, pass)[q];
    } else {
      BeforeInWhole(s[..n], p, q, pass);
      var i, j :| 0 <= i < j < n && s[..n][i] == front[p] && s[..n][j] == front[q];
      assert s[i] == Select(s, pass)[p] && s[j] == Select(s, pass)[q];
    }
  }

  lemma TiesKeepOrder(s: seq<Item>, i: nat, j: nat) returns (p: nat, q: nat)
    requires i < j < |s| && OldestFirst(s)[i].time == OldestFirst(s)[j].time
    ensures p < q < |s| && NewestFirst(s)[p] == OldestFirst(s)[i] && NewestFirst(s)[q] == OldestFirst(s)[j]
  {
    var o, d, t := OldestFirst(s), NewestFirst(s), OldestFirst(s)[i].time;
    var pass := (x: Item) => x.time == t;
    SortIsStable(s, false);
    SortIsStable(s, true);
    assert AtTime(o, t) == AtTime(d, t);
    SelectCong(o, pass, (x: Item) => x.time == t);
    BeforeSelected(o, i, j, (x: Item) => x.time == t);
    var a, b :| 0 <= a < b < |AtTime(o, t)| && AtTime(o, t)[a] == o[i] && AtTime(o, t)[b] == o[j];
    BeforeInWhole(d, a, b, (x: Item) => x.time == t);
    p, q :| 0 <= p < q < |d| && d[p] == o[i] && d[q] == o[j];
  }

  /** Two items in the same order on both lists, cut apart on the first, cannot be treated alike by the second. */
  lemma TieSlicesDiffer(o: seq<Item>, d: seq<Item>, c: nat, p: nat, q: nat)
    requires Distinct(o) && Distinct(d) && |o| == |d| && 0 < c < |o|
    requires p < q < |d| && d[p] == o[c - 1] && d[q] == o[c]
    ensures ItemsOf(o[c..]) != ItemsOf(d[..|d| - c])
  {
    var keep := |d| - c;
    var dropped, kept := o[c - 1], o[c];
    assert dropped == o[..c][c - 1] && kept == o[c..][0];
    assert dropped in ItemsOf(o[..c]) && kept in ItemsOf(o[c..]);
    if q < keep {
      assert d[..keep][p] == dropped;
      assert dropped in ItemsOf(d[..keep]) && dropped !in ItemsOf(o[c..]);
    } else {
      assert d[keep..][q - keep] == kept;
      assert kept in ItemsOf(d[keep..]) && kept !in ItemsOf(d[..keep]);
    }
  }

  lemma CutSameOrNot(s: seq<Item>, keep: nat)
    requires Distinct(s) && 0 < keep < |s|
    ensures ItemsOf(OldestFirst(s)[|s| - keep..]) == ItemsOf(NewestFirst(s)[..keep]) <==> CleanCut(s, keep)
  {
    SortMembers(s, false);
    SortMembers(s, true);
    SortIsStable(s, false);
    SortIsStable(s, true);
    SortKeepsDistinct(s, false);
    SortKeepsDistinct(s, true);
    var o, d, c := OldestFirst(s), NewestFirst(s), |s| - keep;
    if o[c - 1].time < o[c].time {
      CleanSlicesAgree(o, d, c);
    } else {
      assert Key(o[c - 1], false) <= Key(o[c], false);
      var p, q := TiesKeepOrder(s, c - 1, c);
      TieSlicesDiffer(o, d, c, p, q);
    }
  }

  /**
   Pruning the oldest and cutting off after the newest keep the same items exactly when
   the cut does not fall between items of one time, in particular for distinct times.
   */
  lemma PoliciesAgree(s: seq<Item>, keep: nat)
    requires Distinct(s)
    ensures KeptOldestFirst(s, keep) == KeptNewestFirst(s, keep) <==> CleanCut(s, keep)
  {
    if keep < |s| {
      KeptOldestIs(s, keep);
      KeptNewestIs(s, keep);
      if keep > 0 {
        CutSameOrNot(s, keep);
      }
    }
  }

  lemma DifferentAtCut(o: seq<Item>, s: seq<Item>, c: nat)
    requires forall i, j :: 0 <= i < j < |s| ==> s[i].time != s[j].time
    requires Distinct(o) && Sorted(o, false) && ItemsOf(o) == ItemsOf(s) && 0 < c < |o|
    ensures o[c - 1].time < o[c].time
  {
    assert Key(o[c - 1], false) <= Key(o[c], false);
    assert o[c - 1] in ItemsOf(o) && o[c] in ItemsOf(o);
    var i :| 0 <= i < |s| && s[i] == o[c - 1];
    var j :| 0 <= j < |s| && s[j] == o[c];
    assert o[c - 1].name != o[c].name;
    assert if i < j then s[i].time != s[j].time else s[j].time != s[i].time;
  }

  lemma DistinctTimesAgree(s: seq<Item>, keep: nat)
    requires Distinct(s) && forall i, j :: 0 <= i < j < |s| ==> s[i].time != s[j].time
    ensures KeptOldestFirst(s, keep) == KeptNewestFirst(s, keep)
  {
    if 0 < keep < |s| {
      SortMembers(s, false);
      SortIsStable(s, false);
      SortKeepsDistinct(s, false);
      DifferentAtCut(OldestFirst(s), s, |s| - keep);
    }
    assert CleanCut(s, keep);
    PoliciesAgree(s, keep);
  }

  /** No item dropped is newer than one kept. */
  ghost predicate DropsOldest(dropped: seq<Item>, kept: set<Item>) {
    forall x, y :: x in dropped && y in kept ==> x.time <= y.time
  }

  /** What rollback pruning would leave with no refusal: `keep` points at most, and the victims no newer than those. */
  lemma RollbackKeepsNewest(s: seq<Item>, keep: nat)
    requires Distinct(s)
    ensures |KeptOldestFirst(s, keep)| == Min(|s|, keep)
    ensures DropsOldest(RollbackVictims(s, keep), KeptOldestFirst(s, keep))
  {
    if keep < |s| {
      var o, c := OldestFirst(s), |s| - keep;
      RollbackCut(s, keep, o, c);
      OlderThanRest(o, c);
    } else {
      DistinctSizes(s);
      assert ItemsOf(s) - ItemsOf([]) == ItemsOf(s);
    }
  }

  lemma RollbackCut(s: seq<Item>, keep: nat, o: seq<Item>, c: nat)
    requires Distinct(s) && keep < |s| && c == |s| - keep && o == OldestFirst(s)
    ensures Sorted(o, false) && Distinct(o) && |o| == |s|
    ensures RollbackVictims(s, keep) == o[..c] && KeptOldestFirst(s, keep) == ItemsOf(o[c..])
  {
    KeptOldestIs(s, keep);
    SortKeepsDistinct(s, false);
    SortIsStable(s, false);
  }

  /** Backup retention likewise. */
  lemma BackupKeepsNewest(s: seq<Item>, keep: nat)
    requires Distinct(s)
    ensures |KeptNewestFirst(s, keep)| == Min(|s|, keep)
    ensures DropsOldest(BackupVictims(s, keep), KeptNewestFirst(s, keep))
  {
    if keep < |s| {
      KeptNewestIs(s, keep);
      SortKeepsDistinct(s, true);
      SortIsStable(s, true);
      NewerThanRest(NewestFirst(s), keep);
    } else {
      DistinctSizes(s);
      assert ItemsOf(s) - ItemsOf([]) == ItemsOf(s);
    }
  }

  lemma OlderThanRest(o: seq<Item>, c: nat)
    requires Sorted(o, false) && Distinct(o) && c <= |o|
    ensures DropsOldest(o[..c], ItemsOf(o[c..])) && |ItemsOf(o[c..])| == |o| - c
  {
    DistinctSizes(o[c..]);
    forall x, y | x in o[..c] && y in o[c..] ensures x.time <= y.time {
      OlderComeFirst(o, c, x, y);
    }
  }

  lemma NewerThanRest(d: seq<Item>, c: nat)
    requires Sorted(d, true) && Distinct(d) && c <= |d|
    ensures DropsOldest(d[c..], ItemsOf(d[..c])) && |ItemsOf(d[..c])| == c
  {
    DistinctSizes(d[..c]);
    forall x, y | x in d[c..] && y in d[..c] ensures x.time <= y.time {
      NewerComeFirst(d, c, x, y);
    }
  }

  lemma OlderComeFirst(o: seq<Item>, c: nat, x: Item, y: Item)
    requires Sorted(o, false) && c <= |o| && x in o[..c] && y in o[c..]
    ensures x.time <= y.time
  {
    var i :| 0 <= i < c && o[..c][i] == x;
    var j :| 0 <= j < |o| - c && o[c..][j] == y;
    assert Key(o[i], false) <= Key(o[c + j], false);
  }

  // ------------------------------------------------------------------- the check

  /** The greatest creation time. */
  function Latest(s: seq<Item>): (t: int)
    requires s != []
    ensures exists x :: x in s && x.time == t
    ensures forall x :: x in s ==> x.time <= t
  {
    if |s| == 1 then s[0].time
    else
      var n := |s| - 1;
      var front := Latest(s[..n]);
      assert forall x :: x in s <==> x in s[..n] || x == s[n] by { assert s == s[..n] + [s[n]]; }
      Max(front, s[n].time)
  }

  /** A signed 64-bit difference read as unsigned. */
  function AsU64(x: int): nat { x % 0x1_0000_0000_0000_0000 }

  /** A 32-bit number of hours, in seconds. */
  type Interval = n: nat | n <= 0xFFFF_FFFF * 3600

  /** A signed 64-bit count of seconds since the epoch, not before it. */
  predicate Stamped(time: int) { 0 <= time < 0x8000_0000_0000_0000 }

  predicate NeedsSnapshot(snaps: seq<Item>, now: int, interval: Interval) {
    Autos(snaps) == [] || AsU64(now - Latest(Autos(snaps))) > interval
  }

  /** What libvirt does with the next creation: a time stamp for the name and the time recorded, or a failure. */
  datatype Creation = Creation(stamp: string, time: int)

  datatype CheckInput = CheckInput(listed: bool, now: int, interval: Interval, retention: nat, creation: Option<Creation>, refused: set<string>)

  /** The snapshot a check adds; libvirt refuses a name already in use. */
  function Created(snaps: seq<Item>, c: CheckInput): Option<Item> {
    if c.listed && NeedsSnapshot(snaps, c.now, c.interval) && c.creation.Some? && AUTO + c.creation.value.stamp !in Names(snaps)
    then Some(Item(AUTO + c.creation.value.stamp, c.creation.value.time))
    else None
  }

  function Pruned(snaps: seq<Item>, c: CheckInput): set<string> { Names(AutoVictims(Autos(snaps), c.retention)) - c.refused }

  function Checked(snaps: seq<Item>, c: CheckInput): seq<Item> {
    var x := Created(snaps, c);
    if x.None? then snaps else Without(snaps + [x.value], Pruned(snaps, c))
  }

  /** One domain's snapshots as libvirt holds them. */
  class Domain {
    var snaps: seq<Item>

    constructor (initial: seq<Item>)
      ensures snaps == initial
    {
      snaps := initial;
    }

    /** Deletion by name; libvirt may refuse it. */
    method Delete(name: string, refused: set<string>) returns (ok: bool)
      modifies this
      ensures ok == (name in Names(old(snaps)) && name !in refused)
      ensures snaps == if ok then Without(old(snaps), {name}) else old(snaps)
    {
      ok := name in Names(snaps) && name !in refused;
      if ok {
        snaps := Without(snaps, {name});
      }
    }

    /** Deletes the victims one by one, whatever becomes of each. */
    method DeleteAll(victims: seq<Item>, refused: set<string>) returns (pruned: nat)
      modifies this
      ensures snaps == Without(old(snaps), Names(victims) - refused)
      ensures Distinct(victims) && Names(victims) <= Names(old(snaps)) ==> pruned == |Names(victims) - refused|
    {
      pruned := 0;
      NothingGone(snaps, refused);
      for i := 0 to |victims|
        invariant snaps == Without(old(snaps), Names(victims[..i]) - refused)
        invariant Distinct(victims) && Names(victims) <= Names(old(snaps)) ==> pruned == |Names(victims[..i]) - refused|
      {
        var ok := Delete(victims[i].name, refused);
        DeleteStep(old(snaps), victims, refused, i);
        if ok {
          pruned := pruned + 1;
        }
      }
      assert victims[..|victims|] == victims;
    }

    method PruneAutoSnapshots(existing: seq<Item>, retention: nat, refused: set<string>)
      modifies this
      ensures snaps == Without(old(snaps), Names(AutoVictims(existing, retention)) - refused)
    {
      var total := |existing| + 1;
      if total <= retention {
        NothingGone(snaps, refused);
        return;
      }
      var sorted := OldestFirst(existing);
      var toDelete := total - retention;
      var _ := DeleteAll(sorted[..Min(toDelete, |sorted|)], refused);
    }

    method CheckVmSnapshot(c: CheckInput)
      modifies this
      ensures snaps == Checked(old(snaps), c)
    {
      if !c.listed {
        return;
      }
      var autos := Autos(snaps);
      var needs := true;
      if autos != [] {
        needs := AsU64(c.now - Latest(autos)) > c.interval;
      }
      if !needs {
        return;
      }
      if c.creation.Some? {
        var x := Item(AUTO + c.creation.value.stamp, c.creation.value.time);
        if x.name !in Names(snaps) {
          snaps := snaps + [x];
          PruneAutoSnapshots(autos, c.retention, c.refused);
        }
      }
    }

    /** The count of rollback points pruned. */
    method PruneRollbackPoints(keep: nat, refused: set<string>) returns (pruned: nat)
      requires Distinct(snaps)
      modifies this
      ensures snaps == AfterRollback(old(snaps), keep, refused)
      ensures pruned == |Names(RollbackVictims(Rollbacks(old(snaps)), keep)) - refused|
    {
      var points := OldestFirst(Rollbacks(snaps));
      if |points| <= keep {
        NothingGone(snaps, refused);
        return 0;
      }
      RollbackVictimsNamed(snaps, keep);
      pruned := DeleteAll(points[..|points| - keep], refused);
    }
  }

  lemma NothingGone(s: seq<Item>, refused: set<string>)
    ensures Without(s, Names([]) - refused) == s && Names([]) - refused == {}
  {
    assert Names([]) - refused == {};
    WithoutMissing(s, {});
  }

  /** The oldest of the selected items: distinct, selected, and among the items. */
  lemma VictimsNamed(snaps: seq<Item>, pass: Item -> bool, c: nat)
    requires Distinct(snaps) && c <= |Select(snaps, pass)|
    ensures var victims := OldestFirst(Select(snaps, pass))[..c];
            && Distinct(victims) && Names(victims) <= Names(snaps)
            && forall x :: x in victims ==> x in snaps && pass(x)
  {
    var chosen := Select(snaps, pass);
    SelectDistinct(snaps, pass);
    SelectMembers(snaps, pass);
    SortKeepsDistinct(chosen, false);
    SortMembers(chosen, false);
    PrefixMembers(OldestFirst(chosen), c, chosen);
  }

  lemma RollbackVictimsNamed(snaps: seq<Item>, keep: nat)
    requires Distinct(snaps)
    ensures var victims := RollbackVictims(Rollbacks(snaps), keep); Distinct(victims) && Names(victims) <= Names(snaps)
  {
    if |Rollbacks(snaps)| > keep {
      VictimsNamed(snaps, IsRollback, |Rollbacks(snaps)| - keep);
    }
  }

  lemma PrefixMembers(sorted: seq<Item>, c: nat, chosen: seq<Item>)
    requires c <= |sorted| && forall x :: x in sorted <==> x in chosen
    ensures forall x :: x in sorted[..c] ==> x in chosen
  {
    forall x | x in sorted[..c] ensures x in chosen {
      assert x in sorted;
    }
  }

  lemma DeleteStep(s: seq<Item>, victims: seq<Item>, refused: set<string>, i: nat)
    requires i < |victims|
    ensures var before := Without(s, Names(victims[..i]) - refused);
            var name := victims[i].name;
            var ok := name in Names(before) && name !in refused;
            && Without(s, Names(victims[..i + 1]) - refused) == (if ok then Without(before, {name}) else before)
            && (Distinct(victims) && Names(victims) <= Names(s) ==>
                 |Names(victims[..i + 1]) - refused| == |Names(victims[..i]) - refused| + (if ok then 1 else 0))
  {
    var gone, name := Names(victims[..i]) - refused, victims[i].name;
    var before := Without(s, gone);
    assert victims[..i + 1] == victims[..i] + [victims[i]];
    assert Names(victims[..i + 1]) == Names(victims[..i]) + {name};
    WithoutNames(s, gone);
    if name !in refused {
      assert Names(victims[..i + 1]) - refused == gone + {name};
      WithoutTwice(s, gone, {name});
      if name !in Names(before) {
        WithoutMissing(before, {name});
      }
      if Distinct(victims) && Names(victims) <= Names(s) {
        assert name !in Names(victims[..i]);
        assert name in Names(victims);
      }
    } else {
      assert Names(victims[..i + 1]) - refused == gone;
    }
  }

  lemma WithoutNames(s: seq<Item>, gone: set<string>)
    ensures Names(Without(s, gone)) == Names(s) - gone
  {
    SelectMembers(s, (x: Item) => x.name !in gone);
  }

  /** The backups of one machine. */
  class BackupDirectory {
    var backups: seq<Item>

    constructor (initial: seq<Item>)
      ensures backups == initial
    {
      backups := initial;
    }

    /** Removing a directory that is not there succeeds. */
    method DeleteBackup(id: string, refused: set<string>) returns (ok: bool)
      modifies this
      ensures ok == (id !in Names(old(backups)) || id !in refused)
      ensures backups == if ok then Without(old(backups), {id}) else old(backups)
    {
      if id !in Names(backups) {
        WithoutMissing(backups, {id});
        return true;
      }
      ok := id !in refused;
      if ok {
        backups := Without(backups, {id});
      }
    }

    /** The count of backups deleted, or no result when a deletion fails; earlier deletions then stand. */
    method ApplyRetention(keep: nat, refused: set<string>) returns (deleted: Option<nat>)
      requires Distinct(backups)
      modifies this
      ensures var victims := BackupVictims(old(backups), keep);
              && backups == AfterRetention(old(backups), keep, refused)
              && deleted == (if BeforeRefusal(victims, refused) == victims then Some(|victims|) else None)
    {
      var listed := NewestFirst(backups);
      WithoutMissing(backups, Names([]));
      if |listed| <= keep {
        return Some(0);
      }
      var victims := listed[keep..];
      BackupVictimsListed(backups, keep);
      for i := 0 to |victims|
        invariant backups == Without(old(backups), Names(victims[..i]))
        invariant forall k :: 0 <= k < i ==> victims[k].name !in refused
      {
        RetentionStep(old(backups), victims, i);
        var ok := DeleteBackup(victims[i].name, refused);
        if !ok {
          BeforeFirst(victims, refused, i);
          return None;
        }
      }
      BeforeFirst(victims, refused, |victims|);
      assert victims[..|victims|] == victims;
      deleted := Some(|victims|);
    }
  }

  lemma BackupVictimsListed(backups: seq<Item>, keep: nat)
    requires Distinct(backups)
    ensures Distinct(BackupVictims(backups, keep)) && forall x :: x in BackupVictims(backups, keep) ==> x in backups
  {
    SortKeepsDistinct(backups, true);
    SortMembers(backups, true);
    forall x | x in BackupVictims(backups, keep) ensures x in backups {
      assert x in NewestFirst(backups);
    }
  }

  lemma RetentionStep(s: seq<Item>, victims: seq<Item>, i: nat)
    requires Distinct(victims) && i < |victims| && forall x :: x in victims ==> x in s
    ensures victims[i].name in Names(Without(s, Names(victims[..i])))
    ensures Without(Without(s, Names(victims[..i])), {victims[i].name}) == Without(s, Names(victims[..i + 1]))
  {
    assert victims[i] in s;
    WithoutNames(s, Names(victims[..i]));
    assert victims[..i + 1] == victims[..i] + [victims[i]];
    assert Names(victims[..i + 1]) == Names(victims[..i]) + {victims[i].name};
    WithoutTwice(s, Names(victims[..i]), {victims[i].name});
  }

  lemma {:induction false} BeforeFirst(victims: seq<Item>, refused: set<string>, i: nat)
    requires i <= |victims| && forall k :: 0 <= k < i ==> victims[k].name !in refused
    requires i < |victims| ==> victims[i].name in refused
    ensures BeforeRefusal(victims, refused) == victims[..i]
  {
    if i == 0 {
    } else {
      BeforeFirst(victims[1..], refused, i - 1);
    }
  }

  // ------------------------------------------------------- what one check guarantees

  lemma SelectCommutes(s: seq<Item>, gone: set<string>, pass: Item -> bool)
    ensures Select(Without(s, gone), pass) == Without(Select(s, pass), gone)
  {
    var stays := (x: Item) => x.name !in gone;
    SelectTwice(s, stays, pass);
    SelectTwice(s, pass, stays);
    SelectCong(s, (x: Item) => stays(x) && pass(x), (x: Item) => pass(x) && stays(x));
    SelectCong(s, stays, (x: Item) => x.name !in gone);
    SelectCong(Select(s, pass), stays, (x: Item) => x.name !in gone);
  }

  lemma SelectedSize(s: seq<Item>, gone: set<string>, pass: Item -> bool)
    requires Distinct(s) && gone <= Names(Select(s, pass))
    ensures |Select(Without(s, gone), pass)| == |Select(s, pass)| - |gone|
  {
    SelectCommutes(s, gone, pass);
    SelectDistinct(s, pass);
    WithoutSize(Select(s, pass), gone);
  }

  lemma PrunedNames(snaps: seq<Item>, c: CheckInput)
    requires Distinct(snaps)
    ensures Pruned(snaps, c) <= Names(Autos(snaps)) && Names(Autos(snaps)) <= Names(snaps)
    ensures forall x :: x in snaps && x.name in Pruned(snaps, c) ==> IsAuto(x)
    ensures c.refused == {} ==> |Pruned(snaps, c)| == |AutoVictims(Autos(snaps), c.retention)|
  {
    var n := |AutoVictims(Autos(snaps), c.retention)|;
    assert OldestFirst(Autos(snaps))[..0] == [];
    VictimsNamed(snaps, IsAuto, n);
    SelectMembers(snaps, IsAuto);
    DistinctSizes(AutoVictims(Autos(snaps), c.retention));
    SameNameSameKind(snaps, Pruned(snaps, c));
  }

  lemma AutoVictimsDistinct(snaps: seq<Item>, retention: nat)
    requires Distinct(snaps)
    ensures Distinct(AutoVictims(Autos(snaps), retention))
    ensures forall x :: x in AutoVictims(Autos(snaps), retention) ==> x in Autos(snaps)
  {
    SelectDistinct(snaps, IsAuto);
    SortKeepsDistinct(Autos(snaps), false);
    SortMembers(Autos(snaps), false);
    PrefixMembers(OldestFirst(Autos(snaps)), |AutoVictims(Autos(snaps), retention)|, Autos(snaps));
  }

  lemma SameNameSameKind(snaps: seq<Item>, gone: set<string>)
    requires forall n :: n in gone ==> AUTO <= n
    ensures forall x :: x in snaps && x.name in gone ==> IsAuto(x)
  {
  }

  lemma CreatedIsNew(snaps: seq<Item>, c: CheckInput)
    requires Distinct(snaps) && Created(snaps, c).Some?
    ensures var x := Created(snaps, c).value;
            && IsAuto(x) && x.name !in Names(snaps) && Distinct(snaps + [x])
            && Autos(snaps + [x]) == Autos(snaps) + [x]
  {
  }

  /**
   The number of automatic snapshots after a creation: with no refusals, as many as the
   retention allows but never fewer than the new one.
   */
  lemma CheckedCount(snaps: seq<Item>, c: CheckInput)
    requires Distinct(snaps) && Created(snaps, c).Some?
    ensures |Autos(Checked(snaps, c))| == |Autos(snaps)| + 1 - |Pruned(snaps, c)|
    ensures c.refused == {} ==> |Autos(Checked(snaps, c))| == Max(1, Min(|Autos(snaps)| + 1, c.retention))
  {
    CreatedCount(snaps, c);
    PrunedNames(snaps, c);
    VictimCount(Autos(snaps), c.retention);
  }

  lemma VictimCount(existing: seq<Item>, retention: nat)
    ensures |existing| + 1 - |AutoVictims(existing, retention)| == Max(1, Min(|existing| + 1, retention))
  {
  }

  lemma CreatedCount(snaps: seq<Item>, c: CheckInput)
    requires Distinct(snaps) && Created(snaps, c).Some?
    ensures |Autos(Checked(snaps, c))| == |Autos(snaps)| + 1 - |Pruned(snaps, c)|
  {
    CreatedIsNew(snaps, c);
    PrunedNames(snaps, c);
    AutosAfter(snaps, Created(snaps, c).value, Pruned(snaps, c));
  }

  lemma AutosAfter(snaps: seq<Item>, x: Item, gone: set<string>)
    requires Distinct(snaps + [x]) && Autos(snaps + [x]) == Autos(snaps) + [x] && gone <= Names(Autos(snaps))
    ensures |Autos(Without(snaps + [x], gone))| == |Autos(snaps)| + 1 - |gone|
  {
    assert Names(Autos(snaps)) <= Names(Autos(snaps) + [x]);
    SelectedSize(snaps + [x], gone, IsAuto);
  }

  /** A check keeps the snapshot it made and everything that is no automatic snapshot, in order. */
  lemma CheckedKeeps(snaps: seq<Item>, c: CheckInput)
    requires Distinct(snaps)
    ensures Distinct(Checked(snaps, c))
    ensures Created(snaps, c).Some? ==> Created(snaps, c).value in Checked(snaps, c)
    ensures Select(Checked(snaps, c), NotAuto) == Select(snaps, NotAuto)
  {
    if Created(snaps, c).Some? {
      var x := Created(snaps, c).value;
      CreatedIsNew(snaps, c);
      PrunedNames(snaps, c);
      SelectDistinct(snaps + [x], (x: Item) => x.name !in Pruned(snaps, c));
      SelectMembers(snaps + [x], (x: Item) => x.name !in Pruned(snaps, c));
      SelectWithout(snaps + [x], Pruned(snaps, c), NotAuto);
      SelectLast(snaps, x, NotAuto);
    }
  }

  predicate NotAuto(x: Item) { !("auto-" <= x.name) }

  predicate NotRollback(x: Item) { !("libre-vmm-rollback-" <= x.name) }

  lemma SelectLast(s: seq<Item>, x: Item, pass: Item -> bool)
    ensures Select(s + [x], pass) == Select(s, pass) + if pass(x) then [x] else []
  {
    assert (s + [x])[..|s|] == s;
  }

  /** Rollback pruning keeps everything that is no rollback point, in order. */
  lemma RollbackKeepsOthers(snaps: seq<Item>, keep: nat, refused: set<string>)
    requires Distinct(snaps)
    ensures Select(AfterRollback(snaps, keep, refused), NotRollback) == Select(snaps, NotRollback)
  {
    var victims := RollbackVictims(Rollbacks(snaps), keep);
    assert OldestFirst(Rollbacks(snaps))[..0] == [];
    VictimsNamed(snaps, IsRollback, |victims|);
    forall n | n in Names(victims) ensures ROLLBACK <= n {
      var y :| y in victims && y.name == n;
      assert IsRollback(y);
    }
    SelectWithout(snaps, Names(victims) - refused, NotRollback);
  }

  lemma VictimsAreOldest(s: seq<Item>, retention: nat)
    requires Distinct(s)
    ensures DropsOldest(AutoVictims(s, retention), ItemsOf(s) - ItemsOf(AutoVictims(s, retention)))
  {
    var o, c := OldestFirst(s), |AutoVictims(s, retention)|;
    SortMembers(s, false);
    SortIsStable(s, false);
    assert AutoVictims(s, retention) == o[..c];
    SortKeepsDistinct(s, false);
    OlderThanRest(o, c);
    SliceRest(o, c, ItemsOf(s));
  }

  /** Neither kind of pruning touches the snapshots of the other. */
  lemma PruningIsSeparate(snaps: seq<Item>, c: CheckInput, keep: nat, refused: set<string>)
    requires Distinct(snaps)
    ensures Rollbacks(Checked(snaps, c)) == Rollbacks(snaps)
    ensures Autos(AfterRollback(snaps, keep, refused)) == Autos(snaps)
  {
    if Created(snaps, c).Some? {
      var x := Created(snaps, c).value;
      CreatedIsNew(snaps, c);
      PrunedNames(snaps, c);
      PrefixesDiffer(x);
      forall y | y in snaps + [x] && IsRollback(y) ensures y.name !in Pruned(snaps, c) {
        PrefixesDiffer(y);
      }
      SelectWithout(snaps + [x], Pruned(snaps, c), IsRollback);
    }
    var victims := RollbackVictims(Rollbacks(snaps), keep);
    assert OldestFirst(Rollbacks(snaps))[..0] == [];
    VictimsNamed(snaps, IsRollback, |victims|);
    forall y | y in snaps && IsAuto(y) ensures y.name !in Names(victims) {
      PrefixesDiffer(y);
    }
    SelectWithout(snaps, Names(victims) - refused, IsAuto);
  }
}
