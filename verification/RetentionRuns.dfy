/** Whole runs of the scheduler's checks: how many automatic snapshots there are, and how far apart. */
module RetentionRuns {
  import opened Collections
  import opened Retention

  /** A scheduler check, or a change by others that leaves the automatic snapshots alone. */
  datatype Event = Check(input: CheckInput) | Elsewhere(after: seq<Item>)

  function Next(snaps: seq<Item>, e: Event): seq<Item> {
    match e
    case Check(c) => Checked(snaps, c)
    case Elsewhere(after) => after
  }

  function Run(snaps: seq<Item>, events: seq<Event>): seq<Item>
    decreases |events|
  {
    if events == [] then snaps else Run(Next(snaps, events[0]), events[1..])
  }

  /** The snapshots created over a run: when, and under which interval. */
  datatype Stamp = Stamp(time: int, interval: nat)

  function Log(snaps: seq<Item>, events: seq<Event>): seq<Stamp>
    decreases |events|
  {
    if events == [] then [] else Made(snaps, events[0]) + Log(Next(snaps, events[0]), events[1..])
  }

  /** What one event adds to the log. */
  function Made(snaps: seq<Item>, e: Event): seq<Stamp> {
    if e.Check? && Created(snaps, e.input).Some? then [Stamp(Created(snaps, e.input).value.time, e.input.interval)] else []
  }

  /** Every stamp is more than its interval after `time`. */
  ghost predicate LaterThan(log: seq<Stamp>, time: int) {
    forall j :: 0 <= j < |log| ==> log[j].time > time + log[j].interval
  }

  /** Every stamp is more than its interval after every earlier one. */
  ghost predicate Spaced(log: seq<Stamp>) {
    forall i, j :: 0 <= i < j < |log| ==> log[j].time > log[i].time + log[j].interval
  }

  lemma LaterBoth(a: seq<Stamp>, b: seq<Stamp>, time: int)
    requires LaterThan(a, time) && LaterThan(b, time)
    ensures LaterThan(a + b, time)
  {
  }

  /** Automatic snapshots are dated between the epoch and now. */
  ghost predicate Past(snaps: seq<Item>, clock: int) {
    forall x :: x in Autos(snaps) ==> 0 <= x.time <= clock
  }

  function Clock(snaps: seq<Item>, clock: int, e: Event): int {
    if e.Elsewhere? then clock
    else if Created(snaps, e.input).Some? then Created(snaps, e.input).value.time
    else e.input.now
  }

  /** The clock never runs backwards, and a snapshot is dated no earlier than the check that asked for it. */
  ghost predicate Allowed(snaps: seq<Item>, clock: int, e: Event) {
    match e
    case Check(c) => clock <= c.now && Stamped(c.now) && (Created(snaps, c).Some? ==> c.now <= Created(snaps, c).value.time)
    case Elsewhere(after) => Distinct(after) && Autos(after) == Autos(snaps)
  }

  ghost predicate Timed(snaps: seq<Item>, clock: int, events: seq<Event>)
    decreases |events|
  {
    events == [] ||
    (Allowed(snaps, clock, events[0]) && Timed(Next(snaps, events[0]), Clock(snaps, clock, events[0]), events[1..]))
  }

  lemma StepKeepsPast(snaps: seq<Item>, clock: int, e: Event)
    requires Distinct(snaps) && Past(snaps, clock) && 0 <= clock && Allowed(snaps, clock, e)
    ensures Distinct(Next(snaps, e)) && Past(Next(snaps, e), Clock(snaps, clock, e)) && clock <= Clock(snaps, clock, e)
  {
    if e.Check? {
      CheckedKeeps(snaps, e.input);
      SelectMembers(snaps, IsAuto);
      SelectMembers(Checked(snaps, e.input), IsAuto);
      if Created(snaps, e.input).Some? {
        var x := Created(snaps, e.input).value;
        SelectMembers(snaps + [x], (y: Item) => y.name !in Pruned(snaps, e.input));
      }
    }
  }

  /** When a check wants a snapshot: none yet, the latest one too old, or the clock behind it. */
  lemma DueExactly(snaps: seq<Item>, now: int, interval: Interval)
    requires 0 <= now < 0x8000_0000_0000_0000 && forall x :: x in Autos(snaps) ==> 0 <= x.time < 0x8000_0000_0000_0000
    ensures NeedsSnapshot(snaps, now, interval) <==>
              Autos(snaps) == [] || now < Latest(Autos(snaps)) || now - Latest(Autos(snaps)) > interval
  {
    if Autos(snaps) != [] {
      DifferenceWraps(now - Latest(Autos(snaps)));
    }
  }

  /**
   What a check achieves: where none is due nothing changes; where one is due and libvirt
   makes it, the new snapshot is there, and either way the latest one is then no more than
   the interval behind the clock.
   */
  lemma CheckKeepsRecent(snaps: seq<Item>, c: CheckInput)
    requires Distinct(snaps) && c.listed && 0 <= c.now < 0x8000_0000_0000_0000
    requires forall x :: x in Autos(snaps) ==> 0 <= x.time < 0x8000_0000_0000_0000
    requires c.creation.Some? && "auto-" + c.creation.value.stamp !in Names(snaps) && c.now <= c.creation.value.time
    ensures var autos, after := Autos(snaps), Checked(snaps, c);
            && (if autos == [] || c.now < Latest(autos) || c.now - Latest(autos) > c.interval
                then Item("auto-" + c.creation.value.stamp, c.creation.value.time) in after
                else after == snaps)
            && Autos(after) != []
            && (Latest(Autos(after)) > c.now || c.now - Latest(Autos(after)) <= c.interval)
  {
    DueExactly(snaps, c.now, c.interval);
    if Created(snaps, c).Some? {
      CheckedKeeps(snaps, c);
      CreatedStays(snaps, c);
    }
  }

  /** A check that lists nothing, or whose snapshot libvirt does not make, changes nothing. */
  lemma CheckWithoutCreation(snaps: seq<Item>, c: CheckInput)
    requires !c.listed || c.creation.None? || "auto-" + c.creation.value.stamp in Names(snaps)
    ensures Checked(snaps, c) == snaps
  {
  }

  lemma DifferenceWraps(d: int)
    requires -0x8000_0000_0000_0000 < d < 0x8000_0000_0000_0000
    ensures AsU64(d) == if d >= 0 then d else d + 0x1_0000_0000_0000_0000
  {
  }

  /** A snapshot is dated more than the interval after every automatic snapshot there is. */
  ghost predicate SpacedFrom(snaps: seq<Item>, time: int, interval: nat) {
    forall x :: x in Autos(snaps) ==> time > x.time + interval
  }

  /** The clock reads no earlier than the latest automatic snapshot. */
  predicate NotBehind(snaps: seq<Item>, now: int) { Autos(snaps) == [] || Latest(Autos(snaps)) <= now }

  /** So far behind that a snapshot dated `time` is still within the interval of the latest one. */
  predicate FarBehind(snaps: seq<Item>, now: int, time: int, interval: nat) {
    !NotBehind(snaps, now) && time <= Latest(Autos(snaps)) + interval
  }

  /**
   A due snapshot, dated no earlier than its check, is spaced exactly unless the clock
   was far behind; when dated by the check itself, unless it was behind at all.
   */
  lemma SpacedExactly(snaps: seq<Item>, now: int, time: int, interval: Interval)
    requires Stamped(now) && now <= time && forall x :: x in Autos(snaps) ==> Stamped(x.time)
    requires NeedsSnapshot(snaps, now, interval)
    ensures SpacedFrom(snaps, time, interval) <==> !FarBehind(snaps, now, time, interval)
    ensures time == now ==> (SpacedFrom(snaps, time, interval) <==> NotBehind(snaps, now))
  {
    DueExactly(snaps, now, interval);
    if Autos(snaps) != [] {
      var x :| x in Autos(snaps) && x.time == Latest(Autos(snaps));
    }
  }

  /** A creation is dated more than the interval after every automatic snapshot there is. */
  lemma CreatedLater(snaps: seq<Item>, clock: int, c: CheckInput, older: Item)
    requires Past(snaps, clock) && Allowed(snaps, clock, Check(c)) && Created(snaps, c).Some? && older in Autos(snaps)
    ensures Created(snaps, c).value.time > older.time + c.interval
  {
    DueExactly(snaps, c.now, c.interval);
  }

  lemma {:induction false} AllLater(snaps: seq<Item>, clock: int, events: seq<Event>, older: Item)
    requires Distinct(snaps) && Past(snaps, clock) && 0 <= clock && Timed(snaps, clock, events) && older in Autos(snaps)
    ensures LaterThan(Log(snaps, events), older.time)
    decreases |events|
  {
    if events == [] {
    } else {
      var e := events[0];
      var next, later := Next(snaps, e), events[1..];
      StepKeepsPast(snaps, clock, e);
      if Made(snaps, e) != [] {
        CreatedLater(snaps, clock, e.input, older);
        CreatedStays(snaps, e.input);
        AllLater(next, Clock(snaps, clock, e), later, Created(snaps, e.input).value);
      } else {
        AllLater(next, Clock(snaps, clock, e), later, older);
      }
      LaterBoth(Made(snaps, e), Log(next, later), older.time);
    }
  }

  lemma CreatedStays(snaps: seq<Item>, c: CheckInput)
    requires Distinct(snaps) && Created(snaps, c).Some?
    ensures Created(snaps, c).value in Autos(Checked(snaps, c))
  {
    CheckedKeeps(snaps, c);
    CreatedIsNew(snaps, c);
    SelectMembers(Checked(snaps, c), IsAuto);
  }

  /** Over a whole run, any two snapshots created are more than the later one's interval apart. */
  lemma {:induction false} SnapshotsAreSpaced(snaps: seq<Item>, clock: int, events: seq<Event>)
    requires Distinct(snaps) && Past(snaps, clock) && 0 <= clock && Timed(snaps, clock, events)
    ensures Spaced(Log(snaps, events))
    decreases |events|
  {
    if events == [] {
    } else {
      var e := events[0];
      StepKeepsPast(snaps, clock, e);
      SnapshotsAreSpaced(Next(snaps, e), Clock(snaps, clock, e), events[1..]);
      if e.Check? && Created(snaps, e.input).Some? {
        CreatedStays(snaps, e.input);
        AllLater(Next(snaps, e), Clock(snaps, clock, e), events[1..], Created(snaps, e.input).value);
        assert Made(snaps, e)[0].time == Created(snaps, e.input).value.time;
      }
      OneMoreSpaced(Made(snaps, e), Log(Next(snaps, e), events[1..]));
    }
  }

  lemma OneMoreSpaced(made: seq<Stamp>, later: seq<Stamp>)
    requires |made| <= 1 && (made != [] ==> LaterThan(later, made[0].time))
    requires Spaced(later)
    ensures Spaced(made + later)
  {
  }

  /** Changes by others keep names unique and leave the automatic snapshots alone, whatever the clock does. */
  ghost predicate Orderly(snaps: seq<Item>, events: seq<Event>)
    decreases |events|
  {
    events == [] ||
    ((events[0].Elsewhere? ==> Distinct(events[0].after) && Autos(events[0].after) == Autos(snaps))
     && Orderly(Next(snaps, events[0]), events[1..]))
  }

  /** One check leaves no more than there were, or than its retention (at least one) and the refusals allow. */
  lemma CheckBounded(snaps: seq<Item>, c: CheckInput, retention: nat, q: nat)
    requires Distinct(snaps) && c.retention <= retention && |c.refused| <= q
    ensures |Autos(Checked(snaps, c))| <= Max(|Autos(snaps)|, Max(retention, 1) + q)
  {
    if Created(snaps, c).Some? {
      var victims := AutoVictims(Autos(snaps), c.retention);
      CheckedCount(snaps, c);
      AutoVictimsDistinct(snaps, c.retention);
      DistinctSizes(victims);
      VictimCount(Autos(snaps), c.retention);
      FewLess(Names(victims), c.refused);
    }
  }

  lemma FewLess<T>(a: set<T>, b: set<T>)
    ensures |a - b| >= |a| - |b|
  {
    SubsetSize(a, (a - b) + b);
    assert |(a - b) + b| == |a - b| + |b|;
  }

  /**
   For any clock and at most `q` refused names per check: the automatic snapshots never
   exceed the retention (at least one) plus `q`, or their first number.
   */
  lemma {:induction false} CountStaysBounded(snaps: seq<Item>, events: seq<Event>, retention: nat, q: nat)
    requires Distinct(snaps) && Orderly(snaps, events)
    requires forall e :: e in events && e.Check? ==> e.input.retention <= retention && |e.input.refused| <= q
    ensures |Autos(Run(snaps, events))| <= Max(|Autos(snaps)|, Max(retention, 1) + q)
    decreases |events|
  {
    if events == [] {
    } else {
      var e := events[0];
      if e.Check? {
        CheckBounded(snaps, e.input, retention, q);
        CheckedKeeps(snaps, e.input);
      }
      CountStaysBounded(Next(snaps, e), events[1..], retention, q);
    }
  }

  /** Runs in which every snapshot is dated no earlier than the check that made it, in range. */
  ghost predicate Dated(snaps: seq<Item>, events: seq<Event>)
    decreases |events|
  {
    && (forall x :: x in Autos(snaps) ==> Stamped(x.time))
    && (events == [] ||
        (&& (events[0].Check? ==>
              && Stamped(events[0].input.now)
              && (Created(snaps, events[0].input).Some? ==> events[0].input.now <= Created(snaps, events[0].input).value.time))
         && Dated(Next(snaps, events[0]), events[1..])))
  }

  /** Every snapshot the run makes is spaced from those there were. */
  ghost predicate AllSpaced(snaps: seq<Item>, events: seq<Event>)
    decreases |events|
  {
    events == [] ||
    (&& (events[0].Check? && Created(snaps, events[0].input).Some? ==>
           SpacedFrom(snaps, Created(snaps, events[0].input).value.time, events[0].input.interval))
     && AllSpaced(Next(snaps, events[0]), events[1..]))
  }

  /** No check that makes a snapshot reads a clock far behind the latest one. */
  ghost predicate NeverFarBehind(snaps: seq<Item>, events: seq<Event>)
    decreases |events|
  {
    events == [] ||
    (&& (events[0].Check? && Created(snaps, events[0].input).Some? ==>
           !FarBehind(snaps, events[0].input.now, Created(snaps, events[0].input).value.time, events[0].input.interval))
     && NeverFarBehind(Next(snaps, events[0]), events[1..]))
  }

  /** Over any such run the spacing holds exactly if the clock is never far behind when a snapshot is made. */
  lemma {:induction false} AllSpacedExactly(snaps: seq<Item>, events: seq<Event>)
    requires Dated(snaps, events)
    ensures AllSpaced(snaps, events) <==> NeverFarBehind(snaps, events)
    decreases |events|
  {
    if events == [] {
    } else {
      var e := events[0];
      if e.Check? && Created(snaps, e.input).Some? {
        SpacedExactly(snaps, e.input.now, Created(snaps, e.input).value.time, e.input.interval);
      }
      AllSpacedExactly(Next(snaps, e), events[1..]);
    }
  }

  /** A clock set back makes the wrapped difference huge: the check fires at once, whatever the interval, and its snapshot is not spaced. */
  lemma ClockSetBack(snaps: seq<Item>, now: int, interval: Interval)
    requires Stamped(now) && forall x :: x in Autos(snaps) ==> Stamped(x.time)
    requires Autos(snaps) != [] && now < Latest(Autos(snaps))
    ensures NeedsSnapshot(snaps, now, interval) && !SpacedFrom(snaps, now, interval)
  {
    DueExactly(snaps, now, interval);
  }
}
