/**
 Live migration progress: the migration thread and its poller update one shared
 record, each update under the record's lock. Percentages are computed over the
 reals; `virsh` results are parameters of the steps.
 */
module Migration {
  import opened Wrappers

  const MAX_BYTES := 0x4_0000_0000_0000 // 2^50
  const U64_MAX := 0xFFFF_FFFF_FFFF_FFFF

  datatype Progress = Progress(
    percent: int,
    transferred: nat,
    remaining: nat,
    memoryBps: nat,
    completed: bool,
    error: Option<string>)

  const START := Progress(0, 0, 0, 0, false, None)

  // ------------------------------------------------------------- domjobinfo output

  datatype Float = Finite(value: real) | NotFinite

  /** A whitespace-separated word, with its value where it parses as a number. */
  datatype Word = Number(float: Float) | Text(text: string)

  /** One trimmed line, by its prefix. */
  datatype Line =
    | JobType(kind: string)
    | Processed(words: seq<Word>)
    | Remaining(words: seq<Word>)
    | Bandwidth(words: seq<Word>)
    | OtherLine

  function Multiplier(unit: string): Option<nat> {
    if unit == "B" then Some(1)
    else if unit == "KiB" then Some(1024)
    else if unit == "MiB" then Some(1_048_576)
    else if unit == "GiB" then Some(1_073_741_824)
    else None
  }

  /** The byte count at the end of a line; values over 1 PiB are refused. */
  function ExtractBytes(words: seq<Word>): (r: Option<nat>)
    ensures r.Some? ==> r.value <= MAX_BYTES
  {
    if |words| < 3 then None
    else
      var number, unit := words[|words| - 2], words[|words| - 1];
      if !number.Number? || !number.float.Finite? || number.float.value < 0.0 || !unit.Text? then None
      else
        var m := Multiplier(unit.text);
        if m.None? || number.float.value > (MAX_BYTES / m.value) as real then None
        else
          var n := number.float.value.Floor;
          Some(n * m.value)
  }

  /**
   A line that ends in a number and a unit is read exactly if the number is not negative,
   the unit is known, and the product is at most 2^50; what is read is the largest whole
   multiple of the unit up to that product.
   */
  lemma ExtractExactly(before: seq<Word>, number: real, unit: string)
    requires before != []
    ensures var m, r := Multiplier(unit), ExtractBytes(before + [Number(Finite(number)), Text(unit)]);
            && (r.Some? <==> number >= 0.0 && m.Some? && number * m.value as real <= 1_125_899_906_842_624.0)
            && (r.Some? ==> r.value % m.value == 0 && r.value as real <= number * m.value as real < (r.value + m.value) as real)
  {
    var words := before + [Number(Finite(number)), Text(unit)];
    assert words[|words| - 2] == Number(Finite(number)) && words[|words| - 1] == Text(unit);
    var m := Multiplier(unit);
    if number >= 0.0 && m.Some? {
      CapExactly(number, m.value);
      Truncated(number, m.value);
    }
  }

  /** The cap is divided by the unit without a remainder. */
  lemma CapExactly(number: real, m: nat)
    requires m == 1 || m == 1024 || m == 1_048_576 || m == 1_073_741_824
    ensures number <= (MAX_BYTES / m) as real <==> number * m as real <= MAX_BYTES as real
  {
  }

  /** Cutting the fraction off first gives the largest whole multiple of the unit. */
  lemma Truncated(number: real, m: nat)
    requires number >= 0.0 && (m == 1 || m == 1024 || m == 1_048_576 || m == 1_073_741_824)
    ensures var n := number.Floor * m;
            n % m == 0 && n as real <= number * m as real < (n + m) as real
  {
    var f := number.Floor;
    assert f as real <= number < f as real + 1.0;
    if m == 1 {
    } else if m == 1024 {
    } else if m == 1_048_576 {
    } else {
    }
  }

  /** Fractions are cut off before the unit counts: 1.5 KiB is read as 1024 bytes. */
  lemma FractionsAreLost(before: seq<Word>)
    requires before != []
    ensures ExtractBytes(before + [Number(Finite(1.5)), Text("KiB")]) == Some(1024)
  {
    ExtractExactly(before, 1.5, "KiB");
  }

  /** The percentage shown while data moves: between 20 and 99. */
  function Percent(transferred: nat, total: nat): (r: int)
    requires transferred <= total && total > 0
    ensures 20 <= r <= 99
    ensures (r - 20) * total <= 80 * transferred
    ensures r < 99 ==> 80 * transferred < (r - 19) * total
  {
    var ratio := transferred as real / total as real;
    RatioFloor(transferred, total);
    var pct := (ratio * 80.0).Floor + 20;
    if pct < 99 then pct else 99
  }

  /** The whole eightieths of the ratio, without division. */
  lemma RatioFloor(transferred: nat, total: nat)
    requires transferred <= total && total > 0
    ensures var p := (transferred as real / total as real * 80.0).Floor;
            0 <= p && p * total <= 80 * transferred < (p + 1) * total && (p >= 79 ==> 79 * total <= 80 * transferred)
  {
    Cancelled(transferred as real, total as real);
    FloorBounds(transferred as real / total as real * 80.0, transferred, total);
  }

  lemma FloorBounds(x: real, transferred: nat, total: nat)
    requires total > 0 && x >= 0.0 && x * total as real == 80.0 * transferred as real
    ensures var p := x.Floor;
            0 <= p && p * total <= 80 * transferred < (p + 1) * total && (p >= 79 ==> 79 * total <= 80 * transferred)
  {
    var p := x.Floor;
    FloorTimes(x, total);
    WholeProduct(80, transferred);
    if p >= 79 { Larger(79, p, total); }
  }

  lemma Cancelled(t: real, n: real)
    requires t >= 0.0 && n > 0.0
    ensures t / n * 80.0 >= 0.0 && t / n * 80.0 * n == 80.0 * t
  {
    var q := t / n;
    assert q * n == t;
    Regrouped(q, n);
  }

  lemma Regrouped(q: real, n: real)
    ensures q * 80.0 * n == 80.0 * (q * n)
  {
  }

  lemma FloorTimes(x: real, n: nat)
    requires n > 0
    ensures (x.Floor * n) as real <= x * n as real < ((x.Floor + 1) * n) as real
  {
    var f := x.Floor;
    assert f as real <= x < (f + 1) as real;
    Between(f, x, f + 1, n);
  }

  lemma Between(f: int, x: real, g: int, n: nat)
    requires f as real <= x < g as real && n > 0
    ensures (f * n) as real <= x * n as real < (g * n) as real
  {
    Scaled(f as real, x, n as real);
    Scaled(x, g as real, n as real);
    WholeProduct(f, n);
    WholeProduct(g, n);
  }

  lemma Scaled(x: real, y: real, m: real)
    requires m > 0.0
    ensures (x <= y ==> x * m <= y * m) && (x < y ==> x * m < y * m)
  {
  }

  lemma WholeProduct(n: int, m: int)
    ensures (n * m) as real == n as real * m as real
  {
  }

  lemma Larger(a: nat, b: nat, n: nat)
    requires a <= b
    ensures a * n <= b * n
  {
  }

  /** The lines of one output, up to a job type that ends the parse. */
  function Store(p: Progress, line: Line): Progress {
    match line
    case Processed(words) => if ExtractBytes(words).Some? then p.(transferred := ExtractBytes(words).value) else p
    case Remaining(words) => if ExtractBytes(words).Some? then p.(remaining := ExtractBytes(words).value) else p
    case Bandwidth(words) => if ExtractBytes(words).Some? then p.(memoryBps := ExtractBytes(words).value) else p
    case _ => p
  }

  predicate Stops(line: Line) { line == JobType("None") || line == JobType("Completed") }

  function Parsed(p: Progress, lines: seq<Line>): Progress
    decreases lines
  {
    if lines == [] then
      var total := p.transferred + p.remaining;
      if total > 0 then p.(percent := Percent(p.transferred, total)) else p
    else if Stops(lines[0]) then p
    else Parsed(Store(p, lines[0]), lines[1..])
  }

  class SharedProgress {
    var progress: Progress

    constructor ()
      ensures progress == START
    {
      progress := START;
    }

    /** `parse_domjobinfo`, holding the lock throughout; no sum leaves the u64 range. */
    method ParseDomjobinfo(lines: seq<Line>)
      requires InBounds(progress)
      modifies this
      ensures progress == Parsed(old(progress), lines)
      ensures InBounds(progress)
    {
      for i := 0 to |lines|
        invariant InBounds(progress)
        invariant Parsed(progress, lines[i..]) == Parsed(old(progress), lines)
      {
        if Stops(lines[i]) {
          return;
        }
        match lines[i] {
          case Processed(words) =>
            var val := ExtractBytes(words);
            if val.Some? { progress := progress.(transferred := val.value); }
          case Remaining(words) =>
            var val := ExtractBytes(words);
            if val.Some? { progress := progress.(remaining := val.value); }
          case Bandwidth(words) =>
            var val := ExtractBytes(words);
            if val.Some? { progress := progress.(memoryBps := val.value); }
          case _ =>
        }
      }
      var total := progress.transferred + progress.remaining;
      assert total <= U64_MAX;
      if total > 0 {
        progress := progress.(percent := Percent(progress.transferred, total));
      }
    }
  }

  predicate InBounds(p: Progress) {
    p.transferred <= MAX_BYTES && p.remaining <= MAX_BYTES && 0 <= p.percent <= 100
  }

  lemma {:induction false} ParsedKeeps(p: Progress, lines: seq<Line>)
    requires InBounds(p)
    ensures var q := Parsed(p, lines);
            InBounds(q) && q.completed == p.completed && q.error == p.error && (p.percent <= 99 ==> q.percent <= 99)
    decreases lines
  {
    if lines != [] && !Stops(lines[0]) {
      ParsedKeeps(Store(p, lines[0]), lines[1..]);
    }
  }

  // ------------------------------------------------------- what one output amounts to

  datatype Kind = ProcessedLine | RemainingLine | BandwidthLine

  /** The byte count a line of this kind is read as. */
  function CountIn(line: Line, kind: Kind): Option<nat> {
    match (kind, line)
    case (ProcessedLine, Processed(words)) => ExtractBytes(words)
    case (RemainingLine, Remaining(words)) => ExtractBytes(words)
    case (BandwidthLine, Bandwidth(words)) => ExtractBytes(words)
    case _ => None
  }

  /** The count in the last line of this kind that can be read, else `before`. */
  function LastCount(lines: seq<Line>, kind: Kind, before: nat): nat {
    if lines == [] then before
    else
      var n := |lines| - 1;
      var count := CountIn(lines[n], kind);
      if count.Some? then count.value else LastCount(lines[..n], kind, before)
  }

  /** By position: the count of a readable line that no readable line of its kind follows. */
  lemma {:induction false} LastCountAt(lines: seq<Line>, kind: Kind, before: nat, i: nat)
    requires i < |lines| && CountIn(lines[i], kind).Some?
    requires forall j :: i < j < |lines| ==> CountIn(lines[j], kind).None?
    ensures LastCount(lines, kind, before) == CountIn(lines[i], kind).value
  {
    if i < |lines| - 1 {
      LastCountAt(lines[..|lines| - 1], kind, before, i);
    }
  }

  lemma {:induction false} NoCount(lines: seq<Line>, kind: Kind, before: nat)
    requires forall i :: 0 <= i < |lines| ==> CountIn(lines[i], kind).None?
    ensures LastCount(lines, kind, before) == before
  {
    if lines == [] {
    } else {
      NoCount(lines[..|lines| - 1], kind, before);
    }
  }

  lemma {:induction false} LastCountCons(line: Line, rest: seq<Line>, kind: Kind, before: nat)
    ensures LastCount([line] + rest, kind, before)
         == LastCount(rest, kind, if CountIn(line, kind).Some? then CountIn(line, kind).value else before)
  {
    if rest == [] {
      assert [line] + rest == [line] && [line][..0] == [];
    } else {
      var n := |rest| - 1;
      assert ([line] + rest)[..n + 1] == [line] + rest[..n];
      LastCountCons(line, rest[..n], kind, before);
    }
  }

  /** The lines before the first one that ends the parse. */
  function BeforeStop(lines: seq<Line>): (r: seq<Line>)
    ensures r <= lines && forall l :: l in r ==> l != JobType("None") && l != JobType("Completed")
    ensures r != lines ==> lines[|r|] == JobType("None") || lines[|r|] == JobType("Completed")
  {
    if lines == [] || Stops(lines[0]) then [] else [lines[0]] + BeforeStop(lines[1..])
  }

  /**
   What parsing one output does to the counts: each becomes that of the last readable
   line of its kind before the first line that ends the parse.
   */
  lemma {:induction false} ParsedCounts(p: Progress, lines: seq<Line>)
    ensures var q, read := Parsed(p, lines), BeforeStop(lines);
            && q.transferred == LastCount(read, ProcessedLine, p.transferred)
            && q.remaining == LastCount(read, RemainingLine, p.remaining)
            && q.memoryBps == LastCount(read, BandwidthLine, p.memoryBps)
            && q.completed == p.completed && q.error == p.error
    decreases lines
  {
    if lines == [] || Stops(lines[0]) {
    } else {
      var read := BeforeStop(lines[1..]);
      ParsedCounts(Store(p, lines[0]), lines[1..]);
      LastCountCons(lines[0], read, ProcessedLine, p.transferred);
      LastCountCons(lines[0], read, RemainingLine, p.remaining);
      LastCountCons(lines[0], read, BandwidthLine, p.memoryBps);
    }
  }

  /**
   What it does to the percentage: if no line ends the parse and there are any bytes, it
   becomes 20 plus the whole eightieths of the bytes transferred, at most 99; otherwise
   it stays.
   */
  lemma {:induction false} ParsedPercent(p: Progress, lines: seq<Line>)
    ensures var q := Parsed(p, lines);
            var total := q.transferred + q.remaining;
            if BeforeStop(lines) == lines && total > 0 then
              && 20 <= q.percent <= 99 && (q.percent - 20) * total <= 80 * q.transferred
              && (q.percent < 99 ==> 80 * q.transferred < (q.percent - 19) * total)
            else q.percent == p.percent
    decreases lines
  {
    if lines == [] || Stops(lines[0]) {
    } else {
      ParsedPercent(Store(p, lines[0]), lines[1..]);
      assert lines == [lines[0]] + lines[1..];
    }
  }

  // ------------------------------------------------------------------ two threads

  datatype Outcome = Succeeded | ExitedWithError | WaitFailed | NeverStarted

  datatype MainPc = Building | Initiating | Starting | Monitoring | Waiting
                  | Stopping(outcome: Outcome) | Joining(outcome: Outcome) | Finishing(outcome: Outcome) | Ended(outcome: Outcome)

  datatype PollerPc = NotRunning | Checking | Deciding | Querying | Exited

  datatype State = State(progress: Progress, main: MainPc, poller: PollerPc)

  const INIT := State(START, Building, NotRunning)

  datatype Step =
    | Advance                        // the migration thread's next update
    | StartFails(error: string)   // virsh cannot be started
    | ChildEnds(outcome: Outcome, error: string)
    | Finish(error: string)       // the final update, with the message it would report
    | Poll                        // the poller's next move
    | TimeOut(error: string)
    | QueryFails
    | QueryAnswers(lines: seq<Line>)

  predicate Enabled(s: State, step: Step) {
    match step
    case Advance =>
      || s.main.Building? || s.main.Initiating? || s.main.Starting? || s.main.Monitoring? || s.main.Stopping?
      || (s.main.Joining? && s.poller.Exited?)
    case StartFails(_) => s.main.Starting?
    case ChildEnds(outcome, _) => s.main.Waiting? && !outcome.NeverStarted?
    case Finish(_) => s.main.Finishing?
    case Poll => s.poller.Checking? || s.poller.Deciding?
    case TimeOut(_) => s.poller.Deciding?
    case QueryFails => s.poller.Querying?
    case QueryAnswers(_) => s.poller.Querying?
  }

  function Next(s: State, step: Step): State
    requires Enabled(s, step)
  {
    var p := s.progress;
    match step
    case Advance =>
      (match s.main
       case Building => State(p.(percent := 5), Initiating, s.poller)
       case Initiating => State(p.(percent := 10), Starting, s.poller)
       case Starting => s.(main := Monitoring)
       case Monitoring => State(p.(percent := 20), Waiting, Checking)
       case Stopping(o) => State(p.(completed := true), Joining(o), s.poller)
       case Joining(o) => s.(main := Finishing(o))
       case _ => s)
    case StartFails(e) => State(p.(error := Some(e), completed := true), Ended(NeverStarted), s.poller)
    case ChildEnds(o, _) => s.(main := Stopping(o))
    case Finish(e) =>
      var o := s.main.outcome;
      State(if o.Succeeded? then p.(percent := 100)
            else if o.WaitFailed? then p.(error := Some(e), completed := true)
            else p.(error := Some(e)), Ended(o), s.poller)
    case Poll =>
      if s.poller.Checking? then s.(poller := if p.completed then Exited else Deciding) else s.(poller := Querying)
    case TimeOut(e) => State(p.(error := Some(e), completed := true), s.main, Exited)
    case QueryFails => s.(poller := Checking)
    case QueryAnswers(lines) => State(Parsed(p, lines), s.main, Checking)
  }

  predicate BeforePoller(m: MainPc) { m.Building? || m.Initiating? || m.Starting? || m.Monitoring? || m == Ended(NeverStarted) }

  ghost predicate Inv(s: State) {
    && InBounds(s.progress)
    && (BeforePoller(s.main) <==> s.poller.NotRunning?)
    && (s.main.Joining? || s.main.Finishing? || s.main.Ended? ==> s.progress.completed)
    && (s.main.Finishing? || (s.main.Ended? && !s.main.outcome.NeverStarted?) ==> s.poller.Exited?)
    && (s.main.Stopping? || s.main.Joining? || s.main.Finishing? ==> !s.main.outcome.NeverStarted?)
    && (s.progress.percent == 100 <==> s.main == Ended(Succeeded))
    && (s.main.Ended? && !s.main.outcome.Succeeded? ==> s.progress.error.Some?)
  }

  lemma StepKeepsInv(s: State, step: Step)
    requires Inv(s) && Enabled(s, step)
    ensures Inv(Next(s, step))
    ensures s.progress.completed ==> Next(s, step).progress.completed
  {
    if step.QueryAnswers? {
      ParsedKeeps(s.progress, step.lines);
    }
  }

  /** A run from any state on. */
  ghost predicate IsPath(states: seq<State>, steps: seq<Step>) {
    && |states| == |steps| + 1
    && forall i {:trigger steps[i]} :: 0 <= i < |steps| ==> Enabled(states[i], steps[i]) && states[i + 1] == Next(states[i], steps[i])
  }

  ghost predicate IsRun(states: seq<State>, steps: seq<Step>) { IsPath(states, steps) && states[0] == INIT }

  /** The invariant of every interleaving of the two threads. */
  lemma {:induction false} RunInv(states: seq<State>, steps: seq<Step>, n: nat)
    requires IsRun(states, steps) && n < |states|
    ensures Inv(states[n])
  {
    if n == 0 {
    } else {
      RunInv(states, steps, n - 1);
      StepKeepsInv(states[n - 1], steps[n - 1]);
    }
  }

  /** `completed` never returns to false. */
  lemma {:induction false} CompletedStays(states: seq<State>, steps: seq<Step>, n: nat, m: nat)
    requires IsRun(states, steps) && n <= m < |states| && states[n].progress.completed
    ensures states[m].progress.completed
    decreases m
  {
    if n < m {
      CompletedStays(states, steps, n, m - 1);
      RunInv(states, steps, m - 1);
      StepKeepsInv(states[m - 1], steps[m - 1]);
    }
  }

  /**
   When the migration thread has ended, `completed` is set, the percentage is 100
   exactly if virsh succeeded, an error is reported otherwise, and no step of
   either thread is left that could overwrite the final value.
   */
  lemma FinalValueStands(states: seq<State>, steps: seq<Step>, n: nat, step: Step)
    requires IsRun(states, steps) && n < |states| && states[n].main.Ended?
    ensures var s := states[n];
            && s.progress.completed
            && (s.progress.percent == 100 <==> s.main.outcome.Succeeded?)
            && (!s.main.outcome.Succeeded? ==> s.progress.error.Some?)
            && !Enabled(s, step)
  {
    RunInv(states, steps, n);
  }

  /** At every moment the percentage is shown within 0..100 and the byte sum fits a u64 with room to spare. */
  lemma NeverOutOfRange(states: seq<State>, steps: seq<Step>, n: nat)
    requires IsRun(states, steps) && n < |states|
    ensures var p := states[n].progress;
            0 <= p.percent <= 100 && p.transferred + p.remaining <= 0x8_0000_0000_0000
  {
    RunInv(states, steps, n);
  }

  /** The poller has given up by step `n`. */
  ghost predicate TimedOut(steps: seq<Step>, n: nat)
    requires n <= |steps|
  {
    exists i :: 0 <= i < n && steps[i].TimeOut?
  }

  lemma TimedOutStep(steps: seq<Step>, n: nat)
    requires n < |steps|
    ensures TimedOut(steps, n + 1) <==> TimedOut(steps, n) || steps[n].TimeOut?
  {
    if steps[n].TimeOut? {
      assert TimedOut(steps, n + 1);
    } else if i :| 0 <= i < n && steps[i].TimeOut? {
      assert TimedOut(steps, n + 1);
    }
  }

  /** The migration thread has marked the migration completed. */
  predicate Marked(m: MainPc) { m.Joining? || m.Finishing? || m.Ended? }

  /**
   Every interleaving: `completed` is set exactly once the poller has given up or the
   migration thread has marked it; an error is set exactly if the poller has given up
   or the thread has ended without success.
   */
  lemma {:induction false} FlagsExactly(states: seq<State>, steps: seq<Step>, n: nat)
    requires IsRun(states, steps) && n < |states|
    ensures var s := states[n];
            && (s.progress.completed <==> TimedOut(steps, n) || Marked(s.main))
            && (s.progress.error.Some? <==> TimedOut(steps, n) || (s.main.Ended? && !s.main.outcome.Succeeded?))
    decreases n
  {
    if n == 0 {
    } else {
      var step := steps[n - 1];
      FlagsExactly(states, steps, n - 1);
      RunInv(states, steps, n - 1);
      TimedOutStep(steps, n - 1);
      if step.QueryAnswers? {
        ParsedKeeps(states[n - 1].progress, step.lines);
      }
    }
  }

  /** A migration that ends at 100 percent carries an error exactly if the poller had given up on it. */
  lemma SucceededWithError(states: seq<State>, steps: seq<Step>, n: nat)
    requires IsRun(states, steps) && n < |states| && states[n].main == Ended(Succeeded)
    ensures states[n].progress.percent == 100
    ensures states[n].progress.error.Some? <==> TimedOut(steps, n)
  {
    RunInv(states, steps, n);
    FlagsExactly(states, steps, n);
  }

  /**
   A completed record before the thread's end: the percentage is below 100, and the
   thread is joining the poller, about to publish the outcome, or the poller has given
   up while it works; without an error, 100 percent is shown exactly at the end.
   */
  lemma CompletedBeforeFinal(states: seq<State>, steps: seq<Step>, n: nat)
    requires IsRun(states, steps) && n < |states| && states[n].progress.completed
    ensures var s := states[n];
            && (s.main.Ended? || (s.progress.percent < 100 && (s.main.Joining? || s.main.Finishing? || TimedOut(steps, n))))
            && (s.progress.error.None? ==> s.main == Ended(Succeeded) || s.main.Joining? || s.main.Finishing?)
            && (s.progress.error.None? ==> (s.progress.percent == 100 <==> s.main.Ended?))
  {
    RunInv(states, steps, n);
    FlagsExactly(states, steps, n);
  }

  // ------------------------------------------------------------- the final record

  /** No continuation, by steps of either thread, ever shows another record. */
  ghost predicate Final(s: State) {
    forall states: seq<State>, steps: seq<Step> :: IsPath(states, steps) && states[0] == s ==> states[|steps|].progress == s.progress
  }

  predicate Published(p: Progress, e: string) { p.percent == 100 || p.error == Some(e) }

  /** Some continuation ends at 100 percent or with the error `e`. */
  ghost predicate Reaches(s: State, e: string) {
    exists states: seq<State>, steps: seq<Step> ::
      IsPath(states, steps) && states[0] == s && Published(states[|steps|].progress, e)
  }

  lemma ReachesBefore(s: State, step: Step, e: string)
    requires Enabled(s, step) && Reaches(Next(s, step), e)
    ensures Reaches(s, e)
  {
    var states: seq<State>, steps: seq<Step> :|
      IsPath(states, steps) && states[0] == Next(s, step) && Published(states[|steps|].progress, e);
    var states', steps' := [s] + states, [step] + steps;
    forall i {:trigger steps'[i]} | 0 <= i < |steps'| ensures Enabled(states'[i], steps'[i]) && states'[i + 1] == Next(states'[i], steps'[i]) {
      if i > 0 {
        assert steps'[i] == steps[i - 1];
      }
    }
    assert IsPath(states', steps') && states'[|steps'|] == states[|steps|];
  }

  function MainLeft(m: MainPc): nat {
    match m
    case Building => 8
    case Initiating => 7
    case Starting => 6
    case Monitoring => 5
    case Waiting => 4
    case Stopping(_) => 3
    case Joining(_) => 2
    case Finishing(_) => 1
    case Ended(_) => 0
  }

  function PollerLeft(p: PollerPc): nat {
    match p
    case Deciding => 3
    case Querying => 2
    case Checking => 1
    case _ => 0
  }

  /** A step towards the end: virsh succeeds if that is still open, and a failure is reported as `e`. */
  function Onward(s: State, e: string): (step: Step)
    requires Inv(s) && !s.main.Ended?
    ensures Enabled(s, step)
  {
    match s.main
    case Waiting => ChildEnds(Succeeded, "")
    case Finishing(_) => Finish(e)
    case Joining(_) => if s.poller.Exited? then Advance else if s.poller.Querying? then QueryFails else Poll
    case _ => Advance
  }

  lemma OnwardCloser(s: State, e: string)
    requires Inv(s) && !s.main.Ended?
    ensures var s' := Next(s, Onward(s, e));
            MainLeft(s'.main) < MainLeft(s.main) || (s'.main == s.main && PollerLeft(s'.poller) < PollerLeft(s.poller))
  {
  }

  /** From every moment before its end the thread can still publish success or any error. */
  lemma {:induction false} CanStillPublish(s: State, e: string)
    requires Inv(s) && !s.main.Ended?
    ensures Reaches(s, e)
    decreases MainLeft(s.main), PollerLeft(s.poller)
  {
    var step := Onward(s, e);
    var s' := Next(s, step);
    StepKeepsInv(s, step);
    OnwardCloser(s, e);
    if s'.main.Ended? {
      assert s.main.Finishing?;
      assert IsPath([s'], []) && [s'][0] == s' && [s'][0].progress == s'.progress;
      assert Reaches(s', e);
    } else {
      CanStillPublish(s', e);
    }
    ReachesBefore(s, step, e);
  }

  /** At every moment of every interleaving the record is final exactly if the migration thread has ended. */
  lemma FinalExactly(states: seq<State>, steps: seq<Step>, n: nat)
    requires IsRun(states, steps) && n < |states|
    ensures Final(states[n]) <==> states[n].main.Ended?
  {
    var s := states[n];
    RunInv(states, steps, n);
    if s.main.Ended? {
      forall later: seq<State>, moves: seq<Step> | IsPath(later, moves) && later[0] == s ensures moves == [] {
        assert moves != [] ==> Enabled(s, moves[0]);
      }
    } else {
      var e := if s.progress.error == Some("") then "failed" else "";
      CanStillPublish(s, e);
      var later: seq<State>, moves: seq<Step> :|
        IsPath(later, moves) && later[0] == s && Published(later[|moves|].progress, e);
      assert later[|moves|].progress != s.progress;
    }
  }

  /** Such a moment exists in a successful migration. */
  lemma CompletedTooEarly()
    ensures exists states: seq<State>, steps, n: nat ::
              && IsRun(states, steps) && n < |states|
              && states[n].main == Joining(Succeeded)
              && states[n].progress.completed && states[n].progress.error.None? && states[n].progress.percent == 20
  {
    var s1 := Next(INIT, Advance);
    var s2 := Next(s1, Advance);
    var s3 := Next(s2, Advance);
    var s4 := Next(s3, Advance);
    var s5 := Next(s4, ChildEnds(Succeeded, ""));
    var s6 := Next(s5, Advance);
    var states := [INIT, s1, s2, s3, s4, s5, s6];
    var steps := [Advance, Advance, Advance, Advance, ChildEnds(Succeeded, ""), Advance];
    assert IsRun(states, steps);
    assert states[6].main == Joining(Succeeded);
  }

  /** A migration the poller has given up on can end at 100 percent with its error. */
  lemma GivenUpThenSucceeds(e: string)
    ensures exists states: seq<State>, steps, n: nat ::
              && IsRun(states, steps) && n < |states| && states[n].main == Ended(Succeeded)
              && states[n].progress.percent == 100 && states[n].progress.error == Some(e)
  {
    var s1 := Next(INIT, Advance);
    var s2 := Next(s1, Advance);
    var s3 := Next(s2, Advance);
    var s4 := Next(s3, Advance);
    var s5 := Next(s4, Poll);
    var s6 := Next(s5, TimeOut(e));
    var s7 := Next(s6, ChildEnds(Succeeded, ""));
    var s8 := Next(s7, Advance);
    var s9 := Next(s8, Advance);
    var s10 := Next(s9, Finish(""));
    var states := [INIT, s1, s2, s3, s4, s5, s6, s7, s8, s9, s10];
    var steps := [Advance, Advance, Advance, Advance, Poll, TimeOut(e), ChildEnds(Succeeded, ""), Advance, Advance, Finish("")];
    assert IsRun(states, steps);
    assert states[10].main == Ended(Succeeded);
  }
}
