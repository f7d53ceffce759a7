/** One background job under polls and cancels. A poll's remote script reads the meta
  * file, then probes the process, and only later is its answer committed; a cancel
  * tests the record, then connects, signals and probes, and only later commits. */
module JobLifecycle {
  import opened Base
  import opened JobTable

  type CallId = nat

  datatype PollView = Sent | MetaRead(meta: string) | Probed(meta: string, alive: bool)

  datatype CancelStage = Allowed | Signalled | Reprobed(aliveAfter: bool)

  /** `alive` and `file` are the remote process and its meta file. */
  datatype World = World(
    rec: Job, alive: bool, file: string, polls: map<CallId, PollView>, cancels: map<CallId, CancelStage>)

  datatype Label =
    | BeginPoll(k: CallId)
    | ReadMeta(k: CallId)
    | Probe(k: CallId)
    | CommitPoll(k: CallId, offset: nat, now: real)
    | PollFails(k: CallId)
    | BeginCancel(k: CallId)
    | Signal(k: CallId)
    | Reprobe(k: CallId)
    | CommitCancel(k: CallId, now: real)
    | CancelFails(k: CallId)
    | RecordEnd(line: string)
    | Dies

  /** What the job's shell appends when the command is over: one complete line. */
  predicate IsEndLine(line: string) { '\n' in line && EndingOf(FirstLine(line)).Ended? }

  /** A dead process writes nothing and is never alive again. */
  predicate Enabled(w: World, l: Label) {
    match l
    case BeginPoll(k) => k !in w.polls
    case ReadMeta(k) => k in w.polls && w.polls[k] == Sent
    case Probe(k) => k in w.polls && w.polls[k].MetaRead?
    case CommitPoll(k, _, _) => k in w.polls && w.polls[k].Probed?
    case PollFails(k) => k in w.polls
    case BeginCancel(k) => k !in w.cancels
    case Signal(k) => k in w.cancels && w.cancels[k] == Allowed
    case Reprobe(k) => k in w.cancels && w.cancels[k] == Signalled
    case CommitCancel(k, _) => k in w.cancels && w.cancels[k].Reprobed?
    case CancelFails(k) => k in w.cancels
    case RecordEnd(line) => w.alive && IsEndLine(line)
    case Dies => w.alive
  }

  function Apply(w: World, l: Label): World
    requires Enabled(w, l)
  {
    match l
    case BeginPoll(k) => w.(polls := w.polls[k := Sent])
    case ReadMeta(k) => w.(polls := w.polls[k := MetaRead(FirstLine(w.file))])
    case Probe(k) => w.(polls := w.polls[k := Probed(w.polls[k].meta, w.alive)])
    case CommitPoll(k, offset, now) =>
      w.(rec := PollCommitted(w.rec, w.polls[k].meta, w.polls[k].alive, offset, now), polls := w.polls - {k})
    case PollFails(k) => w.(polls := w.polls - {k})
    case BeginCancel(k) => if Terminal(w.rec.status) then w else w.(cancels := w.cancels[k := Allowed])
    case Signal(k) => w.(cancels := w.cancels[k := Signalled])
    case Reprobe(k) => w.(cancels := w.cancels[k := Reprobed(w.alive)])
    case CommitCancel(k, now) =>
      w.(rec := CancelCommitted(w.rec, w.cancels[k].aliveAfter, now), cancels := w.cancels - {k})
    case CancelFails(k) => w.(cancels := w.cancels - {k})
    case RecordEnd(line) => w.(file := w.file + line)
    case Dies => w.(alive := false)
  }

  /** Polls of the job do not overlap each other. */
  predicate PollAlone(w: World, l: Label) { l.BeginPoll? ==> w.polls == map[] }

  /** No two calls about the job overlap. */
  predicate CallAlone(w: World, l: Label) {
    (l.BeginPoll? || l.BeginCancel?) ==> w.polls == map[] && w.cancels == map[]
  }

  function Submitted(): World { World(FRESH, true, "", map[], map[]) }

  // ---------------------------------------------------------------------
  // What holds when polls do not overlap
  // ---------------------------------------------------------------------

  predicate HasEnded(s: Status) { s == Done || s == Failed }

  /** The record says what the meta file says. */
  predicate MatchesFile(rec: Job, file: string) {
    IsEndLine(file) && rec.exitCode == Some(EndingOf(FirstLine(file)).code)
    && rec.status == (if rec.exitCode == Some(0) then Done else Failed)
  }

  predicate ViewInv(w: World, v: PollView) {
    v.Sent? || v.meta == FirstLine(w.file) || (v.meta == "" && !HasEnded(w.rec.status))
  }

  ghost predicate Inv(w: World) {
    && (w.file == "" || IsEndLine(w.file))
    && (forall k, m :: k in w.polls && m in w.polls ==> k == m)
    && (forall k :: k in w.polls ==> ViewInv(w, w.polls[k]))
    && (HasEnded(w.rec.status) ==> MatchesFile(w.rec, w.file))
    && (w.rec.status == Cancelled || w.rec.status == Unknown ==> !w.alive)
    && (w.rec.status == Unknown ==> forall k :: k in w.polls && w.polls[k].Probed? ==> !w.polls[k].alive)
    && (forall k :: k in w.polls && w.polls[k].Probed? && !w.polls[k].alive ==> !w.alive)
    && (forall k :: k in w.cancels && w.cancels[k].Reprobed? && !w.cancels[k].aliveAfter ==> !w.alive)
    && (Terminal(w.rec.status) ==> w.rec.finishedAt.Some?)
    && (w.rec.status == Cancelled ==> w.rec.cancelRequested)
  }

  lemma NoLineNoEnd()
    ensures FirstLine("") == "" && EndingOf("") == NotEnded
  {
  }

  lemma ReadingKeeps(w: World, l: Label)
    requires Inv(w) && Enabled(w, l) && PollAlone(w, l) && !l.CommitPoll? && !l.RecordEnd?
    ensures Inv(Apply(w, l))
  {
    hide EndingOf, FirstLine;
  }

  lemma RecordEndKeeps(w: World, line: string)
    requires Inv(w) && Enabled(w, RecordEnd(line))
    ensures Inv(Apply(w, RecordEnd(line)))
  {
    hide EndingOf;
    if w.file == "" {
      assert w.file + line == line;
    } else {
      CompleteLineStays(w.file, line);
    }
  }

  lemma CommitPollKeeps(w: World, k: CallId, offset: nat, now: real)
    requires Inv(w) && Enabled(w, CommitPoll(k, offset, now))
    ensures Inv(Apply(w, CommitPoll(k, offset, now)))
  {
    hide EndingOf, FirstLine;
    NoLineNoEnd();
  }

  lemma StepKeeps(w: World, l: Label)
    requires Inv(w) && Enabled(w, l) && PollAlone(w, l)
    ensures Inv(Apply(w, l))
  {
    hide Inv, Apply, IsEndLine;
    if l.CommitPoll? {
      CommitPollKeeps(w, l.k, l.offset, l.now);
    } else if l.RecordEnd? {
      RecordEndKeeps(w, l.line);
    } else {
      ReadingKeeps(w, l);
    }
  }

  ghost predicate IsRun(w: World, labels: seq<Label>)
    decreases |labels|
  {
    labels != [] ==> Enabled(w, labels[0]) && IsRun(Apply(w, labels[0]), labels[1..])
  }

  function After(w: World, labels: seq<Label>): World
    requires IsRun(w, labels)
    decreases |labels|
  {
    if labels == [] then w else After(Apply(w, labels[0]), labels[1..])
  }

  ghost predicate PollsAlone(w: World, labels: seq<Label>)
    requires IsRun(w, labels)
    decreases |labels|
  {
    labels != [] ==> PollAlone(w, labels[0]) && PollsAlone(Apply(w, labels[0]), labels[1..])
  }

  lemma {:induction false} RunKeeps(w: World, labels: seq<Label>)
    requires Inv(w) && IsRun(w, labels) && PollsAlone(w, labels)
    ensures Inv(After(w, labels))
    decreases |labels|
  {
    hide Inv, Apply, Enabled;
    if labels != [] {
      StepKeeps(w, labels[0]);
      RunKeeps(Apply(w, labels[0]), labels[1..]);
    }
  }

  // ---------------------------------------------------------------------
  // Recorded ends
  // ---------------------------------------------------------------------

  lemma EndStays(w: World, l: Label)
    requires Inv(w) && Enabled(w, l) && HasEnded(w.rec.status)
    ensures Apply(w, l).rec.status == w.rec.status && Apply(w, l).rec.exitCode == w.rec.exitCode
  {
    hide EndingOf, FirstLine;
    NoLineNoEnd();
  }

  lemma {:induction false} EndStaysOnRuns(w: World, labels: seq<Label>)
    requires Inv(w) && IsRun(w, labels) && PollsAlone(w, labels) && HasEnded(w.rec.status)
    ensures After(w, labels).rec.status == w.rec.status && After(w, labels).rec.exitCode == w.rec.exitCode
    decreases |labels|
  {
    hide Inv, Apply, Enabled;
    if labels != [] {
      EndStays(w, labels[0]);
      StepKeeps(w, labels[0]);
      EndStaysOnRuns(Apply(w, labels[0]), labels[1..]);
    }
  }

  /** A recorded done or failed is what the meta file says, and neither it nor its exit
    * code ever changes, whatever polls, cancels and the job do after. */
  lemma RecordedEndIsFinal(before: seq<Label>, after: seq<Label>)
    requires IsRun(Submitted(), before) && PollsAlone(Submitted(), before)
    requires IsRun(After(Submitted(), before), after) && PollsAlone(After(Submitted(), before), after)
    ensures var w := After(Submitted(), before);
            HasEnded(w.rec.status) ==>
              && MatchesFile(w.rec, w.file)
              && After(w, after).rec.status == w.rec.status
              && After(w, after).rec.exitCode == w.rec.exitCode
  {
    RunKeeps(Submitted(), before);
    if HasEnded(After(Submitted(), before).rec.status) {
      EndStaysOnRuns(After(Submitted(), before), after);
    }
  }

  /** What the other two ends mean: the process is gone, and cancelled only if a cancel had
    * been committed. The job may have recorded its end after the poll read the meta file. */
  lemma RecordedDeathIsReal(labels: seq<Label>)
    requires IsRun(Submitted(), labels) && PollsAlone(Submitted(), labels)
    ensures var w := After(Submitted(), labels);
            && (w.rec.status == Cancelled || w.rec.status == Unknown ==> !w.alive)
            && (w.rec.status == Cancelled ==> w.rec.cancelRequested)
            && (Terminal(w.rec.status) ==> w.rec.finishedAt.Some?)
  {
    hide IsRun, After, PollsAlone;
    RunKeeps(Submitted(), labels);
  }

  /** The time a job was found ended is set once, in every interleaving. */
  lemma {:induction false} FinishedOnce(w: World, labels: seq<Label>)
    requires IsRun(w, labels) && w.rec.finishedAt.Some?
    ensures After(w, labels).rec.finishedAt == w.rec.finishedAt
    decreases |labels|
  {
    hide EndingOf, FirstLine;
    if labels != [] {
      FinishedOnce(Apply(w, labels[0]), labels[1..]);
    }
  }

  /** When polls do not overlap there is one way back to running: the poll saw the process
    * alive and no end, and a cancel recorded its death while the answer was on its way. */
  lemma RevivesAloneExactly(w: World, l: Label)
    requires Inv(w) && Enabled(w, l)
    ensures Terminal(w.rec.status) && !Terminal(Apply(w, l).rec.status) <==>
            l.CommitPoll? && w.rec.status == Cancelled && w.polls[l.k] == Probed("", true)
  {
    hide EndingOf, FirstLine;
    NoLineNoEnd();
    if l.CommitPoll? && Terminal(w.rec.status) {
      assert ViewInv(w, w.polls[l.k]);
    }
  }

  // ---------------------------------------------------------------------
  // Calls that do not overlap at all
  // ---------------------------------------------------------------------

  ghost predicate SerialInv(w: World) {
    && Inv(w)
    && (w.polls == map[] || w.cancels == map[])
    && (forall k, m :: k in w.cancels && m in w.cancels ==> k == m)
    && (forall k :: k in w.cancels ==> !Terminal(w.rec.status))
    && (w.rec.status == Cancelled ==> forall k :: k in w.polls && w.polls[k].Probed? ==> !w.polls[k].alive)
  }

  /** An ended job is not taken for running again, and is not signalled. */
  predicate SafeStep(w: World, l: Label)
    requires Enabled(w, l)
  {
    && (Terminal(w.rec.status) ==> Terminal(Apply(w, l).rec.status))
    && (l.Signal? ==> !Terminal(w.rec.status))
  }

  lemma SerialStep(w: World, l: Label)
    requires SerialInv(w) && Enabled(w, l) && CallAlone(w, l)
    ensures SerialInv(Apply(w, l)) && SafeStep(w, l)
  {
    hide EndingOf, FirstLine;
    RevivesAloneExactly(w, l);
    StepKeeps(w, l);
  }

  ghost predicate CallsAlone(w: World, labels: seq<Label>)
    requires IsRun(w, labels)
    decreases |labels|
  {
    labels != [] ==> CallAlone(w, labels[0]) && CallsAlone(Apply(w, labels[0]), labels[1..])
  }

  ghost predicate AllSafe(w: World, labels: seq<Label>)
    requires IsRun(w, labels)
    decreases |labels|
  {
    labels != [] ==> SafeStep(w, labels[0]) && AllSafe(Apply(w, labels[0]), labels[1..])
  }

  lemma {:induction false} SerialRunsKeep(w: World, labels: seq<Label>)
    requires SerialInv(w) && IsRun(w, labels) && CallsAlone(w, labels)
    ensures AllSafe(w, labels)
    decreases |labels|
  {
    hide SerialInv, Apply, Enabled, SafeStep;
    if labels != [] {
      SerialStep(w, labels[0]);
      SerialRunsKeep(Apply(w, labels[0]), labels[1..]);
    }
  }

  /** When no two calls about a job overlap, no end is ever taken back and no signal is
    * sent to a job recorded as ended. */
  lemma SerialCallsAreSafe(labels: seq<Label>)
    requires IsRun(Submitted(), labels) && CallsAlone(Submitted(), labels)
    ensures AllSafe(Submitted(), labels)
  {
    SerialRunsKeep(Submitted(), labels);
  }

  // ---------------------------------------------------------------------
  // What overlapping calls can do
  // ---------------------------------------------------------------------

  lemma {:induction false} RunOn(w: World, labels: seq<Label>, l: Label)
    requires IsRun(w, labels) && Enabled(After(w, labels), l)
    ensures IsRun(w, labels + [l]) && After(w, labels + [l]) == Apply(After(w, labels), l)
    decreases |labels|
  {
    hide Enabled, Apply;
    if labels == [] {
      assert [] + [l] == [l] && [l][1..] == [];
    } else {
      assert (labels + [l])[1..] == labels[1..] + [l];
      RunOn(Apply(w, labels[0]), labels[1..], l);
    }
  }

  /** Runs one label after the other. */
  lemma {:induction false} RunAll(w: World, done: seq<Label>, next: seq<Label>)
    requires IsRun(w, done) && IsRun(After(w, done), next)
    ensures IsRun(w, done + next) && After(w, done + next) == After(After(w, done), next)
    decreases |next|
  {
    hide Enabled, Apply;
    if next == [] {
      assert done + [] == done;
    } else {
      RunOn(w, done, next[0]);
      RunAll(w, done + [next[0]], next[1..]);
      assert done + [next[0]] + next[1..] == done + next;
    }
  }

  /** One poll from start to commit. */
  function OnePoll(k: CallId, now: real): seq<Label> { [BeginPoll(k), ReadMeta(k), Probe(k), CommitPoll(k, 0, now)] }

  lemma OnePollRuns(w: World, k: CallId, now: real)
    requires k !in w.polls
    ensures IsRun(w, OnePoll(k, now))
    ensures After(w, OnePoll(k, now)) == w.(rec := PollCommitted(w.rec, FirstLine(w.file), w.alive, 0, now))
  {
    hide PollCommitted, FirstLine;
    var w1 := Apply(w, BeginPoll(k));
    var w2 := Apply(w1, ReadMeta(k));
    var w3 := Apply(w2, Probe(k));
    var w4 := Apply(w3, CommitPoll(k, 0, now));
    assert w4.polls == w.polls;
    LastStep(w3, CommitPoll(k, 0, now));
    MoreSteps(w2, Probe(k), [CommitPoll(k, 0, now)]);
    MoreSteps(w1, ReadMeta(k), [Probe(k)] + [CommitPoll(k, 0, now)]);
    MoreSteps(w, BeginPoll(k), [ReadMeta(k)] + ([Probe(k)] + [CommitPoll(k, 0, now)]));
    assert OnePoll(k, now) == [BeginPoll(k)] + ([ReadMeta(k)] + ([Probe(k)] + [CommitPoll(k, 0, now)]));
  }

  /** A poll that nothing disturbs reports what is so: the recorded end and its code, else
    * running while the process lives, else whether it was to be cancelled. */
  lemma UndisturbedPollTells(w: World, k: CallId, now: real)
    requires Inv(w) && k !in w.polls
    ensures IsRun(w, OnePoll(k, now))
    ensures var rec := After(w, OnePoll(k, now)).rec;
            && (HasEnded(rec.status) <==> IsEndLine(w.file))
            && (HasEnded(rec.status) ==> MatchesFile(rec, w.file))
            && (rec.status == Running <==> w.file == "" && w.alive)
            && (rec.status == Cancelled <==> w.file == "" && !w.alive && w.rec.cancelRequested)
            && (rec.status == Unknown <==> w.file == "" && !w.alive && !w.rec.cancelRequested)
  {
    hide EndingOf, FirstLine, OnePoll;
    NoLineNoEnd();
    OnePollRuns(w, k, now);
  }

  lemma LastStep(w: World, l: Label)
    requires Enabled(w, l)
    ensures IsRun(w, [l]) && After(w, [l]) == Apply(w, l)
  {
    assert [l][1..] == [];
  }

  lemma MoreSteps(w: World, l: Label, rest: seq<Label>)
    requires Enabled(w, l) && IsRun(Apply(w, l), rest)
    ensures IsRun(w, [l] + rest) && After(w, [l] + rest) == After(Apply(w, l), rest)
  {
    assert ([l] + rest)[1..] == rest;
  }

  /** A poll that has found the job running, its answer not yet committed. */
  function PollInFlight(): World { World(FRESH, true, "", map[0 := Probed("", true)], map[]) }

  function StartPoll(): seq<Label> { [BeginPoll(0)] + ([ReadMeta(0)] + [Probe(0)]) }

  lemma PollStarts()
    ensures IsRun(Submitted(), StartPoll()) && After(Submitted(), StartPoll()) == PollInFlight()
  {
    var w1 := Apply(Submitted(), BeginPoll(0));
    var w2 := Apply(w1, ReadMeta(0));
    assert w2.polls == map[0 := MetaRead("")];
    assert Apply(w2, Probe(0)).polls == map[0 := Probed("", true)];
    LastStep(w2, Probe(0));
    MoreSteps(w1, ReadMeta(0), [Probe(0)]);
    MoreSteps(Submitted(), BeginPoll(0), [ReadMeta(0)] + [Probe(0)]);
  }

  /** Two overlapping polls: the later reads the end and records it, then the earlier,
    * which read the meta file before, takes it back. */
  lemma OverlappingPollsTakeBack(line: string, now: real) returns (first: seq<Label>, last: Label)
    requires IsEndLine(line)
    ensures IsRun(Submitted(), first) && Enabled(After(Submitted(), first), last)
    ensures HasEnded(After(Submitted(), first).rec.status)
    ensures Apply(After(Submitted(), first), last).rec.status == Running
  {
    var w := PollInFlight().(file := line);
    assert "" + line == line;
    PollStarts();
    LastStep(PollInFlight(), RecordEnd(line));
    RunAll(Submitted(), StartPoll(), [RecordEnd(line)]);
    OnePollRuns(w, 1, now);
    RunAll(Submitted(), StartPoll() + [RecordEnd(line)], OnePoll(1, now));
    NoLineNoEnd();
    first, last := StartPoll() + [RecordEnd(line)] + OnePoll(1, now), CommitPoll(0, 0, now);
  }

  /** A cancel that records the death of a job while a poll's answer is on its way: the
    * poll takes the cancelled job for running again. */
  lemma CancelDuringPollRevives(now: real) returns (first: seq<Label>, last: Label)
    ensures IsRun(Submitted(), first) && Enabled(After(Submitted(), first), last)
    ensures After(Submitted(), first).rec.status == Cancelled
    ensures Apply(After(Submitted(), first), last).rec.status == Running
  {
    var w1 := Apply(PollInFlight(), BeginCancel(1));
    var w2 := Apply(w1, Signal(1));
    var w3 := Apply(w2, Dies);
    var w4 := Apply(w3, Reprobe(1));
    LastStep(w4, CommitCancel(1, now));
    MoreSteps(w3, Reprobe(1), [CommitCancel(1, now)]);
    MoreSteps(w2, Dies, [Reprobe(1)] + [CommitCancel(1, now)]);
    MoreSteps(w1, Signal(1), [Dies] + ([Reprobe(1)] + [CommitCancel(1, now)]));
    var cancel := [BeginCancel(1)] + ([Signal(1)] + ([Dies] + ([Reprobe(1)] + [CommitCancel(1, now)])));
    MoreSteps(PollInFlight(), BeginCancel(1), cancel[1..]);
    PollStarts();
    RunAll(Submitted(), StartPoll(), cancel);
    NoLineNoEnd();
    first, last := StartPoll() + cancel, CommitPoll(0, 0, now);
  }

  /** A cancel that nothing disturbs records the death of the process if there was one,
    * and otherwise only that it was asked for. */
  lemma UndisturbedCancelTells(w: World, k: CallId, dies: bool, now: real) returns (labels: seq<Label>)
    requires k !in w.cancels && w.rec.status == Running && w.alive
    ensures labels ==
            [BeginCancel(k)] + ([Signal(k)] + ((if dies then [Dies] else []) + ([Reprobe(k)] + [CommitCancel(k, now)])))
    ensures IsRun(w, labels)
    ensures var rec := After(w, labels).rec;
            rec.cancelRequested && (rec.status == if dies then Cancelled else Running)
  {
    hide Classify;
    var end := [Reprobe(k)] + [CommitCancel(k, now)];
    var w1 := Apply(w, BeginCancel(k));
    var w2 := Apply(w1, Signal(k));
    var w3 := if dies then Apply(w2, Dies) else w2;
    var w4 := Apply(w3, Reprobe(k));
    LastStep(w4, CommitCancel(k, now));
    MoreSteps(w3, Reprobe(k), [CommitCancel(k, now)]);
    var middle := (if dies then [Dies] else []) + end;
    if dies {
      MoreSteps(w2, Dies, end);
    } else {
      assert middle == end;
    }
    MoreSteps(w1, Signal(k), middle);
    MoreSteps(w, BeginCancel(k), [Signal(k)] + middle);
    labels := [BeginCancel(k)] + ([Signal(k)] + middle);
  }

  /** A cancel is allowed while the job runs; before its signal goes out a poll records
    * the end. The signal is then sent to the number of a process that is over. */
  lemma PollDuringCancelIsSignalled(line: string, now: real) returns (first: seq<Label>, last: Label)
    requires IsEndLine(line)
    ensures IsRun(Submitted(), first) && Enabled(After(Submitted(), first), last)
    ensures last.Signal? && HasEnded(After(Submitted(), first).rec.status)
  {
    var w1 := Apply(Submitted(), BeginCancel(0));
    var w2 := Apply(w1, RecordEnd(line));
    assert "" + line == line;
    LastStep(w1, RecordEnd(line));
    MoreSteps(Submitted(), BeginCancel(0), [RecordEnd(line)]);
    OnePollRuns(w2, 1, now);
    RunAll(Submitted(), [BeginCancel(0)] + [RecordEnd(line)], OnePoll(1, now));
    first, last := [BeginCancel(0)] + [RecordEnd(line)] + OnePoll(1, now), Signal(0);
  }
}
