/** One job under any interleaving of polls and cancels: exactly when a recorded end can be
  * taken back, an ended job be taken for running, or an ended job be signalled. */
module JobOverlap {
  import opened Base
  import opened JobTable
  import opened JobLifecycle

  /** What a poll in flight has read: nothing yet, no end, or the end that is recorded. */
  predicate AnyView(w: World, v: PollView) { v.Sent? || v.meta == "" || v.meta == FirstLine(w.file) }

  ghost predicate AnyInv(w: World) {
    && (w.file == "" || IsEndLine(w.file))
    && (forall k :: k in w.polls ==> AnyView(w, w.polls[k]))
    && (HasEnded(w.rec.status) ==> MatchesFile(w.rec, w.file))
    && (w.rec.status == Cancelled || w.rec.status == Unknown ==> !w.alive)
    && (forall k :: k in w.polls && w.polls[k].Probed? && !w.polls[k].alive ==> !w.alive)
    && (forall k :: k in w.cancels && w.cancels[k].Reprobed? && !w.cancels[k].aliveAfter ==> !w.alive)
  }

  lemma EndIsVisible(file: string)
    requires IsEndLine(file)
    ensures FirstLine(file) != "" && EndingOf(FirstLine(file)).Ended?
  {
    NoLineNoEnd();
  }

  lemma CommitKeepsAny(w: World, l: Label)
    requires AnyInv(w) && Enabled(w, l) && !l.RecordEnd?
    ensures AnyInv(Apply(w, l))
  {
    hide EndingOf, FirstLine;
    NoLineNoEnd();
  }

  lemma RecordEndKeepsAny(w: World, line: string)
    requires AnyInv(w) && Enabled(w, RecordEnd(line))
    ensures AnyInv(Apply(w, RecordEnd(line)))
  {
    hide EndingOf;
    NoLineNoEnd();
    if w.file == "" {
      assert w.file + line == line;
    } else {
      CompleteLineStays(w.file, line);
    }
  }

  lemma StepKeepsAny(w: World, l: Label)
    requires AnyInv(w) && Enabled(w, l)
    ensures AnyInv(Apply(w, l))
  {
    hide AnyInv, Apply, IsEndLine;
    if l.RecordEnd? {
      RecordEndKeepsAny(w, l.line);
    } else {
      CommitKeepsAny(w, l);
    }
  }

  lemma {:induction false} RunKeepsAny(w: World, labels: seq<Label>)
    requires AnyInv(w) && IsRun(w, labels)
    ensures AnyInv(After(w, labels))
    decreases |labels|
  {
    hide AnyInv, Apply, Enabled;
    if labels != [] {
      StepKeepsAny(w, labels[0]);
      RunKeepsAny(Apply(w, labels[0]), labels[1..]);
    }
  }

  // ---------------------------------------------------------------------
  // A recorded end
  // ---------------------------------------------------------------------

  /** One step takes a recorded end back exactly when it commits a poll that had read the
    * meta file while it was empty; otherwise status and exit code stay. */
  lemma EndLostExactly(w: World, l: Label)
    requires AnyInv(w) && Enabled(w, l) && HasEnded(w.rec.status)
    ensures var rec := Apply(w, l).rec;
            && (HasEnded(rec.status) <==> !(l.CommitPoll? && w.polls[l.k].meta == ""))
            && (HasEnded(rec.status) ==> rec.status == w.rec.status && rec.exitCode == w.rec.exitCode)
  {
    hide EndingOf, FirstLine;
    NoLineNoEnd();
    EndIsVisible(w.file);
  }

  /** In no later run is the end taken back or its exit code changed. */
  ghost predicate EndIsSafe(w: World) {
    forall labels :: IsRun(w, labels) ==>
      After(w, labels).rec.status == w.rec.status && After(w, labels).rec.exitCode == w.rec.exitCode
  }

  predicate Stale(v: PollView) { !v.Sent? && v.meta == "" }

  /** A recorded end is final in every later interleaving exactly when no poll in flight
    * read the meta file before the end was there. */
  lemma EndSafetyIsExact(w: World)
    requires AnyInv(w) && HasEnded(w.rec.status)
    ensures EndIsSafe(w) <==> forall k :: k in w.polls ==> !Stale(w.polls[k])
  {
    hide IsRun, After, AnyInv;
    if forall k :: k in w.polls ==> !Stale(w.polls[k]) {
      forall labels | IsRun(w, labels)
        ensures After(w, labels).rec.status == w.rec.status && After(w, labels).rec.exitCode == w.rec.exitCode
      {
        EndStaysUnlessStale(w, labels);
      }
    } else {
      var k :| k in w.polls && Stale(w.polls[k]);
      var labels := StalePollCommits(w, k);
    }
  }

  lemma {:induction false} EndStaysUnlessStale(w: World, labels: seq<Label>)
    requires AnyInv(w) && HasEnded(w.rec.status) && IsRun(w, labels)
    requires forall k :: k in w.polls ==> !Stale(w.polls[k])
    ensures After(w, labels).rec.status == w.rec.status && After(w, labels).rec.exitCode == w.rec.exitCode
    decreases |labels|
  {
    hide AnyInv, MatchesFile;
    if labels != [] {
      EndLostExactly(w, labels[0]);
      StepKeepsAny(w, labels[0]);
      NoneGetsStale(w, labels[0]);
      hide Apply, Enabled;
      EndStaysUnlessStale(Apply(w, labels[0]), labels[1..]);
    }
  }

  lemma NoneGetsStale(w: World, l: Label)
    requires AnyInv(w) && HasEnded(w.rec.status) && Enabled(w, l)
    requires forall k :: k in w.polls ==> !Stale(w.polls[k])
    ensures forall k :: k in Apply(w, l).polls ==> !Stale(Apply(w, l).polls[k])
  {
    hide EndingOf, FirstLine;
    EndIsVisible(w.file);
  }

  lemma StalePollCommits(w: World, k: CallId) returns (labels: seq<Label>)
    requires AnyInv(w) && HasEnded(w.rec.status) && k in w.polls && Stale(w.polls[k])
    ensures IsRun(w, labels) && !HasEnded(After(w, labels).rec.status)
  {
    hide AnyInv, MatchesFile;
    if w.polls[k].MetaRead? {
      var w' := Apply(w, Probe(k));
      StepKeepsAny(w, Probe(k));
      EndLostExactly(w', CommitPoll(k, 0, 0.0));
      LastStep(w', CommitPoll(k, 0, 0.0));
      MoreSteps(w, Probe(k), [CommitPoll(k, 0, 0.0)]);
      labels := [Probe(k)] + [CommitPoll(k, 0, 0.0)];
    } else {
      EndLostExactly(w, CommitPoll(k, 0, 0.0));
      LastStep(w, CommitPoll(k, 0, 0.0));
      labels := [CommitPoll(k, 0, 0.0)];
    }
  }

  /** For every interleaving from submission: a recorded done or failed is what the meta file
    * says, and whether it can still be lost is decided by the polls then in flight. */
  lemma RecordedEndIsFinalExactly(labels: seq<Label>)
    requires IsRun(Submitted(), labels)
    ensures var w := After(Submitted(), labels);
            HasEnded(w.rec.status) ==>
              && MatchesFile(w.rec, w.file)
              && (EndIsSafe(w) <==> forall k :: k in w.polls ==> !Stale(w.polls[k]))
  {
    hide IsRun, After, EndIsSafe;
    RunKeepsAny(Submitted(), labels);
    var w := After(Submitted(), labels);
    if HasEnded(w.rec.status) {
      EndSafetyIsExact(w);
    }
  }

  // ---------------------------------------------------------------------
  // A poll that misses the end
  // ---------------------------------------------------------------------

  /** What a poll has read stays with it until it commits or fails. */
  lemma {:induction false} ReadingStays(w: World, k: CallId, labels: seq<Label>)
    requires IsRun(w, labels) && (forall i :: 0 <= i < |labels| ==> labels[i] != BeginPoll(k))
    requires k in After(w, labels).polls && (k in w.polls ==> !w.polls[k].Sent?)
    ensures k in w.polls && !After(w, labels).polls[k].Sent? && After(w, labels).polls[k].meta == w.polls[k].meta
    decreases |labels|
  {
    hide EndingOf, FirstLine, PollCommitted, CancelCommitted;
    if labels != [] {
      assert forall i :: 0 <= i < |labels[1..]| ==> labels[1..][i] != BeginPoll(k);
      ReadingStays(Apply(w, labels[0]), k, labels[1..]);
    }
  }

  /** A poll committed when the end is in the meta file misses it exactly when it had read
    * the file before: whatever happens between its reading and its commit. */
  lemma PollMissesEndExactly(w: World, k: CallId, labels: seq<Label>, offset: nat, now: real)
    requires AnyInv(w) && Enabled(w, ReadMeta(k)) && IsRun(Apply(w, ReadMeta(k)), labels)
    requires forall i :: 0 <= i < |labels| ==> labels[i] != BeginPoll(k)
    requires var t := After(Apply(w, ReadMeta(k)), labels);
             Enabled(t, CommitPoll(k, offset, now)) && IsEndLine(t.file)
    ensures var t := After(Apply(w, ReadMeta(k)), labels);
            !HasEnded(Apply(t, CommitPoll(k, offset, now)).rec.status) <==> w.file == ""
  {
    hide IsRun, After, EndingOf, FirstLine;
    var w' := Apply(w, ReadMeta(k));
    StepKeepsAny(w, ReadMeta(k));
    RunKeepsAny(w', labels);
    ReadingStays(w', k, labels);
    NoLineNoEnd();
    EndIsVisible(After(w', labels).file);
    if w.file != "" {
      EndIsVisible(w.file);
    }
  }

  /** Also without any overlap: a job that records its end and dies between the two looks of
    * one poll is reported unknown although the meta file holds its exit code. */
  lemma EndedJobReportedUnknown(line: string, now: real)
    requires IsEndLine(line)
    ensures var labels :=
              [BeginPoll(0)] + ([ReadMeta(0)] + ([RecordEnd(line)] + ([Dies] + ([Probe(0)] + [CommitPoll(0, 0, now)]))));
            && IsRun(Submitted(), labels) && CallsAlone(Submitted(), labels)
            && After(Submitted(), labels).rec.status == Unknown && After(Submitted(), labels).file == line
  {
    hide EndingOf, IsRun, After, CallsAlone;
    NoLineNoEnd();
    assert "" + line == line;
    var w1 := Apply(Submitted(), BeginPoll(0));
    var w2 := Apply(w1, ReadMeta(0));
    var w3 := Apply(w2, RecordEnd(line));
    var w4 := Apply(w3, Dies);
    var w5 := Apply(w4, Probe(0));
    var l6 := [CommitPoll(0, 0, now)];
    AloneLast(w5, CommitPoll(0, 0, now));
    AloneMore(w4, Probe(0), l6);
    AloneMore(w3, Dies, [Probe(0)] + l6);
    AloneMore(w2, RecordEnd(line), [Dies] + ([Probe(0)] + l6));
    AloneMore(w1, ReadMeta(0), [RecordEnd(line)] + ([Dies] + ([Probe(0)] + l6)));
    AloneMore(Submitted(), BeginPoll(0), [ReadMeta(0)] + ([RecordEnd(line)] + ([Dies] + ([Probe(0)] + l6))));
  }

  lemma AloneLast(w: World, l: Label)
    requires Enabled(w, l) && CallAlone(w, l)
    ensures IsRun(w, [l]) && After(w, [l]) == Apply(w, l) && CallsAlone(w, [l])
  {
    hide Enabled, Apply, CallAlone;
    assert [l][1..] == [];
  }

  lemma AloneMore(w: World, l: Label, rest: seq<Label>)
    requires Enabled(w, l) && CallAlone(w, l) && IsRun(Apply(w, l), rest) && CallsAlone(Apply(w, l), rest)
    ensures IsRun(w, [l] + rest) && After(w, [l] + rest) == After(Apply(w, l), rest) && CallsAlone(w, [l] + rest)
  {
    hide Enabled, Apply, CallAlone;
    assert ([l] + rest)[1..] == rest;
  }

  // ---------------------------------------------------------------------
  // Taking an ended job for running
  // ---------------------------------------------------------------------

  /** One step revives an ended job exactly when it commits a poll that saw no end and the
    * process alive. */
  lemma RevivesExactly(w: World, l: Label)
    requires AnyInv(w) && Enabled(w, l) && Terminal(w.rec.status)
    ensures !Terminal(Apply(w, l).rec.status) <==> l.CommitPoll? && w.polls[l.k] == Probed("", true)
  {
    hide EndingOf, FirstLine;
    NoLineNoEnd();
    if w.file != "" {
      EndIsVisible(w.file);
    }
  }

  ghost predicate StaysEnded(w: World) {
    forall labels :: IsRun(w, labels) ==> Terminal(After(w, labels).rec.status)
  }

  /** A poll in flight that can still commit running. */
  predicate MayRevive(w: World, v: PollView) { v == Probed("", true) || (v == MetaRead("") && w.alive) }

  /** An ended job stays ended in every later interleaving exactly when no poll in flight saw,
    * or can still see, the process alive after reading no end. */
  lemma RevivalSafetyIsExact(w: World)
    requires AnyInv(w) && Terminal(w.rec.status)
    ensures StaysEnded(w) <==> forall k :: k in w.polls ==> !MayRevive(w, w.polls[k])
  {
    hide IsRun, After, AnyInv;
    if forall k :: k in w.polls ==> !MayRevive(w, w.polls[k]) {
      forall labels | IsRun(w, labels) ensures Terminal(After(w, labels).rec.status) {
        EndedStaysEnded(w, labels);
      }
    } else {
      var k :| k in w.polls && MayRevive(w, w.polls[k]);
      var labels := RevivingPollCommits(w, k);
    }
  }

  lemma {:induction false} EndedStaysEnded(w: World, labels: seq<Label>)
    requires AnyInv(w) && Terminal(w.rec.status) && IsRun(w, labels)
    requires forall k :: k in w.polls ==> !MayRevive(w, w.polls[k])
    ensures Terminal(After(w, labels).rec.status)
    decreases |labels|
  {
    hide AnyInv;
    if labels != [] {
      RevivesExactly(w, labels[0]);
      StepKeepsAny(w, labels[0]);
      NoneGetsReviving(w, labels[0]);
      EndedStaysEnded(Apply(w, labels[0]), labels[1..]);
    }
  }

  lemma NoneGetsReviving(w: World, l: Label)
    requires AnyInv(w) && Terminal(w.rec.status) && Enabled(w, l)
    requires forall k :: k in w.polls ==> !MayRevive(w, w.polls[k])
    ensures forall k :: k in Apply(w, l).polls ==> !MayRevive(Apply(w, l), Apply(w, l).polls[k])
  {
    hide EndingOf, FirstLine;
    if w.file != "" {
      EndIsVisible(w.file);
    }
  }

  lemma RevivingPollCommits(w: World, k: CallId) returns (labels: seq<Label>)
    requires AnyInv(w) && Terminal(w.rec.status) && k in w.polls && MayRevive(w, w.polls[k])
    ensures IsRun(w, labels) && !Terminal(After(w, labels).rec.status)
  {
    hide AnyInv;
    if w.polls[k].MetaRead? {
      var w' := Apply(w, Probe(k));
      StepKeepsAny(w, Probe(k));
      RevivesExactly(w', CommitPoll(k, 0, 0.0));
      LastStep(w', CommitPoll(k, 0, 0.0));
      MoreSteps(w, Probe(k), [CommitPoll(k, 0, 0.0)]);
      labels := [Probe(k)] + [CommitPoll(k, 0, 0.0)];
    } else {
      RevivesExactly(w, CommitPoll(k, 0, 0.0));
      LastStep(w, CommitPoll(k, 0, 0.0));
      labels := [CommitPoll(k, 0, 0.0)];
    }
  }

  // ---------------------------------------------------------------------
  // Signalling an ended job
  // ---------------------------------------------------------------------

  predicate NoneBegin(labels: seq<Label>) {
    forall i :: 0 <= i < |labels| ==> !labels[i].BeginPoll? && !labels[i].BeginCancel?
  }

  /** Whatever the calls now in flight do, when cancel `k` comes to send its signal the job is
    * not recorded as ended. */
  ghost predicate SafeToSignal(w: World, k: CallId) {
    forall labels :: IsRun(w, labels) && NoneBegin(labels) && Enabled(After(w, labels), Signal(k)) ==>
      !Terminal(After(w, labels).rec.status)
  }

  /** Every other call in flight has its answer, and the answer is that the job runs. */
  ghost predicate OthersSawItRun(w: World, k: CallId) {
    && (forall j :: j in w.polls ==> w.polls[j] == Probed("", true))
    && (forall j :: j in w.cancels && j != k ==> w.cancels[j] == Reprobed(true))
  }

  /** A cancel just allowed signals no job recorded as ended exactly when every other call in
    * flight has already seen the job run. */
  lemma SignalSafetyIsExact(w: World, k: CallId)
    requires AnyInv(w) && !Terminal(w.rec.status) && k in w.cancels && w.cancels[k] == Allowed
    ensures SafeToSignal(w, k) <==> OthersSawItRun(w, k)
  {
    hide IsRun, After, AnyInv, NoneBegin;
    if OthersSawItRun(w, k) {
      forall labels | IsRun(w, labels) && NoneBegin(labels) && Enabled(After(w, labels), Signal(k))
        ensures !Terminal(After(w, labels).rec.status)
      {
        StillRunningAtSignal(w, k, labels);
      }
    } else if j :| j in w.polls && w.polls[j] != Probed("", true) {
      var labels := PollCanEnd(w, j);
    } else {
      var j :| j in w.cancels && j != k && w.cancels[j] != Reprobed(true);
      var labels := CancelCanEnd(w, j);
    }
  }

  ghost predicate RunsUntilSignal(w: World, k: CallId) {
    k in w.cancels && w.cancels[k] == Allowed ==> !Terminal(w.rec.status) && OthersSawItRun(w, k)
  }

  lemma SignalStaysSafe(w: World, k: CallId, l: Label)
    requires RunsUntilSignal(w, k) && Enabled(w, l) && !l.BeginPoll? && !l.BeginCancel?
    ensures RunsUntilSignal(Apply(w, l), k)
  {
    hide FirstLine, EndingOf;
    NoLineNoEnd();
  }

  lemma {:induction false} StillRunningAtSignal(w: World, k: CallId, labels: seq<Label>)
    requires IsRun(w, labels) && NoneBegin(labels) && Enabled(After(w, labels), Signal(k))
    requires RunsUntilSignal(w, k)
    ensures !Terminal(After(w, labels).rec.status)
    decreases |labels|
  {
    hide Apply, OthersSawItRun;
    if labels != [] {
      assert forall i :: 0 <= i < |labels[1..]| ==> labels[1..][i] == labels[i + 1];
      SignalStaysSafe(w, k, labels[0]);
      StillRunningAtSignal(Apply(w, labels[0]), k, labels[1..]);
    }
  }

  function Left(w: World, v: PollView): nat {
    match v case Sent => 3 case MetaRead(_) => if w.alive then 2 else 1 case Probed(_, _) => 0
  }

  /** A poll in flight that has not seen the job run can come to record an end. */
  lemma {:induction false} PollCanEnd(w: World, j: CallId) returns (labels: seq<Label>)
    requires AnyInv(w) && j in w.polls && w.polls[j] != Probed("", true)
    ensures IsRun(w, labels) && NoneBegin(labels)
    ensures Terminal(After(w, labels).rec.status) && After(w, labels).cancels == w.cancels
    decreases Left(w, w.polls[j])
  {
    hide AnyInv, MatchesFile, EndingOf;
    match w.polls[j] {
      case Sent =>
        var rest := PollCanEndAfter(w, ReadMeta(j), j);
        labels := [ReadMeta(j)] + rest;
      case MetaRead(_) =>
        var l := if w.alive then Dies else Probe(j);
        var rest := PollCanEndAfter(w, l, j);
        labels := [l] + rest;
      case Probed(_, _) =>
        LastStep(w, CommitPoll(j, 0, 0.0));
        CommitEnds(w, j);
        labels := [CommitPoll(j, 0, 0.0)];
    }
  }

  lemma {:induction false} PollCanEndAfter(w: World, l: Label, j: CallId) returns (rest: seq<Label>)
    requires AnyInv(w) && Enabled(w, l) && !l.BeginPoll? && !l.BeginCancel?
    requires var w' := Apply(w, l);
             j in w'.polls && w'.polls[j] != Probed("", true) && w'.cancels == w.cancels
             && j in w.polls && Left(w', w'.polls[j]) < Left(w, w.polls[j])
    ensures IsRun(w, [l] + rest) && NoneBegin([l] + rest)
    ensures Terminal(After(w, [l] + rest).rec.status) && After(w, [l] + rest).cancels == w.cancels
    decreases Left(w, w.polls[j]), 0
  {
    hide AnyInv, Apply, Enabled;
    StepKeepsAny(w, l);
    rest := PollCanEnd(Apply(w, l), j);
    MoreSteps(w, l, rest);
  }

  lemma CommitEnds(w: World, j: CallId)
    requires AnyInv(w) && j in w.polls && w.polls[j].Probed? && w.polls[j] != Probed("", true)
    ensures Terminal(Apply(w, CommitPoll(j, 0, 0.0)).rec.status)
  {
    hide EndingOf, FirstLine;
    if w.file != "" {
      EndIsVisible(w.file);
    }
    NoLineNoEnd();
  }

  /** So can another cancel that has not. */
  lemma {:induction false} CancelCanEnd(w: World, j: CallId) returns (labels: seq<Label>)
    requires !Terminal(w.rec.status) && j in w.cancels && w.cancels[j] != Reprobed(true)
    ensures IsRun(w, labels) && NoneBegin(labels)
    ensures Terminal(After(w, labels).rec.status) && After(w, labels).cancels == w.cancels - {j}
    decreases w.cancels[j].Allowed?, !w.cancels[j].Reprobed?, w.alive
  {
    hide Classify;
    match w.cancels[j] {
      case Reprobed(_) =>
        LastStep(w, CommitCancel(j, 0.0));
        labels := [CommitCancel(j, 0.0)];
      case _ =>
        var l := if w.cancels[j] == Allowed then Signal(j) else if w.alive then Dies else Reprobe(j);
        var rest := CancelCanEnd(Apply(w, l), j);
        assert Apply(w, l).cancels - {j} == w.cancels - {j};
        MoreSteps(w, l, rest);
        labels := [l] + rest;
    }
  }

  /** If a poll may still begin, no cancel is safe. */
  lemma LaterPollMakesUnsafe(w: World, k: CallId, j: CallId) returns (labels: seq<Label>)
    requires AnyInv(w) && k in w.cancels && w.cancels[k] == Allowed && j !in w.polls
    ensures IsRun(w, labels) && Enabled(After(w, labels), Signal(k)) && Terminal(After(w, labels).rec.status)
  {
    hide AnyInv, IsRun, After;
    var w' := Apply(w, BeginPoll(j));
    StepKeepsAny(w, BeginPoll(j));
    var rest := PollCanEnd(w', j);
    MoreSteps(w, BeginPoll(j), rest);
    labels := [BeginPoll(j)] + rest;
  }
}
