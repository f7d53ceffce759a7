/** Exactly which steps leave a session synchronised whatever follows, and what the others do. */
module SessionFaults {
  import opened Base
  import opened Osc133
  import opened SessionProtocol

  /** Whatever follows in time, the session stays synchronised. */
  ghost predicate SafeFrom(s: Session) {
    forall rest :: IsRun(s, rest) && AllInTime(s, rest) ==> Synchronised(After(s, rest))
  }

  lemma InvIsSafe(s: Session)
    requires Inv(s)
    ensures SafeFrom(s)
  {
    hide Inv, IsRun, AllInTime, After, Synchronised;
    forall rest | IsRun(s, rest) && AllInTime(s, rest) ensures Synchronised(After(s, rest)) {
      RunKeepsInv(s, rest);
      InvSynchronises(After(s, rest));
    }
  }

  lemma InvSynchronises(s: Session)
    requires Inv(s)
    ensures Synchronised(s)
  {
    hide Search, MatchAt, Find, ReadyBytes, ReadySeen, ReadingInv, CancellingInv;
  }

  // ---------------------------------------------------------------------
  // Reading to the next D
  // ---------------------------------------------------------------------

  lemma {:induction false} RunsCompose(s: Session, a: seq<Label>, b: seq<Label>)
    requires IsRun(s, a) && AllInTime(s, a) && IsRun(After(s, a), b) && AllInTime(After(s, a), b)
    ensures IsRun(s, a + b) && AllInTime(s, a + b) && After(s, a + b) == After(After(s, a), b)
    decreases |a|
  {
    hide Enabled, Apply, InTime;
    if a == [] {
      assert a + b == b;
    } else {
      assert (a + b)[1..] == a[1..] + b;
      RunsCompose(Apply(s, a[0]), a[1..], b);
    }
  }

  lemma OneLabel(s: Session, l: Label)
    requires Enabled(s, l) && InTime(s, l)
    ensures IsRun(s, [l]) && AllInTime(s, [l]) && After(s, [l]) == Apply(s, l)
  {
    hide Enabled, Apply, InTime;
    assert [l][1..] == [];
  }

  lemma LabelAfter(s: Session, a: seq<Label>, l: Label)
    requires IsRun(s, a) && AllInTime(s, a) && Enabled(After(s, a), l) && InTime(After(s, a), l)
    ensures IsRun(s, a + [l]) && AllInTime(s, a + [l]) && After(s, a + [l]) == Apply(After(s, a), l)
  {
    hide IsRun, AllInTime, After, Enabled, Apply, InTime;
    OneLabel(After(s, a), l);
    RunsCompose(s, a, [l]);
  }

  lemma FoundWithin(bs: seq<Byte>)
    ensures Search(bs, 0).Some? ==> Search(bs, 0).value.start <= Search(bs, 0).value.end <= |bs|
  {
    hide IsMarker;
  }

  /** One more byte: either the first D is complete with it, or there still is none. */
  lemma OneByteMore(consumed: seq<Byte>, unread: seq<Byte>)
    requires Search(consumed, 0).None? && Search(consumed + unread, 0).Some?
    ensures unread != []
    ensures var taken, all := consumed + unread[..1], consumed + unread;
            && taken + unread[1..] == all
            && (Search(taken, 0).Some? ==>
                  all[Search(all, 0).value.end..] == unread[1..] && FirstCode(taken) == FirstCode(all))
  {
    hide Search, MatchAt, IsMarker, ExitCode;
    assert consumed + [] == consumed;
    var taken, all := consumed + unread[..1], consumed + unread;
    assert taken + unread[1..] == all;
    if Search(taken, 0).Some? {
      SearchIsStable(taken, unread[1..]);
      FirstMatchEndsLast(consumed, unread[..1]);
      FoundWithin(taken);
      var m := Search(taken, 0).value;
      assert all[m.start..m.end] == taken[m.start..m.end];
    }
  }

  /** A match that one more byte completes ends with that byte. */
  lemma FirstMatchEndsLast(a: seq<Byte>, b: seq<Byte>)
    requires Search(a, 0).None? && |b| == 1 && Search(a + b, 0).Some?
    ensures Search(a + b, 0).value.end == |a| + 1
  {
    SearchIsLeftmost(a, 0);
    var m := Search(a + b, 0).value;
    MatchInPrefix(a, b, m.start, m.end);
  }

  /** A canceller that is handed its bytes one at a time stops right after the first D. */
  lemma {:induction false} CancelByteByByte(s: Session) returns (labels: seq<Label>)
    requires s.phase.Cancelling? && Search(s.phase.consumed, 0).None?
    requires Search(s.phase.consumed + s.unread, 0).Some?
    ensures IsRun(s, labels) && AllInTime(s, labels)
    ensures var all := s.phase.consumed + s.unread;
            After(s, labels) == s.(phase := Held, unread := all[Search(all, 0).value.end..])
    decreases |s.unread|
  {
    hide Search, MatchAt, IsMarker, FirstCode, IsRun, AllInTime, After, HasNoD;
    OneByteMore(s.phase.consumed, s.unread);
    var s1 := Apply(s, CancelChunk(1));
    OneLabel(s, CancelChunk(1));
    labels := [CancelChunk(1)];
    if Search(s.phase.consumed + s.unread[..1], 0).None? {
      var rest := CancelByteByByte(s1);
      RunsCompose(s, labels, rest);
      labels := labels + rest;
    }
  }

  /** A read loop that is handed its bytes one at a time answers with the first D. */
  lemma {:induction false} ReadByteByByte(s: Session) returns (labels: seq<Label>)
    requires s.phase.Reading? && Search(s.phase.consumed, 0).None?
    requires Search(s.phase.consumed + s.unread, 0).Some?
    ensures IsRun(s, labels) && AllInTime(s, labels)
    ensures var all := s.phase.consumed + s.unread;
            After(s, labels) == s.(phase := Held, unread := all[Search(all, 0).value.end..],
                                   answers := s.answers + [Answer(s.phase.cmd, FirstCode(all))])
    decreases |s.unread|
  {
    hide Search, MatchAt, IsMarker, FirstCode, IsRun, AllInTime, After, HasNoD;
    OneByteMore(s.phase.consumed, s.unread);
    var s1 := Apply(s, TakeChunk(1));
    OneLabel(s, TakeChunk(1));
    labels := [TakeChunk(1)];
    if Search(s.phase.consumed + s.unread[..1], 0).None? {
      var rest := ReadByteByByte(s1);
      RunsCompose(s, labels, rest);
      labels := labels + rest;
    }
  }

  // ---------------------------------------------------------------------
  // How a session gets lost
  // ---------------------------------------------------------------------

  lemma EndsWithD(left: seq<Byte>, d: seq<Byte>)
    requires IsMarker(d)
    ensures !HasNoD(left + (d + [])) && Search(left + (d + []), 0).Some?
  {
    hide Search, IsMarker;
    var all := left + (d + []);
    assert all[|left|..|left| + |d|] == d;
    assert MatchAt(all, |left|, |left| + |d|);
    SearchIsLeftmost(all, 0);
  }

  lemma NoNoise()
    ensures Quiet([])
  {
    NothingIsNoD();
  }

  /** An interrupt still on its way and a D already there for the canceller: it takes that
    * one, the session is freed, and the interrupt's own D stays in the channel. */
  lemma Stranded(s: Session, d: seq<Byte>) returns (rest: seq<Label>)
    requires s.registered && s.shell.Idle? && s.stdin != [] && s.stdin[0].Interrupt? && IsMarker(d)
    requires s.phase.Cancelling? && Search(s.phase.consumed, 0).None? && Search(s.phase.consumed + s.unread, 0).Some?
    ensures IsRun(s, rest) && AllInTime(s, rest)
    ensures var t := After(s, rest); t.registered && t.phase.Free? && !HasNoD(t.unread)
  {
    hide Search, MatchAt, IsMarker, IsRun, AllInTime, After, HasNoD, Quiet;
    NoNoise();
    rest := CancelByteByByte(s);
    var s2 := After(s, rest);
    LabelAfter(s, rest, Release);
    rest := rest + [Release];
    LabelAfter(s, rest, Arrive(d, []));
    rest := rest + [Arrive(d, [])];
    EndsWithD(s2.unread, d);
  }

  /** A Ctrl-C sent while the command's D waits unread. */
  lemma LateCtrlCLeavesD(s: Session, d: seq<Byte>) returns (rest: seq<Label>)
    requires Inv(s) && s.registered && Enabled(s, SendCtrlC) && !HasNoD(s.unread) && IsMarker(d)
    ensures var s1 := Apply(s, SendCtrlC);
            && IsRun(s1, rest) && AllInTime(s1, rest)
            && var t := After(s1, rest);
               t.registered && t.phase.Free? && !HasNoD(t.unread)
  {
    hide Search, MatchAt, IsMarker, IsRun, AllInTime, After, HasNoD, Quiet, EndsQuiet, FirstCode, Find, BooksInv;
    UnreadD(s);
    NothingIsNoD();
    assert [] + s.unread == s.unread;
    assert ([] + [Interrupt])[0] == Interrupt;
    rest := Stranded(Apply(s, SendCtrlC), d);
  }

  /** A D can only wait unread when the command is over. */
  lemma UnreadD(s: Session)
    requires Inv(s) && s.registered && s.phase.Reading? && !HasNoD(s.unread)
    ensures s.shell.Idle? && s.stdin == [] && Search(s.unread, 0).Some? && EndsQuiet(s.phase.consumed + s.unread)
  {
    hide IsMarker, FirstCode, Find;
    var all := s.phase.consumed + s.unread;
    assert all[|s.phase.consumed|..] == s.unread;
    SuffixHasNoD(all, |s.phase.consumed|);
    if s.shell.Running? || s.stdin != [] {
      NoDYet(s);
    }
    SearchIsLeftmost(s.unread, 0);
  }

  /** A command that ends while an interrupt is on its way. */
  lemma EndInFlightLeavesD(s: Session, l: Label, d: seq<Byte>) returns (rest: seq<Label>)
    requires Inv(s) && s.registered && l.Finish? && Enabled(s, l) && Interrupt in s.stdin && IsMarker(d)
    ensures var s1 := Apply(s, l);
            && IsRun(s1, rest) && AllInTime(s1, rest)
            && var t := After(s1, rest);
               t.registered && t.phase.Free? && !HasNoD(t.unread)
  {
    hide Search, MatchAt, IsMarker, ExitCode, IsRun, AllInTime, After, HasNoD, Quiet, EndsQuiet, FirstCode, Find, BooksInv;
    InterruptOnlyWhileCancelling(s);
    EndInFlight(s, l);
    rest := Stranded(Apply(s, l), d);
  }

  lemma EndInFlight(s: Session, l: Label)
    requires Inv(s) && s.registered && l.Finish? && Enabled(s, l) && s.phase.Cancelling? && s.stdin == [Interrupt]
    ensures var s1 := Apply(s, l);
            && s1.shell.Idle? && s1.stdin == [Interrupt] && s1.phase == s.phase && Search(s.phase.consumed, 0).None?
            && EndsQuiet(s1.phase.consumed + s1.unread) && Search(s1.phase.consumed + s1.unread, 0).Some?
  {
    hide Search, MatchAt, IsMarker, ExitCode, HasNoD, Quiet, FirstCode, Find, BooksInv;
    NoDYet(s);
    assert BooksInv(s);
    FirstMarkerAfter(s.phase.consumed + s.unread, l.d, l.noise);
    assert s.phase.consumed + (s.unread + (l.d + l.noise)) == s.phase.consumed + s.unread + l.d + l.noise;
  }

  lemma {:induction false} TypingIs(cmd: nat, pieces: nat)
    requires pieces >= 1
    ensures var t := Typing(cmd, pieces);
            t != [] && t[0] == Piece(cmd, pieces == 1) && Interrupt !in t
  {
    if pieces > 1 {
      TypingIs(cmd, pieces - 1);
    }
  }

  /** A call whose text is several commands is answered with the status of the first, while
    * others are still to run. */
  lemma FirstPieceAnswers(s: Session, l: Label, d: seq<Byte>) returns (rest: seq<Label>)
    requires Inv(s) && s.registered && l.Write? && l.pieces > 1 && Enabled(s, l) && IsMarker(d)
    ensures var s1 := Apply(s, l);
            && IsRun(s1, rest) && AllInTime(s1, rest)
            && var t := After(s1, rest);
               t.answers == s.answers + [Answer(s.written, ExitCode(d))] && s.written !in t.exits && t.stdin != []
  {
    hide Search, MatchAt, IsMarker, ExitCode, IsRun, AllInTime, After, HasNoD, Quiet, EndsQuiet, FirstCode, Find, Typing;
    var s1 := Apply(s, l);
    WritesPieces(s, l);
    NothingIsNoD();
    NoNoise();
    OneLabel(s1, Accept);
    rest := [Accept];
    LabelAfter(s1, rest, Finish(d, []));
    rest := rest + [Finish(d, [])];
    var s2 := After(s1, rest);
    FirstMarkerAfter(s.unread, d, []);
    assert [] + (s.unread + (d + [])) == s.unread + d + [];
    var read := ReadByteByByte(s2);
    RunsCompose(s1, rest, read);
    rest := rest + read;
  }

  lemma WritesPieces(s: Session, l: Label)
    requires Inv(s) && s.registered && l.Write? && l.pieces > 1 && Enabled(s, l)
    ensures s.shell.Idle? && HasNoD(s.unread) && s.written !in s.exits
    ensures var stdin := Apply(s, l).stdin;
            && stdin != [] && stdin[0] == Piece(s.written, false) && Interrupt !in stdin
            && stdin[1..] == Typing(s.written, l.pieces - 1)
    ensures Typing(s.written, l.pieces - 1) != []
  {
    hide Search, MatchAt, EndsQuiet, Find;
    TypingIs(s.written, l.pieces);
    TypingIs(s.written, l.pieces - 1);
    assert [] + Typing(s.written, l.pieces) == Typing(s.written, l.pieces);
    assert ([Piece(s.written, false)] + Typing(s.written, l.pieces - 1))[1..] == Typing(s.written, l.pieces - 1);
  }

  /** Exactly which steps of a synchronised session are safe: those in time. An interrupt may
    * be sent if no complete D waits unread, a command may end if no interrupt is on its way,
    * a call may write what the shell makes one command of, and every other step is free. */
  lemma StepSafetyIsExact(s: Session, l: Label)
    requires Inv(s) && s.registered && Enabled(s, l)
    ensures SafeFrom(Apply(s, l)) <==> InTime(s, l)
  {
    hide Inv, Enabled, Apply, IsRun, AllInTime, After, HasNoD, IsMarker;
    var d := ADone();
    if InTime(s, l) {
      StepKeepsInv(s, l);
      InvIsSafe(Apply(s, l));
    } else if l.SendCtrlC? {
      var rest := LateCtrlCLeavesD(s, d);
    } else if l.Finish? {
      var rest := EndInFlightLeavesD(s, l, d);
    } else {
      OneOrMore(s, l);
      var rest := FirstPieceAnswers(s, l, d);
      NotTheOldAnswers(s.answers, Answer(s.written, ExitCode(d)));
    }
  }

  lemma OneOrMore(s: Session, l: Label)
    requires l.Write? && Enabled(s, l)
    ensures l.pieces >= 1
  {
  }

  lemma NotTheOldAnswers(answers: seq<Answer>, a: Answer)
    ensures a in answers + [a]
  {
  }

  lemma ADone() returns (d: seq<Byte>)
    ensures IsMarker(d)
  {
    d := MarkerOfLength(8);
  }

  // ---------------------------------------------------------------------
  // From the sending of an interrupt to its arrival
  // ---------------------------------------------------------------------

  /** No further interrupt, nor the end of the session; and calls of one command each. */
  predicate Between(labels: seq<Label>) {
    forall k :: 0 <= k < |labels| ==>
      && !labels[k].SendCtrlC? && !labels[k].Arrive? && !labels[k].Invalidate?
      && (labels[k].Write? ==> labels[k].pieces == 1)
  }

  predicate NoneEnds(labels: seq<Label>) { forall k :: 0 <= k < |labels| ==> !labels[k].Finish? }

  lemma {:induction false} StillInTime(s: Session, labels: seq<Label>)
    requires Inv(s) && s.registered && IsRun(s, labels) && Between(labels) && NoneEnds(labels)
    ensures AllInTime(s, labels) && Inv(After(s, labels))
    decreases |labels|
  {
    hide Inv, Apply, Enabled;
    if labels != [] {
      assert Between(labels[1..]) && NoneEnds(labels[1..]);
      StepKeepsInv(s, labels[0]);
      StaysRegistered(s, labels[0]);
      StillInTime(Apply(s, labels[0]), labels[1..]);
    }
  }

  lemma StaysRegistered(s: Session, l: Label)
    requires Enabled(s, l) && !l.Invalidate?
    ensures Apply(s, l).registered == s.registered
  {
    hide Search, MatchAt, FirstCode, HasNoD;
  }

  /** The interrupt will bring a second D. */
  ghost predicate Doomed(s: Session) {
    && s.registered && s.shell.Idle? && s.stdin != [] && s.stdin[0].Interrupt?
    && (forall c :: c in s.exits ==> c < s.written)
    && match s.phase
       case Free => Quiet(s.unread)
       case Held => Quiet(s.unread)
       case Reading(cmd, _, consumed) => cmd !in s.exits && HasNoD(consumed + s.unread)
       case Cancelling(_, _, _, consumed) => Search(consumed, 0).None? && EndsQuiet(consumed + s.unread)
       case _ => false
  }

  lemma DoomStep(s: Session, l: Label)
    requires Doomed(s) && Enabled(s, l) && Between([l])
    ensures Doomed(Apply(s, l))
  {
    hide Search, MatchAt, IsMarker, FirstCode, EndsQuiet, HasNoD, Quiet, Find;
    assert !([l][0].SendCtrlC? || [l][0].Arrive? || [l][0].Invalidate?);
    match l {
      case Write(_, _) =>
        assert [] + s.unread == s.unread;
        QuietHasNoD(s.unread);
      case TakeChunk(k) =>
        var taken, left := s.phase.consumed + s.unread[..k], s.unread[k..];
        assert taken + left == s.phase.consumed + s.unread;
        PrefixHasNoD(taken, left);
      case CancelChunk(k) =>
        var taken, left := s.phase.consumed + s.unread[..k], s.unread[k..];
        assert taken + left == s.phase.consumed + s.unread;
        if Search(taken, 0).Some? {
          ReaderLeavesQuiet(taken, left);
        }
      case _ =>
    }
  }

  lemma QuietHasNoD(bs: seq<Byte>)
    requires Quiet(bs)
    ensures HasNoD(bs)
  {
  }

  lemma {:induction false} StaysDoomed(s: Session, labels: seq<Label>)
    requires Doomed(s) && IsRun(s, labels) && Between(labels)
    ensures Doomed(After(s, labels))
    decreases |labels|
  {
    hide Doomed, Apply, Enabled;
    if labels != [] {
      assert Between(labels[1..]) && Between([labels[0]]);
      DoomStep(s, labels[0]);
      StaysDoomed(Apply(s, labels[0]), labels[1..]);
    }
  }

  lemma EndInFlightDooms(s: Session, l: Label)
    requires Inv(s) && s.registered && l.Finish? && Enabled(s, l) && Interrupt in s.stdin
    ensures Doomed(Apply(s, l))
  {
    hide Search, MatchAt, IsMarker, ExitCode, FirstCode, EndsQuiet, HasNoD, Quiet, Find;
    InterruptOnlyWhileCancelling(s);
    EndInFlight(s, l);
  }

  lemma {:induction false} AnEndDooms(s: Session, labels: seq<Label>)
    requires Inv(s) && s.registered && Interrupt in s.stdin && IsRun(s, labels) && Between(labels) && !NoneEnds(labels)
    ensures Doomed(After(s, labels))
    decreases |labels|
  {
    hide Inv, Doomed, Apply, Enabled;
    var l, rest := labels[0], labels[1..];
    assert Between(rest) && labels == [l] + rest;
    if l.Finish? {
      EndInFlightDooms(s, l);
      StaysDoomed(Apply(s, l), rest);
    } else {
      StepKeepsInv(s, l);
      StaysRegistered(s, l);
      StaysOnItsWay(s, l);
      AnEndDooms(Apply(s, l), rest);
    }
  }

  lemma StaysOnItsWay(s: Session, l: Label)
    requires Enabled(s, l) && Interrupt in s.stdin && !l.Arrive?
    ensures Interrupt in Apply(s, l).stdin
  {
    hide Search, MatchAt, FirstCode, HasNoD;
    if l.Accept? {
      assert s.stdin == [s.stdin[0]] + s.stdin[1..];
    }
  }

  /** The first D of all lies in the tail if that holds one. */
  lemma EndsQuietInTail(front: seq<Byte>, tail: seq<Byte>)
    requires EndsQuiet(front + tail) && !HasNoD(tail)
    ensures EndsQuiet(tail)
  {
    hide IsMarker;
    var all := front + tail;
    var m := Search(all, 0).value;
    assert all[|front|..] == tail;
    SearchIsLeftmost(tail, 0);
    var n := Search(tail, 0).value;
    MatchInSuffix(all, |front|, n.start, n.end);
    SearchIsLeftmost(all, 0);
    MatchesAreDisjoint(all, m.start, m.end, |front| + n.start, |front| + n.end);
    if m.end <= |front| + n.start {
      MatchInSuffix(all, m.end, |front| + n.start, |front| + n.end);
    }
    assert all[m.end..] == tail[n.end..];
  }

  lemma LateCtrlCDooms(s: Session)
    requires Inv(s) && s.registered && Enabled(s, SendCtrlC) && !HasNoD(s.unread)
    ensures Doomed(Apply(s, SendCtrlC))
  {
    hide Search, MatchAt, IsMarker, ExitCode, FirstCode, EndsQuiet, HasNoD, Quiet, Find;
    UnreadD(s);
    NothingIsNoD();
    EndsQuietInTail(s.phase.consumed, s.unread);
    assert [] + s.unread == s.unread;
    assert ([] + [Interrupt])[0] == Interrupt;
  }

  /** Wherever the interrupt finds the session, it is lost. */
  lemma DoomArrives(s: Session, l: Label)
    requires Doomed(s) && l.Arrive? && Enabled(s, l)
    ensures !SafeFrom(Apply(s, l))
  {
    hide Search, MatchAt, IsMarker, ExitCode, FirstCode, EndsQuiet, HasNoD, Quiet, Find, IsRun, AllInTime, After;
    var s1 := Apply(s, l);
    var rest: seq<Label> := [];
    NoSteps(s1);
    match s.phase {
      case Free => ArrivedD(s.unread, l.d, l.noise);
      case Held =>
        ArrivedD(s.unread, l.d, l.noise);
        OneLabel(s1, Release);
        rest := [Release];
      case Reading(cmd, lead, consumed) =>
        rest := WrongAnswer(s1, s.unread, l.d, l.noise);
      case Cancelling(cmd, lead, dropped, consumed) =>
        rest := SecondD(s1, s.unread, l.d, l.noise);
    }
    assert !Synchronised(After(s1, rest));
  }

  lemma NoSteps(s: Session)
    ensures IsRun(s, []) && AllInTime(s, []) && After(s, []) == s
  {
  }

  lemma ArrivedD(unread: seq<Byte>, d: seq<Byte>, noise: seq<Byte>)
    requires IsMarker(d)
    ensures !HasNoD(unread + (d + noise)) && Search(unread + (d + noise), 0).Some?
  {
    hide Search, IsMarker;
    var all := unread + (d + noise);
    assert all[|unread|..|unread| + |d|] == d;
    assert MatchAt(all, |unread|, |unread| + |d|);
    SearchIsLeftmost(all, 0);
  }

  lemma WrongAnswer(s: Session, before: seq<Byte>, d: seq<Byte>, noise: seq<Byte>) returns (rest: seq<Label>)
    requires s.phase.Reading? && s.phase.cmd !in s.exits && HasNoD(s.phase.consumed + before)
    requires IsMarker(d) && s.unread == before + (d + noise)
    ensures IsRun(s, rest) && AllInTime(s, rest) && !Synchronised(After(s, rest))
  {
    hide Search, MatchAt, IsMarker, ExitCode, FirstCode, HasNoD, IsRun, AllInTime, After;
    PrefixHasNoD(s.phase.consumed, before);
    var all := s.phase.consumed + s.unread;
    assert all == s.phase.consumed + before + (d + noise);
    ArrivedD(s.phase.consumed + before, d, noise);
    rest := ReadByteByByte(s);
    NotTheOldAnswers(s.answers, Answer(s.phase.cmd, FirstCode(all)));
  }

  lemma SecondD(s: Session, before: seq<Byte>, d: seq<Byte>, noise: seq<Byte>) returns (rest: seq<Label>)
    requires s.registered && s.phase.Cancelling? && Search(s.phase.consumed, 0).None? && EndsQuiet(s.phase.consumed + before)
    requires IsMarker(d) && s.unread == before + (d + noise)
    ensures IsRun(s, rest) && AllInTime(s, rest) && !Synchronised(After(s, rest))
  {
    hide MatchAt, IsMarker, ExitCode, HasNoD, IsRun, AllInTime, After, Search;
    var front, all := s.phase.consumed + before, s.phase.consumed + s.unread;
    assert all == front + (d + noise);
    SearchIsStable(front, d + noise);
    FoundWithin(front);
    var end := Search(front, 0).value.end;
    assert all[end..] == front[end..] + (d + noise);
    ArrivedD(front[end..], d, noise);
    rest := CancelByteByByte(s);
    LabelAfter(s, rest, Release);
    rest := rest + [Release];
  }

  /** An interrupt leaves the session synchronised for good exactly when no complete D was
    * unread as it was sent and no command ended before it arrived. */
  lemma InterruptSafetyIsExact(s: Session, between: seq<Label>, l: Label)
    requires Inv(s) && s.registered && Enabled(s, SendCtrlC)
    requires IsRun(Apply(s, SendCtrlC), between) && Between(between)
    requires l.Arrive? && Enabled(After(Apply(s, SendCtrlC), between), l)
    ensures SafeFrom(Apply(After(Apply(s, SendCtrlC), between), l)) <==> HasNoD(s.unread) && NoneEnds(between)
  {
    hide Inv, Doomed, HasNoD, SafeFrom, IsRun, After, Between, NoneEnds;
    var s1 := Apply(s, SendCtrlC);
    var t := After(s1, between);
    if !HasNoD(s.unread) {
      LateCtrlCDooms(s);
      StaysDoomed(s1, between);
      DoomArrives(t, l);
    } else {
      StepKeepsInv(s, SendCtrlC);
      assert s1.stdin[|s1.stdin| - 1] == Interrupt;
      if NoneEnds(between) {
        StillInTime(s1, between);
        StepKeepsInv(t, l);
        InvIsSafe(Apply(t, l));
      } else {
        AnEndDooms(s1, between);
        DoomArrives(t, l);
      }
    }
  }

  // ---------------------------------------------------------------------
  // What a stray D does
  // ---------------------------------------------------------------------

  lemma AloneIsFirst(d: seq<Byte>)
    requires IsMarker(d)
    ensures |d| > 0 && Search(d, 0).Some? && FirstCode(d) == ExitCode(d)
  {
    NothingIsNoD();
    NoNoise();
    FirstMarkerAfter([], d, []);
    assert [] + d + [] == d;
  }

  /** With a D unread, the next command is answered with it while it still runs. */
  lemma StrayDMisreports(s: Session, command: string, d: seq<Byte>, noise: seq<Byte>) returns (labels: seq<Label>)
    requires BooksInv(s) && s.phase.Held? && s.shell.Idle? && s.stdin == [] && !s.closed
    requires IsMarker(d) && s.unread == d + noise && |d| <= READ_CHUNK
    ensures labels == [Write(command, 1)] + [Accept] + [TakeChunk(|d|)]
    ensures IsRun(s, labels) && AllInTime(s, labels)
    ensures After(s, labels) ==
            s.(phase := Held, written := s.written + 1, shell := Running(s.written, [], true), unread := noise,
               answers := s.answers + [Answer(s.written, ExitCode(d))])
    ensures s.written !in s.exits
  {
    hide Search, MatchAt, IsMarker, ExitCode, FirstCode, HasNoD, IsRun, AllInTime, After;
    AloneIsFirst(d);
    assert [] + [Piece(s.written, true)] == [Piece(s.written, true)] && [Piece(s.written, true)][1..] == [];
    assert [] + (d + noise)[..|d|] == d && (d + noise)[|d|..] == noise;
    OneLabel(s, Write(command, 1));
    labels := [Write(command, 1)];
    LabelAfter(s, labels, Accept);
    labels := labels + [Accept];
    LabelAfter(s, labels, TakeChunk(|d|));
    labels := labels + [TakeChunk(|d|)];
  }
}
