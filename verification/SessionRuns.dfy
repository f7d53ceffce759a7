/** Whole runs of a session: the commands as the terminal cuts them, the bounded reader in
  * its place, and the runs from creation in which a command is answered wrongly. */
module SessionRuns {
  import opened Base
  import opened Osc133
  import opened CompoundCommand
  import opened TextLines
  import opened SessionProtocol
  import opened SessionFaults

  // ---------------------------------------------------------------------
  // Commands as they are typed
  // ---------------------------------------------------------------------

  /** The shell makes of each call what its grammar makes of the typed lines. */
  predicate ReadBy(labels: seq<Label>, opens: Grammar) {
    forall k :: 0 <= k < |labels| && labels[k].Write? ==>
      labels[k].pieces == Pieces(TypedLines(labels[k].command), opens)
  }

  /** A call's text is one command for the shell. */
  predicate AllUnbroken(labels: seq<Label>, opens: Grammar) {
    forall k :: 0 <= k < |labels| && labels[k].Write? ==> Unbroken(TypedLines(labels[k].command), opens)
  }

  ghost predicate InterruptsInTime(start: Session, labels: seq<Label>)
    requires IsRun(start, labels)
    decreases |labels|
  {
    labels == [] || (InterruptInTime(start, labels[0]) && InterruptsInTime(Apply(start, labels[0]), labels[1..]))
  }

  lemma SomeLine(command: string)
    ensures TypedLines(command) != []
  {
    hide SplitLf, Typed, WithoutTrailingLf;
    var text := Typed(WrapCompound(command) + "\n");
    TypedChars(WrapCompound(command) + "\n");
    SplitThenJoin(text);
    assert Concat<char>([]) == "";
  }

  lemma {:induction false} UnbrokenInTime(start: Session, labels: seq<Label>, opens: Grammar)
    requires IsRun(start, labels) && InterruptsInTime(start, labels) && ReadBy(labels, opens) && AllUnbroken(labels, opens)
    ensures AllInTime(start, labels)
    decreases |labels|
  {
    hide Enabled, Apply, InterruptInTime, TypedLines, Unbroken, Pieces;
    if labels != [] {
      var l, rest := labels[0], labels[1..];
      assert ReadBy(rest, opens) && AllUnbroken(rest, opens) by {
        assert forall k :: 0 <= k < |rest| ==> rest[k] == labels[k + 1];
      }
      if l.Write? {
        SomeLine(l.command);
        PiecesExactly(TypedLines(l.command), opens);
      }
      UnbrokenInTime(Apply(start, l), rest, opens);
    }
  }

  /** Calls whose text is one command for the shell, and interrupts in time, keep a session
    * synchronised, from creation and in every interleaving. */
  lemma CommandsStaySynchronised(labels: seq<Label>, opens: Grammar)
    requires IsRun(Created(), labels) && ReadBy(labels, opens)
    requires AllUnbroken(labels, opens) && InterruptsInTime(Created(), labels)
    ensures Synchronised(After(Created(), labels))
  {
    hide IsRun, AllInTime, After, ReadBy, AllUnbroken, InterruptsInTime, Synchronised;
    UnbrokenInTime(Created(), labels, opens);
    SessionsStaySynchronised(labels);
  }

  /** Exactly which calls a synchronised session survives: those of which no stretch of typed
    * lines before the last is a complete command. That is so without line feeds and carriage
    * returns, and in braces. */
  lemma WriteSafetyIsExact(s: Session, command: string, opens: Grammar)
    requires Inv(s) && s.registered && s.phase.Held?
    ensures var l := Write(command, Pieces(TypedLines(command), opens));
            && Enabled(s, l)
            && (SafeFrom(Apply(s, l)) <==> Unbroken(TypedLines(command), opens))
    ensures LF !in command && CR !in command ==> Unbroken(TypedLines(command), opens)
  {
    hide TypedLines, Unbroken, Pieces, SafeFrom, ChannelInv;
    SomeLine(command);
    PiecesExactly(TypedLines(command), opens);
    var l := Write(command, Pieces(TypedLines(command), opens));
    WriteIsEnabled(s, l);
    StepSafetyIsExact(s, l);
    if LF !in command && CR !in command {
      OneLineExactly(command);
      AloneIsUnbroken(TypedLines(command), opens);
    }
  }

  lemma WriteIsEnabled(s: Session, l: Label)
    requires Inv(s) && s.registered && s.phase.Held? && l.Write? && l.pieces >= 1
    ensures Enabled(s, l) && (InTime(s, l) <==> l.pieces == 1)
  {
    hide Search, MatchAt, HasNoD, Quiet, Find;
  }

  lemma AloneIsUnbroken(lines: seq<string>, opens: Grammar)
    requires |lines| == 1
    ensures Unbroken(lines, opens)
  {
  }

  // ---------------------------------------------------------------------
  // The bounded reader in the session
  // ---------------------------------------------------------------------

  /** The chunks the read loop has taken for the command written last. */
  function ChunksTaken(s: Session, taken: seq<Turn>, labels: seq<Label>): seq<Turn>
    requires IsRun(s, labels)
    decreases |labels|
  {
    if labels == [] then taken
    else ChunksTaken(Apply(s, labels[0]), TakenNow(s, taken, labels[0]), labels[1..])
  }

  function TakenNow(s: Session, taken: seq<Turn>, l: Label): seq<Turn>
    requires Enabled(s, l)
  {
    if l.Write? then []
    else if l.TakeChunk? then taken + [Chunk(s.unread[..l.k], false)]
    else taken
  }

  predicate AllPlain(turns: seq<Turn>) {
    forall k :: 0 <= k < |turns| ==> turns[k].Chunk? && !turns[k].graceOver && |turns[k].data| <= READ_CHUNK
  }

  lemma {:induction false} ReceivedJoin(a: seq<Turn>, b: seq<Turn>)
    ensures Received(a + b) == Received(a) + Received(b)
    decreases |a|
  {
    if a == [] {
      assert a + b == b;
    } else {
      assert (a + b)[1..] == a[1..] + b;
      ReceivedJoin(a[1..], b);
    }
  }

  lemma ReceivedMore(turns: seq<Turn>, data: seq<Byte>, graceOver: bool)
    ensures Received(turns + [Chunk(data, graceOver)]) == Received(turns) + data
  {
    ReceivedJoin(turns, [Chunk(data, graceOver)]);
    assert [Chunk(data, graceOver)][1..] == [];
    assert Received([Chunk(data, graceOver)]) == data + [];
  }

  ghost predicate ConsumedAre(s: Session, taken: seq<Turn>) {
    s.phase.Reading? ==> AllPlain(taken) && Received(taken) == s.phase.consumed
  }

  lemma StillConsumed(s: Session, taken: seq<Turn>, l: Label)
    requires ConsumedAre(s, taken) && Enabled(s, l)
    ensures ConsumedAre(Apply(s, l), TakenNow(s, taken, l))
  {
    hide Search, HasNoD, Quiet, Find, IsMarker, ExitCode, FirstCode;
    if l.TakeChunk? {
      ReceivedMore(taken, s.unread[..l.k], false);
    }
  }

  /** While the loop reads, those chunks are what it has consumed. */
  lemma {:induction false} ChunksAreConsumed(s: Session, taken: seq<Turn>, labels: seq<Label>)
    requires IsRun(s, labels) && ConsumedAre(s, taken)
    ensures ConsumedAre(After(s, labels), ChunksTaken(s, taken, labels))
    decreases |labels|
  {
    hide ConsumedAre, Enabled, Apply, TakenNow;
    if labels != [] {
      StillConsumed(s, taken, labels[0]);
      ChunksAreConsumed(Apply(s, labels[0]), TakenNow(s, taken, labels[0]), labels[1..]);
    }
  }

  /** In every run of a session whose interrupts are in time, with markers of at most
    * `longest <= 65` bytes and a buffer that holds a chunk and one of them, the bounded read
    * loop answers when the session machine does, with the status the shell gave that command. */
  lemma BoundedReaderAnswers(labels: seq<Label>, k: nat, cap: nat, longest: int)
    requires IsRun(Created(), labels) && AllInTime(Created(), labels)
    requires var s := After(Created(), labels);
             && s.registered && s.phase.Reading? && Enabled(s, TakeChunk(k))
             && MarkersWithin(s.phase.consumed + s.unread[..k], longest)
    requires 8 <= longest <= MARKER_OVERLAP + 1 && READ_CHUNK + longest - 1 <= cap
    ensures var s := After(Created(), labels);
            var turns := ChunksTaken(Created(), [], labels) + [Chunk(s.unread[..k], false)];
            var out := BoundedRead([], false, cap, turns);
            var s' := Apply(s, TakeChunk(k));
            && (out.Completed? || out.TimedOut?)
            && (out.Completed? <==> s'.answers != s.answers)
            && (out.Completed? ==>
                && s'.answers == s.answers + [Answer(s.phase.cmd, out.code)]
                && s.phase.cmd + 1 == s.written && s.phase.cmd in s.exits && out.code == s.exits[s.phase.cmd])
  {
    hide IsRun, After, AllInTime, Inv, MarkersWithin, Search, IsMarker, BoundedRead, WholeRead, ChunksTaken;
    var s := After(Created(), labels);
    var chunks := ChunksTaken(Created(), [], labels);
    var turns := chunks + [Chunk(s.unread[..k], false)];
    ChunksAreConsumed(Created(), [], labels);
    ReceivedMore(chunks, s.unread[..k], false);
    NothingSeen();
    ReaderVerdict(turns, cap, longest);
    CreatedInv();
    RunKeepsInv(Created(), labels);
    AnswersAreForTheLatestCommand(s, TakeChunk(k));
    TakeAnswers(s, k);
    assert forall a: Answer :: (s.answers + [a])[|s.answers|] == a;
  }

  lemma CreatedInv()
    ensures Inv(Created())
  {
  }

  lemma NothingSeen()
    ensures Search([], 0).None?
  {
  }

  lemma TakeAnswers(s: Session, k: nat)
    requires s.phase.Reading? && Enabled(s, TakeChunk(k))
    ensures var all := s.phase.consumed + s.unread[..k];
            Apply(s, TakeChunk(k)).answers ==
            if Search(all, 0).Some? then s.answers + [Answer(s.phase.cmd, FirstCode(all))] else s.answers
  {
    hide Search, FirstCode;
  }

  lemma ReaderVerdict(turns: seq<Turn>, cap: nat, longest: int)
    requires AllPlain(turns) && MarkersWithin(Received(turns), longest)
    requires 8 <= longest <= MARKER_OVERLAP + 1 && READ_CHUNK + longest - 1 <= cap
    ensures var out := BoundedRead([], false, cap, turns);
            var all := Received(turns);
            && (out.Completed? || out.TimedOut?)
            && (out.Completed? <==> Search(all, 0).Some?)
            && (out.Completed? ==> out.code == FirstCode(all))
  {
    hide Search, BoundedRead, WholeRead, MarkersWithin, ExitCode, IsMarker;
    assert [] + Received(turns) == Received(turns);
    NothingSeen();
    EmptyTail(cap);
    BoundedReadRefines([], [], false, cap, READ_CHUNK, longest, turns);
    CutsDoNotMatter([], turns);
  }

  lemma EmptyTail(cap: nat)
    ensures Tail([], [], cap, false)
  {
  }

  // ---------------------------------------------------------------------
  // From creation to a wrong answer
  // ---------------------------------------------------------------------

  lemma {:induction false} RunOn(s: Session, a: seq<Label>, l: Label)
    requires IsRun(s, a) && Enabled(After(s, a), l)
    ensures IsRun(s, a + [l]) && After(s, a + [l]) == Apply(After(s, a), l)
    decreases |a|
  {
    hide Enabled, Apply;
    if a == [] {
      assert [] + [l] == [l] && [l][1..] == [];
    } else {
      assert (a + [l])[1..] == a[1..] + [l];
      RunOn(Apply(s, a[0]), a[1..], l);
    }
  }

  const READY: seq<Byte> := [0x41]

  /** At the prompt, a call about to write its command; `written` calls came before. */
  function AtPrompt(unread: seq<Byte>, written: nat, exits: map<nat, int>, answers: seq<Answer>): Session {
    Session(true, false, Idle, [], unread, Held, written, exits, answers)
  }

  lemma Boots() returns (labels: seq<Label>)
    ensures IsRun(Created(), labels) && After(Created(), labels) == AtPrompt([], 0, map[], [])
    ensures forall k :: 0 <= k < |labels| ==> !labels[k].Write? && !labels[k].SendCtrlC?
  {
    hide Search, IsMarker, HasNoD, Quiet, Find, IsRun, After;
    var d := MarkerOfLength(8);
    var echoed := READY + d;
    BootFacts(d);
    var s1 := Created().(phase := AwaitReady(READY, []));
    NoLabels(Created());
    RunOn(Created(), [], SendReady(READY));
    assert Apply(s1, ReadyEcho([], d, [])).unread == echoed;
    RunOn(Created(), [] + [SendReady(READY)], ReadyEcho([], d, []));
    labels := [] + [SendReady(READY)] + [ReadyEcho([], d, [])];
    assert echoed[..|echoed|] == echoed && echoed[|echoed|..] == [];
    assert [] + echoed == echoed;
    RunOn(Created(), labels, ReadyRead(|echoed|));
    labels := labels + [ReadyRead(|echoed|)];
    RunOn(Created(), labels, Acquire);
    labels := labels + [Acquire];
  }

  lemma NoLabels(s: Session)
    ensures IsRun(s, []) && After(s, []) == s
  {
  }

  lemma BootFacts(d: seq<Byte>)
    requires IsMarker(d)
    ensures Find([], READY, 0).None? && Find(READY, READY, 0) == Some(0) && [] + READY == READY
    ensures HasNoD([]) && Quiet([]) && READY + ([] + d + []) == READY + d
    ensures ReadySeen(READY + d, READY)
  {
    hide Search, IsMarker;
    AloneIsFirst(d);
    NothingIsNoD();
    assert READY[0..1] == READY;
    assert (READY + d)[0..1] == READY && (READY + d)[1..] == d;
    FindIsLeftmost(READY + d, READY, 0, 0);
  }

  /** One more label of a run. */
  lemma Then(labels: seq<Label>, s: Session, l: Label) returns (more: seq<Label>)
    requires IsRun(Created(), labels) && After(Created(), labels) == s && Enabled(s, l)
    ensures more == labels + [l] && IsRun(Created(), more) && After(Created(), more) == Apply(s, l)
  {
    RunOn(Created(), labels, l);
    more := labels + [l];
  }

  /** A command is written and taken by the shell. */
  lemma Starts(before: seq<Label>, s: Session, command: string) returns (labels: seq<Label>)
    requires IsRun(Created(), before) && After(Created(), before) == s
    requires s.phase.Held? && s.shell.Idle? && s.stdin == [] && !s.closed
    ensures labels == before + [Write(command, 1)] + [Accept]
    ensures IsRun(Created(), labels)
    ensures After(Created(), labels) ==
            s.(phase := Reading(s.written, s.unread, []), written := s.written + 1, shell := Running(s.written, [], true))
  {
    hide Search, IsMarker, HasNoD, Quiet, Find, IsRun, After, FirstCode, ExitCode;
    assert [] + [Piece(s.written, true)] == [Piece(s.written, true)] && [Piece(s.written, true)][1..] == [];
    labels := Then(before, s, Write(command, 1));
    labels := Then(labels, Apply(s, Write(command, 1)), Accept);
  }

  /** The first command is interrupted at prompt, its D unread; the canceller takes that one
    * and the interrupt's own, which comes later, stays. */
  lemma InterruptedLate(command: string, d: seq<Byte>, stray: seq<Byte>) returns (labels: seq<Label>)
    requires IsMarker(d) && IsMarker(stray) && |d| <= READ_CHUNK
    ensures IsRun(Created(), labels) && After(Created(), labels) == AtPrompt(stray, 1, map[0 := ExitCode(d)], [])
  {
    hide Search, IsMarker, HasNoD, Quiet, Find, IsRun, After, ExitCode, FirstCode;
    NoNoise();
    labels := Boots();
    var s := AtPrompt([], 0, map[], []);
    labels := Starts(labels, s, command);
    s := s.(phase := Reading(0, [], []), written := 1, shell := Running(0, [], true));
    labels := Then(labels, s, Finish(d, []));
    assert [] + (d + []) == d && map[][0 := ExitCode(d)] == map[0 := ExitCode(d)];
    s := s.(shell := Idle, unread := d, exits := map[0 := ExitCode(d)]);
    labels := Then(labels, s, SendCtrlC);
    assert [] + [Interrupt] == [Interrupt];
    labels := CancelledThenArrives(labels, s.(phase := Cancelling(0, [], [], []), stdin := [Interrupt]), d, stray);
  }

  /** The first command is interrupted while it runs, and ends by itself before the interrupt
    * arrives. */
  lemma InterruptedInFlight(command: string, d: seq<Byte>, stray: seq<Byte>) returns (labels: seq<Label>)
    requires IsMarker(d) && IsMarker(stray) && |d| <= READ_CHUNK
    ensures IsRun(Created(), labels) && After(Created(), labels) == AtPrompt(stray, 1, map[0 := ExitCode(d)], [])
  {
    hide Search, IsMarker, HasNoD, Quiet, Find, IsRun, After, ExitCode, FirstCode;
    NoNoise();
    labels := Boots();
    var s := AtPrompt([], 0, map[], []);
    labels := Starts(labels, s, command);
    s := s.(phase := Reading(0, [], []), written := 1, shell := Running(0, [], true));
    labels := Then(labels, s, SendCtrlC);
    assert [] + [Interrupt] == [Interrupt];
    s := s.(phase := Cancelling(0, [], [], []), stdin := [Interrupt]);
    labels := Then(labels, s, Finish(d, []));
    assert [] + (d + []) == d && map[][0 := ExitCode(d)] == map[0 := ExitCode(d)];
    labels := CancelledThenArrives(labels, s.(shell := Idle, unread := d, exits := map[0 := ExitCode(d)]), d, stray);
  }

  lemma CancelledThenArrives(before: seq<Label>, s: Session, d: seq<Byte>, stray: seq<Byte>) returns (labels: seq<Label>)
    requires IsRun(Created(), before) && After(Created(), before) == s
    requires IsMarker(d) && IsMarker(stray) && |d| <= READ_CHUNK
    requires s.phase == Cancelling(0, [], [], []) && s.stdin == [Interrupt] && s.shell.Idle? && s.unread == d
    ensures IsRun(Created(), labels) && After(Created(), labels) == s.(phase := Held, stdin := [], unread := stray)
  {
    hide Search, IsMarker, HasNoD, Quiet, Find, IsRun, After, ExitCode, FirstCode;
    AloneIsFirst(d);
    NoNoise();
    assert d[..|d|] == d && d[|d|..] == [] && [] + d == d;
    labels := Then(before, s, CancelChunk(|d|));
    assert [] + (stray + []) == stray && [Interrupt][1..] == [];
    labels := Then(labels, s.(phase := Held, unread := []), Arrive(stray, []));
  }

  /** Either way the second command is answered, while it still runs, with the D the interrupt
    * of the first brought. */
  lemma LateInterruptMisreports(first: string, second: string, d: seq<Byte>, stray: seq<Byte>, inFlight: bool)
    returns (labels: seq<Label>)
    requires IsMarker(d) && IsMarker(stray) && |d| <= READ_CHUNK && |stray| <= READ_CHUNK
    ensures IsRun(Created(), labels)
    ensures var t := After(Created(), labels);
            && t.registered && t.answers == [Answer(1, ExitCode(stray))]
            && t.shell == Running(1, [], true) && 1 !in t.exits
  {
    hide Search, IsMarker, HasNoD, Quiet, Find, IsRun, ExitCode, After, FirstCode;
    if inFlight {
      labels := InterruptedInFlight(first, d, stray);
    } else {
      labels := InterruptedLate(first, d, stray);
    }
    labels := AnsweredWith(labels, AtPrompt(stray, 1, map[0 := ExitCode(d)], []), second, stray, []);
    assert [] + [Answer(1, ExitCode(stray))] == [Answer(1, ExitCode(stray))];
  }

  /** A command is started and answered with the D that is unread. */
  lemma AnsweredWith(before: seq<Label>, s: Session, command: string, d: seq<Byte>, left: seq<Byte>)
    returns (labels: seq<Label>)
    requires IsRun(Created(), before) && After(Created(), before) == s
    requires s.phase.Held? && s.shell.Idle? && s.stdin == [] && !s.closed
    requires IsMarker(d) && |d| <= READ_CHUNK && s.unread == d + left
    ensures IsRun(Created(), labels)
    ensures After(Created(), labels) ==
            s.(written := s.written + 1, shell := Running(s.written, [], true), unread := left,
               answers := s.answers + [Answer(s.written, ExitCode(d))])
  {
    hide Search, IsMarker, HasNoD, Quiet, Find, IsRun, ExitCode, After, FirstCode;
    AloneIsFirst(d);
    labels := Starts(before, s, command);
    assert [] + (d + left)[..|d|] == d && (d + left)[|d|..] == left;
    labels := Then(labels, s.(phase := Reading(s.written, s.unread, []), written := s.written + 1,
                              shell := Running(s.written, [], true)), TakeChunk(|d|));
  }

  // ---------------------------------------------------------------------
  // A carriage return in a command
  // ---------------------------------------------------------------------

  const TWO_COMMANDS := "echo a\recho b"

  /** `_wrap_compound` leaves the text as it is, and the shell reads two lines. */
  lemma TwoCommands(opens: Grammar)
    requires opens([], "echo a\n") == 0 && opens(["echo a\n"], "echo b\n") == 0
    ensures TypedLines(TWO_COMMANDS) == ["echo a\n", "echo b\n"] && Pieces(TypedLines(TWO_COMMANDS), opens) == 2
  {
    hide SplitLf, Typed;
    var text := "echo a\necho b\n";
    var lines := ["echo a\n", "echo b\n"];
    TypedChars(TWO_COMMANDS + "\n");
    assert Typed(TWO_COMMANDS + "\n") == text;
    assert AreLines(lines);
    assert lines == ["echo a\n"] + ["echo b\n"];
    ConcatSplit(["echo a\n"], ["echo b\n"]);
    ConcatOne("echo a\n");
    ConcatOne("echo b\n");
    assert Concat(lines) == text;
    LinesSurviveJoin(lines);
    assert LF !in TWO_COMMANDS;
    TwoPrompts(opens);
  }

  lemma TwoPrompts(opens: Grammar)
    requires opens([], "echo a\n") == 0 && opens(["echo a\n"], "echo b\n") == 0
    ensures Pieces(["echo a\n", "echo b\n"], opens) == 2
  {
    var lines := ["echo a\n", "echo b\n"];
    assert lines[..1] == ["echo a\n"] && ["echo a\n"][..0] == [];
    assert Depth(["echo a\n"], opens) == 0 && Prompts(["echo a\n"], opens) == 1;
  }

  /** No interrupt is sent, and the calls are read by the grammar. */
  predicate Undisturbed(labels: seq<Label>, opens: Grammar) {
    ReadBy(labels, opens) && forall k :: 0 <= k < |labels| ==> !labels[k].SendCtrlC?
  }

  lemma {:induction false} UndisturbedInTime(s: Session, labels: seq<Label>)
    requires IsRun(s, labels) && Interrupt !in s.stdin && forall k :: 0 <= k < |labels| ==> !labels[k].SendCtrlC?
    ensures InterruptsInTime(s, labels)
    decreases |labels|
  {
    hide Enabled, Apply;
    if labels != [] {
      NoInterruptComes(s, labels[0]);
      assert forall k :: 0 <= k < |labels[1..]| ==> labels[1..][k] == labels[k + 1];
      UndisturbedInTime(Apply(s, labels[0]), labels[1..]);
    }
  }

  lemma NoInterruptComes(s: Session, l: Label)
    requires Enabled(s, l) && Interrupt !in s.stdin && !l.SendCtrlC?
    ensures InterruptInTime(s, l) && Interrupt !in Apply(s, l).stdin
  {
    hide Search, MatchAt, HasNoD, FirstCode, Typing;
    if l.Write? {
      TypingIs(s.written, l.pieces);
    }
  }

  lemma ThenUndisturbed(labels: seq<Label>, s: Session, l: Label, opens: Grammar) returns (more: seq<Label>)
    requires IsRun(Created(), labels) && After(Created(), labels) == s && Enabled(s, l)
    requires Undisturbed(labels, opens) && !l.SendCtrlC?
    requires l.Write? ==> l.pieces == Pieces(TypedLines(l.command), opens)
    ensures IsRun(Created(), more) && After(Created(), more) == Apply(s, l) && Undisturbed(more, opens)
  {
    hide IsRun, After, Enabled, Apply, TypedLines, Pieces;
    more := Then(labels, s, l);
    assert forall k :: 0 <= k < |more| ==> more[k] == if k < |labels| then labels[k] else l;
  }

  /** A call that is two commands is answered with the status of the first. */
  lemma FirstOfTwo(opens: Grammar, d: seq<Byte>) returns (labels: seq<Label>)
    requires IsMarker(d) && |d| <= READ_CHUNK
    requires opens([], "echo a\n") == 0 && opens(["echo a\n"], "echo b\n") == 0
    ensures IsRun(Created(), labels) && Undisturbed(labels, opens)
    ensures After(Created(), labels) ==
            AtPrompt([], 1, map[], [Answer(0, ExitCode(d))]).(phase := Free, stdin := [Piece(0, true)])
  {
    hide Search, IsMarker, HasNoD, Quiet, Find, IsRun, ExitCode, After, FirstCode, TypedLines, Pieces, Typing;
    NoNoise();
    AloneIsFirst(d);
    NothingIsNoD();
    TwoCommands(opens);
    TwoTyped();
    labels := Boots();
    var s := AtPrompt([], 0, map[], []);
    labels := ThenUndisturbed(labels, s, Write(TWO_COMMANDS, 2), opens);
    s := s.(phase := Reading(0, [], []), written := 1, stdin := [Piece(0, false), Piece(0, true)]);
    labels := ThenUndisturbed(labels, s, Accept, opens);
    s := s.(shell := Running(0, [], false), stdin := [Piece(0, true)]);
    labels := ThenUndisturbed(labels, s, Finish(d, []), opens);
    assert [] + (d + []) == d && d[..|d|] == d && d[|d|..] == [] && [] + d == d;
    s := s.(shell := Idle, unread := d);
    labels := ThenUndisturbed(labels, s, TakeChunk(|d|), opens);
    assert [] + [Answer(0, ExitCode(d))] == [Answer(0, ExitCode(d))];
    s := s.(phase := Held, unread := [], answers := [Answer(0, ExitCode(d))]);
    labels := ThenUndisturbed(labels, s, Release, opens);
  }

  lemma TwoTyped()
    ensures [] + Typing(0, 2) == [Piece(0, false), Piece(0, true)]
    ensures [Piece(0, false), Piece(0, true)][1..] == [Piece(0, true)]
  {
    assert Typing(0, 1) == [Piece(0, true)];
  }

  /** The call is answered after its first command; the next call, of any text, is then
    * answered with the status of the second before the shell has even taken it. */
  lemma CarriageReturnMisreports(next: string, opens: Grammar, d: seq<Byte>, late: seq<Byte>) returns (labels: seq<Label>)
    requires IsMarker(d) && IsMarker(late) && |d| <= READ_CHUNK && |late| <= READ_CHUNK
    requires opens([], "echo a\n") == 0 && opens(["echo a\n"], "echo b\n") == 0
    requires Pieces(TypedLines(next), opens) == 1
    ensures IsRun(Created(), labels) && InterruptsInTime(Created(), labels) && ReadBy(labels, opens)
    ensures var t := After(Created(), labels);
            && t.registered && t.answers == [Answer(0, ExitCode(d)), Answer(1, ExitCode(late))]
            && t.exits == map[0 := ExitCode(late)] && t.shell.Idle? && t.stdin == [Piece(1, true)]
  {
    hide Search, IsMarker, HasNoD, Quiet, Find, IsRun, ExitCode, After, FirstCode, InterruptsInTime, TypedLines, Pieces;
    NoNoise();
    AloneIsFirst(late);
    NothingIsNoD();
    labels := FirstOfTwo(opens, d);
    var s := AtPrompt([], 1, map[], [Answer(0, ExitCode(d))]).(phase := Free, stdin := [Piece(0, true)]);
    labels := ThenUndisturbed(labels, s, Acquire, opens);
    s := s.(phase := Held);
    labels := ThenUndisturbed(labels, s, Write(next, 1), opens);
    assert [Piece(0, true)] + [Piece(1, true)] == [Piece(0, true), Piece(1, true)];
    s := s.(phase := Reading(1, [], []), written := 2, stdin := [Piece(0, true), Piece(1, true)]);
    labels := ThenUndisturbed(labels, s, Accept, opens);
    assert [Piece(0, true), Piece(1, true)][1..] == [Piece(1, true)];
    s := s.(shell := Running(0, [], true), stdin := [Piece(1, true)]);
    labels := ThenUndisturbed(labels, s, Finish(late, []), opens);
    assert [] + (late + []) == late && late[..|late|] == late && late[|late|..] == [] && [] + late == late;
    assert map[][0 := ExitCode(late)] == map[0 := ExitCode(late)];
    s := s.(shell := Idle, unread := late, exits := map[0 := ExitCode(late)]);
    labels := ThenUndisturbed(labels, s, TakeChunk(|late|), opens);
    UndisturbedInTime(Created(), labels);
    assert [Answer(0, ExitCode(d))] + [Answer(1, ExitCode(late))] == [Answer(0, ExitCode(d)), Answer(1, ExitCode(late))];
  }
}
