/** One persistent shell session as a state machine over its channel bytes.
  * Code between two awaits is one step; the remote shell takes its own steps in
  * between, and what is written to it reaches it later, in order. The machine covers
  * bootstrap, single commands, batches (the lock is kept between commands), timeouts,
  * soft cancels and invalidation. */
module SessionProtocol {
  import opened Base
  import opened Osc133

  /** The remote shell: sourcing the script, at a prompt, or running a command that has
    * printed `out` so far. A call's input can be several commands; `last` marks the last. */
  datatype Shell = Booting | Idle | Running(cmd: nat, out: seq<Byte>, last: bool)

  /** What is on its way to the shell: a Ctrl-C, or a complete command of call `cmd`. */
  datatype Input = Interrupt | Piece(cmd: nat, last: bool)

  /** What the call holding the read lock is doing. `lead` is what was unread
    * when the command was written; `dropped` is what the read loop had already
    * taken when Ctrl-C made it start a fresh buffer. */
  datatype Phase =
    | Draining
    | AwaitReady(marker: seq<Byte>, consumed: seq<Byte>)
    | Free
    | Held
    | Reading(cmd: nat, lead: seq<Byte>, consumed: seq<Byte>)
    | Cancelling(cmd: nat, lead: seq<Byte>, dropped: seq<Byte>, consumed: seq<Byte>)

  /** A non-None exit code handed to the caller of command `cmd`. */
  datatype Answer = Answer(cmd: nat, code: int)

  /** `written` counts the calls whose command was written; `exits` records the status the
    * shell really gave each that it has finished. */
  datatype Session = Session(
    registered: bool, closed: bool, shell: Shell, stdin: seq<Input>, unread: seq<Byte>, phase: Phase,
    written: nat, exits: map<nat, int>, answers: seq<Answer>)

  /** `Write` carries the text of the call and the number of commands the shell makes of it;
    * `SendCtrlC` is the write of the byte, `Arrive` its effect. */
  datatype Label =
    | BootEmit(bytes: seq<Byte>)
    | DrainRead(k: nat)
    | SendReady(marker: seq<Byte>)
    | ReadyEcho(sep: seq<Byte>, d: seq<Byte>, noise: seq<Byte>)
    | ReadyRead(k: nat)
    | Acquire
    | Release
    | Write(command: string, pieces: nat)
    | Accept
    | Emit(bytes: seq<Byte>)
    | Finish(d: seq<Byte>, noise: seq<Byte>)
    | TakeChunk(k: nat)
    | SendCtrlC
    | Arrive(d: seq<Byte>, noise: seq<Byte>)
    | CancelChunk(k: nat)
    | Invalidate

  /** A freshly created session: registered, its script not yet sourced. */
  function Created(): Session {
    Session(true, false, Booting, [], [], Draining, 0, map[], [])
  }

  // ---------------------------------------------------------------------
  // Bytes
  // ---------------------------------------------------------------------

  /** Prompt noise: no D in it, and it ends with a complete escape sequence. */
  ghost predicate Quiet(bs: seq<Byte>) {
    (forall i, j :: !MatchAt(bs, i, j)) && (bs == [] || bs[|bs| - 1] == BEL)
  }

  ghost predicate HasNoD(bs: seq<Byte>) {
    forall i, j :: !MatchAt(bs, i, j)
  }

  /** The bytes hold a D, and nothing but noise after the first one. */
  ghost predicate EndsQuiet(bs: seq<Byte>) {
    Search(bs, 0).Some? && Quiet(bs[Search(bs, 0).value.end..])
  }

  function FirstCode(bs: seq<Byte>): int
    requires Search(bs, 0).Some?
  {
    ExitCode(bs[Search(bs, 0).value.start..Search(bs, 0).value.end])
  }

  /** Leftmost occurrence of a byte string: `buf.find(marker)`. */
  function Find(s: seq<Byte>, p: seq<Byte>, from: nat): (r: Option<nat>)
    requires from <= |s|
    ensures r.Some? ==> from <= r.value <= |s| - |p| && s[r.value..r.value + |p|] == p
    decreases |s| - from
  {
    if from + |p| > |s| then None
    else if s[from..from + |p|] == p then Some(from)
    else if from == |s| then None
    else Find(s, p, from + 1)
  }

  lemma {:induction false} FindIsLeftmost(s: seq<Byte>, p: seq<Byte>, from: nat, at: nat)
    requires from <= at && at + |p| <= |s| && s[at..at + |p|] == p
    ensures Find(s, p, from).Some? && Find(s, p, from).value <= at
    decreases at - from
  {
    if from < at && s[from..from + |p|] != p {
      FindIsLeftmost(s, p, from + 1, at);
    }
  }

  /** Command output without a D, then a D, then noise: the D is the first match. */
  lemma FirstMarkerAfter(out: seq<Byte>, d: seq<Byte>, noise: seq<Byte>)
    requires HasNoD(out) && IsMarker(d) && Quiet(noise)
    ensures var bs := out + d + noise;
            && Search(bs, 0) == Some(Match(|out|, |out| + |d|))
            && EndsQuiet(bs) && FirstCode(bs) == ExitCode(d)
  {
    var bs := out + d + noise;
    var m := Match(|out|, |out| + |d|);
    assert bs[m.start..m.end] == d;
    assert bs == out + (d + noise);
    forall i, j | 0 <= i < m.start ensures !MatchAt(bs, i, j) {
      if MatchAt(bs, i, j) {
        MatchesAreDisjoint(bs, i, j, m.start, m.end);
        MatchInPrefix(out, d + noise, i, j);
      }
    }
    SearchIsUnique(bs, 0, m);
    assert bs[m.end..] == noise;
  }

  /** No match straddles the end of noise, which closes with a BEL. */
  lemma NoDAcrossQuiet(lead: seq<Byte>, out: seq<Byte>)
    requires Quiet(lead) && HasNoD(out)
    ensures HasNoD(lead + out)
  {
    var all := lead + out;
    assert all[|lead|..] == out;
    assert lead != [] ==> all[|lead| - 1] == BEL;
    forall i, j ensures !MatchAt(all, i, j) {
      if MatchAt(all, i, j) {
        MatchBytes(all, i, j);
        MatchInPrefix(lead, out, i, j);
        MatchInSuffix(all, |lead|, i, j);
      }
    }
  }

  lemma SuffixHasNoD(bs: seq<Byte>, k: nat)
    requires k <= |bs|
    ensures HasNoD(bs) ==> HasNoD(bs[k..])
    ensures Quiet(bs) ==> Quiet(bs[k..])
  {
    if HasNoD(bs) {
      forall i, j ensures !MatchAt(bs[k..], i, j) {
        MatchInSuffix(bs, k, i, j);
      }
    }
  }

  lemma PrefixHasNoD(a: seq<Byte>, b: seq<Byte>)
    requires HasNoD(a + b)
    ensures HasNoD(a) && Search(a, 0).None?
  {
    forall i, j ensures !MatchAt(a, i, j) {
      MatchInPrefix(a, b, i, j);
    }
  }

  /** A reader that has just completed a match leaves only noise behind. */
  lemma ReaderLeavesQuiet(taken: seq<Byte>, left: seq<Byte>)
    requires Search(taken, 0).Some? && EndsQuiet(taken + left)
    ensures FirstCode(taken) == FirstCode(taken + left) && Quiet(left)
  {
    SearchIsStable(taken, left);
    var m := Search(taken, 0).value;
    var all := taken + left;
    assert all[m.start..m.end] == taken[m.start..m.end];
    SuffixHasNoD(all[m.end..], |taken| - m.end);
    assert all[m.end..][|taken| - m.end..] == left;
  }

  // ---------------------------------------------------------------------
  // Steps
  // ---------------------------------------------------------------------

  /** A read returns between one byte and a full chunk of what is waiting. */
  predicate Readable(s: Session, k: nat) {
    0 < k <= |s.unread| && k <= READ_CHUNK
  }

  /** The readiness marker has been printed and a D follows it. */
  predicate ReadySeen(consumed: seq<Byte>, marker: seq<Byte>) {
    Find(consumed, marker, 0).Some? && Search(consumed[Find(consumed, marker, 0).value + |marker|..], 0).Some?
  }

  ghost predicate Enabled(s: Session, l: Label) {
    match l
    // Before the readiness marker is echoed the shell may print anything at
    // all, stray D's included, except that unguessable marker.
    case BootEmit(bytes) =>
      s.shell.Booting? &&
      (s.phase.AwaitReady? ==> Find(s.phase.consumed + s.unread + bytes, s.phase.marker, 0).None?)
    case DrainRead(k) => s.phase.Draining? && Readable(s, k)
    case SendReady(marker) => s.phase.Draining? && marker != [] && Find(s.unread, marker, 0).None?
    case ReadyEcho(sep, d, noise) =>
      && s.shell.Booting? && s.phase.AwaitReady?
      && HasNoD(sep) && IsMarker(d) && Quiet(noise)
      && var before := s.phase.consumed + s.unread;
         Find(before + s.phase.marker, s.phase.marker, 0) == Some(|before|)
    case ReadyRead(k) => s.phase.AwaitReady? && Readable(s, k)
    case Acquire => s.phase.Free?
    case Release => s.phase.Held?
    case Write(_, pieces) => s.phase.Held? && !s.closed && pieces >= 1
    case Accept => s.shell.Idle? && s.stdin != [] && s.stdin[0].Piece?
    case Emit(bytes) => s.shell.Running? && HasNoD(s.shell.out + bytes)
    case Finish(d, noise) => s.shell.Running? && IsMarker(d) && Quiet(noise)
    case TakeChunk(k) => s.phase.Reading? && Readable(s, k)
    case SendCtrlC => s.phase.Reading?
    case Arrive(d, noise) => !s.shell.Booting? && Interrupt in s.stdin && IsMarker(d) && Quiet(noise)
    case CancelChunk(k) => s.phase.Cancelling? && Readable(s, k)
    case Invalidate => !s.phase.Free?
  }

  /** The commands of one call, the last marked. */
  function Typing(cmd: nat, pieces: nat): seq<Input> {
    if pieces == 0 then [] else if pieces == 1 then [Piece(cmd, true)] else [Piece(cmd, false)] + Typing(cmd, pieces - 1)
  }

  /** The first interrupt is taken; a terminal drops the lines typed before it. */
  function AfterInterrupt(stdin: seq<Input>): seq<Input> {
    if stdin == [] then [] else if stdin[0].Interrupt? then stdin[1..] else AfterInterrupt(stdin[1..])
  }

  function Apply(s: Session, l: Label): Session
    requires Enabled(s, l)
  {
    match l
    case BootEmit(bytes) => s.(unread := s.unread + bytes)
    case DrainRead(k) => s.(unread := s.unread[k..])
    case SendReady(marker) => s.(phase := AwaitReady(marker, []))
    case ReadyEcho(sep, d, noise) => s.(shell := Idle, unread := s.unread + (s.phase.marker + (sep + d + noise)))
    case ReadyRead(k) =>
      var taken := s.phase.consumed + s.unread[..k];
      s.(unread := s.unread[k..],
         phase := if ReadySeen(taken, s.phase.marker) then Free else AwaitReady(s.phase.marker, taken))
    case Acquire => s.(phase := Held)
    case Release => s.(phase := Free)
    case Write(_, pieces) =>
      s.(phase := Reading(s.written, s.unread, []), written := s.written + 1, stdin := s.stdin + Typing(s.written, pieces))
    case Accept => s.(shell := Running(s.stdin[0].cmd, [], s.stdin[0].last), stdin := s.stdin[1..])
    case Emit(bytes) =>
      s.(shell := Running(s.shell.cmd, s.shell.out + bytes, s.shell.last), unread := s.unread + bytes)
    case Finish(d, noise) =>
      s.(shell := Idle, unread := s.unread + (d + noise),
         exits := if s.shell.last then s.exits[s.shell.cmd := ExitCode(d)] else s.exits)
    case TakeChunk(k) =>
      var taken := s.phase.consumed + s.unread[..k];
      if Search(taken, 0).Some? then
        s.(unread := s.unread[k..], phase := Held, answers := s.answers + [Answer(s.phase.cmd, FirstCode(taken))])
      else s.(unread := s.unread[k..], phase := Reading(s.phase.cmd, s.phase.lead, taken))
    case SendCtrlC =>
      // The reader starts afresh.
      s.(phase := Cancelling(s.phase.cmd, s.phase.lead, s.phase.consumed, []), stdin := s.stdin + [Interrupt])
    case Arrive(d, noise) =>
      // A running command may now finish; at a prompt the shell prints one more D.
      s.(stdin := AfterInterrupt(s.stdin), unread := if s.shell.Idle? then s.unread + (d + noise) else s.unread)
    case CancelChunk(k) =>
      var taken := s.phase.consumed + s.unread[..k];
      s.(unread := s.unread[k..],
         phase := if Search(taken, 0).Some? then Held
                  else Cancelling(s.phase.cmd, s.phase.lead, s.phase.dropped, taken))
    case Invalidate => s.(registered := false, closed := true, phase := Held)
  }

  /** Of an interrupt: no complete D waits unread when it is sent, and no command ends while
    * it is on its way. The code checks neither. */
  ghost predicate InterruptInTime(s: Session, l: Label) {
    s.registered ==> (l.SendCtrlC? ==> HasNoD(s.unread)) && (l.Finish? ==> Interrupt !in s.stdin)
  }

  /** And the shell makes one command of what a call writes. */
  ghost predicate InTime(s: Session, l: Label) {
    InterruptInTime(s, l) && (l.Write? ==> l.pieces == 1)
  }

  // ---------------------------------------------------------------------
  // The invariant
  // ---------------------------------------------------------------------

  ghost predicate BooksInv(s: Session) {
    && (s.shell.Running? ==> s.shell.cmd < s.written && s.shell.cmd !in s.exits && HasNoD(s.shell.out))
    && (forall c :: c in s.exits ==> c < s.written)
    && (forall a :: a in s.answers ==> a.cmd in s.exits && s.exits[a.cmd] == a.code)
    && (forall k :: 0 <= k < |s.stdin| && s.stdin[k].Piece? ==>
          k == 0 && s.shell.Idle? && s.stdin[k].cmd < s.written && s.stdin[k].cmd !in s.exits)
  }

  ghost predicate ReadingInv(s: Session)
    requires s.phase.Reading?
  {
    var Reading(cmd, lead, consumed) := s.phase;
    && Search(consumed, 0).None?
    && cmd + 1 == s.written
    && (match s.shell
        case Booting => false
        case Idle =>
          if s.stdin == [] then
            cmd in s.exits && EndsQuiet(consumed + s.unread) && FirstCode(consumed + s.unread) == s.exits[cmd]
          else s.stdin == [Piece(cmd, true)] && Quiet(lead) && consumed + s.unread == lead
        case Running(c, out, last) =>
          c == cmd && last && s.stdin == [] && Quiet(lead) && consumed + s.unread == lead + out)
  }

  ghost predicate CancellingInv(s: Session)
    requires s.phase.Cancelling?
  {
    var Cancelling(cmd, lead, dropped, consumed) := s.phase;
    && Search(consumed, 0).None?
    && (match s.shell
        case Booting => false
        case Idle =>
          || (s.stdin == [] && EndsQuiet(consumed + s.unread))
          || (s.stdin == [Interrupt] && HasNoD(consumed + s.unread))
          || (s.stdin == [Piece(cmd, true), Interrupt] && Quiet(lead) && dropped + consumed + s.unread == lead)
        case Running(c, out, last) =>
          last && (s.stdin == [] || s.stdin == [Interrupt]) && Quiet(lead) && dropped + consumed + s.unread == lead + out)
  }

  ghost predicate ChannelInv(s: Session) {
    match s.phase
    case Draining => s.shell.Booting? && s.stdin == []
    case AwaitReady(marker, consumed) =>
      && s.stdin == []
      && marker != []
      && !ReadySeen(consumed, marker)
      && (if s.shell.Booting? then Find(consumed + s.unread, marker, 0).None?
          else s.shell.Idle? && ReadyBytes(consumed + s.unread, marker))
    case Free => s.shell.Idle? && s.stdin == [] && Quiet(s.unread)
    case Held => s.shell.Idle? && s.stdin == [] && Quiet(s.unread)
    case Reading(_, _, _) => ReadingInv(s)
    case Cancelling(_, _, _, _) => CancellingInv(s)
  }

  /** The marker, and after its first occurrence a D followed by noise only. */
  ghost predicate ReadyBytes(bs: seq<Byte>, marker: seq<Byte>) {
    && Find(bs, marker, 0).Some?
    && EndsQuiet(bs[Find(bs, marker, 0).value + |marker|..])
  }

  ghost predicate Inv(s: Session) {
    BooksInv(s) && (!s.closed <==> s.registered) && (s.closed ==> s.phase.Free? || s.phase.Held?)
    && (s.registered ==> ChannelInv(s))
  }

  /** What the protocol promises: with no call in progress a registered session is at its
    * prompt with nothing on its way and no D unread, and every exit code handed out so far
    * is the one the shell gave to that very command. */
  ghost predicate Synchronised(s: Session) {
    && (s.registered && s.phase.Free? ==> s.shell.Idle? && s.stdin == [] && HasNoD(s.unread))
    && (forall a :: a in s.answers ==> a.cmd in s.exits && s.exits[a.cmd] == a.code)
  }

  lemma FindIsStable(a: seq<Byte>, b: seq<Byte>, p: seq<Byte>)
    ensures Find(a, p, 0).Some? ==> Find(a + b, p, 0) == Find(a, p, 0)
  {
    if Find(a, p, 0).Some? {
      var at := Find(a, p, 0).value;
      assert (a + b)[at..at + |p|] == a[at..at + |p|];
      FindIsLeftmost(a + b, p, 0, at);
      var at' := Find(a + b, p, 0).value;
      assert a[at'..at' + |p|] == (a + b)[at'..at' + |p|];
      FindIsLeftmost(a, p, 0, at');
    }
  }

  lemma BootEmitKeeps(s: Session, l: Label)
    requires Inv(s) && l.BootEmit? && Enabled(s, l)
    ensures Inv(Apply(s, l))
  {
    if s.phase.AwaitReady? {
      assert s.phase.consumed + (s.unread + l.bytes) == s.phase.consumed + s.unread + l.bytes;
    }
  }

  lemma ReadyEchoBytes(before: seq<Byte>, marker: seq<Byte>, after: seq<Byte>)
    requires EndsQuiet(after) && Find(before + marker, marker, 0) == Some(|before|)
    ensures ReadyBytes(before + marker + after, marker)
  {
    hide Search, MatchAt, IsMarker, Find, EndsQuiet;
    FindIsStable(before + marker, after, marker);
    assert (before + marker + after)[|before| + |marker|..] == after;
  }

  lemma ReadyEchoKeeps(s: Session, l: Label)
    requires Inv(s) && l.ReadyEcho? && Enabled(s, l)
    ensures Inv(Apply(s, l))
  {
    var after := l.sep + l.d + l.noise;
    FirstMarkerAfter(l.sep, l.d, l.noise);
    ReadyEchoBytes(s.phase.consumed + s.unread, s.phase.marker, after);
    ReadyEchoShape(s, l, after);
  }

  lemma ReadyEchoShape(s: Session, l: Label, after: seq<Byte>)
    requires Inv(s) && l.ReadyEcho? && Enabled(s, l) && after == l.sep + l.d + l.noise
    requires ReadyBytes(s.phase.consumed + s.unread + s.phase.marker + after, s.phase.marker)
    ensures Inv(Apply(s, l))
  {
    hide Search, MatchAt, IsMarker, Find, ReadyBytes, ReadySeen, Quiet, HasNoD;
    assert s.phase.consumed + (s.unread + (s.phase.marker + after)) ==
           s.phase.consumed + s.unread + s.phase.marker + after;
  }

  /** The bootstrap reader stops with only noise unread, and not before the echo. */
  lemma ReadyChunk(taken: seq<Byte>, left: seq<Byte>, marker: seq<Byte>)
    requires ReadySeen(taken, marker)
    ensures Find(taken + left, marker, 0).Some?
    ensures ReadyBytes(taken + left, marker) ==> Quiet(left)
  {
    hide Search, MatchAt, IsMarker, Find, Quiet, EndsQuiet;
    FindIsStable(taken, left, marker);
    if ReadyBytes(taken + left, marker) {
      var from := Find(taken, marker, 0).value + |marker|;
      assert (taken + left)[from..] == taken[from..] + left;
      ReaderLeavesQuiet(taken[from..], left);
    }
  }

  lemma ReadyReadKeeps(s: Session, l: Label)
    requires Inv(s) && l.ReadyRead? && Enabled(s, l)
    ensures Inv(Apply(s, l))
  {
    hide Search, MatchAt, IsMarker, Find, ReadyBytes, ReadySeen, Quiet;
    var taken, left := s.phase.consumed + s.unread[..l.k], s.unread[l.k..];
    assert taken + left == s.phase.consumed + s.unread;
    if ReadySeen(taken, s.phase.marker) {
      ReadyChunk(taken, left, s.phase.marker);
    }
  }

  lemma WriteKeeps(s: Session, l: Label)
    requires Inv(s) && l.Write? && l.pieces == 1 && Enabled(s, l)
    ensures Inv(Apply(s, l))
  {
    hide Search, MatchAt, IsMarker, EndsQuiet, HasNoD, Quiet, Find, FirstCode, ReadyBytes, ReadySeen;
    assert [] + s.unread == s.unread;
    assert [] + [Piece(s.written, true)] == [Piece(s.written, true)];
    NothingIsNoD();
  }

  lemma AcceptKeeps(s: Session, l: Label)
    requires Inv(s) && l.Accept? && Enabled(s, l)
    ensures Inv(Apply(s, l))
  {
    NothingIsNoD();
    hide Search, MatchAt, IsMarker, EndsQuiet, HasNoD, Quiet, Find, FirstCode, ReadyBytes, ReadySeen;
    assert [Piece(s.stdin[0].cmd, true)][1..] == [] && [Piece(s.stdin[0].cmd, true), Interrupt][1..] == [Interrupt];
    if s.registered {
      assert s.phase.lead + [] == s.phase.lead;
    }
  }

  lemma NothingIsNoD()
    ensures Search([], 0).None? && HasNoD([])
  {
    forall i, j ensures !MatchAt([], i, j) {
      if MatchAt([], i, j) {
        MatchBytes([], i, j);
      }
    }
  }

  lemma EmitKeeps(s: Session, l: Label)
    requires Inv(s) && l.Emit? && Enabled(s, l)
    ensures Inv(Apply(s, l))
  {
    hide Search, MatchAt, IsMarker, EndsQuiet, HasNoD, Quiet, Find, FirstCode, ReadyBytes, ReadySeen;
    var s' := Apply(s, l);
    var out := s.shell.out;
    match s.phase {
      case Reading(cmd, lead, consumed) =>
        assert consumed + s'.unread == consumed + s.unread + l.bytes;
        assert lead + (out + l.bytes) == lead + out + l.bytes;
      case Cancelling(cmd, lead, dropped, consumed) =>
        assert dropped + consumed + s'.unread == dropped + consumed + s.unread + l.bytes;
        assert lead + (out + l.bytes) == lead + out + l.bytes;
      case _ =>
    }
  }

  /** Until the command is over and no interrupt has come, nothing still to be read holds a D. */
  lemma NoDYet(s: Session)
    requires Inv(s) && s.registered && (s.phase.Reading? || s.phase.Cancelling?) && (s.shell.Running? || s.stdin != [])
    ensures HasNoD(s.phase.consumed + s.unread)
  {
    hide Search, MatchAt, IsMarker, EndsQuiet, FirstCode;
    if s.shell.Running? {
      NoDAcrossQuiet(s.phase.lead, s.shell.out);
    }
    if s.phase.Cancelling? {
      var dropped, all := s.phase.dropped, s.phase.dropped + s.phase.consumed + s.unread;
      assert all[|dropped|..] == s.phase.consumed + s.unread;
      SuffixHasNoD(all, |dropped|);
    }
  }

  lemma FinishKeepsBooks(s: Session, l: Label)
    requires BooksInv(s) && l.Finish? && Enabled(s, l)
    ensures BooksInv(Apply(s, l))
  {
    hide MatchAt, IsMarker, ExitCode;
  }

  lemma FinishKeeps(s: Session, l: Label)
    requires Inv(s) && l.Finish? && Enabled(s, l) && InTime(s, l)
    ensures Inv(Apply(s, l))
  {
    hide Search, MatchAt, IsMarker, ExitCode, FirstCode, EndsQuiet, Quiet, HasNoD, BooksInv, Find, ReadyBytes, ReadySeen;
    FinishKeepsBooks(s, l);
    if s.registered {
      NoDYet(s);
      FirstMarkerAfter(s.phase.consumed + s.unread, l.d, l.noise);
      FinishShape(s, l);
    }
  }

  lemma FinishShape(s: Session, l: Label)
    requires Inv(s) && l.Finish? && Enabled(s, l) && InTime(s, l) && s.registered && BooksInv(Apply(s, l))
    requires s.phase.Reading? || s.phase.Cancelling?
    requires var bs := s.phase.consumed + s.unread + l.d + l.noise;
             EndsQuiet(bs) && FirstCode(bs) == ExitCode(l.d)
    ensures Inv(Apply(s, l))
  {
    hide Search, MatchAt, IsMarker, ExitCode, FirstCode, EndsQuiet, Quiet, HasNoD, BooksInv;
    assert s.phase.consumed + (s.unread + (l.d + l.noise)) == s.phase.consumed + s.unread + l.d + l.noise;
    assert Interrupt in [Interrupt];
  }

  lemma TakeChunkKeeps(s: Session, l: Label)
    requires Inv(s) && l.TakeChunk? && Enabled(s, l)
    ensures Inv(Apply(s, l))
  {
    hide Search, MatchAt, IsMarker, EndsQuiet, HasNoD, Quiet, Find, FirstCode;
    var taken, left := s.phase.consumed + s.unread[..l.k], s.unread[l.k..];
    assert taken + left == s.phase.consumed + s.unread;
    if s.shell.Running? || s.stdin != [] {
      NoDYet(s);
      PrefixHasNoD(taken, left);
    } else if Search(taken, 0).Some? {
      ReaderLeavesQuiet(taken, left);
    }
  }

  lemma SendCtrlCKeeps(s: Session, l: Label)
    requires Inv(s) && l.SendCtrlC? && Enabled(s, l) && InTime(s, l)
    ensures Inv(Apply(s, l))
  {
    hide Search, MatchAt, IsMarker, FirstCode, EndsQuiet, HasNoD, Quiet, Find, ExitCode, ReadyBytes, ReadySeen;
    NothingIsNoD();
    assert [] + s.unread == s.unread && s.phase.consumed + [] + s.unread == s.phase.consumed + s.unread;
    assert [] + [Interrupt] == [Interrupt];
    assert [Piece(s.phase.cmd, true)] + [Interrupt] == [Piece(s.phase.cmd, true), Interrupt];
  }

  /** Behind the first interrupt there is no command if there is none but in front. */
  lemma {:induction false} InterruptGone(stdin: seq<Input>)
    requires forall k :: 0 < k < |stdin| ==> stdin[k].Interrupt?
    ensures forall k :: 0 <= k < |AfterInterrupt(stdin)| ==> AfterInterrupt(stdin)[k].Interrupt?
  {
    if stdin != [] && stdin[0].Piece? {
      var rest := stdin[1..];
      assert forall k :: 0 <= k < |rest| ==> rest[k] == stdin[k + 1];
      InterruptGone(rest);
    }
  }

  lemma ArriveKeepsBooks(s: Session, l: Label)
    requires BooksInv(s) && l.Arrive? && Enabled(s, l)
    ensures BooksInv(Apply(s, l))
  {
    hide MatchAt, IsMarker, HasNoD, Quiet, AfterInterrupt;
    InterruptGone(s.stdin);
  }

  lemma ArriveKeeps(s: Session, l: Label)
    requires Inv(s) && l.Arrive? && Enabled(s, l)
    ensures Inv(Apply(s, l))
  {
    hide Search, MatchAt, IsMarker, FirstCode, EndsQuiet, HasNoD, Quiet, Find, ExitCode, ReadyBytes, ReadySeen, BooksInv;
    ArriveKeepsBooks(s, l);
    if s.registered {
      InterruptOnlyWhileCancelling(s);
      NoDYet(s);
      FirstMarkerAfter(s.phase.consumed + s.unread, l.d, l.noise);
      ArriveShape(s, l);
    }
  }

  lemma ArriveShape(s: Session, l: Label)
    requires Inv(s) && l.Arrive? && Enabled(s, l) && s.registered && BooksInv(Apply(s, l))
    requires s.phase.Cancelling? && s.stdin != [] && EndsQuiet(s.phase.consumed + s.unread + l.d + l.noise)
    ensures Inv(Apply(s, l))
  {
    hide Search, MatchAt, IsMarker, FirstCode, EndsQuiet, HasNoD, Quiet, BooksInv, AfterInterrupt, Find, ReadyBytes,
         ReadySeen, ReadingInv;
    assert s.phase.consumed + (s.unread + (l.d + l.noise)) == s.phase.consumed + s.unread + l.d + l.noise;
    Arrivals(s.phase.cmd);
  }

  lemma InterruptOnlyWhileCancelling(s: Session)
    requires Inv(s) && s.registered && Interrupt in s.stdin
    ensures s.phase.Cancelling? && s.stdin != [] && (s.shell.Running? ==> s.stdin == [Interrupt])
  {
    hide Search, MatchAt, IsMarker, FirstCode, EndsQuiet, HasNoD, Quiet, Find, ReadyBytes, ReadySeen, BooksInv;
  }

  lemma Arrivals(cmd: nat)
    ensures AfterInterrupt([Interrupt]) == [] && AfterInterrupt([Piece(cmd, true), Interrupt]) == []
  {
    assert [Interrupt][1..] == [] && [Piece(cmd, true), Interrupt][1..] == [Interrupt];
  }

  lemma CancelChunkKeeps(s: Session, l: Label)
    requires Inv(s) && l.CancelChunk? && Enabled(s, l)
    ensures Inv(Apply(s, l))
  {
    hide Search, MatchAt, IsMarker, EndsQuiet, HasNoD, Quiet, Find, FirstCode;
    var taken, left := s.phase.consumed + s.unread[..l.k], s.unread[l.k..];
    assert taken + left == s.phase.consumed + s.unread;
    if s.shell.Running? || s.stdin != [] {
      var dropped := s.phase.dropped;
      NoDYet(s);
      PrefixHasNoD(taken, left);
      assert dropped + taken + left == dropped + s.phase.consumed + s.unread;
    } else if Search(taken, 0).Some? {
      ReaderLeavesQuiet(taken, left);
    }
  }

  lemma StepKeepsInv(s: Session, l: Label)
    requires Inv(s) && Enabled(s, l) && InTime(s, l)
    ensures Inv(Apply(s, l))
  {
    match l {
      case BootEmit(_) => BootEmitKeeps(s, l);
      case ReadyEcho(_, _, _) => ReadyEchoKeeps(s, l);
      case ReadyRead(_) => ReadyReadKeeps(s, l);
      case Write(_, _) => WriteKeeps(s, l);
      case Accept => AcceptKeeps(s, l);
      case Emit(_) => EmitKeeps(s, l);
      case Finish(_, _) => FinishKeeps(s, l);
      case TakeChunk(_) => TakeChunkKeeps(s, l);
      case SendCtrlC => SendCtrlCKeeps(s, l);
      case Arrive(_, _) => ArriveKeeps(s, l);
      case CancelChunk(_) => CancelChunkKeeps(s, l);
      case _ => OtherStepKeeps(s, l);
    }
  }

  lemma OtherStepKeeps(s: Session, l: Label)
    requires Inv(s) && Enabled(s, l)
    requires l.DrainRead? || l.SendReady? || l.Acquire? || l.Release? || l.Invalidate?
    ensures Inv(Apply(s, l))
  {
    hide Search, MatchAt, IsMarker, EndsQuiet, HasNoD, Quiet, FirstCode, ReadyBytes;
    assert [] + s.unread == s.unread;
    if l.SendReady? {
      NothingFound(l.marker);
    }
  }

  lemma NothingFound(marker: seq<Byte>)
    requires marker != []
    ensures Find([], marker, 0).None? && !ReadySeen([], marker)
  {
  }

  // ---------------------------------------------------------------------
  // Runs
  // ---------------------------------------------------------------------

  ghost predicate IsRun(start: Session, labels: seq<Label>)
    decreases |labels|
  {
    labels == [] || (Enabled(start, labels[0]) && IsRun(Apply(start, labels[0]), labels[1..]))
  }

  /** Every step of the run is in time. */
  ghost predicate AllInTime(start: Session, labels: seq<Label>)
    requires IsRun(start, labels)
    decreases |labels|
  {
    labels == [] || (InTime(start, labels[0]) && AllInTime(Apply(start, labels[0]), labels[1..]))
  }

  function After(start: Session, labels: seq<Label>): Session
    requires IsRun(start, labels)
    decreases |labels|
  {
    if labels == [] then start else After(Apply(start, labels[0]), labels[1..])
  }

  lemma {:induction false} RunKeepsInv(start: Session, labels: seq<Label>)
    requires Inv(start) && IsRun(start, labels) && AllInTime(start, labels)
    ensures Inv(After(start, labels))
    decreases |labels|
  {
    if labels != [] {
      StepKeepsInv(start, labels[0]);
      RunKeepsInv(Apply(start, labels[0]), labels[1..]);
    }
  }

  /** Safety over whole runs, from creation, for every interleaving with the shell. */
  lemma SessionsStaySynchronised(labels: seq<Label>)
    requires IsRun(Created(), labels) && AllInTime(Created(), labels)
    ensures Synchronised(After(Created(), labels))
  {
    RunKeepsInv(Created(), labels);
  }

  /** An answer belongs to the command that was just written, never to an earlier one. */
  lemma AnswersAreForTheLatestCommand(s: Session, l: Label)
    requires Inv(s) && Enabled(s, l) && s.registered
    ensures var s' := Apply(s, l);
            || s'.answers == s.answers
            || (&& s.phase.Reading? && s.phase.cmd + 1 == s.written && s.phase.cmd in s.exits
                && s'.answers == s.answers + [Answer(s.phase.cmd, s.exits[s.phase.cmd])])
  {
    hide Search, MatchAt, IsMarker, EndsQuiet, HasNoD, Quiet, Find, FirstCode;
    if l.TakeChunk? {
      var taken, left := s.phase.consumed + s.unread[..l.k], s.unread[l.k..];
      assert taken + left == s.phase.consumed + s.unread;
      if s.shell.Running? || s.stdin != [] {
        NoDYet(s);
        PrefixHasNoD(taken, left);
      } else if Search(taken, 0).Some? {
        ReaderLeavesQuiet(taken, left);
      }
    }
  }
}
