/** The OSC 133 `D` marker and the streaming scanner that looks for it.
  * `ESC ] 133 ; D [; digits] BEL` is emitted by the remote shell after every
  * command; the read loop of `_execute_locked` keeps a bounded buffer and
  * searches only the fresh bytes and a small overlap. */
module Osc133 {
  import opened Base

  const ESC: Byte := 0x1B
  const BEL: Byte := 0x07
  const SEMICOLON: Byte := 0x3B
  /** `ESC ] 1 3 3 ; D` */
  const PREFIX: seq<Byte> := [0x1B, 0x5D, 0x31, 0x33, 0x33, 0x3B, 0x44]
  const MARKER_OVERLAP: int := 64
  const READ_CHUNK: int := 65536
  const DEFAULT_MAX_OUTPUT: int := 8 * 1024 * 1024
  /** Exit code reported for a bare `D`, which carries no digits. */
  const ABORTED: int := -2

  predicate IsDigit(b: Byte) { 0x30 <= b <= 0x39 }

  /** The byte strings the marker pattern matches, as a whole. */
  predicate IsMarker(m: seq<Byte>) {
    && |m| >= 8
    && m[..7] == PREFIX
    && m[|m| - 1] == BEL
    && (|m| == 8 || (|m| >= 10 && m[7] == SEMICOLON && forall k :: 8 <= k < |m| - 1 ==> IsDigit(m[k])))
  }

  predicate MatchAt(s: seq<Byte>, i: int, j: int) {
    0 <= i <= j <= |s| && IsMarker(s[i..j])
  }

  ghost predicate NoMatch(s: seq<Byte>, from: int) {
    forall i, j :: from <= i ==> !MatchAt(s, i, j)
  }

  function DecimalValue(ds: seq<Byte>): int {
    if ds == [] then 0 else DecimalValue(ds[..|ds| - 1]) * 10 + (ds[|ds| - 1] as int) - 0x30
  }

  /** The exit status a marker carries. */
  function ExitCode(m: seq<Byte>): int
    requires IsMarker(m)
  {
    if |m| == 8 then ABORTED else DecimalValue(m[8..|m| - 1])
  }

  /** What `%d` prints for an exit status. */
  function Decimal(n: nat): (ds: seq<Byte>)
    ensures ds != [] && forall k :: 0 <= k < |ds| ==> IsDigit(ds[k])
  {
    if n < 10 then [0x30 + n] else Decimal(n / 10) + [0x30 + n % 10]
  }

  /** The marker the integration script prints for an exit status. */
  function MarkerFor(code: nat): seq<Byte> { PREFIX + [SEMICOLON] + Decimal(code) + [BEL] }

  lemma {:induction false} DecimalRoundTrip(n: nat)
    ensures DecimalValue(Decimal(n)) == n
  {
    if n < 10 {
      assert Decimal(n)[..0] == [];
    } else {
      DecimalRoundTrip(n / 10);
      assert Decimal(n)[..|Decimal(n)| - 1] == Decimal(n / 10);
    }
  }

  /** The exit status read from a marker is the one the shell put in. */
  lemma ExitCodeRoundTrip(code: nat)
    ensures IsMarker(MarkerFor(code)) && ExitCode(MarkerFor(code)) == code
  {
    DecimalRoundTrip(code);
    var m := MarkerFor(code);
    assert m[8..|m| - 1] == Decimal(code);
  }

  /** A D without digits, as an aborted command brings, is told from every status: -2. */
  lemma AbortedIsTold(m: seq<Byte>)
    requires IsMarker(m)
    ensures ExitCode(m) == -2 <==> m == PREFIX + [BEL]
    ensures m != PREFIX + [BEL] ==> ExitCode(m) >= 0
  {
    if |m| == 8 {
      assert m == m[..7] + [m[7]];
    } else {
      DigitsAreNatural(m[8..|m| - 1]);
    }
  }

  lemma {:induction false} DigitsAreNatural(ds: seq<Byte>)
    requires forall k :: 0 <= k < |ds| ==> IsDigit(ds[k])
    ensures DecimalValue(ds) >= 0
  {
    if ds != [] {
      DigitsAreNatural(ds[..|ds| - 1]);
    }
  }

  datatype Match = Match(start: nat, end: nat)

  function FirstBel(s: seq<Byte>, from: nat): (e: nat)
    requires from <= |s|
    ensures from <= e <= |s|
    ensures e < |s| ==> s[e] == BEL
    ensures forall k :: from <= k < e ==> s[k] != BEL
    decreases |s| - from
  {
    if from == |s| || s[from] == BEL then from else FirstBel(s, from + 1)
  }

  /** Leftmost match at or after `from`: `OSC133_D.search(buf, from)`. */
  function Search(s: seq<Byte>, from: nat): (r: Option<Match>)
    requires from <= |s|
    ensures r.Some? ==> from <= r.value.start && MatchAt(s, r.value.start, r.value.end)
    decreases |s| - from
  {
    if from == |s| then None
    else
      var e := FirstBel(s, from);
      if e < |s| && IsMarker(s[from..e + 1]) then Some(Match(from, e + 1)) else Search(s, from + 1)
  }

  lemma SearchStep(s: seq<Byte>, from: nat)
    requires from < |s|
    ensures var e := FirstBel(s, from) + 1;
            Search(s, from) == if MatchAt(s, from, e) then Some(Match(from, e)) else Search(s, from + 1)
  {
  }

  lemma NoMatchAtEnd(s: seq<Byte>)
    ensures Search(s, |s|).None? && NoMatch(s, |s|)
  {
    forall i, j | |s| <= i ensures !MatchAt(s, i, j) {
      if MatchAt(s, i, j) {
        MatchBytes(s, i, j);
      }
    }
  }

  /** The search reports a match when there is one, and never skips an earlier one. */
  lemma {:induction false} SearchIsLeftmost(s: seq<Byte>, from: nat)
    requires from <= |s|
    ensures Search(s, from).None? ==> NoMatch(s, from)
    ensures Search(s, from).Some? ==> forall i, j :: from <= i < Search(s, from).value.start ==> !MatchAt(s, i, j)
    decreases |s| - from
  {
    hide Search, MatchAt, FirstBel;
    if from < |s| {
      MatchEndsAtFirstBel(s, from);
      SearchStep(s, from);
      SearchIsLeftmost(s, from + 1);
    } else {
      NoMatchAtEnd(s);
    }
  }

  lemma MatchBytes(s: seq<Byte>, i: int, j: int)
    requires MatchAt(s, i, j)
    ensures j - i >= 8 && s[i] == ESC && s[j - 1] == BEL
    ensures forall k :: i < k < j ==> s[k] != ESC
    ensures forall k :: i <= k < j - 1 ==> s[k] != BEL
  {
    var m := s[i..j];
    assert forall k :: i <= k < j ==> s[k] == m[k - i];
    assert forall k :: 0 <= k < 7 ==> m[k] == m[..7][k] == PREFIX[k];
  }

  lemma MatchEndsAtFirstBel(s: seq<Byte>, i: nat)
    requires i <= |s|
    ensures forall j :: MatchAt(s, i, j) ==> j == FirstBel(s, i) + 1
  {
    forall j | MatchAt(s, i, j) ensures j == FirstBel(s, i) + 1 {
      MatchBytes(s, i, j);
    }
  }

  /** Two different matches never overlap, because ESC opens a marker and BEL
    * closes it and neither occurs inside one. */
  lemma MatchesAreDisjoint(s: seq<Byte>, i: int, j: int, i': int, j': int)
    requires MatchAt(s, i, j) && MatchAt(s, i', j')
    requires i <= i'
    ensures (i == i' && j == j') || j <= i'
  {
    MatchBytes(s, i, j);
    MatchBytes(s, i', j');
  }

  /** Whatever satisfies the description of the leftmost match is the one found. */
  lemma SearchIsUnique(s: seq<Byte>, from: nat, m: Match)
    requires from <= |s| && from <= m.start && MatchAt(s, m.start, m.end)
    requires forall i, j :: from <= i < m.start ==> !MatchAt(s, i, j)
    ensures Search(s, from) == Some(m)
  {
    SearchIsLeftmost(s, from);
    var r := Search(s, from);
    assert MatchAt(s, m.start, m.end);
    assert r.Some?;
    MatchesAreDisjoint(s, m.start, m.end, r.value.start, r.value.end);
  }

  /** A match of a prefix is a match of the whole, and one that fits in the prefix back again. */
  lemma MatchInPrefix(a: seq<Byte>, b: seq<Byte>, i: int, j: int)
    ensures MatchAt(a, i, j) ==> MatchAt(a + b, i, j)
    ensures MatchAt(a + b, i, j) && j <= |a| ==> MatchAt(a, i, j)
  {
    if 0 <= i <= j <= |a| {
      assert (a + b)[i..j] == a[i..j];
    }
  }

  lemma MatchInSuffix(s: seq<Byte>, off: nat, i: int, j: int)
    requires off <= |s|
    ensures i >= 0 && MatchAt(s[off..], i, j) ==> MatchAt(s, off + i, off + j)
    ensures i >= off && MatchAt(s, i, j) ==> MatchAt(s[off..], i - off, j - off)
  {
    if 0 <= i <= j <= |s| - off {
      assert s[off..][i..j] == s[off + i..off + j];
    }
    if off <= i <= j <= |s| {
      assert s[off..][i - off..j - off] == s[i..j];
    }
  }

  /** Bytes that arrive later never move or remove the leftmost match. */
  lemma SearchIsStable(a: seq<Byte>, b: seq<Byte>)
    requires Search(a, 0).Some?
    ensures Search(a + b, 0) == Search(a, 0)
  {
    SearchIsLeftmost(a, 0);
    var m := Search(a, 0).value;
    MatchInPrefix(a, b, m.start, m.end);
    forall i, j | 0 <= i < m.start ensures !MatchAt(a + b, i, j) {
      if MatchAt(a + b, i, j) {
        MatchesAreDisjoint(a + b, i, j, m.start, m.end);
        MatchInPrefix(a, b, i, j);
      }
    }
    SearchIsUnique(a + b, 0, m);
  }

  // ---------------------------------------------------------------------
  // The read loop
  // ---------------------------------------------------------------------

  /** One turn of the read loop. `graceOver` says that a prompt was seen and
    * its grace window has elapsed, so the loop gives up on the command. */
  datatype Turn =
    | Chunk(data: seq<Byte>, graceOver: bool)
    | NoBytes(graceOver: bool)
    | Broken

  datatype Outcome =
    | Completed(output: seq<Byte>, code: int, truncated: bool)
    | Wedged(captured: seq<Byte>)
    | ChannelDead
    | TimedOut(partial: seq<Byte>, truncated: bool)

  /** The bytes of every chunk in arrival order. */
  function Received(turns: seq<Turn>): seq<Byte> {
    if turns == [] then []
    else (if turns[0].Chunk? then turns[0].data else []) + Received(turns[1..])
  }

  /** What one turn does: stop with an outcome, or go on with a new buffer. */
  datatype Step = Stop(outcome: Outcome) | Go(bytes: seq<Byte>, truncated: bool)

  /** How a turn that brought bytes ends, given what the search of the buffer found. */
  function Conclude(bytes: seq<Byte>, found: Option<Match>, truncated: bool, graceOver: bool): Step
    requires found.Some? ==> MatchAt(bytes, found.value.start, found.value.end)
  {
    match found
    case Some(m) => Stop(Completed(bytes[..m.start], ExitCode(bytes[m.start..m.end]), truncated))
    case None => if graceOver then Stop(Wedged(bytes)) else Go(bytes, truncated)
  }

  /** Reference reader: keep everything, search everything. */
  function WholeTurn(seen: seq<Byte>, turn: Turn): Step {
    match turn
    case Chunk(data, graceOver) =>
      Conclude(seen + data, Search(seen + data, 0), false, graceOver)
    case NoBytes(graceOver) => if graceOver then Stop(Wedged(seen)) else Go(seen, false)
    case Broken => Stop(ChannelDead)
  }

  function WholeRead(seen: seq<Byte>, turns: seq<Turn>): Outcome
    decreases |turns|
  {
    if turns == [] then TimedOut(seen, false)
    else match WholeTurn(seen, turns[0])
      case Stop(outcome) => outcome
      case Go(all, _) => WholeRead(all, turns[1..])
  }

  datatype Buffer = Buffer(bytes: seq<Byte>, prevLen: nat, truncated: bool)

  /** Append a chunk and drop the head beyond `cap`, remembering where the fresh bytes begin. */
  function Absorb(buf: seq<Byte>, data: seq<Byte>, cap: nat, truncated: bool): (b: Buffer)
    ensures b.prevLen <= |b.bytes|
  {
    var grown := buf + data;
    if |grown| > cap then
      var drop := Min(|grown| - cap, |grown|);
      Buffer(grown[drop..], Max(0, |buf| - drop), true)
    else Buffer(grown, |buf|, truncated)
  }

  function ScanFrom(prevLen: nat): nat { Max(0, prevLen - MARKER_OVERLAP) }

  /** Specification of the bounded reader: the buffer holds at most `cap` bytes. */
  function BoundedTurn(buf: seq<Byte>, truncated: bool, cap: nat, turn: Turn): Step {
    match turn
    case Chunk(data, graceOver) =>
      var b := Absorb(buf, data, cap, truncated);
      Conclude(b.bytes, Search(b.bytes, ScanFrom(b.prevLen)), b.truncated, graceOver)
    case NoBytes(graceOver) => if graceOver then Stop(Wedged(buf)) else Go(buf, truncated)
    case Broken => Stop(ChannelDead)
  }

  function BoundedRead(buf: seq<Byte>, truncated: bool, cap: nat, turns: seq<Turn>): Outcome
    decreases |turns|
  {
    if turns == [] then TimedOut(buf, truncated)
    else match BoundedTurn(buf, truncated, cap, turns[0])
      case Stop(outcome) => outcome
      case Go(b, t) => BoundedRead(b, t, cap, turns[1..])
  }

  /** The read loop of `_execute_locked`, growing and trimming `buf` in place. */
  method ReadUntilDone(turns: seq<Turn>, cap: nat) returns (out: Outcome)
    ensures out == BoundedRead([], false, cap, turns)
  {
    hide Search, IsMarker;
    var buf: seq<Byte> := [];
    var truncated := false;
    var i := 0;
    while i < |turns|
      invariant 0 <= i <= |turns|
      invariant BoundedRead([], false, cap, turns) == BoundedRead(buf, truncated, cap, turns[i..])
      decreases |turns| - i
    {
      assert turns[i..][1..] == turns[i + 1..];
      match turns[i] {
        case Chunk(data, graceOver) =>
          var prevLen := |buf|;
          buf := buf + data;
          if |buf| > cap {
            var drop := Min(|buf| - cap, |buf|);
            buf := buf[drop..];
            prevLen := Max(0, prevLen - drop);
            truncated := true;
          }
          var m := Search(buf, ScanFrom(prevLen));
          if m.Some? {
            return Completed(buf[..m.value.start], ExitCode(buf[m.value.start..m.value.end]), truncated);
          }
          if graceOver {
            return Wedged(buf);
          }
        case NoBytes(graceOver) =>
          if graceOver {
            return Wedged(buf);
          }
        case Broken =>
          return ChannelDead;
      }
      i := i + 1;
    }
    return TimedOut(buf, truncated);
  }

  // ---------------------------------------------------------------------
  // The bounded reader refines the reference reader
  // ---------------------------------------------------------------------

  /** Chunks are no longer than the read size. */
  predicate Fits(turns: seq<Turn>, chunk: int) {
    forall k :: 0 <= k < |turns| && turns[k].Chunk? ==> |turns[k].data| <= chunk
  }

  /** Every marker in the stream is at most `longest` bytes long. */
  ghost predicate MarkersWithin(s: seq<Byte>, longest: int) {
    forall i, j :: MatchAt(s, i, j) ==> j - i <= longest
  }

  predicate IsSuffix(a: seq<Byte>, b: seq<Byte>) {
    |a| <= |b| && a == b[|b| - |a|..]
  }

  /** What the caller may rely on: same verdict, same exit code, and an output
    * that is the tail of the true output, the whole of it unless flagged. */
  predicate Agrees(fast: Outcome, whole: Outcome) {
    match (fast, whole)
    case (Completed(o, c, t), Completed(o', c', _)) => c == c' && IsSuffix(o, o') && (!t ==> o == o')
    case (Wedged(o), Wedged(o')) => IsSuffix(o, o')
    case (ChannelDead, ChannelDead) => true
    case (TimedOut(o, t), TimedOut(o', _)) => IsSuffix(o, o') && (!t ==> o == o')
    case _ => false
  }

  predicate Tail(buf: seq<Byte>, seen: seq<Byte>, cap: nat, truncated: bool) {
    && IsSuffix(buf, seen)
    && |buf| == Min(cap, |seen|)
    && (truncated <==> |seen| > cap)
  }

  function Shift(r: Option<Match>, off: int): Option<Match>
    requires r.Some? ==> off <= r.value.start && off <= r.value.end
  {
    match r case None => None case Some(m) => Some(Match(m.start - off, m.end - off))
  }

  /** Searching a tail finds what searching the whole finds, provided no match begins earlier. */
  lemma SearchInTail(s: seq<Byte>, off: nat, from: nat)
    requires off + from <= |s|
    requires forall i, j :: MatchAt(s, i, j) ==> i >= off + from
    ensures Search(s, 0).Some? ==> off <= Search(s, 0).value.start && off <= Search(s, 0).value.end
    ensures Search(s[off..], from) == Shift(Search(s, 0), off)
  {
    hide Search, MatchAt;
    SearchIsLeftmost(s, 0);
    match Search(s, 0) {
      case None =>
        if Search(s[off..], from).Some? {
          var m := Search(s[off..], from).value;
          MatchInSuffix(s, off, m.start, m.end);
        }
      case Some(m) => FoundInTail(s, off, from, m);
    }
  }

  lemma FoundInTail(s: seq<Byte>, off: nat, from: nat, m: Match)
    requires off + from <= |s| && off + from <= m.start && MatchAt(s, m.start, m.end)
    requires forall i, j :: 0 <= i < m.start ==> !MatchAt(s, i, j)
    ensures off <= m.end && Search(s[off..], from) == Some(Match(m.start - off, m.end - off))
  {
    hide Search, MatchAt;
    MatchWithin(s, m.start, m.end);
    MatchInSuffix(s, off, m.start, m.end);
    forall i, j | from <= i < m.start - off ensures !MatchAt(s[off..], i, j) {
      MatchInSuffix(s, off, i, j);
    }
    SearchIsUnique(s[off..], from, Match(m.start - off, m.end - off));
  }

  lemma DropTwice(s: seq<Byte>, a: nat, b: nat)
    requires a + b <= |s|
    ensures s[a..][b..] == s[a + b..]
  {
  }

  lemma SuffixIs(a: seq<Byte>, b: seq<Byte>, off: nat)
    requires off <= |b| && a == b[off..]
    ensures IsSuffix(a, b) && off == |b| - |a|
  {
  }

  /** After one chunk the buffer is again the tail of everything received, and
    * the search starts at most an overlap before the fresh bytes. */
  lemma AbsorbKeepsTail(seen: seq<Byte>, buf: seq<Byte>, data: seq<Byte>, cap: nat, truncated: bool)
    requires Tail(buf, seen, cap, truncated)
    ensures var b := Absorb(buf, data, cap, truncated);
            && Tail(b.bytes, seen + data, cap, b.truncated)
            && b.bytes == (seen + data)[|seen + data| - |b.bytes|..]
            && |seen + data| - |b.bytes| + ScanFrom(b.prevLen) ==
                 Max(|seen + data| - |b.bytes|, |seen| - MARKER_OVERLAP)
  {
    hide IsSuffix, Absorb;
    var all, off := seen + data, |seen| - |buf|;
    GrownIsTail(seen, buf, data);
    AbsorbIs(buf, data, cap, truncated);
    var drop := Max(0, |buf| + |data| - cap);
    DropTwice(all, off, drop);
    SuffixIs(all[off + drop..], all, off + drop);
  }

  lemma GrownIsTail(seen: seq<Byte>, buf: seq<Byte>, data: seq<Byte>)
    requires IsSuffix(buf, seen)
    ensures |buf| <= |seen| && buf + data == (seen + data)[|seen| - |buf|..]
  {
  }

  lemma AbsorbIs(buf: seq<Byte>, data: seq<Byte>, cap: nat, truncated: bool)
    ensures var b, drop := Absorb(buf, data, cap, truncated), Max(0, |buf| + |data| - cap);
            && b.bytes == (buf + data)[drop..] && b.prevLen == Max(0, |buf| - drop)
            && (b.truncated <==> truncated || drop > 0)
  {
    assert (buf + data)[0..] == buf + data;
  }

  /** One chunk: searching the tail from the overlap finds exactly the marker
    * that a search of everything received so far finds. */
  lemma FreshScanIsComplete(seen: seq<Byte>, buf: seq<Byte>, data: seq<Byte>, cap: nat, truncated: bool, longest: int)
    requires Search(seen, 0).None? && Tail(buf, seen, cap, truncated)
    requires MarkersWithin(seen + data, longest) && 8 <= longest <= MARKER_OVERLAP + 1
    requires |data| + longest - 1 <= cap
    ensures var b := Absorb(buf, data, cap, truncated);
            var all := seen + data;
            var off := |all| - |b.bytes|;
            && Tail(b.bytes, all, cap, b.truncated)
            && b.bytes == all[off..]
            && ScanFrom(b.prevLen) <= |b.bytes|
            && (Search(all, 0).Some? ==> off <= Search(all, 0).value.start && off <= Search(all, 0).value.end)
            && Search(b.bytes, ScanFrom(b.prevLen)) == Shift(Search(all, 0), off)
  {
    hide Search, IsMarker, Absorb, IsSuffix;
    AbsorbKeepsTail(seen, buf, data, cap, truncated);
    var b := Absorb(buf, data, cap, truncated);
    var all := seen + data;
    var off := |all| - |b.bytes|;
    SearchIsLeftmost(seen, 0);
    forall i, j | MatchAt(all, i, j) ensures i >= off + ScanFrom(b.prevLen) {
      if j <= |seen| {
        MatchInPrefix(seen, data, i, j);
      }
      assert j - i <= longest;
    }
    SearchInTail(all, off, ScanFrom(b.prevLen));
  }

  lemma MarkersWithinPrefix(a: seq<Byte>, b: seq<Byte>, longest: int)
    requires MarkersWithin(a + b, longest)
    ensures MarkersWithin(a, longest)
  {
    forall i, j | MatchAt(a, i, j) ensures j - i <= longest {
      MatchInPrefix(a, b, i, j);
    }
  }

  /** One turn of the bounded reader against one turn of the reference reader. */
  ghost predicate TurnsAgree(fast: Step, whole: Step, cap: nat) {
    match (fast, whole)
    case (Stop(o), Stop(o')) => Agrees(o, o')
    case (Go(b, t), Go(all, _)) => Search(all, 0).None? && Tail(b, all, cap, t)
    case _ => false
  }

  function Grown(seen: seq<Byte>, turn: Turn): seq<Byte> {
    if turn.Chunk? then seen + turn.data else seen
  }

  /** The same marker, seen in the whole stream and in a tail of it, concludes the turn alike. */
  lemma ConcludeAgrees(all: seq<Byte>, found: Option<Match>, b: seq<Byte>, truncated: bool, cap: nat, graceOver: bool)
    requires Tail(b, all, cap, truncated) && found == Search(all, 0)
    requires var off := |all| - |b|;
             && (found.Some? ==> off <= found.value.start && off <= found.value.end)
             && (found.Some? ==> MatchAt(b, found.value.start - off, found.value.end - off))
    ensures TurnsAgree(Conclude(b, Shift(found, |all| - |b|), truncated, graceOver),
                       Conclude(all, found, false, graceOver), cap)
  {
    hide Search, MatchAt, Conclude, TurnsAgree, IsSuffix;
    if found.Some? {
      TailIs(b, all, cap, truncated);
      ConcludeFound(all, found.value, b, |all| - |b|, truncated, cap, graceOver);
    } else {
      ConcludeNothing(all, b, truncated, cap, graceOver);
    }
  }

  lemma TailIs(b: seq<Byte>, all: seq<Byte>, cap: nat, truncated: bool)
    requires Tail(b, all, cap, truncated)
    ensures b == all[|all| - |b|..] && (!truncated ==> b == all)
  {
  }

  lemma ConcludeNothing(all: seq<Byte>, b: seq<Byte>, truncated: bool, cap: nat, graceOver: bool)
    requires Tail(b, all, cap, truncated) && Search(all, 0).None?
    ensures TurnsAgree(Conclude(b, None, truncated, graceOver), Conclude(all, None, false, graceOver), cap)
  {
    hide Search, MatchAt;
  }

  lemma ConcludeFound(all: seq<Byte>, m: Match, b: seq<Byte>, off: nat, truncated: bool, cap: nat, graceOver: bool)
    requires off <= |all| && b == all[off..] && (!truncated ==> off == 0)
    requires off <= m.start && off <= m.end && MatchAt(all, m.start, m.end) && MatchAt(b, m.start - off, m.end - off)
    ensures TurnsAgree(Conclude(b, Some(Match(m.start - off, m.end - off)), truncated, graceOver),
                       Conclude(all, Some(m), false, graceOver), cap)
  {
    hide Search, IsMarker, ExitCode, Tail, IsSuffix;
    SameMarkerInTail(all, off, m);
    assert Agrees(Completed(b[..m.start - off], ExitCode(b[m.start - off..m.end - off]), truncated),
                  Completed(all[..m.start], ExitCode(all[m.start..m.end]), false));
  }

  lemma TurnRefines(seen: seq<Byte>, buf: seq<Byte>, truncated: bool, cap: nat, longest: int, turn: Turn)
    requires Search(seen, 0).None? && Tail(buf, seen, cap, truncated)
    requires turn.Chunk? ==> |turn.data| + longest - 1 <= cap && MarkersWithin(seen + turn.data, longest)
    requires 8 <= longest <= MARKER_OVERLAP + 1
    ensures TurnsAgree(BoundedTurn(buf, truncated, cap, turn), WholeTurn(seen, turn), cap)
    ensures WholeTurn(seen, turn).Go? ==> WholeTurn(seen, turn).bytes == Grown(seen, turn)
  {
    hide TurnsAgree, Tail, MarkersWithin, BoundedTurn, WholeTurn;
    if turn.Chunk? {
      ChunkRefines(seen, buf, truncated, cap, longest, turn);
    } else {
      QuietTurnRefines(seen, buf, truncated, cap, turn);
    }
  }

  lemma ChunkRefines(seen: seq<Byte>, buf: seq<Byte>, truncated: bool, cap: nat, longest: int, turn: Turn)
    requires turn.Chunk? && Search(seen, 0).None? && Tail(buf, seen, cap, truncated)
    requires |turn.data| + longest - 1 <= cap && MarkersWithin(seen + turn.data, longest)
    requires 8 <= longest <= MARKER_OVERLAP + 1
    ensures TurnsAgree(BoundedTurn(buf, truncated, cap, turn), WholeTurn(seen, turn), cap)
    ensures WholeTurn(seen, turn).Go? ==> WholeTurn(seen, turn).bytes == seen + turn.data
  {
    hide Search, IsMarker, Absorb, MarkersWithin, Tail, TurnsAgree;
    var all := seen + turn.data;
    FreshScanIsComplete(seen, buf, turn.data, cap, truncated, longest);
    var b := Absorb(buf, turn.data, cap, truncated);
    ConcludeAgrees(all, Search(all, 0), b.bytes, b.truncated, cap, turn.graceOver);
  }

  lemma QuietTurnRefines(seen: seq<Byte>, buf: seq<Byte>, truncated: bool, cap: nat, turn: Turn)
    requires !turn.Chunk? && Search(seen, 0).None? && Tail(buf, seen, cap, truncated)
    ensures TurnsAgree(BoundedTurn(buf, truncated, cap, turn), WholeTurn(seen, turn), cap)
    ensures WholeTurn(seen, turn).Go? ==> WholeTurn(seen, turn).bytes == seen
  {
    hide Search;
  }

  lemma TimedOutAgrees(seen: seq<Byte>, buf: seq<Byte>, cap: nat, truncated: bool)
    requires Tail(buf, seen, cap, truncated)
    ensures Agrees(TimedOut(buf, truncated), TimedOut(seen, false))
  {
  }

  lemma ReceivedGrows(seen: seq<Byte>, turns: seq<Turn>)
    requires turns != []
    ensures seen + Received(turns) == Grown(seen, turns[0]) + Received(turns[1..])
  {
    var data := if turns[0].Chunk? then turns[0].data else [];
    Regroup(seen, data, Received(turns[1..]));
    assert seen + [] == seen;
  }

  lemma Regroup(a: seq<Byte>, b: seq<Byte>, c: seq<Byte>)
    ensures a + (b + c) == (a + b) + c
  {
  }

  /** For reads of at most `chunk` bytes and a buffer that holds one more and a marker, the
    * bounded scan agrees with reading everything and searching all of it every time. */
  lemma {:induction false} BoundedReadRefines(seen: seq<Byte>, buf: seq<Byte>, truncated: bool, cap: nat,
                                              chunk: int, longest: int, turns: seq<Turn>)
    requires Search(seen, 0).None? && Tail(buf, seen, cap, truncated)
    requires Fits(turns, chunk) && MarkersWithin(seen + Received(turns), longest)
    requires 8 <= longest <= MARKER_OVERLAP + 1 && chunk + longest - 1 <= cap
    ensures Agrees(BoundedRead(buf, truncated, cap, turns), WholeRead(seen, turns))
    decreases |turns|
  {
    hide Search, WholeTurn, BoundedTurn, MarkersWithin, Agrees, Tail, Received;
    if turns == [] {
      TimedOutAgrees(seen, buf, cap, truncated);
    } else {
      var rest := turns[1..];
      var all := Grown(seen, turns[0]);
      ReceivedGrows(seen, turns);
      MarkersWithinPrefix(all, Received(rest), longest);
      TurnRefines(seen, buf, truncated, cap, longest, turns[0]);
      var fast := BoundedTurn(buf, truncated, cap, turns[0]);
      if fast.Go? {
        BoundedReadRefines(all, fast.bytes, fast.truncated, cap, chunk, longest, rest);
      }
    }
  }

  /** How many turns the loop takes before it stops. */
  function TurnsTaken(buf: seq<Byte>, truncated: bool, cap: nat, turns: seq<Turn>): (n: nat)
    ensures n <= |turns|
    decreases |turns|
  {
    if turns == [] then 0
    else match BoundedTurn(buf, truncated, cap, turns[0])
      case Stop(_) => 1
      case Go(b, t) => 1 + TurnsTaken(b, t, cap, turns[1..])
  }

  /** One turn keeps the buffer a tail, flagged exactly when something had to be dropped. */
  lemma TurnFlags(seen: seq<Byte>, buf: seq<Byte>, truncated: bool, cap: nat, turn: Turn)
    requires Tail(buf, seen, cap, truncated)
    ensures var step := BoundedTurn(buf, truncated, cap, turn);
            && (step.Go? ==> Tail(step.bytes, Grown(seen, turn), cap, step.truncated))
            && (step.Stop? && step.outcome.Completed? ==> (step.outcome.truncated <==> |Grown(seen, turn)| > cap))
            && !(step.Stop? && step.outcome.TimedOut?)
  {
    hide Search, IsMarker, ExitCode, IsSuffix;
    if turn.Chunk? {
      AbsorbKeepsTail(seen, buf, turn.data, cap, truncated);
    }
  }

  /** The output is flagged as truncated exactly when more was received, up to the turn at
    * which the loop stopped, than the buffer holds. */
  lemma {:induction false} FlagIsExact(seen: seq<Byte>, buf: seq<Byte>, truncated: bool, cap: nat, turns: seq<Turn>)
    requires Tail(buf, seen, cap, truncated)
    ensures var out := BoundedRead(buf, truncated, cap, turns);
            var n := TurnsTaken(buf, truncated, cap, turns);
            out.Completed? || out.TimedOut? ==> (out.truncated <==> |seen + Received(turns[..n])| > cap)
    decreases |turns|
  {
    hide BoundedTurn, Tail, Received;
    NothingReceived();
    if turns == [] {
      FlagOf(buf, seen, cap, truncated);
    } else {
      var rest := turns[1..];
      var step := BoundedTurn(buf, truncated, cap, turns[0]);
      var n := TurnsTaken(buf, truncated, cap, turns);
      TurnFlags(seen, buf, truncated, cap, turns[0]);
      ReceivedGrows(seen, turns[..n]);
      assert turns[..n][0] == turns[0] && turns[..n][1..] == rest[..n - 1];
      if step.Go? {
        FlagIsExact(Grown(seen, turns[0]), step.bytes, step.truncated, cap, rest);
      } else {
        assert rest[..0] == [];
      }
    }
  }

  lemma NothingReceived()
    ensures Received([]) == []
  {
  }

  lemma FlagOf(buf: seq<Byte>, seen: seq<Byte>, cap: nat, truncated: bool)
    requires Tail(buf, seen, cap, truncated)
    ensures truncated <==> |seen| > cap
  {
  }

  /** What fits in the buffer is read as if there were none: same verdict, code and output,
    * and no flag. */
  lemma WhatFitsIsWhole(turns: seq<Turn>, cap: nat)
    requires |Received(turns)| <= cap && MarkersWithin(Received(turns), MARKER_OVERLAP + 1)
    ensures BoundedRead([], false, cap, turns) == WholeRead([], turns)
  {
    hide Received, MarkersWithin, BoundedRead, WholeRead;
    assert [] + Received(turns) == Received(turns);
    assert Search([], 0).None?;
    FittingRead([], turns, cap);
  }

  lemma {:induction false} FittingRead(seen: seq<Byte>, turns: seq<Turn>, cap: nat)
    requires Search(seen, 0).None? && |seen + Received(turns)| <= cap
    requires MarkersWithin(seen + Received(turns), MARKER_OVERLAP + 1)
    ensures BoundedRead(seen, false, cap, turns) == WholeRead(seen, turns)
    decreases |turns|
  {
    hide Search, WholeTurn, BoundedTurn, MarkersWithin, Received;
    if turns != [] {
      var rest := turns[1..];
      var all := Grown(seen, turns[0]);
      ReceivedGrows(seen, turns);
      MarkersWithinPrefix(all, Received(rest), MARKER_OVERLAP + 1);
      FittingTurn(seen, turns[0], cap);
      if WholeTurn(seen, turns[0]).Go? {
        FittingRead(all, rest, cap);
      }
    }
  }

  lemma FittingTurn(seen: seq<Byte>, turn: Turn, cap: nat)
    requires Search(seen, 0).None? && |Grown(seen, turn)| <= cap && MarkersWithin(Grown(seen, turn), MARKER_OVERLAP + 1)
    ensures BoundedTurn(seen, false, cap, turn) == WholeTurn(seen, turn)
    ensures var step := WholeTurn(seen, turn);
            step.Go? ==> step.bytes == Grown(seen, turn) && !step.truncated && Search(Grown(seen, turn), 0).None?
  {
    hide Search, MatchAt, ExitCode;
    if turn.Chunk? {
      var all := seen + turn.data;
      SearchIsLeftmost(seen, 0);
      forall i, j | MatchAt(all, i, j) ensures i >= ScanFrom(|seen|) {
        MatchWithin(all, i, j);
        if j <= |seen| {
          MatchInPrefix(seen, turn.data, i, j);
        }
      }
      SearchInTail(all, 0, ScanFrom(|seen|));
      assert all[0..] == all;
    }
  }

  lemma MatchWithin(s: seq<Byte>, i: int, j: int)
    requires MatchAt(s, i, j)
    ensures 0 <= i <= j <= |s|
  {
  }

  lemma SameMarkerInTail(s: seq<Byte>, off: nat, m: Match)
    requires off <= m.start <= m.end <= |s|
    ensures s[off..][m.start - off..m.end - off] == s[m.start..m.end]
    ensures IsSuffix(s[off..][..m.start - off], s[..m.start])
    ensures off == 0 ==> s[off..][..m.start - off] == s[..m.start]
  {
  }

  /** The verdict of a single search of the whole stream. */
  function Verdict(stream: seq<Byte>): Outcome {
    match Search(stream, 0)
    case Some(m) => Completed(stream[..m.start], ExitCode(stream[m.start..m.end]), false)
    case None => TimedOut(stream, false)
  }

  lemma VerdictIsStable(a: seq<Byte>, b: seq<Byte>)
    requires Search(a, 0).Some?
    ensures Verdict(a + b) == Verdict(a)
  {
    SearchIsStable(a, b);
    var m := Search(a, 0).value;
    assert (a + b)[..m.start] == a[..m.start];
    assert (a + b)[m.start..m.end] == a[m.start..m.end];
  }

  /** However the stream is cut, the reference reader reports what a single
    * search of the whole stream reports. */
  lemma {:induction false} CutsDoNotMatter(seen: seq<Byte>, turns: seq<Turn>)
    requires Search(seen, 0).None?
    requires forall k :: 0 <= k < |turns| ==> !turns[k].Broken? && !turns[k].graceOver
    ensures WholeRead(seen, turns) == Verdict(seen + Received(turns))
    decreases |turns|
  {
    if turns == [] {
      assert seen + Received(turns) == seen;
    } else {
      var rest := turns[1..];
      var all := if turns[0].Chunk? then seen + turns[0].data else seen;
      assert seen + Received(turns) == all + Received(rest);
      if Search(all, 0).Some? {
        VerdictIsStable(all, Received(rest));
      } else {
        CutsDoNotMatter(all, rest);
      }
    }
  }

  // ---------------------------------------------------------------------
  // The exact capacity bound
  // ---------------------------------------------------------------------

  function Zeros(n: nat): (s: seq<Byte>)
    ensures |s| == n
  {
    seq(n, _ => 0x30)
  }

  /** A marker of a given length. */
  function MarkerOfLength(n: nat): (m: seq<Byte>)
    requires n == 8 || n >= 10
    ensures |m| == n && IsMarker(m)
  {
    if n == 8 then PREFIX + [BEL] else PREFIX + [SEMICOLON] + Zeros(n - 9) + [BEL]
  }

  /** The reader is right on every stream whose markers have at most `longest` bytes. */
  ghost predicate RightOnEveryCut(cap: nat, chunk: int, longest: nat) {
    forall turns :: Fits(turns, chunk) && MarkersWithin(Received(turns), longest) ==>
      Agrees(BoundedRead([], false, cap, turns), WholeRead([], turns))
  }

  /** The stream that defeats a reader whose limits are too small: a marker cut
    * just before its BEL, and as many more bytes as one read may bring. */
  function CutMarker(longest: nat, filler: nat): (turns: seq<Turn>)
    requires longest == 8 || longest >= 10
  {
    var m := MarkerOfLength(longest);
    [Chunk(m[..longest - 1], false), Chunk([BEL] + Zeros(filler), false)]
  }

  lemma CutMarkerStream(longest: nat, filler: nat)
    requires longest == 8 || longest >= 10
    ensures var turns := CutMarker(longest, filler);
            var s := Received(turns);
            && s == turns[0].data + turns[1].data
            && s == MarkerOfLength(longest) + Zeros(filler)
            && MatchAt(s, 0, longest)
            && (forall i, j :: MatchAt(s, i, j) ==> i == 0 && j == longest)
            && (forall i, j :: !MatchAt(turns[0].data, i, j))
  {
    var m := MarkerOfLength(longest);
    var turns := CutMarker(longest, filler);
    var s := turns[0].data + turns[1].data;
    assert Received(turns[1..]) == turns[1].data + Received(turns[1..][1..]);
    assert m[..longest - 1] + [BEL] == m;
    assert s == m + Zeros(filler);
    assert s[0..longest] == m;
    forall i, j | MatchAt(s, i, j) ensures i == 0 && j == longest {
      MatchBytes(s, i, j);
      MatchesAreDisjoint(s, 0, longest, i, j);
    }
    forall i, j ensures !MatchAt(turns[0].data, i, j) {
      MatchInPrefix(turns[0].data, turns[1].data, i, j);
    }
  }

  lemma WholeReadFindsCutMarker(longest: nat, filler: nat)
    requires longest == 8 || longest >= 10
    ensures WholeRead([], CutMarker(longest, filler)).Completed?
  {
    var turns := CutMarker(longest, filler);
    CutMarkerStream(longest, filler);
    SearchIsUnique(Received(turns), 0, Match(0, longest));
    CutsDoNotMatter([], turns);
    assert [] + Received(turns) == Received(turns);
  }

  /** A tail searched from beyond every match holds none. */
  lemma NothingInTail(s: seq<Byte>, off: nat, from: nat)
    requires off + from <= |s|
    requires forall i, j :: MatchAt(s, i, j) ==> i < off + from
    ensures Search(s[off..], from).None?
  {
    if Search(s[off..], from).Some? {
      var m := Search(s[off..], from).value;
      MatchInSuffix(s, off, m.start, m.end);
    }
  }

  /** A chunk after which no marker begins inside the searched part leaves the reader waiting. */
  lemma TurnMisses(seen: seq<Byte>, buf: seq<Byte>, truncated: bool, cap: nat, data: seq<Byte>)
    requires Tail(buf, seen, cap, truncated)
    requires var all := seen + data;
             forall i, j :: MatchAt(all, i, j) ==> i < Max(|all| - Min(cap, |all|), |seen| - MARKER_OVERLAP)
    ensures var r := BoundedTurn(buf, truncated, cap, Chunk(data, false));
            r.Go? && Tail(r.bytes, seen + data, cap, r.truncated)
  {
    hide Search, IsMarker, MatchAt, Absorb;
    var all := seen + data;
    AbsorbKeepsTail(seen, buf, data, cap, truncated);
    var b := Absorb(buf, data, cap, truncated);
    NothingInTail(all, |all| - |b.bytes|, ScanFrom(b.prevLen));
  }

  lemma BoundedReadMissesCutMarker(cap: nat, longest: nat, filler: nat)
    requires longest == 8 || longest >= 10
    requires cap < longest + filler || longest > MARKER_OVERLAP + 1
    ensures BoundedRead([], false, cap, CutMarker(longest, filler)).TimedOut?
  {
    hide Search, IsMarker, MatchAt, MarkerOfLength, Zeros, BoundedTurn, BoundedRead;
    var turns := CutMarker(longest, filler);
    CutMarkerStream(longest, filler);
    var first, second := turns[0], turns[1];
    assert [] + first.data == first.data;
    TurnMisses([], [], false, cap, first.data);
    var r := BoundedTurn([], false, cap, first);
    TurnMisses(first.data, r.bytes, r.truncated, cap, second.data);
    assert turns == [first, second];
    BothTurnsMiss(cap, first, second);
  }

  lemma BothTurnsMiss(cap: nat, first: Turn, second: Turn)
    requires var r := BoundedTurn([], false, cap, first); r.Go? && BoundedTurn(r.bytes, r.truncated, cap, second).Go?
    ensures BoundedRead([], false, cap, [first, second]).TimedOut?
  {
    hide BoundedTurn;
    var r := BoundedTurn([], false, cap, first);
    assert [first, second][1..] == [second];
    assert [second][1..] == [];
    assert BoundedRead(r.bytes, r.truncated, cap, [second]).TimedOut?;
  }

  /** Exactly when the bounded reader is right: the longest marker fits in the
    * overlap plus one fresh byte, and the buffer holds a full read after all but
    * one byte of a marker. */
  lemma CapacityIsExact(cap: nat, chunk: int, longest: nat)
    requires longest == 8 || longest >= 10
    requires chunk >= longest - 1
    ensures RightOnEveryCut(cap, chunk, longest) <==> longest <= MARKER_OVERLAP + 1 && cap >= chunk + longest - 1
  {
    assert Search([], 0).None?;
    hide Search, IsMarker, MatchAt, BoundedTurn, WholeTurn;
    if longest <= MARKER_OVERLAP + 1 && cap >= chunk + longest - 1 {
      forall turns | Fits(turns, chunk) && MarkersWithin(Received(turns), longest)
        ensures Agrees(BoundedRead([], false, cap, turns), WholeRead([], turns))
      {
        assert [] + Received(turns) == Received(turns);
        BoundedReadRefines([], [], false, cap, chunk, longest, turns);
      }
    } else {
      var filler := chunk - 1;
      var turns := CutMarker(longest, filler);
      CutMarkerStream(longest, filler);
      WholeReadFindsCutMarker(longest, filler);
      BoundedReadMissesCutMarker(cap, longest, filler);
      assert Fits(turns, chunk);
      assert MarkersWithin(Received(turns), longest);
    }
  }

  /** With the shipped limits every marker of up to 65 bytes is found; bash writes at most 12. */
  lemma DefaultsAreRight(longest: nat)
    requires 10 <= longest <= MARKER_OVERLAP + 1
    ensures RightOnEveryCut(DEFAULT_MAX_OUTPUT, READ_CHUNK, longest)
  {
    CapacityIsExact(DEFAULT_MAX_OUTPUT, READ_CHUNK, longest);
  }
}
