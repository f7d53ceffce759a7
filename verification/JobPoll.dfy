/** `JobManager.poll` as a reader: a chunk of the output file, decoded up to a character. */
module JobPoll {
  import opened Base
  import opened Utf8

  /** One poll, as the remote script saw the job: the size it measured, the cap the
    * caller asked for, and whether the status it led to is terminal. */
  datatype Observation = Observation(size: nat, maxBytes: int, terminal: bool)

  datatype Reply = Reply(text: seq<Scalar>, next: nat, more: bool)

  /** Room for one character of four octets. */
  function CapOf(maxBytes: int): nat { Max(4, maxBytes) }

  /** `tail -c +$((off+1)) | head -c "$N"`, with N the size measured minus the offset,
    * kept between zero and the cap. */
  function Chunk(file: seq<Byte>, off: nat, size: nat, cap: nat): seq<Byte> {
    if off >= |file| then [] else file[off..Min(|file|, off + Max(0, Min(size - off, cap)))]
  }

  /** The flush: nothing more will come, so what does not decode is escaped. */
  predicate Flushes(file: seq<Byte>, off: nat, o: Observation) {
    var raw := Chunk(file, off, o.size, CapOf(o.maxBytes));
    TrimFrom(raw, 0).consumed < |raw| && o.terminal && off + |raw| >= o.size
  }

  function PollReply(file: seq<Byte>, off: nat, o: Observation): Reply {
    var raw := Chunk(file, off, o.size, CapOf(o.maxBytes));
    var piece := if Flushes(file, off, o) then Piece(DecodeLossy(raw), |raw|) else TrimFrom(raw, 0);
    Reply(piece.text, off + piece.consumed, off + piece.consumed < o.size)
  }

  /** `poll` without the tail option, between the remote command and the commit. */
  method Poll(file: seq<Byte>, since: int, o: Observation) returns (reply: Reply)
    ensures reply == PollReply(file, Max(0, since), o)
  {
    var off := Max(0, since);
    var cap := Max(4, o.maxBytes);
    var raw := Chunk(file, off, o.size, cap);
    var text, consumed := DecodeIncremental(raw);
    var next := off + consumed;
    var atEof := off + |raw| >= o.size;
    if consumed < |raw| && o.terminal && atEof {
      text := DecodeLossy(raw);
      next := off + |raw|;
    }
    reply := Reply(text, next, next < o.size);
  }

  /** A poll is sent what lies between its offset and the size measured, as far as the number
    * of octets asked for goes; fewer than four, which might be part of a character, count
    * as four. */
  lemma SentExactly(file: seq<Byte>, off: nat, o: Observation)
    requires off <= o.size <= |file|
    ensures var raw := Chunk(file, off, o.size, CapOf(o.maxBytes));
            var most := if o.maxBytes < 4 then 4 else o.maxBytes;
            && off + |raw| <= o.size && raw == file[off..off + |raw|]
            && |raw| <= most && (|raw| == most || off + |raw| == o.size)
  {
  }

  /** A poll says that there is more exactly when it has not passed all that was measured. */
  lemma MoreExactly(file: seq<Byte>, off: nat, o: Observation)
    ensures var r := PollReply(file, off, o); r.more <==> r.next < o.size
  {
    hide TrimFrom, DecodeLossy, Chunk;
  }

  // ---------------------------------------------------------------------
  // Polling a file of well-formed UTF-8
  // ---------------------------------------------------------------------

  lemma ChunkIs(file: seq<Byte>, off: nat, size: nat, cap: nat)
    requires off <= |file| && size <= |file|
    ensures var raw := Chunk(file, off, size, cap);
            && off + |raw| <= |file|
            && raw == file[off..off + |raw|]
            && |raw| == Max(0, Min(size - off, cap))
  {
  }

  /** `off` octets of the file are whole characters. */
  predicate OnBoundary(file: seq<Byte>, off: nat) { off <= |file| && WellFormed(file[..off]) }

  /** The octets `a..b` are whole characters, namely `text`. */
  predicate DecodesTo(file: seq<Byte>, a: nat, b: nat, text: seq<Scalar>) {
    a <= b <= |file| && Decode(file[a..b]) == Some(text)
  }

  lemma RestWellFormed(file: seq<Byte>, off: nat)
    requires WellFormed(file) && OnBoundary(file, off)
    ensures WellFormed(file[off..])
  {
    assert file == file[..off] + file[off..];
    DecodeJoin(file[..off], file[off..]);
  }

  lemma BoundaryWithin(file: seq<Byte>, off: nat, k: nat)
    requires OnBoundary(file, off) && off + k <= |file|
    ensures OnBoundary(file, off + k) <==> WellFormed(file[off..off + k])
  {
    assert file[..off + k] == file[..off] + file[off..off + k];
    DecodeJoin(file[..off], file[off..off + k]);
  }

  /** How much of the octets after a boundary the decoder takes. */
  lemma TrimDecodes(file: seq<Byte>, off: nat, n: nat)
    requires WellFormed(file) && OnBoundary(file, off) && off + n <= |file|
    ensures var piece := TrimFrom(file[off..off + n], 0);
            && piece.consumed <= n
            && DecodesTo(file, off, off + piece.consumed, piece.text)
            && WellFormed(file[off..off + piece.consumed])
            && (piece.consumed == n <==> WellFormed(file[off..off + n]))
  {
    hide TrimFrom, OnBoundary, Decode;
    var rest := file[off..];
    RestWellFormed(file, off);
    DecodesWholeCharacters(rest, n);
    var c := TrimFrom(rest[..n], 0).consumed;
    assert file[off..off + n] == rest[..n];
    assert file[off..off + c] == rest[..c];
  }

  lemma TrimBoundary(file: seq<Byte>, off: nat, n: nat)
    requires WellFormed(file) && OnBoundary(file, off) && off + n <= |file|
    ensures var piece := TrimFrom(file[off..off + n], 0);
            && piece.consumed <= n
            && OnBoundary(file, off + piece.consumed)
            && (OnBoundary(file, off + n) <==> piece.consumed == n)
  {
    hide TrimFrom, WellFormed, DecodesTo;
    TrimDecodes(file, off, n);
    var c := TrimFrom(file[off..off + n], 0).consumed;
    BoundaryWithin(file, off, n);
    BoundaryWithin(file, off, c);
  }

  /** A poll's answer in terms of the stretch of the file it read. */
  lemma ReplyIs(file: seq<Byte>, off: nat, o: Observation) returns (n: nat)
    requires off <= |file| && o.size <= |file|
    ensures off + n <= |file| && n == Max(0, Min(o.size - off, CapOf(o.maxBytes)))
    ensures var piece := TrimFrom(file[off..off + n], 0);
            var r := PollReply(file, off, o);
            && (Flushes(file, off, o) <==> piece.consumed < n && o.terminal && off + n >= o.size)
            && (Flushes(file, off, o) ==> r.next == off + n && r.text == DecodeLossy(file[off..off + n]))
            && (!Flushes(file, off, o) ==> r.next == off + piece.consumed && r.text == piece.text)
            && (r.more <==> r.next < o.size)
  {
    ChunkIs(file, off, o.size, CapOf(o.maxBytes));
    n := |Chunk(file, off, o.size, CapOf(o.maxBytes))|;
    hide TrimFrom, DecodeLossy, Chunk, CapOf;
  }

  /** One poll of what will become `file`, of which only `o.size` octets may be there
    * yet: without a flush it returns whole characters. */
  lemma PollDecodes(file: seq<Byte>, off: nat, o: Observation)
    requires WellFormed(file) && OnBoundary(file, off) && o.size <= |file| && !Flushes(file, off, o)
    ensures DecodesTo(file, off, PollReply(file, off, o).next, PollReply(file, off, o).text)
  {
    hide PollReply, Flushes, TrimFrom, WellFormed, DecodesTo, Min, Max, CapOf;
    var n := ReplyIs(file, off, o);
    TrimDecodes(file, off, n);
  }

  /** And exactly without a flush it stops on a boundary. */
  lemma PollBoundary(file: seq<Byte>, off: nat, o: Observation)
    requires WellFormed(file) && OnBoundary(file, off) && o.size <= |file|
    ensures off <= PollReply(file, off, o).next <= |file|
    ensures OnBoundary(file, PollReply(file, off, o).next) <==> !Flushes(file, off, o)
  {
    hide PollReply, Flushes, TrimFrom, WellFormed, Min, Max, CapOf;
    var n := ReplyIs(file, off, o);
    TrimBoundary(file, off, n);
  }

  /** A flush happens when the size measured cuts a character and the poll reaches it. */
  lemma FlushExactly(file: seq<Byte>, off: nat, o: Observation)
    requires WellFormed(file) && OnBoundary(file, off) && o.size <= |file|
    ensures Flushes(file, off, o) <==>
            o.terminal && off < o.size <= off + CapOf(o.maxBytes) && !OnBoundary(file, o.size)
  {
    hide PollReply, Flushes, TrimFrom, WellFormed;
    var n := ReplyIs(file, off, o);
    TrimBoundary(file, off, n);
  }

  /** Polls chained by `since = new_offset`: where they end up. */
  function After(file: seq<Byte>, off: nat, polls: seq<Observation>): nat
    decreases |polls|
  {
    if polls == [] then off else After(file, PollReply(file, off, polls[0]).next, polls[1..])
  }

  /** The chunks they returned, put together. */
  function Delivered(file: seq<Byte>, off: nat, polls: seq<Observation>): seq<Scalar>
    decreases |polls|
  {
    if polls == [] then []
    else
      var r := PollReply(file, off, polls[0]);
      r.text + Delivered(file, r.next, polls[1..])
  }

  predicate EveryOffsetOnBoundary(file: seq<Byte>, off: nat, polls: seq<Observation>)
    decreases |polls|
  {
    && OnBoundary(file, off)
    && (polls != [] ==> EveryOffsetOnBoundary(file, PollReply(file, off, polls[0]).next, polls[1..]))
  }

  /** No poll that finds the job ended has measured a size that cuts a character within its reach. */
  predicate NeverCutsAtTheEnd(file: seq<Byte>, off: nat, polls: seq<Observation>)
    decreases |polls|
  {
    polls != [] ==>
      var o := polls[0];
      && !(o.terminal && off < o.size <= off + CapOf(o.maxBytes) && !OnBoundary(file, o.size))
      && NeverCutsAtTheEnd(file, PollReply(file, off, o).next, polls[1..])
  }

  predicate Within(file: seq<Byte>, polls: seq<Observation>) {
    forall k :: 0 <= k < |polls| ==> polls[k].size <= |file|
  }

  /** Chained polls return the decoding of what they passed over and stop on character
    * boundaries, whatever the sizes measured and the caps; exactly unless a poll that
    * finds the job ended has measured a size that cuts a character. */
  lemma {:induction false} ChainedPollsDecode(file: seq<Byte>, off: nat, polls: seq<Observation>)
    requires WellFormed(file) && OnBoundary(file, off) && Within(file, polls)
    ensures EveryOffsetOnBoundary(file, off, polls) <==> NeverCutsAtTheEnd(file, off, polls)
    ensures NeverCutsAtTheEnd(file, off, polls) ==>
              var end := After(file, off, polls);
              OnBoundary(file, end) && DecodesTo(file, off, end, Delivered(file, off, polls))
    decreases |polls|
  {
    if polls == [] {
      assert file[off..off] == [];
    } else {
      var r := PollReply(file, off, polls[0]);
      PollBoundary(file, off, polls[0]);
      FlushExactly(file, off, polls[0]);
      if OnBoundary(file, r.next) {
        PollDecodes(file, off, polls[0]);
        hide PollReply, WellFormed, Flushes, OnBoundary, DecodesTo;
        ChainedPollsDecode(file, r.next, polls[1..]);
        if NeverCutsAtTheEnd(file, off, polls) {
          DecodedInTwo(file, off, r.next, After(file, off, polls), r.text, Delivered(file, r.next, polls[1..]));
        }
      }
    }
  }

  lemma DecodedInTwo(file: seq<Byte>, a: nat, b: nat, c: nat, first: seq<Scalar>, second: seq<Scalar>)
    requires DecodesTo(file, a, b, first) && DecodesTo(file, b, c, second)
    ensures DecodesTo(file, a, c, first + second)
  {
    assert file[a..c] == file[a..b] + file[b..c];
    DecodeJoin(file[a..b], file[b..c]);
  }

  /** Polls that reach the end of the output have returned all of it. */
  lemma WholeOutputDelivered(file: seq<Byte>, polls: seq<Observation>)
    requires WellFormed(file) && Within(file, polls) && NeverCutsAtTheEnd(file, 0, polls)
    requires After(file, 0, polls) == |file|
    ensures Delivered(file, 0, polls) == Decode(file).value
  {
    assert file[..0] == [] && file[0..|file|] == file;
    ChainedPollsDecode(file, 0, polls);
  }

  /** When the job is only found ended once its output is complete, nothing is cut. */
  lemma {:induction false} CompleteOutputIsNeverCut(file: seq<Byte>, off: nat, polls: seq<Observation>)
    requires WellFormed(file)
    requires forall k :: 0 <= k < |polls| && polls[k].terminal ==> polls[k].size == |file|
    ensures NeverCutsAtTheEnd(file, off, polls)
    decreases |polls|
  {
    if polls != [] {
      assert file[..|file|] == file;
      CompleteOutputIsNeverCut(file, PollReply(file, off, polls[0]).next, polls[1..]);
    }
  }

  /** The size is measured before the process is probed. A job that writes the second
    * octet of a character and dies in between gets that character escaped. */
  lemma SizeProbeRace(maxBytes: int)
    ensures var file: seq<Byte> := [0xC3, 0xA9];
            var polls := [Observation(1, maxBytes, true), Observation(2, maxBytes, true)];
            && Decode(file) == Some([0xE9])
            && Delivered(file, 0, polls) == Escape(0xC3) + Escape(0xA9)
            && After(file, 0, polls) == 2
  {
    var file: seq<Byte> := [0xC3, 0xA9];
    var first, second := Observation(1, maxBytes, true), Observation(2, maxBytes, true);
    DecodeEncoded([0xE9]);
    assert EncodeAll([0xE9]) == file;
    LoneOctet(0xC3);
    LoneOctet(0xA9);
    assert Chunk(file, 0, 1, CapOf(maxBytes)) == [0xC3];
    assert Chunk(file, 1, 2, CapOf(maxBytes)) == [0xA9];
    assert PollReply(file, 0, first) == Reply(Escape(0xC3), 1, false);
    assert PollReply(file, 1, second) == Reply(Escape(0xA9), 2, false);
    hide PollReply, Decode;
    assert [first, second][1..] == [second] && [second][1..] == [];
    assert Delivered(file, 1, [second]) == Escape(0xA9) + Delivered(file, 2, []);
    assert After(file, 1, [second]) == After(file, 2, []) == 2;
  }

  lemma LoneOctet(b: Byte)
    requires b >= 0x80
    ensures !WellFormed([b]) && TrimFrom([b], 0) == Piece([], 0) && DecodeLossy([b]) == Escape(b)
  {
    assert [b][..1] == [b] && [b][..0] == [];
    assert FirstLength([b]) == 0;
    assert TrimFrom([b], 1) == Piece([], 0);
    assert [b][1..] == [];
  }

  // ---------------------------------------------------------------------
  // Draining a finished job
  // ---------------------------------------------------------------------

  /** With the job ended and its output frozen, every poll short of the end advances. */
  lemma DrainStep(file: seq<Byte>, off: nat, maxBytes: int)
    requires off <= |file|
    ensures var r := PollReply(file, off, Observation(|file|, maxBytes, true));
            && off <= r.next <= |file|
            && (off < |file| ==> off < r.next)
            && (r.more <==> r.next < |file|)
  {
    hide PollReply, Flushes, TrimFrom, DecodeLossy;
    var n := ReplyIs(file, off, Observation(|file|, maxBytes, true));
    TrimsAtMostThree(file[off..off + n]);
  }

  lemma DrainText(file: seq<Byte>, off: nat, o: Observation)
    requires off <= |file| && o.size <= |file|
    ensures var r := PollReply(file, off, o);
            off <= r.next <= |file| && r.text == DecodeLossy(file[off..r.next])
  {
    hide PollReply, Flushes, TrimFrom, DecodeLossy, Min, Max, CapOf;
    var n := ReplyIs(file, off, o);
    var raw := file[off..off + n];
    TrimsAtMostThree(raw);
    var c := TrimFrom(raw, 0).consumed;
    assert raw[..c] == file[off..off + c];
  }

  datatype Range = Range(from: nat, to: nat, text: seq<Scalar>)

  /** `while more: poll(since=new_offset)`, one cap per call. */
  function Drain(file: seq<Byte>, off: nat, caps: seq<int>): seq<Range>
    decreases |caps|
  {
    if caps == [] then []
    else
      var r := PollReply(file, off, Observation(|file|, caps[0], true));
      [Range(off, r.next, r.text)] + if r.more then Drain(file, r.next, caps[1..]) else []
  }

  /** The ranges cover the file from `off` to its end once, each decoded on its own. */
  predicate Tiles(ranges: seq<Range>, file: seq<Byte>, off: nat)
    decreases |ranges|
  {
    if ranges == [] then off == |file|
    else
      && ranges[0].from == off <= ranges[0].to <= |file|
      && ranges[0].text == DecodeLossy(file[off..ranges[0].to])
      && Tiles(ranges[1..], file, ranges[0].to)
  }

  /** The loop ends after at most one poll per octet, for any octets whatever. */
  lemma {:induction false} DrainReachesTheEnd(file: seq<Byte>, off: nat, caps: seq<int>)
    requires off <= |file| && |caps| >= Max(1, |file| - off)
    ensures Tiles(Drain(file, off, caps), file, off)
    decreases |caps|
  {
    var r := PollReply(file, off, Observation(|file|, caps[0], true));
    DrainStep(file, off, caps[0]);
    DrainText(file, off, Observation(|file|, caps[0], true));
    var first := Range(off, r.next, r.text);
    hide PollReply, DecodeLossy;
    if r.more {
      DrainReachesTheEnd(file, r.next, caps[1..]);
      assert ([first] + Drain(file, r.next, caps[1..]))[1..] == Drain(file, r.next, caps[1..]);
    } else {
      assert Drain(file, off, caps) == [first];
    }
  }

  /** In output that is not UTF-8 the promise is weaker: an invalid octet in a chunk
    * makes the character cut at the end of that chunk come out escaped too. */
  lemma InvalidOctetSpreads()
    ensures var file: seq<Byte> := [0xFF, 0x41, 0x41, 0xC3, 0xA9];
            && DecodeLossy(file) == Escape(0xFF) + [0x41, 0x41, 0xE9]
            && Drain(file, 0, [4, 4]) == [Range(0, 4, Escape(0xFF) + [0x41, 0x41] + Escape(0xC3)), Range(4, 5, Escape(0xA9))]
  {
    var file: seq<Byte> := [0xFF, 0x41, 0x41, 0xC3, 0xA9];
    InvalidOctetWhole();
    InvalidOctetFirst();
    LoneOctet(0xA9);
    assert file[0..4] == [0xFF, 0x41, 0x41, 0xC3] && file[4..5] == [0xA9];
    hide TrimFrom, DecodeLossy;
    assert PollReply(file, 0, Observation(5, 4, true)).next == 4;
    assert PollReply(file, 4, Observation(5, 4, true)) == Reply(Escape(0xA9), 5, false);
    hide PollReply;
    assert [4, 4][1..] == [4];
    assert Drain(file, 4, [4]) == [Range(4, 5, Escape(0xA9))];
  }

  lemma InvalidOctetWhole()
    ensures DecodeLossy([0xFF, 0x41, 0x41, 0xC3, 0xA9]) == Escape(0xFF) + [0x41, 0x41, 0xE9]
  {
    hide DecodeLossy, Decode;
    LossyAfter(0xFF, [0x41, 0x41, 0xC3, 0xA9]);
    LossyAfter(0x41, [0x41, 0xC3, 0xA9]);
    LossyAfter(0x41, [0xC3, 0xA9]);
    assert [0xFF] + [0x41, 0x41, 0xC3, 0xA9] == [0xFF, 0x41, 0x41, 0xC3, 0xA9];
    assert [0x41] + [0x41, 0xC3, 0xA9] == [0x41, 0x41, 0xC3, 0xA9] && [0x41] + [0xC3, 0xA9] == [0x41, 0xC3, 0xA9];
    DecodeEncoded([0xE9]);
    assert EncodeAll([0xE9]) == [0xC3, 0xA9];
    LossyIsDecode([0xC3, 0xA9]);
  }

  lemma InvalidOctetFirst()
    ensures TrimFrom([0xFF, 0x41, 0x41, 0xC3], 0) == Piece(Escape(0xFF) + [0x41, 0x41] + Escape(0xC3), 4)
  {
    hide TrimFrom, DecodeLossy;
    LossyAfter(0xFF, [0x41, 0x41, 0xC3]);
    LossyAfter(0x41, [0x41, 0xC3]);
    LossyAfter(0x41, [0xC3]);
    assert [0xFF] + [0x41, 0x41, 0xC3] == [0xFF, 0x41, 0x41, 0xC3];
    assert [0x41] + [0x41, 0xC3] == [0x41, 0x41, 0xC3] && [0x41] + [0xC3] == [0x41, 0xC3];
    LoneOctet(0xC3);
    NothingDecodes([0xFF, 0x41, 0x41, 0xC3], 0);
  }

  lemma LossyAfter(b: Byte, rest: seq<Byte>)
    requires b < 0x80 || b > 0xF4
    ensures DecodeLossy([b] + rest) == (if b < 0x80 then [b] else Escape(b)) + DecodeLossy(rest)
  {
    assert ([b] + rest)[..1] == [b] && ([b] + rest)[1..] == rest;
  }

  lemma {:induction false} NothingDecodes(raw: seq<Byte>, trim: nat)
    requires trim <= 4 <= |raw| && raw[0] > 0xF4
    ensures TrimFrom(raw, trim) == Piece(DecodeLossy(raw), |raw|)
    decreases 4 - trim
  {
    if trim < 4 {
      assert raw[..|raw| - trim][0] == raw[0];
      NothingDecodes(raw, trim + 1);
    }
  }
}
