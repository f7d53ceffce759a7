/** Draining output that need not be UTF-8: when cutting it into polls changes the text. */
module LossyDrain {
  import opened Base
  import opened Utf8
  import opened JobPoll

  /** How far the lossy parse moves: over one character, or over one octet to escape. */
  function StepLength(s: seq<Byte>): (n: nat)
    requires s != []
    ensures 0 < n <= |s|
  {
    if FirstLength(s) == 0 then 1 else FirstLength(s)
  }

  /** The lossy parse stops at `p`: it is not inside a character. */
  predicate LossyBoundary(s: seq<Byte>, p: nat)
    decreases |s|
  {
    p == 0 || (s != [] && StepLength(s) <= p && LossyBoundary(s[StepLength(s)..], p - StepLength(s)))
  }

  lemma CharOctets(c: seq<Byte>)
    requires IsChar(c)
    ensures Announced(c[0]) == |c| && forall k :: 1 <= k < |c| ==> IsTail(c[k])
  {
  }

  /** A prefix that holds the first step takes the same first step. */
  lemma SameFirstStep(s: seq<Byte>, p: nat)
    requires s != [] && StepLength(s) <= p <= |s|
    ensures FirstLength(s[..p]) == FirstLength(s)
  {
    hide IsChar;
    if FirstLength(s) > 0 {
      assert s[..p][..FirstLength(s)] == s[..FirstLength(s)];
    } else if 0 < Announced(s[0]) <= p {
      assert s[..p][..Announced(s[0])] == s[..Announced(s[0])];
    }
  }

  lemma BoundaryStep(s: seq<Byte>, p: nat)
    ensures LossyBoundary(s, 0)
    ensures p > 0 && s != [] ==>
              var n := StepLength(s); LossyBoundary(s, p) <==> n <= p && LossyBoundary(s[n..], p - n)
    ensures p > 0 && s == [] ==> !LossyBoundary(s, p)
  {
    hide StepLength;
  }

  lemma {:induction false} BoundariesAdd(s: seq<Byte>, p: nat, q: nat)
    requires p <= |s| && LossyBoundary(s, p)
    ensures LossyBoundary(s, p + q) <==> LossyBoundary(s[p..], q)
    decreases |s|
  {
    hide StepLength, LossyBoundary;
    if p == 0 {
      assert s[0..] == s;
    } else {
      BoundaryStep(s, p);
      BoundaryStep(s, p + q);
      var n := StepLength(s);
      assert s[n..][p - n..] == s[p..];
      BoundariesAdd(s[n..], p - n, q);
    }
  }

  /** Cutting between steps changes nothing. */
  lemma {:induction false} LossySplit(s: seq<Byte>, p: nat)
    requires p <= |s| && LossyBoundary(s, p)
    ensures DecodeLossy(s) == DecodeLossy(s[..p]) + DecodeLossy(s[p..])
    decreases |s|
  {
    hide FirstLength, StepLength, DecodeLossy, Taken;
    if p == 0 {
      NothingDecoded();
      assert s[0..] == s && s[..0] == [];
    } else {
      var n := StepLength(s);
      SameFirstStep(s, p);
      SameStep(s, p);
      LossySplit(s[n..], p - n);
      FirstStepLossy(s);
      FirstStepLossy(s[..p]);
      assert s[..p][n..] == s[n..][..p - n] && s[n..][p - n..] == s[p..];
      assert s[..p][..n] == s[..n];
    }
  }

  /** What the first step contributes. */
  function Taken(head: seq<Byte>): seq<Scalar>
    requires head != []
  {
    if IsChar(head) then [Value(head)] else Escape(head[0])
  }

  lemma FirstStepLossy(s: seq<Byte>)
    requires s != []
    ensures DecodeLossy(s) == Taken(s[..StepLength(s)]) + DecodeLossy(s[StepLength(s)..])
  {
    hide Value;
    assert IsChar(s[..1]) ==> Announced(s[0]) == 1;
  }

  /** Octets that start no character are escaped one by one. */
  lemma {:induction false} TailsEscaped(t: seq<Byte>, rest: seq<Byte>)
    requires forall k :: 0 <= k < |t| ==> IsTail(t[k])
    ensures |DecodeLossy(t + rest)| == 4 * |t| + |DecodeLossy(rest)|
    decreases |t|
  {
    hide IsChar, Value;
    if t == [] {
      assert t + rest == rest;
    } else {
      assert (t + rest)[0] == t[0] && (t + rest)[1..] == t[1..] + rest;
      TailsEscaped(t[1..], rest);
    }
  }

  /** A character cut in two: every octet of it is escaped. */
  lemma CutCharacter(c: seq<Byte>, p: nat, rest: seq<Byte>)
    requires IsChar(c) && 0 < p < |c|
    ensures |DecodeLossy(c[..p])| == 4 * p && |DecodeLossy(c[p..] + rest)| == 4 * (|c| - p) + |DecodeLossy(rest)|
  {
    CharOctets(c);
    hide IsChar, Value;
    TailsEscaped(c[p..], rest);
    TailsEscaped(c[..p][1..], []);
    assert c[..p][1..] + [] == c[..p][1..];
    assert FirstLength(c[..p]) == 0;
  }

  /** Cutting inside a character makes the text longer, cutting between steps does not. */
  lemma {:induction false} CutsLengthen(s: seq<Byte>, p: nat)
    requires p <= |s|
    ensures |DecodeLossy(s[..p])| + |DecodeLossy(s[p..])| >= |DecodeLossy(s)|
    ensures !LossyBoundary(s, p) ==> |DecodeLossy(s[..p])| + |DecodeLossy(s[p..])| > |DecodeLossy(s)|
    decreases |s|
  {
    hide IsChar, Value, FirstLength, DecodeLossy;
    if LossyBoundary(s, p) {
      LossySplit(s, p);
    } else {
      var n := StepLength(s);
      FirstStepLossy(s);
      if p < n {
        StepIsChar(s);
        var c, rest := s[..n], s[n..];
        CutCharacter(c, p, rest);
        assert s[..p] == c[..p] && s[p..] == c[p..] + rest;
      } else {
        SameFirstStep(s, p);
        SameStep(s, p);
        FirstStepLossy(s[..p]);
        CutsLengthen(s[n..], p - n);
        assert s[..p][n..] == s[n..][..p - n] && s[n..][p - n..] == s[p..] && s[..p][..n] == s[..n];
      }
    }
  }

  lemma StepIsChar(s: seq<Byte>)
    requires s != [] && StepLength(s) > 1
    ensures IsChar(s[..StepLength(s)]) && |Taken(s[..StepLength(s)])| == 1
  {
    hide IsChar, Value;
  }

  lemma SameStep(s: seq<Byte>, p: nat)
    requires s != [] && StepLength(s) <= p <= |s| && FirstLength(s[..p]) == FirstLength(s)
    ensures StepLength(s[..p]) == StepLength(s)
  {
  }

  // ---------------------------------------------------------------------
  // The drained text
  // ---------------------------------------------------------------------

  function TextOf(ranges: seq<Range>): seq<Scalar> {
    if ranges == [] then [] else ranges[0].text + TextOf(ranges[1..])
  }

  /** No range ends inside a character of what starts at `off`. */
  predicate CutsNoCharacter(ranges: seq<Range>, file: seq<Byte>, off: nat)
    requires off <= |file|
  {
    forall r :: r in ranges ==> EndsBetween(r, file, off)
  }

  predicate EndsBetween(r: Range, file: seq<Byte>, off: nat)
    requires off <= |file|
  {
    off <= r.to && LossyBoundary(file[off..], r.to - off)
  }

  lemma {:induction false} TiledText(ranges: seq<Range>, file: seq<Byte>, off: nat)
    requires off <= |file| && Tiles(ranges, file, off)
    ensures |TextOf(ranges)| >= |DecodeLossy(file[off..])|
    ensures TextOf(ranges) == DecodeLossy(file[off..]) <==> CutsNoCharacter(ranges, file, off)
    decreases |ranges|
  {
    hide DecodeLossy, LossyBoundary;
    if ranges == [] {
      NothingDecoded();
    } else {
      var t, rest := ranges[0].to, ranges[1..];
      var s, p := file[off..], ranges[0].to - off;
      TiledText(rest, file, t);
      CutsLengthen(s, p);
      assert s[..p] == file[off..t] && s[p..] == file[t..];
      if LossyBoundary(s, p) {
        LossySplit(s, p);
        RangesAfter(ranges, file, off);
        PrefixCancels(DecodeLossy(s[..p]), TextOf(rest), DecodeLossy(s[p..]));
      } else {
        assert ranges[0] in ranges && !EndsBetween(ranges[0], file, off);
      }
    }
  }

  lemma NothingDecoded()
    ensures DecodeLossy([]) == []
  {
  }

  lemma PrefixCancels<T>(a: seq<T>, b: seq<T>, c: seq<T>)
    ensures a + b == a + c <==> b == c
  {
    assert (a + b)[|a|..] == b && (a + c)[|a|..] == c;
  }

  lemma {:induction false} RangesAscend(ranges: seq<Range>, file: seq<Byte>, off: nat, k: nat)
    requires off <= |file| && Tiles(ranges, file, off) && k < |ranges|
    ensures off <= ranges[k].to <= |file|
    decreases |ranges|
  {
    if k > 0 {
      RangesAscend(ranges[1..], file, ranges[0].to, k - 1);
    }
  }

  lemma RangesAfter(ranges: seq<Range>, file: seq<Byte>, off: nat)
    requires off <= |file| && ranges != [] && Tiles(ranges, file, off)
    requires LossyBoundary(file[off..], ranges[0].to - off)
    ensures CutsNoCharacter(ranges, file, off) <==> CutsNoCharacter(ranges[1..], file, ranges[0].to)
  {
    hide LossyBoundary, DecodeLossy, EndsBetween;
    var t, rest := ranges[0].to, ranges[1..];
    assert ranges == [ranges[0]] + rest;
    assert EndsBetween(ranges[0], file, off) by {
      FirstEnds(ranges[0], file, off);
    }
    forall r | r in rest ensures EndsBetween(r, file, off) <==> EndsBetween(r, file, t) {
      BoundaryMoves(ranges, file, off, r);
    }
  }

  lemma FirstEnds(r: Range, file: seq<Byte>, off: nat)
    requires off <= |file| && off <= r.to && LossyBoundary(file[off..], r.to - off)
    ensures EndsBetween(r, file, off)
  {
  }

  lemma BoundaryMoves(ranges: seq<Range>, file: seq<Byte>, off: nat, r: Range)
    requires off <= |file| && ranges != [] && r in ranges[1..] && Tiles(ranges, file, off)
    requires LossyBoundary(file[off..], ranges[0].to - off)
    ensures EndsBetween(r, file, off) <==> EndsBetween(r, file, ranges[0].to)
  {
    hide LossyBoundary, DecodeLossy;
    var s, t, rest := file[off..], ranges[0].to, ranges[1..];
    assert s[t - off..] == file[t..];
    var k :| 0 <= k < |rest| && rest[k] == r;
    RangesAscend(rest, file, t, k);
    BoundariesAdd(s, t - off, r.to - t);
  }

  // ---------------------------------------------------------------------
  // Which polls cut a character, known beforehand
  // ---------------------------------------------------------------------

  /** The octets a poll at `off` is sent, when the output is frozen. */
  function Sent(file: seq<Byte>, off: nat, maxBytes: int): seq<Byte>
    requires off <= |file|
  {
    file[off..off + Min(|file| - off, CapOf(maxBytes))]
  }

  /** The longest well-formed prefix that leaves at most three octets, or all. */
  function WholeCharacters(raw: seq<Byte>, trim: nat): (e: nat)
    ensures e <= |raw|
    decreases 4 - trim
  {
    if trim > Min(3, |raw|) then |raw|
    else if WellFormed(raw[..|raw| - trim]) then |raw| - trim
    else WholeCharacters(raw, trim + 1)
  }

  function EndOfPoll(file: seq<Byte>, off: nat, maxBytes: int): (e: nat)
    requires off <= |file|
    ensures off <= e <= |file|
  {
    var raw := Sent(file, off, maxBytes);
    if off + |raw| == |file| then |file| else off + WholeCharacters(raw, 0)
  }

  /** What is sent ends inside a character, and no prefix of it that leaves at most three
    * octets is well-formed. */
  predicate CutsCharacter(file: seq<Byte>, off: nat, maxBytes: int)
    requires off <= |file|
  {
    var raw := Sent(file, off, maxBytes);
    && !LossyBoundary(file[off..], |raw|)
    && forall e: nat :: |raw| - 3 <= e <= |raw| ==> !WellFormed(raw[..e])
  }

  /** No poll of the loop cuts a character. */
  predicate NoneCuts(file: seq<Byte>, off: nat, caps: seq<int>)
    requires off <= |file|
    decreases |caps|
  {
    caps != [] ==>
      && !CutsCharacter(file, off, caps[0])
      && var e := EndOfPoll(file, off, caps[0]);
         e < |file| ==> NoneCuts(file, e, caps[1..])
  }

  lemma {:induction false} TakesWholeCharacters(raw: seq<Byte>, trim: nat)
    ensures TrimFrom(raw, trim).consumed == WholeCharacters(raw, trim)
    decreases 4 - trim
  {
    hide DecodeLossy, Decode;
    if trim <= Min(3, |raw|) && !WellFormed(raw[..|raw| - trim]) {
      TakesWholeCharacters(raw, trim + 1);
    }
  }

  lemma PollEnds(file: seq<Byte>, off: nat, maxBytes: int)
    requires off <= |file|
    ensures PollReply(file, off, Observation(|file|, maxBytes, true)).next == EndOfPoll(file, off, maxBytes)
  {
    hide TrimFrom, DecodeLossy, WholeCharacters, WellFormed;
    ChunkIs(file, off, |file|, CapOf(maxBytes));
    TakesWholeCharacters(Sent(file, off, maxBytes), 0);
  }

  /** Where the decoder stops is inside a character exactly when all was taken although it
    * ends inside one. */
  lemma {:induction false} StopsExactly(s: seq<Byte>, n: nat, trim: nat)
    requires n <= |s| && trim <= Min(3, n) + 1
    requires forall e: nat :: n - trim < e <= n ==> !WellFormed(s[..n][..e])
    ensures LossyBoundary(s, WholeCharacters(s[..n], trim)) <==>
            LossyBoundary(s, n) || exists e: nat :: n - 3 <= e <= n && WellFormed(s[..n][..e])
    decreases 4 - trim
  {
    hide LossyBoundary, WellFormed;
    var raw := s[..n];
    if trim <= Min(3, n) {
      if WellFormed(raw[..n - trim]) {
        assert raw[..n - trim] == s[..n - trim];
        WellFormedBoundary(s, n - trim);
      } else {
        StopsExactly(s, n, trim + 1);
      }
    }
  }

  lemma {:induction false} WellFormedBoundary(s: seq<Byte>, e: nat)
    requires e <= |s| && WellFormed(s[..e])
    ensures LossyBoundary(s, e)
    decreases e
  {
    hide IsChar, Value;
    if e > 0 {
      var n := FirstLength(s[..e]);
      assert s[..e] == s[..n] + s[n..e] && s == s[..n] + s[n..];
      assert s[..e][..n] == s[..n] && s[..e][n..] == s[n..][..e - n];
      FirstLengthOf(s[..n], s[n..]);
      WellFormedBoundary(s[n..], e - n);
    }
  }

  lemma {:induction false} EndIsBoundary(s: seq<Byte>)
    ensures LossyBoundary(s, |s|)
    decreases |s|
  {
    hide StepLength;
    if s != [] {
      EndIsBoundary(s[StepLength(s)..]);
    }
  }

  /** With frozen output, a poll from between two characters ends inside one exactly when it
    * `CutsCharacter`: file, offset and cap decide. */
  lemma PollCutsExactly(file: seq<Byte>, off: nat, maxBytes: int)
    requires off <= |file| && LossyBoundary(file, off)
    ensures var next := PollReply(file, off, Observation(|file|, maxBytes, true)).next;
            !LossyBoundary(file, next) <==> CutsCharacter(file, off, maxBytes)
  {
    hide LossyBoundary, PollReply, EndOfPoll, CutsCharacter;
    PollEnds(file, off, maxBytes);
    var e := EndOfPoll(file, off, maxBytes);
    BoundariesAdd(file, off, e - off);
    EndCutsExactly(file, off, maxBytes);
  }

  lemma EndCutsExactly(file: seq<Byte>, off: nat, maxBytes: int)
    requires off <= |file|
    ensures !LossyBoundary(file[off..], EndOfPoll(file, off, maxBytes) - off) <==> CutsCharacter(file, off, maxBytes)
  {
    hide LossyBoundary, WellFormed, WholeCharacters;
    var s, raw := file[off..], Sent(file, off, maxBytes);
    assert s[..|raw|] == raw;
    StopsExactly(s, |raw|, 0);
    EndIsBoundary(s);
  }

  lemma {:induction false} DrainCutsExactly(file: seq<Byte>, off: nat, caps: seq<int>)
    requires off <= |file| && |caps| >= Max(1, |file| - off)
    ensures CutsNoCharacter(Drain(file, off, caps), file, off) <==> NoneCuts(file, off, caps)
    decreases |caps|
  {
    hide LossyBoundary, PollReply, EndOfPoll, CutsCharacter, EndsBetween, Tiles;
    var ranges := Drain(file, off, caps);
    var o := Observation(|file|, caps[0], true);
    PollEnds(file, off, caps[0]);
    EndCutsExactly(file, off, caps[0]);
    DrainReachesTheEnd(file, off, caps);
    DrainStep(file, off, caps[0]);
    FirstRange(file, off, caps);
    if CutsCharacter(file, off, caps[0]) {
      assert ranges[0] in ranges;
    } else {
      RangesAfter(ranges, file, off);
      if ranges[0].to < |file| {
        DrainCutsExactly(file, ranges[0].to, caps[1..]);
      }
    }
  }

  lemma FirstRange(file: seq<Byte>, off: nat, caps: seq<int>)
    requires off <= |file| && caps != []
    ensures var r := PollReply(file, off, Observation(|file|, caps[0], true));
            var ranges := Drain(file, off, caps);
            && ranges != [] && ranges[0].to == r.next
            && ranges[1..] == if r.more then Drain(file, r.next, caps[1..]) else []
    ensures forall r: Range :: EndsBetween(r, file, off) <==> off <= r.to && LossyBoundary(file[off..], r.to - off)
  {
    hide PollReply, LossyBoundary;
  }

  /** Polls of frozen output of any octets together return what decoding the whole file would
    * exactly when none of them cuts a character; otherwise they return more, the pieces of
    * that character being escaped. */
  lemma DrainedTextExactly(file: seq<Byte>, caps: seq<int>)
    requires |caps| >= Max(1, |file|)
    ensures TextOf(Drain(file, 0, caps)) == DecodeLossy(file) <==> NoneCuts(file, 0, caps)
    ensures |TextOf(Drain(file, 0, caps))| >= |DecodeLossy(file)|
  {
    hide Drain, TextOf, LossyBoundary, DecodeLossy, NoneCuts, CutsNoCharacter;
    DrainReachesTheEnd(file, 0, caps);
    assert file[0..] == file;
    TiledText(Drain(file, 0, caps), file, 0);
    DrainCutsExactly(file, 0, caps);
  }
}
