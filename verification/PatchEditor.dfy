/** `remote_patch`: hash-guarded line patches, applied bottom to top in place. */
module PatchEditor {
  import opened Base
  import opened TextLines

  /** SHA-256, taken as injective: the digest of a text is the text, wrapped. */
  datatype Digest = Sha256(text: string)

  /** `start` and `end` are 1-based and inclusive, a missing `end` means end of
    * file, a missing `rangeHash` is the empty string of the original. */
  datatype Patch = Patch(start: int, end: Option<int>, contents: string, rangeHash: Option<Digest>)

  datatype Reason = EmptyList | FileChanged | BadStart | Overlap | BeyondEof | RangeChanged

  datatype Outcome = Patched(text: string) | Rejected(reason: Reason)

  // ---------------------------------------------------------------------
  // Python's list operations
  // ---------------------------------------------------------------------

  function Cut(n: nat, i: nat): nat { Min(i, n) }

  /** `xs[s:e]` */
  function Slice<T>(xs: seq<T>, s: nat, e: nat): seq<T> {
    if Cut(|xs|, s) <= Cut(|xs|, e) then xs[Cut(|xs|, s)..Cut(|xs|, e)] else []
  }

  /** `xs[s:e] = ys`: an end before the start inserts at the start. */
  function SliceAssign<T>(xs: seq<T>, s: nat, e: nat, ys: seq<T>): seq<T> {
    xs[..Cut(|xs|, s)] + ys + xs[Max(Cut(|xs|, s), Cut(|xs|, e))..]
  }

  /** Stable sort by start, largest first. */
  function InsertDown(p: Patch, ps: seq<Patch>): seq<Patch> {
    if ps == [] || p.start >= ps[0].start then [p] + ps else [ps[0]] + InsertDown(p, ps[1..])
  }

  function SortDown(ps: seq<Patch>): seq<Patch> {
    if ps == [] then [] else InsertDown(ps[0], SortDown(ps[1..]))
  }

  predicate IsDown(ps: seq<Patch>) {
    forall i, j :: 0 <= i < j < |ps| ==> ps[i].start >= ps[j].start
  }

  // ---------------------------------------------------------------------
  // The steps of remote_patch
  // ---------------------------------------------------------------------

  /** The 0-based start of a patch, and its end clamped into the file. */
  function From(p: Patch): nat
    requires p.start >= 1
  {
    p.start - 1
  }

  function To(p: Patch, total: nat): nat {
    match p.end case None => total case Some(e) => Max(0, Min(total, e))
  }

  /** The end the overlap test uses: not clamped to the file. */
  function LooseTo(p: Patch, total: nat): nat {
    match p.end case None => total case Some(e) => Max(0, e)
  }

  predicate Overlaps(ps: seq<Patch>, total: nat) {
    exists i :: 0 <= i < |ps| - 1 && LooseTo(ps[i + 1], total) > ps[i].start - 1
  }

  /** The contents actually inserted. */
  function Effective(p: Patch, replaced: string, autoNewline: bool): string {
    if autoNewline && p.contents != "" && !EndsInLf(p.contents) && EndsInLf(replaced) then p.contents + [LF]
    else p.contents
  }

  function Replaced(lines: seq<string>, p: Patch): string
    requires p.start >= 1
  {
    Concat(Slice(lines, From(p), To(p, |lines|)))
  }

  function NewText(lines: seq<string>, p: Patch, autoNewline: bool): string
    requires p.start >= 1
  {
    Effective(p, Replaced(lines, p), autoNewline)
  }

  /** The check made just before a patch is applied. */
  function Refusal(lines: seq<string>, p: Patch): Option<Reason>
    requires p.start >= 1
  {
    if From(p) > |lines| then Some(BeyondEof)
    else if p.rangeHash.Some? && p.rangeHash.value != Sha256(Replaced(lines, p)) then Some(RangeChanged)
    else None
  }

  predicate Positive(ps: seq<Patch>) { forall k :: 0 <= k < |ps| ==> ps[k].start >= 1 }

  /** The lines after applying the first patches of a list, one after the other. */
  function ApplyDown(lines: seq<string>, ps: seq<Patch>, autoNewline: bool): seq<string>
    requires Positive(ps)
  {
    if ps == [] then lines
    else
      var p := ps[|ps| - 1];
      SliceAssign(ApplyDown(lines, ps[..|ps| - 1], autoNewline), From(p), To(p, |lines|),
                  SplitUniversal(NewText(lines, p, autoNewline)))
  }

  function FirstRefusal(lines: seq<string>, ps: seq<Patch>): Option<Reason>
    requires Positive(ps)
  {
    if ps == [] then None
    else if Refusal(lines, ps[0]).Some? then Refusal(lines, ps[0])
    else FirstRefusal(lines, ps[1..])
  }

  function Applied(lines: seq<string>, sorted: seq<Patch>, autoNewline: bool): Outcome
    requires Positive(sorted)
  {
    match FirstRefusal(lines, sorted)
    case Some(reason) => Rejected(reason)
    case None => Patched(Concat(ApplyDown(lines, sorted, autoNewline)))
  }

  function PatchSpec(full: string, fileHash: Digest, patches: seq<Patch>, autoNewline: bool): Outcome {
    if patches == [] then Rejected(EmptyList)
    else if Sha256(full) != fileHash then Rejected(FileChanged)
    else if !Positive(patches) then Rejected(BadStart)
    else if Overlaps(SortDown(patches), |SplitLf(full)|) then Rejected(Overlap)
    else
      SortKeepsPositive(patches);
      Applied(SplitLf(full), SortDown(patches), autoNewline)
  }

  lemma SortKeepsPositive(ps: seq<Patch>)
    ensures Positive(ps) <==> Positive(SortDown(ps))
  {
    SortKeepsPatches(ps);
    assert forall k :: 0 <= k < |ps| ==> ps[k] in SortDown(ps);
    assert forall k :: 0 <= k < |SortDown(ps)| ==> SortDown(ps)[k] in ps;
  }

  lemma {:induction false} SortKeepsPatches(ps: seq<Patch>)
    ensures multiset(SortDown(ps)) == multiset(ps) && IsDown(SortDown(ps))
    ensures forall p :: p in SortDown(ps) <==> p in ps
  {
    if ps != [] {
      assert ps == [ps[0]] + ps[1..];
      SortKeepsPatches(ps[1..]);
      InsertKeepsPatches(ps[0], SortDown(ps[1..]));
      InsertKeepsOrder(ps[0], SortDown(ps[1..]));
    }
  }

  lemma {:induction false} InsertKeepsPatches(p: Patch, ps: seq<Patch>)
    ensures multiset(InsertDown(p, ps)) == multiset(ps) + multiset{p}
    ensures forall q :: q in InsertDown(p, ps) <==> q == p || q in ps
  {
    if ps != [] && p.start < ps[0].start {
      assert ps == [ps[0]] + ps[1..];
      InsertKeepsPatches(p, ps[1..]);
    }
  }

  lemma {:induction false} InsertKeepsOrder(p: Patch, ps: seq<Patch>)
    requires IsDown(ps)
    ensures IsDown(InsertDown(p, ps))
  {
    if ps != [] && p.start < ps[0].start {
      var rest := InsertDown(p, ps[1..]);
      InsertKeepsOrder(p, ps[1..]);
      InsertKeepsPatches(p, ps[1..]);
      assert forall q :: q in rest ==> q.start <= ps[0].start;
      assert forall j :: 0 <= j < |rest| ==> rest[j] in rest;
      DownAfter(ps[0], rest);
    } else {
      DownAfter(p, ps);
    }
  }

  lemma DownAfter(p: Patch, ps: seq<Patch>)
    requires IsDown(ps) && forall j :: 0 <= j < |ps| ==> ps[j].start <= p.start
    ensures IsDown([p] + ps)
  {
    var all := [p] + ps;
    assert forall j :: 0 < j < |all| ==> all[j] == ps[j - 1];
  }

  /** Patches with equal starts keep their order. */
  lemma {:induction false} SortIsStable(ps: seq<Patch>, start: int)
    ensures StartingAt(SortDown(ps), start) == StartingAt(ps, start)
  {
    if ps != [] {
      SortIsStable(ps[1..], start);
      InsertIsStable(ps[0], SortDown(ps[1..]), start);
    }
  }

  function StartingAt(ps: seq<Patch>, start: int): seq<Patch> {
    if ps == [] then []
    else if ps[0].start == start then [ps[0]] + StartingAt(ps[1..], start)
    else StartingAt(ps[1..], start)
  }

  lemma StartingAfter(p: Patch, ps: seq<Patch>, start: int)
    ensures StartingAt([p] + ps, start) == if p.start == start then [p] + StartingAt(ps, start) else StartingAt(ps, start)
  {
    assert ([p] + ps)[1..] == ps;
  }

  lemma {:induction false} InsertIsStable(p: Patch, ps: seq<Patch>, start: int)
    ensures StartingAt(InsertDown(p, ps), start) ==
            if p.start == start then [p] + StartingAt(ps, start) else StartingAt(ps, start)
  {
    hide StartingAt;
    if ps != [] && p.start < ps[0].start {
      assert ps == [ps[0]] + ps[1..];
      StartingAfter(ps[0], ps[1..], start);
      StartingAfter(ps[0], InsertDown(p, ps[1..]), start);
      InsertIsStable(p, ps[1..], start);
    } else {
      StartingAfter(p, ps, start);
    }
  }

  method AllPositive(patches: seq<Patch>) returns (ok: bool)
    ensures ok == Positive(patches)
  {
    for i := 0 to |patches|
      invariant forall k :: 0 <= k < i ==> patches[k].start >= 1
    {
      if patches[i].start < 1 {
        return false;
      }
    }
    return true;
  }

  method DetectOverlap(parsed: seq<Patch>, total: nat) returns (found: bool)
    ensures found == Overlaps(parsed, total)
  {
    for i := 0 to |parsed|
      invariant forall k :: 0 <= k < i && k < |parsed| - 1 ==> LooseTo(parsed[k + 1], total) <= parsed[k].start - 1
    {
      if i < |parsed| - 1 && LooseTo(parsed[i + 1], total) > parsed[i].start - 1 {
        return true;
      }
    }
    return false;
  }

  /** The application loop: `new_lines` starts as the original lines. */
  method ApplyPatches(lines: seq<string>, parsed: seq<Patch>, autoNewline: bool) returns (out: Outcome)
    requires Positive(parsed)
    ensures out == Applied(lines, parsed, autoNewline)
  {
    var newLines := lines;
    for i := 0 to |parsed|
      invariant newLines == ApplyDown(lines, parsed[..i], autoNewline)
      invariant FirstRefusal(lines, parsed[i..]) == FirstRefusal(lines, parsed)
    {
      var p := parsed[i];
      assert parsed[i..][1..] == parsed[i + 1..];
      assert parsed[..i + 1][..i] == parsed[..i];
      var sIdx, eIdx := From(p), To(p, |lines|);
      if sIdx > |lines| {
        return Rejected(BeyondEof);
      }
      var existing := Concat(Slice(lines, sIdx, eIdx));
      if p.rangeHash.Some? && Sha256(existing) != p.rangeHash.value {
        return Rejected(RangeChanged);
      }
      newLines := SliceAssign(newLines, sIdx, eIdx, SplitUniversal(Effective(p, existing, autoNewline)));
    }
    assert parsed[..|parsed|] == parsed;
    return Patched(Concat(newLines));
  }

  /** `remote_patch` between the read and the write. */
  method RemotePatch(full: string, fileHash: Digest, patches: seq<Patch>, autoNewline: bool) returns (out: Outcome)
    ensures out == PatchSpec(full, fileHash, patches, autoNewline)
  {
    if patches == [] {
      return Rejected(EmptyList);
    }
    if Sha256(full) != fileHash {
      return Rejected(FileChanged);
    }
    var lines := SplitLf(full);
    var ok := AllPositive(patches);
    if !ok {
      return Rejected(BadStart);
    }
    var parsed := SortDown(patches);
    SortKeepsPositive(patches);
    var overlap := DetectOverlap(parsed, |lines|);
    if overlap {
      return Rejected(Overlap);
    }
    out := ApplyPatches(lines, parsed, autoNewline);
  }

  // ---------------------------------------------------------------------
  // Successive slice assignments are one simultaneous splice
  // ---------------------------------------------------------------------

  /** A replacement of the original lines `from..to` (an insertion when equal). */
  datatype Edit = Edit(from: nat, to: nat, lines: seq<string>)

  /** The splice read off the original top to bottom: what lies between two
    * edits is copied, what an edit covers is left out. */
  function Weave(lines: seq<string>, edits: seq<Edit>, at: nat): seq<string>
    requires InOrder(edits, at, |lines|)
    decreases |edits|
  {
    if edits == [] then lines[at..]
    else lines[at..edits[0].from] + edits[0].lines + Weave(lines, edits[1..], edits[0].to)
  }

  predicate InOrder(edits: seq<Edit>, at: nat, total: nat)
    decreases |edits|
  {
    if edits == [] then at <= total
    else at <= edits[0].from <= edits[0].to <= total && InOrder(edits[1..], edits[0].to, total)
  }

  function EditOf(lines: seq<string>, p: Patch, autoNewline: bool): Edit
    requires p.start >= 1
  {
    Edit(From(p), Max(From(p), To(p, |lines|)), SplitUniversal(NewText(lines, p, autoNewline)))
  }

  /** The edits of patches sorted largest start first, in file order. */
  function Ascending(lines: seq<string>, ps: seq<Patch>, autoNewline: bool): seq<Edit>
    requires Positive(ps)
  {
    if ps == [] then []
    else [EditOf(lines, ps[|ps| - 1], autoNewline)] + Ascending(lines, ps[..|ps| - 1], autoNewline)
  }

  /** Where the lowest patch so far begins; nothing above it has been touched. */
  function Untouched(lines: seq<string>, ps: seq<Patch>): nat
    requires Positive(ps)
  {
    if ps == [] then |lines| else From(ps[|ps| - 1])
  }

  /** The patches that reach the application loop's end. */
  ghost predicate Accepted(lines: seq<string>, ps: seq<Patch>) {
    && Positive(ps) && IsDown(ps) && !Overlaps(ps, |lines|)
    && forall k :: 0 <= k < |ps| ==> From(ps[k]) <= |lines|
  }

  lemma AcceptedPrefix(lines: seq<string>, ps: seq<Patch>)
    requires Accepted(lines, ps) && ps != []
    ensures Accepted(lines, ps[..|ps| - 1])
    ensures var p := ps[|ps| - 1];
            var b := Untouched(lines, ps[..|ps| - 1]);
            From(p) <= b && Max(From(p), To(p, |lines|)) <= b <= |lines|
  {
    var qs := ps[..|ps| - 1];
    assert forall i :: 0 <= i < |qs| ==> qs[i] == ps[i];
    if qs != [] {
      assert !(LooseTo(ps[|ps| - 2 + 1], |lines|) > ps[|ps| - 2].start - 1);
    }
  }

  /** What the loop has produced, and that the part still to be patched is the original. */
  lemma {:induction false} ApplyIsWeave(lines: seq<string>, ps: seq<Patch>, autoNewline: bool)
    requires Accepted(lines, ps)
    ensures var b := Untouched(lines, ps);
            var edits := Ascending(lines, ps, autoNewline);
            && b <= |lines| && InOrder(edits, b, |lines|)
            && ApplyDown(lines, ps, autoNewline) == lines[..b] + Weave(lines, edits, b)
    decreases |ps|
  {
    if ps != [] {
      var qs, p := ps[..|ps| - 1], ps[|ps| - 1];
      AcceptedPrefix(lines, ps);
      ApplyIsWeave(lines, qs, autoNewline);
      var b := Untouched(lines, qs);
      var edits := Ascending(lines, qs, autoNewline);
      var e := EditOf(lines, p, autoNewline);
      assert Ascending(lines, ps, autoNewline) == [e] + edits;
      assert ApplyDown(lines, ps, autoNewline)
          == SliceAssign(lines[..b] + Weave(lines, edits, b), From(p), To(p, |lines|), e.lines);
      hide ApplyDown, Ascending, SliceAssign, SplitUniversal, Accepted;
      WeaveOneMore(lines, e, edits, b);
      AssignBelow(lines, b, Weave(lines, edits, b), From(p), To(p, |lines|), e.lines);
    } else {
      assert lines == lines[..|lines|] + lines[|lines|..];
    }
  }

  lemma WeaveOneMore(lines: seq<string>, e: Edit, edits: seq<Edit>, b: nat)
    requires e.from <= e.to <= b && InOrder(edits, b, |lines|)
    ensures InOrder([e] + edits, e.from, |lines|) && b <= |lines|
    ensures Weave(lines, [e] + edits, e.from) == e.lines + (lines[e.to..b] + Weave(lines, edits, b))
  {
    WeaveFromEarlier(lines, edits, e.to, b);
    assert ([e] + edits)[1..] == edits;
  }

  lemma WeaveFromEarlier(lines: seq<string>, edits: seq<Edit>, at: nat, b: nat)
    requires at <= b && InOrder(edits, b, |lines|)
    ensures InOrder(edits, at, |lines|) && b <= |lines|
    ensures Weave(lines, edits, at) == lines[at..b] + Weave(lines, edits, b)
  {
    InOrderBound(edits, b, |lines|);
    if edits == [] {
      assert lines[at..] == lines[at..b] + lines[b..];
    } else {
      InOrderBound(edits[1..], edits[0].to, |lines|);
      Regroup(lines, at, b, edits[0].from, edits[0].lines, Weave(lines, edits[1..], edits[0].to));
    }
  }

  lemma Regroup<T>(lines: seq<T>, at: nat, b: nat, f: nat, mid: seq<T>, tail: seq<T>)
    requires at <= b <= f <= |lines|
    ensures lines[at..f] + mid + tail == lines[at..b] + (lines[b..f] + mid + tail)
  {
    assert lines[at..f] == lines[at..b] + lines[b..f];
  }

  lemma InOrderBound(edits: seq<Edit>, at: nat, total: nat)
    requires InOrder(edits, at, total)
    ensures at <= total
  {
  }

  /** A slice assignment that stays within the untouched part. */
  lemma AssignBelow(lines: seq<string>, b: nat, tail: seq<string>, s: nat, e: nat, ys: seq<string>)
    requires s <= b <= |lines| && e <= b
    ensures SliceAssign(lines[..b] + tail, s, e, ys) == lines[..s] + (ys + (lines[Max(s, e)..b] + tail))
    ensures Slice(lines[..b] + tail, s, e) == Slice(lines, s, e)
  {
    var xs := lines[..b] + tail;
    assert xs[..s] == lines[..s];
    assert xs[Max(s, e)..] == lines[Max(s, e)..b] + tail;
  }

  /** Applying the sorted patches one by one is the simultaneous splice. */
  lemma PatchingIsSimultaneous(lines: seq<string>, ps: seq<Patch>, autoNewline: bool)
    requires Accepted(lines, ps)
    ensures var edits := Ascending(lines, ps, autoNewline);
            InOrder(edits, 0, |lines|) && ApplyDown(lines, ps, autoNewline) == Weave(lines, edits, 0)
  {
    ApplyIsWeave(lines, ps, autoNewline);
    var edits, b := Ascending(lines, ps, autoNewline), Untouched(lines, ps);
    WeaveFromEarlier(lines, edits, 0, b);
    assert lines[0..b] == lines[..b];
  }

  /** The range hash, taken from the original lines, covers what is really replaced. */
  lemma HashedIsReplaced(lines: seq<string>, ps: seq<Patch>, autoNewline: bool, k: nat)
    requires Accepted(lines, ps) && k < |ps|
    ensures Positive(ps[..k])
    ensures var now := ApplyDown(lines, ps[..k], autoNewline);
            Slice(now, From(ps[k]), To(ps[k], |lines|)) == Slice(lines, From(ps[k]), To(ps[k], |lines|))
  {
    AcceptedUpTo(lines, ps, k + 1);
    assert ps[..k + 1][..k] == ps[..k];
    AcceptedPrefix(lines, ps[..k + 1]);
    ApplyIsWeave(lines, ps[..k], autoNewline);
    var b := Untouched(lines, ps[..k]);
    AssignBelow(lines, b, Weave(lines, Ascending(lines, ps[..k], autoNewline), b), From(ps[k]), To(ps[k], |lines|), []);
  }

  lemma AcceptedUpTo(lines: seq<string>, ps: seq<Patch>, k: nat)
    requires Accepted(lines, ps) && k <= |ps|
    ensures Accepted(lines, ps[..k])
  {
    var qs := ps[..k];
    assert forall i :: 0 <= i < |qs| ==> qs[i] == ps[i];
    forall i | 0 <= i < |qs| - 1 ensures LooseTo(qs[i + 1], |lines|) <= qs[i].start - 1 {
      assert !(LooseTo(ps[i + 1], |lines|) > ps[i].start - 1);
    }
  }

  // ---------------------------------------------------------------------
  // What is accepted
  // ---------------------------------------------------------------------

  /** Of two patches, the one given first counts as the upper one on equal starts. */
  predicate Compatible(p: Patch, q: Patch, total: nat) {
    if p.start >= q.start then LooseTo(q, total) <= p.start - 1 else LooseTo(p, total) <= q.start - 1
  }

  predicate AllCompatible(ps: seq<Patch>, total: nat) {
    forall i, j :: 0 <= i < j < |ps| ==> Compatible(ps[i], ps[j], total)
  }

  lemma {:induction false} NeighboursSuffice(ps: seq<Patch>, total: nat)
    requires IsDown(ps)
    ensures Overlaps(ps, total) <==> !AllCompatible(ps, total)
  {
    if !Overlaps(ps, total) {
      forall i, j | 0 <= i < j < |ps| ensures Compatible(ps[i], ps[j], total) {
        assert LooseTo(ps[j - 1 + 1], total) <= ps[j - 1].start - 1;
      }
    }
  }

  /** The overlap test looks at neighbours of the sorted list only, and decides all
    * pairs of the list as it was given. */
  lemma OverlapIsPairwise(ps: seq<Patch>, total: nat)
    ensures Overlaps(SortDown(ps), total) <==> !AllCompatible(ps, total)
  {
    SortKeepsPatches(ps);
    NeighboursSuffice(SortDown(ps), total);
    SortKeepsCompatible(ps, total);
  }

  lemma {:induction false} SortKeepsCompatible(ps: seq<Patch>, total: nat)
    ensures AllCompatible(SortDown(ps), total) <==> AllCompatible(ps, total)
  {
    if ps != [] {
      var rest := SortDown(ps[1..]);
      SortKeepsCompatible(ps[1..], total);
      SortKeepsPatches(ps[1..]);
      InsertCompatible(ps[0], rest, total);
      CompatibleWithFirst(ps[0], ps[1..], total);
      assert ps == [ps[0]] + ps[1..];
      assert (forall q :: q in rest ==> Compatible(ps[0], q, total))
        <==> (forall q :: q in ps[1..] ==> Compatible(ps[0], q, total));
    }
  }

  lemma CompatibleWithFirst(p: Patch, ps: seq<Patch>, total: nat)
    ensures AllCompatible([p] + ps, total) <==>
            AllCompatible(ps, total) && forall q :: q in ps ==> Compatible(p, q, total)
  {
    var all := [p] + ps;
    assert forall j :: 0 < j < |all| ==> all[j] == ps[j - 1];
    assert forall j :: 0 <= j < |ps| ==> ps[j] == all[j + 1];
    if AllCompatible(all, total) {
      forall i, j | 0 <= i < j < |ps| ensures Compatible(ps[i], ps[j], total) {
        assert Compatible(all[i + 1], all[j + 1], total);
      }
      forall q | q in ps ensures Compatible(p, q, total) {
        var j :| 0 <= j < |ps| && ps[j] == q;
        assert Compatible(all[0], all[j + 1], total);
      }
    }
  }

  lemma {:induction false} InsertCompatible(p: Patch, ps: seq<Patch>, total: nat)
    requires IsDown(ps)
    ensures AllCompatible(InsertDown(p, ps), total) <==>
            AllCompatible(ps, total) && forall q :: q in ps ==> Compatible(p, q, total)
  {
    if ps != [] && p.start < ps[0].start {
      var rest := ps[1..];
      InsertCompatible(p, rest, total);
      InsertKeepsPatches(p, rest);
      CompatibleWithFirst(ps[0], InsertDown(p, rest), total);
      CompatibleWithFirst(ps[0], rest, total);
      assert ps == [ps[0]] + rest;
      assert Compatible(ps[0], p, total) <==> Compatible(p, ps[0], total);
      assert forall q :: q in ps <==> q == ps[0] || q in rest;
    } else {
      CompatibleWithFirst(p, ps, total);
    }
  }

  /** Listing an insertion before the replacement of the line it precedes is refused,
    * the other order of the same two patches is not. */
  lemma OrderOfEqualStartsMatters(insertion: Patch, replacement: Patch, total: nat)
    requires insertion.start == replacement.start && insertion.end == Some(insertion.start - 1)
    requires insertion.start >= 1 && LooseTo(replacement, total) >= replacement.start
    ensures Overlaps(SortDown([insertion, replacement]), total)
    ensures !Overlaps(SortDown([replacement, insertion]), total)
  {
    OverlapIsPairwise([insertion, replacement], total);
    OverlapIsPairwise([replacement, insertion], total);
    assert !Compatible([insertion, replacement][0], [insertion, replacement][1], total);
  }

  /** A range hash, when given, must be that of the lines the patch names. */
  predicate Admissible(lines: seq<string>, p: Patch) {
    && p.start >= 1
    && p.start - 1 <= |lines|
    && (p.rangeHash.Some? ==> p.rangeHash.value == Sha256(Replaced(lines, p)))
  }

  lemma {:induction false} NoRefusal(lines: seq<string>, ps: seq<Patch>)
    requires Positive(ps)
    ensures FirstRefusal(lines, ps).None? <==> forall p :: p in ps ==> Admissible(lines, p)
  {
    if ps != [] {
      NoRefusal(lines, ps[1..]);
      assert Refusal(lines, ps[0]).None? <==> Admissible(lines, ps[0]);
      hide FirstRefusal, Refusal, Admissible;
      assert ps == [ps[0]] + ps[1..];
      assert forall p :: p in ps <==> p == ps[0] || p in ps[1..];
      assert FirstRefusal(lines, ps).None? <==> Refusal(lines, ps[0]).None? && FirstRefusal(lines, ps[1..]).None?;
    }
  }

  /** In the terms of the interface: line `k`, counted from 1, is replaced exactly when it
    * is not before `start` and not after `end`, a missing end being the end of the file. */
  lemma NamedLines(lines: seq<string>, p: Patch, autoNewline: bool, k: int)
    requires 1 <= p.start <= |lines| + 1 && 1 <= k <= |lines|
    ensures var e := EditOf(lines, p, autoNewline);
            && (e.from <= k - 1 < e.to <==> p.start <= k && (p.end.Some? ==> k <= p.end.value))
            && Slice(lines, From(p), To(p, |lines|)) == lines[e.from..e.to]
  {
    var from, to := From(p), To(p, |lines|);
    assert from <= to ==> Slice(lines, from, to) == lines[from..to];
    assert from > to ==> lines[from..from] == [];
  }

  /** Exactly which calls change the file, and into what. */
  lemma PatchedExactly(full: string, fileHash: Digest, patches: seq<Patch>, autoNewline: bool)
    ensures var out := PatchSpec(full, fileHash, patches, autoNewline);
            var lines := SplitLf(full);
            && (out.Patched? <==>
                && patches != [] && fileHash == Sha256(full)
                && AllCompatible(patches, |lines|)
                && forall p :: p in patches ==> Admissible(lines, p))
            && (out.Patched? ==>
                && Accepted(lines, SortDown(patches))
                && InOrder(Ascending(lines, SortDown(patches), autoNewline), 0, |lines|)
                && out.text == Concat(Weave(lines, Ascending(lines, SortDown(patches), autoNewline), 0)))
  {
    var lines, sorted := SplitLf(full), SortDown(patches);
    SortKeepsPatches(patches);
    SortKeepsPositive(patches);
    OverlapIsPairwise(patches, |lines|);
    if Positive(patches) {
      NoRefusal(lines, sorted);
      if !Overlaps(sorted, |lines|) && FirstRefusal(lines, sorted).None? {
        assert forall k :: 0 <= k < |sorted| ==> sorted[k] in sorted;
        PatchingIsSimultaneous(lines, sorted, autoNewline);
      }
    } else {
      var k :| 0 <= k < |patches| && patches[k].start < 1;
      assert patches[k] in patches && !Admissible(lines, patches[k]);
    }
  }

  // ---------------------------------------------------------------------
  // Reading the patched file again
  // ---------------------------------------------------------------------

  /** The same edits, their new text cut into lines as the next read will. */
  function Recut(edits: seq<Edit>): seq<Edit> {
    if edits == [] then [] else [edits[0].(lines := SplitLf(Concat(edits[0].lines)))] + Recut(edits[1..])
  }

  predicate Complete(text: string) { text == "" || EndsInLf(text) }

  /** New text without a final LF is followed by nothing. */
  predicate NothingGlues(lines: seq<string>, edits: seq<Edit>, at: nat)
    requires InOrder(edits, at, |lines|)
    decreases |edits|
  {
    edits != [] ==>
      && (Complete(Concat(edits[0].lines)) || Weave(lines, edits[1..], edits[0].to) == [])
      && NothingGlues(lines, edits[1..], edits[0].to)
  }

  lemma {:induction false} RecutKeepsText(lines: seq<string>, edits: seq<Edit>, at: nat)
    requires InOrder(edits, at, |lines|)
    ensures InOrder(Recut(edits), at, |lines|)
    ensures Concat(Weave(lines, Recut(edits), at)) == Concat(Weave(lines, edits, at))
    decreases |edits|
  {
    if edits != [] {
      var e, later := edits[0], edits[1..];
      RecutKeepsText(lines, later, e.to);
      SplitThenJoin(Concat(e.lines));
      var head, cut := lines[at..e.from], SplitLf(Concat(e.lines));
      var tail, tail' := Weave(lines, later, e.to), Weave(lines, Recut(later), e.to);
      assert Recut(edits)[1..] == Recut(later);
      ConcatSplit(head + e.lines, tail);
      ConcatSplit(head, e.lines);
      ConcatSplit(head + cut, tail');
      ConcatSplit(head, cut);
    }
  }

  lemma LinesTogether(a: seq<string>, b: seq<string>)
    ensures AreLines(a + b) <==> AreLines(a) && AreLines(b) && (b == [] || AllEndInLf(a))
  {
    var all := a + b;
    assert forall k :: 0 <= k < |a| ==> all[k] == a[k];
    assert forall k :: 0 <= k < |b| ==> b[k] == all[|a| + k];
  }

  lemma AllEndOrEmpty(text: string)
    ensures AllEndInLf(SplitLf(text)) <==> Complete(text)
  {
    SplitThenJoin(text);
    if text != "" && AllEndInLf(SplitLf(text)) {
      LastOfConcat(SplitLf(text));
    }
  }

  lemma {:induction false} LastOfConcat(ls: seq<string>)
    requires ls != [] && AllEndInLf(ls)
    ensures EndsInLf(Concat(ls))
  {
    if |ls| > 1 {
      LastOfConcat(ls[1..]);
    }
  }

  predicate AllCut(edits: seq<Edit>) {
    forall k :: 0 <= k < |edits| ==> AreLines(edits[k].lines)
  }

  lemma {:induction false} RecutIsCut(edits: seq<Edit>)
    ensures AllCut(Recut(edits)) && |Recut(edits)| == |edits|
    ensures forall k :: 0 <= k < |edits| ==> Recut(edits)[k] == edits[k].(lines := SplitLf(Concat(edits[k].lines)))
  {
    if edits != [] {
      RecutIsCut(edits[1..]);
      SplitThenJoin(Concat(edits[0].lines));
    }
  }

  lemma {:induction false} GlueFreeExactly(lines: seq<string>, edits: seq<Edit>, at: nat)
    requires InOrder(edits, at, |lines|) && AreLines(lines) && AllEndInLf(lines) && AllCut(edits)
    ensures AreLines(Weave(lines, edits, at)) <==> NothingGlues(lines, edits, at)
    decreases |edits|
  {
    if edits == [] {
      assert forall k :: 0 <= k < |lines[at..]| ==> lines[at..][k] == lines[at + k];
    } else {
      var e, later := edits[0], edits[1..];
      assert forall k :: 0 <= k < |later| ==> later[k] == edits[k + 1];
      GlueFreeExactly(lines, later, e.to);
      InOrderBound(later, e.to, |lines|);
      GlueFreeHere(lines[at..e.from], e.lines, Weave(lines, later, e.to));
    }
  }

  lemma GlueFreeHere(head: seq<string>, mid: seq<string>, tail: seq<string>)
    requires AreLines(head) && AllEndInLf(head) && AreLines(mid)
    ensures AreLines(head + mid + tail) <==> AreLines(tail) && (Complete(Concat(mid)) || tail == [])
  {
    LinesTogether(head + mid, tail);
    LinesTogether(head, mid);
    JoinThenSplit(mid);
    AllEndOrEmpty(Concat(mid));
    assert AllEndInLf(head + mid) <==> AllEndInLf(mid) by {
      assert forall k :: 0 <= k < |head| ==> (head + mid)[k] == head[k];
      assert forall k :: 0 <= k < |mid| ==> mid[k] == (head + mid)[|head| + k];
    }
  }

  /** Reading back an LF-terminated file after patching gives the line-level splice,
    * exactly when no unterminated new text is followed by anything. */
  lemma RereadIsSplice(lines: seq<string>, edits: seq<Edit>)
    requires InOrder(edits, 0, |lines|) && AreLines(lines) && AllEndInLf(lines)
    ensures InOrder(Recut(edits), 0, |lines|)
    ensures SplitLf(Concat(Weave(lines, edits, 0))) == Weave(lines, Recut(edits), 0)
            <==> NothingGlues(lines, Recut(edits), 0)
  {
    RecutKeepsText(lines, edits, 0);
    RecutIsCut(edits);
    GlueFreeExactly(lines, Recut(edits), 0);
    JoinThenSplit(Weave(lines, Recut(edits), 0));
  }

  function Removed(edits: seq<Edit>): int {
    if edits == [] then 0 else edits[0].to - edits[0].from + Removed(edits[1..])
  }

  function Added(edits: seq<Edit>): nat {
    if edits == [] then 0 else |edits[0].lines| + Added(edits[1..])
  }

  lemma {:induction false} WeaveLength(lines: seq<string>, edits: seq<Edit>, at: nat)
    requires InOrder(edits, at, |lines|)
    ensures |Weave(lines, edits, at)| == |lines| - at - Removed(edits) + Added(edits)
    decreases |edits|
  {
    if edits != [] {
      WeaveLength(lines, edits[1..], edits[0].to);
      InOrderBound(edits[1..], edits[0].to, |lines|);
    }
  }

  lemma {:induction false} CompleteNeverGlues(lines: seq<string>, edits: seq<Edit>, at: nat)
    requires InOrder(edits, at, |lines|)
    requires forall k :: 0 <= k < |edits| ==> Complete(Concat(edits[k].lines))
    ensures NothingGlues(lines, edits, at)
    decreases |edits|
  {
    if edits != [] {
      CompleteNeverGlues(lines, edits[1..], edits[0].to);
    }
  }

  lemma {:induction false} AscendingAt(lines: seq<string>, ps: seq<Patch>, autoNewline: bool, k: nat)
    requires Positive(ps) && k < |ps|
    ensures |Ascending(lines, ps, autoNewline)| == |ps|
    ensures Ascending(lines, ps, autoNewline)[k] == EditOf(lines, ps[|ps| - 1 - k], autoNewline)
    decreases |ps|
  {
    hide EditOf;
    var last := EditOf(lines, ps[|ps| - 1], autoNewline);
    assert Ascending(lines, ps, autoNewline) == [last] + Ascending(lines, ps[..|ps| - 1], autoNewline);
    if |ps| > 1 {
      AscendingAt(lines, ps[..|ps| - 1], autoNewline, if k == 0 then 0 else k - 1);
    }
  }

  /** A patch of an LF-terminated file that replaces at least one line gets its final LF. */
  lemma AutoNewlineCompletes(lines: seq<string>, p: Patch)
    requires AllEndInLf(lines) && p.start >= 1
    requires Complete(p.contents) || From(p) < To(p, |lines|)
    ensures Complete(NewText(lines, p, true))
  {
    if From(p) < To(p, |lines|) {
      var replaced := Slice(lines, From(p), To(p, |lines|));
      assert forall k :: 0 <= k < |replaced| ==> replaced[k] == lines[From(p) + k];
      LastOfConcat(replaced);
    }
  }

  /** With auto_newline, patches that replace lines of an LF-terminated file (or bring
    * their own final LF) splice whole lines, and the next read counts them so. */
  lemma AutoNewlineKeepsLines(full: string, fileHash: Digest, patches: seq<Patch>)
    requires Complete(full) && PatchSpec(full, fileHash, patches, true).Patched?
    requires forall p :: p in patches ==> Complete(p.contents) || p.start - 1 < To(p, |SplitLf(full)|)
    ensures Positive(SortDown(patches))
    ensures var lines := SplitLf(full);
            var edits := Recut(Ascending(lines, SortDown(patches), true));
            var after := SplitLf(PatchSpec(full, fileHash, patches, true).text);
            && InOrder(edits, 0, |lines|)
            && after == Weave(lines, edits, 0)
            && |after| == |lines| - Removed(edits) + Added(edits)
  {
    var lines, sorted := SplitLf(full), SortDown(patches);
    PatchedExactly(full, fileHash, patches, true);
    SortKeepsPatches(patches);
    SplitThenJoin(full);
    var edits := Ascending(lines, sorted, true);
    RecutKeepsText(lines, edits, 0);
    RecutIsCut(edits);
    AscendingAt(lines, sorted, true, 0);
    forall k | 0 <= k < |edits| ensures Complete(Concat(Recut(edits)[k].lines)) {
      var p := sorted[|sorted| - 1 - k];
      AscendingAt(lines, sorted, true, k);
      assert p in sorted;
      AutoNewlineCompletes(lines, p);
      UniversalJoin(NewText(lines, p, true));
      SplitThenJoin(NewText(lines, p, true));
    }
    CompleteNeverGlues(lines, Recut(edits), 0);
    RereadIsSplice(lines, edits);
    WeaveLength(lines, Recut(edits), 0);
  }

  /** A pure insertion replaces nothing, so auto_newline does not help it: its text is
    * glued to the line it was put in front of. */
  lemma InsertionCanGlue(line: string, text: string)
    requires IsLine(line) && EndsInLf(line) && IsLine(text) && !EndsInLf(text)
    ensures PatchSpec(line, Sha256(line), [Patch(1, Some(0), text, None)], true) == Patched(text + line)
    ensures SplitLf(text + line) == [text + line]
  {
    var p := Patch(1, Some(0), text, None);
    assert SplitLf(line) == [line] && SplitLf(text + line) == [text + line] by {
      hide SplitLf, PatchSpec;
      LinesSurviveJoin([line]);
      LinesSurviveJoin([text + line]);
      ConcatOne(line);
      ConcatOne(text + line);
    }
    InsertionApplied(line, text);
    assert SortDown([p]) == [p] && Positive([p]);
    hide SplitLf, Applied, SortDown, IsLine;
  }

  lemma InsertionApplied(line: string, text: string)
    requires !EndsInLf(text)
    ensures Positive([Patch(1, Some(0), text, None)])
    ensures Applied([line], [Patch(1, Some(0), text, None)], true) == Patched(text + line)
  {
    var p := Patch(1, Some(0), text, None);
    assert Replaced([line], p) == "";
    var cut := SplitUniversal(text);
    assert NewText([line], p, true) == text;
    assert ApplyDown([line], [p][..0], true) == [line];
    assert SliceAssign([line], 0, 0, cut) == cut + [line];
    assert ApplyDown([line], [p], true) == cut + [line];
    assert FirstRefusal([line], [p]).None?;
    ConcatSplit(cut, [line]);
    UniversalJoin(text);
    ConcatOne(line);
  }
}
