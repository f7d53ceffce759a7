/** The text `remote_patch` leaves, read off the patches themselves, and why it refuses. */
module PatchText {
  import opened Base
  import opened TextLines
  import opened PatchEditor

  /** The last line a patch names, counted from 1; before its start when it names none. */
  function LastNamed(p: Patch, total: nat): int {
    match p.end case None => total case Some(e) => Min(e, total)
  }

  /** What auto_newline adds to the contents: a line feed when they are there and lack one,
    * and the last line they stand for has one. */
  function AddedLf(lines: seq<string>, p: Patch, autoNewline: bool): string
    requires p.start >= 1
  {
    if p.contents == "" || EndsInLf(p.contents) then ""
    else if !autoNewline || LastNamed(p, |lines|) < p.start then ""
    else if EndsInLf(lines[LastNamed(p, |lines|) - 1]) then "\n"
    else ""
  }

  /** The file from line `at` on, the patches listed from the last in the file to the first:
    * the lines before the first, its contents, and what follows the lines it names. */
  function TextFrom(lines: seq<string>, ps: seq<Patch>, at: nat, autoNewline: bool): string
    requires Positive(ps)
    decreases |ps|
  {
    if ps == [] then Concat(Slice(lines, at, |lines|))
    else
      var p := ps[|ps| - 1];
      Concat(Slice(lines, at, p.start - 1)) + p.contents + AddedLf(lines, p, autoNewline)
      + TextFrom(lines, ps[..|ps| - 1], Max(p.start - 1, LastNamed(p, |lines|)), autoNewline)
  }

  /** The inserted text is the contents, whole, and at most one line feed. */
  lemma InsertedIsContents(lines: seq<string>, p: Patch, autoNewline: bool)
    requires AreLines(lines) && 1 <= p.start <= |lines| + 1
    ensures NewText(lines, p, autoNewline) == p.contents + AddedLf(lines, p, autoNewline)
  {
    var from, to := From(p), To(p, |lines|);
    if from < to {
      assert Slice(lines, from, to) == lines[from..to];
      LastLineTells(lines[from..to]);
    } else {
      assert Slice(lines, from, to) == [];
    }
  }

  lemma LastLineTells(ls: seq<string>)
    requires ls != [] && forall k :: 0 <= k < |ls| ==> ls[k] != ""
    ensures EndsInLf(Concat(ls)) <==> EndsInLf(ls[|ls| - 1])
  {
    var init, last := ls[..|ls| - 1], ls[|ls| - 1];
    assert ls == init + [last];
    ConcatSplit(init, [last]);
    ConcatOne(last);
  }

  lemma {:induction false} WeaveIsText(lines: seq<string>, ps: seq<Patch>, at: nat, autoNewline: bool)
    requires AreLines(lines) && Positive(ps)
    requires InOrder(Ascending(lines, ps, autoNewline), at, |lines|)
    ensures Concat(Weave(lines, Ascending(lines, ps, autoNewline), at)) == TextFrom(lines, ps, at, autoNewline)
    decreases |ps|
  {
    hide NewText, AddedLf, Weave, InOrder, Slice, AreLines, Concat, SplitUniversal, Ascending, TextFrom, LastNamed;
    TextUnfolds(lines, ps, at, autoNewline);
    if ps == [] {
      WeaveNothing(lines, at);
    } else {
      var p, later := ps[|ps| - 1], ps[..|ps| - 1];
      var e, edits := EditOf(lines, p, autoNewline), Ascending(lines, later, autoNewline);
      WeaveFirst(lines, e, edits, at);
      WeaveIsText(lines, later, e.to, autoNewline);
      InsertedIsContents(lines, p, autoNewline);
      UniversalJoin(NewText(lines, p, autoNewline));
      Regrouped(Concat(Slice(lines, at, p.start - 1)), p.contents, AddedLf(lines, p, autoNewline),
                TextFrom(lines, later, e.to, autoNewline));
    }
  }

  lemma TextUnfolds(lines: seq<string>, ps: seq<Patch>, at: nat, autoNewline: bool)
    requires Positive(ps)
    ensures ps == [] ==>
              && Ascending(lines, ps, autoNewline) == []
              && TextFrom(lines, ps, at, autoNewline) == Concat(Slice(lines, at, |lines|))
    ensures ps != [] ==>
              var p, later := ps[|ps| - 1], ps[..|ps| - 1];
              var e := EditOf(lines, p, autoNewline);
              && Ascending(lines, ps, autoNewline) == [e] + Ascending(lines, later, autoNewline)
              && e.from == p.start - 1 && e.to == Max(p.start - 1, LastNamed(p, |lines|))
              && e.lines == SplitUniversal(NewText(lines, p, autoNewline))
              && TextFrom(lines, ps, at, autoNewline) ==
                 Concat(Slice(lines, at, p.start - 1)) + p.contents + AddedLf(lines, p, autoNewline)
                 + TextFrom(lines, later, e.to, autoNewline)
  {
    hide NewText, AddedLf, Slice, Concat, SplitUniversal;
  }

  lemma WeaveNothing(lines: seq<string>, at: nat)
    requires InOrder([], at, |lines|)
    ensures Concat(Weave(lines, [], at)) == Concat(Slice(lines, at, |lines|))
  {
    assert Slice(lines, at, |lines|) == lines[at..];
  }

  lemma WeaveFirst(lines: seq<string>, e: Edit, edits: seq<Edit>, at: nat)
    requires InOrder([e] + edits, at, |lines|)
    ensures at <= e.from <= |lines| && InOrder(edits, e.to, |lines|) && Slice(lines, at, e.from) == lines[at..e.from]
    ensures Concat(Weave(lines, [e] + edits, at)) ==
            Concat(lines[at..e.from]) + Concat(e.lines) + Concat(Weave(lines, edits, e.to))
  {
    assert ([e] + edits)[1..] == edits;
    ThreeParts(lines[at..e.from], e.lines, Weave(lines, edits, e.to));
  }

  lemma Regrouped(a: string, b: string, c: string, d: string)
    ensures a + (b + c) + d == a + b + c + d
  {
  }

  lemma ThreeParts(a: seq<string>, b: seq<string>, c: seq<string>)
    ensures Concat(a + b + c) == Concat(a) + Concat(b) + Concat(c)
  {
    ConcatSplit(a + b, c);
    ConcatSplit(a, b);
  }

  /** Accepted patches leave, between the lines none of them names, the contents of each, with
    * at most one line feed more. */
  lemma ContentsAreWritten(full: string, fileHash: Digest, patches: seq<Patch>, autoNewline: bool)
    requires PatchSpec(full, fileHash, patches, autoNewline).Patched?
    ensures Positive(SortDown(patches))
    ensures PatchSpec(full, fileHash, patches, autoNewline).text ==
            TextFrom(SplitLf(full), SortDown(patches), 0, autoNewline)
  {
    hide PatchSpec, Ascending, SplitLf, TextFrom;
    PatchedExactly(full, fileHash, patches, autoNewline);
    SplitThenJoin(full);
    WeaveIsText(SplitLf(full), SortDown(patches), 0, autoNewline);
  }

  /** One patch: the lines before it, its contents, the line feed or not, the lines after it. */
  lemma OnePatchIsWritten(full: string, fileHash: Digest, p: Patch, autoNewline: bool)
    requires PatchSpec(full, fileHash, [p], autoNewline).Patched?
    ensures var lines := SplitLf(full);
            var after := Max(p.start - 1, LastNamed(p, |lines|));
            && 1 <= p.start <= |lines| + 1
            && PatchSpec(full, fileHash, [p], autoNewline).text ==
               Concat(lines[..p.start - 1]) + p.contents + AddedLf(lines, p, autoNewline) + Concat(lines[after..])
    ensures !autoNewline ==> AddedLf(SplitLf(full), p, autoNewline) == ""
  {
    hide PatchSpec, SplitLf, AddedLf;
    var lines := SplitLf(full);
    PatchedExactly(full, fileHash, [p], autoNewline);
    ContentsAreWritten(full, fileHash, [p], autoNewline);
    assert Admissible(lines, [p][0]);
    assert SortDown([p]) == [p];
    TextOfOne(lines, p, autoNewline);
    NothingAdded(lines, p);
  }

  lemma NothingAdded(lines: seq<string>, p: Patch)
    requires p.start >= 1
    ensures AddedLf(lines, p, false) == ""
  {
  }

  lemma TextOfOne(lines: seq<string>, p: Patch, autoNewline: bool)
    requires 1 <= p.start <= |lines| + 1
    ensures var after := Max(p.start - 1, LastNamed(p, |lines|));
            TextFrom(lines, [p], 0, autoNewline) ==
            Concat(lines[..p.start - 1]) + p.contents + AddedLf(lines, p, autoNewline) + Concat(lines[after..])
  {
    hide AddedLf;
    var after := Max(p.start - 1, LastNamed(p, |lines|));
    assert [p][..0] == [];
    assert Slice(lines, 0, p.start - 1) == lines[..p.start - 1];
    assert Slice(lines, after, |lines|) == lines[after..];
    assert TextFrom(lines, [], after, autoNewline) == Concat(lines[after..]);
  }

  // ---------------------------------------------------------------------
  // Refusals
  // ---------------------------------------------------------------------

  /** The patch that is refused first: the last in the file that does not fit. */
  predicate FirstMisfit(lines: seq<string>, sorted: seq<Patch>, k: int) {
    0 <= k < |sorted| && !Admissible(lines, sorted[k]) && forall j :: 0 <= j < k ==> Admissible(lines, sorted[j])
  }

  lemma {:induction false} MisfitIsRefused(lines: seq<string>, ps: seq<Patch>, k: int)
    requires Positive(ps) && FirstMisfit(lines, ps, k)
    ensures FirstRefusal(lines, ps) == Some(if ps[k].start - 1 > |lines| then BeyondEof else RangeChanged)
    decreases |ps|
  {
    if k > 0 {
      assert Admissible(lines, ps[0]) && ps[k] == ps[1..][k - 1];
      assert forall j :: 0 <= j < k - 1 ==> ps[1..][j] == ps[j + 1];
      MisfitIsRefused(lines, ps[1..], k - 1);
    }
  }

  /** Why a call is refused, in this order: no patches; another file than was read; a start
    * below 1; patches that overlap; and, of the patches that do not fit, the last in the
    * file, for starting beyond the end or for other lines than were read. */
  lemma RefusedBecause(full: string, fileHash: Digest, patches: seq<Patch>, autoNewline: bool)
    ensures var out, lines := PatchSpec(full, fileHash, patches, autoNewline), SplitLf(full);
            var known := patches != [] && fileHash == Sha256(full);
            var apart := AllCompatible(patches, |lines|);
            && (out == Rejected(EmptyList) <==> patches == [])
            && (out == Rejected(FileChanged) <==> patches != [] && fileHash != Sha256(full))
            && (out == Rejected(BadStart) <==> known && exists p :: p in patches && p.start < 1)
            && (out == Rejected(Overlap) <==> known && (forall p :: p in patches ==> p.start >= 1) && !apart)
            && forall k ::
                 (known && (forall p :: p in patches ==> p.start >= 1) && apart
                  && FirstMisfit(lines, SortDown(patches), k)) ==>
                 out == Rejected(if SortDown(patches)[k].start - 1 > |lines| then BeyondEof else RangeChanged)
  {
    hide SplitLf, ApplyDown, Admissible;
    var lines, sorted := SplitLf(full), SortDown(patches);
    SortKeepsPatches(patches);
    SortKeepsPositive(patches);
    OverlapIsPairwise(patches, |lines|);
    PositiveIs(patches);
    if Positive(patches) {
      RefusalIs(lines, sorted);
      forall k | FirstMisfit(lines, sorted, k)
        ensures FirstRefusal(lines, sorted) == Some(if sorted[k].start - 1 > |lines| then BeyondEof else RangeChanged)
      {
        MisfitIsRefused(lines, sorted, k);
      }
    }
  }

  lemma PositiveIs(ps: seq<Patch>)
    ensures Positive(ps) <==> forall p :: p in ps ==> p.start >= 1
  {
    assert forall k :: 0 <= k < |ps| ==> ps[k] in ps;
  }

  lemma {:induction false} RefusalIs(lines: seq<string>, ps: seq<Patch>)
    requires Positive(ps)
    ensures var r := FirstRefusal(lines, ps); r.Some? ==> r.value == BeyondEof || r.value == RangeChanged
  {
    if ps != [] {
      RefusalIs(lines, ps[1..]);
    }
  }
}
