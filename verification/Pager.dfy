/** `remote_read`: one page of a file, cut on a line boundary, and the walk over all pages. */
module Pager {
  import opened Base
  import opened TextLines
  import PatchEditor

  /** READ_MAX_LINES and READ_MAX_BYTES: whatever integers the environment holds. */
  datatype Caps = Caps(maxLines: int, maxBytes: int)

  /** The dictionary returned; `next_start` is present exactly on a truncated page. */
  datatype Page = Page(content: string, rangeHash: PatchEditor.Digest, fileHash: PatchEditor.Digest,
                       start: int, end: int, total: nat, next: Option<int>)

  /** Encoded size of some lines; `width` is the size of one line in the file's encoding. */
  function Bytes(lines: seq<string>, width: string -> nat): nat {
    if lines == [] then 0 else Bytes(lines[..|lines| - 1], width) + width(lines[|lines| - 1])
  }

  function FirstIndex(start: int): nat { Max(0, start - 1) }

  /** Where the requested range stops. */
  function Requested(total: nat, end: Option<int>): (r: nat)
    ensures r <= total
  {
    match end case None => total case Some(e) => Max(0, Min(total, e))
  }

  function LineCap(limit: Option<int>, caps: Caps): int {
    match limit case None => caps.maxLines case Some(l) => Max(1, l)
  }

  /** Extends a page that holds the lines `s..cut` as far as the budget allows. */
  function Extend(lines: seq<string>, s: nat, cut: nat, stop: int, maxBytes: int, width: string -> nat): (r: nat)
    requires s <= cut <= |lines| && stop <= |lines|
    ensures cut <= r <= Max(cut, stop)
    decreases stop - cut
  {
    if cut < stop && (cut == s || Bytes(lines[s..cut], width) + width(lines[cut]) <= maxBytes) then
      Extend(lines, s, cut + 1, stop, maxBytes, width)
    else cut
  }

  predicate NothingToReturn(total: nat, start: int, end: Option<int>) {
    FirstIndex(start) >= total || FirstIndex(start) >= Requested(total, end)
  }

  function CutAt(lines: seq<string>, start: int, end: Option<int>, limit: Option<int>, caps: Caps,
                 width: string -> nat): (cut: nat)
    requires !NothingToReturn(|lines|, start, end)
    ensures FirstIndex(start) <= cut <= Requested(|lines|, end) <= |lines|
  {
    var s := FirstIndex(start);
    Extend(lines, s, s, Min(Requested(|lines|, end), s + LineCap(limit, caps)), caps.maxBytes, width)
  }

  function PageOfLines(lines: seq<string>, fileHash: PatchEditor.Digest, start: int, end: Option<int>,
                       limit: Option<int>, caps: Caps, width: string -> nat): Page
  {
    var s := FirstIndex(start);
    var first := if lines == [] then 1 else s + 1;
    if NothingToReturn(|lines|, start, end) then
      Page("", PatchEditor.Sha256(""), fileHash, first, start, |lines|, None)
    else
      var cut := CutAt(lines, start, end, limit, caps, width);
      var text := Concat(lines[s..cut]);
      Page(text, PatchEditor.Sha256(text), fileHash, first, cut, |lines|,
           if cut < Requested(|lines|, end) then Some(cut + 1) else None)
  }

  function PageOf(full: string, start: int, end: Option<int>, limit: Option<int>, caps: Caps,
                  width: string -> nat): Page
  {
    PageOfLines(SplitLf(full), PatchEditor.Sha256(full), start, end, limit, caps, width)
  }

  lemma BytesNext(lines: seq<string>, s: nat, cut: nat, width: string -> nat)
    requires s <= cut < |lines|
    ensures Bytes(lines[s..cut + 1], width) == Bytes(lines[s..cut], width) + width(lines[cut])
  {
    assert lines[s..cut + 1][..cut - s] == lines[s..cut];
  }

  /** The accumulation loop. */
  method CutPage(lines: seq<string>, sIdx: nat, stop: int, maxBytes: int, width: string -> nat) returns (cut: nat)
    requires sIdx <= |lines| && stop <= |lines|
    ensures cut == Extend(lines, sIdx, sIdx, stop, maxBytes, width)
  {
    var acc, i := 0, sIdx;
    cut := sIdx;
    while i < stop
      invariant sIdx <= i <= |lines| && cut == i && acc == Bytes(lines[sIdx..cut], width)
      invariant Extend(lines, sIdx, cut, stop, maxBytes, width) == Extend(lines, sIdx, sIdx, stop, maxBytes, width)
    {
      var b := width(lines[i]);
      if i > sIdx && acc + b > maxBytes {
        break;
      }
      BytesNext(lines, sIdx, i, width);
      acc := acc + b;
      cut := i + 1;
      i := i + 1;
    }
  }

  /** `remote_read` after the file has been fetched. */
  method RemoteRead(full: string, start: int, end: Option<int>, limit: Option<int>, caps: Caps, width: string -> nat)
    returns (page: Page)
    ensures page == PageOf(full, start, end, limit, caps, width)
  {
    hide SplitLf, Extend, Concat;
    var lines := SplitLf(full);
    var sIdx := FirstIndex(start);
    var requested := Requested(|lines|, end);
    var first := if lines == [] then 1 else sIdx + 1;
    if sIdx >= |lines| || sIdx >= requested {
      return Page("", PatchEditor.Sha256(""), PatchEditor.Sha256(full), first, start, |lines|, None);
    }
    var cut := CutPage(lines, sIdx, Min(requested, sIdx + LineCap(limit, caps)), caps.maxBytes, width);
    var text := Concat(lines[sIdx..cut]);
    page := Page(text, PatchEditor.Sha256(text), PatchEditor.Sha256(full), first, cut, |lines|,
                 if cut < requested then Some(cut + 1) else None);
  }

  // ---------------------------------------------------------------------
  // What one page holds
  // ---------------------------------------------------------------------

  /** `s..cut` is a page: at least one line, within both caps, and one line more would not be. */
  predicate IsPage(lines: seq<string>, s: nat, cut: nat, stop: nat, maxBytes: int, width: string -> nat)
    requires stop <= |lines|
  {
    && s < cut <= stop
    && (cut == s + 1 || Bytes(lines[s..cut], width) <= maxBytes)
    && (cut < stop ==> Bytes(lines[s..cut + 1], width) > maxBytes)
  }

  lemma {:induction false} BytesGrow(lines: seq<string>, s: nat, a: nat, b: nat, width: string -> nat)
    requires s <= a <= b <= |lines|
    ensures Bytes(lines[s..a], width) <= Bytes(lines[s..b], width)
    decreases b
  {
    if a < b {
      BytesGrow(lines, s, a, b - 1, width);
      BytesNext(lines, s, b - 1, width);
    }
  }

  lemma {:induction false} ExtendIsPage(lines: seq<string>, s: nat, cut: nat, stop: nat, maxBytes: int, width: string -> nat)
    requires s < cut <= stop <= |lines|
    requires cut == s + 1 || Bytes(lines[s..cut], width) <= maxBytes
    ensures IsPage(lines, s, Extend(lines, s, cut, stop, maxBytes, width), stop, maxBytes, width)
    decreases stop - cut
  {
    if cut < stop {
      BytesNext(lines, s, cut, width);
      if Bytes(lines[s..cut], width) + width(lines[cut]) <= maxBytes {
        ExtendIsPage(lines, s, cut + 1, stop, maxBytes, width);
      }
    }
  }

  lemma PageIsUnique(lines: seq<string>, s: nat, a: nat, b: nat, stop: nat, maxBytes: int, width: string -> nat)
    requires stop <= |lines|
    requires IsPage(lines, s, a, stop, maxBytes, width) && IsPage(lines, s, b, stop, maxBytes, width)
    ensures a == b
  {
    if a < b {
      BytesGrow(lines, s, a + 1, b, width);
    } else if b < a {
      BytesGrow(lines, s, b + 1, a, width);
    }
  }

  /** In the terms of the interface: line `k`, counted from 1, is requested exactly when it
    * is not before `start` and not after `end`; there is nothing to return exactly when
    * no line is. */
  lemma RequestedLines(total: nat, start: int, end: Option<int>, k: int)
    requires 1 <= k <= total
    ensures FirstIndex(start) <= k - 1 < Requested(total, end) <==> start <= k && (end.Some? ==> k <= end.value)
    ensures NothingToReturn(total, start, end) ==> !(start <= k && (end.Some? ==> k <= end.value))
    ensures !NothingToReturn(total, start, end) ==>
              var first := FirstIndex(start) + 1;
              1 <= first <= total && start <= first && (end.Some? ==> first <= end.value)
  {
  }

  /** A call that has something to return cuts the one greedy page, provided the line
    * cap leaves room for a line; its end, content and continuation say which page. */
  lemma PageIsGreedy(full: string, start: int, end: Option<int>, limit: Option<int>, caps: Caps,
                     width: string -> nat, cut: nat)
    requires !NothingToReturn(|SplitLf(full)|, start, end) && LineCap(limit, caps) >= 1
    ensures var lines, s := SplitLf(full), FirstIndex(start);
            var requested := Requested(|lines|, end);
            var page := PageOf(full, start, end, limit, caps, width);
            && (page.end == cut <==>
                IsPage(lines, s, cut, Min(requested, s + LineCap(limit, caps)), caps.maxBytes, width))
            && s < page.end <= requested
            && page.start == s + 1
            && page.content == Concat(lines[s..page.end])
            && page.next == (if page.end < requested then Some(page.end + 1) else None)
  {
    hide SplitLf, IsPage, PageOfLines, Requested;
    GreedyLines(SplitLf(full), PatchEditor.Sha256(full), start, end, limit, caps, width, cut);
  }

  lemma GreedyLines(lines: seq<string>, fileHash: PatchEditor.Digest, start: int, end: Option<int>, limit: Option<int>,
                    caps: Caps, width: string -> nat, cut: nat)
    requires !NothingToReturn(|lines|, start, end) && LineCap(limit, caps) >= 1
    ensures var s := FirstIndex(start);
            var requested := Requested(|lines|, end);
            var page := PageOfLines(lines, fileHash, start, end, limit, caps, width);
            && (page.end == cut <==>
                IsPage(lines, s, cut, Min(requested, s + LineCap(limit, caps)), caps.maxBytes, width))
            && s < page.end <= requested
            && page.start == s + 1
            && page.content == Concat(lines[s..page.end])
            && page.next == (if page.end < requested then Some(page.end + 1) else None)
  {
    var s := FirstIndex(start);
    CutIsPage(lines, s, Min(Requested(|lines|, end), s + LineCap(limit, caps)), caps.maxBytes, width, cut);
    hide Extend, IsPage, Bytes, Concat;
  }

  lemma CutIsPage(lines: seq<string>, s: nat, stop: nat, maxBytes: int, width: string -> nat, cut: nat)
    requires s < stop <= |lines|
    ensures s < Extend(lines, s, s, stop, maxBytes, width)
    ensures cut == Extend(lines, s, s, stop, maxBytes, width) <==> IsPage(lines, s, cut, stop, maxBytes, width)
  {
    ExtendIsPage(lines, s, s + 1, stop, maxBytes, width);
    var here := Extend(lines, s, s + 1, stop, maxBytes, width);
    assert here == Extend(lines, s, s, stop, maxBytes, width);
    hide Extend, IsPage;
    if IsPage(lines, s, cut, stop, maxBytes, width) {
      PageIsUnique(lines, s, cut, here, stop, maxBytes, width);
    }
  }

  lemma {:induction false} BytesOfOctets(lines: seq<string>)
    ensures Bytes(lines, (l: string) => |l|) == |Concat(lines)|
  {
    if lines != [] {
      var init, last := lines[..|lines| - 1], lines[|lines| - 1];
      BytesOfOctets(init);
      assert lines == init + [last];
      ConcatSplit(init, [last]);
      ConcatOne(last);
    }
  }

  /** Whatever is asked for, the page tells the size and hash of the whole file and the hash of
    * just what it returns, and starts at the line asked for. With nothing to return it is
    * empty and the last. */
  lemma PageTellsFile(full: string, start: int, end: Option<int>, limit: Option<int>, caps: Caps, width: string -> nat)
    ensures var page, total := PageOf(full, start, end, limit, caps, width), |SplitLf(full)|;
            && page.fileHash == PatchEditor.Sha256(full) && page.total == total
            && page.rangeHash == PatchEditor.Sha256(page.content)
            && page.start == (if total > 0 && start > 1 then start else 1)
            && (NothingToReturn(total, start, end) ==> page.content == "" && page.end == start && page.next.None?)
  {
    hide SplitLf, Extend, Bytes, Concat;
  }

  /** A page has at least one line and at most as many as asked for, at least one, or the
    * default; more than one only within the byte cap; and it stops before the requested end
    * only where one line more would break one of these limits. */
  lemma PageStopsBecause(full: string, start: int, end: Option<int>, limit: Option<int>, caps: Caps, width: string -> nat)
    requires !NothingToReturn(|SplitLf(full)|, start, end) && (limit.None? ==> caps.maxLines >= 1)
    ensures var lines, page := SplitLf(full), PageOf(full, start, end, limit, caps, width);
            var most := if limit.None? then caps.maxLines else if limit.value < 1 then 1 else limit.value;
            && 1 <= page.start <= page.end <= |lines|
            && page.end - page.start + 1 <= most
            && (page.end > page.start ==> Bytes(lines[page.start - 1..page.end], width) <= caps.maxBytes)
            && (page.next.Some? ==>
                  page.end < |lines|
                  && (page.end - page.start + 1 == most
                      || Bytes(lines[page.start - 1..page.end + 1], width) > caps.maxBytes))
  {
    hide SplitLf, PageOfLines, Bytes, Concat;
    PageIsGreedy(full, start, end, limit, caps, width, 0);
    PageIsGreedy(full, start, end, limit, caps, width, PageOf(full, start, end, limit, caps, width).end);
  }

  // ---------------------------------------------------------------------
  // The walk
  // ---------------------------------------------------------------------

  /** What follows from one page for the walk. */
  lemma PageStep(lines: seq<string>, hash: PatchEditor.Digest, start: int, end: Option<int>, limit: Option<int>,
                 caps: Caps, width: string -> nat)
    requires start >= 1 && LineCap(limit, caps) >= 1
    ensures var page := PageOfLines(lines, hash, start, end, limit, caps, width);
            var e := Requested(|lines|, end);
            && (page.next.None? ==> page.content == if start - 1 < e then Concat(lines[start - 1..e]) else "")
            && (page.next.Some? ==>
                && start <= page.end < e && page.next.value == page.end + 1
                && page.content == Concat(lines[start - 1..page.end]))
  {
    hide IsPage, Concat;
    if !NothingToReturn(|lines|, start, end) {
      GreedyLines(lines, hash, start, end, limit, caps, width, 0);
      hide PageOfLines;
    }
  }

  /** Calls with `start = next_start`, one per given limit, until a page is not truncated. */
  function Walk(lines: seq<string>, hash: PatchEditor.Digest, start: int, end: Option<int>, limits: seq<Option<int>>,
                caps: Caps, width: string -> nat): seq<Page>
    decreases |limits|
  {
    if limits == [] then []
    else
      var page := PageOfLines(lines, hash, start, end, limits[0], caps, width);
      if page.next.None? then [page] else [page] + Walk(lines, hash, page.next.value, end, limits[1..], caps, width)
  }

  function Contents(pages: seq<Page>): string {
    if pages == [] then "" else pages[0].content + Contents(pages[1..])
  }

  predicate Finished(pages: seq<Page>) { pages != [] && pages[|pages| - 1].next.None? }

  predicate LeavesRoom(limits: seq<Option<int>>, caps: Caps) {
    forall k :: 0 <= k < |limits| ==> LineCap(limits[k], caps) >= 1
  }

  /** Once finished, the pages hold the lines `s..e`, each once and in order. */
  predicate Covers(pages: seq<Page>, lines: seq<string>, s: nat, e: nat) {
    Finished(pages) ==> Contents(pages) == Concat(PatchEditor.Slice(lines, s, e))
  }

  /** A finished walk has returned the requested range once, in order. */
  lemma {:induction false} WalkCoversRange(lines: seq<string>, hash: PatchEditor.Digest, start: int, end: Option<int>,
                                           limits: seq<Option<int>>, caps: Caps, width: string -> nat)
    requires start >= 1 && LeavesRoom(limits, caps)
    ensures Covers(Walk(lines, hash, start, end, limits, caps, width), lines, start - 1, Requested(|lines|, end))
    decreases |limits|
  {
    hide PageOfLines, Requested, Concat, LineCap;
    if limits != [] {
      var e := Requested(|lines|, end);
      PageStep(lines, hash, start, end, limits[0], caps, width);
      var page := PageOfLines(lines, hash, start, end, limits[0], caps, width);
      if page.next.None? {
        LastPage(page, lines, start - 1, e);
      } else {
        WalkCoversRange(lines, hash, page.end + 1, end, limits[1..], caps, width);
        AddPage(page, Walk(lines, hash, page.end + 1, end, limits[1..], caps, width), lines, start - 1, page.end, e);
      }
    }
  }

  /** A walk of at most one call per line finishes. */
  lemma {:induction false} WalkFinishes(lines: seq<string>, hash: PatchEditor.Digest, start: int, end: Option<int>,
                                        limits: seq<Option<int>>, caps: Caps, width: string -> nat)
    requires start >= 1 && LeavesRoom(limits, caps)
    requires limits != [] && |limits| > Requested(|lines|, end) - start
    ensures Finished(Walk(lines, hash, start, end, limits, caps, width))
    decreases |limits|
  {
    hide PageOfLines, Requested, Concat, LineCap;
    PageStep(lines, hash, start, end, limits[0], caps, width);
    var page := PageOfLines(lines, hash, start, end, limits[0], caps, width);
    if page.next.Some? {
      WalkFinishes(lines, hash, page.end + 1, end, limits[1..], caps, width);
    }
  }

  lemma LastPage(page: Page, lines: seq<string>, s: nat, e: nat)
    requires page.next.None? && e <= |lines|
    requires page.content == if s < e then Concat(lines[s..e]) else ""
    ensures Covers([page], lines, s, e)
  {
    assert Contents([page]) == page.content + Contents([]);
    assert PatchEditor.Slice(lines, s, e) == if s < e then lines[s..e] else [];
  }

  lemma AddPage(page: Page, later: seq<Page>, lines: seq<string>, s: nat, m: nat, e: nat)
    requires s <= m <= e <= |lines| && page.content == Concat(lines[s..m]) && page.next.Some?
    requires Covers(later, lines, m, e)
    ensures Covers([page] + later, lines, s, e)
  {
    assert ([page] + later)[1..] == later;
    assert lines[s..e] == lines[s..m] + lines[m..e];
    ConcatSplit(lines[s..m], lines[m..e]);
  }

  /** Reading from the top with no end, the pages concatenate to the file. */
  lemma WalkCoversFile(full: string, limits: seq<Option<int>>, caps: Caps, width: string -> nat)
    requires LeavesRoom(limits, caps) && |limits| >= Max(1, |SplitLf(full)|)
    ensures var pages := Walk(SplitLf(full), PatchEditor.Sha256(full), 1, None, limits, caps, width);
            Finished(pages) && Contents(pages) == full
  {
    var lines := SplitLf(full);
    SplitThenJoin(full);
    hide SplitLf, Walk;
    WalkCoversRange(lines, PatchEditor.Sha256(full), 1, None, limits, caps, width);
    WalkFinishes(lines, PatchEditor.Sha256(full), 1, None, limits, caps, width);
    assert PatchEditor.Slice(lines, 0, |lines|) == lines;
  }

  /** The walk advances at a line of the range exactly when the line cap is positive:
    * a READ_MAX_LINES below one repeats the same empty page for ever. */
  lemma AdvancesExactly(full: string, start: int, end: Option<int>, limit: Option<int>, caps: Caps, width: string -> nat)
    requires start >= 1 && !NothingToReturn(|SplitLf(full)|, start, end)
    ensures var page := PageOf(full, start, end, limit, caps, width);
            && ((page.next.Some? ==> page.next.value > start) <==> LineCap(limit, caps) >= 1)
            && (LineCap(limit, caps) < 1 ==> page.content == "" && page.next == Some(start))
  {
    if LineCap(limit, caps) >= 1 {
      PageIsGreedy(full, start, end, limit, caps, width, 0);
    }
  }

  // ---------------------------------------------------------------------
  // Handing the range hash to remote_patch
  // ---------------------------------------------------------------------

  /** The page's own start, end and hash are accepted by the patch editor, except for
    * an empty range inside the file (reported as ending one line later than it does)
    * and a start more than one line past its end. */
  lemma RangeHashAccepted(full: string, start: int, end: Option<int>, limit: Option<int>, caps: Caps,
                          width: string -> nat, contents: string)
    ensures var lines := SplitLf(full);
            var page := PageOf(full, start, end, limit, caps, width);
            && page.start >= 1
            && (PatchEditor.Admissible(lines, PatchEditor.Patch(page.start, Some(page.end), contents, Some(page.rangeHash)))
                <==> |lines| == 0 || start < 1 || start == |lines| + 1
                     || (start <= |lines| && (end.Some? ==> start <= end.value)))
  {
    SplitThenJoin(full);
    hide SplitLf;
    var lines := SplitLf(full);
    if NothingToReturn(|lines|, start, end) {
      EmptyPageHash(lines, PatchEditor.Sha256(full), start, end, limit, caps, width, contents);
    } else {
      FullPageHash(lines, PatchEditor.Sha256(full), start, end, limit, caps, width, contents);
    }
  }

  lemma EmptyPageHash(lines: seq<string>, hash: PatchEditor.Digest, start: int, end: Option<int>, limit: Option<int>,
                      caps: Caps, width: string -> nat, contents: string)
    requires NothingToReturn(|lines|, start, end) && AreLines(lines)
    ensures var page := PageOfLines(lines, hash, start, end, limit, caps, width);
            && page.start >= 1
            && (PatchEditor.Admissible(lines, PatchEditor.Patch(page.start, Some(page.end), contents, Some(page.rangeHash)))
                <==> |lines| == 0 || start < 1 || start == |lines| + 1)
  {
    if 1 <= start <= |lines| {
      assert PatchEditor.Slice(lines, start - 1, start) == [lines[start - 1]];
      ConcatOne(lines[start - 1]);
      assert IsLine(lines[start - 1]);
    }
  }

  lemma FullPageHash(lines: seq<string>, hash: PatchEditor.Digest, start: int, end: Option<int>, limit: Option<int>,
                     caps: Caps, width: string -> nat, contents: string)
    requires !NothingToReturn(|lines|, start, end)
    ensures var page := PageOfLines(lines, hash, start, end, limit, caps, width);
            && page.start >= 1
            && PatchEditor.Admissible(lines, PatchEditor.Patch(page.start, Some(page.end), contents, Some(page.rangeHash)))
  {
  }
}
