/** Which sets of secret values are masked as a whole in every text, and what is left of a
  * value otherwise. */
module WholeMasks {
  import opened Base
  import opened Redaction
  import opened MaskedSpans

  // ---------------------------------------------------------------------
  // What is left of an occurrence
  // ---------------------------------------------------------------------

  /** Every character of the span is masked by it. */
  predicate SpanAt(f: seq<Option<Span>>, a: nat, h: Span) {
    && a <= h.from < h.to <= a + |f|
    && forall q :: h.from <= q < h.to ==> At(f, a, q) == Some(h)
  }

  lemma SpanWithin(x: seq<Option<Span>>, f: seq<Option<Span>>, y: seq<Option<Span>>, a: nat, h: Span)
    requires |x| <= a && SpanAt(f, a, h)
    ensures SpanAt(x + f + y, a - |x|, h)
  {
    var all, base := x + f + y, a - |x|;
    assert forall q :: h.from <= q < h.to ==> At(all, base, q) == At(f, a, q);
  }

  /** Spans do not overlap: a masked character belongs to one, all of which it masks. */
  lemma {:induction false} SpansAreMasked(text: string, a: nat, b: nat, order: seq<string>, p: nat)
    requires a <= p < b <= |text| && NonEmpty(order)
    ensures var f := Fates(text, a, b, order);
            At(f, a, p).Some? ==> SpanAt(f, a, At(f, a, p).value) && At(f, a, p).value.from <= p < At(f, a, p).value.to
    decreases |order|, b - a, 1
  {
    hide Scan, NonEmpty, SpanAt;
    if order != [] {
      ScanMasked(text, a, a, b, order, p);
    }
  }

  lemma {:induction false} ScanMasked(text: string, s: nat, a: nat, b: nat, order: seq<string>, p: nat)
    requires s <= a <= b <= |text| && s <= p < b && NonEmpty(order) && order != []
    ensures var f := Scan(text, s, a, b, order);
            At(f, s, p).Some? ==> SpanAt(f, s, At(f, s, p).value) && At(f, s, p).value.from <= p < At(f, s, p).value.to
    decreases |order|, b - a, 0
  {
    hide Fates, Scan, Masked, NonEmpty, SpanAt;
    var u, rest := order[0], order[1..];
    ScanStep(text, s, a, b, order);
    if b - a < |u| {
      SpansAreMasked(text, s, b, rest, p);
    } else if text[a..a + |u|] == u {
      var m := a + |u|;
      var before, masked, after := Fates(text, s, a, rest), Masked(Span(a, m)), Scan(text, m, m, b, order);
      if p < a {
        SpansAreMasked(text, s, a, rest, p);
        InFront(before, masked, after, s, p);
      } else if p < m {
        InMiddle(before, masked, after, s, a, m, p);
      } else {
        ScanMasked(text, m, m, b, order, p);
        InBack(before, masked, after, m, p);
      }
    } else {
      ScanMasked(text, s, a + 1, b, order, p);
    }
  }

  lemma InFront(before: seq<Option<Span>>, masked: seq<Option<Span>>, after: seq<Option<Span>>, s: nat, p: nat)
    requires s <= p < s + |before| && (At(before, s, p).Some? ==> SpanAt(before, s, At(before, s, p).value))
    ensures var f := before + masked + after;
            At(f, s, p) == At(before, s, p) && (At(f, s, p).Some? ==> SpanAt(f, s, At(f, s, p).value))
  {
    hide SpanAt;
    if At(before, s, p).Some? {
      SpanWithin([], before, masked + after, s, At(before, s, p).value);
      assert [] + before + (masked + after) == before + masked + after;
    }
  }

  lemma InMiddle(before: seq<Option<Span>>, masked: seq<Option<Span>>, after: seq<Option<Span>>,
                 s: nat, a: nat, m: nat, p: nat)
    requires s <= a <= p < m && |before| == a - s && |masked| == m - a
    requires forall k :: 0 <= k < |masked| ==> masked[k] == Some(Span(a, m))
    ensures var f := before + masked + after; At(f, s, p) == Some(Span(a, m)) && SpanAt(f, s, Span(a, m))
  {
  }

  lemma InBack(before: seq<Option<Span>>, masked: seq<Option<Span>>, after: seq<Option<Span>>, m: nat, p: nat)
    requires |before| + |masked| <= m <= p < m + |after|
    requires At(after, m, p).Some? ==> SpanAt(after, m, At(after, m, p).value)
    ensures var f, s := before + masked + after, m - |before| - |masked|;
            At(f, s, p) == At(after, m, p) && (At(f, s, p).Some? ==> SpanAt(f, s, At(f, s, p).value))
  {
    hide SpanAt;
    if At(after, m, p).Some? {
      SpanWithin(before + masked, after, [], m, At(after, m, p).value);
      assert before + masked + after + [] == before + masked + after;
    }
  }

  /** Some character of the occurrence is kept. */
  predicate ShowsPart(f: seq<Option<Span>>, a: nat, i: nat, n: nat)
    requires a <= i && i + n <= a + |f|
  {
    exists p :: i <= p < i + n && At(f, a, p).None?
  }

  /** A replaced occurrence holds the character. */
  ghost predicate Covered(f: seq<Option<Span>>, a: nat, p: nat) {
    exists h :: SpanAt(f, a, h) && h.from <= p < h.to
  }

  /** Part of an occurrence is kept exactly when the replaced occurrences do not cover it; and
    * then one of them straddles one of its ends, but the converse is false. */
  lemma PartShowsExactly(text: string, values: seq<string>, order: seq<string>, i: nat, v: string)
    requires LongestFirst(order, values) && v in order && OccursAt(v, text, i)
    ensures var f := Fates(text, 0, |text|, order);
            && (ShowsPart(f, 0, i, |v|) <==> exists p :: i <= p < i + |v| && !Covered(f, 0, p))
            && (ShowsPart(f, 0, i, |v|) ==> Straddled(f, 0, i, |v|))
  {
    var f := Fates(text, 0, |text|, order);
    hide Fates, SpanAt, LongestFirst, NonEmpty;
    MaskedWholeExactly(text, values, order, i, v);
    forall p | i <= p < i + |v| ensures At(f, 0, p).None? <==> !Covered(f, 0, p) {
      CoveredExactly(text, order, p);
    }
  }

  lemma CoveredExactly(text: string, order: seq<string>, p: nat)
    requires p < |text| && NonEmpty(order)
    ensures var f := Fates(text, 0, |text|, order); At(f, 0, p).Some? <==> Covered(f, 0, p)
  {
    hide Fates, NonEmpty;
    SpansAreMasked(text, 0, |text|, order, p);
  }

  /** All of a value is masked, by two masks neither of which is its own: "xaby" becomes
    * "******", and the value "ab" in it is straddled. */
  lemma StraddledMayBeMasked()
    ensures var order := ["xa", "by", "ab"];
            && LongestFirst(order, order) && AllSafe(order) && OccursAt("ab", "xaby", 1)
            && RedactIn("xaby", order) == "******"
            && var f := Fates("xaby", 0, 4, order);
               Straddled(f, 0, 1, 2) && !ShowsPart(f, 0, 1, 2) && !Whole(f, 0, 1, 2)
  {
    hide StarSafe, Occurs, Fates, Whole;
    NoStarIsSafe("xa");
    NoStarIsSafe("by");
    NoStarIsSafe("ab");
    assert "xaby"[1..3] == "ab";
    TwoSpans();
    TwoMasks();
    var f := Fates("xaby", 0, 4, ["xa", "by", "ab"]);
    assert Straddles(At(f, 0, 1).value, 1, 2);
    MaskedWholeExactly("xaby", ["xa", "by", "ab"], ["xa", "by", "ab"], 1, "ab");
  }

  lemma TwoMasks()
    requires AllSafe(["xa", "by", "ab"])
    ensures RedactIn("xaby", ["xa", "by", "ab"]) == "******"
  {
    hide RedactIn, Fates, AllSafe, Render, Masked;
    var text, f := "xaby", Fates("xaby", 0, 4, ["xa", "by", "ab"]);
    TwoSpans();
    RedactionIsMasking(text, 0, 4, ["xa", "by", "ab"]);
    assert text[0..4] == text;
    assert f == [] + Masked(Span(0, 2)) + Masked(Span(2, 4)) by {
      assert f[0] == At(f, 0, 0) && f[1] == At(f, 0, 1) && f[2] == At(f, 0, 2) && f[3] == At(f, 0, 3);
    }
    RenderAround(text, 0, [], Span(0, 2), Masked(Span(2, 4)));
    RenderMasked(text, 2, Masked(Span(2, 4)), Span(2, 4));
    NothingRendered(text);
    assert MASK + MASK == "******" && [] + MASK + MASK == "******";
  }

  lemma NothingRendered(text: string)
    ensures Render(text, 0, []) == ""
  {
  }

  lemma TwoSpans()
    ensures var f := Fates("xaby", 0, 4, ["xa", "by", "ab"]);
            && At(f, 0, 0) == At(f, 0, 1) == Some(Span(0, 2))
            && At(f, 0, 2) == At(f, 0, 3) == Some(Span(2, 4))
  {
    hide Fates, Scan, Masked;
    var text, order := "xaby", ["xa", "by", "ab"];
    assert order[1..] == ["by", "ab"] && text[0..2] == "xa" && text[2..4] == "by";
    FatesOfTwo(text, 0, 4, order);
    FatesOfTwo(text, 2, 4, order[1..]);
    ScanStep(text, 0, 0, 4, order);
    ScanStep(text, 2, 2, 4, order);
    ScanStep(text, 2, 3, 4, order);
    ScanStep(text, 2, 2, 4, order[1..]);
  }

  lemma FatesOfTwo(text: string, a: nat, b: nat, order: seq<string>)
    requires a <= b <= |text| && NonEmpty(order) && order != []
    ensures Fates(text, a, b, order) == Scan(text, a, a, b, order)
  {
  }

  // ---------------------------------------------------------------------
  // Values that are masked as a whole everywhere
  // ---------------------------------------------------------------------

  /** The last `k` characters of one value are the first `k` of the other. */
  predicate Overlap(u: string, v: string, k: nat) { 0 < k < |u| && k < |v| && u[|u| - k..] == v[..k] }

  function Merged(u: string, v: string, k: nat): string
    requires k <= |v|
  {
    u + v[k..]
  }

  /** What two overlapping values make together is a value too; in particular when no value
    * ends as one begins. */
  ghost predicate MergesAreValues(values: seq<string>) {
    forall u, v, k: nat :: u in values && v in values && Overlap(u, v, k) ==> Merged(u, v, k) in values
  }

  /** In every text, longest first, every occurrence of a value is masked as a whole. */
  ghost predicate AlwaysWhole(values: seq<string>) {
    forall text: string, order, v, i: nat ::
      LongestFirst(order, values) && v in order && v != "" && OccursAt(v, text, i) ==>
        Whole(Fates(text, 0, |text|, order), 0, i, |v|)
  }

  lemma MergesInText(text: string, a: nat, b: nat, c: nat, d: nat)
    requires a < b < c < d <= |text|
    ensures Overlap(text[a..c], text[b..d], c - b) && Merged(text[a..c], text[b..d], c - b) == text[a..d]
  {
    var u, v, k := text[a..c], text[b..d], c - b;
    assert u[|u| - k..] == text[b..c] && v[..k] == text[b..c];
    assert v[k..] == text[c..d];
  }

  /** A span that takes one end of an occurrence away makes a longer value with it. */
  lemma StraddlingMerges(text: string, values: seq<string>, v: string, i: nat, h: Span) returns (w: string, at: nat)
    requires MergesAreValues(values) && v in values && OccursAt(v, text, i) && Straddles(h, i, |v|)
    requires h.to <= |text| && text[h.from..h.to] in values
    ensures w in values && OccursAt(w, text, at) && |w| > |v| && |w| > h.to - h.from
    ensures at <= h.from && h.to <= at + |w|
  {
    hide Overlap, Merged;
    if h.from < i {
      MergesInText(text, h.from, i, h.to, i + |v|);
      w, at := text[h.from..i + |v|], h.from;
    } else {
      MergesInText(text, i, h.from, i + |v|, h.to);
      w, at := text[i..h.to], i;
    }
  }

  /** Otherwise the longer value would have been masked first. */
  lemma {:induction false} MergedIsWhole(text: string, values: seq<string>, order: seq<string>, v: string, i: nat)
    requires MergesAreValues(values) && LongestFirst(order, values) && v in order && OccursAt(v, text, i)
    ensures |v| > 0 && Whole(Fates(text, 0, |text|, order), 0, i, |v|)
    decreases |text| - |v|
  {
    hide Fates, MergesAreValues, OccursAt;
    InText(v, text, i);
    var f := Fates(text, 0, |text|, order);
    MaskedWholeExactly(text, values, order, i, v);
    if Straddled(f, 0, i, |v|) {
      var p :| i <= p < i + |v| && At(f, 0, p).Some? && Straddles(At(f, 0, p).value, i, |v|);
      var h := At(f, 0, p).value;
      SpansAreOccurrences(text, 0, |text|, order, p);
      var w, at := StraddlingMerges(text, values, v, i, h);
      InText(w, text, at);
      MergedIsWhole(text, values, order, w, at);
    }
  }

  lemma InText(v: string, text: string, i: nat)
    requires OccursAt(v, text, i)
    ensures i + |v| <= |text|
  {
  }

  lemma {:induction false} OrderOf(vs: set<string>) returns (order: seq<string>)
    ensures forall v :: v in order <==> v in vs
    ensures forall i, j :: 0 <= i < j < |order| ==> order[i] != order[j] && |order[i]| >= |order[j]|
    decreases |vs|
  {
    if vs == {} {
      order := [];
    } else {
      LongestExists(vs);
      var v :| v in vs && forall u :: u in vs ==> |u| <= |v|;
      var rest := OrderOf(vs - {v});
      order := [v] + rest;
      assert forall j :: 0 < j < |order| ==> order[j] == rest[j - 1] && order[j] in vs - {v};
    }
  }

  lemma AnOrder(values: seq<string>, u: string, v: string) returns (order: seq<string>)
    requires u in values && v in values && u != "" && v != ""
    ensures LongestFirst(order, values) && u in order && v in order
  {
    order := OrderOf(set w | w in values && w != "");
    assert forall k :: 0 <= k < |order| ==> order[k] in order;
  }

  /** The text two values make together cannot mask both of them as a whole. */
  lemma MergeFails(values: seq<string>, u: string, v: string, k: nat)
    requires u in values && v in values && Overlap(u, v, k) && Merged(u, v, k) !in values
    ensures !AlwaysWhole(values)
  {
    hide Fates, Whole, LongestFirst, OccursAt;
    var order := AnOrder(values, u, v);
    var text := Merged(u, v, k);
    BothOccur(u, v, k);
    if AlwaysWhole(values) {
      assert Whole(Fates(text, 0, |text|, order), 0, 0, |u|);
      assert Whole(Fates(text, 0, |text|, order), 0, |u| - k, |v|);
      OneSpanForBoth(text, values, order, u, v, k);
    }
  }

  lemma BothOccur(u: string, v: string, k: nat)
    requires Overlap(u, v, k)
    ensures OccursAt(u, Merged(u, v, k), 0) && OccursAt(v, Merged(u, v, k), |u| - k)
  {
    var text := Merged(u, v, k);
    assert text[0..|u|] == u;
    assert text[|u| - k..|u| - k + |v|] == u[|u| - k..] + v[k..] == v[..k] + v[k..] == v;
  }

  lemma OneSpanForBoth(text: string, values: seq<string>, order: seq<string>, u: string, v: string, k: nat)
    requires Overlap(u, v, k) && text == Merged(u, v, k) && LongestFirst(order, values)
    requires Whole(Fates(text, 0, |text|, order), 0, 0, |u|) && Whole(Fates(text, 0, |text|, order), 0, |u| - k, |v|)
    ensures text in values
  {
    hide Fates;
    var f := Fates(text, 0, |text|, order);
    assert At(f, 0, |u| - k) == At(f, 0, 0);
    SpansAreOccurrences(text, 0, |text|, order, 0);
    assert text[0..|text|] == text;
  }

  /** Exactly which values are masked as a whole in every text: those whose merges are values. */
  lemma WholeEverywhereExactly(values: seq<string>)
    ensures AlwaysWhole(values) <==> MergesAreValues(values)
    ensures (forall u, v, k: nat :: u in values && v in values ==> !Overlap(u, v, k)) ==> AlwaysWhole(values)
  {
    hide Whole, Fates;
    if MergesAreValues(values) {
      forall text: string, order, v, i: nat | LongestFirst(order, values) && v in order && v != "" && OccursAt(v, text, i)
        ensures Whole(Fates(text, 0, |text|, order), 0, i, |v|)
      {
        MergedIsWhole(text, values, order, v, i);
      }
    } else {
      var u, v, k: nat :| u in values && v in values && Overlap(u, v, k) && Merged(u, v, k) !in values;
      MergeFails(values, u, v, k);
    }
  }
}
