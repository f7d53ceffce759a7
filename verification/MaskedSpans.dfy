/** Where `redact` puts its masks: which characters of the text each mask stands for. */
module MaskedSpans {
  import opened Base
  import opened Redaction

  /** A replaced occurrence, by its place in the original text. */
  datatype Span = Span(from: nat, to: nat)

  /** What becomes of the characters `a..b`: None for one that is kept. Each value is looked
    * for in what the values before it have left, which falls into separate stretches. */
  function Fates(text: string, a: nat, b: nat, order: seq<string>): (f: seq<Option<Span>>)
    requires a <= b <= |text| && NonEmpty(order)
    ensures |f| == b - a
    decreases |order|, b - a, 1
  {
    if order == [] then seq(b - a, _ => None) else Scan(text, a, a, b, order)
  }

  /** The first value's leftmost matches from `a` on; the stretch before the next match
    * starts at `s`. */
  function Scan(text: string, s: nat, a: nat, b: nat, order: seq<string>): (f: seq<Option<Span>>)
    requires s <= a <= b <= |text| && NonEmpty(order) && order != []
    ensures |f| == b - s
    decreases |order|, b - a, 0
  {
    var u := order[0];
    if b - a < |u| then Fates(text, s, b, order[1..])
    else if text[a..a + |u|] == u then
      Fates(text, s, a, order[1..]) + Masked(Span(a, a + |u|)) + Scan(text, a + |u|, a + |u|, b, order)
    else Scan(text, s, a + 1, b, order)
  }

  /** The characters of one span. */
  function Masked(h: Span): (f: seq<Option<Span>>)
    requires h.from <= h.to
    ensures |f| == h.to - h.from && forall k :: 0 <= k < |f| ==> f[k] == Some(h)
  {
    seq(h.to - h.from, _ => Some(h))
  }

  lemma ScanStep(text: string, s: nat, a: nat, b: nat, order: seq<string>)
    requires s <= a <= b <= |text| && NonEmpty(order) && order != []
    ensures NonEmpty(order[1..]) && order[0] != ""
    ensures var m := a + |order[0]|;
            Scan(text, s, a, b, order) ==
            if b < m then Fates(text, s, b, order[1..])
            else if text[a..m] == order[0] then
              Fates(text, s, a, order[1..]) + Masked(Span(a, m)) + Scan(text, m, m, b, order)
            else Scan(text, s, a + 1, b, order)
  {
    hide Fates;
  }

  /** The text with every span replaced by one mask, in place. */
  function Render(text: string, a: nat, f: seq<Option<Span>>): string
    requires a + |f| <= |text|
    decreases |f|
  {
    if f == [] then ""
    else
      (match f[0]
       case None => [text[a]]
       case Some(h) => if h.from == a then MASK else "") + Render(text, a + 1, f[1..])
  }

  lemma {:induction false} RenderJoin(text: string, a: nat, f: seq<Option<Span>>, g: seq<Option<Span>>)
    requires a + |f| + |g| <= |text|
    ensures Render(text, a, f + g) == Render(text, a, f) + Render(text, a + |f|, g)
    decreases |f|
  {
    if f == [] {
      assert f + g == g;
    } else {
      assert (f + g)[1..] == f[1..] + g;
      RenderJoin(text, a + 1, f[1..], g);
    }
  }

  lemma {:induction false} RenderKept(text: string, a: nat, f: seq<Option<Span>>)
    requires a + |f| <= |text| && forall k :: 0 <= k < |f| ==> f[k].None?
    ensures Render(text, a, f) == text[a..a + |f|]
    decreases |f|
  {
    if f != [] {
      RenderKept(text, a + 1, f[1..]);
      assert text[a..a + |f|] == [text[a]] + text[a + 1..a + |f|];
    }
  }

  lemma {:induction false} RenderMasked(text: string, a: nat, f: seq<Option<Span>>, h: Span)
    requires a + |f| <= |text| && h.from <= a && forall k :: 0 <= k < |f| ==> f[k] == Some(h)
    ensures Render(text, a, f) == if f != [] && h.from == a then MASK else ""
    decreases |f|
  {
    if f != [] {
      RenderMasked(text, a + 1, f[1..], h);
    }
  }

  // ---------------------------------------------------------------------
  // Redaction is masking in place
  // ---------------------------------------------------------------------

  /** A safe value does not match at the start of what precedes a mask, unless within it. */
  lemma NoMatchIntoMask(p: string, q: string, u: string)
    requires StarSafe(u) && !(|u| <= |p| && p[..|u|] == u)
    ensures !OccursAt(u, p + MASK + q, 0)
  {
    var t := p + MASK + q;
    if |u| <= |t| {
      var w := t[..|u|];
      assert t[0..|u|] == w;
      if |u| <= |p| {
        assert w == p[..|u|];
      } else if |u| <= |p| + 3 {
        assert w[|u| - 1] == '*';
      } else {
        assert w[|p|..|p| + 3] == MASK;
        OccursHere(MASK, w, |p|);
      }
    }
  }

  /** Replacing works on both sides of a mask separately. */
  lemma {:induction false} ReplaceAcrossMask(p: string, q: string, u: string)
    requires StarSafe(u)
    ensures Replace(p + MASK + q, u) == Replace(p, u) + MASK + Replace(q, u)
    decreases |p|
  {
    hide OccursAt, Occurs, Replace;
    var t := p + MASK + q;
    if p == "" {
      assert t == MASK + q;
      forall j | 0 <= j < |MASK| ensures !OccursAt(u, MASK + q, j) {
        assert (MASK + q)[j] == MASK[j] == '*';
        NotAtStar(u, MASK + q, j);
      }
      SkipPrefix(MASK, q, u);
      EmptyReplaced(u);
      assert "" + MASK == MASK;
    } else if |u| <= |p| && p[..|u|] == u {
      var r := p[|u|..];
      ReplaceFront(u, r);
      ReplaceFront(u, r + MASK + q);
      assert p == u + r && t == u + (r + MASK + q);
      ReplaceAcrossMask(r, q, u);
      Regroup(MASK, Replace(r, u), MASK, Replace(q, u));
    } else {
      var r := p[1..];
      NoMatchIntoMask(p, q, u);
      NotAtFront(p, u);
      ReplaceNext(t, u);
      ReplaceNext(p, u);
      assert t[1..] == r + MASK + q;
      ReplaceAcrossMask(r, q, u);
      Regroup([p[0]], Replace(r, u), MASK, Replace(q, u));
    }
  }

  lemma Regroup(a: string, b: string, c: string, d: string)
    ensures a + (b + c + d) == (a + b) + c + d
  {
  }

  lemma ReplaceFront(u: string, rest: string)
    requires u != ""
    ensures Replace(u + rest, u) == MASK + Replace(rest, u)
  {
    assert (u + rest)[..|u|] == u && (u + rest)[|u|..] == rest;
  }

  lemma NotAtStar(u: string, s: string, j: nat)
    requires StarSafe(u) && j < |s| && s[j] == '*'
    ensures !OccursAt(u, s, j)
  {
    if j + |u| <= |s| {
      assert s[j..j + |u|][0] == s[j];
    }
  }

  lemma NotAtFront(p: string, u: string)
    requires !(|u| <= |p| && p[..|u|] == u)
    ensures !OccursAt(u, p, 0)
  {
  }

  lemma EmptyReplaced(u: string)
    requires StarSafe(u)
    ensures Replace("", u) == ""
  {
  }

  lemma {:induction false} RedactAcrossMask(p: string, q: string, order: seq<string>)
    requires NonEmpty(order) && AllSafe(order)
    ensures RedactIn(p + MASK + q, order) == RedactIn(p, order) + MASK + RedactIn(q, order)
    decreases |order|
  {
    if order != [] {
      ReplaceAcrossMask(p, q, order[0]);
      RedactAcrossMask(Replace(p, order[0]), Replace(q, order[0]), order[1..]);
    }
  }

  /** The redacted text is the original with every span replaced by one mask where it
    * stood, and every other character kept. */
  lemma {:induction false} RedactionIsMasking(text: string, a: nat, b: nat, order: seq<string>)
    requires a <= b <= |text| && NonEmpty(order) && AllSafe(order)
    ensures RedactIn(text[a..b], order) == Render(text, a, Fates(text, a, b, order))
    decreases |order|, b - a, 1
  {
    hide AllSafe, Replace, Scan;
    if order == [] {
      RenderKept(text, a, Fates(text, a, b, order));
    } else {
      ScanRenders(text, a, a, b, order);
      assert text[a..a] + Replace(text[a..b], order[0]) == Replace(text[a..b], order[0]);
    }
  }

  /** What is shown around a span: what comes before, one mask, what comes after. */
  lemma RenderAround(text: string, s: nat, before: seq<Option<Span>>, h: Span, after: seq<Option<Span>>)
    requires s + |before| == h.from < h.to && h.to + |after| <= |text|
    ensures Render(text, s, before + Masked(h) + after) == Render(text, s, before) + MASK + Render(text, h.to, after)
  {
    hide Render;
    var masked := Masked(h);
    RenderMasked(text, h.from, masked, h);
    RenderJoin(text, s, before + masked, after);
    RenderJoin(text, s, before, masked);
  }

  lemma {:induction false} ScanRenders(text: string, s: nat, a: nat, b: nat, order: seq<string>)
    requires s <= a <= b <= |text| && NonEmpty(order) && AllSafe(order) && order != []
    ensures RedactIn(text[s..a] + Replace(text[a..b], order[0]), order[1..]) == Render(text, s, Scan(text, s, a, b, order))
    decreases |order|, b - a, 0
  {
    hide RedactIn, Fates, Scan, Masked, Render, Replace, StarSafe, NonEmpty;
    var u, rest := order[0], order[1..];
    ScanStep(text, s, a, b, order);
    if b - a < |u| {
      ReplaceShort(text[a..b], u);
      assert text[s..a] + text[a..b] == text[s..b];
      RedactionIsMasking(text, s, b, rest);
    } else if text[a..a + |u|] == u {
      var m := a + |u|;
      ReplaceStep(text, a, b, u);
      var tail := Replace(text[m..b], u);
      assert text[s..a] + (MASK + tail) == text[s..a] + MASK + tail;
      RedactAcrossMask(text[s..a], tail, rest);
      RedactionIsMasking(text, s, a, rest);
      ScanRenders(text, m, m, b, order);
      assert text[m..m] + tail == tail;
      RenderAround(text, s, Fates(text, s, a, rest), Span(a, m), Scan(text, m, m, b, order));
    } else {
      ReplaceStep(text, a, b, u);
      assert text[s..a] + ([text[a]] + Replace(text[a + 1..b], u)) == text[s..a + 1] + Replace(text[a + 1..b], u);
      ScanRenders(text, s, a + 1, b, order);
    }
  }

  lemma ReplaceShort(s: string, u: string)
    requires u != "" && |s| < |u|
    ensures Replace(s, u) == s
  {
  }

  lemma ReplaceUnfolds(s: string, u: string)
    requires u != "" && |u| <= |s|
    ensures Replace(s, u) == if s[..|u|] == u then MASK + Replace(s[|u|..], u) else [s[0]] + Replace(s[1..], u)
  {
  }

  lemma ReplaceStep(text: string, a: nat, b: nat, u: string)
    requires u != "" && a + |u| <= b <= |text|
    ensures Replace(text[a..b], u) ==
            if text[a..a + |u|] == u then MASK + Replace(text[a + |u|..b], u) else [text[a]] + Replace(text[a + 1..b], u)
  {
    hide Replace;
    ReplaceUnfolds(text[a..b], u);
    assert text[a..b][..|u|] == text[a..a + |u|];
    assert text[a..b][|u|..] == text[a + |u|..b] && text[a..b][1..] == text[a + 1..b];
  }

  // ---------------------------------------------------------------------
  // When an occurrence is masked as a whole
  // ---------------------------------------------------------------------

  /** The fate of the character at `p`, the first one listed being at `a`. */
  function At(f: seq<Option<Span>>, a: nat, p: nat): Option<Span>
    requires a <= p < a + |f|
  {
    f[p - a]
  }

  /** One mask stands for all of the occurrence at `i`. */
  predicate Whole(f: seq<Option<Span>>, a: nat, i: nat, n: nat)
    requires a <= i && i + n <= a + |f| && n > 0
  {
    && At(f, a, i).Some? && At(f, a, i).value.from <= i && i + n <= At(f, a, i).value.to
    && forall p :: i <= p < i + n ==> At(f, a, p) == At(f, a, i)
  }

  /** The span covers one end of the occurrence and goes beyond it, but not the other. */
  predicate Straddles(h: Span, i: nat, n: nat) { h.from < i < h.to < i + n || i < h.from < i + n < h.to }

  predicate Straddled(f: seq<Option<Span>>, a: nat, i: nat, n: nat)
    requires a <= i && i + n <= a + |f|
  {
    exists p :: i <= p < i + n && At(f, a, p).Some? && Straddles(At(f, a, p).value, i, n)
  }

  predicate MatchAt(text: string, j: nat, b: nat, u: string)
    requires b <= |text|
  {
    j + |u| <= b && text[j..j + |u|] == u
  }

  predicate Descending(order: seq<string>) { forall j, k :: 0 <= j < k < |order| ==> |order[j]| >= |order[k]| }

  lemma {:induction false} OccurrenceFate(text: string, a: nat, b: nat, order: seq<string>, i: nat, v: string)
    requires a <= b <= |text| && NonEmpty(order) && Descending(order) && v in order
    requires a <= i && i + |v| <= b && text[i..i + |v|] == v
    ensures |v| > 0
    ensures Whole(Fates(text, a, b, order), a, i, |v|) || Straddled(Fates(text, a, b, order), a, i, |v|)
    decreases |order|, b - a, 1
  {
    ScanFate(text, a, a, b, order, i, v);
  }

  lemma LongestIsFirst(order: seq<string>, v: string)
    requires NonEmpty(order) && Descending(order) && v in order
    ensures |order[0]| >= |v| > 0 && Descending(order[1..]) && (v == order[0] || v in order[1..])
  {
  }

  lemma {:induction false} ScanFate(text: string, s: nat, a: nat, b: nat, order: seq<string>, i: nat, v: string)
    requires s <= a <= b <= |text| && NonEmpty(order) && Descending(order) && v in order
    requires s <= i && i + |v| <= b && text[i..i + |v|] == v
    requires forall j :: s <= j < a ==> !MatchAt(text, j, b, order[0])
    ensures |v| > 0
    ensures Whole(Scan(text, s, a, b, order), s, i, |v|) || Straddled(Scan(text, s, a, b, order), s, i, |v|)
    decreases |order|, b - a, 0
  {
    hide Fates, Scan, Masked, Whole, Straddled, NonEmpty;
    var u, rest, n := order[0], order[1..], |v|;
    ScanStep(text, s, a, b, order);
    LongestIsFirst(order, v);
    assert i < a ==> !MatchAt(text, i, b, u);
    assert v == u ==> MatchAt(text, i, b, u);
    if b - a < |u| {
      assert v != u && v in rest;
      OccurrenceFate(text, s, b, rest, i, v);
    } else if text[a..a + |u|] == u {
      var m := a + |u|;
      var before, masked := Fates(text, s, a, rest), Masked(Span(a, m));
      var after := Scan(text, m, m, b, order);
      if i + n <= a {
        assert v != u && v in rest;
        OccurrenceFate(text, s, a, rest, i, v);
        FateBefore(before, masked, after, s, i, n);
      } else if i >= m {
        ScanFate(text, m, m, b, order, i, v);
        FateAfter(before, masked, after, m, i, n);
      } else {
        OverlapFate(before, masked, after, s, a, m, i, n);
      }
    } else {
      assert !MatchAt(text, a, b, u);
      ScanFate(text, s, a + 1, b, order, i, v);
    }
  }

  /** The verdict on an occurrence within one part holds in the whole. */
  lemma FateWithin(x: seq<Option<Span>>, f: seq<Option<Span>>, y: seq<Option<Span>>, a: nat, i: nat, n: nat)
    requires |x| <= a <= i && i + n <= a + |f| && n > 0
    ensures Whole(f, a, i, n) ==> Whole(x + f + y, a - |x|, i, n)
    ensures Straddled(f, a, i, n) ==> Straddled(x + f + y, a - |x|, i, n)
  {
    var all, base := x + f + y, a - |x|;
    assert forall p :: i <= p < i + n ==> At(all, base, p) == At(f, a, p);
    forall p | Whole(f, a, i, n) && i <= p < i + n ensures At(all, base, p) == At(all, base, i) {
      assert At(f, a, p) == At(f, a, i);
    }
  }

  lemma FateBefore(before: seq<Option<Span>>, masked: seq<Option<Span>>, after: seq<Option<Span>>, a: nat, i: nat, n: nat)
    requires a <= i && i + n <= a + |before| && n > 0
    requires Whole(before, a, i, n) || Straddled(before, a, i, n)
    ensures Whole(before + masked + after, a, i, n) || Straddled(before + masked + after, a, i, n)
  {
    hide Whole, Straddled;
    FateWithin([], before, masked + after, a, i, n);
    assert [] + before + (masked + after) == before + masked + after;
  }

  lemma FateAfter(before: seq<Option<Span>>, masked: seq<Option<Span>>, after: seq<Option<Span>>, m: nat, i: nat, n: nat)
    requires |before| + |masked| <= m <= i && i + n <= m + |after| && n > 0
    requires Whole(after, m, i, n) || Straddled(after, m, i, n)
    ensures var a := m - |before| - |masked|;
            Whole(before + masked + after, a, i, n) || Straddled(before + masked + after, a, i, n)
  {
    hide Whole, Straddled;
    FateWithin(before + masked, after, [], m, i, n);
    assert before + masked + after + [] == before + masked + after;
  }

  /** The occurrence meets the span `a..m` of a value that is no shorter. */
  lemma OverlapFate(before: seq<Option<Span>>, masked: seq<Option<Span>>, after: seq<Option<Span>>,
                    s: nat, a: nat, m: nat, i: nat, n: nat)
    requires s <= a < m && |before| == a - s && |masked| == m - a && 0 < n <= m - a
    requires forall k :: 0 <= k < |masked| ==> masked[k] == Some(Span(a, m))
    requires s <= i && i + n <= m + |after| && i + n > a && i < m
    ensures Whole(before + masked + after, s, i, n) || Straddled(before + masked + after, s, i, n)
  {
    var all := before + masked + after;
    assert forall p :: a <= p < m ==> At(all, s, p) == Some(Span(a, m));
    if a <= i && i + n <= m {
      assert Whole(all, s, i, n);
    } else {
      var p := if i < a then a else i;
      assert At(all, s, p).Some? && Straddles(At(all, s, p).value, i, n);
    }
  }

  /** Every span is an occurrence of one of the values. */
  lemma {:induction false} SpansAreOccurrences(text: string, a: nat, b: nat, order: seq<string>, p: nat)
    requires a <= p < b <= |text| && NonEmpty(order)
    ensures var f := Fates(text, a, b, order);
            At(f, a, p).Some? ==> var h := At(f, a, p).value; a <= h.from <= p < h.to <= b && text[h.from..h.to] in order
    decreases |order|, b - a, 1
  {
    if order != [] {
      ScanSpans(text, a, a, b, order, p);
    }
  }

  lemma {:induction false} ScanSpans(text: string, s: nat, a: nat, b: nat, order: seq<string>, p: nat)
    requires s <= a <= b <= |text| && s <= p < b && NonEmpty(order) && order != []
    ensures var f := Scan(text, s, a, b, order);
            At(f, s, p).Some? ==> var h := At(f, s, p).value; s <= h.from <= p < h.to <= b && text[h.from..h.to] in order
    decreases |order|, b - a, 0
  {
    hide Fates, Scan, Masked, NonEmpty;
    var u, rest := order[0], order[1..];
    ScanStep(text, s, a, b, order);
    assert order == [u] + rest;
    if b - a < |u| {
      SpansAreOccurrences(text, s, b, rest, p);
    } else if text[a..a + |u|] == u {
      if p < a {
        SpansAreOccurrences(text, s, a, rest, p);
      } else if p >= a + |u| {
        ScanSpans(text, a + |u|, a + |u|, b, order, p);
      }
    } else {
      ScanSpans(text, s, a + 1, b, order, p);
    }
  }

  /** Longest first, an occurrence of a value anywhere in a text is masked as a whole exactly
    * when no replaced occurrence, of a value before it or of itself, straddles one of its
    * ends. */
  lemma MaskedWholeExactly(text: string, values: seq<string>, order: seq<string>, i: nat, v: string)
    requires LongestFirst(order, values) && v in order && OccursAt(v, text, i)
    ensures |v| > 0
    ensures Whole(Fates(text, 0, |text|, order), 0, i, |v|) <==> !Straddled(Fates(text, 0, |text|, order), 0, i, |v|)
  {
    hide Fates;
    OccurrenceFate(text, 0, |text|, order, i, v);
  }

  /** It is enough that no occurrence of a value in the text straddles it. */
  lemma NothingStraddlesIsEnough(text: string, values: seq<string>, order: seq<string>, i: nat, v: string)
    requires LongestFirst(order, values) && v in order && OccursAt(v, text, i)
    requires forall h: Span :: h.from <= h.to <= |text| && text[h.from..h.to] in order ==> !Straddles(h, i, |v|)
    ensures |v| > 0 && Whole(Fates(text, 0, |text|, order), 0, i, |v|)
  {
    hide Fates, Whole;
    MaskedWholeExactly(text, values, order, i, v);
    forall p | i <= p < i + |v|
      ensures var f := Fates(text, 0, |text|, order); At(f, 0, p).Some? ==> !Straddles(At(f, 0, p).value, i, |v|)
    {
      SpansAreOccurrences(text, 0, |text|, order, p);
    }
  }

  /** Otherwise part of a secret can be left: the longer value takes its end away. */
  lemma StraddledSecretShows()
    ensures LongestFirst(["cdefg", "abc"], ["abc", "cdefg"]) && AllSafe(["cdefg", "abc"])
    ensures RedactIn("abcdefg", ["cdefg", "abc"]) == "ab***"
  {
    hide StarSafe, Occurs, OccursAt, Replace;
    NoStarIsSafe("cdefg");
    NoStarIsSafe("abc");
    assert ["cdefg", "abc"][1..] == ["abc"] && ["abc"][1..] == [];
    StraddledFirst();
    CharMissing("abc", "ab***", 'c');
    NothingToReplace("ab***", "abc");
    assert RedactIn("ab***", ["abc"]) == "ab***";
  }

  lemma StraddledFirst()
    ensures Replace("abcdefg", "cdefg") == "ab***"
  {
    hide Replace;
    forall j | 0 <= j < 2 ensures !OccursAt("cdefg", "ab" + "cdefg", j) {
      assert ("ab" + "cdefg")[j] != 'c';
      OtherStart("cdefg", "ab" + "cdefg", j);
    }
    SkipPrefix("ab", "cdefg", "cdefg");
    ReplaceWhole("cdefg", "");
    assert "ab" + "cdefg" == "abcdefg" && "cdefg" + "" == "cdefg";
  }

  lemma OtherStart(v: string, s: string, j: nat)
    requires v != "" && j < |s| && s[j] != v[0]
    ensures !OccursAt(v, s, j)
  {
    if j + |v| <= |s| {
      assert s[j..j + |v|][0] == s[j];
    }
  }

  lemma CharMissing(v: string, s: string, c: char)
    requires c in v && c !in s
    ensures !Occurs(v, s)
  {
    var k :| 0 <= k < |v| && v[k] == c;
    forall i | 0 <= i <= |s| - |v| ensures !OccursAt(v, s, i) {
      assert s[i..i + |v|][k] == s[i + k];
    }
  }

  lemma NoStarIsSafe(v: string)
    requires v != "" && '*' !in v
    ensures StarSafe(v)
  {
    assert MASK[0] == '*';
    CharMissing(MASK, v, '*');
  }
}
