/** `redact`: secret values are replaced in output, longest first. */
module Redaction {
  import opened Base

  const MASK := "***"

  predicate OccursAt(v: string, s: string, i: int) { 0 <= i <= |s| - |v| && s[i..i + |v|] == v }

  predicate Occurs(v: string, s: string) { exists i :: 0 <= i <= |s| - |v| && OccursAt(v, s, i) }

  /** `text.replace(v, "***")`: leftmost occurrences, not overlapping. */
  function Replace(text: string, v: string): string
    requires v != ""
    decreases |text|
  {
    if |text| < |v| then text
    else if text[..|v|] == v then MASK + Replace(text[|v|..], v)
    else [text[0]] + Replace(text[1..], v)
  }

  predicate NonEmpty(order: seq<string>) { forall k :: 0 <= k < |order| ==> order[k] != "" }

  function RedactIn(text: string, order: seq<string>): string
    requires NonEmpty(order)
    decreases |order|
  {
    if order == [] then text else RedactIn(Replace(text, order[0]), order[1..])
  }

  /** The values as `sorted` may list them: each once, none empty, no longer one after a
    * shorter one. Values of one length come in any order. */
  ghost predicate LongestFirst(order: seq<string>, values: seq<string>) {
    && (forall v :: v in order <==> v in values && v != "")
    && NonEmpty(order)
    && (forall i, j :: 0 <= i < j < |order| ==> order[i] != order[j] && |order[i]| >= |order[j]|)
  }

  method SortLongestFirst(values: seq<string>) returns (order: seq<string>)
    ensures LongestFirst(order, values)
  {
    var todo := set v | v in values && v != "";
    order := [];
    while todo != {}
      invariant forall v :: v in values && v != "" <==> v in todo || v in order
      invariant forall v :: v in todo ==> v !in order
      invariant NonEmpty(order)
      invariant forall i, j :: 0 <= i < j < |order| ==> order[i] != order[j] && |order[i]| >= |order[j]|
      invariant forall i, v :: 0 <= i < |order| && v in todo ==> |order[i]| >= |v|
      decreases |todo|
    {
      LongestExists(todo);
      var v :| v in todo && forall u :: u in todo ==> |u| <= |v|;
      order := order + [v];
      todo := todo - {v};
    }
  }

  lemma {:induction false} LongestExists(vs: set<string>)
    requires vs != {}
    ensures exists v :: v in vs && forall u :: u in vs ==> |u| <= |v|
    decreases |vs|
  {
    var v :| v in vs;
    var rest := vs - {v};
    if rest != {} {
      LongestExists(rest);
      var w :| w in rest && forall u :: u in rest ==> |u| <= |w|;
      var longest := if |v| >= |w| then v else w;
      assert longest in vs && forall u :: u in vs ==> |u| <= |longest|;
    } else {
      assert vs == {v};
    }
  }

  /** `redact` */
  method Redact(text: string, values: seq<string>) returns (out: string)
    ensures exists order :: LongestFirst(order, values) && out == RedactIn(text, order)
  {
    var order := SortLongestFirst(values);
    if text == "" {
      EmptyStays(order);
      return text;
    }
    out := text;
    for k := 0 to |order|
      invariant RedactIn(out, order[k..]) == RedactIn(text, order)
    {
      out := Replace(out, order[k]);
      assert order[k..][1..] == order[k + 1..];
    }
  }

  lemma {:induction false} EmptyStays(order: seq<string>)
    requires NonEmpty(order)
    ensures RedactIn("", order) == ""
  {
    if order != [] {
      EmptyStays(order[1..]);
    }
  }

  // ---------------------------------------------------------------------
  // One replacement
  // ---------------------------------------------------------------------

  /** No mask can be part of the value: not at its ends, not whole. */
  predicate StarSafe(v: string) { v != "" && v[0] != '*' && v[|v| - 1] != '*' && !Occurs(MASK, v) }

  /** A stretch of the result that starts with kept text and cannot end in or hold a mask is kept. */
  lemma {:induction false} PrefixIsKept(s: string, u: string, w: string)
    requires u != "" && w <= Replace(s, u)
    requires !Occurs(MASK, w) && (w == "" || w[|w| - 1] != '*')
    ensures w <= s
    decreases |s|
  {
    if w != "" && |s| >= |u| {
      if s[..|u|] == u {
        if |w| >= 3 {
          assert OccursAt(MASK, w, 0);
        }
      } else {
        if Occurs(MASK, w[1..]) {
          var i :| 0 <= i <= |w[1..]| - 3 && OccursAt(MASK, w[1..], i);
          assert OccursAt(MASK, w, i + 1);
        }
        PrefixIsKept(s[1..], u, w[1..]);
      }
    }
  }

  /** Replacing one value leaves no occurrence of it and makes no new occurrence of another. */
  lemma {:induction false} ReplaceMakesNothing(s: string, u: string, v: string, i: int)
    requires u != "" && StarSafe(v) && OccursAt(v, Replace(s, u), i)
    ensures v != u && Occurs(v, s)
    decreases |s|
  {
    hide Occurs, OccursAt;
    OccursStarts(v, Replace(s, u), i);
    if |s| < |u| {
      OccursHere(v, s, i);
    } else if s[..|u|] == u {
      OccursBehind(v, MASK, Replace(s[|u|..], u), i);
      ReplaceMakesNothing(s[|u|..], u, v, i - 3);
      OccursLater(v, s, |u|);
    } else if i == 0 {
      PrefixIsKept(s, u, v);
      PrefixOccurs(v, s);
    } else {
      OccursBehind(v, [s[0]], Replace(s[1..], u), i);
      ReplaceMakesNothing(s[1..], u, v, i - 1);
      OccursLater(v, s, 1);
    }
  }

  lemma OccursStarts(v: string, s: string, i: int)
    requires v != "" && OccursAt(v, s, i)
    ensures 0 <= i < |s| && |v| <= |s| && s[i] == v[0] && (i == 0 ==> v <= s)
  {
    assert s[i..i + |v|][0] == s[i];
  }

  lemma OccursBehind(v: string, front: string, s: string, i: int)
    requires i >= |front|
    ensures OccursAt(v, front + s, i) <==> OccursAt(v, s, i - |front|)
  {
    if i + |v| <= |front + s| {
      assert (front + s)[i..i + |v|] == s[i - |front|..i - |front| + |v|];
    }
  }

  lemma PrefixOccurs(v: string, s: string)
    requires v <= s
    ensures Occurs(v, s)
  {
    assert OccursAt(v, s, 0);
  }

  lemma OccursHere(v: string, s: string, i: int)
    requires OccursAt(v, s, i)
    ensures Occurs(v, s)
  {
  }

  lemma OccursLater(v: string, s: string, k: nat)
    requires k <= |s| && Occurs(v, s[k..])
    ensures Occurs(v, s)
  {
    var i :| 0 <= i <= |s[k..]| - |v| && OccursAt(v, s[k..], i);
    assert s[k..][i..i + |v|] == s[k + i..k + i + |v|];
    assert OccursAt(v, s, k + i);
  }

  lemma {:induction false} NothingToReplace(s: string, v: string)
    requires v != "" && !Occurs(v, s)
    ensures Replace(s, v) == s
    decreases |s|
  {
    if |s| >= |v| {
      assert !OccursAt(v, s, 0);
      if Occurs(v, s[1..]) {
        OccursLater(v, s, 1);
      }
      NothingToReplace(s[1..], v);
    }
  }

  // ---------------------------------------------------------------------
  // All values
  // ---------------------------------------------------------------------

  predicate AllSafe(order: seq<string>) { forall k :: 0 <= k < |order| ==> StarSafe(order[k]) }

  lemma {:induction false} StaysAbsent(s: string, order: seq<string>, v: string)
    requires NonEmpty(order) && StarSafe(v) && !Occurs(v, s)
    ensures !Occurs(v, RedactIn(s, order))
    decreases |order|
  {
    if order != [] {
      var next := Replace(s, order[0]);
      if Occurs(v, next) {
        var i :| 0 <= i <= |next| - |v| && OccursAt(v, next, i);
        ReplaceMakesNothing(s, order[0], v, i);
      }
      StaysAbsent(next, order[1..], v);
    }
  }

  /** A value that no mask can be part of is not left in the output, whatever the other
    * values are and in whatever order they were replaced. */
  lemma {:induction false} NothingLeaks(s: string, order: seq<string>, v: string)
    requires NonEmpty(order) && StarSafe(v) && v in order
    ensures !Occurs(v, RedactIn(s, order))
    decreases |order|
  {
    var next := Replace(s, order[0]);
    if v == order[0] {
      NeverLeft(s, v);
      StaysAbsent(next, order[1..], v);
    } else {
      NothingLeaks(next, order[1..], v);
    }
  }

  lemma {:induction false} AbsentMeansUnchanged(s: string, order: seq<string>)
    requires NonEmpty(order) && forall k :: 0 <= k < |order| ==> !Occurs(order[k], s)
    ensures RedactIn(s, order) == s
  {
    if order != [] {
      NothingToReplace(s, order[0]);
      AbsentMeansUnchanged(s, order[1..]);
    }
  }

  /** Redacting again for some of the values, in any order, changes nothing. */
  lemma RedactingTwice(s: string, order: seq<string>, again: seq<string>)
    requires NonEmpty(order) && NonEmpty(again) && AllSafe(again) && forall v :: v in again ==> v in order
    ensures RedactIn(RedactIn(s, order), again) == RedactIn(s, order)
  {
    var out := RedactIn(s, order);
    forall k | 0 <= k < |again| ensures !Occurs(again[k], out) {
      NothingLeaks(s, order, again[k]);
    }
    AbsentMeansUnchanged(out, again);
  }

  /** Longest first, a text that is one of the values becomes one mask, also if it contains
    * other values. */
  lemma {:induction false} WholeValueIsMasked(values: seq<string>, order: seq<string>, v: string)
    requires LongestFirst(order, values) && AllSafe(order) && v in order
    ensures RedactIn(v, order) == MASK
  {
    var k :| 0 <= k < |order| && order[k] == v;
    forall j | 0 <= j < k ensures !Occurs(order[j], v) {
      TooLongToOccur(order[j], v);
    }
    MaskedAt(order, k);
  }

  lemma TooLongToOccur(u: string, v: string)
    requires |u| >= |v| && u != v
    ensures !Occurs(u, v)
  {
    assert v[0..|v|] == v;
  }

  lemma {:induction false} MaskedAt(order: seq<string>, k: nat)
    requires NonEmpty(order) && AllSafe(order) && k < |order|
    requires forall j :: 0 <= j < k ==> !Occurs(order[j], order[k])
    ensures RedactIn(order[k], order) == MASK
  {
    if k == 0 {
      var v := order[0];
      assert v[..|v|] == v && v[|v|..] == "";
      assert Replace(v, v) == MASK + Replace("", v) == MASK;
      forall j | 0 <= j < |order[1..]| ensures !Occurs(order[1..][j], MASK) {
        NotInMask(order[1..][j]);
      }
      AbsentMeansUnchanged(MASK, order[1..]);
    } else {
      NothingToReplace(order[k], order[0]);
      MaskedAt(order[1..], k - 1);
    }
  }

  lemma NotInMask(v: string)
    requires StarSafe(v)
    ensures !Occurs(v, MASK)
  {
    forall i | 0 <= i <= 3 - |v| ensures !OccursAt(v, MASK, i) {
      assert MASK[i..i + |v|][0] == '*';
    }
  }

  // ---------------------------------------------------------------------
  // Which values are safe
  // ---------------------------------------------------------------------

  predicate LeaksFrom(text: string, v: string)
    requires v != ""
  {
    Occurs(v, Replace(text, v))
  }

  /** A value is never left in redacted output exactly when no mask can be part of it. */
  lemma SafeExactly(v: string)
    requires v != ""
    ensures StarSafe(v) <==> forall text :: !LeaksFrom(text, v)
  {
    hide StarSafe, Occurs, Replace;
    if StarSafe(v) {
      forall text ensures !LeaksFrom(text, v) {
        NeverLeft(text, v);
      }
    } else {
      var leaking := LeakingText(v);
      assert LeaksFrom(leaking, v);
    }
  }

  lemma NeverLeft(text: string, v: string)
    requires StarSafe(v)
    ensures !Occurs(v, Replace(text, v))
  {
    if Occurs(v, Replace(text, v)) {
      var i :| 0 <= i <= |Replace(text, v)| - |v| && OccursAt(v, Replace(text, v), i);
      ReplaceMakesNothing(text, v, v, i);
    }
  }

  /** A text whose redaction still shows the value. */
  lemma LeakingText(v: string) returns (text: string)
    requires v != "" && !StarSafe(v)
    ensures Occurs(v, Replace(text, v))
  {
    if Occurs(MASK, v) {
      text := MaskInside(v);
    } else if v[0] == '*' {
      text := StarInFront(v);
    } else {
      text := StarBehind(v);
    }
  }

  lemma {:induction false} SkipPrefix(x: string, s: string, v: string)
    requires v != "" && forall j :: 0 <= j < |x| ==> !OccursAt(v, x + s, j)
    ensures Replace(x + s, v) == x + Replace(s, v)
  {
    hide OccursAt;
    if x == "" {
      assert x + s == s;
    } else {
      assert (x + s)[1..] == x[1..] + s;
      forall j | 0 <= j < |x[1..]| ensures !OccursAt(v, x[1..] + s, j) {
        OccursShifted(v, x + s, j);
      }
      SkipPrefix(x[1..], s, v);
      ReplaceNext(x + s, v);
    }
  }

  lemma OccursShifted(v: string, s: string, j: nat)
    requires s != ""
    ensures OccursAt(v, s[1..], j) <==> OccursAt(v, s, j + 1)
  {
    if j + |v| <= |s[1..]| {
      assert s[1..][j..j + |v|] == s[j + 1..j + 1 + |v|];
    }
  }

  lemma ReplaceNext(s: string, v: string)
    requires v != "" && s != "" && !OccursAt(v, s, 0)
    ensures Replace(s, v) == [s[0]] + Replace(s[1..], v)
  {
    if |s| < |v| {
      assert s == [s[0]] + s[1..];
    }
  }

  lemma ReplaceWhole(v: string, rest: string)
    requires v != "" && |rest| < |v|
    ensures Replace(v + rest, v) == MASK + rest
  {
    assert (v + rest)[..|v|] == v && (v + rest)[|v|..] == rest;
  }

  lemma {:induction false} FirstOccurrence(v: string, s: string, from: nat) returns (n: nat)
    requires from <= |s| && exists i :: from <= i <= |s| - |v| && OccursAt(v, s, i)
    ensures from <= n && OccursAt(v, s, n) && forall j :: from <= j < n ==> !OccursAt(v, s, j)
    decreases |s| - from
  {
    if OccursAt(v, s, from) {
      n := from;
    } else {
      n := FirstOccurrence(v, s, from + 1);
    }
  }

  lemma MaskInside(v: string) returns (text: string)
    requires Occurs(MASK, v)
    ensures Occurs(v, Replace(text, v))
  {
    var n := FirstOccurrence(MASK, v, 0);
    text := v[..n] + (v + v[n + 3..]);
    MaskedFromInside(v, n);
    OccursHere(v, Replace(text, v), 0);
  }

  lemma MaskedFromInside(v: string, n: nat)
    requires OccursAt(MASK, v, n) && forall j :: 0 <= j < n ==> !OccursAt(MASK, v, j)
    ensures Replace(v[..n] + (v + v[n + 3..]), v) == v && OccursAt(v, v, 0)
  {
    var x, y := v[..n], v[n + 3..];
    assert v == x + (MASK + y) && v[0..|v|] == v;
    var text := x + (v + y);
    forall j | 0 <= j < n ensures !OccursAt(v, text, j) {
      NoEarlierMatch(v, n, j);
    }
    SkipPrefix(x, v + y, v);
    ReplaceWhole(v, y);
  }

  lemma NoEarlierMatch(v: string, n: nat, j: nat)
    requires j < n && OccursAt(MASK, v, n) && !OccursAt(MASK, v, j)
    ensures !OccursAt(v, v[..n] + (v + v[n + 3..]), j)
  {
    var text := v[..n] + (v + v[n + 3..]);
    assert text[j..j + |v|][n..n + 3] == text[j + n..j + n + 3];
    assert text[n..n + |v|] == v;
    assert text[n..n + |v|][j..j + 3] == text[j + n..j + n + 3];
  }

  lemma StarInFront(v: string) returns (text: string)
    requires v != "" && v[0] == '*' && !Occurs(MASK, v)
    ensures Occurs(v, Replace(text, v))
  {
    var k := if |v| >= 2 && v[1] == '*' then 2 else 1;
    var z := v[k..];
    text := v + z;
    ReplaceWhole(v, z);
    assert OccursAt(v, MASK + z, 3 - k);
  }

  lemma StarBehind(v: string) returns (text: string)
    requires v != "" && v[0] != '*' && v[|v| - 1] == '*' && !Occurs(MASK, v)
    ensures Occurs(v, Replace(text, v))
  {
    var k := if v[|v| - 2] == '*' then 2 else 1;
    var z := v[..|v| - k];
    text := z + v;
    forall j | 0 <= j < |z| ensures !OccursAt(v, text, j) {
      if j + |v| <= |text| {
        assert text[j..j + |v|][0] == z[j] && text[j..j + |v|][|z|] == v[j];
      }
    }
    SkipPrefix(z, v, v);
    assert v + "" == v;
    ReplaceWhole(v, "");
    assert v == z + MASK[..k];
    assert (z + MASK)[0..|v|] == v;
    assert MASK + "" == MASK;
    assert OccursAt(v, z + MASK, 0);
  }
}
