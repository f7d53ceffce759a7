/** Lines as the editor counts them: split on LF only, LF kept. */
module TextLines {
  import opened Base

  const LF: char := '\n'

  /** Position just after the first LF at or after `from`, or the length if there is none. */
  function LineEnd(text: string, from: nat): (e: nat)
    requires from <= |text|
    ensures from <= e <= |text| && (from < |text| ==> from < e)
    ensures forall k :: from <= k < e - 1 ==> text[k] != LF
    ensures from < e < |text| ==> text[e - 1] == LF
    decreases |text| - from
  {
    if from == |text| then from
    else if text[from] == LF then from + 1
    else LineEnd(text, from + 1)
  }

  /** `_split_keepends_lf`. */
  function SplitLf(text: string): seq<string>
    decreases |text|
  {
    if text == "" then [] else
      var e := LineEnd(text, 0);
      [text[..e]] + SplitLf(text[e..])
  }

  /** Non-empty, and no LF except as its last character. */
  predicate IsLine(l: string) {
    l != "" && forall k :: 0 <= k < |l| - 1 ==> l[k] != LF
  }

  predicate EndsInLf(l: string) { l != "" && l[|l| - 1] == LF }

  predicate AllEndInLf(ls: seq<string>) {
    forall k :: 0 <= k < |ls| ==> EndsInLf(ls[k])
  }

  /** The lists that are the lines of some text: only the last may lack its LF. */
  predicate AreLines(ls: seq<string>) {
    && (forall k :: 0 <= k < |ls| ==> IsLine(ls[k]))
    && (forall k :: 0 <= k < |ls| - 1 ==> EndsInLf(ls[k]))
  }

  lemma {:induction false} SplitThenJoin(text: string)
    ensures Concat(SplitLf(text)) == text && AreLines(SplitLf(text))
    ensures EndsInLf(text) ==> AllEndInLf(SplitLf(text))
    decreases |text|
  {
    if text != "" {
      var e := LineEnd(text, 0);
      var rest := SplitLf(text[e..]);
      SplitThenJoin(text[e..]);
      assert IsLine(text[..e]) && text == text[..e] + text[e..];
      LinesAfter(text[..e], rest);
      assert e < |text| ==> text[e..][|text| - e - 1] == text[|text| - 1];
      assert e == |text| ==> text[..e] == text && rest == [];
    }
  }

  lemma LinesAfter(l: string, rest: seq<string>)
    requires IsLine(l) && AreLines(rest) && (EndsInLf(l) || rest == [])
    ensures AreLines([l] + rest) && Concat([l] + rest) == l + Concat(rest)
    ensures EndsInLf(l) && AllEndInLf(rest) ==> AllEndInLf([l] + rest)
  {
    assert ([l] + rest)[1..] == rest;
    assert forall k :: 0 < k <= |rest| ==> ([l] + rest)[k] == rest[k - 1];
  }

  lemma FirstLine(l: string, rest: string)
    requires IsLine(l) && (EndsInLf(l) || rest == "")
    ensures LineEnd(l + rest, 0) == |l|
  {
    var text := l + rest;
    assert forall k :: 0 <= k < |l| ==> text[k] == l[k];
    assert LineEnd(text, 0) <= |l| by {
      assert EndsInLf(l) ==> text[|l| - 1] == LF;
      assert rest == "" ==> |text| == |l|;
    }
  }

  /** Splitting undoes joining exactly for lists of lines. */
  lemma {:induction false} JoinThenSplit(ls: seq<string>)
    ensures SplitLf(Concat(ls)) == ls <==> AreLines(ls)
  {
    if AreLines(ls) {
      LinesSurviveJoin(ls);
    } else {
      SplitThenJoin(Concat(ls));
    }
  }

  lemma {:induction false} LinesSurviveJoin(ls: seq<string>)
    requires AreLines(ls)
    ensures SplitLf(Concat(ls)) == ls
  {
    if ls != [] {
      var rest := Concat(ls[1..]);
      if |ls| == 1 {
        assert rest == "";
      }
      FirstLine(ls[0], rest);
      assert (ls[0] + rest)[..|ls[0]|] == ls[0];
      assert (ls[0] + rest)[|ls[0]|..] == rest;
      LinesSurviveJoin(ls[1..]);
    }
  }

  /** The line boundaries of `str.splitlines`. */
  predicate IsBoundary(c: char) {
    || '\n' <= c <= '\r' || '\U{1C}' <= c <= '\U{1E}' || c == '\U{85}' || c == '\U{2028}' || c == '\U{2029}'
  }

  function UniversalLineEnd(text: string, from: nat): (e: nat)
    requires from <= |text|
    ensures from <= e <= |text| && (from < |text| ==> from < e)
    decreases |text| - from
  {
    if from == |text| then from
    else if text[from] == '\r' && from + 1 < |text| && text[from + 1] == LF then from + 2
    else if IsBoundary(text[from]) then from + 1
    else UniversalLineEnd(text, from + 1)
  }

  /** `contents.splitlines(keepends=True)`, which cuts in more places than `SplitLf`. */
  function SplitUniversal(text: string): seq<string>
    decreases |text|
  {
    if text == "" then [] else
      var e := UniversalLineEnd(text, 0);
      [text[..e]] + SplitUniversal(text[e..])
  }

  lemma {:induction false} UniversalJoin(text: string)
    ensures Concat(SplitUniversal(text)) == text
    decreases |text|
  {
    if text != "" {
      var e := UniversalLineEnd(text, 0);
      UniversalJoin(text[e..]);
      assert SplitUniversal(text)[1..] == SplitUniversal(text[e..]);
    }
  }

  /** The boundaries, one by one. */
  lemma BoundariesAre(c: char)
    ensures IsBoundary(c) <==> c in "\n\U{B}\U{C}\r\U{1C}\U{1D}\U{1E}\U{85}\U{2028}\U{2029}"
  {
  }

  lemma {:induction false} UniversalLineEndIs(text: string, from: nat)
    requires from < |text|
    ensures var e := UniversalLineEnd(text, from);
            && (forall j :: from <= j < e - 1 && IsBoundary(text[j]) ==> j == e - 2 && text[j] == '\r' && text[e - 1] == LF)
            && (e < |text| ==> IsBoundary(text[e - 1]))
    decreases |text| - from
  {
    if from + 1 < |text| {
      UniversalLineEndIs(text, from + 1);
    }
  }

  /** It cuts after every boundary, a carriage return and its line feed being one, and only there. */
  lemma {:induction false} UniversalCuts(text: string, k: nat)
    requires k < |SplitUniversal(text)|
    ensures var l := SplitUniversal(text)[k];
            && l != ""
            && (forall j :: 0 <= j < |l| - 1 && IsBoundary(l[j]) ==> j == |l| - 2 && l[j] == '\r' && l[j + 1] == LF)
            && (k < |SplitUniversal(text)| - 1 ==> IsBoundary(l[|l| - 1]))
    decreases |text|
  {
    hide IsBoundary;
    var e := UniversalLineEnd(text, 0);
    UniversalLineEndIs(text, 0);
    var rest := SplitUniversal(text[e..]);
    assert SplitUniversal(text) == [text[..e]] + rest;
    if k > 0 {
      UniversalCuts(text[e..], k - 1);
    }
  }
}
