/** `_wrap_compound`: when one call writes input that brings one prompt, hence one D. */
module CompoundCommand {
  import opened Base
  import opened TextLines

  function WithoutTrailingLf(s: string): string {
    if s != "" && s[|s| - 1] == LF then WithoutTrailingLf(s[..|s| - 1]) else s
  }

  const OPEN := "{\n"
  const CLOSE := "}\n"

  /** `_wrap_compound` */
  function WrapCompound(command: string): string {
    if LF !in command then command else OPEN + WithoutTrailingLf(command) + "\n}"
  }

  const CR: char := '\r'

  /** What the terminal makes of typed text: a carriage return ends a line as a line feed does. */
  function Typed(s: string): string {
    if s == "" then "" else [if s[0] == CR then LF else s[0]] + Typed(s[1..])
  }

  /** The lines in which the shell is given a command. */
  function TypedLines(command: string): seq<string> { SplitLf(Typed(WrapCompound(command) + "\n")) }

  /** The lines that stand between the braces. */
  function BodyLines(command: string): seq<string> { SplitLf(Typed(WithoutTrailingLf(command) + "\n")) }

  /** How a shell reads input: every line opens and closes some compound commands, quoted
    * strings and here-documents, and a prompt is shown after each line that leaves none
    * open. `opens` is the net effect of a line, given the lines before it. */
  type Grammar = (seq<string>, string) -> int

  function Depth(lines: seq<string>, opens: Grammar): int {
    if lines == [] then 0
    else
      var init := lines[..|lines| - 1];
      Depth(init, opens) + opens(init, lines[|lines| - 1])
  }

  function Prompts(lines: seq<string>, opens: Grammar): nat {
    if lines == [] then 0
    else Prompts(lines[..|lines| - 1], opens) + if Depth(lines, opens) == 0 then 1 else 0
  }

  /** A script never closes more than it opened, and closes all. */
  predicate IsScript(lines: seq<string>, opens: Grammar) {
    && (forall k :: 0 <= k <= |lines| ==> Depth(lines[..k], opens) >= 0)
    && Depth(lines, opens) == 0
  }

  /** The lines mean the same inside a brace group as outside. */
  predicate SameInBraces(lines: seq<string>, opens: Grammar) {
    forall k :: 0 <= k < |lines| ==> opens([OPEN] + lines[..k], lines[k]) == opens(lines[..k], lines[k])
  }

  /** What is asked of the grammar: a brace line opens a group, in which the lines mean what
    * they mean outside, and after them a brace line closes it. Nothing is asked of brace
    * lines among them, which may be text of a here-document. */
  predicate KnowsBraces(lines: seq<string>, opens: Grammar) {
    opens([], OPEN) == 1 && SameInBraces(lines, opens) && opens([OPEN] + lines, CLOSE) == -1
  }

  lemma {:induction false} InsideBraces(lines: seq<string>, opens: Grammar)
    requires opens([], OPEN) == 1 && SameInBraces(lines, opens)
    requires forall k :: 0 <= k <= |lines| ==> Depth(lines[..k], opens) >= 0
    ensures Depth([OPEN] + lines, opens) == 1 + Depth(lines, opens)
    ensures Prompts([OPEN] + lines, opens) == 0
  {
    var all := [OPEN] + lines;
    assert lines[..|lines|] == lines;
    if lines == [] {
      assert all == [OPEN] && all[..0] == [];
    } else {
      var init := lines[..|lines| - 1];
      assert all[..|all| - 1] == [OPEN] + init;
      assert forall k :: 0 <= k <= |init| ==> init[..k] == lines[..k];
      InsideBraces(init, opens);
    }
  }

  /** In braces a script brings exactly one prompt, at its very end. */
  lemma BracesBringOnePrompt(lines: seq<string>, opens: Grammar)
    requires KnowsBraces(lines, opens) && IsScript(lines, opens)
    ensures Prompts([OPEN] + lines + [CLOSE], opens) == 1 && Depth([OPEN] + lines + [CLOSE], opens) == 0
  {
    InsideBraces(lines, opens);
    var all := [OPEN] + lines + [CLOSE];
    assert all[..|all| - 1] == [OPEN] + lines;
  }

  predicate OnlyLf(s: string) { forall k :: 0 <= k < |s| ==> s[k] == LF }

  /** Only line feeds are taken from the end, and all of them. */
  lemma {:induction false} TrailingLfExactly(s: string)
    ensures var r := WithoutTrailingLf(s);
            r <= s && OnlyLf(s[|r|..]) && (r != "" ==> r[|r| - 1] != LF)
  {
    if s != "" && s[|s| - 1] == LF {
      var init := s[..|s| - 1];
      TrailingLfExactly(init);
      var r := WithoutTrailingLf(init);
      assert s[|r|..] == init[|r|..] + [LF];
    }
  }

  // ---------------------------------------------------------------------
  // What the terminal passes on
  // ---------------------------------------------------------------------

  lemma {:induction false} TypedJoin(a: string, b: string)
    ensures Typed(a + b) == Typed(a) + Typed(b)
  {
    if a == "" {
      assert a + b == b;
    } else {
      assert (a + b)[1..] == a[1..] + b;
      TypedJoin(a[1..], b);
    }
  }

  lemma {:induction false} TypedChars(s: string)
    ensures |Typed(s)| == |s|
    ensures forall k :: 0 <= k < |s| ==> Typed(s)[k] == if s[k] == CR then LF else s[k]
  {
    if s != "" {
      TypedChars(s[1..]);
    }
  }

  lemma TypedBraces()
    ensures Typed(OPEN) == OPEN && Typed(CLOSE) == CLOSE && Typed("\n") == "\n"
  {
    TypedChars(OPEN);
    TypedChars(CLOSE);
    TypedChars("\n");
  }

  lemma BracedLines(body: string)
    requires EndsInLf(body)
    ensures SplitLf(OPEN + body + CLOSE) == [OPEN] + SplitLf(body) + [CLOSE]
  {
    hide SplitLf;
    var lines := SplitLf(body);
    SplitThenJoin(body);
    var all := [OPEN] + lines + [CLOSE];
    assert AreLines(all);
    ConcatSplit([OPEN] + lines, [CLOSE]);
    ConcatSplit([OPEN], lines);
    ConcatOne(OPEN);
    ConcatOne(CLOSE);
    LinesSurviveJoin(all);
  }

  /** A command of several lines reaches the shell as these between a brace line and another. */
  lemma WrappedLines(command: string)
    requires LF in command
    ensures TypedLines(command) == [OPEN] + BodyLines(command) + [CLOSE]
  {
    hide SplitLf, Typed, WithoutTrailingLf;
    var body := WithoutTrailingLf(command) + "\n";
    assert WrapCompound(command) + "\n" == OPEN + body + CLOSE;
    TypedJoin(OPEN + body, CLOSE);
    TypedJoin(OPEN, body);
    TypedBraces();
    TypedChars(body);
    assert EndsInLf(Typed(body));
    BracedLines(Typed(body));
  }

  lemma LoneLine(lines: seq<string>)
    ensures |lines| == 1 ==> Concat(lines) == lines[0]
  {
    if |lines| == 1 {
      ConcatOne(lines[0]);
      assert lines == [lines[0]];
    }
  }

  /** A command of one line stays one exactly when it holds no carriage return. */
  lemma OneLineExactly(command: string)
    requires LF !in command
    ensures |TypedLines(command)| == 1 <==> CR !in command
    ensures TypedLines(command) != []
  {
    hide SplitLf, Typed;
    var text := Typed(command + "\n");
    TypedChars(command + "\n");
    SplitThenJoin(text);
    var lines := SplitLf(text);
    assert Concat<char>([]) == "";
    LoneLine(lines);
    if CR in command {
      var k :| 0 <= k < |command| && command[k] == CR;
      assert text[k] == LF;
    } else {
      assert forall k :: 0 <= k < |text| - 1 ==> text[k] != LF;
      assert IsLine(text) && AreLines([text]);
      ConcatOne(text);
      LinesSurviveJoin([text]);
    }
  }

  // ---------------------------------------------------------------------
  // One prompt
  // ---------------------------------------------------------------------

  /** A command of several lines brings one prompt, however many complete commands it holds. */
  lemma OnePromptPerCommand(command: string, opens: Grammar)
    requires LF in command && KnowsBraces(BodyLines(command), opens) && IsScript(BodyLines(command), opens)
    ensures Prompts(TypedLines(command), opens) == 1
  {
    hide BodyLines, TypedLines;
    WrappedLines(command);
    BracesBringOnePrompt(BodyLines(command), opens);
  }

  lemma {:induction false} NoPromptExactly(lines: seq<string>, opens: Grammar)
    ensures Prompts(lines, opens) == 0 <==> forall k :: 0 < k <= |lines| ==> Depth(lines[..k], opens) != 0
  {
    if lines != [] {
      var init := lines[..|lines| - 1];
      NoPromptExactly(init, opens);
      assert forall k :: 0 < k <= |init| ==> init[..k] == lines[..k];
      assert lines[..|lines|] == lines;
    }
  }

  /** No stretch of the lines before the last is complete by itself. */
  predicate Unbroken(lines: seq<string>, opens: Grammar) {
    forall k :: 0 < k < |lines| ==> Depth(lines[..k], opens) != 0
  }

  /** The commands the shell makes of lines: one for each prompt, and one that is never
    * complete if something is left open. */
  function Pieces(lines: seq<string>, opens: Grammar): nat {
    Prompts(lines, opens) + if Depth(lines, opens) != 0 then 1 else 0
  }

  lemma PiecesExactly(lines: seq<string>, opens: Grammar)
    requires lines != []
    ensures Pieces(lines, opens) >= 1 && (Pieces(lines, opens) == 1 <==> Unbroken(lines, opens))
  {
    var init := lines[..|lines| - 1];
    NoPromptExactly(init, opens);
    assert forall k :: 0 < k <= |init| ==> init[..k] == lines[..k];
  }

  /** Written as it is, a complete command of one line brings one prompt exactly when no
    * stretch of it that ends at a carriage return is complete: if it holds none, and only
    * then when all its lines are complete commands. */
  lemma UnwrappedExactly(command: string, opens: Grammar)
    requires LF !in command && IsScript(TypedLines(command), opens)
    ensures Prompts(TypedLines(command), opens) == 1 <==> Unbroken(TypedLines(command), opens)
    ensures CR !in command ==> Prompts(TypedLines(command), opens) == 1
    ensures LinesStandAlone(TypedLines(command), opens) ==> (Prompts(TypedLines(command), opens) == 1 <==> CR !in command)
  {
    hide TypedLines;
    var lines := TypedLines(command);
    OneLineExactly(command);
    PiecesExactly(lines, opens);
    if LinesStandAlone(lines, opens) && CR in command {
      assert opens(lines[..0], lines[0]) == 0;
      assert lines[..1][..0] == [] && Depth(lines[..1], opens) == 0;
    }
  }

  /** Every line is a complete command. */
  predicate LinesStandAlone(lines: seq<string>, opens: Grammar) {
    forall k :: 0 <= k < |lines| ==> opens(lines[..k], lines[k]) == 0
  }

  /** In braces lines are one piece whatever they are, unless they close what they did not open. */
  lemma WrappedIsOnePiece(command: string, opens: Grammar)
    requires LF in command && opens([], OPEN) == 1 && SameInBraces(BodyLines(command), opens)
    requires forall k :: 0 <= k <= |BodyLines(command)| ==> Depth(BodyLines(command)[..k], opens) >= 0
    ensures Unbroken(TypedLines(command), opens)
  {
    hide BodyLines, TypedLines;
    var body := BodyLines(command);
    WrappedLines(command);
    InsideBraces(body, opens);
    NoPromptExactly([OPEN] + body, opens);
    var all := [OPEN] + body + [CLOSE];
    assert forall k :: 0 < k <= |[OPEN] + body| ==> all[..k] == ([OPEN] + body)[..k];
  }

  // ---------------------------------------------------------------------
  // A grammar with here-documents
  // ---------------------------------------------------------------------

  const HERE := "cat <<E\n"
  const HERE_END := "E\n"

  predicate InHereDocument(before: seq<string>) {
    before != [] &&
    var last := before[|before| - 1];
    if InHereDocument(before[..|before| - 1]) then last != HERE_END else last == HERE
  }

  /** Brace groups and one kind of here-document, whose lines are text. */
  function WithHereDocuments(before: seq<string>, line: string): int {
    if InHereDocument(before) then (if line == HERE_END then -1 else 0)
    else if line == HERE || line == OPEN then 1
    else if line == CLOSE then -1
    else 0
  }

  lemma {:induction false} SameDocument(before: seq<string>)
    ensures InHereDocument([OPEN] + before) == InHereDocument(before)
  {
    if before == [] {
      assert ([OPEN] + before)[..0] == [];
    } else {
      var init := before[..|before| - 1];
      assert ([OPEN] + before)[..|before|] == [OPEN] + init;
      SameDocument(init);
    }
  }

  lemma {:induction false} DocumentIsOpen(lines: seq<string>)
    requires forall k :: 0 <= k <= |lines| ==> Depth(lines[..k], WithHereDocuments) >= 0
    ensures InHereDocument(lines) ==> Depth(lines, WithHereDocuments) >= 1
  {
    if InHereDocument(lines) {
      var init := lines[..|lines| - 1];
      assert forall k :: 0 <= k <= |init| ==> init[..k] == lines[..k];
      assert init[..|init|] == init;
      DocumentIsOpen(init);
    }
  }

  /** Such a grammar meets what is asked, whatever brace lines its here-documents hold. */
  lemma HereDocumentsAreAllowed(lines: seq<string>)
    requires IsScript(lines, WithHereDocuments)
    ensures KnowsBraces(lines, WithHereDocuments)
  {
    DocumentIsOpen(lines);
    SameDocument(lines);
    forall k | 0 <= k < |lines|
      ensures WithHereDocuments([OPEN] + lines[..k], lines[k]) == WithHereDocuments(lines[..k], lines[k])
    {
      SameDocument(lines[..k]);
    }
  }
}
