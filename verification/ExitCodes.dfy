/** A job's exit code, from what its shell writes to what a poll reports. */
module ExitCodes {
  import opened Base
  import opened JobTable
  import opened JobLifecycle

  function Digit(d: int): char
    requires 0 <= d < 10
  {
    ['0', '1', '2', '3', '4', '5', '6', '7', '8', '9'][d]
  }

  /** A number as a shell prints it. */
  function Decimal(n: nat): string {
    if n < 10 then [Digit(n)] else Decimal(n / 10) + [Digit(n % 10)]
  }

  lemma {:induction false} DecimalIsNumber(n: nat)
    ensures IsNumber(Decimal(n))
  {
    if n >= 10 {
      DecimalIsNumber(n / 10);
    }
  }

  lemma {:induction false} NumberOfDecimal(n: nat)
    ensures IsNumber(Decimal(n)) && Number(Decimal(n)) == n
  {
    DecimalIsNumber(n);
    if n < 10 {
      assert Decimal(n)[..0] == [];
    } else {
      NumberOfDecimal(n / 10);
      assert Decimal(n)[..|Decimal(n)| - 1] == Decimal(n / 10);
    }
  }

  /** Leading zeros count for nothing. */
  lemma {:induction false} LeadingZero(s: string)
    requires IsNumber(s)
    ensures IsNumber("0" + s) && Number("0" + s) == Number(s)
    decreases |s|
  {
    var all := "0" + s;
    assert all[|all| - 1] == s[|s| - 1];
    if |s| == 1 {
      assert all[..1] == "0" && "0"[..0] == "" && s[..0] == "";
      assert Number("0") == 0;
    } else {
      assert all[..|all| - 1] == "0" + s[..|s| - 1];
      LeadingZero(s[..|s| - 1]);
    }
  }

  /** `int` reads a printed number back, with its sign, and nothing else that is no number. */
  lemma ParsedIsPrinted(n: nat)
    ensures ParseInt(Decimal(n)) == Some(n) && ParseInt("+" + Decimal(n)) == Some(n)
    ensures var minus: int := 0 - n; ParseInt("-" + Decimal(n)) == Some(minus)
  {
    NumberOfDecimal(n);
    hide Number, Decimal;
    var d := Decimal(n);
    assert ("-" + d)[0] == '-' && ("-" + d)[1..] == d;
    assert ("+" + d)[0] == '+' && ("+" + d)[1..] == d;
  }

  lemma ParsedExactly(s: string)
    ensures ParseInt(s).Some? <==> IsNumber(s) || (s != "" && s[0] in "+-" && IsNumber(s[1..]))
  {
    hide Number;
    assert forall k :: 0 <= k < |s| && IsNumber(s) ==> s[k] != '-' && s[k] != '+';
  }

  // ---------------------------------------------------------------------
  // The line that records an end
  // ---------------------------------------------------------------------

  predicate Blank(s: string) { forall k :: 0 <= k < |s| ==> s[k] in " \t\n\r\U{B}\U{C}" }

  predicate IsWord(s: string) { s != "" && forall k :: 0 <= k < |s| ==> s[k] !in " \t\n\r\U{B}\U{C}" }

  lemma {:induction false} BlanksSkipped(gap: string, rest: string)
    requires Blank(gap) && (rest == "" || rest[0] !in " \t\n\r\U{B}\U{C}")
    ensures SkipSpace(gap + rest) == rest
  {
    if gap == "" {
      assert gap + rest == rest;
    } else {
      assert (gap + rest)[1..] == gap[1..] + rest;
      BlanksSkipped(gap[1..], rest);
    }
  }

  lemma {:induction false} WordIsFirst(word: string, rest: string)
    requires forall k :: 0 <= k < |word| ==> word[k] !in " \t\n\r\U{B}\U{C}"
    requires rest == "" || rest[0] in " \t\n\r\U{B}\U{C}"
    ensures FirstWord(word + rest) == word
  {
    if word == "" {
      assert word + rest == rest;
    } else {
      assert (word + rest)[1..] == word[1..] + rest;
      WordIsFirst(word[1..], rest);
    }
  }

  predicate MarkerAt(meta: string, k: int) { 0 <= k <= |meta| - |MARKER| && meta[k..k + |MARKER|] == MARKER }

  lemma {:induction false} FirstMarkerFound(before: string, tail: string)
    requires forall k :: 0 <= k < |before| ==> !MarkerAt(before + MARKER + tail, k)
    ensures AfterMarker(before + MARKER + tail) == Some(tail)
    decreases |before|
  {
    var meta := before + MARKER + tail;
    if before == "" {
      assert meta[..|MARKER|] == MARKER && meta[|MARKER|..] == tail;
    } else {
      var rest := before[1..] + MARKER + tail;
      assert meta[1..] == rest;
      assert !MarkerAt(meta, 0) && meta[0..|MARKER|] == meta[..|MARKER|];
      forall k | 0 <= k < |before[1..]| ensures !MarkerAt(rest, k) {
        assert rest[k..k + |MARKER|] == meta[k + 1..k + 1 + |MARKER|];
        assert !MarkerAt(meta, k + 1);
      }
      FirstMarkerFound(before[1..], tail);
    }
  }

  /** The word after the first marker decides, whatever stands before the marker and whatever
    * blanks are around the word; without a word there the end cannot be read. */
  lemma EndingIs(before: string, gap: string, word: string, rest: string)
    requires forall k :: 0 <= k < |before| ==> !MarkerAt(before + MARKER + (gap + (word + rest)), k)
    requires Blank(gap) && (word == "" || IsWord(word))
    requires rest == "" || (word != "" && rest[0] in " \t\n\r\U{B}\U{C}")
    ensures EndingOf(before + MARKER + (gap + (word + rest))) ==
            match ParseInt(word) case Some(code) => Ended(code) case None => Unreadable
    ensures word == "" ==> ParseInt(word).None?
  {
    hide SkipSpace, FirstWord, ParseInt, AfterMarker;
    FirstMarkerFound(before, gap + (word + rest));
    BlanksSkipped(gap, word + rest);
    WordIsFirst(word, rest);
    ParsedExactly("");
  }

  /** Without a marker there is no end. */
  lemma {:induction false} NoMarkerNoEnd(meta: string)
    requires forall k :: !MarkerAt(meta, k)
    ensures EndingOf(meta) == NotEnded
    decreases |meta|
  {
    if |meta| >= |MARKER| {
      assert !MarkerAt(meta, 0) && meta[0..|MARKER|] == meta[..|MARKER|];
      forall k ensures !MarkerAt(meta[1..], k) {
        if 0 <= k <= |meta| - 1 - |MARKER| {
          assert meta[1..][k..k + |MARKER|] == meta[k + 1..k + 1 + |MARKER|];
          assert !MarkerAt(meta, k + 1);
        }
      }
      NoMarkerNoEnd(meta[1..]);
    }
  }

  lemma DecimalIsWord(n: nat)
    ensures IsWord(Decimal(n)) && IsWord("-" + Decimal(n)) && '\n' !in Decimal(n)
  {
    hide Decimal;
    DecimalIsNumber(n);
    assert forall k :: 0 < k <= |Decimal(n)| ==> ("-" + Decimal(n))[k] == Decimal(n)[k - 1];
  }

  lemma WordAfterMarker(word: string)
    requires IsWord(word)
    ensures EndingOf(MARKER + word) == match ParseInt(word) case Some(code) => Ended(code) case None => Unreadable
  {
    hide EndingOf, ParseInt, IsWord;
    assert "" + (word + "") == word && "" + MARKER + word == MARKER + word;
    EndingIs("", "", word, "");
  }

  lemma OneLine(line: string)
    requires '\n' !in line
    ensures '\n' in line + "\n" && FirstLine(line + "\n") == line
  {
    hide FirstLine;
    IncompleteLine(line, "\n");
    AtNewline();
    assert line + "" == line;
  }

  /** The line the job's shell writes for an exit status is read back as that status. */
  lemma RecordedCodeIsRead(n: nat)
    ensures EndingOf(MARKER + Decimal(n)) == Ended(n)
    ensures var minus: int := 0 - n; EndingOf(MARKER + ("-" + Decimal(n))) == Ended(minus)
    ensures IsEndLine(MARKER + Decimal(n) + "\n") && FirstLine(MARKER + Decimal(n) + "\n") == MARKER + Decimal(n)
  {
    hide EndingOf, Decimal, FirstLine, ParseInt, IsWord;
    DecimalIsWord(n);
    ParsedIsPrinted(n);
    WordAfterMarker(Decimal(n));
    WordAfterMarker("-" + Decimal(n));
    assert '\n' !in MARKER + Decimal(n);
    OneLine(MARKER + Decimal(n));
  }

  lemma AtNewline()
    ensures FirstLine("\n") == ""
  {
  }

  /** A poll that nothing disturbs reports the exit status the job's shell recorded: done for
    * zero, failed for any other, with that code. */
  lemma PollReportsCode(w: World, k: CallId, now: real, n: nat)
    requires JobLifecycle.Inv(w) && k !in w.polls && w.file == MARKER + Decimal(n) + "\n"
    ensures IsRun(w, OnePoll(k, now))
    ensures var rec := After(w, OnePoll(k, now)).rec;
            rec.status == (if n == 0 then Done else Failed) && rec.exitCode == Some(n)
  {
    hide IsRun, After, OnePoll, EndingOf, FirstLine, Decimal;
    RecordedCodeIsRead(n);
    UndisturbedPollTells(w, k, now);
  }

  // ---------------------------------------------------------------------
  // Classification
  // ---------------------------------------------------------------------

  /** What a poll's answer means: an end that can be read wins over everything, one that
    * cannot is unknown, also while the process lives; else it runs while it lives, and dead
    * it was cancelled or is unknown. No code but a recorded one is reported. */
  lemma ClassifiedExactly(rec: Job, meta: string, alive: bool)
    ensures var (status, code) := Classify(rec, meta, alive); var end := EndingOf(meta);
            && (status == Done <==> end == Ended(0))
            && (status == Failed <==> end.Ended? && end.code != 0)
            && (status == Running <==> end == NotEnded && alive)
            && (status == Cancelled <==> end == NotEnded && !alive && rec.cancelRequested)
            && (status == Unknown <==> end == Unreadable || (end == NotEnded && !alive && !rec.cancelRequested))
            && (end.Ended? ==> code == Some(end.code))
            && (status == Running || status == Unknown ==> code == None)
            && (status == Cancelled ==> code == rec.exitCode)
  {
    hide EndingOf;
  }

  /** The end of a job is dated by the poll that first finds it, its offset is always moved. */
  lemma CommittedExactly(rec: Job, meta: string, alive: bool, offset: nat, now: real)
    ensures var rec' := PollCommitted(rec, meta, alive, offset, now);
            && rec'.lastOffset == offset && rec'.cancelRequested == rec.cancelRequested
            && (rec.finishedAt.Some? ==> rec'.finishedAt == rec.finishedAt)
            && (rec.finishedAt.None? ==> rec'.finishedAt == if rec'.status == Running then None else Some(now))
  {
    hide EndingOf;
  }

  /** A cancel marks the record; a process found dead ends a job that had not ended, now. */
  lemma CancelledExactly(rec: Job, aliveAfter: bool, now: real)
    ensures var rec' := CancelCommitted(rec, aliveAfter, now);
            && rec'.cancelRequested && rec'.exitCode == rec.exitCode && rec'.lastOffset == rec.lastOffset
            && (aliveAfter || rec.status != Running ==> rec'.status == rec.status && rec'.finishedAt == rec.finishedAt)
            && (!aliveAfter && rec.status == Running ==>
                  && rec'.status == Cancelled
                  && rec'.finishedAt == Some(if rec.finishedAt.Some? then rec.finishedAt.value else now))
  {
  }

  /** A sweep removes what ended more than the time to live ago, and nothing that runs. */
  lemma SweptExactly(jobs: map<JobId, Job>, now: real, ttl: real, id: JobId)
    requires id in jobs
    ensures id !in Swept(jobs, now, ttl) <==>
            jobs[id].status != Running && jobs[id].finishedAt.Some? && jobs[id].finishedAt.value < now - ttl
    ensures id in Swept(jobs, now, ttl) ==> Swept(jobs, now, ttl)[id] == jobs[id]
  {
  }
}
