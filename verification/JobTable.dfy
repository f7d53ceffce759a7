/** `JobManager`: the job table, its atomic sections, and how a poll's answer is classified. */
module JobTable {
  import opened Base

  type JobId = string

  datatype Status = Running | Done | Failed | Cancelled | Unknown

  predicate Terminal(s: Status) { s != Running }

  datatype Job = Job(status: Status, exitCode: Option<int>, finishedAt: Option<real>, lastOffset: nat, cancelRequested: bool)

  const FRESH := Job(Running, None, None, 0, false)

  // ---------------------------------------------------------------------
  // Reading the meta file
  // ---------------------------------------------------------------------

  const MARKER := "__JOB_DONE__:"

  /** What follows the first marker: `meta.split(_DONE_MARKER, 1)[1]`. */
  function AfterMarker(meta: string): Option<string>
    decreases |meta|
  {
    if |meta| < |MARKER| then None
    else if meta[..|MARKER|] == MARKER then Some(meta[|MARKER|..])
    else AfterMarker(meta[1..])
  }

  predicate IsSpace(c: char) { c == ' ' || '\t' <= c <= '\r' }

  function SkipSpace(s: string): string {
    if s != "" && IsSpace(s[0]) then SkipSpace(s[1..]) else s
  }

  function FirstWord(s: string): string {
    if s != "" && !IsSpace(s[0]) then [s[0]] + FirstWord(s[1..]) else ""
  }

  predicate IsNumber(s: string) { s != "" && forall k :: 0 <= k < |s| ==> '0' <= s[k] <= '9' }

  function Number(s: string): int
    requires forall k :: 0 <= k < |s| ==> '0' <= s[k] <= '9'
  {
    if s == "" then 0 else Number(s[..|s| - 1]) * 10 + (s[|s| - 1] as int - '0' as int)
  }

  /** `int(...)` of a word, None for the ValueError. */
  function ParseInt(s: string): Option<int> {
    if IsNumber(s) then Some(Number(s))
    else if s != "" && s[0] == '-' && IsNumber(s[1..]) then Some(-Number(s[1..]))
    else if s != "" && s[0] == '+' && IsNumber(s[1..]) then Some(Number(s[1..]))
    else None
  }

  /** Whether the job recorded its end, and the exit code if it can be read. */
  datatype Ending = NotEnded | Unreadable | Ended(code: int)

  function EndingOf(meta: string): Ending {
    match AfterMarker(meta)
    case None => NotEnded
    case Some(rest) =>
      match ParseInt(FirstWord(SkipSpace(rest)))
      case None => Unreadable
      case Some(code) => Ended(code)
  }

  /** `_classify` of a record, the meta line and the liveness probe. */
  function Classify(rec: Job, meta: string, alive: bool): (Status, Option<int>) {
    match EndingOf(meta)
    case Unreadable => (Unknown, None)
    case Ended(code) => (if code == 0 then Done else Failed, Some(code))
    case NotEnded =>
      if alive then (Running, None)
      else if rec.cancelRequested then (Cancelled, rec.exitCode)
      else (Unknown, None)
  }

  /** The line of the meta file that reaches `_classify`. */
  function FirstLine(file: string): string {
    if file == "" || file[0] == '\n' then "" else [file[0]] + FirstLine(file[1..])
  }

  /** The word after the marker is followed by something already. */
  predicate WordEnded(line: string) {
    AfterMarker(line).Some? && var rest := SkipSpace(AfterMarker(line).value); FirstWord(rest) != rest
  }

  /** An exit code read from the meta file survives everything appended later exactly
    * when its end was visible: `:1` read from what becomes `:127` does not. */
  lemma CodeIsFinalExactly(file: string)
    requires EndingOf(FirstLine(file)).Ended?
    ensures (forall more: string :: EndingOf(FirstLine(file + more)) == EndingOf(FirstLine(file)))
            <==> '\n' in file || WordEnded(file)
  {
    hide FirstLine, EndingOf, AfterMarker, SkipSpace, FirstWord;
    if '\n' in file || WordEnded(file) {
      forall more: string ensures EndingOf(FirstLine(file + more)) == EndingOf(FirstLine(file)) {
        CodeStays(file, more);
      }
    } else {
      CodeSpoilt(file);
    }
  }

  lemma CodeStays(file: string, more: string)
    requires EndingOf(FirstLine(file)).Ended? && ('\n' in file || WordEnded(file))
    ensures EndingOf(FirstLine(file + more)) == EndingOf(FirstLine(file))
  {
    hide EndingOf, WordEnded;
    if '\n' in file {
      CompleteLineStays(file, more);
    } else {
      IncompleteLine(file, "");
      IncompleteLine(file, more);
      assert file + "" == file;
      EndedWordStays(file, FirstLine(more));
    }
  }

  lemma CodeSpoilt(file: string)
    requires EndingOf(FirstLine(file)).Ended? && '\n' !in file && !WordEnded(file)
    ensures EndingOf(FirstLine(file + "x")) == Unreadable
  {
    hide EndingOf, WordEnded;
    IncompleteLine(file, "");
    IncompleteLine(file, "x");
    assert file + "" == file;
    assert FirstLine("x") == "x";
    LetterSpoilsCode(file);
  }

  lemma EndedWordStays(line: string, more: string)
    requires EndingOf(line).Ended? && WordEnded(line)
    ensures EndingOf(line + more) == EndingOf(line)
  {
    var rest := AfterMarker(line).value;
    MarkerStays(line, more);
    WordGrows(rest, more);
    WordOf(SkipSpace(rest), more);
  }

  lemma LetterSpoilsCode(line: string)
    requires EndingOf(line).Ended? && !WordEnded(line)
    ensures EndingOf(line + "x") == Unreadable
  {
    var rest := AfterMarker(line).value;
    var word := SkipSpace(rest);
    MarkerStays(line, "x");
    WordGrows(rest, "x");
    WordOf(word, "x");
    assert FirstWord("x") == "x";
    NotANumber(word);
    NotANumber(word[1..]);
    assert (word + "x")[1..] == word[1..] + "x";
  }

  lemma NotANumber(s: string)
    ensures !IsNumber(s + "x")
  {
    assert (s + "x")[|s|] == 'x';
  }

  lemma {:induction false} CompleteLineStays(file: string, more: string)
    requires '\n' in file
    ensures FirstLine(file + more) == FirstLine(file)
  {
    if file[0] != '\n' {
      assert (file + more)[1..] == file[1..] + more;
      CompleteLineStays(file[1..], more);
    }
  }

  lemma {:induction false} IncompleteLine(file: string, more: string)
    requires '\n' !in file
    ensures FirstLine(file + more) == file + FirstLine(more)
  {
    if file == "" {
      assert file + more == more;
    } else {
      assert (file + more)[1..] == file[1..] + more;
      IncompleteLine(file[1..], more);
    }
  }

  lemma {:induction false} MarkerStays(meta: string, more: string)
    requires AfterMarker(meta).Some?
    ensures AfterMarker(meta + more) == Some(AfterMarker(meta).value + more)
    decreases |meta|
  {
    assert (meta + more)[..|MARKER|] == meta[..|MARKER|];
    if meta[..|MARKER|] == MARKER {
      assert (meta + more)[|MARKER|..] == meta[|MARKER|..] + more;
    } else {
      assert (meta + more)[1..] == meta[1..] + more;
      MarkerStays(meta[1..], more);
    }
  }

  /** The word continues, or its end was already seen and something may follow it. */
  lemma {:induction false} WordGrows(s: string, more: string)
    ensures SkipSpace(s) != "" ==> SkipSpace(s + more) == SkipSpace(s) + more
    decreases |s|
  {
    if s != "" && IsSpace(s[0]) {
      assert (s + more)[1..] == s[1..] + more;
      WordGrows(s[1..], more);
    }
  }

  lemma WordAfter(c: char, rest: string)
    ensures FirstWord([c] + rest) == if IsSpace(c) then "" else [c] + FirstWord(rest)
  {
    assert ([c] + rest)[1..] == rest;
  }

  lemma NoWord()
    ensures FirstWord("") == ""
  {
  }

  lemma {:induction false} WordOf(s: string, more: string)
    ensures FirstWord(s) == s ==> FirstWord(s + more) == s + FirstWord(more)
    ensures FirstWord(s) != s ==> FirstWord(s + more) == FirstWord(s)
    decreases |s|
  {
    hide FirstWord, IsSpace;
    if s == "" {
      NoWord();
      assert s + more == more && s + FirstWord(more) == FirstWord(more);
    } else {
      var c, rest := s[0], s[1..];
      assert s == [c] + rest && s + more == [c] + (rest + more);
      WordAfter(c, rest);
      WordAfter(c, rest + more);
      WordOf(rest, more);
      assert ([c] + FirstWord(rest))[1..] == FirstWord(rest);
      assert [c] + (rest + FirstWord(more)) == s + FirstWord(more);
    }
  }

  // ---------------------------------------------------------------------
  // The table and its atomic sections
  // ---------------------------------------------------------------------

  function LiveIds(jobs: map<JobId, Job>): set<JobId> {
    set id | id in jobs && !Terminal(jobs[id].status)
  }

  /** The section at the end of `poll`. */
  function PollCommitted(rec: Job, meta: string, alive: bool, offset: nat, now: real): Job {
    var (status, code) := Classify(rec, meta, alive);
    var finished := if Terminal(status) && rec.finishedAt.None? then Some(now) else rec.finishedAt;
    rec.(status := status, exitCode := code, lastOffset := offset, finishedAt := finished)
  }

  /** The section at the end of `cancel`. */
  function CancelCommitted(rec: Job, aliveAfter: bool, now: real): Job {
    if !aliveAfter && !Terminal(rec.status) then
      rec.(cancelRequested := true, status := Cancelled,
           finishedAt := if rec.finishedAt.Some? then rec.finishedAt else Some(now))
    else rec.(cancelRequested := true)
  }

  predicate Expired(rec: Job, now: real, ttl: real) {
    Terminal(rec.status) && rec.finishedAt.Some? && now - rec.finishedAt.value > ttl
  }

  function Swept(jobs: map<JobId, Job>, now: real, ttl: real): map<JobId, Job> {
    map id | id in jobs && !Expired(jobs[id], now, ttl) :: jobs[id]
  }

  class JobManager {
    var jobs: map<JobId, Job>
    var pending: int
    const maxLive: int
    const ttl: real

    constructor (maxLive: int, ttl: real)
      ensures jobs == map[] && pending == 0 && this.maxLive == maxLive && this.ttl == ttl
    {
      this.jobs, this.pending, this.maxLive, this.ttl := map[], 0, maxLive, ttl;
    }

    /** The check and the reservation, under the lock. */
    method Admit() returns (admitted: bool)
      modifies `pending
      ensures admitted == (|LiveIds(jobs)| + old(pending) < maxLive)
      ensures pending == old(pending) + if admitted then 1 else 0
    {
      if |LiveIds(jobs)| + pending >= maxLive {
        return false;
      }
      pending := pending + 1;
      return true;
    }

    method Insert(id: JobId)
      modifies `jobs
      ensures jobs == old(jobs)[id := FRESH]
    {
      jobs := jobs[id := FRESH];
    }

    method Release()
      modifies `pending
      ensures pending == old(pending) - 1
    {
      pending := pending - 1;
    }

    /** `submit` with nothing else running: the reservation is given back whether the
      * remote command started (`spawned`) or the spawn raised. */
    method Submit(id: JobId, spawned: bool, now: real) returns (started: bool)
      modifies `jobs, `pending
      ensures pending == old(pending)
      ensures started == (spawned && |LiveIds(Swept(old(jobs), now, ttl))| + pending < maxLive)
      ensures jobs == if started then Swept(old(jobs), now, ttl)[id := FRESH] else Swept(old(jobs), now, ttl)
    {
      var _ := Sweep(now);
      var admitted := Admit();
      if !admitted {
        return false;
      }
      if spawned {
        Insert(id);
      }
      Release();
      return spawned;
    }

    /** `_sweep_expired` up to the remote clean-up of the records it returns. */
    method Sweep(now: real) returns (expired: map<JobId, Job>)
      modifies `jobs
      ensures jobs == Swept(old(jobs), now, ttl)
      ensures expired == map id | id in old(jobs) && Expired(old(jobs)[id], now, ttl) :: old(jobs)[id]
    {
      expired := map[];
      var todo := jobs.Keys;
      while todo != {}
        invariant todo <= old(jobs).Keys
        invariant jobs == map id | id in old(jobs) && (id in todo || !Expired(old(jobs)[id], now, ttl)) :: old(jobs)[id]
        invariant expired == map id | id in old(jobs) && id !in todo && Expired(old(jobs)[id], now, ttl) :: old(jobs)[id]
        decreases |todo|
      {
        var id :| id in todo;
        todo := todo - {id};
        if Expired(jobs[id], now, ttl) {
          expired := expired[id := jobs[id]];
          jobs := map other | other in jobs && other != id :: jobs[other];
        }
      }
    }

    method CommitPoll(id: JobId, meta: string, alive: bool, offset: nat, now: real)
      modifies `jobs
      ensures id in old(jobs) ==> jobs == old(jobs)[id := PollCommitted(old(jobs)[id], meta, alive, offset, now)]
      ensures id !in old(jobs) ==> jobs == old(jobs)
    {
      if id in jobs {
        var rec := jobs[id];
        var (status, code) := Classify(rec, meta, alive);
        var newlyTerminal := Terminal(status) && rec.finishedAt.None?;
        rec := rec.(status := status, exitCode := code, lastOffset := offset);
        if newlyTerminal {
          rec := rec.(finishedAt := Some(now));
        }
        jobs := jobs[id := rec];
      }
    }

    method CommitCancel(id: JobId, aliveAfter: bool, now: real)
      modifies `jobs
      ensures id in old(jobs) ==> jobs == old(jobs)[id := CancelCommitted(old(jobs)[id], aliveAfter, now)]
      ensures id !in old(jobs) ==> jobs == old(jobs)
    {
      if id in jobs {
        var rec := jobs[id].(cancelRequested := true);
        if !aliveAfter && !Terminal(rec.status) {
          rec := rec.(status := Cancelled);
          if rec.finishedAt.None? {
            rec := rec.(finishedAt := Some(now));
          }
        }
        jobs := jobs[id := rec];
      }
    }
  }
}
