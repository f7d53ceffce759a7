# A verified model of the portal server's stateful core

The server keeps SSH connections, shell sessions, background jobs and remote
files in step with remote machines it can only watch through byte streams. This
project models the parts where that is subtle, and proves what they keep over
every run. Each module is one component.

- **Osc133, SessionProtocol, SessionFaults, SessionRuns, CompoundCommand, RemoteBash** –
  many commands share one byte channel, and an in-band marker (a D,
  `ESC ] 133 ; D [; code] BEL`) ends each. `Osc133` is the bounded scanner (fresh bytes,
  64 bytes of overlap, head truncation) against one search of the whole stream.
  `SessionProtocol` is the session with its remote shell, byte by byte: bootstrap,
  commands and Ctrl-C on their way to the shell, batches, timeouts, invalidation;
  `SessionFaults` says exactly which of its steps are safe. `CompoundCommand` is what a
  terminal and a shell make of a call's text: when it brings one prompt. `SessionRuns`
  joins the three and runs from creation into the faults. `RemoteBash` is the batch loop
  and the default session of a host.
- **ConnectionPool, ConnectionReuse, PoolProtocol, LeaseHolders** – the pool as a class
  whose methods are proved against functions on one host's tables; what a checkout
  reuses and closes by the clock; every interleaving of its callers at their awaits; and
  the sessions and tunnels that hold leases.
- **TextLines, PatchEditor, PatchText, Pager** – lines, the hash-guarded patch loop
  against a simultaneous splice, the text it leaves read off the patches, and the paged
  read.
- **Utf8, JobPoll, LossyDrain, JobTable, JobAdmission, JobLifecycle, JobOverlap,
  ExitCodes** –
  UTF-8 by section 4 of RFC 3629, polling a growing file, also one that is not UTF-8,
  the job table, admission with reservations, and the life of one job: with polls that
  do not overlap, under any interleaving of polls and cancels, and its exit code from the
  digits its shell writes to what a poll reports.
- **Redaction, MaskedSpans, WholeMasks, Base64, SecretFraming** – masking secrets in
  output, where in the text the masks come to stand and what they leave, and the stdin
  framing of secrets in Base 64 (section 4 of RFC 4648).
- **RateLimiter, ResumableUpload** – the sliding window and the resumable upload.

A class or a method with a loop stands for code that changes state. Its contract
equates the new state with a function of the old one, and the lemmas are about that
function. Protocols are labelled steps on a value: code between two awaits is one
step, and remote shells, peers and clocks take steps of their own. `Inv` is what
every step keeps, `IsRun` and `After` speak of whole runs.

## Where the code does less than it says

Each of these is a lemma with the exact condition, and for most a concrete input or a
run from the start as well.

- Scanning is right on every cut exactly if no marker is longer than 65 bytes and
  the buffer holds a chunk plus all but one byte of a marker
  (`Osc133.CapacityIsExact`).
- A complete call brings one D exactly if no stretch of its typed lines before the last is a
  complete command. A carriage return ends a typed line, but `_wrap_compound` looks for
  line feeds only: `echo a<CR>echo b` brings two, and the next command is answered with
  the second (`CompoundCommand.UnwrappedExactly`, `SessionRuns.WriteSafetyIsExact`,
  `SessionRuns.CarriageReturnMisreports`).
- A Ctrl-C is safe exactly if no complete D is unread when it is sent and no command ends
  before it arrives; otherwise the interrupt brings a second D and the next command is
  answered with it. That the command still runs when the byte is sent is not enough
  (`SessionFaults.InterruptSafetyIsExact`, `SessionRuns.LateInterruptMisreports`).
- No other step of the session machine can do so (`SessionFaults.StepSafetyIsExact`).
- `release_connection` does not normalize the host name as `get_connection` does: a
  lease is counted back exactly if the name it is given back under has no surrounding
  whitespace (`ConnectionPool.LeaseReturnedExactly`).
- `close_session` or `_invalidate` on a session that a `close_session` is still closing
  gives one lease back twice, and another user's connection can then be closed; it is
  safe exactly if no call is closing the session
  (`LeaseHolders.ClosingSafetyIsExact`, `LeaseHolders.DoubleReleaseHappens`).
- auto_newline does not reach insertions: they can still be glued to the next line
  (`PatchEditor.InsertionCanGlue`, `PatchEditor.RereadIsSplice`).
- Of an insertion and a replacement with the same start, one order in the list is
  accepted and the other refused (`PatchEditor.OrderOfEqualStartsMatters`).
- `remote_read` of an empty range inside a file reports an end one line too far, and
  the patch editor refuses its hash there (`Pager.RangeHashAccepted`). A
  READ_MAX_LINES below one makes the walk repeat one empty page
  (`Pager.AdvancesExactly`).
- The documentation of `_decode_incremental` says that a chunk boundary never splits
  a character into escapes. It can, when the size was measured before the job's last
  write and the process probed after it (`JobPoll.FlushExactly`, `JobPoll.SizeProbeRace`),
  and in output with an invalid byte (`JobPoll.InvalidOctetSpreads`): a poll of frozen
  output cuts a character exactly if what it is sent ends inside one and no prefix of it
  that leaves at most three bytes is well-formed (`LossyDrain.PollCutsExactly`,
  `LossyDrain.DrainedTextExactly`).
- An exit code read from an incomplete meta line can change
  (`JobTable.CodeIsFinalExactly`).
- A recorded end can be taken back exactly by a poll in flight that read the meta file
  before the end was there (`JobOverlap.EndSafetyIsExact`); an ended job can be taken for
  running again exactly by one that saw, or can still see, the process alive after that
  (`JobOverlap.RevivalSafetyIsExact`); a cancel can signal a job recorded as ended exactly
  if another call in flight has not yet seen it run (`JobOverlap.SignalSafetyIsExact`).
  Each taking for running again can put one more live job above the cap, and nothing else
  does (`JobAdmission.NeverOvershoots`, `JobAdmission.RevivalPassesTheCap`).
- Also without overlap, a job that records its end and dies between a poll's two looks is
  reported unknown although its exit code is there (`JobOverlap.EndedJobReportedUnknown`,
  `JobOverlap.PollMissesEndExactly`).
- A secret can survive redaction exactly if it starts or ends with `*` or holds `***`
  (`Redaction.SafeExactly`).
- Masking the longest values first does not always mask whole values, even of values
  that can hold no part of a mask. An occurrence is not
  masked by one mask exactly if a replaced occurrence straddles one of its ends; then part
  of it can be left, as of "abc" in "abcdefg", or none, as of "ab" in "xaby"; part is left
  exactly if the replaced occurrences do not cover it. Every occurrence in every text is
  masked as a whole exactly if two values that overlap always make a value together
  (`MaskedSpans.MaskedWholeExactly`, `MaskedSpans.StraddledSecretShows`,
  `WholeMasks.StraddledMayBeMasked`, `WholeMasks.PartShowsExactly`,
  `WholeMasks.WholeEverywhereExactly`).
- A secret arrives changed if it holds a NUL or ends in a newline
  (`SecretFraming.UnchangedExactly`); the documentation speaks of one lost newline,
  command substitution strips them all. It does not arrive at all if its name is one that
  bash keeps to itself, like UID, and comes empty after a secret called PATH that hides
  `base64`; names that `env_var_name` gives include both
  (`SecretFraming.AllArriveExactly`, `SecretFraming.AcceptedNamesFail`).
- A clock set back lets a window exceed the limit (`RateLimiter.ClockSetBackOvershoots`),
  but only one of whose calls some was forgotten before the last was checked
  (`RateLimiter.RememberedWindowIsBounded`); `RateLimiter.RefusedForAnyClock` says which
  calls are counted under any clock.

## Model

| member | source | states |
|---|---|---|
| Osc133.SearchIsLeftmost | portal_mcp_server/session_manager.py:98-101 | the marker search finds the leftmost D, and none means there is none |
| Osc133.MatchesAreDisjoint | portal_mcp_server/session_manager.py:98-101 | two different D's never overlap |
| Osc133.SearchIsStable | portal_mcp_server/session_manager.py:532-536 | bytes that arrive later never change which D is found first |
| Osc133.ExitCodeRoundTrip | portal_mcp_server/session_manager.py:532-534 | the exit status read from a marker is the one the shell printed into it |
| Osc133.AbortedIsTold | portal_mcp_server/session_manager.py:532-534 | a marker without digits, and no other, gives -2 |
| Osc133.ReadUntilDone | portal_mcp_server/session_manager.py:492-545 | the read loop over the growing and trimmed buffer computes the bounded read |
| Osc133.FreshScanIsComplete | portal_mcp_server/session_manager.py:518-532 | searching only the fresh bytes and the overlap finds exactly what searching everything received finds |
| Osc133.BoundedReadRefines | portal_mcp_server/session_manager.py:498-545 | the bounded read gives the exit code of reading without any bound, and a suffix of its output, all of it when not truncated |
| Osc133.FlagIsExact | portal_mcp_server/session_manager.py:518-536 | the output is flagged as truncated if and only if more was received, up to the read at which the loop stopped, than the buffer holds |
| Osc133.WhatFitsIsWhole | portal_mcp_server/session_manager.py:498-545 | what fits in the buffer is read as without any bound: same verdict, code and output, and no flag |
| Osc133.CutsDoNotMatter | portal_mcp_server/session_manager.py:498-536 | without bounds the answer is one search of the whole stream, however it was cut into reads |
| Osc133.CapacityIsExact | portal_mcp_server/session_manager.py:70-96 | right on every cut if and only if markers have at most 65 bytes and the buffer at least chunk plus marker minus one |
| Osc133.DefaultsAreRight | portal_mcp_server/session_manager.py:74-96 | the default sizes satisfy that condition |
| CompoundCommand.WrappedLines | portal_mcp_server/session_manager.py:169-197 | a command with a line feed reaches the shell as its lines, cut at line feeds and carriage returns, between an opening and a closing brace line |
| CompoundCommand.TrailingLfExactly | portal_mcp_server/session_manager.py:194-197 | of a wrapped command the line feeds at its end are dropped, all of them and nothing else |
| CompoundCommand.OnePromptPerCommand | portal_mcp_server/session_manager.py:169-197 | a multi-line command, whatever complete commands, quoted strings and here-documents it holds, brings exactly one prompt in every grammar in which its lines mean inside a brace group what they mean outside (`HereDocumentsAreAllowed`: also one with here-documents that hold brace lines) |
| CompoundCommand.UnwrappedExactly | portal_mcp_server/session_manager.py:173-193 | without a line feed a complete command brings one prompt if and only if no stretch of it that ends at a carriage return is complete: always without carriage returns, and never with one when each line is a command |
| CompoundCommand.PiecesExactly | portal_mcp_server/session_manager.py:173-178 | the shell makes one command of typed lines, complete or not, if and only if no stretch before the last line is complete |
| CompoundCommand.WrappedIsOnePiece | portal_mcp_server/session_manager.py:179-197 | in braces it makes one command of any lines that close nothing they did not open |
| SessionProtocol.FirstMarkerAfter | portal_mcp_server/session_manager.py:532-536 | after output and noise without a D, the first D found is the one the shell sent for the command |
| SessionProtocol.StepKeepsInv | portal_mcp_server/session_manager.py:388-425 | every step of bootstrap, command, timeout, cancel and invalidation that is in time keeps the synchronisation invariant, with commands and interrupts reaching the shell later than they are sent |
| SessionProtocol.RunKeepsInv | portal_mcp_server/session_manager.py:476-613 | so does every run of such steps |
| SessionProtocol.SessionsStaySynchronised | portal_mcp_server/session_manager.py:476-613 | in every run in time, a registered session that no call holds has an idle shell with nothing on its way and no unread D, and every exit code ever returned is the one its command really had |
| SessionProtocol.AnswersAreForTheLatestCommand | portal_mcp_server/session_manager.py:532-536 | an exit code is only ever returned for the command written last |
| SessionFaults.CancelByteByByte | portal_mcp_server/session_manager.py:591-613 | waiting for the next D consumes up to the first one, for any way its bytes arrive |
| SessionFaults.StepSafetyIsExact | portal_mcp_server/session_manager.py:476-613 | a step of a synchronised session leaves it so whatever follows in time, if and only if it is in time: an interrupt sent with no complete D unread, a command that ends with no interrupt on its way, a call of which the shell makes one command, and every other step |
| SessionFaults.InterruptSafetyIsExact | portal_mcp_server/session_manager.py:544-613 | an interrupt, sent, and arrived after any steps, leaves the session synchronised for good if and only if no complete D was unread as it was sent and no command ended before it arrived |
| SessionFaults.LateCtrlCLeavesD | portal_mcp_server/session_manager.py:563-589 | sent with a D unread, there is a run that frees the session with a D unread |
| SessionFaults.EndInFlightLeavesD | portal_mcp_server/session_manager.py:563-589 | so there is when the command ends while the interrupt is on its way |
| SessionFaults.FirstPieceAnswers | portal_mcp_server/session_manager.py:485-536 | a call of which the shell makes several commands is answered with the status of the first while others are to run |
| SessionFaults.StrayDMisreports | portal_mcp_server/session_manager.py:485-536 | with a D unread, the next command is answered with that D's code while it still runs |
| SessionRuns.CommandsStaySynchronised | portal_mcp_server/session_manager.py:476-613 | in every run whose interrupts are in time and of whose calls' typed lines the shell makes one command each, the session stays synchronised |
| SessionRuns.WriteSafetyIsExact | portal_mcp_server/session_manager.py:485-486 | a call leaves a synchronised session so whatever follows in time if and only if no stretch of its typed lines before the last is a complete command; with neither line feed nor carriage return none is |
| SessionRuns.BoundedReaderAnswers | portal_mcp_server/session_manager.py:492-545 | in every run in time, with markers of at most 65 bytes, the bounded read loop answers when the session machine does, and with the status the shell gave that command |
| SessionRuns.LateInterruptMisreports | portal_mcp_server/session_manager.py:544-613 | runs from creation: the first command is interrupted when it is over, or ends while the interrupt is on its way, and the second is answered with the stray code while it runs |
| SessionRuns.CarriageReturnMisreports | portal_mcp_server/session_manager.py:485-536 | a run from creation: "echo a" and "echo b" joined by a carriage return are answered with the status of the first, and the next command with that of the second before the shell has taken it |
| RemoteBash.RemoteBashMany | portal_mcp_server/remote_bash.py:278-318 | a batch reports a prefix of its commands in order, each with its own code, None for a timeout, and whether its output was cut; -1 and a note of its own for one blocked on a prompt or whose session died; it goes on exactly while no session is reported dead and, on request, every code is 0, and says at which command it stopped |
| RemoteBash.StepKeeps | portal_mcp_server/remote_bash.py:148-162 | every step of ensuring, retrying, clearing and closing keeps the bookkeeping of a host's session |
| RemoteBash.OneDefaultSession | portal_mcp_server/remote_bash.py:148-237 | however calls interleave, at most one live default session is not being closed, none is lost track of, and a command is sent twice at most, the second time elsewhere and after the first session died |
| RemoteBash.FirstCallMakesSession | portal_mcp_server/remote_bash.py:148-162 | the first call on a host makes its session, remembers it and sends its command there |
| RemoteBash.DeadSessionIsReplaced | portal_mcp_server/remote_bash.py:165-237 | a session found dead is forgotten; a single call sends its command once more, to a session of its own making, and a batch does not |
| RemoteBash.SessionIsKeptThenClosed | portal_mcp_server/remote_bash.py:148-162 | the next call uses the same session, and closing the default session forgets it and ends it |
| ConnectionPool.NormalizeIsIdempotent | portal_mcp_server/connection_manager.py:1131 | normalizing a host name twice is normalizing it once |
| ConnectionPool.NormalizedExactly | portal_mcp_server/connection_manager.py:1131 | normalizing a host name takes away all whitespace around it and nothing else |
| ConnectionPool.ConnectionManager.RegisterHost | portal_mcp_server/connection_manager.py:673-677 | registering raises the generation, retires the pool and touches no other host |
| ConnectionPool.ConnectionManager.RemoveHost | portal_mcp_server/connection_manager.py:766-783 | removing forgets config and lock, raises the generation and retires the pool |
| ConnectionPool.ConnectionManager.InvalidatePool | portal_mcp_server/connection_manager.py:785-805 | idle connections are closed, used ones kept as stale |
| ConnectionPool.RetireEntries | portal_mcp_server/connection_manager.py:791-805 | the retiring loop keeps and closes exactly those |
| ConnectionPool.ConnectionManager.Capture | portal_mcp_server/connection_manager.py:1131-1146 | config, generation and lock are taken in one step |
| ConnectionPool.ConnectionManager.CheckOut | portal_mcp_server/connection_manager.py:1149-1188 | pruning, then the first free or the least busy usable connection, or none |
| ConnectionPool.CheckoutExactly | portal_mcp_server/connection_manager.py:1164-1191 | a pooled connection is handed out unless all usable ones are busy and there is room; a busy one only when the pool is full, and then a least busy one |
| ConnectionReuse.PruneByClock | portal_mcp_server/connection_manager.py:1153-1164 | pruning keeps a connection if and only if neither side has closed it and it is used, or was last used and made no longer ago than the two limits; all others are closed |
| ConnectionReuse.ExpiredIsClosed | portal_mcp_server/connection_manager.py:1153-1174 | an unused connection over a limit is closed and handed to nobody |
| ConnectionReuse.ReusesWhatIsFree | portal_mcp_server/connection_manager.py:1153-1174 | with a usable connection that has a free channel and is used or within both limits, nothing new is opened |
| ConnectionReuse.GivenBackIsReused | portal_mcp_server/connection_manager.py:1256-1268 | so a connection given back is reused for as long as the idle limit, from the giving back, and the age limit allow |
| ConnectionReuse.RegisteredIsUsed | portal_mcp_server/connection_manager.py:673-677 | after registering, callers are sent to the new target in the next generation and are handed no earlier connection, and the unused ones are closed |
| ConnectionReuse.RemovedIsUnknown | portal_mcp_server/connection_manager.py:766-783 | after removing, callers are refused unless the ssh configuration knows the host, and are handed none of its connections |
| ConnectionPool.ScanForFree | portal_mcp_server/connection_manager.py:1170-1174 | the first usable connection with a free channel |
| ConnectionPool.FirstFree | portal_mcp_server/connection_manager.py:1170-1174 | it is usable, has room, and nothing before it is both |
| ConnectionPool.ScanForLeastBusy | portal_mcp_server/connection_manager.py:1177-1178 | the first usable connection with the fewest users, once the pool is full |
| ConnectionPool.LeastBusyIsUnique | portal_mcp_server/connection_manager.py:1178 | that connection is determined |
| ConnectionPool.ConnectionManager.PruneEntries | portal_mcp_server/connection_manager.py:1153-1164 | the pruning loop closes exactly the dead, the idle and the aged |
| ConnectionPool.ConnectionManager.Publish | portal_mcp_server/connection_manager.py:1221-1236 | a new connection is pooled in use once if the generation is unchanged, and closed otherwise |
| ConnectionPool.ConnectionManager.ReleaseConnection | portal_mcp_server/connection_manager.py:1256-1268 | one user less, a stale connection closed with its last; under an unstripped name nothing at all |
| ConnectionPool.LeaseReturnedExactly | portal_mcp_server/connection_manager.py:1256-1268 | a lease given out under a name is counted back if and only if the name has no surrounding whitespace; otherwise no pool changes |
| PoolProtocol.PruneExactly | portal_mcp_server/connection_manager.py:1153-1164 | pruning keeps exactly what is alive and, unless used, neither idle nor aged, and closes exactly the rest |
| PoolProtocol.PruneFacts | portal_mcp_server/connection_manager.py:1153-1167 | pruning closes nothing in use that was alive, and never adds capacity |
| PoolProtocol.RetireFacts | portal_mcp_server/connection_manager.py:785-805 | retiring leaves only used entries, all stale |
| PoolProtocol.StepKeeps | portal_mcp_server/connection_manager.py:1144-1239 | every step of every task keeps the invariant, with configuration changes during another task's connect |
| PoolProtocol.EveryInterleavingIsSafe | portal_mcp_server/connection_manager.py:1144-1239 | in every interleaving usable connections stay within the pool size, counters equal outstanding leases, no leased connection is closed unless already lost, and every usable one leads to the current target |
| PoolProtocol.NoConnectionLeaks | portal_mcp_server/connection_manager.py:1153-1236 | in every interleaving each connection ever opened is still pooled or has been closed, and with no leases out every retired one is closed |
| PoolProtocol.NoLockLeaks | portal_mcp_server/connection_manager.py:1146-1239 | in every interleaving a lock is held only by a call waiting for its connect |
| PoolProtocol.GrantsAreCurrent | portal_mcp_server/connection_manager.py:1169-1227 | a connection handed out was made from the config in force at that moment |
| PoolProtocol.ClampNeverActs | portal_mcp_server/connection_manager.py:1261 | if leases are returned once each, the clamp at zero never acts |
| PoolProtocol.RetriesAreBounded | portal_mcp_server/connection_manager.py:1217-1239 | a call reconnects at most once per configuration change that happens during it |
| LeaseHolders.StepKeeps | portal_mcp_server/session_manager.py:622-641 | opening, installing, removing and closing sessions and tunnels keeps one owner per lease |
| LeaseHolders.LeasesAreConserved | portal_mcp_server/network_tools.py:47-69 | in every run counters equal the leases outstanding, and when no call is running each listed session or tunnel holds exactly one |
| LeaseHolders.ReleasesAreSingle | portal_mcp_server/network_tools.py:134-147 | every release gives back a lease that was outstanding, and only that one |
| LeaseHolders.ClosingSafetyIsExact | portal_mcp_server/session_manager.py:671-689 | removing a session or beginning to close it leaves every later release, in every run that starts no further overlap, giving back an outstanding lease, if and only if no call is closing that session already |
| LeaseHolders.OverlappingCloseReleasesTwice | portal_mcp_server/session_manager.py:671-689 | a run in which close_session and _invalidate give the same lease back twice |
| LeaseHolders.DoubleReleaseClosesUsedConnection | portal_mcp_server/connection_manager.py:1256-1268 | after it, a reconfiguration closes a connection somebody uses |
| LeaseHolders.DoubleReleaseHappens | portal_mcp_server/connection_manager.py:1256-1268 | a run from the start in which a session's lease goes back twice and registering the host closes the connection under another user's outstanding lease |
| TextLines.SplitThenJoin | portal_mcp_server/remote_text_editor.py:111-128 | splitting on LF gives lines that join to the text |
| TextLines.JoinThenSplit | portal_mcp_server/remote_text_editor.py:111-128 | splitting undoes joining if and only if the pieces are lines: LF last, only the final one may lack it |
| TextLines.UniversalJoin | portal_mcp_server/remote_text_editor.py:654 | splitting at all line boundaries loses nothing |
| TextLines.UniversalCuts | portal_mcp_server/remote_text_editor.py:654 | it cuts after every boundary, a carriage return and its line feed being one, and only there |
| PatchEditor.SortKeepsPatches | portal_mcp_server/remote_text_editor.py:588-589 | sorting permutes the patches into descending start |
| PatchEditor.SortIsStable | portal_mcp_server/remote_text_editor.py:588-589 | patches with equal starts keep their order |
| PatchEditor.DetectOverlap | portal_mcp_server/remote_text_editor.py:591-601 | the loop over neighbours finds an overlap if there is one |
| PatchEditor.NamedLines | portal_mcp_server/remote_text_editor.py:607-612 | line k is replaced if and only if it is not before start and not after end, a missing end being the end of the file |
| PatchEditor.OverlapIsPairwise | portal_mcp_server/remote_text_editor.py:591-601 | comparing neighbours after sorting decides all pairs of the list as given |
| PatchEditor.OrderOfEqualStartsMatters | portal_mcp_server/remote_text_editor.py:588-601 | an insertion listed before a replacement with the same start is refused, after it accepted |
| PatchEditor.ApplyPatches | portal_mcp_server/remote_text_editor.py:603-657 | the in-place loop stops at the first refusal or yields the successive slice assignments |
| PatchEditor.RemotePatch | portal_mcp_server/remote_text_editor.py:552-657 | the whole call, with all refusals in the order of the code |
| PatchEditor.ApplyIsWeave | portal_mcp_server/remote_text_editor.py:603-655 | after each patch the lines above it are untouched and the rest is the splice so far |
| PatchEditor.PatchingIsSimultaneous | portal_mcp_server/remote_text_editor.py:603-657 | successive slice assignment equals the simultaneous splice into the original lines, insertions and clamped ends included |
| PatchEditor.HashedIsReplaced | portal_mcp_server/remote_text_editor.py:618-619 | the lines hashed, taken from the original, are the lines then replaced |
| PatchEditor.PatchedExactly | portal_mcp_server/remote_text_editor.py:552-657 | the file is changed if and only if hash, starts, pairs and range hashes all fit, and then into the splice |
| PatchText.InsertedIsContents | portal_mcp_server/remote_text_editor.py:634-646 | what a patch inserts is its contents, whole, and one line feed more if and only if auto_newline is on, they are there and lack one, and the last line named, there being one, ends in one |
| PatchText.ContentsAreWritten | portal_mcp_server/remote_text_editor.py:552-657 | accepted patches leave, between the lines none of them names, the contents of each with that line feed or not |
| PatchText.OnePatchIsWritten | portal_mcp_server/remote_text_editor.py:552-657 | one patch leaves the lines before it, its contents, the line feed or not, and the lines after those it names |
| PatchText.RefusedBecause | portal_mcp_server/remote_text_editor.py:552-632 | which of the six reasons a refusal gives, in their order, and of several patches that do not fit that of the last in the file |
| PatchEditor.RereadIsSplice | portal_mcp_server/remote_text_editor.py:634-657 | reading a patched LF-terminated file gives the line-level splice if and only if no unterminated new text is followed by anything |
| PatchEditor.WeaveLength | portal_mcp_server/remote_text_editor.py:654-657 | the line count is total minus removed plus added |
| PatchEditor.AutoNewlineCompletes | portal_mcp_server/remote_text_editor.py:634-646 | auto_newline gives its final LF to every patch that replaces a line |
| PatchEditor.AutoNewlineKeepsLines | portal_mcp_server/remote_text_editor.py:634-657 | so such patches splice whole lines, and the next read counts them so |
| PatchEditor.InsertionCanGlue | portal_mcp_server/remote_text_editor.py:635-646 | an insertion without final LF is glued to the next line even with auto_newline |
| Pager.CutPage | portal_mcp_server/remote_text_editor.py:499-506 | the accumulation loop extends the page as far as the budget allows |
| Pager.RemoteRead | portal_mcp_server/remote_text_editor.py:479-523 | the whole call: index clamping, empty ranges, page and continuation |
| Pager.RequestedLines | portal_mcp_server/remote_text_editor.py:484-492 | line k is requested if and only if it is not before start and not after end, and there is nothing to return if and only if no line is |
| Pager.PageIsUnique | portal_mcp_server/remote_text_editor.py:496-506 | there is one greedy page |
| Pager.PageIsGreedy | portal_mcp_server/remote_text_editor.py:479-523 | the call cuts that page: at least one line, within both caps unless it is one line, one line more would exceed them |
| Pager.PageTellsFile | portal_mcp_server/remote_text_editor.py:509-523 | a page tells the hash and line count of the whole file, the hash of what it returns, and the line asked for; with nothing to return it is empty and the last |
| Pager.PageStopsBecause | portal_mcp_server/remote_text_editor.py:490-509 | a page has at least one line and no more than asked for or the default, more than one only within the byte cap, and stops early only where one line more would break a limit |
| Pager.WalkCoversRange | portal_mcp_server/remote_text_editor.py:462-465 | the pages of a finished walk concatenate to the requested range, whatever limits were given |
| Pager.WalkFinishes | portal_mcp_server/remote_text_editor.py:462-465 | one call per line is enough |
| Pager.WalkCoversFile | portal_mcp_server/remote_text_editor.py:462-465 | from the top, the pages concatenate to the file |
| Pager.AdvancesExactly | portal_mcp_server/remote_text_editor.py:494-509 | the walk advances if and only if the line cap is positive |
| Pager.RangeHashAccepted | portal_mcp_server/remote_text_editor.py:479-523 | exactly when remote_patch accepts a page's own start, end and hash |
| Utf8.DecodeEncoded | portal_mcp_server/job_manager.py:569-574 | decoding inverts encoding |
| Utf8.Examples | portal_mcp_server/job_manager.py:569-574 | characters of one to four octets are encoded as the standard's examples are |
| Utf8.EscapeIsHex | portal_mcp_server/job_manager.py:575-577 | an escape is a backslash, an x and the octet's two lower-case hexadecimal digits |
| Utf8.EncodeDecoded | portal_mcp_server/job_manager.py:569-574 | what decodes is the encoding of the result |
| Utf8.DecodeJoin | portal_mcp_server/job_manager.py:557-574 | after whole characters, decoding goes on as if it started there |
| Utf8.DecodeIncremental | portal_mcp_server/job_manager.py:557-577 | the trimming loop tries zero to three trailing bytes less, then escapes |
| Utf8.TrimsAtMostThree | portal_mcp_server/job_manager.py:566-577 | at most three bytes are deferred, and the text is that of the bytes consumed |
| Utf8.DecodesWholeCharacters | portal_mcp_server/job_manager.py:557-577 | on a prefix of valid output it stops at the last character boundary and escapes nothing |
| JobPoll.Poll | portal_mcp_server/job_manager.py:311-374 | chunk, decoding, flush, offset and more-flag of one poll |
| JobPoll.SentExactly | portal_mcp_server/job_manager.py:311-332 | a poll is sent the stretch from its offset to the size measured, as far as the bytes asked for, four at least, go |
| JobPoll.MoreExactly | portal_mcp_server/job_manager.py:374 | it says that there is more if and only if it has not passed the size measured |
| JobPoll.PollBoundary | portal_mcp_server/job_manager.py:353-373 | a poll stops on a character boundary if and only if it does not flush |
| JobPoll.FlushExactly | portal_mcp_server/job_manager.py:370-373 | it flushes if and only if the job is found ended and the size measured cuts a character within reach |
| JobPoll.ChainedPollsDecode | portal_mcp_server/job_manager.py:311-374 | chained polls of a growing file return the decoding of what they passed and stay on boundaries, whatever sizes and caps, if and only if no such poll occurs |
| JobPoll.WholeOutputDelivered | portal_mcp_server/job_manager.py:311-374 | at the end, the chunks are the decoding of the whole output |
| JobPoll.CompleteOutputIsNeverCut | portal_mcp_server/job_manager.py:370-373 | nothing is cut if the job is found ended only once its output is complete |
| JobPoll.SizeProbeRace | portal_mcp_server/job_manager.py:325-330 | size measured before the probe: a two-byte character comes out as two escapes |
| JobPoll.DrainStep | portal_mcp_server/job_manager.py:359-374 | with frozen output of any bytes, every poll short of the end advances |
| JobPoll.DrainReachesTheEnd | portal_mcp_server/job_manager.py:359-374 | polling while more ends at the size, and the ranges tile the file once |
| JobPoll.InvalidOctetSpreads | portal_mcp_server/job_manager.py:575-577 | an invalid byte in a chunk makes the character cut at its end come out escaped |
| LossyDrain.PollCutsExactly | portal_mcp_server/job_manager.py:357-374 | a poll of frozen output of any bytes, from between two characters, ends inside one if and only if what it is sent does and no prefix of that leaving at most three bytes is well-formed |
| LossyDrain.DrainedTextExactly | portal_mcp_server/job_manager.py:357-374 | polls that drain a file of any bytes return together the decoding of the whole file if and only if, by that test on file, offset and cap, none cuts a character; and never less text |
| JobTable.CodeIsFinalExactly | portal_mcp_server/job_manager.py:396-405 | an exit code survives everything appended to the meta file if and only if its end was visible |
| ExitCodes.RecordedCodeIsRead | portal_mcp_server/job_manager.py:254 | the line the job's shell writes for an exit status is read back as that status, with its sign |
| ExitCodes.EndingIs | portal_mcp_server/job_manager.py:396-403 | the word after the first marker decides, whatever is before it and whatever blanks are around it; none, or one that is no number, makes the end unreadable |
| ExitCodes.PollReportsCode | portal_mcp_server/job_manager.py:350-405 | an undisturbed poll of a job whose shell wrote exit status n reports n, done for zero and failed for any other |
| ExitCodes.ClassifiedExactly | portal_mcp_server/job_manager.py:396-414 | a readable end wins over everything, an unreadable one is unknown; else running while alive, else cancelled if that was asked for, else unknown; and no code but a recorded one |
| ExitCodes.CommittedExactly | portal_mcp_server/job_manager.py:376-382 | the end is dated by the poll that first finds it |
| ExitCodes.CancelledExactly | portal_mcp_server/job_manager.py:457-461 | a process found dead ends, then and there, a job that had not ended |
| ExitCodes.SweptExactly | portal_mcp_server/job_manager.py:489-502 | a record goes if and only if its job ended more than the time to live ago |
| JobTable.JobManager.Admit | portal_mcp_server/job_manager.py:227-237 | admitted if and only if live jobs and reservations are below the cap |
| JobTable.JobManager.Submit | portal_mcp_server/job_manager.py:225-242 | with nothing else running the reservation is given back, also when the spawn raises |
| JobTable.JobManager.Sweep | portal_mcp_server/job_manager.py:489-502 | removes exactly the ended jobs past their time to live, and returns them |
| JobTable.JobManager.CommitPoll | portal_mcp_server/job_manager.py:376-386 | the new record, its end time set at the first terminal status only |
| JobTable.JobManager.CommitCancel | portal_mcp_server/job_manager.py:457-462 | a dead process becomes cancelled unless the job has ended already |
| JobAdmission.StepKeeps | portal_mcp_server/job_manager.py:225-242 | every step keeps reservations counted, and the bound unless it takes an ended job for running again, which raises it by one |
| JobAdmission.NeverOvershoots | portal_mcp_server/job_manager.py:225-242 | over every interleaving live jobs and reserved submits never exceed the cap (or what was loaded) by more than the number of ended jobs taken for running again, and pending is zero if and only if no submit is in flight |
| JobAdmission.RevivalPassesTheCap | portal_mcp_server/job_manager.py:376-382 | from any table with one slot left, a run with one such revival that ends with one live job above the cap |
| JobLifecycle.StepKeeps | portal_mcp_server/job_manager.py:376-462 | every step keeps the record consistent with meta file and process, if polls do not overlap |
| JobLifecycle.RecordedEndIsFinal | portal_mcp_server/job_manager.py:376-414 | if polls do not overlap, a recorded done or failed is what the meta file says and never changes, nor does its exit code |
| JobLifecycle.RecordedDeathIsReal | portal_mcp_server/job_manager.py:396-414 | in every run a job recorded cancelled or unknown is dead, and cancelled only if a cancel was committed |
| JobLifecycle.UndisturbedPollTells | portal_mcp_server/job_manager.py:350-386 | a poll nothing disturbs reports the recorded end and its code, else running while the process lives, else cancelled or unknown |
| JobLifecycle.UndisturbedCancelTells | portal_mcp_server/job_manager.py:424-462 | a cancel nothing disturbs leaves the job cancelled if the process died of it, and running otherwise |
| JobLifecycle.FinishedOnce | portal_mcp_server/job_manager.py:376-386 | the end time is set once, in every interleaving |
| JobLifecycle.RevivesAloneExactly | portal_mcp_server/job_manager.py:376-382 | if polls do not overlap, an ended job returns to running if and only if a cancel recorded its death while a poll that saw it alive was in flight |
| JobLifecycle.SerialCallsAreSafe | portal_mcp_server/job_manager.py:424-462 | if calls do not overlap, no end is taken back and no job recorded as ended is signalled |
| JobLifecycle.OverlappingPollsTakeBack | portal_mcp_server/job_manager.py:376-382 | a run of two polls in which a recorded end returns to running |
| JobLifecycle.CancelDuringPollRevives | portal_mcp_server/job_manager.py:457-462 | a run in which a poll revives a cancelled job |
| JobLifecycle.PollDuringCancelIsSignalled | portal_mcp_server/job_manager.py:424-455 | a run in which a job recorded as ended is signalled |
| JobOverlap.EndLostExactly | portal_mcp_server/job_manager.py:376-405 | in any interleaving a step takes a recorded done or failed back if and only if it commits a poll that read the meta file while it was empty; otherwise status and exit code stay |
| JobOverlap.EndSafetyIsExact | portal_mcp_server/job_manager.py:376-405 | a recorded end outlives every later interleaving if and only if no poll in flight read the meta file before it was there |
| JobOverlap.RecordedEndIsFinalExactly | portal_mcp_server/job_manager.py:376-405 | in every run from submission a recorded end is what the meta file says, and final under that condition |
| JobOverlap.PollMissesEndExactly | portal_mcp_server/job_manager.py:325-330 | a poll committed when the end is there misses it if and only if it read the meta file before |
| JobOverlap.EndedJobReportedUnknown | portal_mcp_server/job_manager.py:396-414 | a run of one poll alone in which a job that recorded its exit code is reported unknown |
| JobOverlap.RevivesExactly | portal_mcp_server/job_manager.py:376-414 | in any interleaving a step takes an ended job for running if and only if it commits a poll that saw no end and the process alive |
| JobOverlap.RevivalSafetyIsExact | portal_mcp_server/job_manager.py:376-414 | an ended job stays ended in every later interleaving if and only if no poll in flight has seen that or can still see it |
| JobOverlap.SignalSafetyIsExact | portal_mcp_server/job_manager.py:419-455 | a cancel just allowed signals no job recorded as ended, whatever the calls in flight do, if and only if every other call in flight has already seen the job run |
| JobOverlap.LaterPollMakesUnsafe | portal_mcp_server/job_manager.py:419-455 | if a poll may still begin, there is always a run in which it signals one |
| Redaction.SortLongestFirst | portal_mcp_server/secrets_store.py:286 | each non-empty value once, none after a shorter one |
| Redaction.Redact | portal_mcp_server/secrets_store.py:276-288 | replaces the values one after the other in such an order |
| Redaction.ReplaceMakesNothing | portal_mcp_server/secrets_store.py:287 | replacing one value leaves no occurrence of it and makes no new one of another |
| Redaction.NothingLeaks | portal_mcp_server/secrets_store.py:276-288 | a value that a mask cannot be part of is not left in the output, whatever the other values are |
| Redaction.RedactingTwice | portal_mcp_server/secrets_store.py:276-288 | redacting the output again, in any order, changes nothing when no value can be made by a mask |
| Redaction.WholeValueIsMasked | portal_mcp_server/secrets_store.py:285-286 | a text that is one of the values becomes one mask, also when the value contains others |
| MaskedSpans.RedactionIsMasking | portal_mcp_server/secrets_store.py:276-288 | when no value can hold part of a mask, the output is the text with every replaced occurrence turned into one mask where it stood, and every other character kept |
| MaskedSpans.MaskedWholeExactly | portal_mcp_server/secrets_store.py:285-287 | in any text, an occurrence of a value belongs to one replaced occurrence if and only if no replaced occurrence straddles one of its ends; when no value can hold part of a mask, the output shows that as one mask (`RedactionIsMasking`) |
| MaskedSpans.NothingStraddlesIsEnough | portal_mcp_server/secrets_store.py:285-287 | so it is when no occurrence of a value in the text does |
| MaskedSpans.StraddledSecretShows | portal_mcp_server/secrets_store.py:285-287 | of "abcdefg" with the values "abc" and "cdefg" the output is "ab***" |
| WholeMasks.SpansAreMasked | portal_mcp_server/secrets_store.py:287 | a replaced occurrence is replaced in all its characters, so two never overlap |
| WholeMasks.PartShowsExactly | portal_mcp_server/secrets_store.py:285-287 | part of an occurrence is kept if and only if the replaced occurrences do not cover it, and then one straddles one of its ends |
| WholeMasks.StraddledMayBeMasked | portal_mcp_server/secrets_store.py:285-287 | the converse is false: of "xaby" with the values "xa", "by" and "ab" the output is "******" |
| WholeMasks.WholeEverywhereExactly | portal_mcp_server/secrets_store.py:285-287 | every occurrence of every value in every text is replaced as a whole if and only if two values that overlap always make a value together; in particular when no value ends as one begins |
| Redaction.SafeExactly | portal_mcp_server/secrets_store.py:285-287 | a value never survives its replacement if and only if it has no star at its ends and no mask inside |
| Base64.RoundTrip | portal_mcp_server/secrets_store.py:131-133 | decoding undoes encoding |
| Base64.AlphabetIs | portal_mcp_server/secrets_store.py:131-133 | the alphabet is that of table 1 of RFC 4648 |
| Base64.TestVectors | portal_mcp_server/secrets_store.py:131-133 | and the paddings those of its test vectors |
| Base64.OneLine | portal_mcp_server/secrets_store.py:98-99 | an encoding is one line of symbols and padding |
| SecretFraming.SudoStdinSecretScript | portal_mcp_server/secrets_store.py:113-123 | the loop builds one read and one decode per name, then export and command |
| SecretFraming.EnvVarNameIsName | portal_mcp_server/secrets_store.py:68-78 | a secret's variable name is an identifier without lower case |
| SecretFraming.EnvVarNameExactly | portal_mcp_server/secrets_store.py:68-78 | letters in upper case, digits and underscores as they are, an underscore for any other character, and one more before a digit |
| SecretFraming.ScriptReadsPayload | portal_mcp_server/secrets_store.py:113-133 | run against its payload the script exports every name, leaves the rest of stdin to the command, and binds every name to its value as command substitution leaves it, unless bash keeps the name or does not find `base64` at that point |
| SecretFraming.AllArriveExactly | portal_mcp_server/secrets_store.py:113-133 | all values arrive if and only if bash keeps none of the names and none but the last is a PATH that hides `base64` |
| SecretFraming.AcceptedNamesFail | portal_mcp_server/secrets_store.py:68-78 | secrets named path, uid and key: UID stays as it was and KEY comes empty |
| SecretFraming.UnchangedExactly | portal_mcp_server/secrets_store.py:101-103 | a value arrives octet for octet if and only if it has no NUL and no final newline |
| RateLimiter.SecurityPolicy.CheckRateLimit | portal_mcp_server/security.py:90-100 | prunes and extends the host's list in place and touches no other host |
| RateLimiter.ListIsHistory | portal_mcp_server/security.py:96 | the list is the history of accepted calls cut to the last second |
| RateLimiter.EveryWindowIsBounded | portal_mcp_server/security.py:90-100 | no second, wherever it starts, holds more accepted calls than the limit rounded up |
| RateLimiter.RefusedExactly | portal_mcp_server/security.py:97-98 | refused if and only if the accepted calls of the second before reach the limit |
| RateLimiter.ListForAnyClock | portal_mcp_server/security.py:90-100 | for any clock, the list holds the accepted calls that are less than a second older than every later reading |
| RateLimiter.RefusedForAnyClock | portal_mcp_server/security.py:97-98 | for any clock, refused if and only if the accepted calls that no reading up to this one has found a second old reach the limit |
| RateLimiter.RememberedWindowIsBounded | portal_mcp_server/security.py:90-100 | for any clock, a second holds no more accepted calls than the limit rounded up unless one of them was forgotten before the last was checked |
| RateLimiter.ForwardRemembers | portal_mcp_server/security.py:96 | none is when the clock is never set back |
| RateLimiter.ClockSetBackOvershoots | portal_mcp_server/security.py:92-96 | with a clock set back, three calls in a second at a limit of two |
| ResumableUpload.AppendTail | portal_mcp_server/file_ops.py:128-146 | the chunk loop keeps remote = partial + local[offset..done], also where a write raises |
| ResumableUpload.Upload | portal_mcp_server/file_ops.py:149-213 | the whole call with its report, on every branch and failure |
| ResumableUpload.OkMeansIdentical | portal_mcp_server/file_ops.py:173-210 | ok means the remote file is the local one; resumed if and only if a proper prefix was there, noticed and verified; and why a partial was given up |
| ResumableUpload.SucceedsExactly | portal_mcp_server/file_ops.py:173-213 | ok if and only if nothing the call needs raises |
| ResumableUpload.ResumesExactly | portal_mcp_server/file_ops.py:173-203 | a call asked not to resume, or that cannot look at the remote file or finds no proper partial, puts the whole file and reports so; a partial that is a prefix is completed |
| ResumableUpload.InterruptionKeepsPrefix | portal_mcp_server/file_ops.py:128-146 | an append cut short leaves a prefix that is no shorter, and longer if and only if some of what it wrote landed |
| ResumableUpload.FlagSurvivesFailure | portal_mcp_server/file_ops.py:187-203 | after a failed replacement the resumed flag stays set |

## Left out

- `set_env`: it writes a line without consuming that line's D, so it is outside the session invariant; no tool calls it.
- `close_session` in the session machine: it ends the session; its lease is in LeaseHolders.
- Control characters in a command other than line feed and carriage return: they are editing keys and signals of the remote terminal. The shell reads a call's text as the lines the terminal makes of it.
- An interrupt that arrives while the shell is printing its prompt: it arrives at a prompt or while a command runs.
- The interactive-prompt pattern and the timers of the read loops: a Ctrl-C or a timeout may come at any step instead.
- ANSI stripping, CRLF and blank-line trimming of outputs: the model returns the bytes before the marker.
- A negative PORTAL_SHELL_MAX_OUTPUT: the buffer capacity is a natural number; a negative value drops everything, as zero does.
- Objects of class `PooledConnection`: entries are values in a host's list, each identified by its connection; aliasing between a list being pruned and the stored one is not captured.
- PoolProtocol looks at one host at a time; the class lemmas state that other hosts are untouched.
- The password retry, secret commands and ssh_config parsing inside `get_connection`: one connect that succeeds or fails, and an alias that resolves or not.
- `close_all`, task cancellation and process shutdown.
- SHA-256 is an injective constructor; hashing time and encodings other than the text itself are not modelled.
- The warnings of `remote_patch`, its refusal of malformed patch dictionaries, and the write, rename and read-back after the text is computed.
- `_parse_poll` and the wrapped Base 64 of the poll reply: size, meta line and liveness arrive as values; `tail` polls are left out.
- `int()` of the exit code accepts underscores and other digits too; ParseInt takes optional sign and ASCII digits. The meta line ends at LF.
- Persistence of the job table, and the remote clean-up after a sweep.
- JobLifecycle covers one job; a process once dead stays dead, and its shell appends complete lines.
- Other effects of a secret's name on bash (POSIXLY_CORRECT, TMOUT, the loader's variables); a name is kept, searched for `base64`, or neither.
- The secret script is a list of statements, not bash text; quoting and a `base64` that fails halfway are not modelled.
- `redact` on lone surrogates, and values of other types than text.
- Progress callbacks, file modes and times of an upload; the local file does not change and nobody else writes the remote one.
- `remote_bash` with a host whose shell is unsupported, and the durations in results.
- Flat caches, audit log, globbing, host and command policies, credential agent and CLI: they would only add easy members.
