/** `remote_bash`, `remote_bash_many` and the default session they keep per host. */
module RemoteBash {
  import opened Base

  // ---------------------------------------------------------------------
  // A batch in one session
  // ---------------------------------------------------------------------

  /** How `_execute_locked` ends; no code when the command timed out. */
  datatype Outcome = Finished(code: Option<int>, truncated: bool) | Blocked | Died

  datatype Note = Plain | Truncated | InteractivePromptBlocked | SessionDead

  datatype Entry = Entry(command: string, code: Option<int>, note: Note)

  datatype Batch = Batch(results: seq<Entry>, stoppedAt: Option<string>)

  /** `remote_bash_many` while it holds the session's lock; `outcomes[k]` is what
    * command `k` comes to, should it be reached. The batch goes on until a session is reported
    * dead, or on request a code other than 0; then it says at which command it stopped. */
  method RemoteBashMany(cmds: seq<string>, outcomes: seq<Outcome>, stopOnError: bool) returns (batch: Batch)
    requires |outcomes| == |cmds|
    ensures |batch.results| <= |cmds|
    ensures forall k :: 0 <= k < |batch.results| ==> batch.results[k].command == cmds[k]
    ensures forall k :: 0 <= k < |batch.results| && outcomes[k].Finished? ==>
              && batch.results[k].code == outcomes[k].code
              && (batch.results[k].note == Truncated <==> outcomes[k].truncated)
              && (batch.results[k].note == Plain <==> !outcomes[k].truncated)
    ensures forall k :: 0 <= k < |batch.results| && !outcomes[k].Finished? ==>
              && batch.results[k].code == Some(-1)
              && batch.results[k].note == if outcomes[k].Blocked? then InteractivePromptBlocked else SessionDead
    ensures forall k :: 0 <= k < |batch.results| - 1 ==>
              batch.results[k].note != SessionDead && (stopOnError ==> batch.results[k].code == Some(0))
    ensures var n := |batch.results|;
            batch.stoppedAt ==
            if n > 0 && (batch.results[n - 1].note == SessionDead || (stopOnError && batch.results[n - 1].code != Some(0)))
            then Some(cmds[n - 1]) else None
    ensures batch.stoppedAt.None? ==> |batch.results| == |cmds|
  {
    var results: seq<Entry> := [];
    var stoppedAt: Option<string> := None;
    for k := 0 to |cmds|
      invariant |results| == k && stoppedAt.None?
      invariant forall j :: 0 <= j < k ==> results[j].command == cmds[j]
      invariant forall j :: 0 <= j < k && outcomes[j].Finished? ==>
                  && results[j].code == outcomes[j].code
                  && results[j].note == if outcomes[j].truncated then Truncated else Plain
      invariant forall j :: 0 <= j < k && !outcomes[j].Finished? ==>
                  && results[j].code == Some(-1)
                  && results[j].note == if outcomes[j].Blocked? then InteractivePromptBlocked else SessionDead
      invariant forall j :: 0 <= j < k ==> results[j].note != SessionDead && (stopOnError ==> results[j].code == Some(0))
    {
      var cmd := cmds[k];
      match outcomes[k] {
        case Blocked =>
          results := results + [Entry(cmd, Some(-1), InteractivePromptBlocked)];
          if stopOnError {
            return Batch(results, Some(cmd));
          }
        case Died =>
          results := results + [Entry(cmd, Some(-1), SessionDead)];
          return Batch(results, Some(cmd));
        case Finished(code, truncated) =>
          results := results + [Entry(cmd, code, if truncated then Truncated else Plain)];
          if stopOnError && (code.None? || code.value != 0) {
            return Batch(results, Some(cmd));
          }
      }
    }
    return Batch(results, stoppedAt);
  }

  // ---------------------------------------------------------------------
  // The default session of one host
  // ---------------------------------------------------------------------

  type SessionId = nat
  type CallId = nat

  /** A running call. `sent` counts the times its command was handed to a session,
    * `lost` is the session the first attempt found dead. */
  datatype Call =
    | Wanting(batch: bool, sent: nat, lost: Option<SessionId>)
    | SettingUp(batch: bool, sent: nat, lost: Option<SessionId>, made: Option<SessionId>)
    | Executing(sid: SessionId, batch: bool, sent: nat, lost: Option<SessionId>)
    | Clearing(sid: SessionId, batch: bool, sent: nat)
    | Closing(sid: SessionId)

  /** `cached` is `_HOST_SESSIONS.get(host)`, `live` the registered sessions made here,
    * `made` all ever made, `holder` who holds the host's lock across an await. */
  datatype World = World(
    cached: Option<SessionId>, live: set<SessionId>, made: set<SessionId>, holder: Option<CallId>, calls: map<CallId, Call>)

  datatype Label =
    | Begin(t: CallId, batch: bool)
    | Ensure(t: CallId)
    | Create(t: CallId, sid: SessionId)
    | Ready(t: CallId)
    | SetupFails(t: CallId)
    | Finish(t: CallId)
    | FindDead(t: CallId)
    | Clear(t: CallId)
    | Pop(t: CallId)
    | Closed(t: CallId)
    | Dies(sid: SessionId)

  predicate Enabled(w: World, l: Label) {
    match l
    case Begin(t, _) => t !in w.calls
    case Ensure(t) => t in w.calls && w.calls[t].Wanting? && w.holder.None?
    case Create(t, sid) => t in w.calls && w.calls[t].SettingUp? && w.calls[t].made.None? && sid !in w.made
    case Ready(t) => t in w.calls && w.calls[t].SettingUp? && w.calls[t].made.Some? && w.calls[t].made.value in w.live
    case SetupFails(t) => t in w.calls && w.calls[t].SettingUp?
    case Finish(t) => t in w.calls && w.calls[t].Executing?
    case FindDead(t) => t in w.calls && w.calls[t].Executing? && w.calls[t].sid !in w.live
    case Clear(t) => t in w.calls && w.calls[t].Clearing? && w.holder.None?
    case Pop(t) => t !in w.calls && w.holder.None?
    case Closed(t) => t in w.calls && w.calls[t].Closing?
    case Dies(_) => true
  }

  function Apply(w: World, l: Label): World
    requires Enabled(w, l)
  {
    match l
    case Begin(t, batch) => w.(calls := w.calls[t := Wanting(batch, 0, None)])
    case Ensure(t) =>
      var c := w.calls[t];
      if w.cached.Some? && w.cached.value in w.live then
        w.(calls := w.calls[t := Executing(w.cached.value, c.batch, c.sent + 1, c.lost)])
      else
        w.(cached := None, holder := Some(t), calls := w.calls[t := SettingUp(c.batch, c.sent, c.lost, None)])
    case Create(t, sid) =>
      w.(live := w.live + {sid}, made := w.made + {sid}, calls := w.calls[t := w.calls[t].(made := Some(sid))])
    case Ready(t) =>
      var c := w.calls[t];
      w.(cached := c.made, holder := None, calls := w.calls[t := Executing(c.made.value, c.batch, c.sent + 1, c.lost)])
    case SetupFails(t) =>
      // A bootstrap that fails invalidates its session.
      var c := w.calls[t];
      w.(live := w.live - (if c.made.Some? then {c.made.value} else {}), holder := None, calls := w.calls - {t})
    case Finish(t) => w.(calls := w.calls - {t})
    case FindDead(t) =>
      // The second attempt's SessionDead goes to the caller.
      var c := w.calls[t];
      if c.lost.Some? then w.(calls := w.calls - {t})
      else w.(calls := w.calls[t := Clearing(c.sid, c.batch, c.sent)])
    case Clear(t) =>
      var c := w.calls[t];
      var w' := if w.cached == Some(c.sid) then w.(cached := None) else w;
      if c.batch then w'.(calls := w.calls - {t})
      else w'.(calls := w.calls[t := Wanting(false, c.sent, Some(c.sid))])
    case Pop(t) =>
      if w.cached.Some? then w.(cached := None, calls := w.calls[t := Closing(w.cached.value)]) else w
    case Closed(t) => w.(live := w.live - {w.calls[t].sid}, calls := w.calls - {t})
    case Dies(sid) => w.(live := w.live - {sid})
  }

  /** Someone knows the session: the cache, the call setting it up, or a call closing it. */
  ghost predicate Known(w: World, sid: SessionId) {
    || w.cached == Some(sid)
    || exists t :: t in w.calls && Holds(w.calls[t], sid)
  }

  predicate Holds(c: Call, sid: SessionId) {
    (c.SettingUp? && c.made == Some(sid)) || (c.Closing? && c.sid == sid)
  }

  /** What a call remembers is consistent with how often its command was sent. */
  predicate CallInv(w: World, t: CallId, c: Call) {
    match c
    case Wanting(_, sent, lost) => sent == (if lost.Some? then 1 else 0) && (lost.Some? ==> lost.value in w.made - w.live)
    case SettingUp(_, sent, lost, made) =>
      && w.holder == Some(t) && w.cached.None?
      && sent == (if lost.Some? then 1 else 0) && (lost.Some? ==> lost.value in w.made - w.live)
      && (made.Some? ==> made.value in w.made && made != lost)
    case Executing(sid, _, sent, lost) =>
      && sid in w.made && Some(sid) != lost
      && sent == (if lost.Some? then 2 else 1) && (lost.Some? ==> lost.value in w.made - w.live)
    case Clearing(sid, _, sent) => sid in w.made - w.live && sent == 1
    case Closing(sid) => sid in w.made
  }

  ghost predicate Inv(w: World) {
    && w.live <= w.made
    && (w.cached.Some? ==> w.cached.value in w.made)
    && (w.holder.Some? ==> w.holder.value in w.calls && w.calls[w.holder.value].SettingUp?)
    && (forall sid :: sid in w.live ==> Known(w, sid))
    && forall t :: t in w.calls ==> CallInv(w, t, w.calls[t])
  }

  lemma StepKeepsCalls(w: World, l: Label)
    requires Inv(w) && Enabled(w, l)
    ensures var w' := Apply(w, l);
            && w'.live <= w'.made
            && (w'.cached.Some? ==> w'.cached.value in w'.made)
            && (w'.holder.Some? ==> w'.holder.value in w'.calls && w'.calls[w'.holder.value].SettingUp?)
            && forall t :: t in w'.calls ==> CallInv(w', t, w'.calls[t])
  {
  }

  lemma StaysKnown(w: World, l: Label, sid: SessionId)
    requires Inv(w) && Enabled(w, l) && sid in Apply(w, l).live
    ensures Known(Apply(w, l), sid)
  {
    var w' := Apply(w, l);
    if sid in w.live {
      if w.cached == Some(sid) {
        if l.Pop? {
          assert Holds(w'.calls[l.t], sid);
        }
      } else {
        var t :| t in w.calls && Holds(w.calls[t], sid);
        assert t in w'.calls && w'.calls[t] == w.calls[t] ==> Holds(w'.calls[t], sid);
      }
    } else {
      assert Holds(w'.calls[l.t], sid);
    }
  }

  lemma StepKeeps(w: World, l: Label)
    requires Inv(w) && Enabled(w, l)
    ensures Inv(Apply(w, l))
  {
    hide Known, CallInv, Apply;
    StepKeepsCalls(w, l);
    forall sid | sid in Apply(w, l).live ensures Known(Apply(w, l), sid) {
      StaysKnown(w, l, sid);
    }
  }

  predicate IsRun(w: World, labels: seq<Label>)
    decreases |labels|
  {
    labels != [] ==> Enabled(w, labels[0]) && IsRun(Apply(w, labels[0]), labels[1..])
  }

  function After(w: World, labels: seq<Label>): World
    requires IsRun(w, labels)
    decreases |labels|
  {
    if labels == [] then w else After(Apply(w, labels[0]), labels[1..])
  }

  lemma {:induction false} RunKeeps(w: World, labels: seq<Label>)
    requires Inv(w) && IsRun(w, labels)
    ensures Inv(After(w, labels))
    decreases |labels|
  {
    hide Inv, Apply, Enabled;
    if labels != [] {
      StepKeeps(w, labels[0]);
      RunKeeps(Apply(w, labels[0]), labels[1..]);
    }
  }

  function Initially(): World { World(None, {}, {}, None, map[]) }

  /** However calls on a host interleave: at most one of its live default sessions is not
    * being closed, none is lost track of, and a command is sent twice at most, the second
    * time to another session after the first was found dead. */
  lemma OneDefaultSession(labels: seq<Label>)
    requires IsRun(Initially(), labels)
    ensures var w := After(Initially(), labels);
            && (forall sid :: sid in w.live ==> Known(w, sid))
            && (forall a, b :: a in w.live && b in w.live && !BeingClosed(w, a) && !BeingClosed(w, b) ==> a == b)
            && (forall t :: t in w.calls && w.calls[t].Executing? ==>
                  && 1 <= w.calls[t].sent <= 2
                  && (w.calls[t].sent == 2 <==> w.calls[t].lost.Some?)
                  && (w.calls[t].lost.Some? ==> w.calls[t].lost.value !in w.live && w.calls[t].lost.value != w.calls[t].sid))
  {
    RunKeeps(Initially(), labels);
    var w := After(Initially(), labels);
    hide IsRun, After;
    forall a, b | a in w.live && b in w.live && !BeingClosed(w, a) && !BeingClosed(w, b) ensures a == b {
      OnlyOne(w, a, b);
    }
    assert forall t :: t in w.calls ==> CallInv(w, t, w.calls[t]);
  }

  ghost predicate BeingClosed(w: World, sid: SessionId) { exists t :: t in w.calls && w.calls[t] == Closing(sid) }

  lemma OnlyOne(w: World, a: SessionId, b: SessionId)
    requires Inv(w) && a in w.live && b in w.live && !BeingClosed(w, a) && !BeingClosed(w, b)
    ensures a == b
  {
    assert Known(w, a) && Known(w, b);
    forall t | t in w.calls && (Holds(w.calls[t], a) || Holds(w.calls[t], b)) ensures w.holder == Some(t) && w.cached.None? {
      assert CallInv(w, t, w.calls[t]);
    }
  }

  // ---------------------------------------------------------------------
  // One call at a time
  // ---------------------------------------------------------------------

  lemma {:induction false} RunsOn(w: World, a: seq<Label>, l: Label)
    requires IsRun(w, a) && Enabled(After(w, a), l)
    ensures IsRun(w, a + [l]) && After(w, a + [l]) == Apply(After(w, a), l)
    decreases |a|
  {
    hide Enabled, Apply;
    if a == [] {
      assert [] + [l] == [l] && [l][1..] == [];
    } else {
      assert (a + [l])[1..] == a[1..] + [l];
      RunsOn(Apply(w, a[0]), a[1..], l);
    }
  }

  /** One more label of a run from the start. */
  lemma Then(labels: seq<Label>, w: World, l: Label) returns (more: seq<Label>)
    requires IsRun(Initially(), labels) && After(Initially(), labels) == w && Enabled(w, l)
    ensures more == labels + [l] && IsRun(Initially(), more) && After(Initially(), more) == Apply(w, l)
  {
    RunsOn(Initially(), labels, l);
    more := labels + [l];
  }

  /** A host with one default session, and what its calls are doing. */
  function Serving(sid: SessionId, calls: map<CallId, Call>): World { World(Some(sid), {sid}, {sid}, None, calls) }

  /** The first call on a host makes its session, remembers it, and sends its command there. */
  lemma FirstCallMakesSession(t: CallId, sid: SessionId, batch: bool) returns (labels: seq<Label>)
    ensures labels == [Begin(t, batch)] + [Ensure(t)] + [Create(t, sid)] + [Ready(t)]
    ensures IsRun(Initially(), labels)
    ensures After(Initially(), labels) == Serving(sid, map[t := Executing(sid, batch, 1, None)])
  {
    hide IsRun, After;
    NoSteps();
    var w := Initially();
    labels := Then([], w, Begin(t, batch));
    assert map[][t := Wanting(batch, 0, None)] == map[t := Wanting(batch, 0, None)];
    w := w.(calls := map[t := Wanting(batch, 0, None)]);
    labels := Then(labels, w, Ensure(t));
    w := w.(holder := Some(t), calls := w.calls[t := SettingUp(batch, 0, None, None)]);
    labels := Then(labels, w, Create(t, sid));
    assert {} + {sid} == {sid};
    w := w.(live := {sid}, made := {sid}, calls := w.calls[t := SettingUp(batch, 0, None, Some(sid))]);
    labels := Then(labels, w, Ready(t));
    assert w.calls[t := Executing(sid, batch, 1, None)] == map[t := Executing(sid, batch, 1, None)];
  }

  lemma NoSteps()
    ensures IsRun(Initially(), []) && After(Initially(), []) == Initially()
  {
  }

  /** When its session is found dead, that is forgotten; a single call tries once more, in a
    * session of its own making, and a batch does not. */
  lemma DeadSessionIsReplaced(t: CallId, sid: SessionId, next: SessionId, batch: bool) returns (labels: seq<Label>)
    requires sid != next
    ensures IsRun(Initially(), labels)
    ensures After(Initially(), labels) ==
            if batch then World(None, {}, {sid}, None, map[])
            else World(Some(next), {next}, {sid, next}, None, map[t := Executing(next, false, 2, Some(sid))])
  {
    hide IsRun, After;
    labels := FirstCallMakesSession(t, sid, batch);
    var w := Serving(sid, map[t := Executing(sid, batch, 1, None)]);
    labels := Then(labels, w, Dies(sid));
    assert {sid} - {sid} == {};
    w := w.(live := {});
    labels := Then(labels, w, FindDead(t));
    w := w.(calls := map[t := Clearing(sid, batch, 1)]);
    assert map[t := Executing(sid, batch, 1, None)][t := Clearing(sid, batch, 1)] == w.calls;
    labels := Then(labels, w, Clear(t));
    if batch {
      assert w.calls - {t} == map[];
    } else {
      assert w.calls[t := Wanting(false, 1, Some(sid))] == map[t := Wanting(false, 1, Some(sid))];
      labels := TriesAgain(labels, t, sid, next);
    }
  }

  lemma TriesAgain(before: seq<Label>, t: CallId, sid: SessionId, next: SessionId) returns (labels: seq<Label>)
    requires sid != next && IsRun(Initially(), before)
    requires After(Initially(), before) == World(None, {}, {sid}, None, map[t := Wanting(false, 1, Some(sid))])
    ensures IsRun(Initially(), labels)
    ensures After(Initially(), labels) ==
            World(Some(next), {next}, {sid, next}, None, map[t := Executing(next, false, 2, Some(sid))])
  {
    hide IsRun, After;
    var w := World(None, {}, {sid}, None, map[t := Wanting(false, 1, Some(sid))]);
    labels := Then(before, w, Ensure(t));
    w := w.(holder := Some(t), calls := map[t := SettingUp(false, 1, Some(sid), None)]);
    assert map[t := Wanting(false, 1, Some(sid))][t := SettingUp(false, 1, Some(sid), None)] == w.calls;
    labels := Then(labels, w, Create(t, next));
    assert {} + {next} == {next} && {sid} + {next} == {sid, next};
    w := w.(live := {next}, made := {sid, next}, calls := w.calls[t := SettingUp(false, 1, Some(sid), Some(next))]);
    labels := Then(labels, w, Ready(t));
    assert w.calls[t := Executing(next, false, 2, Some(sid))] == map[t := Executing(next, false, 2, Some(sid))];
  }

  /** A call that finds the session alive uses it; closing the default session forgets it and
    * ends it. */
  lemma SessionIsKeptThenClosed(t: CallId, u: CallId, sid: SessionId) returns (labels: seq<Label>)
    requires t != u
    ensures IsRun(Initially(), labels)
    ensures After(Initially(), labels) == World(None, {}, {sid}, None, map[])
    ensures labels == [Begin(t, false)] + [Ensure(t)] + [Create(t, sid)] + [Ready(t)] + [Finish(t)]
                      + [Begin(u, true)] + [Ensure(u)] + [Finish(u)] + [Pop(t)] + [Closed(t)]
  {
    hide IsRun, After;
    labels := FirstCallMakesSession(t, sid, false);
    var w := Serving(sid, map[t := Executing(sid, false, 1, None)]);
    labels := Then(labels, w, Finish(t));
    assert w.calls - {t} == map[];
    w := Serving(sid, map[]);
    labels := Then(labels, w, Begin(u, true));
    assert map[][u := Wanting(true, 0, None)] == map[u := Wanting(true, 0, None)];
    w := Serving(sid, map[u := Wanting(true, 0, None)]);
    labels := Then(labels, w, Ensure(u));
    assert w.calls[u := Executing(sid, true, 1, None)] == map[u := Executing(sid, true, 1, None)];
    w := Serving(sid, map[u := Executing(sid, true, 1, None)]);
    labels := Then(labels, w, Finish(u));
    assert w.calls - {u} == map[];
    w := Serving(sid, map[]);
    labels := Then(labels, w, Pop(t));
    assert map[][t := Closing(sid)] == map[t := Closing(sid)];
    w := w.(cached := None, calls := map[t := Closing(sid)]);
    labels := Then(labels, w, Closed(t));
    assert {sid} - {sid} == {} && w.calls - {t} == map[];
  }
}
