/** Who returns the leases: short operations, shell sessions and tunnels on top
  * of the pool. `_invalidate` and `close_tunnel` take the record out of their
  * table before they release; `close_session` releases first and deletes later. */
module LeaseHolders {
  import opened Base
  import opened ConnectionPool
  import P = PoolProtocol

  type Lease = nat
  type CallId = nat
  /** A session or tunnel id. */
  type Id = nat

  /** What a call in progress holds: a lease not yet recorded, a record it popped,
    * or a session it is closing, before and after the release. */
  datatype Doing = Opening(lease: Lease) | Popped(lease: Lease) | Closing(id: Id, lease: Lease) | Deleting(id: Id)

  datatype Owner = Entry(id: Id) | Call(call: CallId)

  /** `owner` holds the outstanding leases and who must return each; `connOf`
    * remembers every lease ever granted; `closer` is the call closing a session. */
  datatype System = System(
    world: P.World, connOf: map<Lease, ConnId>, owner: map<Lease, Owner>,
    table: map<Id, Lease>, calls: map<CallId, Doing>, closer: map<Id, CallId>)

  datatype Label =
    | Manager(l: P.Label)
    | GetLease(l: P.Label, call: CallId, lease: Lease)
    | Install(call: CallId, id: Id)
    | Finish(call: CallId, now: real)
    | Pop(call: CallId, id: Id)
    | BeginClose(call: CallId, id: Id)
    | CloseRelease(call: CallId, now: real)
    | CloseDelete(call: CallId)

  predicate Enabled(s: System, l: Label, lim: Limits) {
    match l
    case Manager(m) => P.Enabled(s.world, m) && !m.GiveBack? && P.Granted(s.world, m, lim).None?
    case GetLease(m, call, lease) =>
      && P.Enabled(s.world, m) && !m.GiveBack? && P.Granted(s.world, m, lim).Some?
      && call !in s.calls && lease !in s.connOf
    case Install(call, id) => call in s.calls && s.calls[call].Opening? && id !in s.table
    case Finish(call, _) => call in s.calls && (s.calls[call].Opening? || s.calls[call].Popped?)
    case Pop(call, id) => call !in s.calls && id in s.table
    case BeginClose(call, id) => call !in s.calls && id in s.table
    case CloseRelease(call, _) => call in s.calls && s.calls[call].Closing?
    case CloseDelete(call) => call in s.calls && s.calls[call].Deleting?
  }

  /** `release_connection`, whether or not the lease was already given back. */
  function Release(s: System, lease: Lease, now: real): System
    requires lease in s.connOf
  {
    var c := s.connOf[lease];
    s.(world := s.world.(host := GivenBack(s.world.host, c, now), leases := s.world.leases - multiset{c}),
       owner := s.owner - {lease})
  }

  predicate Known(s: System) {
    && (forall k :: k in s.calls && !s.calls[k].Deleting? ==> s.calls[k].lease in s.connOf)
    && (forall id :: id in s.table ==> s.table[id] in s.connOf)
  }

  function Apply(s: System, l: Label, lim: Limits): System
    requires Enabled(s, l, lim) && Known(s)
  {
    match l
    case Manager(m) => s.(world := P.Apply(s.world, m, lim))
    case GetLease(m, call, lease) =>
      s.(world := P.Apply(s.world, m, lim), owner := s.owner[lease := Call(call)],
         connOf := s.connOf[lease := P.Granted(s.world, m, lim).value], calls := s.calls[call := Opening(lease)])
    case Install(call, id) =>
      var t := s.calls[call].lease;
      s.(table := s.table[id := t], calls := s.calls - {call}, owner := s.owner[t := Entry(id)])
    case Finish(call, now) => Release(s, s.calls[call].lease, now).(calls := s.calls - {call})
    case Pop(call, id) =>
      var t := s.table[id];
      s.(table := s.table - {id}, calls := s.calls[call := Popped(t)],
         owner := if t in s.owner then s.owner[t := Call(call)] else s.owner)
    case BeginClose(call, id) => s.(calls := s.calls[call := Closing(id, s.table[id])], closer := s.closer[id := call])
    case CloseRelease(call, now) =>
      var d := s.calls[call];
      Release(s, d.lease, now).(calls := s.calls[call := Deleting(d.id)])
    case CloseDelete(call) =>
      var d := s.calls[call];
      s.(table := s.table - {d.id}, calls := s.calls - {call}, closer := s.closer - {d.id})
  }

  /** No session is removed or closed while another call is closing it. */
  predicate Exclusive(s: System, l: Label) {
    l.Pop? || l.BeginClose? ==> l.id !in s.closer
  }

  // ---------------------------------------------------------------------
  // The invariant
  // ---------------------------------------------------------------------

  function LeasesIn(out: set<Lease>, connOf: map<Lease, ConnId>, c: ConnId): set<Lease> {
    set t | t in out && t in connOf && connOf[t] == c
  }

  /** The outstanding leases on one connection. */
  function LeasesOf(s: System, c: ConnId): set<Lease> { LeasesIn(s.owner.Keys, s.connOf, c) }

  lemma LeasesAdd(out: set<Lease>, connOf: map<Lease, ConnId>, t: Lease, c: ConnId, d: ConnId)
    requires t !in out
    ensures |LeasesIn(out + {t}, connOf[t := c], d)| == |LeasesIn(out, connOf, d)| + (if d == c then 1 else 0)
  {
    var before := LeasesIn(out, connOf, d);
    assert t !in before;
    assert LeasesIn(out + {t}, connOf[t := c], d) == if d == c then before + {t} else before;
  }

  lemma LeasesRemove(out: set<Lease>, connOf: map<Lease, ConnId>, t: Lease, d: ConnId)
    requires t in out && t in connOf
    ensures |LeasesIn(out - {t}, connOf, d)| == |LeasesIn(out, connOf, d)| - (if d == connOf[t] then 1 else 0)
  {
    var before := LeasesIn(out, connOf, d);
    assert d == connOf[t] ==> t in before;
    assert LeasesIn(out - {t}, connOf, d) == if d == connOf[t] then before - {t} else before;
  }

  predicate Owns(d: Doing) { d.Opening? || d.Popped? }

  /** `close_session` has released this listed session's lease already. */
  predicate Returned(s: System, id: Id) {
    id in s.closer && s.closer[id] in s.calls && s.calls[s.closer[id]].Deleting?
  }

  ghost predicate TableOwns(s: System) {
    forall id :: id in s.table ==>
      if Returned(s, id) then s.table[id] !in s.owner
      else s.table[id] in s.owner && s.owner[s.table[id]] == Entry(id)
  }

  ghost predicate CallsOwn(s: System) {
    forall k :: k in s.calls && Owns(s.calls[k]) ==> s.calls[k].lease in s.owner && s.owner[s.calls[k].lease] == Call(k)
  }

  /** Each outstanding lease has exactly one owner: a table entry or a call. */
  ghost predicate OwnersInv(s: System) {
    TableOwns(s) && CallsOwn(s) && forall t :: t in s.owner ==> IsOwner(s, s.owner[t], t)
  }

  predicate IsOwner(s: System, o: Owner, t: Lease) {
    match o
    case Entry(id) => id in s.table && s.table[id] == t && !Returned(s, id)
    case Call(k) => k in s.calls && Owns(s.calls[k]) && s.calls[k].lease == t
  }

  /** A session being closed is listed, and closed by one call only. */
  ghost predicate ClosingInv(s: System) {
    && (forall k :: k in s.calls && !Owns(s.calls[k]) ==> s.calls[k].id in s.closer && s.closer[s.calls[k].id] == k)
    && (forall id :: id in s.closer ==> IsCloser(s, s.closer[id], id))
  }

  predicate IsCloser(s: System, k: CallId, id: Id) {
    && id in s.table && k in s.calls
    && (s.calls[k] == Closing(id, s.table[id]) || s.calls[k] == Deleting(id))
  }

  ghost predicate CountsInv(s: System) {
    s.owner.Keys <= s.connOf.Keys && forall c :: |LeasesOf(s, c)| == s.world.leases[c]
  }

  ghost predicate Inv(s: System, lim: Limits) {
    P.Inv(s.world, lim) && Known(s) && CountsInv(s) && OwnersInv(s) && ClosingInv(s)
  }

  // ---------------------------------------------------------------------
  // Steps
  // ---------------------------------------------------------------------

  lemma ReleaseKeepsCounts(s: System, lease: Lease, now: real, lim: Limits)
    requires P.Inv(s.world, lim) && CountsInv(s) && lease in s.owner
    ensures P.Inv(Release(s, lease, now).world, lim) && CountsInv(Release(s, lease, now))
  {
    hide P.Inv, LeasesIn, GivenBack;
    var s' := Release(s, lease, now);
    var c := s.connOf[lease];
    LeasesRemove(s.owner.Keys, s.connOf, lease, c);
    assert |LeasesOf(s, c)| > 0;
    P.StepKeeps(s.world, P.GiveBack(c, now), lim);
    assert s'.owner.Keys == s.owner.Keys - {lease};
    forall d ensures |LeasesOf(s', d)| == s'.world.leases[d] {
      LeasesRemove(s.owner.Keys, s.connOf, lease, d);
    }
  }

  lemma AddedLease(s: System, s': System, t: Lease, c: ConnId)
    requires CountsInv(s) && t !in s.connOf
    requires s'.owner.Keys == s.owner.Keys + {t} && s'.connOf == s.connOf[t := c]
    requires s'.world.leases == s.world.leases + multiset{c}
    ensures CountsInv(s')
  {
    hide LeasesIn;
    forall d ensures |LeasesOf(s', d)| == s'.world.leases[d] {
      LeasesAdd(s.owner.Keys, s.connOf, t, c, d);
    }
  }

  lemma GrantKeepsCounts(s: System, l: Label, lim: Limits)
    requires P.Inv(s.world, lim) && CountsInv(s) && Known(s) && l.GetLease? && Enabled(s, l, lim)
    ensures P.Inv(Apply(s, l, lim).world, lim) && CountsInv(Apply(s, l, lim))
  {
    hide P.Inv, P.Apply, P.Granted, P.Enabled, CountsInv;
    P.StepKeeps(s.world, l.l, lim);
    P.GrantsAreCurrent(s.world, l.l, lim);
    AddedLease(s, Apply(s, l, lim), l.lease, P.Granted(s.world, l.l, lim).value);
  }

  /** The manager's other steps leave the leases alone. */
  lemma SilentStepsKeepLeases(w: P.World, l: P.Label, lim: Limits)
    requires P.Enabled(w, l) && !l.GiveBack? && P.Granted(w, l, lim).None?
    ensures P.Apply(w, l, lim).leases == w.leases
  {
    hide Prune, Choose;
  }

  lemma SameCounts(s: System, s': System)
    requires CountsInv(s) && s'.owner.Keys == s.owner.Keys && s'.connOf == s.connOf && s'.world.leases == s.world.leases
    ensures CountsInv(s')
  {
    forall d ensures |LeasesOf(s', d)| == s'.world.leases[d] {
      assert LeasesOf(s', d) == LeasesOf(s, d);
    }
  }

  lemma StepKeepsCounts(s: System, l: Label, lim: Limits)
    requires Inv(s, lim) && Enabled(s, l, lim)
    ensures P.Inv(Apply(s, l, lim).world, lim) && CountsInv(Apply(s, l, lim))
  {
    hide P.Inv, P.Apply, P.Granted, P.Enabled, CountsInv, GivenBack;
    var s' := Apply(s, l, lim);
    match l {
      case Manager(m) =>
        P.StepKeeps(s.world, m, lim);
        SilentStepsKeepLeases(s.world, m, lim);
        SameCounts(s, s');
      case GetLease(_, _, _) => GrantKeepsCounts(s, l, lim);
      case Finish(call, now) =>
        ReleaseKeepsCounts(s, s.calls[call].lease, now, lim);
        SameCounts(Release(s, s.calls[call].lease, now), s');
      case CloseRelease(call, now) =>
        ReleaseKeepsCounts(s, s.calls[call].lease, now, lim);
        SameCounts(Release(s, s.calls[call].lease, now), s');
      case Install(call, _) => assert s'.owner.Keys == s.owner.Keys; SameCounts(s, s');
      case Pop(_, id) => assert s'.owner.Keys == s.owner.Keys; SameCounts(s, s');
      case _ => SameCounts(s, s');
    }
  }

  ghost predicate BookInv(s: System) {
    Known(s) && s.owner.Keys <= s.connOf.Keys && OwnersInv(s) && ClosingInv(s)
  }

  /** What a call is closing, if anything. */
  lemma CloserIs(s: System, k: CallId)
    requires ClosingInv(s)
    ensures forall id :: id in s.closer && s.closer[id] == k ==> IsCloser(s, k, id)
    ensures forall id :: id in s.closer ==> id in s.table && s.closer[id] in s.calls
    ensures k in s.calls && !Owns(s.calls[k]) ==> s.calls[k].id in s.closer && s.closer[s.calls[k].id] == k
    ensures k in s.calls && !Owns(s.calls[k]) ==> IsCloser(s, k, s.calls[k].id)
  {
  }

  lemma GetLeaseKeepsOwners(s: System, l: Label, lim: Limits)
    requires BookInv(s) && Enabled(s, l, lim) && l.GetLease?
    ensures OwnersInv(Apply(s, l, lim))
  {
    hide P.Inv, P.Apply, P.Granted, P.Enabled, ClosingInv;
    CloserIs(s, l.call);
    assert forall id :: Returned(Apply(s, l, lim), id) <==> Returned(s, id);
  }

  lemma InstallKeepsOwners(s: System, l: Label, lim: Limits)
    requires BookInv(s) && Enabled(s, l, lim) && l.Install?
    ensures OwnersInv(Apply(s, l, lim))
  {
    hide P.Inv, P.Apply, P.Granted, P.Enabled, ClosingInv;
    CloserIs(s, l.call);
    assert forall id :: Returned(Apply(s, l, lim), id) <==> Returned(s, id);
  }

  lemma FinishKeepsOwners(s: System, l: Label, lim: Limits)
    requires BookInv(s) && Enabled(s, l, lim) && l.Finish?
    ensures OwnersInv(Apply(s, l, lim))
  {
    hide P.Inv, P.Apply, P.Granted, P.Enabled, ClosingInv, GivenBack;
    CloserIs(s, l.call);
    assert forall id :: Returned(Apply(s, l, lim), id) <==> Returned(s, id);
    var t := s.calls[l.call].lease;
    assert s.owner[t] == Call(l.call);
    assert forall id :: id in s.table ==> s.table[id] != t;
  }

  lemma CloseReleaseKeepsOwners(s: System, l: Label, lim: Limits)
    requires BookInv(s) && Enabled(s, l, lim) && l.CloseRelease?
    ensures OwnersInv(Apply(s, l, lim))
  {
    hide P.Inv, P.Apply, P.Granted, P.Enabled, ClosingInv, GivenBack;
    CloserIs(s, l.call);
    var d := s.calls[l.call];
    assert forall id :: Returned(Apply(s, l, lim), id) <==> Returned(s, id) || id == d.id;
    assert s.owner[d.lease] == Entry(d.id);
    assert forall id :: id in s.table && s.table[id] == d.lease ==> id == d.id;
    assert forall k :: k in s.calls && Owns(s.calls[k]) ==> s.calls[k].lease != d.lease;
  }

  lemma PopKeepsOwners(s: System, l: Label, lim: Limits)
    requires BookInv(s) && Enabled(s, l, lim) && l.Pop? && Exclusive(s, l)
    ensures OwnersInv(Apply(s, l, lim))
  {
    hide P.Inv, P.Apply, P.Granted, P.Enabled, ClosingInv, GivenBack;
    CloserIs(s, l.call);
    assert forall id :: Returned(Apply(s, l, lim), id) <==> Returned(s, id);
  }

  lemma CloseDeleteKeepsOwners(s: System, l: Label, lim: Limits)
    requires BookInv(s) && Enabled(s, l, lim) && l.CloseDelete?
    ensures OwnersInv(Apply(s, l, lim))
  {
    hide P.Inv, P.Apply, P.Granted, P.Enabled, ClosingInv, GivenBack;
    CloserIs(s, l.call);
    var d := s.calls[l.call];
    assert forall id :: Returned(Apply(s, l, lim), id) <==> Returned(s, id) && id != d.id;
  }

  lemma OtherKeepsOwners(s: System, l: Label, lim: Limits)
    requires BookInv(s) && Enabled(s, l, lim) && Exclusive(s, l) && (l.Manager? || l.BeginClose?)
    ensures OwnersInv(Apply(s, l, lim))
  {
    hide P.Inv, P.Apply, P.Granted, P.Enabled, ClosingInv;
    if l.BeginClose? {
      CloserIs(s, l.call);
      assert forall id :: Returned(Apply(s, l, lim), id) <==> Returned(s, id);
    }
  }

  lemma StepKeepsKnown(s: System, l: Label, lim: Limits)
    requires Known(s) && Enabled(s, l, lim)
    ensures Known(Apply(s, l, lim))
  {
    hide P.Inv, P.Apply, P.Granted, P.Enabled, GivenBack;
  }

  lemma StepKeepsOwners(s: System, l: Label, lim: Limits)
    requires BookInv(s) && Enabled(s, l, lim) && Exclusive(s, l)
    ensures OwnersInv(Apply(s, l, lim))
  {
    hide BookInv, OwnersInv, Enabled, Apply, Exclusive;
    match l {
      case GetLease(_, _, _) => GetLeaseKeepsOwners(s, l, lim);
      case Install(_, _) => InstallKeepsOwners(s, l, lim);
      case Finish(_, _) => FinishKeepsOwners(s, l, lim);
      case CloseRelease(_, _) => CloseReleaseKeepsOwners(s, l, lim);
      case Pop(_, _) => PopKeepsOwners(s, l, lim);
      case CloseDelete(_) => CloseDeleteKeepsOwners(s, l, lim);
      case _ => OtherKeepsOwners(s, l, lim);
    }
  }

  lemma StepKeepsClosing(s: System, l: Label, lim: Limits)
    requires Known(s) && OwnersInv(s) && ClosingInv(s) && Enabled(s, l, lim) && Exclusive(s, l)
    ensures ClosingInv(Apply(s, l, lim))
  {
    hide P.Inv, P.Apply, P.Granted, P.Enabled, GivenBack, OwnersInv;
  }

  lemma StepKeeps(s: System, l: Label, lim: Limits)
    requires Inv(s, lim) && Enabled(s, l, lim) && Exclusive(s, l)
    ensures Inv(Apply(s, l, lim), lim)
  {
    StepKeepsCounts(s, l, lim);
    StepKeepsKnown(s, l, lim);
    StepKeepsOwners(s, l, lim);
    StepKeepsClosing(s, l, lim);
  }

  // ---------------------------------------------------------------------
  // Runs
  // ---------------------------------------------------------------------

  /** The labels can be taken in turn, each with exclusive closing. */
  ghost predicate IsRun(s: System, labels: seq<Label>, lim: Limits)
    decreases |labels|
  {
    labels == [] ||
    (Enabled(s, labels[0], lim) && Known(s) && Exclusive(s, labels[0]) && IsRun(Apply(s, labels[0], lim), labels[1..], lim))
  }

  function After(s: System, labels: seq<Label>, lim: Limits): System
    requires IsRun(s, labels, lim)
    decreases |labels|
  {
    if labels == [] then s else After(Apply(s, labels[0], lim), labels[1..], lim)
  }

  function Initially(target: Option<Target>): System {
    System(P.Initially(target), map[], map[], map[], map[], map[])
  }

  lemma {:induction false} RunKeeps(s: System, labels: seq<Label>, lim: Limits)
    requires Inv(s, lim) && IsRun(s, labels, lim)
    ensures Inv(After(s, labels, lim), lim)
    decreases |labels|
  {
    if labels != [] {
      StepKeeps(s, labels[0], lim);
      RunKeeps(Apply(s, labels[0], lim), labels[1..], lim);
    }
  }

  /** With no call in progress, the outstanding leases are the recorded ones. */
  lemma RestingOwners(s: System)
    requires OwnersInv(s) && ClosingInv(s) && s.calls == map[]
    ensures s.owner.Keys == s.table.Values
    ensures forall i, j :: i in s.table && j in s.table && s.table[i] == s.table[j] ==> i == j
  {
    assert forall id :: id in s.closer ==> IsCloser(s, s.closer[id], id);
    assert s.closer == map[];
    assert forall t :: t in s.owner ==> IsOwner(s, s.owner[t], t);
    assert forall t :: t in s.table.Values ==> exists id :: id in s.table && s.table[id] == t;
  }

  /** Leases are conserved: a pooled connection's counter is the number of leases
    * on it, and once no call is in progress the outstanding ones are exactly
    * those recorded in the table, each of them once. */
  lemma LeasesAreConserved(target: Option<Target>, labels: seq<Label>, lim: Limits)
    requires lim.poolSize >= 1 && IsRun(Initially(target), labels, lim)
    ensures var s := After(Initially(target), labels, lim);
            && (forall p :: p in s.world.host.pool ==> p.inUse == |LeasesOf(s, p.conn)|)
            && (s.calls == map[] ==> s.owner.Keys == s.table.Values)
            && (s.calls == map[] ==> forall i, j :: i in s.table && j in s.table && s.table[i] == s.table[j] ==> i == j)
  {
    assert forall c :: LeasesOf(Initially(target), c) == {};
    assert Inv(Initially(target), lim);
    hide OwnersInv, ClosingInv, IsRun, After;
    RunKeeps(Initially(target), labels, lim);
    var s := After(Initially(target), labels, lim);
    assert P.LeaseInv(s.world) && CountsInv(s);
    if s.calls == map[] {
      RestingOwners(s);
    }
  }

  /** Each release gives back a lease that is still outstanding. */
  lemma ReleasesAreSingle(s: System, l: Label, lim: Limits)
    requires Inv(s, lim) && Enabled(s, l, lim) && Exclusive(s, l) && (l.Finish? || l.CloseRelease?)
    ensures s.calls[l.call].lease in s.owner
    ensures Apply(s, l, lim).owner == s.owner - {s.calls[l.call].lease}
  {
    hide P.Inv, P.Apply, P.Granted, P.Enabled, GivenBack;
  }

  // ---------------------------------------------------------------------
  // close_session overlapping _invalidate
  // ---------------------------------------------------------------------

  ghost predicate Steps(s: System, l: Label, s': System, lim: Limits) {
    Enabled(s, l, lim) && Known(s) && s' == Apply(s, l, lim)
  }

  lemma ListedOwner(s: System, id: Id)
    requires CountsInv(s) && OwnersInv(s) && id in s.table && id !in s.closer
    ensures s.table[id] in s.owner && s.owner[s.table[id]] == Entry(id) && s.table[id] in s.connOf
  {
  }

  /** Without exclusive closing the same lease goes back twice: the record is
    * popped and released while `close_session`, which still holds it, is about to
    * release as well. The pool then counts one user too few. */
  lemma OverlappingCloseReleasesTwice(s: System, id: Id, a: CallId, b: CallId, now: real, lim: Limits)
    returns (s1: System, s2: System, s3: System, s4: System)
    requires Known(s) && CountsInv(s) && OwnersInv(s)
    requires id in s.table && id !in s.closer && a !in s.calls && b !in s.calls && a != b
    ensures Steps(s, BeginClose(a, id), s1, lim)
    ensures Steps(s1, Pop(b, id), s2, lim) && !Exclusive(s1, Pop(b, id))
    ensures Steps(s2, Finish(b, now), s3, lim)
    ensures Steps(s3, CloseRelease(a, now), s4, lim) && s3.calls[a].lease !in s3.owner
    ensures s4.owner == s.owner - {s.table[id]}
    ensures var c := s.connOf[s.table[id]];
            && s4.world.host == GivenBack(GivenBack(s.world.host, c, now), c, now)
            && s4.world.leases == s.world.leases - multiset{c} - multiset{c}
  {
    hide GivenBack, CountsInv, OwnersInv, P.Apply, P.Granted, P.Enabled;
    ListedOwner(s, id);
    s1 := Apply(s, BeginClose(a, id), lim);
    assert s1.calls[a] == Closing(id, s.table[id]);
    s2 := Apply(s1, Pop(b, id), lim);
    s3 := Apply(s2, Finish(b, now), lim);
    s4 := Apply(s3, CloseRelease(a, now), lim);
  }

  // ---------------------------------------------------------------------
  // When closing is safe
  // ---------------------------------------------------------------------

  /** A step that releases gives back a lease that is still outstanding. */
  predicate GivesBack(s: System, l: Label, lim: Limits)
    requires Enabled(s, l, lim)
  {
    l.Finish? || l.CloseRelease? ==> s.calls[l.call].lease in s.owner
  }

  ghost predicate AllGiveBack(s: System, labels: seq<Label>, lim: Limits)
    requires IsRun(s, labels, lim)
    decreases |labels|
  {
    labels != [] ==> GivesBack(s, labels[0], lim) && AllGiveBack(Apply(s, labels[0], lim), labels[1..], lim)
  }

  lemma {:induction false} ExclusiveRunsGiveBack(s: System, labels: seq<Label>, lim: Limits)
    requires Inv(s, lim) && IsRun(s, labels, lim)
    ensures AllGiveBack(s, labels, lim)
    decreases |labels|
  {
    hide Inv, Apply, Exclusive;
    if labels != [] {
      var l := labels[0];
      if l.Finish? || l.CloseRelease? {
        ReleasesAreSingle(s, l, lim);
      }
      StepKeeps(s, l, lim);
      ExclusiveRunsGiveBack(Apply(s, l, lim), labels[1..], lim);
    }
  }

  /** Whatever happens after a session is removed or its closing begins, as long as no
    * further session is closed twice, every release gives back an outstanding lease. */
  ghost predicate SafeToClose(s: System, l: Label, lim: Limits)
    requires Enabled(s, l, lim) && Known(s)
  {
    forall labels :: IsRun(Apply(s, l, lim), labels, lim) ==> AllGiveBack(Apply(s, l, lim), labels, lim)
  }

  /** Removing a session, or beginning to close it, is safe exactly when no call is
    * closing it already, before its release or after. */
  lemma ClosingSafetyIsExact(s: System, l: Label, lim: Limits)
    requires Inv(s, lim) && Enabled(s, l, lim) && (l.Pop? || l.BeginClose?)
    ensures SafeToClose(s, l, lim) <==> l.id !in s.closer
  {
    hide IsRun, AllGiveBack;
    if l.id !in s.closer {
      StepKeeps(s, l, lim);
      forall labels | IsRun(Apply(s, l, lim), labels, lim) ensures AllGiveBack(Apply(s, l, lim), labels, lim) {
        ExclusiveRunsGiveBack(Apply(s, l, lim), labels, lim);
      }
    } else {
      var labels := SecondRelease(s, l, lim);
    }
  }

  /** All four overlaps end in a release of a lease already given back. */
  lemma SecondRelease(s: System, l: Label, lim: Limits) returns (labels: seq<Label>)
    requires Inv(s, lim) && Enabled(s, l, lim) && (l.Pop? || l.BeginClose?) && l.id in s.closer
    ensures IsRun(Apply(s, l, lim), labels, lim) && !AllGiveBack(Apply(s, l, lim), labels, lim)
  {
    hide P.Inv, P.Apply, P.Granted, P.Enabled, GivenBack, CountsInv, IsRun, AllGiveBack;
    var k := s.closer[l.id];
    assert IsCloser(s, k, l.id);
    var s1 := Apply(s, l, lim);
    StepKeepsKnown(s, l, lim);
    var second := if l.Pop? then Finish(l.call, 0.0) else CloseRelease(l.call, 0.0);
    if s.calls[k].Deleting? {
      OneStep(s1, second, lim);
      labels := [second];
    } else {
      // The release that is still due comes first, whoever makes it.
      var first := if l.Pop? then second else CloseRelease(k, 0.0);
      var last := if l.Pop? then CloseRelease(k, 0.0) else second;
      StepKeepsKnown(s1, first, lim);
      OneStep(Apply(s1, first, lim), last, lim);
      ThenStep(s1, first, last, lim);
      labels := [first] + [last];
    }
  }

  lemma OneStep(s: System, l: Label, lim: Limits)
    requires Enabled(s, l, lim) && Known(s) && Exclusive(s, l)
    ensures IsRun(s, [l], lim) && (AllGiveBack(s, [l], lim) <==> GivesBack(s, l, lim))
  {
    assert [l][1..] == [];
  }

  lemma ThenStep(s: System, first: Label, last: Label, lim: Limits)
    requires Enabled(s, first, lim) && Known(s) && Exclusive(s, first) && IsRun(Apply(s, first, lim), [last], lim)
    ensures IsRun(s, [first] + [last], lim)
    ensures AllGiveBack(s, [first] + [last], lim) ==> AllGiveBack(Apply(s, first, lim), [last], lim)
  {
    assert ([first] + [last])[1..] == [last];
  }

  /** What that costs: a connection with a session and one more user is closed by
    * the next reconfiguration although that user is still on it. */
  lemma DoubleReleaseClosesUsedConnection(h: Host, i: nat, now: real, target: Target)
    requires i < |h.pool| && h.pool[i].inUse == 2 && !h.pool[i].stale && P.Distinct(h.pool)
    requires h.pool[i].conn !in h.closed
    ensures var c := h.pool[i].conn;
            && c in Registered(GivenBack(GivenBack(h, c, now), c, now), target).closed
            && c !in Registered(GivenBack(h, c, now), target).closed
  {
    var c := h.pool[i].conn;
    FoundAt(h.pool, c, i);
    var h1 := GivenBack(h, c, now);
    FoundAt(h1.pool, c, i);
    var h2 := GivenBack(h1, c, now);
    assert h2.pool[i] in h2.pool;
    assert forall p :: p in h1.pool && p.conn == c ==> p.inUse == 1;
  }

  // ---------------------------------------------------------------------
  // A run that gets there
  // ---------------------------------------------------------------------

  /** The labels can be taken in turn, closing calls overlapping or not. */
  ghost predicate Reaches(s: System, labels: seq<Label>, t: System, lim: Limits)
    decreases |labels|
  {
    if labels == [] then s == t
    else Enabled(s, labels[0], lim) && Known(s) && Reaches(Apply(s, labels[0], lim), labels[1..], t, lim)
  }

  lemma {:induction false} ReachesOn(s: System, labels: seq<Label>, t: System, l: Label, lim: Limits)
    requires Reaches(s, labels, t, lim) && Enabled(t, l, lim) && Known(t)
    ensures Reaches(s, labels + [l], Apply(t, l, lim), lim)
    decreases |labels|
  {
    hide Enabled, Apply, Known;
    if labels == [] {
      assert [] + [l] == [l] && [l][1..] == [];
    } else {
      assert (labels + [l])[1..] == labels[1..] + [l];
      ReachesOn(Apply(s, labels[0], lim), labels[1..], t, l, lim);
    }
  }

  /** The pool after two calls were granted one connection, number 0. */
  function TwoUsers(target: Target, now: real): P.World {
    P.World(Host(Some(target), 0, [Pooled(0, now, now, 2, false)], Some(0), 1, {}), map[], map[],
            map[0 := Ticket(target, 0, 0)], multiset{0, 0}, {})
  }

  function OneUser(target: Target, now: real): P.World {
    P.World(Host(Some(target), 0, [Pooled(0, now, now, 1, false)], Some(0), 1, {}), map[], map[],
            map[0 := Ticket(target, 0, 0)], multiset{0}, {})
  }

  function Waiting(w: P.World, t: TaskId, target: Target): P.World {
    w.(tasks := map[t := P.Task(Ticket(target, 0, 0), false, 0, 0)])
  }

  function Unconnected(target: Target): P.World {
    P.World(Host(Some(target), 0, [], Some(0), 1, {}), map[], map[], map[], multiset{}, {})
  }

  function Connecting(target: Target): P.World {
    Unconnected(target).(tasks := map[0 := P.Task(Ticket(target, 0, 0), true, 0, 0)], holders := map[0 := 0])
  }

  lemma FirstGrant(target: Target, now: real, lim: Limits)
    requires lim.poolSize >= 1
    ensures var w := P.Initially(Some(target));
            && P.Enabled(w, P.Begin(0, None)) && P.Granted(w, P.Begin(0, None), lim).None?
            && P.Apply(w, P.Begin(0, None), lim) == Waiting(Unconnected(target), 0, target)
    ensures var w := Waiting(Unconnected(target), 0, target);
            && P.Enabled(w, P.Enter(0, now)) && P.Granted(w, P.Enter(0, now), lim).None?
            && P.Apply(w, P.Enter(0, now), lim) == Connecting(target)
    ensures var l := P.Connected(0, 0, now, None);
            && P.Enabled(Connecting(target), l) && P.Granted(Connecting(target), l, lim) == Some(0)
            && P.Apply(Connecting(target), l, lim) == OneUser(target, now)
  {
  }

  lemma SecondGrant(target: Target, now: real, lim: Limits)
    requires lim.maxChannels >= 2
    ensures var w := OneUser(target, now);
            && P.Enabled(w, P.Begin(1, None)) && P.Granted(w, P.Begin(1, None), lim).None?
            && P.Apply(w, P.Begin(1, None), lim) == Waiting(w, 1, target)
    ensures var w := Waiting(OneUser(target, now), 1, target);
            && P.Enabled(w, P.Enter(1, now)) && P.Granted(w, P.Enter(1, now), lim) == Some(0)
            && P.Apply(w, P.Enter(1, now), lim) == TwoUsers(target, now)
  {
    var pool := [Pooled(0, now, now, 1, false)];
    assert pool[1..] == [];
    assert Prune(pool, now, lim, {}, {}) == Swept(pool, {});
    assert FirstFree(pool, lim) == Some(0);
  }

  /** Session 0 and a call of its own hold one lease each on connection 0. */
  function SharedConnection(target: Target, now: real): System {
    System(TwoUsers(target, now), map[0 := 0, 1 := 0], map[0 := Entry(0), 1 := Call(1)],
           map[0 := 0], map[1 := Opening(1)], map[])
  }

  lemma SharingIsReached(target: Target, now: real, lim: Limits) returns (labels: seq<Label>)
    requires lim.poolSize >= 1 && lim.maxChannels >= 2
    ensures Reaches(Initially(Some(target)), labels, SharedConnection(target, now), lim)
  {
    hide P.Apply, P.Granted, P.Enabled, P.Initially, Reaches;
    FirstGrant(target, now, lim);
    SecondGrant(target, now, lim);
    var s0 := Initially(Some(target));
    var l1, l2 := Manager(P.Begin(0, None)), Manager(P.Enter(0, now));
    var l3, l4 := GetLease(P.Connected(0, 0, now, None), 0, 0), Install(0, 0);
    var l5, l6 := Manager(P.Begin(1, None)), GetLease(P.Enter(1, now), 1, 1);
    var s1 := s0.(world := Waiting(Unconnected(target), 0, target));
    var s2 := s0.(world := Connecting(target));
    var s3 := System(OneUser(target, now), map[0 := 0], map[0 := Call(0)], map[], map[0 := Opening(0)], map[]);
    var s4 := System(OneUser(target, now), map[0 := 0], map[0 := Entry(0)], map[0 := 0], map[], map[]);
    var s5 := s4.(world := Waiting(OneUser(target, now), 1, target));
    assert Apply(s3, l4, lim) == s4;
    ReachesItself(s0, lim);
    labels := [l1];
    assert [] + [l1] == [l1];
    ReachesOn(s0, [], s0, l1, lim);
    ReachesOn(s0, labels, s1, l2, lim);
    labels := labels + [l2];
    ReachesOn(s0, labels, s2, l3, lim);
    labels := labels + [l3];
    ReachesOn(s0, labels, s3, l4, lim);
    labels := labels + [l4];
    ReachesOn(s0, labels, s4, l5, lim);
    labels := labels + [l5];
    ReachesOn(s0, labels, s5, l6, lim);
    labels := labels + [l6];
  }

  lemma ReachesItself(s: System, lim: Limits)
    ensures Reaches(s, [], s, lim)
  {
  }

  lemma {:induction false} ReachesJoin(s: System, a: seq<Label>, t: System, b: seq<Label>, u: System, lim: Limits)
    requires Reaches(s, a, t, lim) && Reaches(t, b, u, lim)
    ensures Reaches(s, a + b, u, lim)
    decreases |a|
  {
    hide Enabled, Apply, Known;
    if a == [] {
      assert a + b == b;
    } else {
      assert (a + b)[1..] == a[1..] + b;
      ReachesJoin(Apply(s, a[0], lim), a[1..], t, b, u, lim);
    }
  }

  /** The same, the session removed by call 3 while call 2 is closing it. */
  function ClosingTwice(target: Target, now: real): System {
    System(TwoUsers(target, now), map[0 := 0, 1 := 0], map[0 := Call(3), 1 := Call(1)], map[],
           map[1 := Opening(1), 2 := Closing(0, 0), 3 := Popped(0)], map[0 := 2])
  }

  lemma OverlapIsReached(target: Target, now: real, lim: Limits)
    ensures Reaches(SharedConnection(target, now), [BeginClose(2, 0)] + [Pop(3, 0)], ClosingTwice(target, now), lim)
  {
    hide Reaches;
    var s0 := SharedConnection(target, now);
    var s1 := s0.(calls := map[1 := Opening(1), 2 := Closing(0, 0)], closer := map[0 := 2]);
    assert Apply(s0, BeginClose(2, 0), lim) == s1;
    assert Apply(s1, Pop(3, 0), lim) == ClosingTwice(target, now);
    ReachesItself(s0, lim);
    assert [] + [BeginClose(2, 0)] == [BeginClose(2, 0)];
    ReachesOn(s0, [], s0, BeginClose(2, 0), lim);
    ReachesOn(s0, [BeginClose(2, 0)], s1, Pop(3, 0), lim);
  }

  lemma BothRelease(target: Target, now: real, lim: Limits) returns (s: System)
    ensures Reaches(ClosingTwice(target, now), [Finish(3, now)] + [CloseRelease(2, now)], s, lim) && Known(s)
    ensures 1 in s.owner && 1 in s.connOf && s.connOf[1] == 0
    ensures var w := TwoUsers(target, now);
            s.world == w.(host := GivenBack(GivenBack(w.host, 0, now), 0, now), leases := multiset{})
  {
    hide Reaches, GivenBack;
    var s0 := ClosingTwice(target, now);
    var s1 := Apply(s0, Finish(3, now), lim);
    s := Apply(s1, CloseRelease(2, now), lim);
    assert multiset{0, 0} - multiset{0} - multiset{0} == multiset{};
    ReachesItself(s0, lim);
    assert [] + [Finish(3, now)] == [Finish(3, now)];
    ReachesOn(s0, [], s0, Finish(3, now), lim);
    ReachesOn(s0, [Finish(3, now)], s1, CloseRelease(2, now), lim);
  }

  /** From the start: two users share a connection, one of them a session that is closed
    * and removed at once. Its lease goes back twice, and when the host is registered again
    * the connection is closed under the other user, whose lease is still outstanding. */
  lemma DoubleReleaseHappens(target: Target, now: real, lim: Limits) returns (labels: seq<Label>, s: System)
    requires lim.poolSize >= 1 && lim.maxChannels >= 2
    ensures Reaches(Initially(Some(target)), labels, s, lim)
    ensures 1 in s.owner && 1 in s.connOf && s.connOf[1] == 0
    ensures 0 in s.world.host.closed && 0 !in s.world.lost
  {
    hide P.Apply, P.Granted, P.Enabled, P.Initially, Reaches, GivenBack, Known;
    var first := SharingIsReached(target, now, lim);
    OverlapIsReached(target, now, lim);
    var s' := BothRelease(target, now, lim);
    var overlap, release := [BeginClose(2, 0)] + [Pop(3, 0)], [Finish(3, now)] + [CloseRelease(2, now)];
    ReachesJoin(Initially(Some(target)), first, SharedConnection(target, now), overlap, ClosingTwice(target, now), lim);
    ReachesJoin(Initially(Some(target)), first + overlap, ClosingTwice(target, now), release, s', lim);
    var last := Manager(P.Register(target));
    RegisterCloses(TwoUsers(target, now), now, target, lim);
    ReachesOn(Initially(Some(target)), first + overlap + release, s', last, lim);
    labels, s := first + overlap + release + [last], Apply(s', last, lim);
  }

  lemma RegisterCloses(w: P.World, now: real, target: Target, lim: Limits)
    requires w.host == TwoUsers(target, now).host
    ensures forall leases :: var w' := w.(host := GivenBack(GivenBack(w.host, 0, now), 0, now), leases := leases);
            && P.Enabled(w', P.Register(target)) && P.Granted(w', P.Register(target), lim).None?
            && 0 in P.Apply(w', P.Register(target), lim).host.closed
            && P.Apply(w', P.Register(target), lim).lost == w.lost
  {
    DoubleReleaseClosesUsedConnection(w.host, 0, now, target);
  }
}
