/** Every interleaving of `get_connection`, `release_connection`,
  * `register_host` and `remove_host` for one host. A task runs without
  * interruption up to its next await: the lock, or the connect made while
  * holding it. Registering and removing never wait, so they can happen during
  * another task's connect. */
module PoolProtocol {
  import opened Base
  import opened ConnectionPool

  /** A running `get_connection`. `retries` counts its reconnects, `startGen` is
    * the generation at which the call began. */
  datatype Task = Task(ticket: Ticket, connecting: bool, retries: nat, startGen: nat)

  /** `holders` is who holds which lock object, `origin` the ticket each
    * connection was made from, `leases` the connections handed out and not yet
    * given back, `lost` those the peer or the network has closed. */
  datatype World = World(
    host: Host, tasks: map<TaskId, Task>, holders: map<LockId, TaskId>,
    origin: map<ConnId, Ticket>, leases: multiset<ConnId>, lost: set<ConnId>)

  datatype Label =
    | Begin(t: TaskId, alias: Option<Target>)
    | Enter(t: TaskId, now: real)
    | Connected(t: TaskId, c: ConnId, now: real, alias: Option<Target>)
    | ConnectFails(t: TaskId)
    | Register(target: Target)
    | Remove
    | GiveBack(c: ConnId, now: real)
    | PeerCloses(c: ConnId)

  predicate Enabled(w: World, l: Label) {
    match l
    case Begin(t, _) => t !in w.tasks
    case Enter(t, _) => t in w.tasks && !w.tasks[t].connecting && w.tasks[t].ticket.lock !in w.holders
    case Connected(t, c, _, _) => t in w.tasks && w.tasks[t].connecting && c !in w.origin
    case ConnectFails(t) => t in w.tasks && w.tasks[t].connecting
    case Register(_) => true
    case Remove => true
    // Every caller gives back only what it was handed, once, under the name it used.
    case GiveBack(c, _) => c in w.leases
    case PeerCloses(c) => c in w.origin
  }

  function Start(w: World, t: TaskId, alias: Option<Target>, retries: nat, startGen: nat): World {
    var (h, ticket) := Captured(w.host, alias);
    w.(host := h,
       tasks := if ticket.Some? then w.tasks[t := Task(ticket.value, false, retries, startGen)] else w.tasks - {t})
  }

  /** The connection a step hands to its caller, if any. */
  function Granted(w: World, l: Label, lim: Limits): Option<ConnId>
    requires Enabled(w, l)
  {
    match l
    case Enter(_, now) => Checkout(w.host, now, lim, w.lost).granted
    case Connected(t, c, _, _) => if w.host.gen == w.tasks[t].ticket.gen then Some(c) else None
    case _ => None
  }

  function Apply(w: World, l: Label, lim: Limits): World
    requires Enabled(w, l)
  {
    match l
    case Begin(t, alias) => Start(w, t, alias, 0, w.host.gen)
    case Enter(t, now) =>
      var checked := Checkout(w.host, now, lim, w.lost);
      (match checked.granted
       case Some(c) => w.(host := checked.host, tasks := w.tasks - {t}, leases := w.leases + multiset{c})
       case None => w.(host := checked.host, tasks := w.tasks[t := w.tasks[t].(connecting := true)],
                       holders := w.holders[w.tasks[t].ticket.lock := t]))
    case Connected(t, c, now, alias) =>
      var task := w.tasks[t];
      var w' := w.(host := Published(w.host, task.ticket, c, now), holders := w.holders - {task.ticket.lock},
                   origin := w.origin[c := task.ticket]);
      if w.host.gen == task.ticket.gen then w'.(tasks := w.tasks - {t}, leases := w.leases + multiset{c})
      else Start(w', t, alias, task.retries + 1, task.startGen)
    case ConnectFails(t) => w.(tasks := w.tasks - {t}, holders := w.holders - {w.tasks[t].ticket.lock})
    case Register(target) => w.(host := Registered(w.host, target))
    case Remove => w.(host := Removed(w.host))
    case GiveBack(c, now) => w.(host := GivenBack(w.host, c, now), leases := w.leases - multiset{c})
    case PeerCloses(c) => w.(lost := w.lost + {c})
  }

  // ---------------------------------------------------------------------
  // The invariant
  // ---------------------------------------------------------------------

  /** Tasks that captured the same generation captured the same lock, and those
    * that captured the current one captured the current config too. */
  ghost predicate TicketsInv(w: World) {
    && (w.host.lock.Some? ==> w.host.lock.value < w.host.nextLock)
    && (forall t :: t in w.tasks ==> CurrentTicket(w, w.tasks[t]))
    && (forall t, u :: t in w.tasks && u in w.tasks && w.tasks[t].ticket.gen == w.tasks[u].ticket.gen ==>
          w.tasks[t].ticket.lock == w.tasks[u].ticket.lock)
  }

  predicate CurrentTicket(w: World, task: Task) {
    && task.ticket.gen <= w.host.gen
    && (task.ticket.gen == w.host.gen ==>
          w.host.lock == Some(task.ticket.lock) && w.host.target == Some(task.ticket.target))
    && task.startGen + task.retries <= task.ticket.gen
  }

  ghost predicate HoldersInv(w: World) {
    forall t :: t in w.tasks && w.tasks[t].connecting ==>
      w.tasks[t].ticket.lock in w.holders && w.holders[w.tasks[t].ticket.lock] == t
  }

  ghost predicate SizeInv(w: World, lim: Limits) {
    && Fresh(w.host.pool) <= lim.poolSize
    && forall t :: t in w.tasks && w.tasks[t].connecting && w.tasks[t].ticket.gen == w.host.gen ==>
         Fresh(w.host.pool) < lim.poolSize
  }

  /** Every usable connection was made from the current generation's config. */
  ghost predicate OriginInv(w: World) {
    forall p :: p in w.host.pool ==>
      && p.conn in w.origin
      && (!p.stale ==> w.origin[p.conn].gen == w.host.gen && w.host.target == Some(w.origin[p.conn].target)
                       && p.conn !in w.host.closed)
  }

  predicate Distinct(pool: seq<Pooled>) {
    forall i, j :: 0 <= i < j < |pool| ==> pool[i].conn != pool[j].conn
  }

  /** `in_use` counts exactly the leases outstanding, and nothing leased was
    * closed by the manager unless the peer had closed it first. */
  ghost predicate LeaseInv(w: World) {
    && Distinct(w.host.pool)
    && (forall p :: p in w.host.pool ==> p.inUse == w.leases[p.conn])
    && (forall c :: c in w.leases ==> c in w.origin)
    && (forall c :: c in w.host.closed ==> c in w.origin && (c in w.leases ==> c in w.lost))
  }

  ghost predicate Inv(w: World, lim: Limits) {
    && lim.poolSize >= 1
    && TicketsInv(w) && HoldersInv(w) && SizeInv(w, lim) && OriginInv(w) && LeaseInv(w)
  }

  // ---------------------------------------------------------------------
  // Facts about the pool functions
  // ---------------------------------------------------------------------

  lemma {:induction false} PruneCloses(pool: seq<Pooled>, now: real, lim: Limits, closed: set<ConnId>, lost: set<ConnId>)
    ensures var s := Prune(pool, now, lim, closed, lost);
            && closed <= s.closed
            && (forall c :: c in s.closed && c !in closed ==>
                  exists p :: p in pool && p.conn == c && (p.inUse == 0 || c in closed || c in lost))
  {
    if pool != [] {
      var p, rest := pool[0], pool[1..];
      assert pool == [p] + rest;
      var closed' := if Kept(p, now, lim, closed, lost) then closed else closed + {p.conn};
      PruneCloses(rest, now, lim, closed', lost);
      var s := Prune(rest, now, lim, closed', lost);
      forall c | c in s.closed && c !in closed
        ensures exists q :: q in pool && q.conn == c && (q.inUse == 0 || c in closed || c in lost)
      {
        if c !in closed' {
          var q :| q in rest && q.conn == c && (q.inUse == 0 || c in closed' || c in lost);
          assert q in pool;
        } else {
          assert p in pool;
        }
      }
    }
  }

  lemma {:induction false} PruneFacts(pool: seq<Pooled>, now: real, lim: Limits, closed: set<ConnId>, lost: set<ConnId>)
    requires Distinct(pool)
    ensures var s := Prune(pool, now, lim, closed, lost);
            && Distinct(s.alive) && Fresh(s.alive) <= Fresh(pool)
            && (forall p :: p in s.alive ==> p in pool && p.conn !in s.closed && p.conn !in lost)
            && closed <= s.closed
            && (forall c :: c in s.closed && c !in closed ==>
                  exists p :: p in pool && p.conn == c && (p.inUse == 0 || c in closed || c in lost))
  {
    PruneCloses(pool, now, lim, closed, lost);
    if pool != [] {
      var p, rest := pool[0], pool[1..];
      assert pool == [p] + rest;
      var keep := Kept(p, now, lim, closed, lost);
      PruneFacts(rest, now, lim, if keep then closed else closed + {p.conn}, lost);
      assert forall q :: q in rest ==> q.conn != p.conn;
      if keep {
        var s := Prune(rest, now, lim, closed, lost);
        assert p.conn !in s.closed;
        assert forall q :: q in [p] + s.alive ==> q == p || q in s.alive;
      }
    }
  }

  /** Pruning keeps exactly the connections that are alive and, unless used, neither idle
    * nor old for too long; it closes exactly the others. */
  lemma {:induction false} PruneExactly(pool: seq<Pooled>, now: real, lim: Limits, closed: set<ConnId>, lost: set<ConnId>)
    requires Distinct(pool)
    ensures var s := Prune(pool, now, lim, closed, lost);
            && (forall p :: p in s.alive <==> p in pool && Kept(p, now, lim, closed, lost))
            && s.closed == closed + set p | p in pool && !Kept(p, now, lim, closed, lost) :: p.conn
  {
    if pool != [] {
      var first, rest := pool[0], pool[1..];
      var closed' := if Kept(first, now, lim, closed, lost) then closed else closed + {first.conn};
      assert Distinct(rest) && pool == [first] + rest;
      PruneExactly(rest, now, lim, closed', lost);
      forall p | p in rest ensures Kept(p, now, lim, closed', lost) <==> Kept(p, now, lim, closed, lost) {
        var k :| 0 <= k < |rest| && rest[k] == p;
        assert pool[0].conn != pool[k + 1].conn;
      }
    }
  }

  lemma RetireStep(pool: seq<Pooled>)
    requires pool != []
    ensures Retire(pool) ==
            if pool[0].inUse > 0 then [pool[0].(stale := true)] + Retire(pool[1..]) else Retire(pool[1..])
  {
  }

  lemma NothingRetired()
    ensures Retire([]) == [] && Fresh([]) == 0
  {
  }

  lemma StaleFirst(p: Pooled, rest: seq<Pooled>)
    requires p.stale && Distinct(rest) && forall q :: q in rest ==> q.conn != p.conn
    ensures Fresh([p] + rest) == Fresh(rest) && Distinct([p] + rest)
  {
    assert ([p] + rest)[1..] == rest;
  }

  lemma {:induction false} RetireFacts(pool: seq<Pooled>)
    requires Distinct(pool)
    ensures Fresh(Retire(pool)) == 0 && Distinct(Retire(pool))
    ensures forall p :: p in Retire(pool) ==> p.stale && p.inUse > 0 && p.(stale := false) in Live(pool)
  {
    hide Retire, Fresh;
    if pool == [] {
      NothingRetired();
    } else {
      assert pool == [pool[0]] + pool[1..];
      RetireFacts(pool[1..]);
      RetireStep(pool);
      var rest := Retire(pool[1..]);
      forall q | q in rest ensures q.conn != pool[0].conn {
        assert q.(stale := false) in Live(pool[1..]);
      }
      StaleFirst(pool[0].(stale := true), rest);
      assert forall q :: q in Live(pool[1..]) ==> q in Live(pool);
    }
  }

  /** The pool with the stale flags erased. */
  function Live(pool: seq<Pooled>): set<Pooled> { set p | p in pool :: p.(stale := false) }

  lemma {:induction false} FreshAppend(a: seq<Pooled>, b: seq<Pooled>)
    ensures Fresh(a + b) == Fresh(a) + Fresh(b)
  {
    if a == [] {
      assert a + b == b;
    } else {
      assert (a + b)[1..] == a[1..] + b;
      FreshAppend(a[1..], b);
    }
  }

  lemma FreshUpdate(pool: seq<Pooled>, i: nat, p: Pooled)
    requires i < |pool| && p.stale == pool[i].stale
    ensures Fresh(pool[i := p]) == Fresh(pool)
  {
    assert pool == pool[..i] + ([pool[i]] + pool[i + 1..]);
    assert pool[i := p] == pool[..i] + ([p] + pool[i + 1..]);
    FreshAppend(pool[..i], [pool[i]] + pool[i + 1..]);
    FreshAppend(pool[..i], [p] + pool[i + 1..]);
    FreshAppend([p], pool[i + 1..]);
    FreshAppend([pool[i]], pool[i + 1..]);
  }

  // ---------------------------------------------------------------------
  // Steps
  // ---------------------------------------------------------------------

  lemma BeginKeeps(w: World, l: Label, lim: Limits)
    requires Inv(w, lim) && l.Begin? && Enabled(w, l)
    ensures Inv(Apply(w, l, lim), lim)
  {
    StartKeeps(w, l.t, l.alias, 0, w.host.gen, lim);
  }

  /** Capturing config, generation and lock in one step. */
  lemma StartKeeps(w: World, t: TaskId, alias: Option<Target>, retries: nat, startGen: nat, lim: Limits)
    requires Inv(w, lim) && startGen + retries <= w.host.gen
    requires t in w.tasks ==> !w.tasks[t].connecting
    ensures Inv(Start(w, t, alias, retries, startGen), lim)
  {
    var w' := Start(w, t, alias, retries, startGen);
    assert w'.host.pool == w.host.pool && w'.host.closed == w.host.closed;
    assert TicketsInv(w');
  }

  lemma EnterKeeps(w: World, l: Label, lim: Limits)
    requires Inv(w, lim) && l.Enter? && Enabled(w, l)
    ensures Inv(Apply(w, l, lim), lim)
  {
    var w' := Apply(w, l, lim);
    var s := Prune(w.host.pool, l.now, lim, w.host.closed, w.lost);
    PruneFacts(w.host.pool, l.now, lim, w.host.closed, w.lost);
    hide Prune, Inv;
    var swept := w.(host := w.host.(pool := s.alive, closed := s.closed));
    SweepKeeps(w, swept, lim);
    var pick := Choose(s.alive, lim);
    if pick.Some? {
      HandOutKeeps(swept, l.t, pick.value, w'.host.pool[pick.value], lim);
    } else {
      StartConnectKeeps(swept, l.t, lim);
    }
  }

  lemma StartConnectKeeps(w: World, t: TaskId, lim: Limits)
    requires Inv(w, lim) && t in w.tasks && w.tasks[t].ticket.lock !in w.holders && Choose(w.host.pool, lim).None?
    ensures Inv(w.(tasks := w.tasks[t := w.tasks[t].(connecting := true)],
                   holders := w.holders[w.tasks[t].ticket.lock := t]), lim)
  {
  }

  /** Dropping connections from the pool, and closing those without users. */
  lemma SweepKeeps(w: World, swept: World, lim: Limits)
    requires Inv(w, lim)
    requires swept == w.(host := w.host.(pool := swept.host.pool, closed := swept.host.closed))
    requires Distinct(swept.host.pool) && Fresh(swept.host.pool) <= Fresh(w.host.pool)
    requires forall p :: p in swept.host.pool ==> p in w.host.pool && p.conn !in swept.host.closed && p.conn !in w.lost
    requires w.host.closed <= swept.host.closed
    requires forall c :: c in swept.host.closed && c !in w.host.closed ==>
               exists p :: p in w.host.pool && p.conn == c && (p.inUse == 0 || c in w.host.closed || c in w.lost)
    ensures Inv(swept, lim)
  {
  }

  lemma HandOutKeeps(w: World, t: TaskId, i: nat, p: Pooled, lim: Limits)
    requires Inv(w, lim) && t in w.tasks && !w.tasks[t].connecting
    requires i < |w.host.pool| && !w.host.pool[i].stale
    requires p == w.host.pool[i].(inUse := w.host.pool[i].inUse + 1, lastUsed := p.lastUsed)
    ensures Inv(w.(host := w.host.(pool := w.host.pool[i := p]), tasks := w.tasks - {t},
                   leases := w.leases + multiset{p.conn}), lim)
  {
    FreshUpdate(w.host.pool, i, p);
    assert w.host.pool[i] in w.host.pool;
  }

  lemma PublishKeeps(w: World, l: Label, lim: Limits)
    requires Inv(w, lim) && l.Connected? && Enabled(w, l) && w.host.gen == w.tasks[l.t].ticket.gen
    ensures Inv(Apply(w, l, lim), lim)
  {
    var w' := Apply(w, l, lim);
    var p := Pooled(l.c, l.now, l.now, 1, false);
    FreshAppend(w.host.pool, [p]);
    assert forall q :: q in w'.host.pool ==> q in w.host.pool || q == p;
    assert w.leases[l.c] == 0;
    assert LeaseInv(w');
    assert TicketsInv(w') && HoldersInv(w') && SizeInv(w', lim) && OriginInv(w');
  }

  /** The connection is closed and the lock released, before the call starts over. */
  function Discarded(w: World, t: TaskId, c: ConnId): World
    requires t in w.tasks
  {
    var task := w.tasks[t];
    w.(host := w.host.(closed := w.host.closed + {c}), holders := w.holders - {task.ticket.lock},
       origin := w.origin[c := task.ticket], tasks := w.tasks[t := task.(connecting := false)])
  }

  lemma SupersededIsRestart(w: World, l: Label, lim: Limits)
    requires l.Connected? && Enabled(w, l) && w.host.gen != w.tasks[l.t].ticket.gen
    ensures var task := w.tasks[l.t];
            Apply(w, l, lim) == Start(Discarded(w, l.t, l.c), l.t, l.alias, task.retries + 1, task.startGen)
  {
    var idle := Discarded(w, l.t, l.c);
    assert idle.tasks - {l.t} == w.tasks - {l.t};
    var ticket := Captured(idle.host, l.alias).1;
    if ticket.Some? {
      var t := Task(ticket.value, false, w.tasks[l.t].retries + 1, w.tasks[l.t].startGen);
      assert idle.tasks[l.t := t] == w.tasks[l.t := t];
    }
  }

  /** A connection made for a superseded config is closed, and the call starts over. */
  lemma SupersededKeeps(w: World, l: Label, lim: Limits)
    requires Inv(w, lim) && l.Connected? && Enabled(w, l) && w.host.gen != w.tasks[l.t].ticket.gen
    ensures Inv(Apply(w, l, lim), lim)
  {
    hide Inv, Apply, Start;
    var task := w.tasks[l.t];
    var idle := Discarded(w, l.t, l.c);
    DiscardKeeps(w, l.t, l.c, lim);
    SupersededIsRestart(w, l, lim);
    StartKeeps(idle, l.t, l.alias, task.retries + 1, task.startGen, lim);
  }

  lemma DiscardKeeps(w: World, t: TaskId, c: ConnId, lim: Limits)
    requires Inv(w, lim) && t in w.tasks && w.tasks[t].connecting && c !in w.origin
    ensures Inv(Discarded(w, t, c), lim)
    ensures w.host.gen != w.tasks[t].ticket.gen ==> w.tasks[t].startGen + w.tasks[t].retries + 1 <= w.host.gen
  {
    assert w.leases[c] == 0;
  }

  lemma ConfigChangeKeeps(w: World, l: Label, lim: Limits)
    requires Inv(w, lim) && (l.Register? || l.Remove?) && Enabled(w, l)
    ensures Inv(Apply(w, l, lim), lim)
  {
    RetireFacts(w.host.pool);
  }

  lemma GiveBackKeeps(w: World, l: Label, lim: Limits)
    requires Inv(w, lim) && l.GiveBack? && Enabled(w, l)
    ensures Inv(Apply(w, l, lim), lim)
  {
    var w' := Apply(w, l, lim);
    var at := IndexOf(w.host.pool, l.c);
    if at.Some? {
      FreshUpdate(w.host.pool, at.value, w'.host.pool[at.value]);
    }
  }

  lemma StepKeeps(w: World, l: Label, lim: Limits)
    requires Inv(w, lim) && Enabled(w, l)
    ensures Inv(Apply(w, l, lim), lim)
  {
    match l {
      case Begin(_, _) => BeginKeeps(w, l, lim);
      case Enter(_, _) => EnterKeeps(w, l, lim);
      case Connected(_, _, _, _) =>
        if w.host.gen == w.tasks[l.t].ticket.gen {
          PublishKeeps(w, l, lim);
        } else {
          SupersededKeeps(w, l, lim);
        }
      case Register(_) => ConfigChangeKeeps(w, l, lim);
      case Remove => ConfigChangeKeeps(w, l, lim);
      case GiveBack(_, _) => GiveBackKeeps(w, l, lim);
      case ConnectFails(_) =>
      case PeerCloses(_) =>
    }
  }

  // ---------------------------------------------------------------------
  // Runs
  // ---------------------------------------------------------------------

  ghost predicate IsRun(w: World, labels: seq<Label>, lim: Limits)
    decreases |labels|
  {
    labels == [] || (Enabled(w, labels[0]) && IsRun(Apply(w, labels[0], lim), labels[1..], lim))
  }

  function After(w: World, labels: seq<Label>, lim: Limits): World
    requires IsRun(w, labels, lim)
    decreases |labels|
  {
    if labels == [] then w else After(Apply(w, labels[0], lim), labels[1..], lim)
  }

  /** A manager that has loaded its registry and done nothing yet. */
  function Initially(target: Option<Target>): World {
    World(Host(target, 0, [], None, 0, {}), map[], map[], map[], multiset{}, {})
  }

  lemma {:induction false} RunKeeps(w: World, labels: seq<Label>, lim: Limits)
    requires Inv(w, lim) && IsRun(w, labels, lim)
    ensures Inv(After(w, labels, lim), lim)
    decreases |labels|
  {
    if labels != [] {
      StepKeeps(w, labels[0], lim);
      RunKeeps(Apply(w, labels[0], lim), labels[1..], lim);
    }
  }

  /** What every interleaving keeps: the size cap on usable connections, counters
    * equal to outstanding leases, and no leased connection closed under its user. */
  lemma EveryInterleavingIsSafe(target: Option<Target>, labels: seq<Label>, lim: Limits)
    requires lim.poolSize >= 1 && IsRun(Initially(target), labels, lim)
    ensures var w := After(Initially(target), labels, lim);
            && Fresh(w.host.pool) <= lim.poolSize
            && (forall p :: p in w.host.pool ==> p.inUse == w.leases[p.conn])
            && (forall c :: c in w.leases && c in w.host.closed ==> c in w.lost)
            && (forall p :: p in w.host.pool && !p.stale ==>
                  p.conn in w.origin && w.host.target == Some(w.origin[p.conn].target))
  {
    RunKeeps(Initially(target), labels, lim);
  }

  /** A connection is handed out only if it leads to the target in force at that moment. */
  lemma GrantsAreCurrent(w: World, l: Label, lim: Limits)
    requires Inv(w, lim) && Enabled(w, l) && Granted(w, l, lim).Some?
    ensures var w' := Apply(w, l, lim);
            var c := Granted(w, l, lim).value;
            && c in w'.origin && w'.origin[c].gen == w'.host.gen
            && w'.host.target == Some(w'.origin[c].target)
            && c !in w'.host.closed
            && w'.leases == w.leases + multiset{c}
            && w'.host.gen == w.host.gen && w'.host.target == w.host.target
  {
    StepKeeps(w, l, lim);
    var w' := Apply(w, l, lim);
    if l.Enter? {
      PruneFacts(w.host.pool, l.now, lim, w.host.closed, w.lost);
      var s := Prune(w.host.pool, l.now, lim, w.host.closed, w.lost);
      var i := Choose(s.alive, lim).value;
      assert w'.host.pool[i] in w'.host.pool && !w'.host.pool[i].stale;
    } else {
      assert w'.host.pool[|w.host.pool|] in w'.host.pool;
    }
  }

  /** `max(0, in_use - 1)` never has to clamp. */
  lemma ClampNeverActs(w: World, c: ConnId, now: real, lim: Limits)
    requires Inv(w, lim) && Enabled(w, GiveBack(c, now)) && IndexOf(w.host.pool, c).Some?
    ensures w.host.pool[IndexOf(w.host.pool, c).value].inUse >= 1
  {
    var p := w.host.pool[IndexOf(w.host.pool, c).value];
    assert p in w.host.pool;
  }

  // ---------------------------------------------------------------------
  // Locks
  // ---------------------------------------------------------------------

  /** Who holds a lock is a call waiting for its connect. */
  ghost predicate HeldByRunning(w: World) {
    forall k :: k in w.holders ==>
      w.holders[k] in w.tasks && w.tasks[w.holders[k]].connecting && w.tasks[w.holders[k]].ticket.lock == k
  }

  lemma StepKeepsHeld(w: World, l: Label, lim: Limits)
    requires HeldByRunning(w) && Enabled(w, l)
    ensures HeldByRunning(Apply(w, l, lim))
  {
    hide Checkout, Published, Captured, Registered, Removed, GivenBack;
  }

  /** No lock outlives the call that took it: with no call waiting for a connect none is held. */
  lemma {:induction false} NoLockLeaks(w: World, labels: seq<Label>, lim: Limits)
    requires HeldByRunning(w) && IsRun(w, labels, lim)
    ensures HeldByRunning(After(w, labels, lim))
    ensures var t := After(w, labels, lim); (forall k :: k in t.tasks ==> !t.tasks[k].connecting) ==> t.holders == map[]
    decreases |labels|
  {
    hide Apply, Enabled;
    if labels != [] {
      StepKeepsHeld(w, labels[0], lim);
      NoLockLeaks(Apply(w, labels[0], lim), labels[1..], lim);
    }
  }

  /** How many of the steps replace or remove the host's config. */
  function ConfigChanges(labels: seq<Label>): nat {
    if labels == [] then 0 else (if labels[0].Register? || labels[0].Remove? then 1 else 0) + ConfigChanges(labels[1..])
  }

  lemma {:induction false} CallHistory(w: World, labels: seq<Label>, lim: Limits, t: TaskId)
    requires IsRun(w, labels, lim) && forall alias :: Begin(t, alias) !in labels
    requires t in After(w, labels, lim).tasks
    ensures t in w.tasks && After(w, labels, lim).tasks[t].startGen == w.tasks[t].startGen
    ensures After(w, labels, lim).host.gen <= w.host.gen + ConfigChanges(labels)
    decreases |labels|
  {
    if labels != [] {
      assert forall alias :: labels[0] != Begin(t, alias);
      CallHistory(Apply(w, labels[0], lim), labels[1..], lim, t);
      StepHistory(w, labels[0], lim, t);
    }
  }

  lemma StepHistory(w: World, l: Label, lim: Limits, t: TaskId)
    requires Enabled(w, l) && forall alias :: l != Begin(t, alias)
    ensures t in Apply(w, l, lim).tasks ==> t in w.tasks && Apply(w, l, lim).tasks[t].startGen == w.tasks[t].startGen
    ensures Apply(w, l, lim).host.gen <= w.host.gen + (if l.Register? || l.Remove? then 1 else 0)
  {
    hide Prune, Choose, IndexOf;
  }

  /** A call reconnects at most once per register or remove that happens while it runs. */
  lemma RetriesAreBounded(w: World, t: TaskId, alias: Option<Target>, labels: seq<Label>, lim: Limits)
    requires Inv(w, lim) && Enabled(w, Begin(t, alias))
    requires var w' := Apply(w, Begin(t, alias), lim);
             && IsRun(w', labels, lim) && (forall a :: Begin(t, a) !in labels)
             && t in After(w', labels, lim).tasks
    ensures After(Apply(w, Begin(t, alias), lim), labels, lim).tasks[t].retries <= ConfigChanges(labels)
  {
    var w' := Apply(w, Begin(t, alias), lim);
    StepKeeps(w, Begin(t, alias), lim);
    RunKeeps(w', labels, lim);
    CallHistory(w', labels, lim, t);
    assert CurrentTicket(After(w', labels, lim), After(w', labels, lim).tasks[t]);
  }

  // ---------------------------------------------------------------------
  // No connection is lost track of
  // ---------------------------------------------------------------------

  function Conns(pool: seq<Pooled>): set<ConnId> { set p | p in pool :: p.conn }

  /** Every connection ever made is in the pool or closed; a retired one whose last user
    * is gone is closed. */
  ghost predicate NoneLeaked(w: World) {
    && (forall c :: c in w.origin ==> c in w.host.closed || c in Conns(w.host.pool))
    && (forall p :: p in w.host.pool && p.stale && p.inUse == 0 ==> p.conn in w.host.closed)
  }

  lemma {:induction false} PruneLosesNothing(pool: seq<Pooled>, now: real, lim: Limits, closed: set<ConnId>,
                                             lost: set<ConnId>)
    ensures var s := Prune(pool, now, lim, closed, lost);
            && closed <= s.closed && Conns(pool) <= Conns(s.alive) + s.closed
            && forall p :: p in s.alive ==> p in pool
  {
    if pool != [] {
      var first := pool[0];
      var kept := Kept(first, now, lim, closed, lost);
      PruneLosesNothing(pool[1..], now, lim, if kept then closed else closed + {first.conn}, lost);
      assert pool == [first] + pool[1..];
      ConnsOf(first, pool[1..]);
      ConnsOf(first, Prune(pool[1..], now, lim, closed, lost).alive);
    }
  }

  lemma ConnsOf(p: Pooled, pool: seq<Pooled>)
    ensures Conns([p] + pool) == {p.conn} + Conns(pool)
  {
    assert forall q :: q in [p] + pool <==> q == p || q in pool;
  }

  lemma {:induction false} RetireLosesNothing(pool: seq<Pooled>)
    ensures Conns(pool) == Conns(Retire(pool)) + IdleConns(pool)
    ensures forall p :: p in Retire(pool) ==> p.inUse > 0
  {
    if pool != [] {
      RetireLosesNothing(pool[1..]);
      var first, rest := pool[0], pool[1..];
      assert pool == [first] + rest;
      ConnsOf(first, rest);
      ConnsOf(first.(stale := true), Retire(rest));
      assert IdleConns(pool) == IdleConns(rest) + if first.inUse == 0 then {first.conn} else {};
      if first.inUse == 0 {
        assert Retire(pool) == Retire(rest);
      }
    }
  }

  lemma ConnsUpdated(pool: seq<Pooled>, i: nat, p: Pooled)
    requires i < |pool| && p.conn == pool[i].conn
    ensures Conns(pool[i := p]) == Conns(pool)
    ensures forall q :: q in pool[i := p] ==> q == p || q in pool
  {
    var after := pool[i := p];
    assert forall k :: 0 <= k < |pool| ==> after[k].conn == pool[k].conn;
    assert forall k :: 0 <= k < |pool| ==> pool[k] in pool && after[k] in after;
    forall c | c in Conns(pool) ensures c in Conns(after) {
      var k :| 0 <= k < |pool| && pool[k].conn == c;
      assert after[k].conn == c;
    }
  }

  lemma EnterLeaksNothing(w: World, l: Label, lim: Limits)
    requires NoneLeaked(w) && l.Enter? && Enabled(w, l)
    ensures NoneLeaked(Apply(w, l, lim))
  {
    hide Prune, FirstFree, LeastBusy, Fresh, Conns;
    var s := Prune(w.host.pool, l.now, lim, w.host.closed, w.lost);
    PruneLosesNothing(w.host.pool, l.now, lim, w.host.closed, w.lost);
    var pick := Choose(s.alive, lim);
    if pick.Some? {
      var p := s.alive[pick.value];
      ConnsUpdated(s.alive, pick.value, p.(inUse := p.inUse + 1, lastUsed := l.now));
    }
  }

  lemma GiveBackLeaksNothing(w: World, l: Label, lim: Limits)
    requires NoneLeaked(w) && l.GiveBack? && Enabled(w, l)
    ensures NoneLeaked(Apply(w, l, lim))
  {
    hide IndexOf, Conns;
    var at := IndexOf(w.host.pool, l.c);
    if at.Some? {
      var p := w.host.pool[at.value];
      ConnsUpdated(w.host.pool, at.value, p.(inUse := Max(0, p.inUse - 1), lastUsed := l.now));
    }
  }

  lemma ConfigChangeLeaksNothing(w: World, l: Label, lim: Limits)
    requires NoneLeaked(w) && (l.Register? || l.Remove?)
    ensures NoneLeaked(Apply(w, l, lim))
  {
    hide Retire, IdleConns, Conns;
    RetireLosesNothing(w.host.pool);
  }

  lemma ConnectedLeaksNothing(w: World, l: Label, lim: Limits)
    requires NoneLeaked(w) && l.Connected? && Enabled(w, l)
    ensures NoneLeaked(Apply(w, l, lim))
  {
    var w' := Apply(w, l, lim);
    if w.host.gen == w.tasks[l.t].ticket.gen {
      assert w'.host.pool[|w.host.pool|] in w'.host.pool && w'.host.pool[|w.host.pool|].conn == l.c;
      assert forall p :: p in w.host.pool ==> p in w'.host.pool;
    }
  }

  lemma StepLeaksNothing(w: World, l: Label, lim: Limits)
    requires NoneLeaked(w) && Enabled(w, l)
    ensures NoneLeaked(Apply(w, l, lim))
  {
    hide Prune, Conns;
    match l {
      case Enter(_, _) => EnterLeaksNothing(w, l, lim);
      case Connected(_, _, _, _) => ConnectedLeaksNothing(w, l, lim);
      case GiveBack(_, _) => GiveBackLeaksNothing(w, l, lim);
      case Register(_) => ConfigChangeLeaksNothing(w, l, lim);
      case Remove => ConfigChangeLeaksNothing(w, l, lim);
      case _ =>
    }
  }

  lemma {:induction false} RunLeaksNothing(w: World, labels: seq<Label>, lim: Limits)
    requires NoneLeaked(w) && IsRun(w, labels, lim)
    ensures NoneLeaked(After(w, labels, lim))
    decreases |labels|
  {
    hide NoneLeaked, Apply, Enabled;
    if labels != [] {
      StepLeaksNothing(w, labels[0], lim);
      RunLeaksNothing(Apply(w, labels[0], lim), labels[1..], lim);
    }
  }

  /** However calls interleave, every connection ever opened is still in the pool or has
    * been closed, also those whose host was reconfigured during the connect; and once
    * no leases are out, every retired connection is closed. */
  lemma NoConnectionLeaks(target: Option<Target>, labels: seq<Label>, lim: Limits)
    requires lim.poolSize >= 1 && IsRun(Initially(target), labels, lim)
    ensures var w := After(Initially(target), labels, lim);
            && (forall c :: c in w.origin ==> c in w.host.closed || c in Conns(w.host.pool))
            && (w.leases == multiset{} ==> forall p :: p in w.host.pool && p.stale ==> p.conn in w.host.closed)
  {
    hide IsRun, After, Conns;
    RunLeaksNothing(Initially(target), labels, lim);
    EveryInterleavingIsSafe(target, labels, lim);
  }
}
