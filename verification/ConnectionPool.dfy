/** The pooled SSH connections of one host: what each atomic stretch of
  * `ConnectionManager` does to them, and what every interleaving keeps. All the
  * manager's tables are keyed by host and every operation touches one key, so
  * hosts do not interact. */
module ConnectionPool {
  import opened Base

  type ConnId = nat
  type LockId = nat
  type TaskId = nat

  /** Where and as whom a connection is made. */
  datatype Target = Target(address: string, port: nat, user: string)

  datatype Pooled = Pooled(conn: ConnId, createdAt: real, lastUsed: real, inUse: nat, stale: bool)

  datatype Limits = Limits(poolSize: nat, maxChannels: int, maxIdle: real, maxAge: real)

  /** The entries of the manager's tables for one host, the lock objects made so
    * far, and every connection closed by the manager. */
  datatype Host = Host(
    target: Option<Target>, gen: nat, pool: seq<Pooled>, lock: Option<LockId>, nextLock: LockId, closed: set<ConnId>)

  /** What `get_connection` captures in one atomic step before it waits for the lock. */
  datatype Ticket = Ticket(target: Target, gen: nat, lock: LockId)

  // ---------------------------------------------------------------------
  // Atomic stretches
  // ---------------------------------------------------------------------

  /** `PooledConnection.is_alive`: neither side has closed it. */
  predicate IsAlive(c: ConnId, closed: set<ConnId>, lost: set<ConnId>) {
    c !in closed && c !in lost
  }

  predicate Kept(p: Pooled, now: real, lim: Limits, closed: set<ConnId>, lost: set<ConnId>) {
    && IsAlive(p.conn, closed, lost)
    && !(p.inUse == 0 && now - p.lastUsed > lim.maxIdle)
    && !(p.inUse == 0 && now - p.createdAt > lim.maxAge)
  }

  datatype Swept = Swept(alive: seq<Pooled>, closed: set<ConnId>)

  /** Dead, idle and aged connections are closed; the others keep their order. */
  function Prune(pool: seq<Pooled>, now: real, lim: Limits, closed: set<ConnId>, lost: set<ConnId>): Swept {
    if pool == [] then Swept([], closed)
    else if Kept(pool[0], now, lim, closed, lost) then
      var rest := Prune(pool[1..], now, lim, closed, lost);
      rest.(alive := [pool[0]] + rest.alive)
    else Prune(pool[1..], now, lim, closed + {pool[0].conn}, lost)
  }

  lemma PruneStep(pool: seq<Pooled>, i: nat, now: real, lim: Limits, closed: set<ConnId>, lost: set<ConnId>)
    requires i < |pool|
    ensures Prune(pool[i..], now, lim, closed, lost) ==
            if Kept(pool[i], now, lim, closed, lost) then
              var rest := Prune(pool[i + 1..], now, lim, closed, lost);
              rest.(alive := [pool[i]] + rest.alive)
            else Prune(pool[i + 1..], now, lim, closed + {pool[i].conn}, lost)
  {
    assert pool[i..][1..] == pool[i + 1..];
  }

  lemma PruneNone(now: real, lim: Limits, closed: set<ConnId>, lost: set<ConnId>)
    ensures Prune([], now, lim, closed, lost) == Swept([], closed)
  {
  }

  /** The usable connections: those not marked stale. */
  function Fresh(pool: seq<Pooled>): nat {
    if pool == [] then 0 else (if pool[0].stale then 0 else 1) + Fresh(pool[1..])
  }

  /** The first usable connection with a free channel. */
  function FirstFree(pool: seq<Pooled>, lim: Limits): (r: Option<nat>)
    ensures r.Some? ==> r.value < |pool| && !pool[r.value].stale && pool[r.value].inUse < lim.maxChannels
    ensures r.Some? ==> forall k :: 0 <= k < r.value ==> pool[k].stale || pool[k].inUse >= lim.maxChannels
    ensures r.None? ==> forall k :: 0 <= k < |pool| ==> pool[k].stale || pool[k].inUse >= lim.maxChannels
    decreases |pool|
  {
    if pool == [] then None
    else if !pool[0].stale && pool[0].inUse < lim.maxChannels then Some(0)
    else match FirstFree(pool[1..], lim) case None => None case Some(k) => Some(k + 1)
  }

  /** The first of the usable connections with the fewest users. */
  ghost predicate IsLeastBusy(pool: seq<Pooled>, i: nat) {
    && i < |pool| && !pool[i].stale
    && (forall k :: 0 <= k < |pool| && !pool[k].stale ==> pool[i].inUse <= pool[k].inUse)
    && (forall k :: 0 <= k < i && !pool[k].stale ==> pool[i].inUse < pool[k].inUse)
  }

  function LeastBusy(pool: seq<Pooled>): (r: Option<nat>)
    ensures r.None? <==> Fresh(pool) == 0
    ensures r.Some? ==> IsLeastBusy(pool, r.value)
    ensures r.None? ==> forall k :: 0 <= k < |pool| ==> pool[k].stale
    decreases |pool|
  {
    if pool == [] then None
    else
      match LeastBusy(pool[1..])
      case None => if pool[0].stale then None else Some(0)
      case Some(k) =>
        assert forall j :: 0 <= j < |pool| - 1 ==> pool[1..][j] == pool[j + 1];
        if !pool[0].stale && pool[0].inUse <= pool[k + 1].inUse then Some(0) else Some(k + 1)
  }

  /** Which pooled connection a caller is handed, if any: one with a free
    * channel, else the least busy once the pool is full, else none. */
  function Choose(pool: seq<Pooled>, lim: Limits): Option<nat> {
    if FirstFree(pool, lim).Some? then FirstFree(pool, lim)
    else if Fresh(pool) > 0 && Fresh(pool) >= lim.poolSize then LeastBusy(pool)
    else None
  }

  datatype Checked = Checked(host: Host, granted: Option<ConnId>)

  function Checkout(h: Host, now: real, lim: Limits, lost: set<ConnId>): Checked {
    var swept := Prune(h.pool, now, lim, h.closed, lost);
    var h' := h.(pool := swept.alive, closed := swept.closed);
    match Choose(swept.alive, lim)
    case None => Checked(h', None)
    case Some(i) =>
      var p := swept.alive[i];
      Checked(h'.(pool := swept.alive[i := p.(inUse := p.inUse + 1, lastUsed := now)]), Some(p.conn))
  }

  predicate AllBusy(pool: seq<Pooled>, lim: Limits) {
    forall k :: 0 <= k < |pool| && !pool[k].stale ==> pool[k].inUse >= lim.maxChannels
  }

  /** A pooled connection is handed out unless every usable one is busy and there is room
    * for another; a busy one only when the pool is full, and then a least busy one. */
  lemma CheckoutExactly(h: Host, now: real, lim: Limits, lost: set<ConnId>) returns (i: nat)
    ensures var alive := Prune(h.pool, now, lim, h.closed, lost).alive;
            var r := Checkout(h, now, lim, lost);
            && (r.granted.None? <==> AllBusy(alive, lim) && (Fresh(alive) < lim.poolSize || Fresh(alive) == 0))
            && (r.granted.None? ==> r.host.pool == alive)
            && (r.granted.Some? ==>
                && i < |alive| && !alive[i].stale && r.granted == Some(alive[i].conn)
                && r.host.pool == alive[i := alive[i].(inUse := alive[i].inUse + 1, lastUsed := now)]
                && (alive[i].inUse < lim.maxChannels
                    || (AllBusy(alive, lim) && Fresh(alive) >= lim.poolSize && IsLeastBusy(alive, i))))
  {
    hide Prune, Fresh;
    var alive := Prune(h.pool, now, lim, h.closed, lost).alive;
    i := if Choose(alive, lim).Some? then Choose(alive, lim).value else 0;
    assert FirstFree(alive, lim).Some? ==> !AllBusy(alive, lim);
  }

  /** Idle connections are closed, used ones kept for their users but marked stale. */
  function Retire(pool: seq<Pooled>): seq<Pooled> {
    if pool == [] then []
    else (if pool[0].inUse == 0 then [] else [pool[0].(stale := true)]) + Retire(pool[1..])
  }

  function IdleConns(pool: seq<Pooled>): set<ConnId> { set p | p in pool && p.inUse == 0 :: p.conn }

  function Invalidated(h: Host): Host {
    h.(pool := Retire(h.pool), closed := h.closed + IdleConns(h.pool))
  }

  function Registered(h: Host, target: Target): Host {
    Invalidated(h.(target := Some(target), gen := h.gen + 1))
  }

  function Removed(h: Host): Host {
    if h.target.None? then h
    else Invalidated(h.(target := None, gen := h.gen + 1)).(lock := None)
  }

  /** The head of `get_connection`: resolve the host, then capture config,
    * generation and lock together. `alias` is the ssh-config entry, if any. */
  function Captured(h: Host, alias: Option<Target>): (Host, Option<Ticket>) {
    var target := if h.target.Some? then h.target else alias;
    if target.None? then (h, None)
    else
      var lock := if h.lock.Some? then h.lock.value else h.nextLock;
      (h.(target := target, lock := Some(lock), nextLock := if h.lock.Some? then h.nextLock else h.nextLock + 1),
       Some(Ticket(target.value, h.gen, lock)))
  }

  /** After the connect: pool the connection unless the host was reconfigured meanwhile. */
  function Published(h: Host, t: Ticket, c: ConnId, now: real): Host {
    if h.gen == t.gen then h.(pool := h.pool + [Pooled(c, now, now, 1, false)])
    else h.(closed := h.closed + {c})
  }

  function IndexOf(pool: seq<Pooled>, c: ConnId): (r: Option<nat>)
    ensures r.Some? ==> r.value < |pool| && pool[r.value].conn == c
    ensures r.Some? ==> forall k :: 0 <= k < r.value ==> pool[k].conn != c
    ensures r.None? ==> forall k :: 0 <= k < |pool| ==> pool[k].conn != c
    decreases |pool|
  {
    if pool == [] then None
    else if pool[0].conn == c then Some(0)
    else match IndexOf(pool[1..], c) case None => None case Some(k) => Some(k + 1)
  }

  function GivenBack(h: Host, c: ConnId, now: real): Host {
    match IndexOf(h.pool, c)
    case None => h
    case Some(i) =>
      var p := h.pool[i].(inUse := Max(0, h.pool[i].inUse - 1), lastUsed := now);
      h.(pool := h.pool[i := p], closed := if p.stale && p.inUse == 0 then h.closed + {c} else h.closed)
  }

  /** The pools after a lease on `c` is returned under a name, which is taken as it is. */
  function ReturnedUnder(pools: map<string, seq<Pooled>>, rawName: string, c: ConnId, now: real): map<string, seq<Pooled>> {
    var entries := if rawName in pools then pools[rawName] else [];
    match IndexOf(entries, c)
    case None => pools
    case Some(i) => pools[rawName := entries[i := entries[i].(inUse := Max(0, entries[i].inUse - 1), lastUsed := now)]]
  }

  /** Under the name of a host it is what a lease given back to that host does to its pool. */
  lemma ReturnedIsGivenBack(pools: map<string, seq<Pooled>>, name: string, h: Host, c: ConnId, now: real)
    requires name in pools && h.pool == pools[name]
    ensures ReturnedUnder(pools, name, c, now) == pools[name := GivenBack(h, c, now).pool]
  {
  }

  /** A lease that `get_connection` gave out under a name is counted back exactly when the
    * name has no surrounding whitespace; otherwise the pools do not change at all. */
  lemma LeaseReturnedExactly(pools: map<string, seq<Pooled>>, rawName: string, c: ConnId, i: nat, now: real)
    requires forall name :: name in pools ==> Normalize(name) == name
    requires Normalize(rawName) in pools && IndexOf(pools[Normalize(rawName)], c) == Some(i)
    requires pools[Normalize(rawName)][i].inUse >= 1
    ensures var name, after := Normalize(rawName), ReturnedUnder(pools, rawName, c, now);
            && name in after && i < |after[name]|
            && (after[name][i].inUse == pools[name][i].inUse - 1 <==> rawName == name)
            && (after == pools <==> rawName != name)
  {
    hide Normalize;
    var name := Normalize(rawName);
    var after: map<string, seq<Pooled>> := ReturnedUnder(pools, rawName, c, now);
    assert rawName != name ==> rawName !in pools;
    assert rawName == name ==> after[name][i].inUse != pools[name][i].inUse;
  }

  // ---------------------------------------------------------------------
  // The manager
  // ---------------------------------------------------------------------

  predicate IsSpace(c: char) {
    || '\t' <= c <= '\r' || '\U{1C}' <= c <= ' ' || c == '\U{85}' || c == '\U{A0}' || c == '\U{1680}'
    || '\U{2000}' <= c <= '\U{200A}' || c == '\U{2028}' || c == '\U{2029}' || c == '\U{202F}'
    || c == '\U{205F}' || c == '\U{3000}'
  }

  /** `normalize_host_name`: strip surrounding whitespace. */
  function Normalize(name: string): string
    decreases |name|
  {
    if name == "" then ""
    else if IsSpace(name[0]) then Normalize(name[1..])
    else if IsSpace(name[|name| - 1]) then Normalize(name[..|name| - 1])
    else name
  }

  lemma {:induction false} NormalizeIsIdempotent(name: string)
    ensures Normalize(Normalize(name)) == Normalize(name)
    decreases |name|
  {
    if name != "" {
      if IsSpace(name[0]) {
        NormalizeIsIdempotent(name[1..]);
      } else if IsSpace(name[|name| - 1]) {
        NormalizeIsIdempotent(name[..|name| - 1]);
      }
    }
  }

  predicate Blank(s: string) { forall k :: 0 <= k < |s| ==> IsSpace(s[k]) }

  /** Normalizing takes away the whitespace around a name, all of it, and nothing else. */
  lemma {:induction false} NormalizedExactly(name: string) returns (before: string, after: string)
    ensures name == before + Normalize(name) + after && Blank(before) && Blank(after)
    ensures var n := Normalize(name); n != "" ==> !IsSpace(n[0]) && !IsSpace(n[|n| - 1])
    ensures Blank(name) ==> Normalize(name) == ""
    decreases |name|
  {
    hide IsSpace;
    before, after := "", "";
    if name != "" && IsSpace(name[0]) {
      before, after := NormalizedExactly(name[1..]);
      before := [name[0]] + before;
    } else if name != "" && IsSpace(name[|name| - 1]) {
      before, after := NormalizedExactly(name[..|name| - 1]);
      after := after + [name[|name| - 1]];
    }
  }

  /** Whitespace as `str.strip` knows it. */
  lemma SpacesAre(c: char)
    ensures IsSpace(c) <==>
            c in "\t\n\U{B}\U{C}\r\U{1C}\U{1D}\U{1E}\U{1F} \U{85}\U{A0}\U{1680}\U{2000}\U{2001}\U{2002}\U{2003}\U{2004}"
            || c in "\U{2005}\U{2006}\U{2007}\U{2008}\U{2009}\U{200A}\U{2028}\U{2029}\U{202F}\U{205F}\U{3000}"
  {
  }

  class ConnectionManager {
    const limits: Limits
    var registry: map<string, Target>
    var generation: map<string, nat>
    var pool: map<string, seq<Pooled>>
    var locks: map<string, LockId>
    var nextLock: LockId
    var closed: set<ConnId>

    constructor (poolSize: int, maxChannels: int, maxIdle: real, maxAge: real)
      ensures limits == Limits(Max(1, poolSize), maxChannels, maxIdle, maxAge)
      ensures (forall name :: Of(name) == Host(None, 0, [], None, 0, {})) && KeysNormalized()
    {
      limits := Limits(Max(1, poolSize), maxChannels, maxIdle, maxAge);
      registry, generation, pool, locks := map[], map[], map[], map[];
      nextLock, closed := 0, {};
    }

    /** Everything the tables say about one host. */
    function Of(name: string): Host
      reads this
    {
      Host(if name in registry then Some(registry[name]) else None,
           if name in generation then generation[name] else 0,
           if name in pool then pool[name] else [],
           if name in locks then Some(locks[name]) else None, nextLock, closed)
    }

    /** Nothing recorded for any other host changed. */
    twostate predicate OthersUntouched(name: string)
      reads this
    {
      forall other :: other != name ==>
        Of(other).(nextLock := 0, closed := {}) == old(Of(other)).(nextLock := 0, closed := {})
    }

    /** Pools are only ever stored under normalized names. */
    ghost predicate KeysNormalized()
      reads this`pool
    {
      forall name :: name in pool ==> Normalize(name) == name
    }

    method InvalidatePool(name: string)
      modifies this`pool, this`closed
      ensures Of(name) == Invalidated(old(Of(name)))
      ensures pool - {name} == old(pool) - {name} && pool.Keys <= old(pool.Keys)
    {
      var entries := if name in pool then pool[name] else [];
      var keep, shut := RetireEntries(entries);
      closed := closed + shut;
      assert keep != [] ==> name in pool;
      pool := if keep == [] then pool - {name} else pool[name := keep];
    }

    method RegisterHost(rawName: string, target: Target)
      modifies this
      ensures Of(Normalize(rawName)) == Registered(old(Of(Normalize(rawName))), target)
      ensures OthersUntouched(Normalize(rawName)) && (old(KeysNormalized()) ==> KeysNormalized())
    {
      var name := Normalize(rawName);
      registry := registry[name := target];
      generation := generation[name := (if name in generation then generation[name] else 0) + 1];
      InvalidatePool(name);
      forall other | other != name ensures Of(other).pool == old(Of(other)).pool {
        assert other in pool <==> other in pool - {name};
      }
    }

    method RemoveHost(rawName: string) returns (found: bool)
      modifies this
      ensures found == old(Of(Normalize(rawName))).target.Some?
      ensures Of(Normalize(rawName)) == Removed(old(Of(Normalize(rawName))))
      ensures OthersUntouched(Normalize(rawName)) && (old(KeysNormalized()) ==> KeysNormalized())
    {
      var name := Normalize(rawName);
      if name !in registry {
        return false;
      }
      registry := registry - {name};
      generation := generation[name := (if name in generation then generation[name] else 0) + 1];
      InvalidatePool(name);
      locks := locks - {name};
      forall other | other != name ensures Of(other).pool == old(Of(other)).pool {
        assert other in pool <==> other in pool - {name};
      }
      return true;
    }

    method Capture(rawName: string, alias: Option<Target>) returns (ticket: Option<Ticket>)
      modifies this
      ensures var name := Normalize(rawName);
              Of(name) == Captured(old(Of(name)), alias).0 && ticket == Captured(old(Of(name)), alias).1
      ensures OthersUntouched(Normalize(rawName))
    {
      var name := Normalize(rawName);
      if name !in registry {
        if alias.None? {
          return None;
        }
        registry := registry[name := alias.value];
      }
      var gen := if name in generation then generation[name] else 0;
      if name !in locks {
        locks := locks[name := nextLock];
        nextLock := nextLock + 1;
      }
      return Some(Ticket(registry[name], gen, locks[name]));
    }

    /** The stretch under the lock up to the connect: prune, then hand out a
      * pooled connection if one may be used. */
    method CheckOut(name: string, now: real, lost: set<ConnId>) returns (granted: Option<ConnId>)
      modifies this`pool, this`closed
      ensures Of(name) == Checkout(old(Of(name)), now, limits, lost).host
      ensures granted == Checkout(old(Of(name)), now, limits, lost).granted
      ensures OthersUntouched(name)
      ensures old(KeysNormalized()) && Normalize(name) == name ==> KeysNormalized()
    {
      hide Prune, FirstFree, LeastBusy, Normalize, Fresh, Kept;
      var alive := PruneEntries(name, now, lost);
      var pick := ScanForFree(alive, limits);
      if pick.None? {
        pick := ScanForLeastBusy(alive, limits);
      }
      if pick.None? {
        return None;
      }
      var p := alive[pick.value];
      pool := pool[name := alive[pick.value := p.(inUse := p.inUse + 1, lastUsed := now)]];
      return Some(p.conn);
    }

    method PruneEntries(name: string, now: real, lost: set<ConnId>) returns (alive: seq<Pooled>)
      modifies this`pool, this`closed
      ensures var swept := Prune(old(Of(name)).pool, now, limits, old(closed), lost);
              alive == swept.alive && closed == swept.closed
      ensures pool == old(pool)[name := alive]
    {
      hide Prune, Kept;
      var entries := if name in pool then pool[name] else [];
      alive := [];
      var i := 0;
      while i < |entries|
        invariant 0 <= i <= |entries|
        invariant pool == old(pool)
        invariant var rest := Prune(entries[i..], now, limits, closed, lost);
                  Prune(entries, now, limits, old(closed), lost) == rest.(alive := alive + rest.alive)
      {
        var p := entries[i];
        PruneStep(entries, i, now, limits, closed, lost);
        if Kept(p, now, limits, closed, lost) {
          alive := alive + [p];
        } else {
          closed := closed + {p.conn};
        }
        i := i + 1;
      }
      PruneNone(now, limits, closed, lost);
      assert entries[i..] == [] && alive + [] == alive;
      pool := pool[name := alive];
    }

    method Publish(name: string, t: Ticket, c: ConnId, now: real) returns (pooled: bool)
      modifies this`pool, this`closed
      ensures pooled == (old(Of(name)).gen == t.gen)
      ensures Of(name) == Published(old(Of(name)), t, c, now) && OthersUntouched(name)
      ensures old(KeysNormalized()) && Normalize(name) == name ==> KeysNormalized()
    {
      var gen := if name in generation then generation[name] else 0;
      if gen == t.gen {
        pool := pool[name := (if name in pool then pool[name] else []) + [Pooled(c, now, now, 1, false)]];
        return true;
      }
      closed := closed + {c};
      return false;
    }

    /** The host name is looked up as given: unlike `get_connection`, nothing
      * normalizes it, so a lease returned under an unstripped name is lost. */
    method ReleaseConnection(rawName: string, c: ConnId, now: real)
      modifies this`pool, this`closed
      ensures Of(rawName) == GivenBack(old(Of(rawName)), c, now) && OthersUntouched(rawName)
      ensures pool == ReturnedUnder(old(pool), rawName, c, now)
      ensures old(KeysNormalized()) ==> KeysNormalized()
      ensures old(KeysNormalized()) && Normalize(rawName) != rawName ==> pool == old(pool) && closed == old(closed)
    {
      var entries := if rawName in pool then pool[rawName] else [];
      var i := 0;
      while i < |entries|
        invariant 0 <= i <= |entries|
        invariant forall k :: 0 <= k < i ==> entries[k].conn != c
      {
        if entries[i].conn == c {
          FoundAt(entries, c, i);
          var p := entries[i].(inUse := Max(0, entries[i].inUse - 1), lastUsed := now);
          pool := pool[rawName := entries[i := p]];
          if p.stale && p.inUse == 0 {
            closed := closed + {c};
          }
          return;
        }
        i := i + 1;
      }
    }
  }

  method RetireEntries(entries: seq<Pooled>) returns (keep: seq<Pooled>, shut: set<ConnId>)
    ensures keep == Retire(entries) && shut == IdleConns(entries)
  {
    hide IdleConns;
    keep, shut := [], {};
    NoIdleConns();
    var i := 0;
    while i < |entries|
      invariant 0 <= i <= |entries|
      invariant keep + Retire(entries[i..]) == Retire(entries)
      invariant shut == IdleConns(entries[..i])
    {
      var p := entries[i];
      IdleConnsSnoc(entries, i);
      assert entries[i..][1..] == entries[i + 1..];
      if p.inUse == 0 {
        shut := shut + {p.conn};
      } else {
        keep := keep + [p.(stale := true)];
      }
      i := i + 1;
    }
    assert entries[..i] == entries;
  }

  method ScanForFree(pool: seq<Pooled>, lim: Limits) returns (r: Option<nat>)
    ensures r == FirstFree(pool, lim)
  {
    var i := 0;
    while i < |pool|
      invariant 0 <= i <= |pool|
      invariant forall k :: 0 <= k < i ==> pool[k].stale || pool[k].inUse >= lim.maxChannels
    {
      if !pool[i].stale && pool[i].inUse < lim.maxChannels {
        return Some(i);
      }
      i := i + 1;
    }
    return None;
  }

  /** `min(usable, key=in_use)`, when the usable ones fill the pool. */
  method ScanForLeastBusy(pool: seq<Pooled>, lim: Limits) returns (r: Option<nat>)
    ensures r == if Fresh(pool) > 0 && Fresh(pool) >= lim.poolSize then LeastBusy(pool) else None
  {
    var usable, i := 0, 0;
    r := None;
    while i < |pool|
      invariant 0 <= i <= |pool|
      invariant usable + Fresh(pool[i..]) == Fresh(pool)
      invariant r.None? <==> usable == 0
      invariant r.None? ==> forall k :: 0 <= k < i ==> pool[k].stale
      invariant r.Some? ==> r.value < i && IsLeastBusy(pool[..i], r.value)
    {
      assert pool[i..][1..] == pool[i + 1..];
      assert forall k :: 0 <= k < i ==> pool[..i + 1][k] == pool[..i][k];
      if !pool[i].stale {
        usable := usable + 1;
        if r.None? || pool[i].inUse < pool[r.value].inUse {
          r := Some(i);
        }
      }
      i := i + 1;
    }
    assert pool[..i] == pool;
    if usable < lim.poolSize {
      r := None;
    }
    if r.Some? {
      LeastBusyIsUnique(pool, r.value, LeastBusy(pool).value);
    }
  }

  lemma LeastBusyIsUnique(pool: seq<Pooled>, i: nat, j: nat)
    requires IsLeastBusy(pool, i) && IsLeastBusy(pool, j)
    ensures i == j
  {
  }

  lemma NoIdleConns()
    ensures IdleConns([]) == {}
  {
  }

  lemma IdleConnsSnoc(pool: seq<Pooled>, i: nat)
    requires i < |pool|
    ensures IdleConns(pool[..i + 1]) == IdleConns(pool[..i]) + (if pool[i].inUse == 0 then {pool[i].conn} else {})
  {
    assert pool[..i + 1] == pool[..i] + [pool[i]];
  }

  lemma FoundAt(pool: seq<Pooled>, c: ConnId, i: nat)
    requires i < |pool| && pool[i].conn == c && forall k :: 0 <= k < i ==> pool[k].conn != c
    ensures IndexOf(pool, c) == Some(i)
  {
  }
}
