/** What a checkout reuses and what it closes, by the clock: `get_connection` from the prune on. */
module ConnectionReuse {
  import opened Base
  import opened ConnectionPool
  import opened PoolProtocol

  /** Unused for longer than the idle limit, or made longer ago than the age limit. */
  predicate Expired(p: Pooled, now: real, lim: Limits) {
    p.lastUsed < now - lim.maxIdle || p.createdAt < now - lim.maxAge
  }

  /** A pruned pool holds exactly the connections that neither side has closed and that are
    * used, whatever their age, or within both limits; the manager closes exactly the others. */
  lemma PruneByClock(pool: seq<Pooled>, now: real, lim: Limits, closed: set<ConnId>, lost: set<ConnId>, p: Pooled)
    requires Distinct(pool) && p in pool
    ensures var s := Prune(pool, now, lim, closed, lost);
            && (p in s.alive <==> p.conn !in closed && p.conn !in lost && (p.inUse > 0 || !Expired(p, now, lim)))
            && (p.conn in s.closed <==> p.conn in closed || p !in s.alive)
  {
    PruneExactly(pool, now, lim, closed, lost);
    assert forall q :: q in pool && q.conn == p.conn ==> q == p;
  }

  /** A connection over a limit that nobody uses is closed and handed to nobody. */
  lemma ExpiredIsClosed(h: Host, now: real, lim: Limits, lost: set<ConnId>, p: Pooled)
    requires Distinct(h.pool) && p in h.pool && p.inUse == 0 && Expired(p, now, lim)
    ensures var r := Checkout(h, now, lim, lost);
            && p.conn in r.host.closed && r.granted != Some(p.conn)
            && forall q :: q in r.host.pool ==> q.conn != p.conn
  {
    hide Prune, Choose;
    var s := Prune(h.pool, now, lim, h.closed, lost);
    PruneByClock(h.pool, now, lim, h.closed, lost, p);
    PruneFacts(h.pool, now, lim, h.closed, lost);
    forall q | q in s.alive ensures q.conn != p.conn {
      assert q in h.pool;
    }
    OnlyGranted(h, now, lim, lost);
  }

  /** A checkout hands out, and keeps, what pruning left. */
  lemma OnlyGranted(h: Host, now: real, lim: Limits, lost: set<ConnId>)
    ensures var r, alive := Checkout(h, now, lim, lost), Prune(h.pool, now, lim, h.closed, lost).alive;
            && (r.granted.Some? ==> exists q :: q in alive && q.conn == r.granted.value)
            && forall q :: q in r.host.pool ==> exists q' :: q' in alive && q'.conn == q.conn
  {
    hide Prune;
    var i := CheckoutExactly(h, now, lim, lost);
    var r, alive := Checkout(h, now, lim, lost), Prune(h.pool, now, lim, h.closed, lost).alive;
    forall q | q in r.host.pool ensures exists q' :: q' in alive && q'.conn == q.conn {
      var k :| 0 <= k < |r.host.pool| && r.host.pool[k] == q;
      assert alive[k] in alive && alive[k].conn == q.conn;
    }
  }

  /** With a usable connection that has a free channel and is used or within both limits, a
    * checkout opens nothing new. */
  lemma ReusesWhatIsFree(h: Host, now: real, lim: Limits, lost: set<ConnId>, p: Pooled)
    requires Distinct(h.pool) && p in h.pool && p.conn !in h.closed && p.conn !in lost
    requires !p.stale && p.inUse < lim.maxChannels && (p.inUse > 0 || !Expired(p, now, lim))
    ensures Checkout(h, now, lim, lost).granted.Some?
  {
    hide Prune, Checkout, Fresh;
    PruneByClock(h.pool, now, lim, h.closed, lost, p);
    var i := CheckoutExactly(h, now, lim, lost);
    var alive := Prune(h.pool, now, lim, h.closed, lost).alive;
    assert exists k :: 0 <= k < |alive| && alive[k] == p;
  }

  /** So a connection given back is there for the next caller for as long as the idle limit,
    * counted from the giving back, and the age limit allow. */
  lemma GivenBackIsReused(h: Host, c: ConnId, i: nat, back: real, now: real, lim: Limits, lost: set<ConnId>)
    requires Distinct(h.pool) && IndexOf(h.pool, c) == Some(i) && h.pool[i].inUse >= 1 && !h.pool[i].stale
    requires c !in h.closed && c !in lost && h.pool[i].inUse <= lim.maxChannels
    requires now - back <= lim.maxIdle && now - h.pool[i].createdAt <= lim.maxAge
    ensures Checkout(GivenBack(h, c, back), now, lim, lost).granted.Some?
  {
    hide Checkout, Prune;
    var h' := GivenBack(h, c, back);
    var p := h'.pool[i];
    assert p in h'.pool;
    ReusesWhatIsFree(h', now, lim, lost, p);
  }

  // ---------------------------------------------------------------------
  // What a caller gets after a reconfiguration
  // ---------------------------------------------------------------------

  /** Whoever asks after a host was registered is sent to that target, in the next generation,
    * and is handed none of the connections made before. */
  lemma RegisteredIsUsed(h: Host, target: Target, alias: Option<Target>, now: real, lim: Limits, lost: set<ConnId>)
    requires Distinct(h.pool)
    ensures var (h', ticket) := Captured(Registered(h, target), alias);
            && ticket.Some? && ticket.value.target == target && ticket.value.gen == h.gen + 1
            && Checkout(h', now, lim, lost).granted.None?
            && forall p :: p in h.pool && p.inUse == 0 ==> p.conn in h'.closed
  {
    hide Checkout;
    RetireFacts(h.pool);
    var (h', ticket) := Captured(Registered(h, target), alias);
    NothingUsable(h', now, lim, lost);
  }

  /** Whoever asks after a host was removed is refused, unless the ssh configuration knows it,
    * and is handed none of its connections. Removing an unknown host changes nothing. */
  lemma RemovedIsUnknown(h: Host, alias: Option<Target>, now: real, lim: Limits, lost: set<ConnId>)
    requires Distinct(h.pool)
    ensures h.target.None? ==> Removed(h) == h
    ensures var (h', ticket) := Captured(Removed(h), alias);
            h.target.Some? ==>
              && (ticket.None? <==> alias.None?)
              && (ticket.Some? ==> ticket.value.target == alias.value && ticket.value.gen == h.gen + 1)
              && Checkout(h', now, lim, lost).granted.None?
              && forall p :: p in h.pool && p.inUse == 0 ==> p.conn in h'.closed
  {
    hide Checkout;
    RetireFacts(h.pool);
    var (h', ticket) := Captured(Removed(h), alias);
    if h.target.Some? {
      NothingUsable(h', now, lim, lost);
    }
  }

  lemma NothingUsable(h: Host, now: real, lim: Limits, lost: set<ConnId>)
    requires Distinct(h.pool) && forall p :: p in h.pool ==> p.stale
    ensures Checkout(h, now, lim, lost).granted.None?
  {
    hide Prune, Checkout;
    PruneFacts(h.pool, now, lim, h.closed, lost);
    var alive := Prune(h.pool, now, lim, h.closed, lost).alive;
    assert forall k :: 0 <= k < |alive| ==> alive[k] in h.pool;
    var i := CheckoutExactly(h, now, lim, lost);
  }
}
