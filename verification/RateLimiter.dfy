/** `SecurityPolicy.check_rate_limit`: at most so many calls in any one second, per host. */
module RateLimiter {
  import opened Base

  /** The calls that lie less than a second before `now`, or after it. */
  function Recent(calls: seq<real>, now: real): seq<real> {
    if calls == [] then []
    else
      var earlier, last := Recent(calls[..|calls| - 1], now), calls[|calls| - 1];
      if now - last < 1.0 then earlier + [last] else earlier
  }

  datatype Answer = Answer(calls: seq<real>, refused: bool)

  function Checked(calls: seq<real>, now: real, rps: real): Answer {
    var recent := Recent(calls, now);
    if |recent| as real >= rps then Answer(recent, true) else Answer(recent + [now], false)
  }

  class SecurityPolicy {
    var rateCounters: map<string, seq<real>>
    const rateLimitRps: real

    constructor (rps: real)
      ensures rateCounters == map[] && rateLimitRps == rps
    {
      rateCounters, rateLimitRps := map[], rps;
    }

    /** A host not seen before has an empty list. */
    function CallsOf(host: string): seq<real>
      reads `rateCounters
    {
      if host in rateCounters then rateCounters[host] else []
    }

    method CheckRateLimit(host: string, now: real) returns (refused: bool)
      modifies `rateCounters
      ensures refused == Checked(old(CallsOf(host)), now, rateLimitRps).refused
      ensures CallsOf(host) == Checked(old(CallsOf(host)), now, rateLimitRps).calls
      ensures forall other :: other != host ==> CallsOf(other) == old(CallsOf(other))
    {
      var calls := CallsOf(host);
      var kept: seq<real> := [];
      for k := 0 to |calls|
        invariant kept == Recent(calls[..k], now)
      {
        assert calls[..k + 1][..k] == calls[..k];
        if now - calls[k] < 1.0 {
          kept := kept + [calls[k]];
        }
      }
      assert calls[..|calls|] == calls;
      rateCounters := rateCounters[host := kept];
      if |kept| as real >= rateLimitRps {
        return true;
      }
      rateCounters := rateCounters[host := kept + [now]];
      return false;
    }
  }

  // ---------------------------------------------------------------------
  // The whole history of one host
  // ---------------------------------------------------------------------

  /** The list the limiter holds after calls at these times, and all calls it accepted. */
  datatype Past = Past(calls: seq<real>, accepted: seq<real>)

  function Serve(times: seq<real>, rps: real): Past {
    if times == [] then Past([], [])
    else
      var before, now := Serve(times[..|times| - 1], rps), times[|times| - 1];
      var answer := Checked(before.calls, now, rps);
      Past(answer.calls, if answer.refused then before.accepted else before.accepted + [now])
  }

  // ---------------------------------------------------------------------
  // Whatever the clock does
  // ---------------------------------------------------------------------

  /** Which calls were accepted, by position. */
  function AcceptedAt(times: seq<real>, rps: real): (at: seq<nat>)
    ensures forall k :: 0 <= k < |at| ==> at[k] < |times|
    ensures forall j, k :: 0 <= j < k < |at| ==> at[j] < at[k]
  {
    if times == [] then []
    else
      var init, now := times[..|times| - 1], times[|times| - 1];
      var before := AcceptedAt(init, rps);
      if Checked(Serve(init, rps).calls, now, rps).refused then before else before + [|init|]
  }

  /** Every later reading of the clock is less than a second after this one. */
  predicate Lingers(times: seq<real>, j: nat)
    requires j < |times|
  {
    forall m :: j < m < |times| ==> times[m] - times[j] < 1.0
  }

  function Lingering(times: seq<real>, at: seq<nat>): seq<real>
    requires forall k :: 0 <= k < |at| ==> at[k] < |times|
  {
    if at == [] then []
    else
      var earlier, j := Lingering(times, at[..|at| - 1]), at[|at| - 1];
      if Lingers(times, j) then earlier + [times[j]] else earlier
  }

  lemma LingersOn(init: seq<real>, now: real, j: nat)
    requires j < |init|
    ensures Lingers(init + [now], j) <==> Lingers(init, j) && now - init[j] < 1.0
  {
    var times := init + [now];
    assert times[|init|] == now && forall m :: 0 <= m < |init| ==> times[m] == init[m];
  }

  lemma {:induction false} LingeringOn(init: seq<real>, now: real, at: seq<nat>)
    requires forall k :: 0 <= k < |at| ==> at[k] < |init|
    ensures Lingering(init + [now], at) == Recent(Lingering(init, at), now)
  {
    hide Lingers, Recent;
    if at == [] {
      NothingRecent(now);
    } else {
      var j := at[|at| - 1];
      LingeringOn(init, now, at[..|at| - 1]);
      LingersOn(init, now, j);
      RecentSnoc(Lingering(init, at[..|at| - 1]), init[j], now);
    }
  }

  /** For any clock: the list holds the accepted calls that are less than a second older
    * than every later reading, refused calls' readings included. */
  lemma {:induction false} ListForAnyClock(times: seq<real>, rps: real)
    ensures Serve(times, rps).calls == Lingering(times, AcceptedAt(times, rps))
  {
    hide Lingers, Recent, Lingering;
    if times == [] {
      NoneLingering(times);
    } else {
      var init, now := times[..|times| - 1], times[|times| - 1];
      assert times == init + [now];
      var before := AcceptedAt(init, rps);
      ListForAnyClock(init, rps);
      LingeringOn(init, now, before);
      LastLingers(times, before);
    }
  }

  lemma NoneLingering(times: seq<real>)
    ensures Lingering(times, []) == []
  {
  }

  lemma LastLingers(times: seq<real>, at: seq<nat>)
    requires times != [] && forall k :: 0 <= k < |at| ==> at[k] < |times|
    ensures Lingering(times, at + [|times| - 1]) == Lingering(times, at) + [times[|times| - 1]]
  {
    assert (at + [|times| - 1])[..|at|] == at;
  }

  /** The accepted calls less than a second older than this reading and all between. */
  function StillCounted(times: seq<real>, at: seq<nat>): set<nat>
    requires forall k :: 0 <= k < |at| ==> at[k] < |times|
  {
    set j | j in at && j < |times| && Lingers(times, j)
  }

  lemma {:induction false} LingeringCounted(times: seq<real>, at: seq<nat>)
    requires forall k :: 0 <= k < |at| ==> at[k] < |times|
    requires forall j, k :: 0 <= j < k < |at| ==> at[j] < at[k]
    ensures |StillCounted(times, at)| == |Lingering(times, at)|
  {
    hide Lingers, StillCounted;
    if at == [] {
      NoneCounted(times);
    } else {
      var init, j := at[..|at| - 1], at[|at| - 1];
      LingeringCounted(times, init);
      assert at == init + [j];
      CountedOn(times, init, j);
    }
  }

  lemma NoneCounted(times: seq<real>)
    ensures StillCounted(times, []) == {}
  {
  }

  lemma CountedOn(times: seq<real>, init: seq<nat>, j: nat)
    requires j < |times| && forall k :: 0 <= k < |init| ==> init[k] < j
    ensures |StillCounted(times, init + [j])| == |StillCounted(times, init)| + if Lingers(times, j) then 1 else 0
  {
    hide Lingers;
    assert j !in init;
    assert StillCounted(times, init + [j]) == StillCounted(times, init) + if Lingers(times, j) then {j} else {};
  }

  /** For any clock: a call is refused exactly when the accepted calls that no reading up to
    * this one has found a second old reach the limit. */
  lemma RefusedForAnyClock(times: seq<real>, rps: real)
    requires times != []
    ensures var init := times[..|times| - 1];
            && (forall k :: 0 <= k < |AcceptedAt(init, rps)| ==> AcceptedAt(init, rps)[k] < |times|)
            && (AcceptedAt(times, rps) == AcceptedAt(init, rps) <==>
                |StillCounted(times, AcceptedAt(init, rps))| as real >= rps)
  {
    hide Lingers, Recent, Lingering, StillCounted;
    var init, now := times[..|times| - 1], times[|times| - 1];
    assert times == init + [now];
    ListForAnyClock(init, rps);
    LingeringOn(init, now, AcceptedAt(init, rps));
    LingeringCounted(times, AcceptedAt(init, rps));
  }

  /** The accepted calls, by position, from `x` on, up to but not including `x + 1`. */
  function WindowAt(times: seq<real>, at: seq<nat>, x: real): set<nat>
    requires forall k :: 0 <= k < |at| ==> at[k] < |times|
  {
    set j | j in at && j < |times| && x <= times[j] < x + 1.0
  }

  /** When the last of these calls is checked, the others are still counted. */
  predicate Remembered(times: seq<real>, calls: set<nat>) {
    forall j, last :: j in calls && last in calls && (forall k :: k in calls ==> k <= last) && j < last < |times| ==>
      Lingers(times[..last + 1], j)
  }

  lemma {:induction false} AcceptedBefore(times: seq<real>, rps: real, n: nat, j: nat)
    requires j < n <= |times|
    ensures j in AcceptedAt(times, rps) <==> j in AcceptedAt(times[..n], rps)
    decreases |times|
  {
    if n < |times| {
      var init := times[..|times| - 1];
      AcceptedBefore(init, rps, n, j);
      assert init[..n] == times[..n];
    } else {
      assert times[..n] == times;
    }
  }

  lemma {:induction false} LastOf(s: set<nat>) returns (last: nat)
    requires s != {}
    ensures last in s && forall k :: k in s ==> k <= last
    decreases |s|
  {
    var first :| first in s;
    var rest := s - {first};
    last := first;
    if rest != {} {
      var l := LastOf(rest);
      last := Max(first, l);
    }
    assert forall k :: k in s ==> k == first || k in rest;
  }

  /** An accepted call found fewer than the limit counted. */
  lemma AcceptedHadRoom(times: seq<real>, rps: real, l: nat)
    requires l in AcceptedAt(times, rps)
    ensures l < |times| && (forall k :: k in AcceptedAt(times[..l], rps) ==> k < l)
    ensures (set j | j in AcceptedAt(times[..l], rps) && Lingers(times[..l + 1], j)) ==
            StillCounted(times[..l + 1], AcceptedAt(times[..l], rps))
    ensures |StillCounted(times[..l + 1], AcceptedAt(times[..l], rps))| as real < rps
  {
    hide Lingers, StillCounted;
    assert l < |times|;
    var now := times[..l + 1];
    assert now[..|now| - 1] == times[..l];
    AcceptedBefore(times, rps, l + 1, l);
    RefusedForAnyClock(now, rps);
    SameCounted(now, AcceptedAt(times[..l], rps));
  }

  lemma SameCounted(times: seq<real>, at: seq<nat>)
    requires forall k :: 0 <= k < |at| ==> at[k] < |times|
    ensures (set j | j in at && Lingers(times, j)) == StillCounted(times, at)
  {
  }

  /** For any clock: a second holds no more accepted calls than the limit rounded up, unless
    * one of them was forgotten before the last of them was checked. */
  lemma RememberedWindowIsBounded(times: seq<real>, rps: real, x: real)
    requires Remembered(times, WindowAt(times, AcceptedAt(times, rps), x))
    ensures |WindowAt(times, AcceptedAt(times, rps), x)| <= Max(0, Ceiling(rps))
  {
    hide Lingers, StillCounted, AcceptedAt;
    var at := AcceptedAt(times, rps);
    var window := WindowAt(times, at, x);
    if window != {} {
      var last := LastOf(window);
      AcceptedHadRoom(times, rps, last);
      var counted := StillCounted(times[..last + 1], AcceptedAt(times[..last], rps));
      forall j | j in window && j != last ensures j in counted {
        AcceptedBefore(times, rps, last, j);
        assert j in AcceptedAt(times[..last], rps) && Lingers(times[..last + 1], j);
      }
      SubsetIsSmaller(window - {last}, counted);
    }
  }

  /** With a clock that is never set back, only the age at this reading matters. */
  lemma LingersForward(times: seq<real>, j: nat)
    requires NonDecreasing(times) && j < |times| - 1
    ensures Lingers(times, j) <==> times[|times| - 1] - times[j] < 1.0
  {
  }

  /** So then none is forgotten. */
  lemma ForwardRemembers(times: seq<real>, rps: real, x: real)
    requires NonDecreasing(times)
    ensures Remembered(times, WindowAt(times, AcceptedAt(times, rps), x))
  {
    hide Lingers, AcceptedAt;
    var window := WindowAt(times, AcceptedAt(times, rps), x);
    forall j, last | j in window && last in window && j < last < |times| ensures Lingers(times[..last + 1], j) {
      LingersForward(times[..last + 1], j);
    }
  }

  // ---------------------------------------------------------------------
  // A clock that is never set back
  // ---------------------------------------------------------------------

  predicate NonDecreasing(times: seq<real>) { forall i, j :: 0 <= i < j < |times| ==> times[i] <= times[j] }

  lemma {:induction false} RecentOfRecent(calls: seq<real>, earlier: real, now: real)
    requires earlier <= now
    ensures Recent(Recent(calls, earlier), now) == Recent(calls, now)
  {
    if calls != [] {
      var rest, last := calls[..|calls| - 1], calls[|calls| - 1];
      RecentOfRecent(rest, earlier, now);
      RecentSnoc(Recent(rest, earlier), last, now);
    }
  }

  lemma RecentSnoc(calls: seq<real>, t: real, now: real)
    ensures Recent(calls + [t], now) == if now - t < 1.0 then Recent(calls, now) + [t] else Recent(calls, now)
  {
    assert (calls + [t])[..|calls|] == calls;
  }

  /** The pruned list is the whole history of accepted calls cut to the last second. */
  lemma {:induction false} ListIsHistory(times: seq<real>, rps: real)
    requires times != [] && NonDecreasing(times)
    ensures Serve(times, rps).calls == Recent(Serve(times, rps).accepted, times[|times| - 1])
  {
    hide Recent;
    var before, now := Serve(times[..|times| - 1], rps), times[|times| - 1];
    if |times| > 1 {
      ListIsHistory(times[..|times| - 1], rps);
      RecentOfRecent(before.accepted, times[|times| - 2], now);
    } else {
      NothingRecent(now);
    }
    RecentSnoc(before.accepted, now, now);
  }

  lemma NothingRecent(now: real)
    ensures Recent([], now) == []
  {
  }

  /** Accepted calls from `x` on, up to but not including `x + 1`. */
  function InWindow(accepted: seq<real>, x: real): nat {
    if accepted == [] then 0
    else InWindow(accepted[..|accepted| - 1], x) + if x <= accepted[|accepted| - 1] < x + 1.0 then 1 else 0
  }

  function Ceiling(r: real): int { -((-r).Floor) }

  lemma {:induction false} WindowIsRecent(accepted: seq<real>, x: real, now: real)
    requires x <= now < x + 1.0
    ensures InWindow(accepted, x) <= |Recent(accepted, now)|
  {
    if accepted != [] {
      WindowIsRecent(accepted[..|accepted| - 1], x, now);
    }
  }

  lemma WindowSnoc(accepted: seq<real>, t: real, x: real)
    ensures InWindow(accepted + [t], x) == InWindow(accepted, x) + if x <= t < x + 1.0 then 1 else 0
  {
    assert (accepted + [t])[..|accepted|] == accepted;
  }

  /** The accepted calls, by position, from `x` on, up to but not including `x + 1`. */
  function Window(accepted: seq<real>, x: real): set<nat> {
    set k | 0 <= k < |accepted| && x <= accepted[k] < x + 1.0
  }

  /** The accepted calls, by position, less than a second before `now`. */
  function LastSecond(accepted: seq<real>, now: real): set<nat> {
    set k | 0 <= k < |accepted| && now - 1.0 < accepted[k]
  }

  lemma {:induction false} WindowIsCounted(accepted: seq<real>, x: real)
    ensures |Window(accepted, x)| == InWindow(accepted, x)
  {
    if accepted != [] {
      var n := |accepted| - 1;
      WindowIsCounted(accepted[..n], x);
      assert Window(accepted, x) == Window(accepted[..n], x) + if x <= accepted[n] < x + 1.0 then {n} else {};
    }
  }

  lemma {:induction false} RecentIsCounted(accepted: seq<real>, now: real)
    ensures |LastSecond(accepted, now)| == |Recent(accepted, now)|
  {
    if accepted != [] {
      var n := |accepted| - 1;
      RecentIsCounted(accepted[..n], now);
      assert LastSecond(accepted, now) == LastSecond(accepted[..n], now) + if now - accepted[n] < 1.0 then {n} else {};
    }
  }

  /** No second, wherever it starts, holds more accepted calls than the limit rounded up. */
  lemma EveryWindowIsBounded(times: seq<real>, rps: real, x: real)
    requires NonDecreasing(times)
    ensures |Window(Serve(times, rps).accepted, x)| <= Max(0, Ceiling(rps))
  {
    CountIsBounded(times, rps, x);
    WindowIsCounted(Serve(times, rps).accepted, x);
  }

  lemma RoomForOne(n: nat, rps: real)
    ensures n as real < rps ==> n + 1 <= Ceiling(rps)
  {
  }

  lemma {:induction false} CountIsBounded(times: seq<real>, rps: real, x: real)
    requires NonDecreasing(times)
    ensures InWindow(Serve(times, rps).accepted, x) <= Max(0, Ceiling(rps))
  {
    hide Serve, InWindow, Recent, Ceiling;
    if times == [] {
      NothingServed(rps);
      NothingInWindow(x);
    } else {
      var init, now := times[..|times| - 1], times[|times| - 1];
      var before := Serve(init, rps);
      assert NonDecreasing(init) && times == init + [now];
      CountIsBounded(init, rps, x);
      RecentBefore(times, rps);
      ServeNext(init, now, rps);
      WindowSnoc(before.accepted, now, x);
      if x <= now < x + 1.0 {
        WindowIsRecent(before.accepted, x, now);
        RoomForOne(|Recent(before.accepted, now)|, rps);
      }
    }
  }

  /** What the next call is judged by: the accepted calls of the second before it. */
  lemma RecentBefore(times: seq<real>, rps: real)
    requires times != [] && NonDecreasing(times)
    ensures var before, now := Serve(times[..|times| - 1], rps), times[|times| - 1];
            Recent(before.calls, now) == Recent(before.accepted, now)
  {
    hide Serve, Recent;
    if |times| > 1 {
      ListIsHistory(times[..|times| - 1], rps);
      RecentOfRecent(Serve(times[..|times| - 1], rps).accepted, times[|times| - 2], times[|times| - 1]);
    } else {
      assert times[..|times| - 1] == [];
      NothingServed(rps);
    }
  }

  /** A call is refused exactly when the accepted calls of the second before it reach the limit. */
  lemma RefusedExactly(times: seq<real>, rps: real)
    requires times != [] && NonDecreasing(times)
    ensures var before, now := Serve(times[..|times| - 1], rps), times[|times| - 1];
            Serve(times, rps).accepted == before.accepted <==> |LastSecond(before.accepted, now)| as real >= rps
  {
    RecentBefore(times, rps);
    RecentIsCounted(Serve(times[..|times| - 1], rps).accepted, times[|times| - 1]);
  }

  /** `time.time()` can be set back. Then a window can hold more: the list was cut at the
    * later reading and forgot calls that are recent again. */
  lemma ClockSetBackOvershoots()
    ensures |Window(Serve([0.0] + [0.1] + [5.0] + [0.2], 2.0).accepted, 0.0)| == 3
  {
    hide Serve, InWindow, Window;
    WindowIsCounted(Serve([0.0] + [0.1] + [5.0] + [0.2], 2.0).accepted, 0.0);
    AllFourAccepted();
    NothingInWindow(0.0);
    assert [] + [0.0] == [0.0];
    WindowSnoc([], 0.0, 0.0);
    WindowSnoc([0.0], 0.1, 0.0);
    WindowSnoc([0.0] + [0.1], 5.0, 0.0);
    WindowSnoc([0.0] + [0.1] + [5.0], 0.2, 0.0);
  }

  lemma AllFourAccepted()
    ensures Serve([0.0] + [0.1] + [5.0] + [0.2], 2.0).accepted == [0.0] + [0.1] + [5.0] + [0.2]
  {
    hide Serve, Recent;
    NothingRecent(0.0);
    NothingRecent(0.1);
    NothingRecent(5.0);
    NothingRecent(0.2);
    assert [] + [0.0] == [0.0] && [] + [5.0] == [5.0];
    RecentSnoc([], 0.0, 0.1);
    RecentSnoc([], 0.0, 5.0);
    RecentSnoc([0.0], 0.1, 5.0);
    RecentSnoc([], 5.0, 0.2);
    NothingServed(2.0);
    ServeNext([], 0.0, 2.0);
    ServeNext([0.0], 0.1, 2.0);
    ServeNext([0.0] + [0.1], 5.0, 2.0);
    ServeNext([0.0] + [0.1] + [5.0], 0.2, 2.0);
  }

  lemma NothingServed(rps: real)
    ensures Serve([], rps) == Past([], [])
  {
  }

  lemma NothingInWindow(x: real)
    ensures InWindow([], x) == 0
  {
  }

  lemma ServeNext(times: seq<real>, now: real, rps: real)
    ensures var before := Serve(times, rps);
            var answer := Checked(before.calls, now, rps);
            Serve(times + [now], rps)
            == Past(answer.calls, if answer.refused then before.accepted else before.accepted + [now])
  {
    assert (times + [now])[..|times|] == times;
  }
}
