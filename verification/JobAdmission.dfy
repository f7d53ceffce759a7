/** Every interleaving of `submit` with sweeps and status changes. The spawn runs
  * outside the lock, so many submits can be between their check and their insert. */
module JobAdmission {
  import opened Base
  import opened JobTable

  /** A submit that passed the check: reserved, its record inserted, its spawn failed,
    * or its reservation given back. */
  datatype Submit = Reserved | Inserted | Raised | Gone

  datatype World = World(jobs: map<JobId, Job>, pending: int, submits: seq<Submit>)

  datatype Label =
    | Check
    | Insert(i: nat, id: JobId)
    | SpawnRaises(i: nat)
    | Release(i: nat)
    | Update(id: JobId, rec: Job)
    | Sweep(now: real, ttl: real)

  predicate Enabled(w: World, l: Label) {
    match l
    case Check => true
    case Insert(i, id) => i < |w.submits| && w.submits[i] == Reserved && id !in w.jobs
    case SpawnRaises(i) => i < |w.submits| && w.submits[i] == Reserved
    case Release(i) => i < |w.submits| && (w.submits[i] == Inserted || w.submits[i] == Raised)
    // A poll or a cancel commits.
    case Update(id, _) => id in w.jobs
    case Sweep(_, _) => true
  }

  function Apply(w: World, l: Label, maxLive: int): World
    requires Enabled(w, l)
  {
    match l
    case Check =>
      if |LiveIds(w.jobs)| + w.pending >= maxLive then w
      else w.(pending := w.pending + 1, submits := w.submits + [Reserved])
    case Insert(i, id) => w.(jobs := w.jobs[id := FRESH], submits := w.submits[i := Inserted])
    case SpawnRaises(i) => w.(submits := w.submits[i := Raised])
    case Release(i) => w.(pending := w.pending - 1, submits := w.submits[i := Gone])
    case Update(id, rec) => w.(jobs := w.jobs[id := rec])
    case Sweep(now, ttl) => w.(jobs := Swept(w.jobs, now, ttl))
  }

  /** A job once ended is taken for running again. */
  predicate Revives(w: World, l: Label)
    requires Enabled(w, l)
  {
    l.Update? && Terminal(w.jobs[l.id].status) && !Terminal(l.rec.status)
  }

  function Count(submits: seq<Submit>, s: Submit): nat { multiset(submits)[s] }

  /** Live jobs, and submits that will become one unless their spawn fails. */
  function Committed(w: World): nat { |LiveIds(w.jobs)| + Count(w.submits, Reserved) }

  predicate Inv(w: World, bound: int) {
    && w.pending == Count(w.submits, Reserved) + Count(w.submits, Inserted) + Count(w.submits, Raised)
    && Committed(w) <= bound
  }

  /** One submit moves on. */
  lemma Moves(submits: seq<Submit>, i: nat, s: Submit)
    requires i < |submits| && submits[i] != s
    ensures Count(submits[i := s], s) == Count(submits, s) + 1
    ensures Count(submits[i := s], submits[i]) == Count(submits, submits[i]) - 1
    ensures forall t :: t != s && t != submits[i] ==> Count(submits[i := s], t) == Count(submits, t)
  {
    assert submits[i] in multiset(submits);
    assert multiset(submits[i := s]) == multiset(submits) - multiset{submits[i]} + multiset{s};
  }

  lemma Arrives(submits: seq<Submit>)
    ensures Count(submits + [Reserved], Reserved) == Count(submits, Reserved) + 1
    ensures forall t :: t != Reserved ==> Count(submits + [Reserved], t) == Count(submits, t)
  {
  }

  lemma SubmitStepKeeps(w: World, l: Label, maxLive: int, bound: int)
    requires Inv(w, bound) && Enabled(w, l) && maxLive <= bound && !l.Update? && !l.Sweep?
    ensures Inv(Apply(w, l, maxLive), bound)
  {
    hide Count;
    match l
    case Check => Arrives(w.submits);
    case Insert(i, id) =>
      assert LiveIds(w.jobs[id := FRESH]) == LiveIds(w.jobs) + {id};
      Moves(w.submits, i, Inserted);
    case SpawnRaises(i) => Moves(w.submits, i, Raised);
    case Release(i) => Moves(w.submits, i, Gone);
  }

  lemma StepKeeps(w: World, l: Label, maxLive: int, bound: int)
    requires Inv(w, bound) && Enabled(w, l) && maxLive <= bound
    ensures Inv(Apply(w, l, maxLive), if Revives(w, l) then bound + 1 else bound)
  {
    hide Count;
    if l.Update? {
      UpdateKeeps(w.jobs, l.id, l.rec);
    } else if l.Sweep? {
      assert LiveIds(Swept(w.jobs, l.now, l.ttl)) == LiveIds(w.jobs);
    } else {
      SubmitStepKeeps(w, l, maxLive, bound);
    }
  }

  lemma UpdateKeeps(jobs: map<JobId, Job>, id: JobId, rec: Job)
    requires id in jobs
    ensures var revives := Terminal(jobs[id].status) && !Terminal(rec.status);
            |LiveIds(jobs[id := rec])| <= |LiveIds(jobs)| + if revives then 1 else 0
  {
    if Terminal(jobs[id].status) && !Terminal(rec.status) {
      assert LiveIds(jobs[id := rec]) == LiveIds(jobs) + {id};
    } else {
      SubsetIsSmaller(LiveIds(jobs[id := rec]), LiveIds(jobs));
    }
  }

  predicate IsRun(w: World, labels: seq<Label>, maxLive: int)
    decreases |labels|
  {
    labels != [] ==> Enabled(w, labels[0]) && IsRun(Apply(w, labels[0], maxLive), labels[1..], maxLive)
  }

  function After(w: World, labels: seq<Label>, maxLive: int): World
    requires IsRun(w, labels, maxLive)
    decreases |labels|
  {
    if labels == [] then w else After(Apply(w, labels[0], maxLive), labels[1..], maxLive)
  }

  /** How often a run takes an ended job for running again. */
  function Revivals(w: World, labels: seq<Label>, maxLive: int): nat
    requires IsRun(w, labels, maxLive)
    decreases |labels|
  {
    if labels == [] then 0
    else (if Revives(w, labels[0]) then 1 else 0) + Revivals(Apply(w, labels[0], maxLive), labels[1..], maxLive)
  }

  lemma {:induction false} RunKeeps(w: World, labels: seq<Label>, maxLive: int, bound: int)
    requires Inv(w, bound) && IsRun(w, labels, maxLive) && maxLive <= bound
    ensures Inv(After(w, labels, maxLive), bound + Revivals(w, labels, maxLive))
    decreases |labels|
  {
    hide Inv, Revives;
    if labels != [] {
      StepKeeps(w, labels[0], maxLive, bound);
      RunKeeps(Apply(w, labels[0], maxLive), labels[1..], maxLive, if Revives(w, labels[0]) then bound + 1 else bound);
    }
  }

  /** From any table (one reloaded at start-up may already be over the cap) with no submit in
    * flight, live jobs and reservations never exceed the cap or what there was by more than
    * the number of ended jobs taken for running again, so not at all when there is none; and
    * with no submit in flight nothing stays reserved. */
  lemma NeverOvershoots(jobs: map<JobId, Job>, labels: seq<Label>, maxLive: int)
    requires IsRun(World(jobs, 0, []), labels, maxLive)
    ensures var w := After(World(jobs, 0, []), labels, maxLive);
            && Committed(w) <= Max(maxLive, |LiveIds(jobs)|) + Revivals(World(jobs, 0, []), labels, maxLive)
            && w.pending >= Count(w.submits, Reserved)
            && ((forall k :: 0 <= k < |w.submits| ==> w.submits[k] == Gone) <==> w.pending == 0)
  {
    hide Count, IsRun, After, LiveIds, Revivals;
    NoneYet();
    RunKeeps(World(jobs, 0, []), labels, maxLive, Max(maxLive, |LiveIds(jobs)|));
    NoneLeft(After(World(jobs, 0, []), labels, maxLive).submits);
  }

  lemma NoneYet()
    ensures forall s :: Count([], s) == 0
  {
  }

  lemma NoneLeft(submits: seq<Submit>)
    ensures (forall k :: 0 <= k < |submits| ==> submits[k] == Gone) <==>
            Count(submits, Reserved) + Count(submits, Inserted) + Count(submits, Raised) == 0
  {
    assert forall k :: 0 <= k < |submits| ==> submits[k] in multiset(submits);
    assert forall s :: s in multiset(submits) ==> s in submits;
  }

  // ---------------------------------------------------------------------
  // A run that passes the cap
  // ---------------------------------------------------------------------

  lemma {:induction false} RunOn(w: World, a: seq<Label>, l: Label, maxLive: int)
    requires IsRun(w, a, maxLive) && Enabled(After(w, a, maxLive), l)
    ensures IsRun(w, a + [l], maxLive) && After(w, a + [l], maxLive) == Apply(After(w, a, maxLive), l, maxLive)
    ensures var last := After(w, a, maxLive);
            Revivals(w, a + [l], maxLive) == Revivals(w, a, maxLive) + if Revives(last, l) then 1 else 0
    decreases |a|
  {
    hide Enabled, Apply, Revives;
    if a == [] {
      assert [] + [l] == [l] && [l][1..] == [];
    } else {
      assert (a + [l])[1..] == a[1..] + [l];
      RunOn(Apply(w, a[0], maxLive), a[1..], l, maxLive);
    }
  }

  lemma NoLabels(w: World, maxLive: int)
    ensures IsRun(w, [], maxLive) && After(w, [], maxLive) == w && Revivals(w, [], maxLive) == 0
  {
  }

  lemma FreshAdds(jobs: map<JobId, Job>, id: JobId)
    requires id !in jobs
    ensures |LiveIds(jobs[id := FRESH])| == |LiveIds(jobs)| + 1
  {
    assert LiveIds(jobs[id := FRESH]) == LiveIds(jobs) + {id};
  }

  lemma EndTakesAway(jobs: map<JobId, Job>, id: JobId, ended: Job)
    requires id !in jobs && Terminal(ended.status)
    ensures |LiveIds(jobs[id := ended])| == |LiveIds(jobs)|
  {
    assert LiveIds(jobs[id := ended]) == LiveIds(jobs);
  }

  lemma RevivalAdds(jobs: map<JobId, Job>, id: JobId, rec: Job)
    requires id in jobs && Terminal(jobs[id].status) && !Terminal(rec.status)
    ensures |LiveIds(jobs[id := rec])| == |LiveIds(jobs)| + 1
  {
    assert LiveIds(jobs[id := rec]) == LiveIds(jobs) + {id};
  }

  /** The bound is reached: from any table with one slot left, job `a` is submitted and
    * recorded ended, job `b` takes its slot, and then a poll that began earlier commits
    * `a` as running: one revival, and one live job more than the cap allows. */
  lemma RevivalPassesTheCap(jobs: map<JobId, Job>, a: JobId, b: JobId, ended: Job, revived: Job, maxLive: int)
    returns (labels: seq<Label>)
    requires a !in jobs && b !in jobs && a != b && |LiveIds(jobs)| + 1 == maxLive
    requires Terminal(ended.status) && !Terminal(revived.status)
    ensures IsRun(World(jobs, 0, []), labels, maxLive) && Revivals(World(jobs, 0, []), labels, maxLive) == 1
    ensures After(World(jobs, 0, []), labels, maxLive).jobs == jobs[a := revived][b := FRESH]
    ensures |LiveIds(After(World(jobs, 0, []), labels, maxLive).jobs)| == maxLive + 1
  {
    hide Count, IsRun, After, Revivals, LiveIds;
    labels := SlotGivenAway(jobs, a, b, ended, maxLive);
    var full := jobs[a := ended][b := FRESH];
    EndTakesAway(jobs, a, ended);
    FreshAdds(jobs[a := ended], b);
    RevivalAdds(full, a, revived);
    RunOn(World(jobs, 0, []), labels, Update(a, revived), maxLive);
    labels := labels + [Update(a, revived)];
    assert full[a := revived] == jobs[a := revived][b := FRESH];
  }

  lemma FirstJobEnds(jobs: map<JobId, Job>, a: JobId, ended: Job, maxLive: int) returns (labels: seq<Label>)
    requires a !in jobs && |LiveIds(jobs)| < maxLive && Terminal(ended.status)
    ensures IsRun(World(jobs, 0, []), labels, maxLive)
    ensures After(World(jobs, 0, []), labels, maxLive) == World(jobs[a := ended], 0, [Gone])
    ensures Revivals(World(jobs, 0, []), labels, maxLive) == 0
  {
    hide LiveIds, Count, IsRun, After, Revivals;
    var w := World(jobs, 0, []);
    assert jobs[a := FRESH][a := ended] == jobs[a := ended];
    NoLabels(w, maxLive);
    RunOn(w, [], Check, maxLive);
    assert [] + [Reserved] == [Reserved];
    labels := [] + [Check];
    RunOn(w, labels, Insert(0, a), maxLive);
    assert [Reserved][0 := Inserted] == [Inserted] && [Inserted][0 := Gone] == [Gone];
    labels := labels + [Insert(0, a)];
    RunOn(w, labels, Release(0), maxLive);
    labels := labels + [Release(0)];
    RunOn(w, labels, Update(a, ended), maxLive);
    labels := labels + [Update(a, ended)];
  }

  lemma SlotGivenAway(jobs: map<JobId, Job>, a: JobId, b: JobId, ended: Job, maxLive: int) returns (labels: seq<Label>)
    requires a !in jobs && b !in jobs && a != b && |LiveIds(jobs)| < maxLive && Terminal(ended.status)
    ensures IsRun(World(jobs, 0, []), labels, maxLive)
    ensures After(World(jobs, 0, []), labels, maxLive) == World(jobs[a := ended][b := FRESH], 0, [Gone, Gone])
    ensures Revivals(World(jobs, 0, []), labels, maxLive) == 0
  {
    hide LiveIds, Count, IsRun, After, Revivals;
    EndTakesAway(jobs, a, ended);
    var w := World(jobs, 0, []);
    labels := FirstJobEnds(jobs, a, ended, maxLive);
    RunOn(w, labels, Check, maxLive);
    labels := labels + [Check];
    assert [Gone] + [Reserved] == [Gone, Reserved];
    RunOn(w, labels, Insert(1, b), maxLive);
    labels := labels + [Insert(1, b)];
    assert [Gone, Reserved][1 := Inserted][1 := Gone] == [Gone, Gone];
    RunOn(w, labels, Release(1), maxLive);
    labels := labels + [Release(1)];
  }
}
