/** The jobs a pool server keeps: how they arrive, go stale and expire. */
module JobRepositories {
  import opened Arithmetic
  import opened OrderedKeys
  import opened Runs

  const TWO_32: nat := 0x1_0000_0000

  datatype JobEx = JobEx(height: nat, isStale: bool)

  type Jobs = map<nat, JobEx>

  /** A delivery that has passed the age test and waits for the event loop.  `received`
      is the time of that test. */
  datatype Delivery = Delivery(id: nat, height: nat, received: nat)

  /** A job id is its time above 32 other bits. */
  function JobTime(id: nat): nat {
    id / TWO_32
  }

  /** Old enough to be cleaned away. */
  predicate Expired(id: nat, life: nat, nowTs: nat) {
    nowTs >= JobTime(id) + life
  }

  /** Too old to be taken in: one second later than that. */
  predicate TooLate(id: nat, life: nat, now: nat) {
    JobTime(id) + life < now
  }

  ghost predicate IsHighest(jobs: Jobs, id: nat) {
    id in jobs && forall k | k in jobs :: k <= id
  }

  /** Ids in order means times in order. */
  lemma LaterExpiresLater(low: nat, high: nat, life: nat, nowTs: nat)
    requires low <= high && Expired(high, life, nowTs)
    ensures Expired(low, life, nowTs)
  {
    DivMonotone(low, high, TWO_32);
  }

  /** What cleaning leaves: the jobs that have not expired, and always the newest. */
  ghost function Cleaned(jobs: Jobs, life: nat, nowTs: nat): Jobs {
    map id | id in jobs && (!Expired(id, life, nowTs) || IsHighest(jobs, id)) :: jobs[id]
  }

  function Marked(jobs: Jobs, height: nat): Jobs {
    map id | id in jobs :: if jobs[id].height <= height then jobs[id].(isStale := true) else jobs[id]
  }

  function MarkedAll(jobs: Jobs): Jobs {
    map id | id in jobs :: jobs[id].(isStale := true)
  }

  /** The consumer thread passes on what is not too late. */
  function Received(pending: seq<Delivery>, life: nat, d: Delivery): seq<Delivery> {
    if TooLate(d.id, life, d.received) then pending else pending + [d]
  }

  /** Later the event loop takes the job in, if it does not know it; one for a new block
      makes all others stale. */
  function Taken(jobs: Jobs, d: Delivery, isClean: bool): Jobs {
    if d.id in jobs then jobs
    else (if isClean then MarkedAll(jobs) else jobs)[d.id := JobEx(d.height, false)]
  }

  function Without(pending: seq<Delivery>, i: nat): seq<Delivery>
    requires i < |pending|
  {
    pending[..i] + pending[i + 1..]
  }

  /** Every delivery is handled once: the one taken and those left are all there were. */
  lemma WithoutIs(pending: seq<Delivery>, i: nat)
    requires i < |pending|
    ensures multiset(Without(pending, i)) + multiset{pending[i]} == multiset(pending)
    ensures |Without(pending, i)| == |pending| - 1
  {
    assert pending == pending[..i] + [pending[i]] + pending[i + 1..];
  }

  class JobRepository {
    const maxJobsLifeTime: nat
    var exJobs: Jobs
    var pending: seq<Delivery> // tasks dispatched to the event loop

    constructor (life: nat)
      ensures exJobs == map[] && pending == [] && maxJobsLifeTime == life
    {
      maxJobsLifeTime, exJobs, pending := life, map[], [];
    }

    /** In the consumer thread: only the age is tested here. */
    method ConsumeStratumJob(id: nat, height: nat, now: nat)
      modifies this`pending
      ensures pending == Received(old(pending), maxJobsLifeTime, Delivery(id, height, now))
    {
      if JobTime(id) + maxJobsLifeTime < now {
        return;
      }
      pending := pending + [Delivery(id, height, now)];
    }

    /** In the event loop, some time later: one of the dispatched tasks. */
    method HandleStratumJob(i: nat, isClean: bool)
      requires i < |pending|
      modifies this
      ensures pending == Without(old(pending), i)
      ensures exJobs == Taken(old(exJobs), old(pending)[i], isClean)
    {
      var d := pending[i];
      pending := Without(pending, i);
      if d.id in exJobs {
        return;
      }
      if isClean {
        exJobs := map k | k in exJobs :: exJobs[k].(isStale := true);
      }
      exJobs := exJobs[d.id := JobEx(d.height, false)];
    }

    method MarkAllJobsAsStale(height: nat)
      modifies this`exJobs
      ensures exJobs == Marked(old(exJobs), height)
    {
      var left := exJobs.Keys;
      ghost var before := exJobs;
      while left != {}
        invariant exJobs.Keys == before.Keys && left <= before.Keys
        invariant forall id | id in before ::
                    exJobs[id] == if id in left then before[id] else Marked(before, height)[id]
        decreases left
      {
        var id := Lowest(left);
        if exJobs[id].height <= height {
          exJobs := exJobs[id := exJobs[id].(isStale := true)];
        }
        left := left - {id};
      }
    }

    method TryCleanExpiredJobs(now: nat)
      modifies this`exJobs
      ensures exJobs == Cleaned(old(exJobs), maxJobsLifeTime, now % TWO_32)
    {
      var nowTs := now % TWO_32;
      ghost var before := exJobs;
      while |exJobs| > 1
        invariant exJobs.Keys <= before.Keys && (before != map[] ==> exJobs != map[])
        invariant forall id | id in exJobs :: exJobs[id] == before[id]
        invariant forall id | id in before && id !in exJobs ::
                    Expired(id, maxJobsLifeTime, nowTs) && forall k | k in exJobs :: id < k
        decreases |exJobs|
      {
        var first := Lowest(exJobs.Keys);
        if nowTs < JobTime(first) + maxJobsLifeTime {
          CleanedIs(before, exJobs, maxJobsLifeTime, nowTs, first);
          return;
        }
        assert |exJobs.Keys - {first}| > 0;
        exJobs := exJobs - {first};
      }
      OnlyOneLeft(before, exJobs, maxJobsLifeTime, nowTs);
    }
  }

  lemma CleanedIs(before: Jobs, after: Jobs, life: nat, nowTs: nat, first: nat)
    requires after.Keys <= before.Keys && forall id | id in after :: after[id] == before[id]
    requires forall id | id in before && id !in after :: Expired(id, life, nowTs) && forall k | k in after :: id < k
    requires IsLowest(after.Keys, first) && !Expired(first, life, nowTs)
    ensures after == Cleaned(before, life, nowTs)
  {
    forall id | id in after ensures !Expired(id, life, nowTs) {
      if Expired(id, life, nowTs) {
        LaterExpiresLater(first, id, life, nowTs);
      }
    }
    forall id | id in before && id !in after ensures !IsHighest(before, id) {
      assert id < first && first in before;
    }
    assert after.Keys == Cleaned(before, life, nowTs).Keys;
  }

  lemma OnlyOneLeft(before: Jobs, after: Jobs, life: nat, nowTs: nat)
    requires after.Keys <= before.Keys && forall id | id in after :: after[id] == before[id]
    requires forall id | id in before && id !in after :: Expired(id, life, nowTs) && forall k | k in after :: id < k
    requires |after| <= 1 && (before != map[] ==> after != map[])
    ensures after == Cleaned(before, life, nowTs)
  {
    if before != map[] {
      var last :| last in after;
      assert after.Keys == {last} by {
        Singleton(after.Keys, last);
      }
      assert IsHighest(before, last) by {
        forall k | k in before ensures k <= last {
          if k in after { assert k in {last}; }
        }
      }
      assert after.Keys == Cleaned(before, life, nowTs).Keys;
    }
  }

  lemma Singleton(s: set<nat>, x: nat)
    requires x in s && |s| <= 1
    ensures s == {x}
  {
    assert |s - {x}| == |s| - 1;
    assert s == (s - {x}) + {x};
  }

  // ---- Consequences ----

  /** Cleaning removes only expired jobs and never the newest one; afterwards one job
      is left or none is expired. */
  lemma CleaningIsSafe(jobs: Jobs, life: nat, nowTs: nat)
    ensures var after := Cleaned(jobs, life, nowTs);
            && (forall id | id in jobs && id !in after :: Expired(id, life, nowTs) && !IsHighest(jobs, id))
            && (jobs != map[] ==> after != map[])
            && (|after| <= 1 || forall id | id in after :: !Expired(id, life, nowTs))
  {
    var after := Cleaned(jobs, life, nowTs);
    if jobs != map[] {
      var top := Highest(jobs);
      assert top in after;
      if id :| id in after && Expired(id, life, nowTs) {
        assert id == top;
        forall k | k in after ensures k == top {
          LaterExpiresLater(k, top, life, nowTs);
        }
        assert after.Keys == {top};
      }
    } else {
      assert after == map[];
    }
  }

  lemma {:induction false} Highest(jobs: Jobs) returns (top: nat)
    requires jobs != map[]
    ensures IsHighest(jobs, top)
    decreases |jobs|
  {
    top :| top in jobs;
    var rest := jobs - {top};
    if rest != map[] {
      assert |rest| < |jobs|;
      var other := Highest(rest);
      assert forall k | k in jobs :: k == top || k in rest;
      top := if top < other then other else top;
    } else {
      assert forall k | k in jobs :: k == top || k in rest;
    }
  }

  // ---- Whole runs ----

  datatype Op =
    | Receive(id: nat, height: nat, now: nat)
    | Handle(i: nat, isClean: bool)
    | MarkStale(height: nat)
    | Clean(now: nat)

  datatype Repo = Repo(life: nat, jobs: Jobs, pending: seq<Delivery>, clock: nat)

  /** One operation; the clock never runs backwards and fits in 32 bits. */
  ghost predicate Next(s: Repo, op: Op, t: Repo) {
    match op
    case Receive(id, height, now) =>
      && s.clock <= now < TWO_32
      && t == s.(pending := Received(s.pending, s.life, Delivery(id, height, now)), clock := now)
    case Handle(i, isClean) =>
      && i < |s.pending|
      && t == s.(jobs := Taken(s.jobs, s.pending[i], isClean), pending := Without(s.pending, i))
    case MarkStale(height) => t == s.(jobs := Marked(s.jobs, height))
    case Clean(now) =>
      s.clock <= now < TWO_32 && t == s.(jobs := Cleaned(s.jobs, s.life, now % TWO_32), clock := now)
  }

  /** No share for this job counts as fresh: it is stale, or it has been cleaned away. */
  ghost predicate Over(s: Repo, id: nat) {
    if id in s.jobs then s.jobs[id].isStale else Expired(id, s.life, s.clock)
  }

  /** A delivery of this job is handled while the job is not there. */
  ghost predicate Revives(s: Repo, op: Op, id: nat) {
    op.Handle? && op.i < |s.pending| && s.pending[op.i].id == id && id !in s.jobs
  }

  /** This operation cleans the job away. */
  ghost predicate CleansAway(s: Repo, op: Op, id: nat) {
    op.Clean? && id in s.jobs && id !in Cleaned(s.jobs, s.life, op.now % TWO_32)
  }

  /** A stale mark never reverts, except in that one case. */
  lemma OverStays(s: Repo, op: Op, t: Repo, id: nat)
    requires Over(s, id) && Next(s, op, t)
    ensures Over(t, id) <==> !Revives(s, op, id)
  {
  }

  lemma AlwaysOver(states: seq<Repo>, ops: seq<Op>, id: nat, n: nat)
    requires IsRun((s, op, t) => Next(s, op, t) && !Revives(s, op, id), states, ops) && n <= |ops|
    requires Over(states[0], id)
    ensures Over(states[n], id)
  {
    var next := (s, op, t) => Next(s, op, t) && !Revives(s, op, id);
    var over := s => Over(s, id);
    forall s, op, t | over(s) && next(s, op, t) ensures over(t) {
      OverStays(s, op, t, id);
    }
    Throughout(next, over, states, ops, n);
  }

  // ---- Which jobs go stale ----

  ghost predicate Fresh(s: Repo, id: nat) {
    id in s.jobs && !s.jobs[id].isStale
  }

  /** Marking by height leaves the jobs there are; exactly those up to it are stale now
      that were not before. */
  lemma MarkingIs(jobs: Jobs, height: nat, id: nat)
    ensures Marked(jobs, height).Keys == jobs.Keys
    ensures id in jobs ==>
              && Marked(jobs, height)[id].height == jobs[id].height
              && (Marked(jobs, height)[id].isStale <==> jobs[id].isStale || jobs[id].height <= height)
  {
  }

  /** A fresh job that is still there goes stale by a height that reaches it or by a new
      block, and by nothing else. */
  lemma StaleNeeds(s: Repo, op: Op, t: Repo, id: nat)
    requires Fresh(s, id) && Next(s, op, t) && id in t.jobs
    ensures Fresh(t, id) <==>
            !(op.MarkStale? && s.jobs[id].height <= op.height) &&
            !(op.Handle? && op.isClean && s.pending[op.i].id !in s.jobs)
    ensures t.jobs[id].height == s.jobs[id].height
  {
  }

  /** After a height has been marked, no job up to it counts as fresh, until a delivery
      of it is handled while it is not there. */
  lemma {:induction false} MarkedStays(states: seq<Repo>, ops: seq<Op>, id: nat, n: nat)
    requires IsRun(Next, states, ops) && 0 < n <= |ops|
    requires ops[0].MarkStale? && id in states[0].jobs && states[0].jobs[id].height <= ops[0].height
    requires forall k | 0 < k < n :: !Revives(states[k], ops[k], id)
    ensures Over(states[n], id) && !Fresh(states[n], id)
    decreases n
  {
    assert Next(states[n - 1], ops[n - 1], states[n]);
    if n > 1 {
      MarkedStays(states, ops, id, n - 1);
      OverStays(states[n - 1], ops[n - 1], states[n], id);
    }
  }

  // ---- When a job can come back ----

  /** Everything that waits was received in time. */
  ghost predicate AllInTime(s: Repo) {
    forall i | 0 <= i < |s.pending| ::
      s.pending[i].received <= JobTime(s.pending[i].id) + s.life && s.pending[i].received <= s.clock
  }

  lemma NextInTime(s: Repo, op: Op, t: Repo)
    requires AllInTime(s) && Next(s, op, t)
    ensures AllInTime(t)
  {
    if op.Handle? {
      forall i | 0 <= i < |t.pending| ensures t.pending[i] in s.pending {
      }
    }
  }

  lemma AlwaysInTime(states: seq<Repo>, ops: seq<Op>, n: nat)
    requires IsRun(Next, states, ops) && n <= |ops| && AllInTime(states[0])
    ensures AllInTime(states[n])
  {
    forall s, op, t | AllInTime(s) && Next(s, op, t) ensures AllInTime(t) {
      NextInTime(s, op, t);
    }
    Throughout(Next, AllInTime, states, ops, n);
  }

  lemma {:induction false} SameLife(states: seq<Repo>, ops: seq<Op>, n: nat)
    requires IsRun(Next, states, ops) && n <= |ops|
    ensures states[n].life == states[0].life
  {
    if n > 0 {
      SameLife(states, ops, n - 1);
      assert Next(states[n - 1], ops[n - 1], states[n]);
    }
  }

  /** A job disappears only by cleaning, and only once it has expired. */
  lemma {:induction false} Disappears(states: seq<Repo>, ops: seq<Op>, id: nat, n: nat) returns (c: nat)
    requires IsRun(Next, states, ops) && n <= |ops|
    requires id in states[0].jobs && id !in states[n].jobs
    ensures c < n && CleansAway(states[c], ops[c], id) && ops[c].now >= JobTime(id) + states[0].life
  {
    assert Next(states[n - 1], ops[n - 1], states[n]);
    if id in states[n - 1].jobs {
      c := n - 1;
      SameLife(states, ops, c);
    } else {
      c := Disappears(states, ops, id, n - 1);
    }
  }

  /** If a stale job is fresh again, then it was cleaned away at or after its time plus
      its life, and after that a delivery was handled that had been received no later
      than that moment. */
  lemma {:induction false} ComeBackNeeds(states: seq<Repo>, ops: seq<Op>, id: nat, n: nat) returns (c: nat, k: nat)
    requires IsRun(Next, states, ops) && n <= |ops| && AllInTime(states[0])
    requires id in states[0].jobs && states[0].jobs[id].isStale && !Over(states[n], id)
    ensures c < k < n && CleansAway(states[c], ops[c], id) && Revives(states[k], ops[k], id)
    ensures states[k].pending[ops[k].i].received <= JobTime(id) + states[0].life <= ops[c].now
  {
    k := Revival(states, ops, id, n);
    c := Disappears(states, ops, id, k);
    AlwaysInTime(states, ops, k);
    SameLife(states, ops, k);
  }

  lemma {:induction false} Revival(states: seq<Repo>, ops: seq<Op>, id: nat, n: nat) returns (k: nat)
    requires IsRun(Next, states, ops) && n <= |ops|
    requires Over(states[0], id) && !Over(states[n], id)
    ensures k < n && Revives(states[k], ops[k], id)
  {
    assert Next(states[n - 1], ops[n - 1], states[n]);
    if Over(states[n - 1], id) {
      k := n - 1;
      OverStays(states[k], ops[k], states[n], id);
    } else {
      k := Revival(states, ops, id, n - 1);
    }
  }

  lemma ReceiveStep(life: nat, jobs: Jobs, d: Delivery)
    requires !TooLate(d.id, life, d.received) && d.received < TWO_32
    ensures var op := Receive(d.id, d.height, d.received);
            Next(Repo(life, jobs, [], d.received), op, Repo(life, jobs, [d], d.received))
  {
    assert [] + [d] == [d];
  }

  lemma HandleStep(life: nat, jobs: Jobs, d: Delivery, isClean: bool, clock: nat, jobs': Jobs)
    requires d.id !in jobs && jobs' == (if isClean then MarkedAll(jobs) else jobs)[d.id := JobEx(d.height, false)]
    ensures Next(Repo(life, jobs, [d], clock), Handle(0, isClean), Repo(life, jobs', [], clock))
  {
    assert Without([d], 0) == [];
  }

  lemma CleanStep(s: Repo, a: nat, b: nat, cleaned: nat)
    requires a < b && s.jobs.Keys == {a, b} && Expired(a, s.life, cleaned) && s.clock <= cleaned < TWO_32
    ensures Next(s, Clean(cleaned), s.(jobs := map[b := s.jobs[b]], clock := cleaned))
  {
    ModUnique(cleaned, TWO_32, 0, cleaned);
    assert IsHighest(s.jobs, b) && !IsHighest(s.jobs, a);
    assert Cleaned(s.jobs, s.life, cleaned) == map[b := s.jobs[b]];
  }

  /** A stale job, taken in before and with one more delivery of it on its way. */
  ghost function StaleAgain(a: nat, b: nat, life: nat, received: nat): Repo {
    Repo(life, map[a := JobEx(7, true), b := JobEx(8, false)], [Delivery(a, 7, received)], received)
  }

  lemma ReachStale(a: nat, b: nat, life: nat, received: nat)
    requires a < b && JobTime(a) == JobTime(b) && received <= JobTime(a) + life && received < TWO_32
    ensures exists ops :: Leads(Next, Repo(life, map[], [], received), ops, StaleAgain(a, b, life, received))
  {
    var d, e := Delivery(a, 7, received), Delivery(b, 8, received);
    var none: Jobs := map[];
    var one, both := map[a := JobEx(7, false)], map[a := JobEx(7, true), b := JobEx(8, false)];
    var start := Repo(life, none, [], received);
    var take, takeOther := Receive(a, 7, received), Receive(b, 8, received);
    LeadsNowhere<Repo, Op>(Next, start);
    ReceiveStep(life, none, d);
    LeadsOn(Next, start, [], start, take, Repo(life, none, [d], received));
    HandleStep(life, none, d, true, received, one);
    LeadsOn(Next, start, [] + [take], Repo(life, none, [d], received), Handle(0, true), Repo(life, one, [], received));
    ReceiveStep(life, one, e);
    var ops := [] + [take] + [Handle(0, true)];
    LeadsOn(Next, start, ops, Repo(life, one, [], received), takeOther, Repo(life, one, [e], received));
    HandleStep(life, one, e, true, received, both);
    ops := ops + [takeOther];
    LeadsOn(Next, start, ops, Repo(life, one, [e], received), Handle(0, true), Repo(life, both, [], received));
    ReceiveStep(life, both, d);
    ops := ops + [Handle(0, true)];
    LeadsOn(Next, start, ops, Repo(life, both, [], received), take, StaleAgain(a, b, life, received));
  }

  /** Both times are all it takes: for every moment of receipt up to the time of the job
      plus its life, and every moment of cleaning from there on, a job can be taken in,
      go stale, be cleaned away and be taken in again, fresh. */
  lemma JobCanComeBack(time: nat, life: nat, received: nat, cleaned: nat)
    requires received <= time + life <= cleaned < TWO_32
    ensures exists ops, s, t ::
              var id := time * TWO_32;
              && Leads(Next, Repo(life, map[], [], received), ops, s)
              && id in s.jobs && s.jobs[id].isStale
              && Leads(Next, s, [Clean(cleaned), Handle(0, false)], t)
              && id in t.jobs && !t.jobs[id].isStale
  {
    var a, b := time * TWO_32, time * TWO_32 + 1;
    ModUnique(a, TWO_32, time, 0);
    ModUnique(b, TWO_32, time, 1);
    ReachStale(a, b, life, received);
    var s, d := StaleAgain(a, b, life, received), Delivery(a, 7, received);
    var last := map[b := JobEx(8, false)];
    var cleanedUp, t := Repo(life, last, [d], cleaned), Repo(life, last[a := JobEx(7, false)], [], cleaned);
    CleanStep(s, a, b, cleaned);
    HandleStep(life, last, d, false, cleaned, t.jobs);
    LeadsNowhere<Repo, Op>(Next, s);
    LeadsOn(Next, s, [], s, Clean(cleaned), cleanedUp);
    LeadsOn(Next, s, [] + [Clean(cleaned)], cleanedUp, Handle(0, false), t);
    assert [] + [Clean(cleaned)] + [Handle(0, false)] == [Clean(cleaned), Handle(0, false)];
  }
}
