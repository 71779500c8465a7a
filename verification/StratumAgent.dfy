/** Miners behind an agent connection: one difficulty controller per session, the
    difficulty recorded for each job, and the frames that keep the agent informed. */
module StratumAgent {
  import opened Powers
  import opened Runs
  import opened StatsWindows
  import opened DiffControl
  import opened DiffControlLaws
  import opened DiffControlRuns
  import opened DiffControlMeasures

  type JobId = nat

  /** What the session tells a miner about NiceHash limits. */
  datatype NiceHash = NiceHash(forced: bool, minDiff: nat)

  /** Integer part of the base-2 logarithm. */
  function Log2(n: nat): (r: nat)
    requires n > 0
    ensures Pow2(r) <= n < 2 * Pow2(r)
  {
    if n == 1 then 0 else 1 + Log2(n / 2)
  }

  lemma Log2OfPow2(x: nat)
    requires IsPow2(x)
    ensures Pow2(Log2(x)) == x
  {
    if Pow2(Log2(x)) < x {
      NextPow2(Pow2(Log2(x)), x);
    }
  }

  lemma Log2Below(x: nat, n: nat)
    requires 0 < x < Pow2(n)
    ensures Log2(x) < n
  {
    if n < Log2(x) {
      Pow2Grows(n, Log2(x));
    }
  }

  // ---- One miner ----

  datatype Miner = Miner(
    controller: Controller, curDiff: nat, overrideDifficulty: bool, isNiceHash: bool,
    jobDiffs: map<JobId, nat>)
  {
    /** Difficulties are powers of two within the controller's bounds; none is set
        before the first job. */
    ghost predicate Valid() {
      && Invariant(controller)
      && (curDiff != 0 ==> IsPow2(curDiff) && curDiff <= MAX_ALLOWED)
    }

    /** The exponent the agent should know. */
    function Exponent(): nat {
      if curDiff == 0 then 0 else Log2(curDiff)
    }

    function SetMinDiff(diff: nat): Miner {
      this.(overrideDifficulty := true, controller := controller.SetMinDiff(diff))
    }

    function ResetCurDiff(diff: nat): Miner {
      this.(controller := controller.ResetCurDiff(diff))
    }

    /** Without a minimum of its own, a NiceHash miner gets the session's. */
    function Limited(nice: NiceHash): Controller {
      if !overrideDifficulty && (nice.forced || isNiceHash) then controller.SetMinDiff(nice.minDiff) else controller
    }

    function CalcCurDiff(nice: NiceHash, now: nat): Miner
      requires controller.Valid() && now > 0
    {
      var c := Limited(nice).CalcCurDiff(now);
      this.(controller := c, curDiff := c.Answer())
    }

    function AddLocalJob(job: JobId, nice: NiceHash, now: nat): Miner
      requires controller.Valid() && now > 0
    {
      var m := CalcCurDiff(nice, now);
      m.(jobDiffs := m.jobDiffs[job := m.curDiff])
    }

    function RemoveLocalJob(job: JobId): Miner {
      this.(jobDiffs := jobDiffs - {job})
    }
  }

  /** A new job is recorded with a difficulty that is exactly two to the exponent. */
  lemma AddLocalJobKeeps(m: Miner, job: JobId, nice: NiceHash, now: nat)
    requires m.Valid() && IsPow2(nice.minDiff) && now > 0
    ensures var m' := m.AddLocalJob(job, nice, now);
            && m'.Valid() && m'.curDiff > 0
            && m'.Exponent() < 64
            && m'.jobDiffs == m.jobDiffs[job := Pow2(m'.Exponent())]
  {
    ClampKeepsPow2(m.controller, nice.minDiff);
    CalcKeeps(m.Limited(nice), now);
    var m' := m.AddLocalJob(job, nice, now);
    Log2OfPow2(m'.curDiff);
    var n := Exponent64();
    Log2Below(m'.curDiff, n);
  }

  /** The miner in place, owning its controller. */
  class StratumMiner {
    const diffController: DiffController
    var curDiff: nat
    const isNiceHashClient: bool
    var overrideDifficulty: bool
    var jobDiffs: map<JobId, nat>

    ghost function Repr(): set<object>
      reads this
    {
      {this, diffController, diffController.sharesNum, diffController.sharesNum.elements,
       diffController.shares, diffController.shares.elements}
    }

    ghost function Value(): Miner
      reads Repr()
    {
      Miner(diffController.Value(), curDiff, overrideDifficulty, isNiceHashClient, jobDiffs)
    }

    ghost predicate Valid()
      reads Repr()
    {
      diffController.Valid()
    }

    /** A private copy of the default controller, and a difficulty for every job the
        session already has. */
    constructor (defaultController: DiffController, isNiceHash: bool, jobs: seq<JobId>, nice: NiceHash, now: nat)
      requires defaultController.Valid() && now >= defaultController.kDiffWindow && now > 0
      ensures Valid() && fresh(Repr())
      ensures Value() == NewMiner(old(defaultController.Value()), isNiceHash, jobs, nice, now)
      ensures Invariant(old(defaultController.Value())) && IsPow2(nice.minDiff) ==> Value().Valid()
    {
      diffController := new DiffController.Copy(defaultController);
      curDiff, overrideDifficulty, isNiceHashClient, jobDiffs := 0, false, isNiceHash, map[];
      new;
      ghost var first := Value();
      for i := 0 to |jobs|
        invariant Valid() && fresh(Repr())
        invariant Value() == AddJobs(first, jobs[..i], nice, now)
      {
        assert jobs[..i + 1][..i] == jobs[..i];
        var _ := AddLocalJob(jobs[i], nice, now);
      }
      assert jobs[..|jobs|] == jobs;
      if Invariant(old(defaultController.Value())) && IsPow2(nice.minDiff) {
        NewMinerIs(old(defaultController.Value()), isNiceHash, jobs, nice, now);
      }
    }

    method SetMinDiff(diff: nat)
      requires Valid()
      modifies Repr()
      ensures Valid() && Value() == old(Value()).SetMinDiff(diff)
    {
      overrideDifficulty := true;
      diffController.SetMinDiff(diff);
    }

    method ResetCurDiff(diff: nat)
      requires Valid()
      modifies Repr()
      ensures Valid() && Value() == old(Value()).ResetCurDiff(diff)
    {
      diffController.ResetCurDiff(diff);
    }

    method CalcCurDiff(nice: NiceHash, now: nat) returns (diff: nat)
      requires Valid() && now >= diffController.kDiffWindow && now > 0
      modifies Repr()
      ensures Valid() && Value() == old(Value()).CalcCurDiff(nice, now) && diff == curDiff
      ensures diff >= diffController.minDiff && diff >= diffController.curDiff
    {
      if !overrideDifficulty && (nice.forced || isNiceHashClient) {
        diffController.SetMinDiff(nice.minDiff);
      }
      curDiff := diffController.CalcCurDiff(now);
      diff := curDiff;
    }

    method AddLocalJob(job: JobId, nice: NiceHash, now: nat) returns (diff: nat)
      requires Valid() && now >= diffController.kDiffWindow && now > 0
      modifies Repr()
      ensures Valid() && Value() == old(Value()).AddLocalJob(job, nice, now) && diff == curDiff
    {
      diff := CalcCurDiff(nice, now);
      jobDiffs := jobDiffs[job := diff];
    }

    method RemoveLocalJob(job: JobId)
      requires Valid()
      modifies this
      ensures Valid() && Value() == old(Value()).RemoveLocalJob(job)
    {
      jobDiffs := jobDiffs - {job};
    }
  }

  function AddJobs(m: Miner, jobs: seq<JobId>, nice: NiceHash, now: nat): (r: Miner)
    requires m.controller.Valid() && now > 0
    ensures r.controller.Valid()
  {
    if jobs == [] then m else AddJobs(m, jobs[..|jobs| - 1], nice, now).AddLocalJob(jobs[|jobs| - 1], nice, now)
  }

  function NewMiner(c: Controller, isNiceHash: bool, jobs: seq<JobId>, nice: NiceHash, now: nat): Miner
    requires c.Valid() && now > 0
  {
    AddJobs(Miner(c.Copied(), 0, false, isNiceHash, map[]), jobs, nice, now)
  }

  lemma {:induction false} AddJobsKeeps(m: Miner, jobs: seq<JobId>, nice: NiceHash, now: nat)
    requires m.Valid() && IsPow2(nice.minDiff) && now > 0
    ensures AddJobs(m, jobs, nice, now).Valid()
  {
    if jobs != [] {
      AddJobsKeeps(m, jobs[..|jobs| - 1], nice, now);
      AddLocalJobKeeps(AddJobs(m, jobs[..|jobs| - 1], nice, now), jobs[|jobs| - 1], nice, now);
    }
  }

  /** A new miner of a well-configured server is valid, whatever jobs there are. */
  lemma NewMinerIs(c: Controller, isNiceHash: bool, jobs: seq<JobId>, nice: NiceHash, now: nat)
    requires Invariant(c) && IsPow2(nice.minDiff) && now > 0
    ensures NewMiner(c, isNiceHash, jobs, nice, now).Valid()
  {
    var own := c.Copied();
    assert Invariant(own);
    AddJobsKeeps(Miner(own, 0, false, isNiceHash, map[]), jobs, nice, now);
  }

  // ---- A miner at the maximum ----

  /** A NiceHash miner without a minimum of its own, where the NiceHash minimum is no
      less than the configured maximum. */
  ghost predicate Pinned(m: Miner, nice: NiceHash, max: nat) {
    && m.Valid() && IsPow2(nice.minDiff)
    && !m.overrideDifficulty && (nice.forced || m.isNiceHash)
    && m.controller.kMaxDiff == max <= nice.minDiff
  }

  /** Every job gets the maximum. */
  lemma PinnedStays(m: Miner, nice: NiceHash, max: nat, job: JobId, now: nat)
    requires Pinned(m, nice, max) && now > 0
    ensures var m' := m.AddLocalJob(job, nice, now); Pinned(m', nice, max) && m'.curDiff == max
  {
    AddLocalJobKeeps(m, job, nice, now);
    var c := m.Limited(nice);
    ClampKeepsPow2(m.controller, nice.minDiff);
    CalcKeeps(c, now);
    StepFrame(c, CalcCurDiff(now), c.CalcCurDiff(now));
  }

  lemma {:induction false} PinnedMiner(m: Miner, nice: NiceHash, max: nat, jobs: seq<JobId>, now: nat)
    requires Pinned(m, nice, max) && now > 0
    ensures var m' := AddJobs(m, jobs, nice, now); Pinned(m', nice, max) && (jobs != [] ==> m'.curDiff == max)
  {
    if jobs != [] {
      var rest := AddJobs(m, jobs[..|jobs| - 1], nice, now);
      PinnedMiner(m, nice, max, jobs[..|jobs| - 1], now);
      PinnedStays(rest, nice, max, jobs[|jobs| - 1], now);
    }
  }

  lemma NewPinnedMiner(c: Controller, isNiceHash: bool, jobs: seq<JobId>, nice: NiceHash, now: nat)
    requires Invariant(c) && IsPow2(nice.minDiff) && now > 0 && jobs != []
    requires (nice.forced || isNiceHash) && c.kMaxDiff <= nice.minDiff
    ensures var m := NewMiner(c, isNiceHash, jobs, nice, now); Pinned(m, nice, c.kMaxDiff) && m.curDiff == c.kMaxDiff
  {
    var own := c.Copied();
    assert Invariant(own);
    PinnedMiner(Miner(own, 0, false, isNiceHash, map[]), nice, c.kMaxDiff, jobs, now);
  }

  // ---- Which minimum applies ----

  /** Its own if it has one; the NiceHash one if it is such a miner or the session says
      so; otherwise the one it had. */
  lemma MinimumIs(m: Miner, job: JobId, nice: NiceHash, now: nat)
    requires m.controller.Valid() && now > 0
    ensures var m' := m.AddLocalJob(job, nice, now);
            && m'.controller.minDiff ==
               (if m.overrideDifficulty || (!nice.forced && !m.isNiceHash) then m.controller.minDiff
                else m.controller.Clamp(nice.minDiff))
            && m'.curDiff >= m'.controller.minDiff && m'.curDiff >= m'.controller.curDiff
            && (m'.curDiff == m'.controller.minDiff || m'.curDiff == m'.controller.curDiff)
            && m'.overrideDifficulty == m.overrideDifficulty && SameConfig(m.controller, m'.controller)
  {
    var c := m.Limited(nice);
    AnswerIs(c, now);
    StepFrame(c, CalcCurDiff(now), c.CalcCurDiff(now));
  }

  /** A minimum of its own counts, whatever the NiceHash one is. */
  lemma OwnMinimum(m: Miner, diff: nat, job: JobId, nice: NiceHash, now: nat)
    requires m.controller.Valid() && now > 0
    ensures var m' := m.SetMinDiff(diff).AddLocalJob(job, nice, now);
            m'.controller.minDiff == m.controller.Clamp(diff) && m'.curDiff >= m.controller.Clamp(diff)
  {
    MinimumIs(m.SetMinDiff(diff), job, nice, now);
  }

  /** A requested difficulty is given to the next job, unless a minimum is greater: at
      first, and as long as it has not been a minute since. */
  lemma RequestIsAnswered(m: Miner, diff: nat, job: JobId, nice: NiceHash, now: nat)
    requires m.controller.Valid() && now > 0
    requires m.controller.startTime == 0 || now < m.controller.startTime + 60
    requires !m.controller.Started(now).IsFullWindow(now)
    ensures var m' := m.ResetCurDiff(diff).AddLocalJob(job, nice, now);
            m'.curDiff == Max(m.controller.Clamp(diff), m'.controller.minDiff)
  {
    var c := m.ResetCurDiff(diff).Limited(nice);
    ResetForgets(m.controller, diff, now);
    SilentStays(c, now);
    MinimumIs(m.ResetCurDiff(diff), job, nice, now);
  }

  /** What can happen to a miner between two requests for a minimum. */
  datatype MinerOp =
    | Reset(diff: nat)
    | GiveJob(job: JobId, nice: NiceHash, now: nat)
    | TakeJob(job: JobId)
    | AcceptShare(share: nat, now: nat)

  ghost predicate MinerStep(m: Miner, op: MinerOp, m': Miner) {
    && m.controller.Valid()
    && match op
       case Reset(diff) => m' == m.ResetCurDiff(diff)
       case GiveJob(job, nice, now) => now > 0 && m' == m.AddLocalJob(job, nice, now)
       case TakeJob(job) => m' == m.RemoveLocalJob(job)
       case AcceptShare(share, now) => m' == m.(controller := m.controller.AddShare(share, now))
  }

  /** It has a minimum of its own, and what has been recorded since is no less. */
  ghost predicate AtLeast(m: Miner, min: nat, before: map<JobId, nat>) {
    && m.overrideDifficulty && m.controller.minDiff == min
    && forall job | job in m.jobDiffs ::
         m.jobDiffs[job] >= min || (job in before && m.jobDiffs[job] == before[job])
  }

  lemma AtLeastStays(m: Miner, op: MinerOp, m': Miner, min: nat, before: map<JobId, nat>)
    requires AtLeast(m, min, before) && MinerStep(m, op, m')
    ensures AtLeast(m', min, before)
  {
    if op.GiveJob? {
      MinimumIs(m, op.job, op.nice, op.now);
    }
  }

  /** In every run after a request for a minimum, without another one, every job that is
      given gets at least that much. */
  lemma AlwaysAtLeast(m: Miner, diff: nat, states: seq<Miner>, ops: seq<MinerOp>, n: nat)
    requires IsRun(MinerStep, states, ops) && n <= |ops| && states[0] == m.SetMinDiff(diff)
    ensures AtLeast(states[n], m.controller.Clamp(diff), m.jobDiffs)
  {
    var min, before := m.controller.Clamp(diff), m.jobDiffs;
    var inv := x => AtLeast(x, min, before);
    forall x, op, y | inv(x) && MinerStep(x, op, y) ensures inv(y) {
      AtLeastStays(x, op, y, min, before);
    }
    Throughout(MinerStep, inv, states, ops, n);
  }

  // ---- Which jobs have a difficulty ----

  lemma RemovedJob(m: Miner, job: JobId)
    ensures var m' := m.RemoveLocalJob(job);
            && job !in m'.jobDiffs && m'.curDiff == m.curDiff
            && forall j | j != job ::
                 (j in m'.jobDiffs <==> j in m.jobDiffs) && (j in m.jobDiffs ==> m'.jobDiffs[j] == m.jobDiffs[j])
  {
  }

  ghost function JobSet(jobs: seq<JobId>): set<JobId> {
    set j | j in jobs
  }

  lemma {:induction false} AddJobsRecords(m: Miner, jobs: seq<JobId>, nice: NiceHash, now: nat)
    requires m.controller.Valid() && now > 0
    ensures AddJobs(m, jobs, nice, now).jobDiffs.Keys == m.jobDiffs.Keys + JobSet(jobs)
  {
    if jobs != [] {
      var n := |jobs| - 1;
      AddJobsRecords(m, jobs[..n], nice, now);
      assert jobs == jobs[..n] + [jobs[n]];
      assert JobSet(jobs) == JobSet(jobs[..n]) + {jobs[n]};
    }
  }

  /** A new miner has a difficulty for exactly the jobs there are. */
  lemma NewMinerRecords(c: Controller, isNiceHash: bool, jobs: seq<JobId>, nice: NiceHash, now: nat)
    requires c.Valid() && now > 0
    ensures NewMiner(c, isNiceHash, jobs, nice, now).jobDiffs.Keys == JobSet(jobs)
  {
    AddJobsRecords(Miner(c.Copied(), 0, false, isNiceHash, map[]), jobs, nice, now);
  }

  /** A miner without a job has exponent 0, so the first job changes it unless its
      difficulty is 1. */
  lemma FirstJobChanges(m: Miner, job: JobId, nice: NiceHash, now: nat)
    requires m.Valid() && m.curDiff == 0 && IsPow2(nice.minDiff) && now > 0
    ensures var m' := m.AddLocalJob(job, nice, now); m'.Exponent() != m.Exponent() <==> m'.curDiff != 1
  {
    AddLocalJobKeeps(m, job, nice, now);
    Log2OfPow2(m.AddLocalJob(job, nice, now).curDiff);
  }
}
