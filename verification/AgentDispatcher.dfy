/** The dispatcher of an agent connection, and what the agent learns from it. */
module AgentDispatchers {
  import opened Options
  import opened Powers
  import opened Runs
  import opened DiffControl
  import opened DiffControlLaws
  import opened DiffControlRuns
  import opened SetDiffFrames
  import opened StratumAgent

  type Miners = map<Word, Miner>

  ghost predicate AllValid(miners: Miners) {
    forall id | id in miners :: miners[id].Valid()
  }

  /** The miners after a job has been handed to each of them. */
  ghost function WithJob(miners: Miners, job: JobId, nice: NiceHash, now: nat): Miners
    requires AllValid(miners) && now > 0
  {
    map id | id in miners :: miners[id].AddLocalJob(job, nice, now)
  }

  /** Difficulty exponent by session. */
  type Exponents = map<Word, nat>

  ghost function ExponentsOf(miners: Miners): Exponents {
    map id | id in miners :: miners[id].Exponent()
  }

  ghost predicate HasMoved(before: Exponents, after: Exponents, id: Word, e: int) {
    id in before && id in after && after[id] == e != before[id]
  }

  /** Sessions below k whose exponent has become e, in increasing order. */
  ghost function Moved(before: Exponents, after: Exponents, k: nat, e: int): seq<Word>
    requires k <= 65536
  {
    if k == 0 then [] else
    Moved(before, after, k - 1, e) + if HasMoved(before, after, k - 1, e) then [k - 1] else []
  }

  lemma {:induction false} MovedIs(before: Exponents, after: Exponents, k: nat, e: int, id: Word)
    requires k <= 65536
    ensures id in Moved(before, after, k, e) <==> id < k && HasMoved(before, after, id, e)
  {
    if k > 0 {
      MovedIs(before, after, k - 1, e, id);
    }
  }

  /** The frames announce exactly the sessions whose exponent changed. */
  ghost predicate Announces(frames: seq<Frame>, before: Exponents, after: Exponents) {
    forall e: Byte :: Collect(frames, e) == Moved(before, after, 65536, e)
  }

  /** The lists collected so far, for the sessions below k. */
  ghost predicate Collected(newDiffs: map<Byte, seq<Word>>, before: Exponents, after: Exponents, k: nat)
    requires k <= 65536
  {
    && (forall e: Byte :: IdsFor(newDiffs, e) == Moved(before, after, k, e))
    && (forall e | e in newDiffs :: newDiffs[e] != [])
  }

  function Note(newDiffs: map<Byte, seq<Word>>, e: Byte, id: Word): map<Byte, seq<Word>> {
    newDiffs[e := IdsFor(newDiffs, e) + [id]]
  }

  lemma CollectedStep(newDiffs: map<Byte, seq<Word>>, before: Exponents, after: Exponents, k: Word)
    requires Collected(newDiffs, before, after, k)
    requires k in before ==> k in after && after[k] < 256
    ensures var next := if k in before && after[k] != before[k] then Note(newDiffs, after[k], k) else newDiffs;
            Collected(next, before, after, k + 1)
  {
    var next := if k in before && after[k] != before[k] then Note(newDiffs, after[k], k) else newDiffs;
    forall e: Byte ensures IdsFor(next, e) == Moved(before, after, k + 1, e) {
      assert IdsFor(newDiffs, e) == Moved(before, after, k, e);
    }
  }

  /** The second map below key k, the first one from there on. */
  ghost function Mixed<T>(before: map<Word, T>, after: map<Word, T>, k: nat): map<Word, T>
    requires before.Keys == after.Keys
  {
    map id | id in before :: if id < k then after[id] else before[id]
  }

  lemma MixedStep<T>(before: map<Word, T>, after: map<Word, T>, k: Word)
    requires before.Keys == after.Keys
    ensures Mixed(before, after, k + 1) ==
            if k in before then Mixed(before, after, k)[k := after[k]] else Mixed(before, after, k)
    ensures k in before ==> Mixed(before, after, k)[k] == before[k]
    ensures Mixed(before, after, 0) == before && Mixed(before, after, 65536) == after
  {
  }

  class AgentDispatcher {
    const diffController: DiffController
    var curDiff: nat
    var miners: Miners

    ghost function Repr(): set<object>
      reads this
    {
      {this, diffController, diffController.sharesNum, diffController.sharesNum.elements,
       diffController.shares, diffController.shares.elements}
    }

    ghost predicate Valid()
      reads Repr()
    {
      diffController.Valid() && AllValid(miners)
    }

    constructor (defaultController: DiffController)
      requires defaultController.Valid()
      ensures Valid() && fresh(Repr()) && miners == map[] && curDiff == 0
      ensures diffController.Value() == old(defaultController.Value()).Copied()
    {
      diffController := new DiffController.Copy(defaultController);
      curDiff, miners := 0, map[];
    }

    /** An id that is already registered keeps its miner. */
    method RegisterWorker(sessionId: Word, miner: Miner)
      requires Valid() && miner.Valid()
      modifies this`miners
      ensures Valid() && miners == if sessionId in old(miners) then old(miners) else old(miners)[sessionId := miner]
    {
      if sessionId !in miners {
        miners := miners[sessionId := miner];
      }
    }

    method UnregisterWorker(sessionId: Word)
      requires Valid()
      modifies this`miners
      ensures Valid() && miners == old(miners) - {sessionId}
    {
      miners := miners - {sessionId};
    }

    /** New job: the agent's own difficulty first, then one message for all sessions
        whose exponent has changed. */
    method AddLocalJob(job: JobId, nice: NiceHash, now: nat)
      returns (setDifficulty: Option<nat>, data: seq<Byte>)
      requires Valid() && IsPow2(nice.minDiff)
      requires now > 0 && now >= diffController.kDiffWindow
      modifies Repr()
      ensures Valid()
      ensures diffController.Value() == old(diffController.Value()).CalcCurDiff(now)
      ensures curDiff == diffController.Value().Answer()
      ensures setDifficulty == if curDiff != old(curDiff) then Some(curDiff) else None
      ensures miners == WithJob(old(miners), job, nice, now)
      ensures Decode(data).Some? && Announces(Decode(data).value, ExponentsOf(old(miners)), ExponentsOf(miners))
      ensures data == [] <==> ExponentsOf(miners) == ExponentsOf(old(miners))
    {
      ghost var before := miners;
      setDifficulty := SetAgentDiff(now);
      var newDiffs := HandOut(job, nice, now);
      data := Announce(newDiffs, ExponentsOf(before), ExponentsOf(miners));
    }

    /** The difficulty of the connection itself, sent if it has changed. */
    method SetAgentDiff(now: nat) returns (setDifficulty: Option<nat>)
      requires Valid() && now >= diffController.kDiffWindow && now > 0
      modifies Repr()
      ensures Valid() && miners == old(miners)
      ensures diffController.Value() == old(diffController.Value()).CalcCurDiff(now)
      ensures curDiff == diffController.Value().Answer()
      ensures setDifficulty == if curDiff != old(curDiff) then Some(curDiff) else None
    {
      var agentDiff := diffController.CalcCurDiff(now);
      setDifficulty := None;
      if agentDiff != curDiff {
        setDifficulty := Some(agentDiff);
        curDiff := agentDiff;
      }
    }

    /** Give the job to every miner, in order of session id, and collect the sessions
        whose exponent changes. */
    method HandOut(job: JobId, nice: NiceHash, now: nat) returns (newDiffs: map<Byte, seq<Word>>)
      requires Valid() && IsPow2(nice.minDiff) && now > 0
      modifies this`miners
      ensures Valid() && miners == WithJob(old(miners), job, nice, now)
      ensures Collected(newDiffs, ExponentsOf(old(miners)), ExponentsOf(miners), 65536)
      ensures forall id | id in miners :: miners[id].Exponent() < 256
    {
      ghost var before := miners;
      ghost var after := WithJob(before, job, nice, now);
      WithJobKeeps(before, job, nice, now);
      MixedStep(before, after, 0);
      newDiffs := map[];
      for id := 0 to 65536
        invariant miners == Mixed(before, after, id)
        invariant Collected(newDiffs, ExponentsOf(before), ExponentsOf(after), id)
      {
        CollectedStep(newDiffs, ExponentsOf(before), ExponentsOf(after), id);
        MixedStep(before, after, id);
        if id in miners {
          var miner := miners[id];
          assert miner == before[id] && miner.Valid();
          var oldDiff := miner.Exponent();
          miner := miner.AddLocalJob(job, nice, now);
          assert miner == after[id];
          miners := miners[id := miner];
          var newDiff: Byte := miner.Exponent();
          if newDiff != oldDiff {
            newDiffs := Note(newDiffs, newDiff, id);
          }
        }
      }
    }

    method RemoveLocalJob(job: JobId)
      requires Valid()
      modifies this`miners
      ensures Valid() && miners == map id | id in old(miners) :: old(miners)[id].RemoveLocalJob(job)
    {
      miners := map id | id in miners :: miners[id].RemoveLocalJob(job);
    }
  }

  /** One message for all lists, or none. */
  method Announce(newDiffs: map<Byte, seq<Word>>, ghost before: Exponents, ghost after: Exponents)
    returns (data: seq<Byte>)
    requires Collected(newDiffs, before, after, 65536)
    requires before.Keys == after.Keys && forall id | id in after :: after[id] < 256
    ensures Decode(data).Some? && Announces(Decode(data).value, before, after)
    ensures data == [] <==> before == after
  {
    data := [];
    if newDiffs != map[] {
      data := GetSetDiffCommand(newDiffs);
    }
    Sent(newDiffs, before, after, data);
  }

  lemma WithJobKeeps(miners: Miners, job: JobId, nice: NiceHash, now: nat)
    requires AllValid(miners) && IsPow2(nice.minDiff) && now > 0
    ensures AllValid(WithJob(miners, job, nice, now))
    ensures forall id | id in miners :: WithJob(miners, job, nice, now)[id].Exponent() < 256
  {
    forall id | id in miners
      ensures miners[id].AddLocalJob(job, nice, now).Valid() && miners[id].AddLocalJob(job, nice, now).Exponent() < 256
    {
      AddLocalJobKeeps(miners[id], job, nice, now);
    }
  }

  /** The message says exactly what changed; there is none if nothing did. */
  lemma Sent(newDiffs: map<Byte, seq<Word>>, before: Exponents, after: Exponents, data: seq<Byte>)
    requires Collected(newDiffs, before, after, 65536)
    requires before.Keys == after.Keys && forall id | id in after :: after[id] < 256
    requires if newDiffs == map[] then data == [] else
             Decode(data).Some? && forall e: Byte :: Collect(Decode(data).value, e) == IdsFor(newDiffs, e)
    ensures Decode(data).Some? && Announces(Decode(data).value, before, after)
    ensures data == [] <==> before == after
  {
    if newDiffs == map[] {
      forall id | id in after ensures after[id] == before[id] {
        MovedIs(before, after, 65536, after[id], id);
        assert IdsFor(newDiffs, after[id]) == [];
      }
    } else {
      var e :| e in newDiffs;
      var id := newDiffs[e][0];
      assert id in IdsFor(newDiffs, e) && Collect(Decode(data).value, e) != [];
      MovedIs(before, after, 65536, e, id);
    }
  }

  // ---- What the agent knows ----

  /** The agent's picture after one frame, and after a whole message. */
  ghost function Hear(view: Exponents, f: Frame): Exponents {
    view + map id | id in f.ids :: f.exponent
  }

  ghost function HearAll(view: Exponents, frames: seq<Frame>): Exponents
    decreases |frames|
  {
    if frames == [] then view else HearAll(Hear(view, frames[0]), frames[1..])
  }

  /** The agent has the right exponent for this session. */
  ghost predicate Knows(view: Exponents, actual: Exponents, id: Word)
    requires id in actual
  {
    id in view && view[id] == actual[id]
  }

  /** A session announced with one exponent only ends up with it; others are untouched. */
  lemma {:induction false} HearAllIs(view: Exponents, frames: seq<Frame>, id: Word, e: Byte)
    requires forall x: Byte | id in Collect(frames, x) :: x == e
    ensures var heard := HearAll(view, frames);
            if id in Collect(frames, e) then id in heard && heard[id] == e
            else (id in heard <==> id in view) && (id in view ==> heard[id] == view[id])
    decreases |frames|
  {
    if frames != [] {
      var f, rest := frames[0], frames[1..];
      forall x: Byte | id in Collect(rest, x) ensures x == e {
        assert id in Collect(frames, x);
      }
      assert id in f.ids ==> id in Collect(frames, f.exponent);
      HearAllIs(Hear(view, f), rest, id, e);
    }
  }

  /** After a message, the agent knows a session's exponent exactly if it knew it
      before or the exponent has just changed. */
  lemma Heard(view: Exponents, before: Exponents, after: Exponents, frames: seq<Frame>, id: Word)
    requires Announces(frames, before, after)
    requires id in before && id in after && after[id] < 256
    ensures Knows(HearAll(view, frames), after, id) <==> Knows(view, before, id) || after[id] != before[id]
  {
    var e: Byte := after[id];
    forall x: Byte ensures id in Collect(frames, x) <==> x == e && e != before[id] {
      MovedIs(before, after, 65536, x, id);
    }
    HearAllIs(view, frames, id, e);
  }

  /** For a new job that exponent is exact: two to it is the difficulty recorded. */
  lemma Informed(view: Exponents, before: Miners, frames: seq<Frame>, id: Word, job: JobId, nice: NiceHash, now: nat)
    requires AllValid(before) && IsPow2(nice.minDiff) && now > 0 && id in before
    requires Announces(frames, ExponentsOf(before), ExponentsOf(WithJob(before, job, nice, now)))
    ensures var after := WithJob(before, job, nice, now);
            var exponents := ExponentsOf(after);
            && (Knows(HearAll(view, frames), exponents, id) <==>
                  Knows(view, ExponentsOf(before), id) || exponents[id] != ExponentsOf(before)[id])
            && job in after[id].jobDiffs && after[id].jobDiffs[job] == Pow2(exponents[id])
  {
    var after := WithJob(before, job, nice, now);
    AddLocalJobKeeps(before[id], job, nice, now);
    Heard(view, ExponentsOf(before), ExponentsOf(after), frames, id);
  }

  // ---- Whole runs of a connection ----

  datatype Event =
    | Register(id: Word, miner: Miner)
    | Unregister(id: Word)
    | NewJob(job: JobId, nice: NiceHash, now: nat, frames: seq<Frame>)
    | DropJob(job: JobId)
    | SetMinDiff(diff: nat)
    | ResetCurDiff(diff: nat)
    | Share(id: Word, share: nat, now: nat)

  /** A connection: its miners, what its agent believes about them, and the sessions that
      registered with an exponent the agent assumed already or whose exponent has changed
      since; the connection's own controller, which hears of no share, and the difficulty
      it sent for the connection as a whole. */
  datatype Connection = Connection(
    miners: Miners, view: Exponents, informed: set<Word>, own: Controller, sent: nat)
  {

    ghost predicate Assumes(id: Word, miner: Miner) {
      id in view && view[id] == miner.Exponent()
    }

    ghost function Changed(after: Miners): set<Word> {
      set id | id in miners && id in after && after[id].Exponent() != miners[id].Exponent()
    }
  }

  /** The agent knows the exponents of those sessions and of no others. */
  ghost predicate Tracks(c: Connection) {
    AllValid(c.miners) && forall id | id in c.miners :: Knows(c.view, ExponentsOf(c.miners), id) <==> id in c.informed
  }

  /** Everything the agent should know, it knows. */
  ghost predicate Synchronised(c: Connection) {
    AllValid(c.miners) && forall id | id in c.miners :: Knows(c.view, ExponentsOf(c.miners), id)
  }

  ghost function Each(miners: Miners, f: Miner -> Miner): Miners {
    map id | id in miners :: f(miners[id])
  }

  /** A new job: the connection's own difficulty, then one for every miner; the agent
      hears what has changed. */
  ghost predicate TakesJob(c: Connection, job: JobId, nice: NiceHash, now: nat, frames: seq<Frame>, d: Connection)
    requires AllValid(c.miners) && c.own.Valid()
  {
    && now > 0 && IsPow2(nice.minDiff)
    && d.miners == WithJob(c.miners, job, nice, now)
    && Announces(frames, ExponentsOf(c.miners), ExponentsOf(d.miners))
    && d.view == HearAll(c.view, frames)
    && d.informed == c.informed + c.Changed(d.miners)
    && d.own == c.own.CalcCurDiff(now) && d.sent == d.own.Answer()
  }

  /** One event.  A session registers under a fresh id. */
  ghost predicate Happens(c: Connection, event: Event, d: Connection) {
    && AllValid(c.miners) && c.own.Valid()
    && match event
       case Register(id, miner) =>
         && id !in c.miners && miner.Valid()
         && d == c.(miners := c.miners[id := miner],
                    informed := if c.Assumes(id, miner) then c.informed + {id} else c.informed - {id})
       case Unregister(id) => d == c.(miners := c.miners - {id})
       case NewJob(job, nice, now, frames) => TakesJob(c, job, nice, now, frames, d)
       case DropJob(job) => d == c.(miners := Each(c.miners, (m: Miner) => m.RemoveLocalJob(job)))
       case SetMinDiff(diff) =>
         IsPow2(diff) && d == c.(miners := Each(c.miners, (m: Miner) => m.SetMinDiff(diff)))
       case ResetCurDiff(diff) =>
         IsPow2(diff) && d == c.(miners := Each(c.miners, (m: Miner) => m.ResetCurDiff(diff)))
       case Share(id, share, now) =>
         && id in c.miners
         && var m := c.miners[id];
            d == c.(miners := c.miners[id := m.(controller := m.controller.AddShare(share, now))])
  }

  /** An update that leaves every current difficulty alone changes nothing for the agent. */
  lemma QuietKeeps(c: Connection, d: Connection)
    requires Tracks(c) && d.view == c.view && d.informed == c.informed && d.miners.Keys <= c.miners.Keys
    requires forall id | id in d.miners :: d.miners[id].Valid() && d.miners[id].curDiff == c.miners[id].curDiff
    ensures Tracks(d)
  {
    forall id | id in d.miners ensures Knows(d.view, ExponentsOf(d.miners), id) <==> id in d.informed {
      assert Knows(c.view, ExponentsOf(c.miners), id) <==> id in c.informed;
    }
  }

  lemma NewJobKeeps(c: Connection, event: Event, d: Connection)
    requires Tracks(c) && event.NewJob? && Happens(c, event, d)
    ensures Tracks(d)
  {
    WithJobKeeps(c.miners, event.job, event.nice, event.now);
    forall id | id in d.miners ensures Knows(d.view, ExponentsOf(d.miners), id) <==> id in d.informed {
      assert Knows(c.view, ExponentsOf(c.miners), id) <==> id in c.informed;
      Heard(c.view, ExponentsOf(c.miners), ExponentsOf(d.miners), event.frames, id);
    }
  }

  lemma RegisterKeeps(c: Connection, event: Event, d: Connection)
    requires Tracks(c) && event.Register? && Happens(c, event, d)
    ensures Tracks(d)
  {
    forall id | id in d.miners ensures Knows(d.view, ExponentsOf(d.miners), id) <==> id in d.informed {
      if id != event.id {
        assert Knows(c.view, ExponentsOf(c.miners), id) <==> id in c.informed;
      }
    }
  }

  lemma RequestedDiffKeeps(m: Miner, diff: nat)
    requires m.Valid() && IsPow2(diff)
    ensures m.SetMinDiff(diff).Valid() && m.ResetCurDiff(diff).Valid()
  {
    ClampKeepsPow2(m.controller, diff);
  }

  lemma ShareKeeps(m: Miner, share: nat, now: nat)
    requires m.Valid()
    ensures m.(controller := m.controller.AddShare(share, now)).Valid()
  {
  }

  lemma DiffRequestKeeps(c: Connection, event: Event, d: Connection)
    requires Tracks(c) && (event.SetMinDiff? || event.ResetCurDiff?) && Happens(c, event, d)
    ensures Tracks(d)
  {
    forall id | id in c.miners ensures d.miners[id].Valid() && d.miners[id].curDiff == c.miners[id].curDiff {
      RequestedDiffKeeps(c.miners[id], event.diff);
    }
    QuietKeeps(c, d);
  }

  lemma HappensKeeps(c: Connection, event: Event, d: Connection)
    requires Tracks(c) && Happens(c, event, d)
    ensures Tracks(d)
  {
    if event.NewJob? {
      NewJobKeeps(c, event, d);
    } else if event.Register? {
      RegisterKeeps(c, event, d);
    } else if event.SetMinDiff? || event.ResetCurDiff? {
      DiffRequestKeeps(c, event, d);
    } else {
      if event.Share? {
        ShareKeeps(c.miners[event.id], event.share, event.now);
      }
      QuietKeeps(c, d);
    }
  }

  /** In every run the agent knows the exponent of a registered session exactly if it
      assumed it at registration or the exponent has changed since. */
  lemma AlwaysTracked(states: seq<Connection>, events: seq<Event>, n: nat)
    requires IsRun(Happens, states, events) && n <= |events|
    requires Tracks(states[0])
    ensures Tracks(states[n])
  {
    forall c, event, d | Tracks(c) && Happens(c, event, d) ensures Tracks(d) {
      HappensKeeps(c, event, d);
    }
    Throughout(Happens, Tracks, states, events, n);
  }

  /** An event in which no session registers with an exponent the agent does not assume. */
  ghost predicate Foreseen(c: Connection, event: Event, d: Connection) {
    Happens(c, event, d) && (event.Register? ==> c.Assumes(event.id, event.miner))
  }

  ghost predicate AllInformed(c: Connection) {
    Tracks(c) && c.miners.Keys <= c.informed
  }

  /** Then the agent's picture stays right for all registered sessions. */
  lemma AlwaysSynchronised(states: seq<Connection>, events: seq<Event>, n: nat)
    requires IsRun(Foreseen, states, events) && n <= |events|
    requires AllInformed(states[0])
    ensures Synchronised(states[n])
  {
    forall c, event, d | AllInformed(c) && Foreseen(c, event, d) ensures AllInformed(d) {
      HappensKeeps(c, event, d);
    }
    Throughout(Foreseen, AllInformed, states, events, n);
  }

  // ---- The difficulty of the connection itself ----

  /** It starts below some difficulty, and without shares it stays there. */
  ghost predicate OwnBelow(c: Connection, diff: nat) {
    Silent(c.own) && c.own.curDiff < diff && c.own.minDiff < diff && c.sent < diff
  }

  lemma OwnStaysBelow(c: Connection, event: Event, d: Connection, diff: nat)
    requires OwnBelow(c, diff) && Happens(c, event, d)
    ensures OwnBelow(d, diff)
  {
    if event.NewJob? {
      SilentFalls(c.own, event.now);
    }
  }

  /** In every run what is sent for the connection as a whole never rises above what its
      controller started with. */
  lemma AlwaysBelow(states: seq<Connection>, events: seq<Event>, diff: nat, n: nat)
    requires IsRun(Happens, states, events) && n <= |events| && OwnBelow(states[0], diff)
    ensures OwnBelow(states[n], diff)
  {
    var inv := c => OwnBelow(c, diff);
    forall c, event, d | inv(c) && Happens(c, event, d) ensures inv(d) {
      OwnStaysBelow(c, event, d, diff);
    }
    Throughout(Happens, inv, states, events, n);
  }

  // ---- A session the agent is never told about ----

  /** New jobs, with nothing to announce. */
  function QuietJobs(jobs: seq<JobId>, nice: NiceHash, now: nat): seq<Event> {
    if jobs == [] then [] else QuietJobs(jobs[..|jobs| - 1], nice, now) + [NewJob(jobs[|jobs| - 1], nice, now, [])]
  }

  /** The agent does not believe this session to have this difficulty. */
  ghost predicate Unaware(view: Exponents, id: Word, diff: nat)
    requires diff > 0
  {
    !(id in view && view[id] == Log2(diff))
  }

  /** One session, at the maximum, and an agent that does not know it; the connection
      itself has a smaller difficulty. */
  ghost predicate Untold(c: Connection, id: Word, nice: NiceHash, max: nat) {
    && c.miners.Keys == {id} && Pinned(c.miners[id], nice, max) && c.miners[id].curDiff == max > 0
    && Unaware(c.view, id, max)
    && OwnBelow(c, max)
  }

  lemma {:induction false} NoneMoved(before: Exponents, after: Exponents, k: nat, e: int)
    requires k <= 65536 && before == after
    ensures Moved(before, after, k, e) == []
  {
    if k > 0 {
      NoneMoved(before, after, k - 1, e);
    }
  }

  lemma NothingAnnounced(exponents: Exponents)
    ensures Announces([], exponents, exponents)
  {
    forall e: Byte ensures Collect([], e) == Moved(exponents, exponents, 65536, e) {
      NoneMoved(exponents, exponents, 65536, e);
    }
  }

  lemma SameExponents(before: Miners, after: Miners, id: Word)
    requires before.Keys == after.Keys == {id} && before[id].curDiff == after[id].curDiff
    ensures ExponentsOf(after) == ExponentsOf(before)
  {
  }

  /** The connection after a job that changes no exponent. */
  ghost function AfterQuietJob(c: Connection, job: JobId, nice: NiceHash, now: nat): Connection
    requires AllValid(c.miners) && c.own.Valid() && now > 0
  {
    var miners, own := WithJob(c.miners, job, nice, now), c.own.CalcCurDiff(now);
    Connection(miners, c.view, c.informed + c.Changed(miners), own, own.Answer())
  }

  lemma QuietTakes(c: Connection, job: JobId, nice: NiceHash, now: nat)
    requires AllValid(c.miners) && c.own.Valid() && now > 0 && IsPow2(nice.minDiff)
    requires ExponentsOf(WithJob(c.miners, job, nice, now)) == ExponentsOf(c.miners)
    ensures Happens(c, NewJob(job, nice, now, []), AfterQuietJob(c, job, nice, now))
  {
    NothingAnnounced(ExponentsOf(c.miners));
    assert TakesJob(c, job, nice, now, [], AfterQuietJob(c, job, nice, now));
  }

  lemma UntoldTakes(c: Connection, id: Word, nice: NiceHash, max: nat, job: JobId, now: nat)
    requires Untold(c, id, nice, max) && now > 0
    ensures Happens(c, NewJob(job, nice, now, []), AfterQuietJob(c, job, nice, now))
  {
    var miners := WithJob(c.miners, job, nice, now);
    PinnedStays(c.miners[id], nice, max, job, now);
    SameExponents(c.miners, miners, id);
    QuietTakes(c, job, nice, now);
  }

  lemma UntoldStays(c: Connection, id: Word, nice: NiceHash, max: nat, job: JobId, now: nat)
    requires Untold(c, id, nice, max) && now > 0
    ensures Untold(AfterQuietJob(c, job, nice, now), id, nice, max)
  {
    PinnedStays(c.miners[id], nice, max, job, now);
    SilentFalls(c.own, now);
  }

  lemma {:induction false} UntoldRun(c: Connection, id: Word, nice: NiceHash, max: nat, jobs: seq<JobId>, now: nat)
    returns (d: Connection)
    requires Untold(c, id, nice, max) && now > 0
    ensures Leads(Happens, c, QuietJobs(jobs, nice, now), d) && Untold(d, id, nice, max)
  {
    if jobs == [] {
      LeadsNowhere<Connection, Event>(Happens, c);
      return c;
    }
    var n := |jobs| - 1;
    var mid := UntoldRun(c, id, nice, max, jobs[..n], now);
    d := AfterQuietJob(mid, jobs[n], nice, now);
    UntoldTakes(mid, id, nice, max, jobs[n], now);
    UntoldStays(mid, id, nice, max, jobs[n], now);
    LeadsOn(Happens, c, QuietJobs(jobs[..n], nice, now), mid, NewJob(jobs[n], nice, now, []), d);
  }

  /** A new connection of a server whose default and minimum lie below the maximum. */
  ghost function NewConnection(c: Controller, view: Exponents): Connection
    requires c.Valid()
  {
    Connection(map[], view, {}, c.Copied(), 0)
  }

  /** A NiceHash session that registers while jobs are open.  Whatever the agent believed,
      unless it had just this exponent for the session, after any number of further jobs
      it still does not know it, and what it was sent for the connection is less. */
  lemma NeverTold(c: Controller, isNiceHash: bool, open: seq<JobId>, later: seq<JobId>,
                  nice: NiceHash, now: nat, view: Exponents, id: Word)
    requires Invariant(c) && IsPow2(nice.minDiff) && now > 0 && open != []
    requires c.minDiff < c.kMaxDiff && c.curDiff < c.kMaxDiff
    requires (nice.forced || isNiceHash) && c.kMaxDiff <= nice.minDiff
    requires Unaware(view, id, c.kMaxDiff)
    ensures var start, miner := NewConnection(c, view), NewMiner(c, isNiceHash, open, nice, now);
            exists s, d :: Tracks(start) && Happens(start, Register(id, miner), s) &&
                           Leads(Happens, s, QuietJobs(later, nice, now), d) &&
                           id in d.miners && !Knows(d.view, ExponentsOf(d.miners), id) &&
                           d.sent < d.miners[id].curDiff
  {
    var start, miner := NewConnection(c, view), NewMiner(c, isNiceHash, open, nice, now);
    NewPinnedMiner(c, isNiceHash, open, nice, now);
    var informed := if start.Assumes(id, miner) then start.informed + {id} else start.informed - {id};
    var s := start.(miners := start.miners[id := miner], informed := informed);
    assert s.miners == map[id := miner] && Happens(start, Register(id, miner), s);
    var d := UntoldRun(s, id, nice, c.kMaxDiff, later, now);
  }
}
