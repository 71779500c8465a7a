/** The thread that executes SQL statements in order: producers, the worker and the
    shutdown, as interleaved atomic steps. */
module SqlQueue {
  import opened Runs

  type Sql = string

  /** Where the worker stands.  It holds the lock in Checking, Deciding, GoingToWait,
      Draining and DrainPop. */
  datatype Worker =
    | Idle                 // about to take the lock
    | Checking             // reads "queue empty and running"
    | GoingToWait          // will release the lock and sleep
    | Sleeping
    | Woken                // about to take the lock again
    | Deciding             // reads "running" once more
    | Executing(sql: Sql)  // taken off the queue, lock released
    | Leaving              // out of the loop, about to take the lock
    | Draining
    | DrainPop             // front executed, still queued
    | Done
    | Crashed              // took the front of an empty queue

  datatype State = State(
    queue: seq<Sql>, running: bool, notifications: nat, worker: Worker,
    added: seq<Sql>, attempted: seq<Sql>)
  {
    predicate Locked() {
      worker in {Checking, GoingToWait, Deciding, Draining, DrainPop}
    }

    /** The statement being executed, if it is no longer queued. */
    function InFlight(): seq<Sql> {
      if worker.Executing? then [worker.sql] else []
    }

    /** What is queued and not yet attempted. */
    function Pending(): seq<Sql> {
      if worker == DrainPop && queue != [] then queue[1..] else queue
    }

    predicate Left() {
      worker in {Leaving, Draining, DrainPop, Done}
    }
  }

  const START: State := State([], true, 0, Idle, [], [])

  datatype Event = AddSql(sql: Sql) | Stop | Notify | SpuriousWakeUp | Work

  /** One step of the worker. */
  function Worked(s: State): State {
    match s.worker
    case Idle => s.(worker := Checking)
    case Checking => s.(worker := if s.queue == [] && s.running then GoingToWait else Deciding)
    case GoingToWait => s.(worker := Sleeping)
    case Sleeping => s
    case Woken => s.(worker := Checking)
    case Deciding =>
      if !s.running then s.(worker := Leaving)
      else if s.queue == [] then s.(worker := Crashed)
      else s.(worker := Executing(s.queue[0]), queue := s.queue[1..])
    case Executing(sql) => s.(worker := Idle, attempted := s.attempted + [sql])
    case Leaving => s.(worker := Draining)
    case Draining =>
      if s.queue == [] then s.(worker := Done) else s.(worker := DrainPop, attempted := s.attempted + [s.queue[0]])
    case DrainPop =>
      if s.queue == [] then s.(worker := Crashed) else s.(worker := Draining, queue := s.queue[1..])
    case Done => s
    case Crashed => s
  }

  ghost predicate Next(s: State, e: Event, t: State) {
    match e
    case AddSql(sql) =>
      !s.Locked() &&
      t == s.(queue := s.queue + [sql], added := s.added + [sql], notifications := s.notifications + 1)
    case Stop => t == s.(running := false, notifications := s.notifications + 1)
    case Notify =>
      s.notifications > 0 &&
      t == s.(notifications := s.notifications - 1, worker := if s.worker == Sleeping then Woken else s.worker)
    case SpuriousWakeUp => s.worker == Sleeping && t == s.(worker := Woken)
    case Work => s.worker != Sleeping && s.worker != Done && t == Worked(s)
  }

  /** Nothing is lost, repeated or reordered: attempted, then in flight, then pending
      is everything added.  The worker pops only from a queue that is not empty, and
      leaves its loop only once it is told to stop. */
  ghost predicate Inv(s: State) {
    && s.attempted + s.InFlight() + s.Pending() == s.added
    && s.worker != Crashed
    && (s.worker == Deciding && s.running ==> s.queue != [])
    && (s.worker == DrainPop ==> s.queue != [])
    && (s.Left() ==> !s.running)
  }

  lemma AddKeeps(s: State, sql: Sql, t: State)
    requires Inv(s) && Next(s, AddSql(sql), t)
    ensures Inv(t)
  {
    assert t.Pending() == s.Pending() + [sql];
    assert s.attempted + s.InFlight() + (s.Pending() + [sql]) == (s.attempted + s.InFlight() + s.Pending()) + [sql];
  }

  /** The front of the queue moves to the end of what comes before it. */
  lemma FrontMoves(before: seq<Sql>, queue: seq<Sql>)
    requires queue != []
    ensures before + [] + queue == before + [queue[0]] + queue[1..]
    ensures before + [] + queue == (before + [queue[0]]) + [] + queue[1..]
  {
    assert queue == [queue[0]] + queue[1..];
  }

  lemma DecidingKeeps(s: State)
    requires Inv(s) && s.worker == Deciding
    ensures Inv(Worked(s))
  {
    if s.running {
      FrontMoves(s.attempted, s.queue);
    }
  }

  lemma ExecutingKeeps(s: State)
    requires Inv(s) && s.worker.Executing?
    ensures Inv(Worked(s))
  {
    assert s.attempted + [s.worker.sql] + s.queue == (s.attempted + [s.worker.sql]) + [] + s.queue;
  }

  lemma DrainingKeeps(s: State)
    requires Inv(s) && s.worker in {Draining, DrainPop}
    ensures Inv(Worked(s))
  {
    if s.worker == Draining && s.queue != [] {
      FrontMoves(s.attempted, s.queue);
    }
  }

  lemma WorkKeeps(s: State, t: State)
    requires Inv(s) && Next(s, Work, t)
    ensures Inv(t)
  {
    match s.worker
    case Deciding => DecidingKeeps(s);
    case Executing(_) => ExecutingKeeps(s);
    case Draining => DrainingKeeps(s);
    case DrainPop => DrainingKeeps(s);
    case _ =>
  }

  lemma NextKeeps(s: State, e: Event, t: State)
    requires Inv(s) && Next(s, e, t)
    ensures Inv(t)
  {
    match e
    case AddSql(sql) => AddKeeps(s, sql, t);
    case Work => WorkKeeps(s, t);
    case _ =>
  }

  /** The order of execution is the order of arrival, in every interleaving. */
  lemma AlwaysInOrder(states: seq<State>, events: seq<Event>, n: nat)
    requires IsRun(Next, states, events) && states[0] == START && n <= |events|
    ensures Inv(states[n])
  {
    forall s, e, t | Inv(s) && Next(s, e, t) ensures Inv(t) {
      NextKeeps(s, e, t);
    }
    assert Inductive(Next, Inv);
    Throughout(Next, Inv, states, events, n);
  }

  /** When the worker finishes, every statement added so far has been attempted, once
      and in order; whatever is added later stays in the queue for ever. */
  lemma {:induction false} AfterTheEnd(states: seq<State>, events: seq<Event>, n: nat, m: nat)
    requires IsRun(Next, states, events) && states[0] == START && n <= m < |states|
    requires n > 0 && states[n].worker == Done && states[n - 1].worker != Done
    ensures states[n].attempted == states[n].added
    ensures states[m].worker == Done && states[m].attempted == states[n].attempted
    ensures states[m].added == states[n].added + states[m].queue
    decreases m
  {
    AlwaysInOrder(states, events, n - 1);
    AlwaysInOrder(states, events, m);
    assert Next(states[n - 1], events[n - 1], states[n]);
    assert states[n].attempted + [] + [] == states[n].added;
    if n < m {
      AfterTheEnd(states, events, n, m - 1);
      assert Next(states[m - 1], events[m - 1], states[m]);
    }
    assert states[m].attempted + [] + states[m].queue == states[m].added;
  }

  // ---- The worker waits only for want of work ----

  /** It goes to sleep only on an empty queue, and while it sleeps on one that is not, a
      notification is on its way. */
  ghost predicate Attentive(s: State) {
    && (s.worker == GoingToWait ==> s.queue == [])
    && (s.worker == Sleeping && s.queue != [] ==> s.notifications > 0)
  }

  lemma AttentiveStays(s: State, e: Event, t: State)
    requires Attentive(s) && Next(s, e, t)
    ensures Attentive(t)
  {
  }

  /** In every interleaving, stop or no stop. */
  lemma AlwaysAttentive(states: seq<State>, events: seq<Event>, n: nat)
    requires IsRun(Next, states, events) && states[0] == START && n <= |events|
    ensures Attentive(states[n])
  {
    forall s, e, t | Attentive(s) && Next(s, e, t) ensures Attentive(t) {
      AttentiveStays(s, e, t);
    }
    Throughout(Next, Attentive, states, events, n);
  }

  function WorkedTimes(s: State, n: nat): State
    decreases n
  {
    if n == 0 then s else WorkedTimes(Worked(s), n - 1)
  }

  /** With something to do, four steps attempt the front of the queue. */
  lemma FourSteps(s: State)
    requires s.worker == Idle && s.running && s.queue != []
    ensures WorkedTimes(s, 4) == s.(queue := s.queue[1..], attempted := s.attempted + [s.queue[0]])
  {
    var a := Worked(s);
    var b := Worked(a);
    var c := Worked(b);
    assert WorkedTimes(s, 4) == WorkedTimes(a, 3) == WorkedTimes(b, 2) == WorkedTimes(c, 1) == Worked(c);
  }

  /** How many steps of its own a worker that is awake is from the end once it has been
      told to stop. */
  function StepsToEnd(s: State): nat {
    match s.worker
    case Executing(_) => 6 + 2 * |s.queue|
    case Idle => 5 + 2 * |s.queue|
    case Woken => 5 + 2 * |s.queue|
    case Checking => 4 + 2 * |s.queue|
    case Deciding => 3 + 2 * |s.queue|
    case Leaving => 2 + 2 * |s.queue|
    case Draining => 1 + 2 * |s.queue|
    case DrainPop => 2 * |s.queue|
    case _ => 0
  }

  ghost predicate Ending(s: State) {
    Inv(s) && !s.running && s.worker != GoingToWait && s.worker != Sleeping
  }

  lemma EndingStep(s: State)
    requires Ending(s) && s.worker != Done
    ensures Ending(Worked(s)) && StepsToEnd(Worked(s)) == StepsToEnd(s) - 1 && Worked(s).added == s.added
  {
    WorkKeeps(s, Worked(s));
  }

  /** That many steps end it, with every statement attempted, once and in order. */
  lemma {:induction false} EndsAfterStop(s: State)
    requires Ending(s)
    ensures var t := WorkedTimes(s, StepsToEnd(s));
            t.worker == Done && if s.worker == Done then t == s else t.queue == [] && t.attempted == s.added
    decreases StepsToEnd(s)
  {
    if s.worker != Done {
      var t := Worked(s);
      EndingStep(s);
      EndsAfterStop(t);
      if t.worker == Done {
        assert t.attempted + [] + [] == t.added;
      }
    }
  }

  // ---- The wake-up of stop ----

  /** Told to stop, asleep, and no notification on its way. */
  ghost predicate Stuck(s: State) {
    s.worker == Sleeping && !s.running && s.notifications == 0
  }

  /** A stuck worker stays stuck unless it wakes by itself or is notified again by
      another statement or another call to stop. */
  lemma StuckStays(s: State, e: Event, t: State)
    requires Stuck(s) && Next(s, e, t)
    ensures e.AddSql? || e.Stop? || e.SpuriousWakeUp?
  {
  }

  /** Told to stop, and bound to see it: the worker does not go to sleep any more, and
      if it sleeps a notification is on its way. */
  ghost predicate Reached(s: State) {
    && !s.running
    && s.worker != GoingToWait
    && (s.worker == Sleeping ==> s.notifications > 0)
  }

  lemma ReachedStays(s: State, e: Event, t: State)
    requires Reached(s) && Next(s, e, t)
    ensures Reached(t) && !Stuck(t)
  {
  }

  /** The worker has read "queue empty and running" but does not sleep yet, and the flag,
      which is cleared without the lock, changes under it. */
  ghost predicate TooEarly(s: State, e: Event) {
    e.Stop? && s.running && s.worker == GoingToWait
  }

  ghost predicate InTime(s: State, e: Event, t: State) {
    Next(s, e, t) && !TooEarly(s, e)
  }

  /** In every run in which no stop comes at that moment, the worker never gets stuck. */
  lemma NeverStuck(states: seq<State>, events: seq<Event>, n: nat)
    requires IsRun(InTime, states, events) && states[0] == START && n <= |events|
    ensures !Stuck(states[n])
  {
    var inv := (s: State) => s.running || Reached(s);
    forall s, e, t | inv(s) && InTime(s, e, t) ensures inv(t) {
      if !s.running {
        ReachedStays(s, e, t);
      }
    }
    Throughout(InTime, inv, states, events, n);
  }

  /** Notifications that arrive while the worker is not asleep yet are lost. */
  lemma {:induction false} LoseNotifications(s: State) returns (states: seq<State>, events: seq<Event>)
    requires s.worker == GoingToWait
    ensures IsRun(Next, states, events) && states[0] == s
    ensures forall i | 0 <= i < |events| :: events[i] == Notify
    ensures states[|events|] == s.(notifications := 0)
    decreases s.notifications
  {
    if s.notifications == 0 {
      return [s], [];
    }
    var t := s.(notifications := s.notifications - 1);
    states, events := LoseNotifications(t);
    Prepended(Next, s, Notify, states, events);
    states, events := [s] + states, [Notify] + events;
  }

  /** The events of a run that starts with a call of stop. */
  ghost predicate StopsFirst(s: State, states: seq<State>, events: seq<Event>) {
    IsRun(Next, states, events) && states[0] == s && |events| > 0 && events[0] == Stop
  }

  /** A stop that comes too early is lost if the worker and its notifications go on. */
  lemma LoseStop(s: State) returns (states: seq<State>, events: seq<Event>)
    requires TooEarly(s, Stop)
    ensures StopsFirst(s, states, events) && Stuck(states[|events|])
    ensures forall i | 0 < i < |events| :: events[i] == Notify || events[i] == Work
  {
    var t := s.(running := false, notifications := s.notifications + 1);
    states, events := LoseNotifications(t);
    var u := t.(notifications := 0);
    Appended(Next, states, events, Work, u.(worker := Sleeping));
    states, events := states + [u.(worker := Sleeping)], events + [Work];
    Prepended(Next, s, Stop, states, events);
    states, events := [s] + states, [Stop] + events;
  }

  /** The first stop can leave the worker stuck - whatever happens afterwards - exactly
      if it comes between the worker's check and its sleep. */
  lemma StopIsLostIff(s: State)
    requires s.running
    ensures (exists states: seq<State>, events: seq<Event> :: StopsFirst(s, states, events) && Stuck(states[|events|]))
            <==> s.worker == GoingToWait
  {
    if s.worker == GoingToWait {
      var states, events := LoseStop(s);
    } else {
      forall states: seq<State>, events: seq<Event> | StopsFirst(s, states, events) ensures !Stuck(states[|events|]) {
        StaysReached(states, events, |events|);
      }
    }
  }

  lemma {:induction false} StaysReached(states: seq<State>, events: seq<Event>, n: nat)
    requires |states| > 0 && StopsFirst(states[0], states, events)
    requires states[0].running && states[0].worker != GoingToWait && 0 < n <= |events|
    ensures Reached(states[n])
  {
    assert Next(states[n - 1], events[n - 1], states[n]);
    if n > 1 {
      StaysReached(states, events, n - 1);
    }
  }

  /** That moment is reached from the start, so the wake-up can be lost. */
  lemma WakeUpCanBeLost()
    ensures exists states: seq<State>, events: seq<Event> ::
              IsRun(Next, states, events) && states[0] == START && Stuck(states[|events|])
  {
    var s1 := START.(worker := Checking);
    var s2 := START.(worker := GoingToWait);
    var states, events := LoseStop(s2);
    Prepended(Next, s1, Work, states, events);
    Prepended(Next, START, Work, [s1] + states, [Work] + events);
    assert Stuck(([START] + ([s1] + states))[|[Work] + ([Work] + events)|]);
  }
}
