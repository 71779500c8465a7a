/** The connections of a pool server and the session ids they own. */
module PoolServer {
  import opened Powers
  import opened SessionIds

  /** Session states; those before AUTHENTICATED count as not logged in. */
  const AUTHENTICATED: nat := 3

  /** A session id taken apart: server id above, index below. */
  datatype SessionId = SessionId(server: nat, index: nat)

  datatype Conn = Conn(id: SessionId, chainId: nat, isDead: bool, isGrandPool: bool, state: nat)

  datatype Job = Job(chainId: nat, isClean: bool)

  // ---- Lists of connections ----

  /** Which connections a loop picks out. */
  datatype Filter =
    | IsAlive
    | Receives(job: Job)
    | ServedFirst(job: Job, grandPools: bool)
    | ServedSecond(job: Job, grandPools: bool)
  {
    predicate Takes(c: Conn) {
      match this
      case IsAlive => !c.isDead
      // alive and mining on the chain of the job
      case Receives(job) => !c.isDead && c.chainId == job.chainId
      // grand pools get a clean job before everyone else
      case ServedFirst(job, grandPools) =>
        grandPools && job.isClean && c.isGrandPool && !c.isDead && c.chainId == job.chainId
      case ServedSecond(job, grandPools) =>
        !(grandPools && job.isClean && c.isGrandPool) && !c.isDead && c.chainId == job.chainId
    }
  }

  function Select(conns: seq<Conn>, f: Filter): seq<Conn> {
    if conns == [] then [] else
    var last := conns[|conns| - 1];
    Select(conns[..|conns| - 1], f) + if f.Takes(last) then [last] else []
  }

  lemma SelectNext(conns: seq<Conn>, f: Filter, i: nat)
    requires i < |conns|
    ensures Select(conns[..i + 1], f) == Select(conns[..i], f) + if f.Takes(conns[i]) then [conns[i]] else []
  {
    assert conns[..i + 1][..i] == conns[..i];
  }

  lemma {:induction false} Selected(conns: seq<Conn>, f: Filter, c: Conn)
    ensures c in Select(conns, f) <==> c in conns && f.Takes(c)
  {
    if conns != [] {
      var n := |conns| - 1;
      Selected(conns[..n], f, c);
      assert conns == conns[..n] + [conns[n]];
    }
  }

  /** Who gets a job: everyone alive on its chain. */
  lemma ReceiversAre(conns: seq<Conn>, job: Job, grandPools: bool, c: Conn)
    ensures c in Select(conns, ServedFirst(job, grandPools)) + Select(conns, ServedSecond(job, grandPools)) <==>
            c in conns && !c.isDead && c.chainId == job.chainId
  {
    Selected(conns, ServedFirst(job, grandPools), c);
    Selected(conns, ServedSecond(job, grandPools), c);
  }

  /** A clean job goes to grand pools before everyone else, if they are enabled. */
  lemma GrandPoolsFirst(conns: seq<Conn>, job: Job, grandPools: bool, i: nat, j: nat)
    requires grandPools && job.isClean
    requires var sent := Select(conns, ServedFirst(job, grandPools)) + Select(conns, ServedSecond(job, grandPools));
             i < j < |sent| && sent[j].isGrandPool
    ensures var sent := Select(conns, ServedFirst(job, grandPools)) + Select(conns, ServedSecond(job, grandPools));
            sent[i].isGrandPool
  {
    var first, second := Select(conns, ServedFirst(job, grandPools)), Select(conns, ServedSecond(job, grandPools));
    var sent := first + second;
    Selected(conns, ServedFirst(job, grandPools), sent[i]);
    Selected(conns, ServedSecond(job, grandPools), sent[j]);
    assert j < |first| by {
      if j >= |first| {
        NoGrandPoolSecond(conns, job, sent[j]);
      }
    }
    assert sent[i] == first[i];
  }

  lemma NoGrandPoolSecond(conns: seq<Conn>, job: Job, c: Conn)
    requires job.isClean && c in Select(conns, ServedSecond(job, true))
    ensures !c.isGrandPool
  {
    Selected(conns, ServedSecond(job, true), c);
  }

  /** Picking out connections keeps their order. */
  ghost predicate InOrderOf(part: seq<Conn>, conns: seq<Conn>) {
    if part == [] then true
    else if conns == [] then false
    else var n := |conns| - 1;
         if part[|part| - 1] == conns[n] then InOrderOf(part[..|part| - 1], conns[..n]) || InOrderOf(part, conns[..n])
         else InOrderOf(part, conns[..n])
  }

  lemma {:induction false} SelectKeepsOrder(conns: seq<Conn>, f: Filter)
    ensures InOrderOf(Select(conns, f), conns)
  {
    if conns != [] {
      var n := |conns| - 1;
      SelectKeepsOrder(conns[..n], f);
      var rest := Select(conns[..n], f);
      if f.Takes(conns[n]) {
        assert (rest + [conns[n]])[..|rest|] == rest;
      } else {
        assert Select(conns, f) == rest;
      }
    }
  }

  /** The second pass has gone over the first `done` of the connections there were: the
      living ones are kept before position i, and those to be served have been. */
  ghost predicate Passing(conns: seq<Conn>, done: nat, now: seq<Conn>, i: nat, sent: seq<Conn>, f: Filter) {
    && done <= |conns| && i <= |now|
    && now[i..] == conns[done..]
    && now[..i] == Select(conns[..done], IsAlive)
    && sent == Select(conns[..done], f)
  }

  lemma PassingAt(conns: seq<Conn>, done: nat, now: seq<Conn>, i: nat, sent: seq<Conn>, f: Filter)
    requires Passing(conns, done, now, i, sent, f) && i < |now|
    ensures done < |conns| && now[i] == conns[done] && now[i + 1..] == conns[done + 1..]
  {
    assert now[i] == now[i..][0] && now[i + 1..] == now[i..][1..];
    assert conns[done] == conns[done..][0] && conns[done + 1..] == conns[done..][1..];
  }

  lemma PassDead(conns: seq<Conn>, done: nat, now: seq<Conn>, next: seq<Conn>, i: nat, sent: seq<Conn>, f: Filter)
    requires Passing(conns, done, now, i, sent, f) && i < |now| && i <= |next|
    requires now[i].isDead && !f.Takes(now[i]) && next[..i] == now[..i] && next[i..] == now[i + 1..]
    ensures Passing(conns, done + 1, next, i, sent, f)
  {
    PassingAt(conns, done, now, i, sent, f);
    SelectNext(conns, IsAlive, done);
    SelectNext(conns, f, done);
  }

  lemma PassAlive(conns: seq<Conn>, done: nat, now: seq<Conn>, i: nat, sent: seq<Conn>, f: Filter)
    requires Passing(conns, done, now, i, sent, f) && i < |now| && !now[i].isDead
    ensures Passing(conns, done + 1, now, i + 1, sent + if f.Takes(now[i]) then [now[i]] else [], f)
  {
    PassingAt(conns, done, now, i, sent, f);
    SelectNext(conns, IsAlive, done);
    SelectNext(conns, f, done);
    assert now[..i + 1] == now[..i] + [now[i]];
  }

  lemma PassingEnd(conns: seq<Conn>, done: nat, now: seq<Conn>, i: nat, sent: seq<Conn>, f: Filter)
    requires Passing(conns, done, now, i, sent, f) && i == |now|
    ensures now == Select(conns, IsAlive) && sent == Select(conns, f)
  {
    assert conns[done..] == [] && done == |conns|;
    assert conns[..done] == conns && now[..i] == now;
  }

  /** The two passes together reach every receiver exactly once. */
  lemma {:induction false} ServedOnce(conns: seq<Conn>, job: Job, grandPools: bool)
    ensures multiset(Select(conns, ServedFirst(job, grandPools))) +
            multiset(Select(conns, ServedSecond(job, grandPools))) ==
            multiset(Select(conns, Receives(job)))
  {
    if conns != [] {
      ServedOnce(conns[..|conns| - 1], job, grandPools);
    }
  }

  // ---- Ownership of ids ----

  /** The indexes these connections own. */
  ghost function Indexes(conns: seq<Conn>): set<int> {
    if conns == [] then {} else {conns[0].id.index} + Indexes(conns[1..])
  }

  /** No two connections own the same index. */
  ghost predicate Distinct(conns: seq<Conn>) {
    conns == [] || (conns[0].id.index !in Indexes(conns[1..]) && Distinct(conns[1..]))
  }

  lemma {:induction false} IndexesAre(conns: seq<Conn>, x: int)
    ensures x in Indexes(conns) <==> exists i | 0 <= i < |conns| :: conns[i].id.index == x
  {
    if conns != [] {
      IndexesAre(conns[1..], x);
      if x in Indexes(conns[1..]) {
        var i :| 0 <= i < |conns[1..]| && conns[1..][i].id.index == x;
        assert conns[i + 1].id.index == x;
      }
      if i :| 0 < i < |conns| && conns[i].id.index == x {
        assert conns[1..][i - 1].id.index == x;
      }
    }
  }

  lemma {:induction false} DistinctMeans(conns: seq<Conn>)
    ensures Distinct(conns) <==> forall i, j | 0 <= i < j < |conns| :: conns[i].id.index != conns[j].id.index
  {
    if conns != [] {
      var rest := conns[1..];
      DistinctMeans(rest);
      IndexesAre(rest, conns[0].id.index);
      if Distinct(conns) {
        forall i, j | 0 <= i < j < |conns| ensures conns[i].id.index != conns[j].id.index {
          assert conns[j] == rest[j - 1];
          if i > 0 {
            assert conns[i] == rest[i - 1];
          }
        }
      }
      if forall i, j | 0 <= i < j < |conns| :: conns[i].id.index != conns[j].id.index {
        forall i, j | 0 <= i < j < |rest| ensures rest[i].id.index != rest[j].id.index {
          assert rest[i] == conns[i + 1] && rest[j] == conns[j + 1];
        }
        forall i | 0 <= i < |rest| ensures rest[i].id.index != conns[0].id.index {
          assert rest[i] == conns[i + 1];
        }
      }
    }
  }

  lemma {:induction false} DistinctSize(conns: seq<Conn>)
    requires Distinct(conns)
    ensures |Indexes(conns)| == |conns|
  {
    if conns != [] {
      DistinctSize(conns[1..]);
    }
  }

  /** The connection set is ordered by address, so a new one may come anywhere. */
  function Insert(conns: seq<Conn>, pos: nat, c: Conn): seq<Conn>
    requires pos <= |conns|
  {
    conns[..pos] + [c] + conns[pos..]
  }

  lemma {:induction false} Inserted(conns: seq<Conn>, pos: nat, c: Conn)
    requires pos <= |conns| && Distinct(conns) && c.id.index !in Indexes(conns)
    ensures var all := Insert(conns, pos, c);
            Distinct(all) && Indexes(all) == Indexes(conns) + {c.id.index}
  {
    var all := Insert(conns, pos, c);
    if pos == 0 {
      assert all[1..] == conns;
    } else {
      assert all[1..] == Insert(conns[1..], pos - 1, c);
      Inserted(conns[1..], pos - 1, c);
    }
  }

  lemma {:induction false} Removed(conns: seq<Conn>, i: nat, rest: seq<Conn>)
    requires i < |conns| && Distinct(conns) && rest == conns[..i] + conns[i + 1..]
    ensures conns[i].id.index in Indexes(conns)
    ensures Distinct(rest) && Indexes(rest) == Indexes(conns) - {conns[i].id.index}
  {
    if i == 0 {
      assert rest == conns[1..];
    } else {
      assert rest[1..] == conns[1..][..i - 1] + conns[1..][i..];
      Removed(conns[1..], i - 1, rest[1..]);
    }
  }

  lemma {:induction false} Changed(conns: seq<Conn>, i: nat, c: Conn)
    requires i < |conns| && Distinct(conns) && c.id == conns[i].id
    ensures Distinct(conns[i := c]) && Indexes(conns[i := c]) == Indexes(conns)
  {
    if i == 0 {
      assert conns[i := c][1..] == conns[1..];
    } else {
      assert conns[i := c][1..] == conns[1..][i - 1 := c];
      Changed(conns[1..], i - 1, c);
    }
  }

  /** Every connection owns a live index of its own; what else is live is leaked. */
  ghost predicate Owned(conns: seq<Conn>, leaked: set<int>, live: set<int>) {
    Distinct(conns) && leaked !! Indexes(conns) && live == Indexes(conns) + leaked
  }

  lemma OwnedInsert(conns: seq<Conn>, leaked: set<int>, live: set<int>, pos: nat, c: Conn)
    requires Owned(conns, leaked, live) && pos <= |conns| && c.id.index !in live
    ensures Owned(Insert(conns, pos, c), leaked, live + {c.id.index})
  {
    Inserted(conns, pos, c);
  }

  lemma OwnedLeak(conns: seq<Conn>, leaked: set<int>, live: set<int>, x: int)
    requires Owned(conns, leaked, live) && x !in live
    ensures Owned(conns, leaked + {x}, live + {x}) && |leaked + {x}| == |leaked| + 1
  {
  }

  lemma OwnedRemove(conns: seq<Conn>, leaked: set<int>, live: set<int>, i: nat, rest: seq<Conn>)
    requires Owned(conns, leaked, live) && i < |conns| && rest == conns[..i] + conns[i + 1..]
    ensures var x := conns[i].id.index;
            && x in live && x !in leaked
            && Owned(rest, leaked, live - {x})
            && Owned(rest, leaked + {x}, live)
  {
    Removed(conns, i, rest);
  }

  lemma OwnedChange(conns: seq<Conn>, leaked: set<int>, live: set<int>, i: nat, c: Conn)
    requires Owned(conns, leaked, live) && i < |conns| && c.id == conns[i].id
    ensures Owned(conns[i := c], leaked, live)
  {
    Changed(conns, i, c);
  }

  /** The first n connections are being dropped; all before the last were not logged in. */
  ghost predicate Dropping(conns: seq<Conn>, n: nat, state: nat) {
    && n <= |conns|
    && (forall k | 0 <= k < n - 1 :: conns[k].state < AUTHENTICATED)
    && (if n == 0 then state < AUTHENTICATED else state == conns[n - 1].state)
  }

  lemma DroppingStep(conns: seq<Conn>, n: nat, state: nat)
    requires Dropping(conns, n, state) && state < AUTHENTICATED && n < |conns|
    ensures Dropping(conns, n + 1, conns[n].state)
  {
  }

  class StratumServer {
    const ids: SessionIDManager
    const grandPoolEnabled: bool
    var connections: seq<Conn>
    /** Ids that are still marked used though no connection owns them. */
    ghost var leaked: set<int>

    ghost function Repr(): set<object>
      reads this
    {
      {this, ids, ids.sessionIds}
    }

    ghost predicate Valid()
      reads Repr()
    {
      ids.Valid() && Owned(connections, leaked, ids.live)
    }

    /** The count of the manager is the number of connections plus the number of leaked ids. */
    lemma CountIs()
      requires Valid()
      ensures ids.count == |connections| + |leaked|
    {
      DistinctSize(connections);
    }

    /** So new clients are turned away exactly when connections and leaks fill the space. */
    lemma FullIs()
      requires Valid()
      ensures AllUsed(ids.sessionIds[..]) <==> |connections| + |leaked| == Pow2(ids.ibits)
    {
      CountIs();
      UsedSize(ids.sessionIds[..]);
    }

    constructor (ibits: nat, serverId: nat, grandPools: bool)
      requires ibits <= 24 && serverId < 256
      ensures Valid() && fresh(Repr()) && connections == [] && leaked == {}
    {
      ids := new SessionIDManager(ibits, serverId);
      grandPoolEnabled := grandPools;
      connections, leaked := [], {};
    }

    /** An id for a new connection, if there is one. */
    method AllocId() returns (ok: bool, id: SessionId)
      requires ids.Valid()
      modifies ids, ids.sessionIds
      ensures ids.Valid() && (ok <==> !old(AllUsed(ids.sessionIds[..])))
      ensures if ok then id.index !in old(ids.live) && ids.live == old(ids.live) + {id.index}
              else ids.live == old(ids.live)
      ensures ok ==> id.server == ids.serverId
    {
      var raw;
      ghost var index;
      ok, raw, index := ids.AllocSessionId();
      if ok {
        IdParts(ids.serverId, ids.ibits, index);
      }
      id := SessionId(ids.serverId, IndexOf(raw, ids.ibits));
    }

    /** Free an id that is in use. */
    method FreeId(id: SessionId)
      requires ids.Valid() && id.index in ids.live
      modifies ids, ids.sessionIds
      ensures ids.Valid() && ids.live == old(ids.live) - {id.index}
    {
      IdParts(id.server, ids.ibits, id.index);
      ids.FreeSessionId(MakeId(id.server, ids.ibits, id.index));
    }

    /** A client connects.  Without a free id it is turned away; if the session cannot
        be set up its id stays marked. */
    method Accept(chainId: nat, isGrandPool: bool, setUp: bool, pos: nat) returns (accepted: bool, ghost id: SessionId)
      requires Valid() && pos <= |connections|
      modifies Repr()
      ensures Valid()
      ensures accepted <==> setUp && !old(AllUsed(ids.sessionIds[..]))
      ensures if accepted
              then id.server == ids.serverId && leaked == old(leaked) &&
                   connections == Insert(old(connections), pos, Conn(id, chainId, false, isGrandPool, 0))
              else connections == old(connections) &&
                   |leaked| == |old(leaked)| + if old(AllUsed(ids.sessionIds[..])) then 0 else 1
    {
      ghost var live := ids.live;
      var ok, newId := AllocId();
      id := newId;
      accepted := ok && setUp;
      if accepted {
        var c := Conn(newId, chainId, false, isGrandPool, 0);
        OwnedInsert(connections, leaked, live, pos, c);
        connections := Insert(connections, pos, c);
      } else if ok {
        OwnedLeak(connections, leaked, live, newId.index);
        leaked := leaked + {newId.index};
      }
    }

    /** The socket of a connection has failed. */
    method RemoveConnection(i: nat)
      requires Valid() && i < |connections|
      modifies this`connections
      ensures Valid() && connections == old(connections)[i := old(connections)[i].(isDead := true)]
    {
      OwnedChange(connections, leaked, ids.live, i, connections[i].(isDead := true));
      connections := connections[i := connections[i].(isDead := true)];
    }

    /** A connection subscribes, logs in or changes its chain. */
    method Progress(i: nat, state: nat, chainId: nat)
      requires Valid() && i < |connections|
      modifies this`connections
      ensures Valid() && connections == old(connections)[i := old(connections)[i].(state := state, chainId := chainId)]
    {
      OwnedChange(connections, leaked, ids.live, i, connections[i].(state := state, chainId := chainId));
      connections := connections[i := connections[i].(state := state, chainId := chainId)];
    }

    /** Send a job to everyone it is for, and let the dead go: each id they owned is
        live when it is freed. */
    method SendMiningNotifyToAll(job: Job) returns (sent: seq<Conn>)
      requires Valid()
      modifies Repr()
      ensures Valid() && leaked == old(leaked)
      ensures connections == Select(old(connections), IsAlive)
      ensures sent == Select(old(connections), ServedFirst(job, grandPoolEnabled)) +
                      Select(old(connections), ServedSecond(job, grandPoolEnabled))
      ensures forall c :: c in sent <==> c in old(connections) && !c.isDead && c.chainId == job.chainId
      ensures forall c :: c in connections <==> c in old(connections) && !c.isDead
      ensures grandPoolEnabled && job.isClean ==>
                forall i, j | 0 <= i < j < |sent| && sent[j].isGrandPool :: sent[i].isGrandPool
    {
      ghost var conns := connections;
      var first := FirstPass(job);
      var second := SecondPass(job);
      sent := first + second;
      forall c ensures c in sent <==> c in conns && !c.isDead && c.chainId == job.chainId {
        ReceiversAre(conns, job, grandPoolEnabled, c);
      }
      forall c ensures c in connections <==> c in conns && !c.isDead {
        Selected(conns, IsAlive, c);
      }
      if grandPoolEnabled && job.isClean {
        forall i, j | 0 <= i < j < |sent| && sent[j].isGrandPool ensures sent[i].isGrandPool {
          GrandPoolsFirst(conns, job, grandPoolEnabled, i, j);
        }
      }
    }

    method FirstPass(job: Job) returns (sent: seq<Conn>)
      ensures sent == Select(connections, ServedFirst(job, grandPoolEnabled))
    {
      sent := [];
      if !(grandPoolEnabled && job.isClean) {
        NoneServedFirst(connections, job, grandPoolEnabled);
        return;
      }
      for i := 0 to |connections|
        invariant sent == Select(connections[..i], ServedFirst(job, grandPoolEnabled))
      {
        SelectNext(connections, ServedFirst(job, grandPoolEnabled), i);
        var conn := connections[i];
        if conn.isGrandPool && !conn.isDead {
          if conn.chainId == job.chainId {
            sent := sent + [conn];
          }
        }
      }
      assert connections[..|connections|] == connections;
    }

    method SecondPass(job: Job) returns (sent: seq<Conn>)
      requires Valid()
      modifies Repr()
      ensures Valid() && leaked == old(leaked)
      ensures connections == Select(old(connections), IsAlive)
      ensures sent == Select(old(connections), ServedSecond(job, grandPoolEnabled))
    {
      ghost var conns := connections;
      ghost var done := 0;
      sent := [];
      var i := 0;
      while i < |connections|
        invariant Valid() && leaked == old(leaked)
        invariant Passing(conns, done, connections, i, sent, ServedSecond(job, grandPoolEnabled))
        decreases |connections| - i
      {
        var conn := connections[i];
        PassingAt(conns, done, connections, i, sent, ServedSecond(job, grandPoolEnabled));
        ghost var before := connections;
        if conn.isDead {
          EraseDead(i);
          PassDead(conns, done, before, connections, i, sent, ServedSecond(job, grandPoolEnabled));
        } else {
          ghost var sentBefore := sent;
          if !(grandPoolEnabled && job.isClean && conn.isGrandPool) {
            if conn.chainId == job.chainId {
              sent := sent + [conn];
            }
          }
          PassAlive(conns, done, before, i, sentBefore, ServedSecond(job, grandPoolEnabled));
          i := i + 1;
        }
        done := done + 1;
      }
      PassingEnd(conns, done, connections, i, sent, ServedSecond(job, grandPoolEnabled));
    }

    /** Free the id of a dead connection and forget it. */
    method EraseDead(i: nat)
      requires Valid() && i < |connections|
      modifies Repr()
      ensures Valid() && leaked == old(leaked)
      ensures |connections| == |old(connections)| - 1
      ensures connections[..i] == old(connections)[..i] && connections[i..] == old(connections)[i + 1..]
    {
      ghost var live := ids.live;
      var rest := connections[..i] + connections[i + 1..];
      OwnedRemove(connections, leaked, live, i, rest);
      FreeId(connections[i].id);
      connections := rest;
    }

    /** One tick of a graceful shutdown: drop connections up to and including the first
        one that is logged in.  Their ids are not freed. */
    method DisconnectTick() returns (stop: bool, ghost n: nat)
      requires Valid()
      modifies this
      ensures Valid() && (stop <==> old(connections) == []) && (n == 0 <==> stop)
      ensures n <= |old(connections)| && connections == old(connections)[n..]
      ensures n > 0 ==> Dropping(old(connections), n, old(connections)[n - 1].state)
      ensures 0 < n < |old(connections)| ==> old(connections)[n - 1].state >= AUTHENTICATED
      ensures |leaked| == |old(leaked)| + n
    {
      stop, n := connections == [], 0;
      ghost var conns := connections;
      ghost var lost := |leaked|;
      var state: nat := 0;
      while connections != [] && state < AUTHENTICATED
        invariant Valid() && n <= |conns| && connections == conns[n..]
        invariant Dropping(conns, n, state)
        invariant |leaked| == lost + n
        decreases |connections|
      {
        DroppingStep(conns, n, state);
        assert conns[n..][1..] == conns[n + 1..] && conns[n..][0] == conns[n];
        state := connections[0].state;
        EraseFirst();
        n := n + 1;
      }
    }

    /** Forget the first connection without freeing its id. */
    method EraseFirst()
      requires Valid() && connections != []
      modifies this
      ensures Valid() && connections == old(connections)[1..] && |leaked| == |old(leaked)| + 1
    {
      ghost var live := ids.live;
      var rest := connections[1..];
      OwnedRemove(connections, leaked, live, 0, rest);
      ghost var lost := leaked + {connections[0].id.index};
      assert Owned(rest, lost, live);
      leaked := lost;
      connections := rest;
      assert ids.live == live;
    }
  }

  lemma {:induction false} NoneServedFirst(conns: seq<Conn>, job: Job, grandPools: bool)
    requires !(grandPools && job.isClean)
    ensures Select(conns, ServedFirst(job, grandPools)) == []
  {
    if conns != [] {
      NoneServedFirst(conns[..|conns| - 1], job, grandPools);
    }
  }

  // ---- Whole runs ----

  datatype ServerOp =
    | ClientConnects(chainId: nat, isGrandPool: bool, setUp: bool, pos: nat)
    | SocketFails(i: nat)
    | SessionMoves(i: nat, state: nat, chain: nat)
    | Broadcast(job: Job)
    | ShutdownTick

  /** Whatever happens, in whatever order, no id is owned twice, none is freed that is
      not in use, and the count is right. */
  method Serve(server: StratumServer, ops: seq<ServerOp>)
    requires server.Valid()
    modifies server.Repr()
    ensures server.Valid() && server.ids.count == |server.connections| + |server.leaked|
  {
    for k := 0 to |ops|
      invariant server.Valid()
    {
      match ops[k]
      case ClientConnects(chainId, isGrandPool, setUp, pos) =>
        if pos <= |server.connections| {
          ghost var id;
          var accepted;
          accepted, id := server.Accept(chainId, isGrandPool, setUp, pos);
        }
      case SocketFails(i) =>
        if i < |server.connections| {
          server.RemoveConnection(i);
        }
      case SessionMoves(i, state, chain) =>
        if i < |server.connections| {
          server.Progress(i, state, chain);
        }
      case Broadcast(job) =>
        var sent := server.SendMiningNotifyToAll(job);
      case ShutdownTick =>
        ghost var n;
        var stop;
        stop, n := server.DisconnectTick();
    }
    server.CountIs();
  }
}
