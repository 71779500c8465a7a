/** Session ids: a bit set of used indexes, a cursor that skips ahead after every
    allocation, and a count.  Bit masks of the form 2^IBITS - 1 are remainders here. */
module SessionIds {
  import opened Arithmetic
  import opened Powers

  ghost function Used(bits: seq<bool>): set<int> {
    set i | 0 <= i < |bits| && bits[i]
  }

  ghost predicate AllUsed(bits: seq<bool>) {
    forall i | 0 <= i < |bits| :: bits[i]
  }

  /** As many used indexes as bits only if all are used. */
  lemma {:induction false} UsedSize(bits: seq<bool>)
    ensures |Used(bits)| <= |bits|
    ensures |Used(bits)| == |bits| <==> AllUsed(bits)
  {
    if bits != [] {
      var n := |bits| - 1;
      var rest := bits[..n];
      UsedSize(rest);
      assert Used(bits) == if bits[n] then Used(rest) + {n} else Used(rest);
      assert AllUsed(bits) <==> AllUsed(rest) && bits[n];
    }
  }

  lemma SetBit(bits: seq<bool>, i: int, b: bool)
    requires 0 <= i < |bits|
    ensures Used(bits[i := b]) == if b then Used(bits) + {i} else Used(bits) - {i}
  {
  }

  /** Steps from a to b going up and around. */
  function Distance(a: int, b: int, n: int): (d: int)
    requires 0 <= a < n && 0 <= b < n
    ensures 0 <= d < n && (d == 0 <==> a == b)
  {
    if a <= b then b - a else b - a + n
  }

  /** Going up and around from `start`, index i comes before `end`. */
  ghost predicate Passed(start: int, i: int, end: int, n: int) {
    && 0 <= start < n && 0 <= i < n && 0 <= end < n
    && Distance(start, i, n) < Distance(start, end, n)
  }

  class SessionIDManager {
    const ibits: nat
    const serverId: nat
    const sessionIds: array<bool> // 2^IBITS bits; kSessionIdMask is one less
    var count: nat
    var allocIdx: nat
    var allocInterval: nat
    ghost var live: set<int> // the indexes handed out and not freed

    ghost predicate Valid()
      reads this, sessionIds
    {
      && ibits <= 24 && serverId < 256
      && sessionIds.Length == Pow2(ibits)
      && allocIdx < sessionIds.Length
      && allocInterval < 0x1_0000_0000
      && live == Used(sessionIds[..])
      && count == |live|
    }

    constructor (ibits: nat, serverId: nat)
      requires ibits <= 24 && serverId < 256
      ensures Valid() && fresh(sessionIds) && live == {} && this.ibits == ibits && this.serverId == serverId
      ensures allocIdx == 0 && allocInterval == 0
    {
      this.ibits, this.serverId := ibits, serverId;
      count, allocIdx, allocInterval := 0, 0, 0;
      live := {};
      sessionIds := new bool[Pow2(ibits)](_ => false);
      new;
      assert Used(sessionIds[..]) == {};
    }

    method IfFull() returns (full: bool)
      requires Valid()
      ensures full <==> AllUsed(sessionIds[..])
    {
      UsedSize(sessionIds[..]);
      full := count > sessionIds.Length - 1;
    }

    method SetAllocInterval(interval: nat)
      requires Valid() && interval < 0x1_0000_0000
      modifies this`allocInterval
      ensures Valid() && allocInterval == interval
    {
      allocInterval := interval;
    }

    /** Move the cursor to an unused index.  From any position it gets there. */
    method Probe()
      requires Valid() && !AllUsed(sessionIds[..])
      modifies this`allocIdx
      ensures Valid() && !sessionIds[allocIdx]
      ensures forall i | Passed(old(allocIdx), i, allocIdx, sessionIds.Length) :: sessionIds[i]
    {
      ghost var free :| 0 <= free < sessionIds.Length && !sessionIds[..][free];
      ghost var start := allocIdx;
      while sessionIds[allocIdx]
        invariant Valid()
        invariant Distance(start, allocIdx, sessionIds.Length) <= Distance(start, free, sessionIds.Length)
        invariant forall i | Passed(start, i, allocIdx, sessionIds.Length) :: sessionIds[i]
        decreases Distance(allocIdx, free, sessionIds.Length)
      {
        allocIdx := Next(allocIdx, sessionIds.Length);
      }
    }

    /** Mark the index under the cursor as used. */
    method Take()
      requires Valid() && !sessionIds[allocIdx]
      modifies this`count, this`live, sessionIds
      ensures Valid() && allocIdx !in old(live) && live == old(live) + {allocIdx}
    {
      SetBit(sessionIds[..], allocIdx, true);
      ghost var before := sessionIds[..];
      sessionIds[allocIdx] := true;
      assert sessionIds[..] == before[allocIdx := true];
      count := count + 1;
      live := live + {allocIdx};
    }

    /** Fails exactly when every id is live; otherwise the index of the new id is unlike
        all live ones, and the id carries the server id above it. */
    method AllocSessionId() returns (ok: bool, sessionId: nat, ghost index: nat)
      requires Valid()
      modifies this, sessionIds
      ensures Valid() && allocInterval == old(allocInterval)
      ensures ok <==> !old(AllUsed(sessionIds[..]))
      ensures !ok ==> live == old(live) && allocIdx == old(allocIdx)
      ensures ok ==> index < sessionIds.Length && index !in old(live) && live == old(live) + {index}
      ensures ok ==> forall i | Passed(old(allocIdx), i, index, sessionIds.Length) :: i in old(live)
      ensures ok ==> allocIdx == (index + allocInterval) % sessionIds.Length
      ensures ok ==> sessionId == MakeId(serverId, ibits, index)
    {
      index := 0;
      var full := IfFull();
      if full {
        return false, 0, 0;
      }
      Probe();
      Take();
      index := allocIdx;
      sessionId := MakeId(serverId, ibits, allocIdx);
      AdvanceIs(allocIdx, allocInterval, ibits);
      allocIdx := Advance(allocIdx, allocInterval, sessionIds.Length);
      ok := true;
    }

    /** Freeing is not checked: the count stays right exactly if the id was live. */
    method FreeSessionId(sessionId: nat)
      requires Valid()
      modifies this`count, this`live, sessionIds
      ensures live == old(live) - {IndexOf(sessionId, ibits)}
      ensures count == (old(count) + 0xFFFF_FFFF) % 0x1_0000_0000
      ensures Valid() <==> IndexOf(sessionId, ibits) in old(live)
    {
      var idx := IndexOf(sessionId, ibits);
      ghost var before := sessionIds[..];
      SetBit(before, idx, false);
      UsedSize(before);
      Bounded(ibits);
      CountAfter(live, idx);
      sessionIds[idx] := false;
      assert sessionIds[..] == before[idx := false];
      count := Decremented(count);
      live := live - {idx};
    }
  }

  /** count - 1 in 32-bit arithmetic. */
  function Decremented(count: nat): nat {
    (count + 0xFFFF_FFFF) % 0x1_0000_0000
  }

  /** One less is the right count exactly if there was something to free. */
  lemma CountAfter(live: set<int>, idx: int)
    requires |live| <= 0x100_0000
    ensures Decremented(|live|) == |live - {idx}| <==> idx in live
  {
    if idx in live {
      assert |live - {idx}| == |live| - 1;
    } else {
      assert live - {idx} == live;
    }
  }

  /** A session id: the server id above the index bits. */
  function MakeId(serverId: nat, ibits: nat, index: nat): nat {
    serverId * Pow2(ibits) + index
  }

  /** The index bits of a session id. */
  function IndexOf(sessionId: nat, ibits: nat): (r: nat)
    ensures r < Pow2(ibits)
  {
    sessionId % Pow2(ibits)
  }

  /** A session id can be taken apart again, and fits in 32 bits. */
  lemma IdParts(serverId: nat, ibits: nat, index: nat)
    requires index < Pow2(ibits)
    ensures IndexOf(MakeId(serverId, ibits, index), ibits) == index
    ensures MakeId(serverId, ibits, index) / Pow2(ibits) == serverId
    ensures serverId < 256 && ibits <= 24 ==> MakeId(serverId, ibits, index) < 0x1_0000_0000
  {
    ModUnique(MakeId(serverId, ibits, index), Pow2(ibits), serverId, index);
    if serverId < 256 && ibits <= 24 {
      Bounded(ibits);
      MulMonotone(Pow2(ibits), serverId, 255);
    }
  }

  /** (i + 1) & mask. */
  function Next(i: nat, size: nat): (r: nat)
    requires i < size
    ensures r < size
  {
    if i + 1 == size then 0 else i + 1
  }

  /** The cursor after an allocation, in 32-bit arithmetic. */
  function Advance(idx: nat, interval: nat, size: nat): (r: nat)
    requires size > 0
    ensures r < size
  {
    (idx + interval) % 0x1_0000_0000 % size
  }

  /** The 32-bit wrap-around does not disturb the cursor. */
  lemma AdvanceIs(idx: nat, interval: nat, ibits: nat)
    requires ibits <= 32
    ensures Advance(idx, interval, Pow2(ibits)) == (idx + interval) % Pow2(ibits)
  {
    var n := Exponent32();
    Pow2Adds(ibits, n - ibits);
    ModTwice(idx + interval, Pow2(ibits), Pow2(n - ibits));
  }

  lemma Bounded(ibits: nat)
    requires ibits <= 24
    ensures Pow2(ibits) <= 0x100_0000
  {
    var n := Exponent32();
    Pow2Plus8(n - 8);
    if ibits < n - 8 {
      Pow2Grows(ibits, n - 8);
    }
  }

  // ---- Allocations in a row ----

  /** The index of the k-th allocation, if nothing is in the way. */
  function Spaced(k: nat, interval: nat, size: nat): nat
    requires size > 0
  {
    k * interval % size
  }

  lemma SpacedNext(k: nat, interval: nat, size: nat)
    requires size > 0
    ensures (Spaced(k, interval, size) + interval) % size == Spaced(k + 1, interval, size)
  {
    ModAdds(k * interval, interval, size);
    assert k * interval + interval == (k + 1) * interval;
  }

  lemma SpacedFirst(interval: nat, size: nat)
    requires size > 0
    ensures Spaced(0, interval, size) == 0
  {
    ModUnique(0, size, 0, 0);
  }

  ghost function SpacedSet(k: nat, interval: nat, size: nat): set<int>
    requires size > 0
  {
    if k == 0 then {} else SpacedSet(k - 1, interval, size) + {Spaced(k - 1, interval, size)}
  }

  lemma {:induction false} InSpacedSet(k: nat, interval: nat, size: nat, x: int)
    requires size > 0
    ensures x in SpacedSet(k, interval, size) <==> exists i: nat | i < k :: Spaced(i, interval, size) == x
  {
    if k > 0 {
      InSpacedSet(k - 1, interval, size, x);
      assert x == Spaced(k - 1, interval, size) ==> exists i: nat | i < k :: Spaced(i, interval, size) == x;
    }
  }

  lemma NewlySpaced(k: nat, interval: nat, size: nat)
    requires size > 0 && forall i: nat | i < k :: Spaced(i, interval, size) != Spaced(k, interval, size)
    ensures Spaced(k, interval, size) !in SpacedSet(k, interval, size)
  {
    InSpacedSet(k, interval, size, Spaced(k, interval, size));
  }

  /** A free index under the cursor is the one that is taken. */
  lemma TakenAtOnce(start: int, index: int, live: set<int>, n: int)
    requires 0 <= start < n && 0 <= index < n && start !in live
    requires forall i | Passed(start, i, index, n) :: i in live
    ensures index == start
  {
    assert index != start ==> Passed(start, start, index, n);
  }

  /** A new manager hands out indexes in steps of the interval, as long as they differ:
      none of the skipped ones is given away before that. */
  method AllocInARow(ibits: nat, serverId: nat, interval: nat, n: nat) returns (indexes: seq<int>)
    requires ibits <= 24 && serverId < 256 && interval < 0x1_0000_0000
    requires forall i, j | 0 <= i < j < n :: Spaced(i, interval, Pow2(ibits)) != Spaced(j, interval, Pow2(ibits))
    ensures |indexes| == n && forall k | 0 <= k < n :: indexes[k] == Spaced(k, interval, Pow2(ibits))
  {
    var m := new SessionIDManager(ibits, serverId);
    m.SetAllocInterval(interval);
    indexes := [];
    ghost var size := Pow2(ibits);
    SpacedFirst(interval, size);
    for k := 0 to n
      invariant m.Valid() && fresh(m) && fresh(m.sessionIds) && m.ibits == ibits && m.allocInterval == interval
      invariant |indexes| == k && forall i | 0 <= i < k :: indexes[i] == Spaced(i, interval, size)
      invariant m.allocIdx == Spaced(k, interval, size) && m.live == SpacedSet(k, interval, size)
    {
      NewlySpaced(k, interval, size);
      var index := AllocSpaced(m, k);
      indexes := indexes + [index];
    }
  }

  method AllocSpaced(m: SessionIDManager, ghost k: nat) returns (i: nat)
    requires m.Valid() && m.sessionIds.Length > 0
    requires m.allocIdx == Spaced(k, m.allocInterval, m.sessionIds.Length) && m.allocIdx !in m.live
    modifies m, m.sessionIds
    ensures m.Valid() && m.allocInterval == old(m.allocInterval)
    ensures i == old(m.allocIdx) && m.live == old(m.live) + {i}
    ensures m.allocIdx == Spaced(k + 1, m.allocInterval, m.sessionIds.Length)
  {
    ghost var live, start := m.live, m.allocIdx;
    assert !m.sessionIds[..][start];
    var ok, id;
    ghost var index;
    ok, id, index := m.AllocSessionId();
    TakenAtOnce(start, index, live, m.sessionIds.Length);
    SpacedNext(k, m.allocInterval, m.sessionIds.Length);
    IdParts(m.serverId, m.ibits, index);
    i := IndexOf(id, m.ibits);
  }
}
