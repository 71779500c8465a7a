/** The binary MINING_SET_DIFF messages that tell an agent about new difficulties.

    A frame is magic(1) command(1) length(2) exponent(1) count(2) session-id(2)*,
    little-endian; a long list is split over several frames.
  */
module SetDiffFrames {
  import opened Options

  type Byte = b: int | 0 <= b < 256
  type Word = w: int | 0 <= w < 65536

  const MAGIC: Byte := 0x7F
  const MINING_SET_DIFF: Byte := 0x05
  const HEADER: nat := 7
  const MAX_COUNT: nat := 32764

  /** What one frame says: these sessions have difficulty 2^exponent. */
  datatype Frame = Frame(exponent: Byte, ids: seq<Word>)

  function Lo(w: Word): Byte {
    w % 256
  }

  function Hi(w: Word): Byte {
    w / 256
  }

  function FromBytes(lo: Byte, hi: Byte): Word {
    lo + 256 * hi
  }

  // ---- The agent's side: split by the length fields and decode ----

  function DecodeIds(bytes: seq<Byte>): seq<Word> {
    if |bytes| < 2 then [] else [FromBytes(bytes[0], bytes[1])] + DecodeIds(bytes[2..])
  }

  function DecodeFrame(bytes: seq<Byte>): (r: Option<(Frame, nat)>)
    ensures r.Some? ==> HEADER <= r.value.1 <= |bytes|
  {
    if |bytes| < HEADER || bytes[0] != MAGIC || bytes[1] != MINING_SET_DIFF then None else
    var length := FromBytes(bytes[2], bytes[3]);
    var count := FromBytes(bytes[5], bytes[6]);
    if length != HEADER + 2 * count || length > |bytes| then None
    else Some((Frame(bytes[4], DecodeIds(bytes[HEADER..length])), length))
  }

  function Decode(bytes: seq<Byte>): Option<seq<Frame>> {
    if bytes == [] then Some([]) else
    var first := DecodeFrame(bytes);
    if first.None? then None else
    var rest := Decode(bytes[first.value.1..]);
    if rest.None? then None else Some([first.value.0] + rest.value)
  }

  /** All sessions announced with one exponent, in order of arrival. */
  function Collect(frames: seq<Frame>, exponent: Byte): seq<Word> {
    if frames == [] then [] else
    (if frames[0].exponent == exponent then frames[0].ids else []) + Collect(frames[1..], exponent)
  }

  // ---- The pool's side ----

  function EncodeIds(ids: seq<Word>): (r: seq<Byte>)
    ensures |r| == 2 * |ids|
  {
    if ids == [] then [] else [Lo(ids[0]), Hi(ids[0])] + EncodeIds(ids[1..])
  }

  function Encode(f: Frame): (r: seq<Byte>)
    requires |f.ids| <= MAX_COUNT
    ensures |r| == HEADER + 2 * |f.ids|
  {
    var length: Word := HEADER + 2 * |f.ids|;
    var count: Word := |f.ids|;
    [MAGIC, MINING_SET_DIFF, Lo(length), Hi(length), f.exponent, Lo(count), Hi(count)] + EncodeIds(f.ids)
  }

  function EncodeAll(frames: seq<Frame>): seq<Byte>
    requires Fit(frames)
  {
    if frames == [] then [] else Encode(frames[0]) + EncodeAll(frames[1..])
  }

  function IdsFor(diffs: map<Byte, seq<Word>>, exponent: Byte): seq<Word> {
    if exponent in diffs then diffs[exponent] else []
  }

  // ---- Round trips ----

  lemma {:induction false} DecodeEncodedIds(ids: seq<Word>)
    ensures DecodeIds(EncodeIds(ids)) == ids
  {
    if ids != [] {
      DecodeEncodedIds(ids[1..]);
      assert EncodeIds(ids)[2..] == EncodeIds(ids[1..]);
    }
  }

  function LittleEndian(first: int, second: int): int {
    first + 256 * second
  }

  lemma {:induction false} IdAt(ids: seq<Word>, i: nat)
    requires i < |ids|
    ensures LittleEndian(EncodeIds(ids)[2 * i], EncodeIds(ids)[2 * i + 1]) == ids[i]
  {
    if i > 0 {
      IdAt(ids[1..], i - 1);
      assert EncodeIds(ids)[2..] == EncodeIds(ids[1..]);
    }
  }

  /** Where everything stands in a frame: the low byte of a number first. */
  lemma FrameLayout(f: Frame, i: nat)
    requires |f.ids| <= MAX_COUNT
    ensures var b := Encode(f);
            && |b| == 7 + 2 * |f.ids| <= 65535
            && b[0] == 0x7F && b[1] == 0x05
            && LittleEndian(b[2], b[3]) == |b|
            && b[4] == f.exponent
            && LittleEndian(b[5], b[6]) == |f.ids|
            && (i < |f.ids| ==> LittleEndian(b[7 + 2 * i], b[8 + 2 * i]) == f.ids[i])
  {
    if i < |f.ids| {
      IdAt(f.ids, i);
      assert Encode(f)[7 + 2 * i] == EncodeIds(f.ids)[2 * i] && Encode(f)[8 + 2 * i] == EncodeIds(f.ids)[2 * i + 1];
    }
  }

  lemma DecodeEncodedFrame(f: Frame, tail: seq<Byte>)
    requires |f.ids| <= MAX_COUNT
    ensures DecodeFrame(Encode(f) + tail) == Some((f, |Encode(f)|))
  {
    var bytes := Encode(f) + tail;
    assert bytes[HEADER..|Encode(f)|] == EncodeIds(f.ids);
    DecodeEncodedIds(f.ids);
  }

  lemma {:induction false} DecodeEncoded(frames: seq<Frame>)
    requires Fit(frames)
    ensures Decode(EncodeAll(frames)) == Some(frames)
  {
    if frames != [] {
      var f, tail := frames[0], EncodeAll(frames[1..]);
      DecodeEncodedFrame(f, tail);
      assert EncodeAll(frames) == Encode(f) + tail && (Encode(f) + tail)[|Encode(f)|..] == tail;
      DecodeEncoded(frames[1..]);
      assert [f] + frames[1..] == frames;
    }
  }

  /** Frames of a size that fits the length field. */
  ghost predicate Fit(frames: seq<Frame>) {
    forall i | 0 <= i < |frames| :: 0 < |frames[i].ids| <= MAX_COUNT
  }

  lemma {:induction false} EncodeAllAppend(frames: seq<Frame>, f: Frame)
    requires Fit(frames) && 0 < |f.ids| <= MAX_COUNT
    ensures EncodeAll(frames + [f]) == EncodeAll(frames) + Encode(f)
  {
    if frames == [] {
      assert frames + [f] == [f] && EncodeAll([f][1..]) == [];
    } else {
      assert (frames + [f])[1..] == frames[1..] + [f];
      EncodeAllAppend(frames[1..], f);
    }
  }

  lemma {:induction false} CollectAppend(frames: seq<Frame>, f: Frame, exponent: Byte)
    ensures Collect(frames + [f], exponent) ==
            Collect(frames, exponent) + if f.exponent == exponent then f.ids else []
  {
    if frames == [] {
      assert frames + [f] == [f] && Collect([f][1..], exponent) == [];
    } else {
      assert (frames + [f])[1..] == frames[1..] + [f];
      CollectAppend(frames[1..], f, exponent);
    }
  }

  lemma {:induction false} EncodeIdsAppend(ids: seq<Word>, id: Word)
    ensures EncodeIds(ids + [id]) == EncodeIds(ids) + [Lo(id), Hi(id)]
  {
    if ids == [] {
      assert ids + [id] == [id] && EncodeIds([id][1..]) == [];
    } else {
      assert (ids + [id])[1..] == ids[1..] + [id];
      EncodeIdsAppend(ids[1..], id);
    }
  }

  /** The session ids, two bytes each, after the header. */
  method WriteIds(buf: array<Byte>, ids: seq<Word>)
    requires buf.Length == HEADER + 2 * |ids|
    modifies buf
    ensures buf[..HEADER] == old(buf[..HEADER]) && buf[HEADER..] == EncodeIds(ids)
  {
    var p := HEADER;
    for j := 0 to |ids|
      invariant p == HEADER + 2 * j
      invariant buf[..HEADER] == old(buf[..HEADER])
      invariant buf[HEADER..p] == EncodeIds(ids[..j])
    {
      EncodeIdsAppend(ids[..j], ids[j]);
      assert ids[..j + 1] == ids[..j] + [ids[j]];
      ghost var before := buf[HEADER..p];
      buf[p], buf[p + 1] := Lo(ids[j]), Hi(ids[j]);
      assert buf[HEADER..p] == before;
      assert buf[HEADER..p + 2] == buf[HEADER..p] + [Lo(ids[j]), Hi(ids[j])];
      p := p + 2;
    }
    assert ids[..|ids|] == ids && buf[HEADER..p] == buf[HEADER..];
  }

  /** One frame, written field by field into a buffer. */
  method WriteFrame(exponent: Byte, ids: seq<Word>) returns (bytes: seq<Byte>)
    requires |ids| <= MAX_COUNT
    ensures bytes == Encode(Frame(exponent, ids))
  {
    var count := |ids|;
    var len := (1 + 1 + 2 + 1 + 2 + count * 2) % 65536;
    var buf := new Byte[len](_ => 0);
    buf[0], buf[1] := MAGIC, MINING_SET_DIFF;
    buf[2], buf[3] := Lo(len), Hi(len);
    buf[4] := exponent;
    buf[5], buf[6] := Lo(count), Hi(count);
    ghost var header := buf[..HEADER];
    assert header == [MAGIC, MINING_SET_DIFF, Lo(len), Hi(len), exponent, Lo(count), Hi(count)];
    WriteIds(buf, ids);
    bytes := buf[..];
    assert bytes == buf[..HEADER] + buf[HEADER..];
  }

  /** The frames so far announce all lists below exponent e, the first `done` sessions
      of list e, and nothing else. */
  ghost predicate Announced(frames: seq<Frame>, diffs: map<Byte, seq<Word>>, e: int, done: seq<Word>) {
    && Fit(frames)
    && forall x: Byte :: Collect(frames, x) == if x < e then IdsFor(diffs, x) else if x == e then done else []
  }

  lemma AnnounceMore(frames: seq<Frame>, diffs: map<Byte, seq<Word>>, e: Byte, done: seq<Word>, part: seq<Word>)
    requires Announced(frames, diffs, e, done) && 0 < |part| <= MAX_COUNT
    ensures Announced(frames + [Frame(e, part)], diffs, e, done + part)
    ensures EncodeAll(frames + [Frame(e, part)]) == EncodeAll(frames) + Encode(Frame(e, part))
  {
    EncodeAllAppend(frames, Frame(e, part));
    forall x: Byte
      ensures Collect(frames + [Frame(e, part)], x) ==
              if x < e then IdsFor(diffs, x) else if x == e then done + part else []
    {
      CollectAppend(frames, Frame(e, part), x);
    }
  }

  lemma NextPart(before: seq<Frame>, frames: seq<Frame>, diffs: map<Byte, seq<Word>>, e: Byte,
                 ids: seq<Word>, done: nat, count: nat, bytes: seq<Byte>)
    requires Fit(before) && done + count <= |ids| && 0 < count <= MAX_COUNT
    requires Announced(frames, diffs, e, ids[..done]) && EncodeAll(frames) == EncodeAll(before) + bytes
    ensures var f := Frame(e, ids[done..done + count]);
            && Announced(frames + [f], diffs, e, ids[..done + count])
            && EncodeAll(frames + [f]) == EncodeAll(before) + (bytes + Encode(f))
  {
    var part := ids[done..done + count];
    AnnounceMore(frames, diffs, e, ids[..done], part);
    assert ids[..done + count] == ids[..done] + part;
    assert EncodeAll(before) + (bytes + Encode(Frame(e, part))) == EncodeAll(before) + bytes + Encode(Frame(e, part));
  }

  /** Exponents go up, and only full frames are continued by another one. */
  ghost predicate Tidy(frames: seq<Frame>) {
    forall i | 0 <= i < |frames| - 1 :: Follows(frames[i], frames[i + 1])
  }

  ghost predicate Follows(f: Frame, g: Frame) {
    f.exponent < g.exponent || (f.exponent == g.exponent && |f.ids| == 32764)
  }

  /** A frame for e may come next. */
  ghost predicate Open(frames: seq<Frame>, e: int) {
    frames == [] || frames[|frames| - 1].exponent < e ||
    (frames[|frames| - 1].exponent == e && |frames[|frames| - 1].ids| == 32764)
  }

  lemma TidyMore(frames: seq<Frame>, f: Frame)
    requires Tidy(frames) && Open(frames, f.exponent)
    ensures Tidy(frames + [f])
  {
    var all := frames + [f];
    forall i | 0 <= i < |all| - 1 ensures Follows(all[i], all[i + 1]) {
      if i < |frames| - 1 {
        assert Follows(frames[i], frames[i + 1]);
      }
    }
  }

  /** The first `done` sessions of list e have been written after the frames before. */
  ghost predicate Written(before: seq<Frame>, frames: seq<Frame>, diffs: map<Byte, seq<Word>>, e: Byte,
                          ids: seq<Word>, done: nat, bytes: seq<Byte>)
    requires Fit(before) && done <= |ids|
  {
    && Announced(frames, diffs, e, ids[..done]) && EncodeAll(frames) == EncodeAll(before) + bytes
    && Tidy(frames) && (frames == [] || frames[|frames| - 1].exponent <= e)
    && (done < |ids| ==> Open(frames, e))
  }

  lemma WrittenMore(before: seq<Frame>, frames: seq<Frame>, diffs: map<Byte, seq<Word>>, e: Byte,
                    ids: seq<Word>, done: nat, count: nat, bytes: seq<Byte>)
    requires Fit(before) && done + count <= |ids| && 0 < count <= MAX_COUNT
    requires done + count < |ids| ==> count == MAX_COUNT
    requires Written(before, frames, diffs, e, ids, done, bytes)
    ensures var f := Frame(e, ids[done..done + count]);
            Written(before, frames + [f], diffs, e, ids, done + count, bytes + Encode(f))
  {
    NextPart(before, frames, diffs, e, ids, done, count, bytes);
    TidyMore(frames, Frame(e, ids[done..done + count]));
  }

  /** All frames for one exponent: full ones first, then the rest. */
  method WriteFrames(e: Byte, ids: seq<Word>, ghost diffs: map<Byte, seq<Word>>, ghost before: seq<Frame>)
    returns (bytes: seq<Byte>, ghost frames: seq<Frame>)
    requires Announced(before, diffs, e, [])
    requires Tidy(before) && (before == [] || before[|before| - 1].exponent < e)
    ensures Written(before, frames, diffs, e, ids, |ids|, bytes)
  {
    bytes, frames := [], before;
    var done := 0;
    assert ids[..0] == [];
    while done < |ids|
      invariant 0 <= done <= |ids| && Written(before, frames, diffs, e, ids, done, bytes)
    {
      var count := |ids| - done;
      if count > MAX_COUNT {
        count := MAX_COUNT;
      }
      var part := ids[done..done + count];
      var buf := WriteFrame(e, part);
      WrittenMore(before, frames, diffs, e, ids, done, count, bytes);
      bytes := bytes + buf;
      frames := frames + [Frame(e, part)];
      done := done + count;
    }
  }

  lemma AnnounceNext(frames: seq<Frame>, diffs: map<Byte, seq<Word>>, e: Byte)
    requires Announced(frames, diffs, e, IdsFor(diffs, e))
    ensures Announced(frames, diffs, e + 1, [])
  {
  }

  /** The whole message: exponents in increasing order, each list in frames of at most
      MAX_COUNT sessions.  Decoding it gives back every list, complete and in order. */
  method GetSetDiffCommand(diffs: map<Byte, seq<Word>>) returns (message: seq<Byte>)
    ensures Decode(message).Some? && Fit(Decode(message).value) && Tidy(Decode(message).value)
    ensures message == EncodeAll(Decode(message).value)
    ensures forall exponent: Byte :: Collect(Decode(message).value, exponent) == IdsFor(diffs, exponent)
  {
    message := [];
    ghost var frames: seq<Frame> := [];
    for e := 0 to 256
      invariant Announced(frames, diffs, e, []) && message == EncodeAll(frames)
      invariant Tidy(frames) && (frames == [] || frames[|frames| - 1].exponent < e)
    {
      var ids := if e in diffs then diffs[e] else [];
      var bytes;
      bytes, frames := WriteFrames(e, ids, diffs, frames);
      assert ids[..|ids|] == ids;
      AnnounceNext(frames, diffs, e);
      message := message + bytes;
    }
    DecodeEncoded(frames);
  }
}
