/**
 The length-prefixed frame codec of `sqry-daemon-protocol/src/framing.rs`, over
 a byte stream that hands out its bytes in chunks of its own choosing.
 */
module Framing {
  import opened Wrappers

  newtype byte = x: int | 0 <= x < 256

  type Bytes = seq<byte>

  const MAX_FRAME_BYTES: nat := 64 * 1024 * 1024

  // ---------------------------------------------------------------------
  // The wire form
  // ---------------------------------------------------------------------

  function LittleEndian(n: nat): (b: Bytes)
    requires n < 0x1_0000_0000
    ensures |b| == 4
  {
    [(n % 256) as byte, (n / 256 % 256) as byte, (n / 65536 % 256) as byte, (n / 16777216) as byte]
  }

  function FromLittleEndian(b: Bytes): nat
    requires |b| == 4
  {
    b[0] as nat + 256 * b[1] as nat + 65536 * b[2] as nat + 16777216 * b[3] as nat
  }

  lemma LittleEndianRoundTrip(n: nat)
    requires n < 0x1_0000_0000
    ensures FromLittleEndian(LittleEndian(n)) == n
  {
    assert n / 65536 == n / 256 / 256 && n / 16777216 == n / 65536 / 256;
  }

  function Encode(body: Bytes): Bytes
    requires |body| <= MAX_FRAME_BYTES
  {
    LittleEndian(|body|) + body
  }

  // ---------------------------------------------------------------------
  // The two ends of a stream
  // ---------------------------------------------------------------------

  /** What a stream does once its bytes are used up. */
  datatype StreamEnd = Eof | Fails | Silent

  datatype IoError = UnexpectedEof | InvalidData | InvalidInput | Transport | Dropped

  datatype Chunk = Data(bytes: Bytes) | End | Failure | Pending

  /**
   A reader holding the bytes the peer will ever send.  While `armed`, a timer
   may drop any read; only then may the peer stay silent.
   */
  class Reader {
    var incoming: Bytes
    const end: StreamEnd
    var armed: bool

    constructor (bytes: Bytes, end: StreamEnd)
      ensures incoming == bytes && this.end == end && !armed
    {
      incoming, armed := bytes, false;
      this.end := end;
    }

    /** One read into a buffer of `max` bytes: any non-empty chunk that fits, until the bytes run out. */
    method Read(max: nat) returns (r: Chunk)
      requires max > 0 && (end == Silent ==> armed)
      modifies this`incoming
      ensures r.Data? ==> 0 < |r.bytes| <= max && old(incoming) == r.bytes + incoming
      ensures !r.Data? ==> incoming == old(incoming)
      ensures r.End? || r.Failure? ==> incoming == []
      ensures r.End? ==> end == Eof
      ensures r.Failure? ==> end == Fails
      ensures r.Pending? ==> armed
    {
      var dropped: bool := *;
      if armed && dropped {
        return Pending;
      }
      if incoming == [] {
        match end
        case Eof => return End;
        case Fails => return Failure;
        case Silent => return Pending;
      }
      var n: nat :| 0 < n <= max && n <= |incoming|;
      r := Data(incoming[..n]);
      incoming := incoming[n..];
    }
  }

  /** A writer that accepts `room` more bytes before it fails, or any number; its flush may fail too. */
  class Writer {
    var written: Bytes
    var room: Option<nat>
    const flushes: bool

    constructor (room: Option<nat>, flushes: bool)
      ensures written == [] && this.room == room && this.flushes == flushes
    {
      written := [];
      this.room := room;
      this.flushes := flushes;
    }

    predicate Reliable()
      reads this
    {
      room == None && flushes
    }

    method WriteAll(bytes: Bytes) returns (ok: bool)
      modifies this
      ensures ok ==> written == old(written) + bytes
      ensures !ok ==> old(room).Some? && exists n :: 0 <= n < |bytes| && written == old(written) + bytes[..n]
      ensures room.Some? == old(room).Some?
    {
      match room
      case None =>
        written := written + bytes;
        return true;
      case Some(n) =>
        if n < |bytes| {
          written := written + bytes[..n];
          room := Some(0);
          return false;
        }
        written := written + bytes;
        room := Some(n - |bytes|);
        return true;
    }

    /** Flushing may fail after every byte is written. */
    method Flush() returns (ok: bool)
      ensures !ok ==> !flushes
    {
      if flushes {
        return true;
      }
      ok := *;
    }
  }

  // ---------------------------------------------------------------------
  // Writing
  // ---------------------------------------------------------------------

  /** A prefix of a frame is all that a failed write leaves behind; the whole frame, only when the flush failed. */
  predicate CutShort(before: Bytes, after: Bytes, frame: Bytes, flushes: bool) {
    exists n :: 0 <= n <= |frame| && after == before + frame[..n] && (n == |frame| ==> !flushes)
  }

  method WriteFrame(w: Writer, body: Bytes) returns (r: Result<(), IoError>)
    modifies w
    ensures w.Reliable() == old(w.Reliable())
    ensures r == Err(InvalidInput) <==> |body| > MAX_FRAME_BYTES
    ensures r == Err(InvalidInput) ==> w.written == old(w.written)
    ensures r.Ok? ==> |body| <= MAX_FRAME_BYTES && w.written == old(w.written) + Encode(body)
    ensures r.Err? && |body| <= MAX_FRAME_BYTES ==>
              r == Err(Transport) && !old(w.Reliable()) &&
              CutShort(old(w.written), w.written, Encode(body), w.flushes)
  {
    if |body| > MAX_FRAME_BYTES {
      return Err(InvalidInput);
    }
    ghost var before := w.written;
    ghost var frame := Encode(body);
    var prefix := LittleEndian(|body|);
    var ok := w.WriteAll(prefix);
    if !ok {
      ghost var n :| 0 <= n < 4 && w.written == before + prefix[..n];
      assert prefix[..n] == frame[..n];
      return Err(Transport);
    }
    ghost var head := w.written;
    ok := w.WriteAll(body);
    if !ok {
      ghost var n :| 0 <= n < |body| && w.written == head + body[..n];
      assert before + prefix + body[..n] == before + frame[..4 + n];
      return Err(Transport);
    }
    assert before + prefix + body == before + frame;
    ok := w.Flush();
    if !ok {
      assert frame[..|frame|] == frame;
      return Err(Transport);
    }
    return Ok(());
  }

  // ---------------------------------------------------------------------
  // Reading
  // ---------------------------------------------------------------------

  datatype FrameRead = FrameRead(result: Result<Option<Bytes>, IoError>, used: nat)

  /** What is reported when the bytes run out inside a frame. */
  function RanOut(end: StreamEnd): IoError {
    match end
    case Eof => UnexpectedEof
    case Fails => Transport
    case Silent => Dropped
  }

  /** What reading one frame comes to, from the bytes alone. */
  function FirstFrame(s: Bytes, end: StreamEnd): (f: FrameRead)
    ensures f.used <= |s| && (f.result.Ok? && f.result.value.Some? ==> 0 < f.used)
  {
    if s == [] && end == Eof then FrameRead(Ok(None), 0)
    else if |s| < 4 then FrameRead(Err(RanOut(end)), |s|)
    else
      var len := FromLittleEndian(s[..4]);
      if len > MAX_FRAME_BYTES then FrameRead(Err(InvalidData), 4)
      else if |s| < 4 + len then FrameRead(Err(RanOut(end)), |s|)
      else FrameRead(Ok(Some(s[4..4 + len])), 4 + len)
  }

  /** At most `limit` bytes are gone from the front. */
  predicate TakenWithin(before: Bytes, after: Bytes, limit: nat) {
    exists n :: 0 <= n <= |before| && n <= limit && after == before[n..]
  }

  /** Positions after the prefix are positions in the whole. */
  lemma BodyAfterPrefix(all: Bytes, len: nat, after: Bytes)
    requires |all| >= 4
    ensures TakenWithin(all[4..], after, len) ==> TakenWithin(all, after, 4 + len)
    ensures TakenWithin(all[4..], after, len) && |all| < 4 + len ==> TakenWithin(all, after, |all|)
    ensures 4 + len <= |all| ==> all[4..][..len] == all[4..4 + len] && all[4..][len..] == all[4 + len..]
  {
    if TakenWithin(all[4..], after, len) {
      var n :| 0 <= n <= |all| - 4 && n <= len && after == all[4..][n..];
      assert all[4..][n..] == all[4 + n..];
    }
  }

  /** Put a chunk behind the bytes already in the buffer. */
  method CopyChunk(buf: array<byte>, filled: nat, bytes: Bytes)
    requires filled + |bytes| <= buf.Length
    modifies buf
    ensures buf[..filled + |bytes|] == old(buf[..filled]) + bytes
  {
    forall i | 0 <= i < |bytes| {
      buf[filled + i] := bytes[i];
    }
  }

  lemma NextChunk(all: Bytes, filled: nat, bytes: Bytes, rest: Bytes)
    requires filled <= |all| && all[filled..] == bytes + rest
    ensures filled + |bytes| <= |all| && rest == all[filled + |bytes|..]
    ensures all[..filled] + bytes == all[..filled + |bytes|]
  {
    var n := |bytes|;
    assert all == all[..filled] + (bytes + rest);
    assert rest == all[filled..][n..] && bytes == all[filled..][..n];
  }

  /** Fill `buf` from the reader, chunk by chunk. */
  method ReadExact(r: Reader, buf: array<byte>) returns (res: Result<(), IoError>)
    requires r.end == Silent ==> r.armed
    modifies r`incoming, buf
    ensures res.Ok? ==> buf.Length <= |old(r.incoming)| && buf[..] == old(r.incoming)[..buf.Length] &&
                        r.incoming == old(r.incoming)[buf.Length..]
    ensures res.Err? ==> TakenWithin(old(r.incoming), r.incoming, buf.Length)
    ensures res.Err? && !(r.armed && res.error == Dropped) ==>
              |old(r.incoming)| < buf.Length && r.incoming == [] && res.error == RanOut(r.end)
  {
    var filled := 0;
    ghost var all := r.incoming;
    while filled < buf.Length
      invariant 0 <= filled <= buf.Length && filled <= |all|
      invariant buf[..filled] == all[..filled] && r.incoming == all[filled..]
      modifies r`incoming, buf
    {
      var chunk := r.Read(buf.Length - filled);
      match chunk
      case Data(bytes) =>
        NextChunk(all, filled, bytes, r.incoming);
        CopyChunk(buf, filled, bytes);
        filled := filled + |bytes|;
      case End => return Err(UnexpectedEof);
      case Failure => return Err(Transport);
      case Pending => return Err(Dropped);
    }
    return Ok(());
  }

  lemma PrefixWithinFrame(all: Bytes, after: Bytes, end: StreamEnd)
    requires TakenWithin(all, after, 4)
    ensures TakenWithin(all, after, FirstFrame(all, end).used)
  {
  }

  /** Fill the length prefix; `false` when the stream ends before its first byte. */
  method ReadPrefix(r: Reader, lenBuf: array<byte>) returns (res: Result<bool, IoError>)
    requires lenBuf.Length == 4
    requires r.end == Silent ==> r.armed
    modifies r`incoming, lenBuf
    ensures res == Ok(true) ==> |old(r.incoming)| >= 4 && lenBuf[..] == old(r.incoming)[..4] &&
                                r.incoming == old(r.incoming)[4..]
    ensures res == Ok(false) ==> old(r.incoming) == r.incoming == [] && r.end == Eof
    ensures res.Err? ==> TakenWithin(old(r.incoming), r.incoming, 4)
    ensures res.Err? && !(r.armed && res.error == Dropped) ==>
              |old(r.incoming)| < 4 && r.incoming == [] && res.error == RanOut(r.end) &&
              (r.end == Eof ==> old(r.incoming) != [])
  {
    hide FirstFrame, FromLittleEndian;
    ghost var all := r.incoming;
    var filled := 0;
    while filled < 4
      invariant 0 <= filled <= 4 && filled <= |all|
      invariant lenBuf[..filled] == all[..filled] && r.incoming == all[filled..]
      decreases 4 - filled
    {
      var chunk := r.Read(4 - filled);
      match chunk
      case Data(bytes) =>
        NextChunk(all, filled, bytes, r.incoming);
        CopyChunk(lenBuf, filled, bytes);
        filled := filled + |bytes|;
      case End =>
        if filled == 0 {
          return Ok(false);
        }
        return Err(UnexpectedEof);
      case Failure => return Err(Transport);
      case Pending => return Err(Dropped);
    }
    return Ok(true);
  }

  /**
   Read one frame.  Whatever chunks the stream chooses, the result and the
   bytes used are those of `FirstFrame`; only an armed timer can cut it short,
   and then no byte past the frame is gone.
   */
  method ReadFrame(r: Reader) returns (res: Result<Option<Bytes>, IoError>)
    requires r.end == Silent ==> r.armed
    modifies r`incoming
    ensures var f := FirstFrame(old(r.incoming), r.end);
            || (res == f.result && r.incoming == old(r.incoming)[f.used..])
            || (r.armed && res == Err(Dropped) &&
                TakenWithin(old(r.incoming), r.incoming, f.used))
  {
    hide FromLittleEndian, TakenWithin;
    ghost var all := r.incoming;
    var lenBuf := new byte[4];
    var prefix := ReadPrefix(r, lenBuf);
    if prefix.Err? {
      PrefixWithinFrame(all, r.incoming, r.end);
      return Err(prefix.error);
    }
    if !prefix.value {
      return Ok(None);
    }
    var len := FromLittleEndian(lenBuf[..]);
    if len > MAX_FRAME_BYTES {
      return Err(InvalidData);
    }
    var body := new byte[len];
    var read := ReadExact(r, body);
    BodyAfterPrefix(all, len, r.incoming);
    if read.Err? {
      return Err(read.error);
    }
    return Ok(Some(body[..]));
  }

  // ---------------------------------------------------------------------
  // Round trips
  // ---------------------------------------------------------------------

  /** A written frame is read back whole, whatever follows it and however the stream ends. */
  lemma FrameRoundTrip(body: Bytes, rest: Bytes, end: StreamEnd)
    requires |body| <= MAX_FRAME_BYTES
    ensures var s := Encode(body) + rest;
            FirstFrame(s, end) == FrameRead(Ok(Some(body)), |Encode(body)|) && s[|Encode(body)|..] == rest
  {
    var s := Encode(body) + rest;
    LittleEndianRoundTrip(|body|);
    assert s[..4] == LittleEndian(|body|);
    assert s[4..4 + |body|] == body;
  }

  predicate Framable(bodies: seq<Bytes>) {
    forall b :: b in bodies ==> |b| <= MAX_FRAME_BYTES
  }

  function EncodeAll(bodies: seq<Bytes>): Bytes
    requires Framable(bodies)
  {
    if bodies == [] then [] else Encode(bodies[0]) + EncodeAll(bodies[1..])
  }

  /** A stream of frames: the bodies, what stopped it, and the bytes used in all. */
  datatype Frames = Frames(bodies: seq<Bytes>, stop: FrameRead)

  /** Reading frames until one is not there. */
  function DecodeAll(s: Bytes, end: StreamEnd): (d: Frames)
    ensures d.stop.used <= |s|
    decreases |s|
  {
    var f := FirstFrame(s, end);
    if f.result.Ok? && f.result.value.Some? then
      Behind(f.result.value.value, f.used, DecodeAll(s[f.used..], end))
    else Frames([], f)
  }

  /** One more frame in front. */
  function Behind(body: Bytes, used: nat, d: Frames): (r: Frames)
    ensures r.stop.used == used + d.stop.used
  {
    Frames([body] + d.bodies, FrameRead(d.stop.result, used + d.stop.used))
  }

  /**
   Bodies written in order are read back as the same list, and then a clean end
   of stream; an empty body is a body, not the end.
   */
  lemma {:induction false} FramesRoundTrip(bodies: seq<Bytes>)
    requires Framable(bodies)
    ensures DecodeAll(EncodeAll(bodies), Eof) == Frames(bodies, FrameRead(Ok(None), |EncodeAll(bodies)|))
  {
    if bodies == [] {
      assert FirstFrame([], Eof) == FrameRead(Ok(None), 0);
    } else {
      assert Framable(bodies[1..]) by {
        forall b | b in bodies[1..] ensures |b| <= MAX_FRAME_BYTES { assert b in bodies; }
      }
      FrameRoundTrip(bodies[0], EncodeAll(bodies[1..]), Eof);
      FramesRoundTrip(bodies[1..]);
      hide FirstFrame, Encode;
      assert [bodies[0]] + bodies[1..] == bodies;
    }
  }

  lemma EncodeAllInjective(a: seq<Bytes>, b: seq<Bytes>)
    requires Framable(a) && Framable(b) && EncodeAll(a) == EncodeAll(b)
    ensures a == b
  {
    FramesRoundTrip(a);
    FramesRoundTrip(b);
  }

  lemma {:induction false} EncodeAllSnoc(bodies: seq<Bytes>, body: Bytes)
    requires Framable(bodies) && |body| <= MAX_FRAME_BYTES
    ensures Framable(bodies + [body])
    ensures EncodeAll(bodies + [body]) == EncodeAll(bodies) + Encode(body)
  {
    hide Encode;
    if bodies != [] {
      assert (bodies + [body])[1..] == bodies[1..] + [body];
      assert forall b :: b in bodies[1..] ==> b in bodies;
      EncodeAllSnoc(bodies[1..], body);
    } else {
      assert ([] + [body])[1..] == [];
    }
  }

  /** What a failed run of writes leaves: whole frames, and then nothing of a refused one or a part of a failed one. */
  ghost predicate StoppedAt(before: Bytes, after: Bytes, bodies: seq<Bytes>, n: nat, e: IoError, flushes: bool) {
    && n < |bodies| && Framable(bodies[..n])
    && if |bodies[n]| > MAX_FRAME_BYTES then e == InvalidInput && after == before + EncodeAll(bodies[..n])
       else e == Transport && CutShort(before + EncodeAll(bodies[..n]), after, Encode(bodies[n]), flushes)
  }

  /** Write frames one after the other, until one is refused or fails. */
  method WriteFrames(w: Writer, bodies: seq<Bytes>) returns (r: Result<(), IoError>)
    modifies w
    ensures r.Ok? ==> Framable(bodies) && w.written == old(w.written) + EncodeAll(bodies)
    ensures r.Err? ==> exists n :: StoppedAt(old(w.written), w.written, bodies, n, r.error, w.flushes)
    ensures old(w.Reliable()) ==> r == if Framable(bodies) then Ok(()) else Err(InvalidInput)
  {
    var i := 0;
    ghost var before := w.written;
    assert EncodeAll([]) == [];
    hide Encode, EncodeAll, CutShort, Framable;
    FramableFront(bodies, 0);
    while i < |bodies|
      invariant 0 <= i <= |bodies| && Framable(bodies[..i])
      invariant w.written == before + EncodeAll(bodies[..i])
      invariant w.Reliable() == old(w.Reliable())
    {
      FramableFront(bodies, i);
      r := WriteFrame(w, bodies[i]);
      if r.Err? {
        assert StoppedAt(before, w.written, bodies, i, r.error, w.flushes);
        return r;
      }
      EncodeAllSnoc(bodies[..i], bodies[i]);
      assert before + EncodeAll(bodies[..i]) + Encode(bodies[i]) == before + EncodeAll(bodies[..i + 1]);
      i := i + 1;
    }
    assert bodies[..i] == bodies;
    return Ok(());
  }

  /** A list is within the cap when its front is, and its next body, and no later one is over it. */
  lemma FramableFront(bodies: seq<Bytes>, i: nat)
    requires i <= |bodies|
    ensures i == 0 ==> bodies[..i] == [] && Framable(bodies[..i])
    ensures i < |bodies| ==> bodies[..i + 1] == bodies[..i] + [bodies[i]]
    ensures i < |bodies| && |bodies[i]| > MAX_FRAME_BYTES ==> !Framable(bodies)
  {
    if i < |bodies| { assert bodies[i] in bodies; }
  }

  /** The whole is `bodies`, with `taken` bytes used, and then the rest. */
  predicate Follows(whole: Frames, bodies: seq<Bytes>, taken: nat, rest: Frames) {
    whole == Frames(bodies + rest.bodies, FrameRead(rest.stop.result, taken + rest.stop.used))
  }

  lemma FollowsFromStart(whole: Frames)
    ensures Follows(whole, [], 0, whole)
  {
    assert [] + whole.bodies == whole.bodies;
  }

  lemma FollowsOn(whole: Frames, bodies: seq<Bytes>, taken: nat, body: Bytes, used: nat, rest: Frames)
    requires Follows(whole, bodies, taken, Behind(body, used, rest))
    ensures Follows(whole, bodies + [body], taken + used, rest)
  {
    assert bodies + ([body] + rest.bodies) == bodies + [body] + rest.bodies;
  }

  lemma FollowsToEnd(whole: Frames, bodies: seq<Bytes>, taken: nat, stop: FrameRead)
    requires Follows(whole, bodies, taken, Frames([], stop))
    ensures whole == Frames(bodies, FrameRead(stop.result, taken + stop.used))
  {
    assert bodies + [] == bodies;
  }

  lemma DropTwice(s: Bytes, m: nat, n: nat)
    requires m <= |s| && n <= |s| - m
    ensures s[m..][n..] == s[m + n..]
  {
  }

  /** One frame at a time. */
  lemma DecodeStep(s: Bytes, end: StreamEnd)
    ensures var f := FirstFrame(s, end);
            DecodeAll(s, end) ==
            if f.result.Ok? && f.result.value.Some?
            then Behind(f.result.value.value, f.used, DecodeAll(s[f.used..], end))
            else Frames([], f)
  {
    hide FirstFrame, Behind;
  }

  /** Read frames one after the other, whatever chunks the stream chooses, until one is not there. */
  method ReadFrames(r: Reader) returns (bodies: seq<Bytes>, last: Result<Option<Bytes>, IoError>)
    requires r.end != Silent && !r.armed
    modifies r`incoming
    ensures var all := DecodeAll(old(r.incoming), r.end);
            bodies == all.bodies && last == all.stop.result && r.incoming == old(r.incoming)[all.stop.used..]
  {
    hide *;
    bodies := [];
    ghost var all := r.incoming;
    ghost var taken := 0;
    FollowsFromStart(DecodeAll(all, r.end));
    while true
      invariant taken <= |all| && r.incoming == all[taken..]
      invariant Follows(DecodeAll(all, r.end), bodies, taken, DecodeAll(r.incoming, r.end))
      decreases |all| - taken
    {
      DecodeStep(r.incoming, r.end);
      ghost var f := FirstFrame(r.incoming, r.end);
      DropTwice(all, taken, f.used);
      last := ReadFrame(r);
      if last.Err? || last.value.None? {
        FollowsToEnd(DecodeAll(all, r.end), bodies, taken, f);
        return;
      }
      FollowsOn(DecodeAll(all, r.end), bodies, taken, last.value.value, f.used, DecodeAll(r.incoming, r.end));
      bodies := bodies + [last.value.value];
      taken := taken + f.used;
    }
  }

  /**
   Any bodies within the cap, written to one end and read from the other under
   any chunk schedule, arrive as the same list, and then the stream ends.
   */
  method SendAndReceive(bodies: seq<Bytes>) returns (received: seq<Bytes>, last: Result<Option<Bytes>, IoError>)
    ensures Framable(bodies) ==> received == bodies && last == Ok(None)
    ensures !Framable(bodies) ==> last == Err(InvalidInput)
  {
    var w := new Writer(None, true);
    var wrote := WriteFrames(w, bodies);
    if wrote.Err? {
      return [], Err(wrote.error);
    }
    assert w.written == EncodeAll(bodies);
    FramesRoundTrip(bodies);
    var r := new Reader(w.written, Eof);
    received, last := ReadFrames(r);
  }

  /** Every accepted frame is the encoding of its body: the codec reads nothing it could not write. */
  lemma FrameReadIsWritten(s: Bytes, end: StreamEnd)
    requires FirstFrame(s, end).result.Ok? && FirstFrame(s, end).result.value.Some?
    ensures var f := FirstFrame(s, end);
            var body := f.result.value.value;
            |body| <= MAX_FRAME_BYTES && s[..f.used] == Encode(body)
  {
    var len := FromLittleEndian(s[..4]);
    LittleEndianInverse(s[..4]);
    assert s[..4 + len] == s[..4] + s[4..4 + len];
  }

  lemma LittleEndianInverse(b: Bytes)
    requires |b| == 4
    ensures FromLittleEndian(b) < 0x1_0000_0000 && LittleEndian(FromLittleEndian(b)) == b
  {
    var n := FromLittleEndian(b);
    assert n / 256 == b[1] as nat + 256 * b[2] as nat + 65536 * b[3] as nat;
    assert n / 65536 == b[2] as nat + 256 * b[3] as nat;
    assert n / 16777216 == b[3] as nat;
  }

  /** The four outcomes of a stream that ends cleanly, told apart by its bytes. */
  lemma ReadOutcomes(s: Bytes)
    ensures var r := FirstFrame(s, Eof).result;
            && (r == Ok(None) <==> s == [])
            && (r == Err(InvalidData) <==> |s| >= 4 && FromLittleEndian(s[..4]) > MAX_FRAME_BYTES)
            && (r == Err(UnexpectedEof) <==>
                  0 < |s| < 4 ||
                  (|s| >= 4 && FromLittleEndian(s[..4]) <= MAX_FRAME_BYTES && |s| - 4 < FromLittleEndian(s[..4])))
            && (forall body :: r == Ok(Some(body)) <==>
                  |body| <= MAX_FRAME_BYTES && exists rest :: s == Encode(body) + rest)
  {
    forall body
      ensures FirstFrame(s, Eof).result == Ok(Some(body)) <==>
              |body| <= MAX_FRAME_BYTES && exists rest :: s == Encode(body) + rest
    {
      var f := FirstFrame(s, Eof);
      if f.result == Ok(Some(body)) {
        FrameReadIsWritten(s, Eof);
        assert s == Encode(body) + s[f.used..];
      }
      if |body| <= MAX_FRAME_BYTES && exists rest :: s == Encode(body) + rest {
        var rest :| s == Encode(body) + rest;
        FrameRoundTrip(body, rest, Eof);
      }
    }
  }
}
