/**
 The shim handshake of `sqry-daemon-client/src/lib.rs`: one register frame out,
 one acknowledgement frame in, under a deadline.  The serialised register and
 the JSON decoder are parameters.
 */
module ShimHandshake {
  import opened Wrappers
  import opened Framing

  const ENVELOPE_VERSION: nat := 1

  datatype Ack = Ack(accepted: bool, daemonVersion: string, reason: Option<string>, envelopeVersion: nat)

  type AckDecoder = Bytes -> Option<Ack>

  datatype FrameError = Io(io: IoError) | Json

  datatype ClientError =
    | Connect
    | ConnectTimeout
    | HandshakeTimeout
    | ShimAckEof
    | EnvelopeVersionMismatch(got: nat, expected: nat)
    | ShimRejected(reason: string)
    | Frame(frame: FrameError)

  /** The typed reading of a frame. */
  function ReadJson(decode: AckDecoder, r: Result<Option<Bytes>, IoError>): Result<Option<Ack>, FrameError> {
    match r
    case Err(e) => Err(Io(e))
    case Ok(None) => Ok(None)
    case Ok(Some(bytes)) =>
      match decode(bytes)
      case None => Err(Json)
      case Some(ack) => Ok(Some(ack))
  }

  method ReadFrameJson(r: Reader, decode: AckDecoder) returns (res: Result<Option<Ack>, FrameError>)
    requires r.end == Silent ==> r.armed
    modifies r`incoming
    ensures var f := FirstFrame(old(r.incoming), r.end);
            || (res == ReadJson(decode, f.result) && r.incoming == old(r.incoming)[f.used..])
            || (r.armed && res == Err(Io(Dropped)) && TakenWithin(old(r.incoming), r.incoming, f.used))
  {
    var frame := ReadFrame(r);
    if frame.Err? {
      return Err(Io(frame.error));
    }
    if frame.value.None? {
      return Ok(None);
    }
    var value := decode(frame.value.value);
    if value.None? {
      return Err(Json);
    }
    return Ok(value);
  }

  /** What the client concludes from the acknowledgement it read. */
  function Judge(read: Result<Option<Ack>, FrameError>): Result<string, ClientError> {
    match read
    case Err(Io(Dropped)) => Err(HandshakeTimeout)
    case Err(e) => Err(Frame(e))
    case Ok(None) => Err(ShimAckEof)
    case Ok(Some(ack)) =>
      if ack.envelopeVersion != ENVELOPE_VERSION then
        Err(EnvelopeVersionMismatch(ack.envelopeVersion, ENVELOPE_VERSION))
      else if ack.accepted then Ok(ack.daemonVersion)
      else Err(ShimRejected(match ack.reason case Some(why) => why case None => "no reason given"))
  }

  /** The verdict the daemon's bytes call for when the deadline does not pass first. */
  function Verdict(decode: AckDecoder, s: Bytes, end: StreamEnd): Result<string, ClientError> {
    Judge(ReadJson(decode, FirstFrame(s, end).result))
  }

  /** Some body decodes to an acknowledgement of this envelope version that accepts. */
  ghost predicate Accepts(decode: AckDecoder, s: Bytes, version: string, rest: Bytes) {
    exists body: Bytes :: |body| <= MAX_FRAME_BYTES && s == Encode(body) + rest && AcceptedBody(decode, body, version)
  }

  predicate AcceptedBody(decode: AckDecoder, body: Bytes, version: string) {
    match decode(body)
    case None => false
    case Some(ack) => ack.accepted && ack.envelopeVersion == ENVELOPE_VERSION && ack.daemonVersion == version
  }

  /**
   The handshake succeeds exactly on a stream that starts with a frame holding
   an accepting acknowledgement of the right version.
   */
  lemma SuccessExactly(decode: AckDecoder, s: Bytes, end: StreamEnd, version: string)
    ensures Verdict(decode, s, end) == Ok(version) <==>
            Accepts(decode, s, version, s[FirstFrame(s, end).used..])
  {
    var f := FirstFrame(s, end);
    if Verdict(decode, s, end) == Ok(version) {
      FrameReadIsWritten(s, end);
      assert s == Encode(f.result.value.value) + s[f.used..];
      assert AcceptedBody(decode, f.result.value.value, version);
    }
    if Accepts(decode, s, version, s[f.used..]) {
      var body: Bytes :| |body| <= MAX_FRAME_BYTES && s == Encode(body) + s[f.used..] &&
                          AcceptedBody(decode, body, version);
      FrameRoundTrip(body, s[f.used..], end);
    }
  }

  /** A wrong envelope version is reported as such, accepted or not, whatever follows it. */
  lemma VersionNeverMasked(decode: AckDecoder, body: Bytes, rest: Bytes, end: StreamEnd)
    requires |body| <= MAX_FRAME_BYTES && decode(body).Some?
    ensures var ack := decode(body).value;
            var v := Verdict(decode, Encode(body) + rest, end);
            && (v == Err(EnvelopeVersionMismatch(ack.envelopeVersion, ENVELOPE_VERSION)) <==>
                ack.envelopeVersion != ENVELOPE_VERSION)
            && (v.Err? && v.error.ShimRejected? <==> ack.envelopeVersion == ENVELOPE_VERSION && !ack.accepted)
  {
    FrameRoundTrip(body, rest, end);
  }

  /**
   Write the register frame, then read the acknowledgement under a timer.  The
   register is the one frame written; the verdict is that of the daemon's
   bytes, or the timeout; success leaves exactly the bytes after the
   acknowledgement frame, and nothing past that frame is ever taken.
   */
  method DoShimHandshake(r: Reader, w: Writer, register: Bytes, decode: AckDecoder)
    returns (res: Result<string, ClientError>)
    modifies r, w
    ensures |register| > MAX_FRAME_BYTES ==>
              res == Err(Frame(Io(InvalidInput))) && w.written == old(w.written) && r.incoming == old(r.incoming)
    ensures |register| <= MAX_FRAME_BYTES ==>
              var f := FirstFrame(old(r.incoming), r.end);
              || (res == Err(Frame(Io(Transport))) && !old(w.Reliable()) && r.incoming == old(r.incoming) &&
                  CutShort(old(w.written), w.written, Encode(register), w.flushes))
              || (w.written == old(w.written) + Encode(register) &&
                  (|| (res == Verdict(decode, old(r.incoming), r.end) && r.incoming == old(r.incoming)[f.used..])
                   || (res == Err(HandshakeTimeout) && TakenWithin(old(r.incoming), r.incoming, f.used))))
    ensures res.Ok? ==> |register| <= MAX_FRAME_BYTES && w.written == old(w.written) + Encode(register) &&
                        Accepts(decode, old(r.incoming), res.value, r.incoming)
  {
    ghost var s := r.incoming;
    var wrote := WriteFrame(w, register);
    if wrote.Err? {
      return Err(Frame(Io(wrote.error)));
    }
    r.armed := true;
    var read := ReadFrameJson(r, decode);
    r.armed := false;
    res := Judge(read);
    if res.Ok? {
      SuccessExactly(decode, s, r.end, res.value);
    }
  }

  /** How the platform connect stands when its deadline fires. */
  datatype Connecting = Connected | Failed | Hung

  function ApplyConnectTimeout(c: Connecting): Result<(), ClientError> {
    match c
    case Connected => Ok(())
    case Failed => Err(Connect)
    case Hung => Err(ConnectTimeout)
  }

  /** Connect, then shake hands; a connection that is not there is not written to. */
  method ConnectShimWithTimeouts(c: Connecting, r: Reader, w: Writer, register: Bytes, decode: AckDecoder)
    returns (res: Result<string, ClientError>)
    modifies r, w
    ensures c != Connected ==>
              res == Err(if c == Hung then ConnectTimeout else Connect) &&
              w.written == old(w.written) && r.incoming == old(r.incoming)
    ensures res.Ok? ==> c == Connected && |register| <= MAX_FRAME_BYTES &&
                        w.written == old(w.written) + Encode(register) &&
                        Accepts(decode, old(r.incoming), res.value, r.incoming)
    ensures res == Err(ConnectTimeout) <==> c == Hung
  {
    var connected := ApplyConnectTimeout(c);
    if connected.Err? {
      return Err(connected.error);
    }
    res := DoShimHandshake(r, w, register, decode);
    assert res != Err(ConnectTimeout);
  }
}
