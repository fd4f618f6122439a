/**
 The stdio pump of `sqry-daemon-client/src/lib.rs`: two buffered copies run
 side by side, in any interleaving, until the first of them ends.
 */
module Pump {
  import opened Wrappers
  import opened Framing

  /** One direction: bytes still to be read, bytes read but not yet written, bytes delivered. */
  datatype Copy = Copy(unread: Bytes, buffer: Bytes, sink: Bytes, copied: nat)

  datatype Direction = Up | Down

  datatype Finish = Counts(up: nat, down: nat) | IoFailure(direction: Direction)

  datatype State = State(up: Copy, down: Copy, finish: Option<Finish>)

  const COPY_BUFFER: nat := 8 * 1024

  /** A direction reads some bytes into its buffer, or writes some from it. */
  ghost predicate CopyStep(c: Copy, d: Copy) {
    || (exists n :: 0 < n <= |c.unread| && |c.buffer| + n <= COPY_BUFFER &&
          d == c.(unread := c.unread[n..], buffer := c.buffer + c.unread[..n]))
    || (exists n :: 0 < n <= |c.buffer| &&
          d == c.(buffer := c.buffer[n..], sink := c.sink + c.buffer[..n], copied := c.copied + n))
  }

  /** A direction ends when its source has ended and its buffer is flushed. */
  predicate Drained(c: Copy) { c.unread == [] && c.buffer == [] }

  ghost predicate Next(s: State, s': State) {
    s.finish == None &&
    (
    || (CopyStep(s.up, s'.up) && s'.down == s.down && s'.finish == None)
    || (CopyStep(s.down, s'.down) && s'.up == s.up && s'.finish == None)
    || (Drained(s.up) && s' == s.(finish := Some(Counts(s.up.copied, 0))))
    || (Drained(s.down) && s' == s.(finish := Some(Counts(0, s.down.copied))))
    || s' == s.(finish := Some(IoFailure(Up)))
    || s' == s.(finish := Some(IoFailure(Down)))
    )
  }

  function Start(editor: Bytes, daemon: Bytes): State {
    State(Copy(editor, [], [], 0), Copy(daemon, [], [], 0), None)
  }

  /** A run of the pump: any number of steps in any interleaving. */
  ghost predicate Run(trace: seq<State>, editor: Bytes, daemon: Bytes) {
    && trace != []
    && trace[0] == Start(editor, daemon)
    && forall i :: 0 <= i < |trace| - 1 ==> Next(trace[i], trace[i + 1])
  }

  /** Every byte of the source is in exactly one place, in order. */
  predicate Conserves(c: Copy, source: Bytes) {
    c.sink + c.buffer + c.unread == source && c.copied == |c.sink|
  }

  lemma CopyStepConserves(c: Copy, d: Copy, source: Bytes)
    requires Conserves(c, source) && CopyStep(c, d)
    ensures Conserves(d, source)
  {
    if n :| 0 < n <= |c.unread| && |c.buffer| + n <= COPY_BUFFER &&
            d == c.(unread := c.unread[n..], buffer := c.buffer + c.unread[..n])
    {
      MoveAcross(c.sink + c.buffer, c.unread, n);
      assert d.sink + d.buffer == c.sink + c.buffer + c.unread[..n];
    } else {
      var n :| 0 < n <= |c.buffer| &&
               d == c.(buffer := c.buffer[n..], sink := c.sink + c.buffer[..n], copied := c.copied + n);
      MoveAcross(c.sink, c.buffer, n);
      assert d.sink + d.buffer == c.sink + c.buffer;
    }
  }

  lemma MoveAcross(a: Bytes, b: Bytes, n: nat)
    requires n <= |b|
    ensures a + b[..n] + b[n..] == a + b
  {
    assert b[..n] + b[n..] == b;
  }

  /** What a finished pump may report. */
  predicate ReportsTruly(s: State, editor: Bytes, daemon: Bytes) {
    match s.finish
    case None => true
    case Some(IoFailure(_)) => true
    case Some(Counts(up, down)) =>
      || (s.up.sink == editor && up == |editor| && down == 0)
      || (s.down.sink == daemon && down == |daemon| && up == 0)
  }

  /**
   In every state of every run both directions conserve their source, and a
   pump that ends without error has delivered the whole source of the
   direction that ended, reports its length, and reports 0 for the other.
   */
  lemma {:induction false} PumpConserves(trace: seq<State>, editor: Bytes, daemon: Bytes, i: nat)
    requires Run(trace, editor, daemon) && i < |trace|
    ensures Conserves(trace[i].up, editor) && Conserves(trace[i].down, daemon)
    ensures ReportsTruly(trace[i], editor, daemon)
  {
    if i == 0 {
      assert [] + [] + editor == editor && [] + [] + daemon == daemon;
    } else {
      PumpConserves(trace, editor, daemon, i - 1);
      var s, s' := trace[i - 1], trace[i];
      assert Next(s, trace[i - 1 + 1]);
      if CopyStep(s.up, s'.up) && s'.down == s.down && s'.finish == None {
        CopyStepConserves(s.up, s'.up, editor);
      } else if CopyStep(s.down, s'.down) && s'.up == s.up && s'.finish == None {
        CopyStepConserves(s.down, s'.down, daemon);
      } else {
        assert s.up.sink + [] + [] == s.up.sink && s.down.sink + [] + [] == s.down.sink;
      }
    }
  }

  /** Sinks only ever hold prefixes of their sources, and never lose one they held. */
  lemma SinksArePrefixes(trace: seq<State>, editor: Bytes, daemon: Bytes, i: nat, j: nat)
    requires Run(trace, editor, daemon) && i <= j < |trace|
    ensures trace[i].up.sink <= trace[j].up.sink <= editor
    ensures trace[i].down.sink <= trace[j].down.sink <= daemon
    decreases j - i
  {
    PumpConserves(trace, editor, daemon, j);
    if i < j {
      SinksArePrefixes(trace, editor, daemon, i, j - 1);
      assert Next(trace[j - 1], trace[j - 1 + 1]);
    }
  }
}
