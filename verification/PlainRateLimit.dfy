/**
 The rate limiter of `sqry-cli/src/progress.rs`: any number of threads report
 file progress, one mutex guards the time of the last line.  Each step below is
 one thing one thread does; the clock never runs backwards.
 */
module PlainRateLimit {
  import opened Wrappers

  const RATE_LIMIT: nat := 250 * 1000 * 1000

  /** Where a thread is in `report`. */
  datatype Thread =
    | Idle
    | Waiting               // for the mutex
    | Holding               // the mutex, clock not yet read
    | HasRead(now: nat)     // still holding it
    | Granted(now: nat)     // released, line not yet written

  datatype State = State(clock: nat, last: Option<nat>, threads: seq<Thread>, grants: seq<nat>, written: nat)

  predicate Holds(t: Thread) { t.Holding? || t.HasRead? }

  predicate Allow(last: Option<nat>, now: nat) {
    match last
    case None => true
    case Some(t) => now >= t + RATE_LIMIT
  }

  datatype Action = Arrive | Acquire | ReadClock | Decide | WriteLine

  /** What thread `i` may do, and the state it leaves. */
  ghost predicate ThreadStep(s: State, s': State, i: nat, a: Action) {
    i < |s.threads| &&
    match a
    case Arrive => s.threads[i].Idle? && s' == s.(threads := s.threads[i := Waiting])
    case Acquire =>
      s.threads[i].Waiting? && (forall k :: 0 <= k < |s.threads| ==> !Holds(s.threads[k])) &&
      s' == s.(threads := s.threads[i := Holding])
    case ReadClock => s.threads[i].Holding? && s' == s.(threads := s.threads[i := HasRead(s.clock)])
    case Decide =>
      s.threads[i].HasRead? &&
      var now := s.threads[i].now;
      s' == if Allow(s.last, now)
            then s.(last := Some(now), grants := s.grants + [now], threads := s.threads[i := Granted(now)])
            else s.(threads := s.threads[i := Idle])
    case WriteLine =>
      s.threads[i].Granted? && s' == s.(written := s.written + 1, threads := s.threads[i := Idle])
  }

  predicate Ticks(s: State, s': State) { s'.clock >= s.clock && s' == s.(clock := s'.clock) }

  ghost predicate Next(s: State, s': State) {
    Ticks(s, s') || exists i: nat, a :: ThreadStep(s, s', i, a)
  }

  predicate Initial(s: State) {
    s.last == None && s.grants == [] && s.written == 0 && forall t :: t in s.threads ==> t == Idle
  }

  ghost predicate Run(trace: seq<State>) {
    && trace != []
    && Initial(trace[0])
    && forall i :: 0 <= i < |trace| - 1 ==> Next(trace[i], trace[i + 1])
  }

  /** Grants keep their distance, one after the other. */
  predicate Apart(grants: seq<nat>) {
    forall i :: 0 <= i < |grants| - 1 ==> grants[i] + RATE_LIMIT <= grants[i + 1]
  }

  function GrantedThreads(ts: seq<Thread>): nat {
    if ts == [] then 0 else (if ts[0].Granted? then 1 else 0) + GrantedThreads(ts[1..])
  }

  ghost predicate Invariant(s: State) {
    && (forall i, j :: 0 <= i < j < |s.threads| ==> !(Holds(s.threads[i]) && Holds(s.threads[j])))
    && s.last == (if s.grants == [] then None else Some(s.grants[|s.grants| - 1]))
    && (s.last.Some? ==> s.last.value <= s.clock)
    && (forall t :: t in s.threads && t.HasRead? ==> t.now <= s.clock && (s.last.Some? ==> s.last.value <= t.now))
    && Apart(s.grants)
    && s.written + GrantedThreads(s.threads) == |s.grants|
  }

  lemma {:induction false} GrantedUpdate(ts: seq<Thread>, i: nat, t: Thread)
    requires i < |ts|
    ensures GrantedThreads(ts[i := t]) + (if ts[i].Granted? then 1 else 0) ==
            GrantedThreads(ts) + (if t.Granted? then 1 else 0)
  {
    if i > 0 {
      assert ts[i := t][1..] == ts[1..][i - 1 := t];
      GrantedUpdate(ts[1..], i - 1, t);
    } else {
      assert ts[i := t][1..] == ts[1..];
    }
  }

  lemma {:induction false} NoneGranted(ts: seq<Thread>)
    requires forall t :: t in ts ==> t == Idle
    ensures GrantedThreads(ts) == 0
  {
    if ts != [] {
      assert ts[0] in ts && forall t :: t in ts[1..] ==> t in ts;
      NoneGranted(ts[1..]);
    }
  }

  lemma InitialInvariant(s: State)
    requires Initial(s)
    ensures Invariant(s)
  {
    NoneGranted(s.threads);
    forall i, j | 0 <= i < j < |s.threads| ensures !(Holds(s.threads[i]) && Holds(s.threads[j])) {
      assert s.threads[i] in s.threads;
    }
  }

  lemma StepInvariant(s: State, s': State, i: nat, a: Action)
    requires Invariant(s) && ThreadStep(s, s', i, a)
    ensures Invariant(s')
  {
    GrantedUpdate(s.threads, i, s'.threads[i]);
    assert s'.threads == s.threads[i := s'.threads[i]];
    assert s.threads[i] in s.threads;
    forall t | t in s'.threads && t.HasRead?
      ensures t.now <= s'.clock && (s'.last.Some? ==> s'.last.value <= t.now)
    {
      var k :| 0 <= k < |s'.threads| && s'.threads[k] == t;
      if k != i {
        assert s.threads[k] in s.threads;
        assert Holds(s.threads[k]) ==> !Holds(s.threads[i]);
      }
    }
  }

  /** Every reachable state keeps the invariant, whatever the interleaving. */
  lemma {:induction false} RunInvariant(trace: seq<State>, n: nat)
    requires Run(trace) && n < |trace|
    ensures Invariant(trace[n])
  {
    if n == 0 {
      InitialInvariant(trace[0]);
    } else {
      RunInvariant(trace, n - 1);
      var s, s' := trace[n - 1], trace[n];
      assert Next(s, trace[n - 1 + 1]);
      if i: nat, a :| ThreadStep(s, s', i, a) {
        StepInvariant(s, s', i, a);
      }
    }
  }

  lemma {:induction false} ApartPairwise(grants: seq<nat>, i: nat, j: nat)
    requires Apart(grants) && i < j < |grants|
    ensures grants[i] + (j - i) * RATE_LIMIT <= grants[j]
    decreases j - i
  {
    if i + 1 < j {
      ApartPairwise(grants, i, j - 1);
      assert (j - i) * RATE_LIMIT == (j - 1 - i) * RATE_LIMIT + RATE_LIMIT;
      assert grants[j - 1] + RATE_LIMIT <= grants[j - 1 + 1];
    }
  }

  /**
   In every interleaving of any number of threads, any two granted lines were
   granted at readings at least 250 ms apart for each grant between them, and
   no line is written that was not granted.
   */
  lemma GrantsApart(trace: seq<State>, n: nat, i: nat, j: nat)
    requires Run(trace) && n < |trace| && i < j < |trace[n].grants|
    ensures trace[n].grants[i] + (j - i) * RATE_LIMIT <= trace[n].grants[j]
    ensures trace[n].written <= |trace[n].grants|
  {
    RunInvariant(trace, n);
    ApartPairwise(trace[n].grants, i, j);
  }

  /**
   A thread is granted its line exactly when its reading is 250 ms past the
   last grant; no other thread can come between its reading and its decision.
   */
  lemma DecisionExact(trace: seq<State>, n: nat, s': State, i: nat)
    requires Run(trace) && n < |trace| && ThreadStep(trace[n], s', i, Decide)
    ensures var s := trace[n]; var now := s.threads[i].now;
            && (s'.threads[i] == Granted(now) <==>
                  s.grants == [] || now >= s.grants[|s.grants| - 1] + RATE_LIMIT)
            && (s'.threads[i] == Idle <==> s'.grants == s.grants)
            && (s.grants != [] ==> s.grants[|s.grants| - 1] <= now <= s.clock)
  {
    RunInvariant(trace, n);
    var s := trace[n];
    assert s.threads[i] in s.threads;
    assert |s.grants + [s.threads[i].now]| > |s.grants|;
  }
}
