/** The throttled ingestion tracker of `sqry-core/src/progress.rs`.  Instants and durations are in nanoseconds. */
module IngestProgress {
  import opened Wrappers

  datatype NodeKind = Function | Class | Module | Variable

  datatype Counts = Counts(
    functions: nat, classes: nat, methods: nat, structs: nat, enums: nat, interfaces: nat,
    variables: nat, constants: nat, types: nat, modules: nat, other: nat)
  {
    function Total(): nat {
      functions + classes + methods + structs + enums + interfaces + variables + constants + types + modules + other
    }
  }

  const NO_COUNTS := Counts(0, 0, 0, 0, 0, 0, 0, 0, 0, 0, 0)

  const U64_MAX: nat := 0xFFFF_FFFF_FFFF_FFFF
  const U128_MAX: nat := 0xFFFF_FFFF_FFFF_FFFF_FFFF_FFFF_FFFF_FFFF
  const MIN_GAP: nat := 800 * 1000 * 1000

  function AddKind(c: Counts, k: NodeKind): Counts {
    match k
    case Function => c.(functions := c.functions + 1)
    case Class => c.(classes := c.classes + 1)
    case Module => c.(modules := c.modules + 1)
    case Variable => c.(variables := c.variables + 1)
  }

  function AddKinds(c: Counts, ks: seq<NodeKind>): Counts {
    if ks == [] then c else AddKind(AddKinds(c, ks[..|ks| - 1]), ks[|ks| - 1])
  }

  function Sub(a: nat, b: nat): nat { if a >= b then a - b else 0 }

  /** The estimate: whole nanoseconds a file so far, times the files left. */
  function Eta(processed: nat, total: nat, elapsed: nat): Option<nat> {
    if processed == 0 || total == 0 || elapsed == 0 then None
    else
      var remaining := Sub(total, processed);
      if remaining == 0 then Some(0)
      else
        var product := elapsed / processed * remaining;
        var saturated := if product > U128_MAX then U128_MAX else product;
        if saturated > U64_MAX then None else Some(saturated)
  }

  datatype Emission = Emission(
    at: nat, forced: bool, files: nat, symbols: nat, counts: Counts, elapsed: nat, eta: Option<nat>)

  /** Everything the tracker and its reporter hold. */
  datatype State = State(
    totalFiles: nat, processed: nat, counts: Counts, start: nat, lastEmit: nat, emitted: seq<Emission>)

  function Created(totalFiles: nat, now: nat): State { State(totalFiles, 0, NO_COUNTS, now, now, []) }

  function MaybeEmitted(s: State, force: bool, now: nat): State {
    if !force && Sub(now, s.lastEmit) < MIN_GAP then s
    else
      s.(lastEmit := now,
         emitted := s.emitted + [Emission(now, force, s.processed, s.counts.Total(), s.counts, Sub(now, s.start),
                                          Eta(s.processed, s.totalFiles, Sub(now, s.start)))])
  }

  function Recorded(s: State, kinds: seq<NodeKind>, now: nat): State {
    MaybeEmitted(s.(processed := if s.processed < U64_MAX then s.processed + 1 else s.processed,
                    counts := AddKinds(s.counts, kinds)), false, now)
  }

  class Tracker {
    var totalFiles: nat
    var processed: nat
    var counts: Counts
    var start: nat
    var lastEmit: nat
    var emitted: seq<Emission>

    ghost function Now(): State
      reads this
    {
      State(totalFiles, processed, counts, start, lastEmit, emitted)
    }

    constructor (total: nat, now: nat)
      ensures Now() == Created(total, now)
    {
      totalFiles, processed, counts := total, 0, NO_COUNTS;
      start, lastEmit, emitted := now, now, [];
    }

    /** One file has been ingested. */
    method RecordNodeKinds(kinds: seq<NodeKind>, now: nat)
      modifies this
      ensures Now() == Recorded(old(Now()), kinds, now)
    {
      if processed < U64_MAX {
        processed := processed + 1;
      }
      var i := 0;
      ghost var before := counts;
      while i < |kinds|
        invariant 0 <= i <= |kinds| && counts == AddKinds(before, kinds[..i])
        modifies this`counts
      {
        assert kinds[..i + 1][..i] == kinds[..i];
        counts := AddKind(counts, kinds[i]);
        i := i + 1;
      }
      assert kinds[..i] == kinds;
      MaybeEmit(false, now);
    }

    method Finish(now: nat)
      modifies this
      ensures Now() == MaybeEmitted(old(Now()), true, now)
    {
      MaybeEmit(true, now);
    }

    method MaybeEmit(force: bool, now: nat)
      modifies this
      ensures Now() == MaybeEmitted(old(Now()), force, now)
    {
      var elapsed := Sub(now, start);
      if !force && Sub(now, lastEmit) < MIN_GAP {
        return;
      }
      lastEmit := now;
      var eta := Eta(processed, totalFiles, elapsed);
      emitted := emitted + [Emission(now, force, processed, counts.Total(), counts, elapsed, eta)];
    }
  }

  // ---------------------------------------------------------------------
  // The estimate
  // ---------------------------------------------------------------------

  /**
   With files left, the estimate is less than one nanosecond a remaining file
   below `elapsed * remaining / processed`, and never above it; there is none
   exactly when nothing has been measured or the product does not fit 64 bits.
   */
  lemma EtaExact(processed: nat, total: nat, elapsed: nat)
    ensures var eta, remaining := Eta(processed, total, elapsed), Sub(total, processed);
            && (eta.None? <==> processed == 0 || total == 0 || elapsed == 0 ||
                               elapsed / processed * remaining > U64_MAX)
            && (eta.Some? ==> eta.value * processed <= elapsed * remaining)
            && (eta.Some? && remaining > 0 ==> elapsed * remaining < (eta.value + remaining) * processed)
  {
    var eta, remaining := Eta(processed, total, elapsed), Sub(total, processed);
    if eta.Some? && remaining > 0 {
      var q, r := elapsed / processed, elapsed % processed;
      assert eta.value == q * remaining;
      assert elapsed == q * processed + r;
      ScaledDivision(q, processed, r, remaining);
    }
  }

  lemma ScaledDivision(q: nat, p: nat, r: nat, m: nat)
    requires r < p && m > 0
    ensures q * m * p <= (q * p + r) * m < (q * m + m) * p
  {
    assert (q * p + r) * m == q * m * p + r * m;
    assert (q * m + m) * p == q * m * p + m * p;
    assert 0 <= r * m < p * m;
  }

  // ---------------------------------------------------------------------
  // Any run
  // ---------------------------------------------------------------------

  datatype Call = Record(kinds: seq<NodeKind>, now: nat) | Finish(now: nat)

  function Step(s: State, c: Call): State {
    match c
    case Record(kinds, now) => Recorded(s, kinds, now)
    case Finish(now) => MaybeEmitted(s, true, now)
  }

  function Run(totalFiles: nat, start: nat, calls: seq<Call>): State {
    if calls == [] then Created(totalFiles, start)
    else Step(Run(totalFiles, start, calls[..|calls| - 1]), calls[|calls| - 1])
  }

  /** All node kinds handed in. */
  function KindsOf(calls: seq<Call>): seq<NodeKind> {
    if calls == [] then []
    else
      KindsOf(calls[..|calls| - 1]) +
      match calls[|calls| - 1]
      case Record(kinds, _) => kinds
      case Finish(_) => []
  }

  function Occurrences(ks: seq<NodeKind>, k: NodeKind): nat {
    if ks == [] then 0 else Occurrences(ks[..|ks| - 1], k) + if ks[|ks| - 1] == k then 1 else 0
  }

  /** The counters count: each kind in its bucket, and nothing in the others. */
  ghost predicate CountsTruly(c: Counts, ks: seq<NodeKind>) {
    && c == NO_COUNTS.(functions := Occurrences(ks, Function), classes := Occurrences(ks, Class),
                       modules := Occurrences(ks, Module), variables := Occurrences(ks, Variable))
    && c.Total() == |ks|
  }

  lemma {:induction false} AddKindsCounts(c: Counts, ks: seq<NodeKind>, more: seq<NodeKind>)
    requires CountsTruly(c, ks)
    ensures CountsTruly(AddKinds(c, more), ks + more)
  {
    if more == [] {
      assert ks + more == ks;
    } else {
      var n := |more| - 1;
      AddKindsCounts(c, ks, more[..n]);
      var all := ks + more;
      assert all[..|all| - 1] == ks + more[..n];
    }
  }

  /** The emission before number `i`, or the creation. */
  function Previous(s: State, i: nat): nat
    requires i < |s.emitted|
  {
    if i == 0 then s.start else s.emitted[i - 1].at
  }

  /** What holds of the tracker however it is used. */
  ghost predicate Sound(s: State, ks: seq<NodeKind>) {
    && CountsTruly(s.counts, ks)
    && s.lastEmit == (if s.emitted == [] then s.start else s.emitted[|s.emitted| - 1].at)
    && forall i :: 0 <= i < |s.emitted| ==> Spaced(s, i)
  }

  /** An unforced emission keeps its distance from the one before, and its symbols are its counters. */
  predicate Spaced(s: State, i: nat)
    requires i < |s.emitted|
  {
    var e := s.emitted[i];
    (e.forced || e.at >= Previous(s, i) + MIN_GAP) && e.symbols == e.counts.Total()
  }

  /**
   After any calls at any times: the counters count every kind recorded, and
   every unforced emission comes at least 800 ms after the emission before it,
   or after the creation.
   */
  lemma {:induction false} RunSound(totalFiles: nat, start: nat, calls: seq<Call>)
    ensures Sound(Run(totalFiles, start, calls), KindsOf(calls))
  {
    if calls == [] {
    } else {
      var n := |calls| - 1;
      RunSound(totalFiles, start, calls[..n]);
      var s, ks := Run(totalFiles, start, calls[..n]), KindsOf(calls[..n]);
      match calls[n]
      case Record(kinds, now) =>
        AddKindsCounts(s.counts, ks, kinds);
        var processed := if s.processed < U64_MAX then s.processed + 1 else s.processed;
        var mid := s.(processed := processed, counts := AddKinds(s.counts, kinds));
        SameEmissions(s, mid, ks + kinds);
        EmitSound(mid, ks + kinds, false, now);
      case Finish(now) =>
        assert ks + [] == ks;
        EmitSound(s, ks, true, now);
    }
  }

  lemma SameEmissions(s: State, mid: State, ks: seq<NodeKind>)
    requires mid.emitted == s.emitted && mid.start == s.start && mid.lastEmit == s.lastEmit
    requires CountsTruly(mid.counts, ks)
    requires s.lastEmit == (if s.emitted == [] then s.start else s.emitted[|s.emitted| - 1].at)
    requires forall i :: 0 <= i < |s.emitted| ==> Spaced(s, i)
    ensures Sound(mid, ks)
  {
    forall i | 0 <= i < |mid.emitted| ensures Spaced(mid, i) { assert Spaced(s, i); }
  }

  lemma EmitSound(s: State, ks: seq<NodeKind>, force: bool, now: nat)
    requires Sound(s, ks)
    ensures Sound(MaybeEmitted(s, force, now), ks)
  {
    var t := MaybeEmitted(s, force, now);
    forall i | 0 <= i < |t.emitted| ensures Spaced(t, i) {
      if i < |s.emitted| { assert Spaced(s, i); }
    }
  }

  /** The throttle never swallows more than it must: a record 800 ms after the last emission is reported. */
  lemma DueIsEmitted(s: State, kinds: seq<NodeKind>, now: nat)
    ensures var t := Recorded(s, kinds, now);
            (t.emitted != s.emitted <==> now >= s.lastEmit + MIN_GAP) &&
            (t.emitted == s.emitted ==> t.lastEmit == s.lastEmit)
  {
    assert forall e: Emission :: s.emitted + [e] != s.emitted by {
      forall e: Emission ensures s.emitted + [e] != s.emitted { assert |s.emitted + [e]| > |s.emitted|; }
    }
  }

  /** The number of files recorded. */
  function FilesOf(calls: seq<Call>): nat {
    if calls == [] then 0 else FilesOf(calls[..|calls| - 1]) + if calls[|calls| - 1].Record? then 1 else 0
  }

  lemma {:induction false} FilesCounted(totalFiles: nat, start: nat, calls: seq<Call>)
    ensures var s := Run(totalFiles, start, calls);
            && s.processed == (if FilesOf(calls) <= U64_MAX then FilesOf(calls) else U64_MAX)
            && s.totalFiles == totalFiles && s.start == start
  {
    if calls != [] {
      FilesCounted(totalFiles, start, calls[..|calls| - 1]);
    }
  }

  /**
   Finishing always reports, and reports the run: every file (up to the width
   of the counter) and every node kind recorded, each in its bucket, at the
   time of the call.
   */
  lemma FinishReports(totalFiles: nat, start: nat, calls: seq<Call>, now: nat)
    requires start <= now
    ensures var before, after := Run(totalFiles, start, calls), Run(totalFiles, start, calls + [Finish(now)]);
            |after.emitted| == |before.emitted| + 1 && before.emitted <= after.emitted &&
            var e := after.emitted[|before.emitted|];
            && e.forced && e.at == now && e.elapsed == now - start
            && e.files == (if FilesOf(calls) <= U64_MAX then FilesOf(calls) else U64_MAX)
            && e.symbols == |KindsOf(calls)| && CountsTruly(e.counts, KindsOf(calls))
            && e.eta == Eta(e.files, totalFiles, e.elapsed)
  {
    var all := calls + [Finish(now)];
    assert all[..|all| - 1] == calls;
    RunSound(totalFiles, start, calls);
    FilesCounted(totalFiles, start, calls);
  }
}
