/**
 Scanning jars through the content-keyed stub cache of
 `sqry-classpath/src/pipeline.rs` and `sqry-classpath/src/stub/cache.rs`.
 Parsing a jar's bytes is a parameter; the digest is taken to be the content.
 */
module StubCache {
  import opened Wrappers

  type Path = string

  type Content = string

  /** A class found in a jar, and the jar it is said to come from. */
  datatype Stub = Stub(body: string, sourceJar: Option<Path>)

  /** What parsing the bytes of a jar gives, if it is a jar. */
  type Parser = Content -> Option<seq<string>>

  /** A jar as a run meets it; one that cannot be read has no content. */
  datatype JarFile = JarFile(path: Path, content: Option<Content>)

  type Table = map<Content, seq<Stub>>

  // ---------------------------------------------------------------------
  // One jar
  // ---------------------------------------------------------------------

  function Stamp(path: Path, bodies: seq<string>): seq<Stub> {
    if bodies == [] then [] else [Stub(bodies[0], Some(path))] + Stamp(path, bodies[1..])
  }

  /** A fresh scan: every stub says it comes from the path scanned. */
  function ScanJar(parse: Parser, jar: JarFile): Option<seq<Stub>> {
    if jar.content == None || parse(jar.content.value) == None then None
    else Some(Stamp(jar.path, parse(jar.content.value).value))
  }

  datatype Outcome =
    | Scanned(path: Path, stubs: seq<Stub>)
    | Cached(path: Path, stubs: seq<Stub>)
    | Failed(path: Path)

  function Lookup(table: Table, jar: JarFile): Option<seq<Stub>> {
    if jar.content.Some? && jar.content.value in table then Some(table[jar.content.value]) else None
  }

  /** What one jar comes to, given the cache when it is asked. */
  function OutcomeOf(parse: Parser, table: Table, jar: JarFile, force: bool): Outcome {
    if !force && Lookup(table, jar).Some? then Cached(jar.path, Lookup(table, jar).value)
    else
      match ScanJar(parse, jar)
      case Some(stubs) => Scanned(jar.path, stubs)
      case None => Failed(jar.path)
  }

  /** The cache on disk; a write may fail, and that is not fatal. */
  class Cache {
    var table: Table

    constructor ()
      ensures table == map[]
    {
      table := map[];
    }

    method Get(jar: JarFile) returns (r: Option<seq<Stub>>)
      ensures r == Lookup(table, jar)
    {
      if jar.content.None? || jar.content.value !in table {
        return None;
      }
      return Some(table[jar.content.value]);
    }

    method Put(jar: JarFile, stubs: seq<Stub>) returns (ok: bool)
      requires jar.content.Some?
      modifies this
      ensures table == if ok then old(table)[jar.content.value := stubs] else old(table)
    {
      ok := *;
      if ok {
        table := table[jar.content.value := stubs];
      }
    }
  }

  /** Scan one jar: a hit answers, a miss or a forced scan is written back. */
  method ScanSingleJar(parse: Parser, jar: JarFile, cache: Cache, force: bool) returns (outcome: Outcome)
    modifies cache
    ensures outcome == OutcomeOf(parse, old(cache.table), jar, force)
    ensures cache.table == old(cache.table) ||
            (outcome.Scanned? && cache.table == Replay(parse, [Write(jar)], old(cache.table)))
    ensures outcome.Cached? || outcome.Failed? ==> cache.table == old(cache.table)
  {
    if !force {
      var cached := cache.Get(jar);
      if cached.Some? {
        return Cached(jar.path, cached.value);
      }
    }
    var scanned := ScanJar(parse, jar);
    match scanned
    case Some(stubs) =>
      ghost var before := cache.table;
      assert [Write(jar)][..0] == [];
      var ok := cache.Put(jar, stubs);
      return Scanned(jar.path, stubs);
    case None =>
      return Failed(jar.path);
  }

  // ---------------------------------------------------------------------
  // Any history of the cache
  // ---------------------------------------------------------------------

  /** What happens to the cache file of a content: a scan is written, or the file is lost. */
  datatype Event = Write(jar: JarFile) | Lose(content: Content)

  function Apply(parse: Parser, e: Event, table: Table): Table {
    match e
    case Lose(c) => table - {c}
    case Write(jar) =>
      match ScanJar(parse, jar)
      case None => table
      case Some(stubs) => table[jar.content.value := stubs]
  }

  /** The cache after a history, from a given table. */
  function Replay(parse: Parser, history: seq<Event>, start: Table): Table {
    if history == [] then start
    else Apply(parse, history[|history| - 1], Replay(parse, history[..|history| - 1], start))
  }

  /** The jar that last wrote the file of a content, if the file is there. */
  function Writer(parse: Parser, history: seq<Event>, content: Content): Option<Path> {
    if history == [] then None
    else
      var rest := history[..|history| - 1];
      match history[|history| - 1]
      case Lose(c) => if c == content then None else Writer(parse, rest, content)
      case Write(jar) =>
        if jar.content == Some(content) && ScanJar(parse, jar).Some? then Some(jar.path)
        else Writer(parse, rest, content)
  }

  /** After any history, a cache file holds what a fresh scan of its last writer would give. */
  lemma {:induction false} CacheHoldsScans(parse: Parser, history: seq<Event>, content: Content)
    ensures var table := Replay(parse, history, map[]);
            && (content in table <==> Writer(parse, history, content).Some?)
            && (content in table ==>
                  ScanJar(parse, JarFile(Writer(parse, history, content).value, Some(content))) == Some(table[content]))
  {
    if history != [] {
      CacheHoldsScans(parse, history[..|history| - 1], content);
    }
  }

  // ---------------------------------------------------------------------
  // Collecting the stubs of a run
  // ---------------------------------------------------------------------

  function Source(s: Stub, path: Path): Stub {
    if s.sourceJar == None then s.(sourceJar := Some(path)) else s
  }

  function SourceAll(stubs: seq<Stub>, path: Path): (r: seq<Stub>)
    ensures |r| == |stubs|
  {
    seq(|stubs|, i requires 0 <= i < |stubs| => Source(stubs[i], path))
  }

  function StubsOf(o: Outcome): seq<Stub> {
    match o
    case Scanned(path, stubs) => SourceAll(stubs, path)
    case Cached(path, stubs) => SourceAll(stubs, path)
    case Failed(_) => []
  }

  function Collected(os: seq<Outcome>): seq<Stub> {
    if os == [] then [] else Collected(os[..|os| - 1]) + StubsOf(os[|os| - 1])
  }

  method CollectStubs(os: seq<Outcome>) returns (all: seq<Stub>)
    ensures all == Collected(os)
    ensures forall s :: s in all ==> s.sourceJar.Some?
  {
    all := [];
    var i := 0;
    while i < |os|
      invariant 0 <= i <= |os|
      invariant all == Collected(os[..i])
      invariant forall s :: s in all ==> s.sourceJar.Some?
    {
      assert os[..i + 1][..i] == os[..i];
      ghost var before := all;
      match os[i] {
        case Scanned(path, stubs) => all := all + SourceAll(stubs, path);
        case Cached(path, stubs) => all := all + SourceAll(stubs, path);
        case Failed(_) =>
      }
      assert all == before + StubsOf(os[i]);
      i := i + 1;
    }
    assert os[..i] == os;
  }

  // ---------------------------------------------------------------------
  // What the cache changes
  // ---------------------------------------------------------------------

  /** The stubs without the jar they are said to come from. */
  function Bodies(stubs: seq<Stub>): (r: seq<string>)
    ensures |r| == |stubs|
  {
    seq(|stubs|, i requires 0 <= i < |stubs| => stubs[i].body)
  }

  /** The answer an uncached scan gives. */
  function Fresh(parse: Parser, jar: JarFile): seq<Stub> {
    StubsOf(OutcomeOf(parse, map[], jar, true))
  }

  /** The answer after a history of the cache. */
  function Answer(parse: Parser, history: seq<Event>, jar: JarFile, force: bool): seq<Stub> {
    StubsOf(OutcomeOf(parse, Replay(parse, history, map[]), jar, force))
  }

  lemma {:induction false} StampIs(path: Path, bodies: seq<string>)
    ensures |Stamp(path, bodies)| == |bodies|
    ensures forall i :: 0 <= i < |bodies| ==> Stamp(path, bodies)[i] == Stub(bodies[i], Some(path))
  {
    if bodies != [] { StampIs(path, bodies[1..]); }
  }

  /** The jar that last wrote a content other than this jar. */
  predicate OtherWriter(parse: Parser, history: seq<Event>, jar: JarFile) {
    jar.content.Some? && var w := Writer(parse, history, jar.content.value); w.Some? && w.value != jar.path
  }

  /**
   After any history, the answer for a jar has the classes a fresh scan gives,
   in the same order.  It is the fresh answer itself exactly when the scan is
   forced, there is nothing in the jar, or the cache file was not last written
   from another path: then every stub names that other jar.
   */
  lemma CacheTransparentExactly(parse: Parser, history: seq<Event>, jar: JarFile, force: bool)
    ensures Bodies(Answer(parse, history, jar, force)) == Bodies(Fresh(parse, jar))
    ensures Answer(parse, history, jar, force) == Fresh(parse, jar) <==>
            (force || Fresh(parse, jar) == [] || !OtherWriter(parse, history, jar))
  {
    var plain := Fresh(parse, jar);
    if jar.content.Some? {
      var content := jar.content.value;
      CacheHoldsScans(parse, history, content);
      if !force && content in Replay(parse, history, map[]) {
        var writer := Writer(parse, history, content).value;
        var bodies := parse(content).value;
        StampIs(jar.path, bodies);
        StampIs(writer, bodies);
        var given := Answer(parse, history, jar, force);
        assert forall i :: 0 <= i < |bodies| ==> given[i] == Stub(bodies[i], Some(writer));
        assert forall i :: 0 <= i < |bodies| ==> plain[i] == Stub(bodies[i], Some(jar.path));
        assert |given| == |plain| == |bodies|;
        if plain != [] && given == plain { assert given[0] == plain[0]; }
      }
    }
  }

  /** The histories of a world: only its own jars are ever scanned. */
  ghost predicate OfWorld(world: set<JarFile>, history: seq<Event>) {
    forall e :: e in history && e.Write? ==> e.jar in world
  }

  /** No two paths of the world ever hold the same non-empty jar. */
  ghost predicate ContentsDistinct(parse: Parser, world: set<JarFile>) {
    forall a, b :: a in world && b in world && a.content == b.content && Fresh(parse, a) != [] ==> a.path == b.path
  }

  lemma {:induction false} WriterOfWorld(parse: Parser, history: seq<Event>, world: set<JarFile>, content: Content)
    requires OfWorld(world, history) && Writer(parse, history, content).Some?
    ensures JarFile(Writer(parse, history, content).value, Some(content)) in world
  {
    var last, rest := history[|history| - 1], history[..|history| - 1];
    assert last in history;
    if !(last.Write? && last.jar.content == Some(content) && ScanJar(parse, last.jar).Some?) {
      assert forall e :: e in rest ==> e in history;
      WriterOfWorld(parse, rest, world, content);
    }
  }

  /** Every answer, after every history of the world, is the fresh answer. */
  ghost predicate AlwaysFresh(parse: Parser, world: set<JarFile>) {
    forall history, jar, force :: OfWorld(world, history) && jar in world ==>
      Answer(parse, history, jar, force) == Fresh(parse, jar)
  }

  /**
   Over all runs, forced or not and in any order, the cache is invisible
   exactly when no two jar paths share the content of a non-empty jar.
   */
  lemma CacheInvisibleExactly(parse: Parser, world: set<JarFile>)
    ensures AlwaysFresh(parse, world) <==> ContentsDistinct(parse, world)
  {
    if ContentsDistinct(parse, world) {
      forall history, jar, force | OfWorld(world, history) && jar in world
        ensures Answer(parse, history, jar, force) == Fresh(parse, jar)
      {
        CacheTransparentExactly(parse, history, jar, force);
        if OtherWriter(parse, history, jar) {
          WriterOfWorld(parse, history, world, jar.content.value);
        }
      }
    }
    if AlwaysFresh(parse, world) {
      forall a, b | a in world && b in world && a.content == b.content && Fresh(parse, a) != []
        ensures a.path == b.path
      {
        var history := [Write(b)];
        assert OfWorld(world, history);
        assert Answer(parse, history, a, false) == Fresh(parse, a);
        CacheTransparentExactly(parse, history, a, false);
        assert Writer(parse, history, a.content.value) == Some(b.path);
      }
    }
  }

  /** The outcomes of a run whose jars each meet the cache after some history, concurrent scans included. */
  ghost predicate OutcomesOf(parse: Parser, jars: seq<JarFile>, force: bool, os: seq<Outcome>) {
    |os| == |jars| && forall i :: 0 <= i < |jars| ==> OutcomeAfterSome(parse, jars[i], force, os[i])
  }

  ghost predicate OutcomeAfterSome(parse: Parser, jar: JarFile, force: bool, o: Outcome) {
    exists history :: o == OutcomeOf(parse, Replay(parse, history, map[]), jar, force)
  }

  function FreshAll(parse: Parser, jars: seq<JarFile>): seq<Stub> {
    if jars == [] then [] else FreshAll(parse, jars[..|jars| - 1]) + Fresh(parse, jars[|jars| - 1])
  }

  /** The stub list of a whole run has the classes of an uncached run, in the same order. */
  lemma {:induction false} RunTransparent(parse: Parser, jars: seq<JarFile>, force: bool, os: seq<Outcome>)
    requires OutcomesOf(parse, jars, force, os)
    ensures Bodies(Collected(os)) == Bodies(FreshAll(parse, jars))
    ensures force ==> Collected(os) == FreshAll(parse, jars)
  {
    if jars != [] {
      var n := |jars| - 1;
      assert OutcomeAfterSome(parse, jars[n], force, os[n]);
      RunTransparent(parse, jars[..n], force, os[..n]);
      var history :| os[n] == OutcomeOf(parse, Replay(parse, history, map[]), jars[n], force);
      CacheTransparentExactly(parse, history, jars[n], force);
      BodiesAppend(Collected(os[..n]), StubsOf(os[n]));
      BodiesAppend(FreshAll(parse, jars[..n]), Fresh(parse, jars[n]));
    }
  }

  lemma BodiesAppend(a: seq<Stub>, b: seq<Stub>)
    ensures Bodies(a + b) == Bodies(a) + Bodies(b)
  {
  }

  lemma ReplayMore(parse: Parser, history: seq<Event>, e: Event, start: Table)
    ensures Replay(parse, history + [e], start) == Apply(parse, e, Replay(parse, history, start))
    ensures Replay(parse, [e], start) == Apply(parse, e, start)
  {
    var all := history + [e];
    assert all[..|all| - 1] == history && [e][..0] == [];
  }

  /**
   Scan jar after jar.  The cache stays one that some history of scans and
   losses has left, so the stubs have the classes of an uncached run, in order.
   */
  method ScanJars(parse: Parser, jars: seq<JarFile>, cache: Cache, force: bool, ghost past: seq<Event>)
    returns (os: seq<Outcome>, ghost history: seq<Event>)
    requires cache.table == Replay(parse, past, map[])
    modifies cache
    ensures cache.table == Replay(parse, history, map[])
    ensures OutcomesOf(parse, jars, force, os)
    ensures Bodies(Collected(os)) == Bodies(FreshAll(parse, jars))
  {
    hide *;
    os, history := [], past;
    var i := 0;
    while i < |jars|
      invariant 0 <= i <= |jars| && |os| == i
      invariant cache.table == Replay(parse, history, map[])
      invariant forall k :: 0 <= k < i ==> OutcomeAfterSome(parse, jars[k], force, os[k])
    {
      ghost var before := cache.table;
      var outcome := ScanSingleJar(parse, jars[i], cache, force);
      AfterHistory(parse, history, jars[i], force, outcome);
      if cache.table != before {
        ReplayMore(parse, history, Write(jars[i]), map[]);
        ReplayMore(parse, history, Write(jars[i]), before);
        history := history + [Write(jars[i])];
      }
      os := os + [outcome];
      i := i + 1;
    }
    AllAfterSome(parse, jars, force, os);
    RunTransparent(parse, jars, force, os);
  }

  lemma AfterHistory(parse: Parser, history: seq<Event>, jar: JarFile, force: bool, o: Outcome)
    requires o == OutcomeOf(parse, Replay(parse, history, map[]), jar, force)
    ensures OutcomeAfterSome(parse, jar, force, o)
  {
  }

  lemma AllAfterSome(parse: Parser, jars: seq<JarFile>, force: bool, os: seq<Outcome>)
    requires |os| == |jars| && forall k :: 0 <= k < |jars| ==> OutcomeAfterSome(parse, jars[k], force, os[k])
    ensures OutcomesOf(parse, jars, force, os)
  {
  }

  /** Two jars with one class and equal content: scanned after the first, the second is said to be the first. */
  lemma EqualJarsShow(parse: Parser, content: Content, body: string, a: Path, b: Path)
    requires parse(content) == Some([body]) && a != b
    ensures var first, second := JarFile(a, Some(content)), JarFile(b, Some(content));
            && Answer(parse, [Write(first)], second, false) == [Stub(body, Some(a))]
            && Fresh(parse, second) == [Stub(body, Some(b))]
            && !AlwaysFresh(parse, {first, second})
  {
    var first, second := JarFile(a, Some(content)), JarFile(b, Some(content));
    ReplayMore(parse, [], Write(first), map[]);
    assert [body][1..] == [];
    assert Stamp(a, [body]) == [Stub(body, Some(a))] && Stamp(b, [body]) == [Stub(body, Some(b))];
    assert !ContentsDistinct(parse, {first, second}) by {
      assert first in {first, second} && second in {first, second};
    }
    CacheInvisibleExactly(parse, {first, second});
  }
}
