/**
 Jars scanned side by side against one cache directory
 (`sqry-classpath/src/pipeline.rs`, `sqry-classpath/src/stub/cache.rs`).  A
 write goes to a temporary file named by the content alone, so scans of jars
 with equal content share it: one may empty, fill or rename the file of another.
 */
module ParallelScan {
  import opened Wrappers
  import opened StubCache

  type Bytes = string

  /** How stubs are written to a file and read back. */
  datatype Codec = Codec(encode: seq<Stub> -> Bytes, decode: Bytes -> Option<seq<Stub>>)

  /** What is written is read back, whatever stands behind it; a part of it is not; and it is never empty. */
  ghost predicate CodecTrue(c: Codec) {
    && (forall stubs :: c.encode(stubs) != [])
    && (forall stubs, tail :: c.decode(c.encode(stubs) + tail) == Some(stubs))
    && (forall stubs, n :: 0 <= n < |c.encode(stubs)| ==> c.decode(c.encode(stubs)[..n]) == None)
  }

  /** A file made for the stubs of a content. */
  datatype File = File(content: Content, bytes: Bytes)

  /** The files ever made, and which of them the temporary and the cache names lead to. */
  datatype Disk = Disk(files: seq<File>, temp: map<Content, nat>, table: map<Content, nat>)

  /** Where the scan of one jar is. */
  datatype Scan =
    | Todo
    | Missed                       // nothing in the cache, or not asked
    | Opened(file: nat, done: nat) // the temporary file, and how many bytes are written to it
    | Filled                       // the temporary file
    | Done(outcome: Outcome)

  datatype State = State(disk: Disk, scans: seq<Scan>)

  /** What asking the cache gives: a file that cannot be read back is a miss. */
  function Ask(c: Codec, disk: Disk, jar: JarFile, force: bool): Scan {
    if force || jar.content.None? || jar.content.value !in disk.table then Missed
    else
      var n := disk.table[jar.content.value];
      if n >= |disk.files| then Missed
      else
        match c.decode(disk.files[n].bytes)
        case Some(stubs) => Done(Cached(jar.path, stubs))
        case None => Missed
  }

  /** Open the temporary file of a content: the one that is there, emptied, or a new one. */
  function Open(disk: Disk, content: Content): (Disk, nat) {
    var empty := File(content, []);
    if content in disk.temp && disk.temp[content] < |disk.files| then
      (disk.(files := disk.files[disk.temp[content] := empty]), disk.temp[content])
    else
      (disk.(files := disk.files + [empty], temp := disk.temp[content := |disk.files|]), |disk.files|)
  }

  /** Write at a place: bytes beyond the piece stay. */
  function Overwrite(bytes: Bytes, at: nat, piece: Bytes): Bytes
    requires at <= |bytes|
  {
    bytes[..at] + piece + if at + |piece| <= |bytes| then bytes[at + |piece|..] else []
  }

  /** Rename the temporary file over the cache file; it may be gone, renamed by another scan. */
  function Rename(disk: Disk, content: Content): Disk {
    if content in disk.temp then
      disk.(table := disk.table[content := disk.temp[content]], temp := disk.temp - {content})
    else disk
  }

  /** No other jar of the run has the content of jar `i`. */
  predicate Alone(jars: seq<JarFile>, i: nat)
    requires i < |jars|
  {
    forall j :: 0 <= j < |jars| && j != i ==> jars[j].content != jars[i].content
  }

  /** Bytes `from` to `to` of the encoded stubs go to file `n`: all in one piece, unless no other scan shares it. */
  ghost predicate Writes(c: Codec, stubs: seq<Stub>, alone: bool, disk: Disk, disk': Disk, n: nat, from: nat, to: nat) {
    var bytes := c.encode(stubs);
    && n < |disk.files| && from <= to <= |bytes| && from <= |disk.files[n].bytes|
    && (alone || (from == 0 && to == |bytes|))
    && disk' == disk.(files := disk.files[n := disk.files[n].(bytes :=
                Overwrite(disk.files[n].bytes, from, bytes[from..to]))])
  }

  /** One step of the scan of one jar: where it was, where it is then, and the disk before and after. */
  ghost predicate ScanStep(c: Codec, parse: Parser, jar: JarFile, alone: bool, force: bool, before: Scan, after: Scan,
                           disk: Disk, disk': Disk) {
    match before
    case Todo => disk' == disk && after == Ask(c, disk, jar, force)
    case Missed =>
      (match ScanJar(parse, jar)
       case None => disk' == disk && after == Done(Failed(jar.path))
       case Some(stubs) =>
         // the write may fail before there is a file
         || (disk' == disk && after == Done(Scanned(jar.path, stubs)))
         || (disk' == Open(disk, jar.content.value).0 && after == Opened(Open(disk, jar.content.value).1, 0)))
    case Opened(n, done) =>
      ScanJar(parse, jar).Some? &&
      var stubs := ScanJar(parse, jar).value;
      // the write may fail at any point
      || (disk' == disk && after == Done(Scanned(jar.path, stubs)))
      || (exists to: nat :: Writes(c, stubs, alone, disk, disk', n, done, to) &&
            after == if to == |c.encode(stubs)| then Filled else Opened(n, to))
    case Filled =>
      ScanJar(parse, jar).Some? && after == Done(Scanned(jar.path, ScanJar(parse, jar).value)) &&
      // a rename that fails cleans the temporary file up
      (disk' == Rename(disk, jar.content.value) || disk' == disk.(temp := disk.temp - {jar.content.value}))
    case Done(_) => false
  }

  ghost predicate StepOf(c: Codec, parse: Parser, jars: seq<JarFile>, force: bool, s: State, s': State, i: nat) {
    && i < |jars| == |s.scans| == |s'.scans|
    && s'.scans == s.scans[i := s'.scans[i]]
    && ScanStep(c, parse, jars[i], Alone(jars, i), force, s.scans[i], s'.scans[i], s.disk, s'.disk)
  }

  /** A cache file is lost: removed as unreadable by some scan, or from outside. */
  predicate Loses(s: State, s': State, content: Content) {
    s' == s.(disk := s.disk.(table := s.disk.table - {content}))
  }

  ghost predicate Next(c: Codec, parse: Parser, jars: seq<JarFile>, force: bool, s: State, s': State) {
    (exists content :: Loses(s, s', content)) || (exists i: nat :: StepOf(c, parse, jars, force, s, s', i))
  }

  // ---------------------------------------------------------------------
  // What every state keeps
  // ---------------------------------------------------------------------

  /** The stubs are those of a scan of some jar with the content. */
  ghost predicate ScannedFrom(parse: Parser, content: Content, stubs: seq<Stub>) {
    exists path :: ScanJar(parse, JarFile(path, Some(content))) == Some(stubs)
  }

  ghost predicate NamesTruly(files: seq<File>, names: map<Content, nat>) {
    forall content :: content in names ==> names[content] < |files| && files[names[content]].content == content
  }

  ghost predicate FileTrue(c: Codec, parse: Parser, f: File) {
    c.decode(f.bytes).Some? ==> ScannedFrom(parse, f.content, c.decode(f.bytes).value)
  }

  /** Every name leads to a file of its content, and every file that can be read back holds a scan of its content. */
  ghost predicate DiskTrue(c: Codec, parse: Parser, disk: Disk) {
    && NamesTruly(disk.files, disk.temp) && NamesTruly(disk.files, disk.table)
    && forall n :: 0 <= n < |disk.files| ==> FileTrue(c, parse, disk.files[n])
  }

  /** A scan that shares its file with no other knows what it has written there. */
  ghost predicate ScanTrue(c: Codec, parse: Parser, jar: JarFile, alone: bool, force: bool, files: seq<File>,
                           scan: Scan) {
    match scan
    case Opened(n, done) =>
      && n < |files| && jar.content == Some(files[n].content) && ScanJar(parse, jar).Some?
      && if alone then done <= |c.encode(ScanJar(parse, jar).value)| &&
                       files[n].bytes == c.encode(ScanJar(parse, jar).value)[..done]
         else done == 0
    case Done(o) => OutcomeAfterSome(parse, jar, force, o)
    case _ => true
  }

  ghost predicate Invariant(c: Codec, parse: Parser, jars: seq<JarFile>, force: bool, s: State) {
    && |s.scans| == |jars|
    && DiskTrue(c, parse, s.disk)
    && forall i :: 0 <= i < |jars| ==> ScanTrue(c, parse, jars[i], Alone(jars, i), force, s.disk.files, s.scans[i])
  }

  /** Files are only added or written to, and only those made for the content. */
  predicate OnlyTouches(files: seq<File>, files': seq<File>, content: Option<Content>) {
    |files| <= |files'| &&
    forall n :: 0 <= n < |files| ==>
      files'[n].content == files[n].content && (Some(files[n].content) != content ==> files'[n] == files[n])
  }

  /** A hit is what some history of the cache answers: one write of the jar the stubs come from. */
  lemma HitAfterSome(parse: Parser, jar: JarFile, stubs: seq<Stub>)
    requires jar.content.Some? && ScannedFrom(parse, jar.content.value, stubs)
    ensures OutcomeAfterSome(parse, jar, false, Cached(jar.path, stubs))
  {
    var path :| ScanJar(parse, JarFile(path, jar.content)) == Some(stubs);
    var e := Write(JarFile(path, jar.content));
    ReplayMore(parse, [], e, map[]);
    assert OutcomeOf(parse, Replay(parse, [e], map[]), jar, false) == Cached(jar.path, stubs);
  }

  /** A fresh scan, or a failure, is what an empty cache answers. */
  lemma FreshAfterSome(parse: Parser, jar: JarFile, force: bool)
    ensures OutcomeAfterSome(parse, jar, force,
              match ScanJar(parse, jar) case Some(stubs) => Scanned(jar.path, stubs) case None => Failed(jar.path))
  {
    assert Replay(parse, [], map[]) == map[];
    assert Lookup(map[], jar) == None;
    AfterHistory(parse, [], jar, force, OutcomeOf(parse, map[], jar, force));
  }

  lemma EmptyIsUnread(c: Codec)
    requires CodecTrue(c)
    ensures c.decode([]) == None
  {
    var none: seq<Stub> := [];
    assert c.encode(none)[..0] == [];
  }

  lemma OpenKeepsDisk(c: Codec, parse: Parser, disk: Disk, content: Content)
    requires CodecTrue(c) && DiskTrue(c, parse, disk)
    ensures var (disk', n) := Open(disk, content);
            && DiskTrue(c, parse, disk') && OnlyTouches(disk.files, disk'.files, Some(content))
            && n < |disk'.files| && disk'.files[n] == File(content, [])
  {
    EmptyIsUnread(c);
    hide CodecTrue;
    assert FileTrue(c, parse, File(content, []));
    hide FileTrue;
  }

  /** A piece of the encoded stubs leaves a file that is not read back, or is read back as the stubs. */
  lemma PieceReads(c: Codec, stubs: seq<Stub>, alone: bool, bytes: Bytes, from: nat, to: nat)
    requires CodecTrue(c) && from <= to <= |c.encode(stubs)| && from <= |bytes|
    requires if alone then bytes == c.encode(stubs)[..from] else from == 0 && to == |c.encode(stubs)|
    ensures var result := Overwrite(bytes, from, c.encode(stubs)[from..to]);
            && (c.decode(result) == None || c.decode(result) == Some(stubs))
            && (alone ==> result == c.encode(stubs)[..to])
  {
    var all := c.encode(stubs);
    var result := Overwrite(bytes, from, all[from..to]);
    if alone {
      assert result == all[..to];
      if to == |all| { assert result == all + []; }
    } else {
      assert result == all + if |all| <= |bytes| then bytes[|all|..] else [];
    }
  }

  lemma WriteKeepsDisk(c: Codec, parse: Parser, jar: JarFile, alone: bool, disk: Disk, disk': Disk, n: nat,
                       from: nat, to: nat)
    requires CodecTrue(c) && DiskTrue(c, parse, disk) && ScanJar(parse, jar).Some?
    requires n < |disk.files| && jar.content == Some(disk.files[n].content)
    requires Writes(c, ScanJar(parse, jar).value, alone, disk, disk', n, from, to)
    requires alone ==> disk.files[n].bytes == c.encode(ScanJar(parse, jar).value)[..from]
    ensures DiskTrue(c, parse, disk') && OnlyTouches(disk.files, disk'.files, jar.content)
    ensures n < |disk'.files| && disk'.files[n].content == disk.files[n].content
    ensures alone ==> disk'.files[n].bytes == c.encode(ScanJar(parse, jar).value)[..to]
  {
    var stubs := ScanJar(parse, jar).value;
    PieceReads(c, stubs, alone, disk.files[n].bytes, from, to);
    assert jar == JarFile(jar.path, Some(disk.files[n].content));
    assert ScannedFrom(parse, disk.files[n].content, stubs);
    hide CodecTrue, Overwrite, ScannedFrom, ScanJar;
    assert FileTrue(c, parse, disk'.files[n]);
  }

  lemma RenameKeepsDisk(c: Codec, parse: Parser, disk: Disk, content: Content)
    requires DiskTrue(c, parse, disk)
    ensures DiskTrue(c, parse, Rename(disk, content)) && DiskTrue(c, parse, disk.(temp := disk.temp - {content}))
    ensures Rename(disk, content).files == disk.files
  {
    hide FileTrue;
  }

  lemma StepKeepsDisk(c: Codec, parse: Parser, jar: JarFile, alone: bool, force: bool, before: Scan, after: Scan,
                      disk: Disk, disk': Disk)
    requires CodecTrue(c) && DiskTrue(c, parse, disk) && ScanTrue(c, parse, jar, alone, force, disk.files, before)
    requires ScanStep(c, parse, jar, alone, force, before, after, disk, disk')
    ensures DiskTrue(c, parse, disk') && ScanTrue(c, parse, jar, alone, force, disk'.files, after)
    ensures OnlyTouches(disk.files, disk'.files, jar.content)
  {
    FreshAfterSome(parse, jar, force);
    match before
    case Todo =>
      hide OutcomeAfterSome, CodecTrue;
      if after.Done? {
        var n := disk.table[jar.content.value];
        assert FileTrue(c, parse, disk.files[n]);
        HitAfterSome(parse, jar, after.outcome.stubs);
      }
    case Missed =>
      hide DiskTrue, Open, OutcomeAfterSome, CodecTrue;
      if jar.content.Some? { OpenKeepsDisk(c, parse, disk, jar.content.value); }
    case Opened(n, done) =>
      hide DiskTrue, OutcomeAfterSome, CodecTrue, Overwrite;
      var stubs := ScanJar(parse, jar).value;
      if !(disk' == disk && after == Done(Scanned(jar.path, stubs))) {
        var to: nat :| Writes(c, stubs, alone, disk, disk', n, done, to) &&
                       after == if to == |c.encode(stubs)| then Filled else Opened(n, to);
        WriteKeepsDisk(c, parse, jar, alone, disk, disk', n, done, to);
      }
    case Filled =>
      hide DiskTrue, Rename, OutcomeAfterSome, CodecTrue;
      RenameKeepsDisk(c, parse, disk, jar.content.value);
    case Done(_) =>
  }

  lemma StepKeepsInvariant(c: Codec, parse: Parser, jars: seq<JarFile>, force: bool, s: State, s': State, i: nat)
    requires CodecTrue(c) && Invariant(c, parse, jars, force, s)
    requires StepOf(c, parse, jars, force, s, s', i)
    ensures Invariant(c, parse, jars, force, s')
  {
    StepKeepsDisk(c, parse, jars[i], Alone(jars, i), force, s.scans[i], s'.scans[i], s.disk, s'.disk);
    hide DiskTrue, ScanStep, CodecTrue, Alone, OutcomeAfterSome;
    forall k | 0 <= k < |jars|
      ensures ScanTrue(c, parse, jars[k], Alone(jars, k), force, s'.disk.files, s'.scans[k])
    {
      if k != i {
        OthersKeepTheirs(c, parse, jars, force, s.disk.files, s'.disk.files, s.scans[k], i, k);
      }
    }
  }

  /** A scan that shares its file with no other finds it as it left it. */
  lemma OthersKeepTheirs(c: Codec, parse: Parser, jars: seq<JarFile>, force: bool, files: seq<File>, files': seq<File>,
                         scan: Scan, i: nat, k: nat)
    requires i < |jars| && k < |jars| && i != k && OnlyTouches(files, files', jars[i].content)
    requires ScanTrue(c, parse, jars[k], Alone(jars, k), force, files, scan)
    ensures ScanTrue(c, parse, jars[k], Alone(jars, k), force, files', scan)
  {
    hide OutcomeAfterSome;
    if scan.Opened? && Alone(jars, k) {
      assert jars[i].content != jars[k].content;
    }
  }

  /** A run: any disk left by runs before it, every scan still to be done, and any interleaving from there. */
  ghost predicate Run(c: Codec, parse: Parser, jars: seq<JarFile>, force: bool, trace: seq<State>) {
    && trace != []
    && DiskTrue(c, parse, trace[0].disk)
    && |trace[0].scans| == |jars| && (forall scan :: scan in trace[0].scans ==> scan == Todo)
    && forall k :: 0 <= k < |trace| - 1 ==> Next(c, parse, jars, force, trace[k], trace[k + 1])
  }

  lemma {:induction false} RunInvariant(c: Codec, parse: Parser, jars: seq<JarFile>, force: bool, trace: seq<State>,
                                        k: nat)
    requires CodecTrue(c) && Run(c, parse, jars, force, trace) && k < |trace|
    ensures Invariant(c, parse, jars, force, trace[k])
  {
    hide CodecTrue, ScanStep;
    if k > 0 {
      RunInvariant(c, parse, jars, force, trace, k - 1);
      var s, s' := trace[k - 1], trace[k];
      assert Next(c, parse, jars, force, s, trace[k - 1 + 1]);
      hide ScanTrue, FileTrue;
      if i: nat :| StepOf(c, parse, jars, force, s, s', i) {
        StepKeepsInvariant(c, parse, jars, force, s, s', i);
      }
    } else {
      forall i | 0 <= i < |jars|
        ensures ScanTrue(c, parse, jars[i], Alone(jars, i), force, trace[0].disk.files, trace[0].scans[i])
      {
        assert trace[0].scans[i] in trace[0].scans;
      }
    }
  }

  /** The outcomes of a state in which every scan is done. */
  ghost predicate Finished(s: State, os: seq<Outcome>) {
    |s.scans| == |os| && forall i :: 0 <= i < |os| ==> s.scans[i] == Done(os[i])
  }

  /**
   However the scans of a run overlap, its stubs have the classes of an uncached
   run, in order, and are the uncached run's when forced; and the disk it leaves
   at any moment, finished or not, is one a later run can start from.
   */
  lemma OverlappingScansTransparent(c: Codec, parse: Parser, jars: seq<JarFile>, force: bool, trace: seq<State>, k: nat,
                                    os: seq<Outcome>)
    requires CodecTrue(c) && Run(c, parse, jars, force, trace) && k < |trace|
    ensures DiskTrue(c, parse, trace[k].disk)
    ensures Finished(trace[k], os) ==>
              OutcomesOf(parse, jars, force, os) &&
              Bodies(Collected(os)) == Bodies(FreshAll(parse, jars)) &&
              (force ==> Collected(os) == FreshAll(parse, jars))
  {
    RunInvariant(c, parse, jars, force, trace, k);
    hide CodecTrue, Run, DiskTrue;
    if Finished(trace[k], os) {
      forall i | 0 <= i < |jars| ensures OutcomeAfterSome(parse, jars[i], force, os[i]) {
        assert ScanTrue(c, parse, jars[i], Alone(jars, i), force, trace[k].disk.files, trace[k].scans[i]);
      }
      hide OutcomeAfterSome;
      AllAfterSome(parse, jars, force, os);
      RunTransparent(parse, jars, force, os);
    }
  }

  /** An empty cache directory is one a first run can start from. */
  lemma EmptyDiskTrue(c: Codec, parse: Parser)
    ensures DiskTrue(c, parse, Disk([], map[], map[]))
  {
  }
}
