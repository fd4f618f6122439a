/**
 The parity gate of `scripts/ci/check_agent_skills_parity.py`, over an index
 and a working tree given as values.
 */
module ParityGate {
  import opened Wrappers
  import opened SkillPaths
  import SkillWalk

  const GIT_SYMLINK_MODE := "120000"

  datatype IndexEntry = IndexEntry(mode: string, oid: string)

  /** What stands at the copy root on disk, links followed. */
  datatype Root = Directory(key: SkillWalk.Key) | NotDirectory | Absent

  /**
   The repository: the stage-zero index by path, the blobs git can show, the
   paths that are symlinks on disk, the regular files with their bytes (links
   followed), and the directories below the copy root.
   */
  datatype Repo = Repo(
    index: map<string, IndexEntry>,
    blobs: map<string, string>,
    links: set<string>,
    files: map<string, string>,
    root: Root,
    graph: SkillWalk.Graph)

  datatype Failure =
    | TrackedSymlink
    | NoSources
    | SourceIsSymlink(path: string)
    | SourceMissing(path: string)
    | Unreadable(path: string)
    | Orphaned(path: string)
    | InsideSourceTree(path: string)
    | OutsideCopyRoot(path: string)
    | CopyIsSymlink(path: string)
    | CopyMissing(path: string)
    | Diverged(path: string)
    | StagedDiffers(path: string)
    | Untracked(path: string)
    | WalkFailed(path: string)
    | RootNotDirectory
    | RootGone
    | NoCopies
    | NotAllCompared

  // ---------------------------------------------------------------------
  // The population
  // ---------------------------------------------------------------------

  function SkillFiles(r: Repo): set<string> { set p | p in r.index && BaseName(p) == SKILL }

  function SourceFiles(r: Repo): set<string> { set p | p in SkillFiles(r) && SourceName(p).Some? }

  function OutsideFiles(r: Repo): set<string> { set p | p in SkillFiles(r) && SourceName(p).None? }

  /** The tracked path of a source, by its skill name. */
  predicate IsSource(r: Repo, name: string) { name != "" && '/' !in name && SourcePath(name) in r.index }

  predicate IsCopy(r: Repo, p: string) { UnderCopyRoot(p) && IsSource(r, SkillDirName(p)) }

  function Copies(r: Repo): set<string> { set p | p in OutsideFiles(r) && IsCopy(r, p) }

  lemma SourceFilesExact(r: Repo, name: string)
    ensures IsSource(r, name) <==> exists p :: p in SourceFiles(r) && SourceName(p) == Some(name)
    ensures IsSource(r, name) ==> SourcePath(name) in SourceFiles(r)
  {
    if IsSource(r, name) {
      SourceNameExact(SourcePath(name), name);
      SourceBaseName(SourcePath(name));
    }
    if p :| p in SourceFiles(r) && SourceName(p) == Some(name) {
      SourceNameExact(p, name);
    }
  }

  // ---------------------------------------------------------------------
  // The rules, one path at a time
  // ---------------------------------------------------------------------

  function SourceFailures(r: Repo, p: string): seq<Failure> {
    if p in r.links then [SourceIsSymlink(p)]
    else if p !in r.files then [SourceMissing(p)]
    else []
  }

  function CompareFailures(r: Repo, p: string, src: string): seq<Failure>
    requires p in r.index && src in r.index
  {
    if p in r.links then [CopyIsSymlink(p)]
    else if p !in r.files then [CopyMissing(p)]
    else if src !in r.files then []
    else if r.files[p] != r.files[src] then [Diverged(p)]
    else if r.index[p].oid != r.index[src].oid then [StagedDiffers(p)]
    else []
  }

  predicate Compared(r: Repo, p: string, src: string) {
    p !in r.links && p in r.files && src in r.files
  }

  /** The version marker of a tracked path, read from its blob. */
  function Marker(r: Repo, p: string): Option<bool>
    requires p in r.index
  {
    var oid := r.index[p].oid;
    if oid in r.blobs then Some(HasVersionLine(r.blobs[oid])) else None
  }

  function MarkerFailures(r: Repo, p: string, f: Failure): seq<Failure>
    requires p in r.index
  {
    match Marker(r, p)
    case None => [Unreadable(p)]
    case Some(marked) => if marked then [f] else []
  }

  /** What the gate says of a tracked `SKILL.md` that is not a source. */
  function PathFailures(r: Repo, p: string): seq<Failure>
    requires p in r.index
  {
    var name := SkillDirName(p);
    if UnderCopyRoot(p) then
      if IsSource(r, name) then CompareFailures(r, p, SourcePath(name)) else MarkerFailures(r, p, Orphaned(p))
    else if SRC_PREFIX <= p then [InsideSourceTree(p)]
    else if IsSource(r, name) then MarkerFailures(r, p, OutsideCopyRoot(p))
    else []
  }

  /** What the gate says of one thing the walk met. */
  function EventFailures(r: Repo, e: SkillWalk.Event): seq<Failure> {
    match e
    case Unlistable(p) => [WalkFailed(p)]
    case StatFailed(p) => [WalkFailed(p)]
    case Inspect(p, content) =>
      if p in SkillFiles(r) then []
      else if IsSource(r, SkillDirName(p)) then [Untracked(p)]
      else
        match content
        case None => [Unreadable(p)]
        case Some(text) => if HasVersionLine(text) then [Untracked(p)] else []
  }

  ghost function EventsFailures(r: Repo, es: seq<SkillWalk.Event>): seq<Failure> {
    if es == [] then [] else EventFailures(r, es[0]) + EventsFailures(r, es[1..])
  }

  lemma {:induction false} EventsFailuresAppend(r: Repo, a: seq<SkillWalk.Event>, b: seq<SkillWalk.Event>)
    ensures EventsFailures(r, a + b) == EventsFailures(r, a) + EventsFailures(r, b)
  {
    if a == [] {
      assert a + b == b;
    } else {
      EventsFailuresAppend(r, a[1..], b);
      hide EventFailures;
      assert (a + b)[1..] == a[1..] + b;
    }
  }

  lemma {:induction false} EventsClean(r: Repo, es: seq<SkillWalk.Event>)
    ensures EventsFailures(r, es) == [] <==> forall e :: e in es ==> EventFailures(r, e) == []
  {
    if es != [] {
      EventsClean(r, es[1..]);
      assert es == [es[0]] + es[1..];
      assert es[0] in es;
    }
  }

  // ---------------------------------------------------------------------
  // The gate
  // ---------------------------------------------------------------------

  class Report {
    var failures: seq<Failure>
    var checked: nat
    var expected: nat
    var missing: nat

    constructor ()
      ensures failures == [] && checked == expected == missing == 0
    {
      failures, checked, expected, missing := [], 0, 0, 0;
    }

    method Fail(f: Failure)
      modifies this`failures
      ensures failures == old(failures) + [f]
    {
      failures := failures + [f];
    }
  }

  /** Read the marker of a tracked path; a blob that cannot be read is reported. */
  method HasVersionMarker(r: Repo, p: string, report: Report) returns (marked: bool)
    requires p in r.index
    modifies report`failures
    ensures marked == (Marker(r, p) == Some(true))
    ensures report.failures == old(report.failures) + if Marker(r, p) == None then [Unreadable(p)] else []
  {
    var oid := r.index[p].oid;
    if oid !in r.blobs {
      report.Fail(Unreadable(p));
      return false;
    }
    return HasVersionLine(r.blobs[oid]);
  }

  method CompareCopy(r: Repo, p: string, src: string, report: Report)
    requires p in r.index && src in r.index
    modifies report
    ensures report.failures == old(report.failures) + CompareFailures(r, p, src)
    ensures report.expected == old(report.expected) + 1
    ensures report.checked == old(report.checked) + if Compared(r, p, src) then 1 else 0
    ensures report.missing == old(report.missing) + if p !in r.links && p !in r.files then 1 else 0
  {
    report.expected := report.expected + 1;
    if p in r.links {
      report.Fail(CopyIsSymlink(p));
      return;
    }
    if p !in r.files {
      report.missing := report.missing + 1;
      report.Fail(CopyMissing(p));
      return;
    }
    if src !in r.files {
      return;
    }
    report.checked := report.checked + 1;
    if r.files[p] != r.files[src] {
      report.Fail(Diverged(p));
      return;
    }
    if r.index[p].oid != r.index[src].oid {
      report.Fail(StagedDiffers(p));
    }
  }

  method InspectSkill(r: Repo, p: string, content: Option<string>, report: Report)
    modifies report`failures
    ensures report.failures == old(report.failures) + EventFailures(r, SkillWalk.Inspect(p, content))
  {
    if p in SkillFiles(r) {
      return;
    }
    if IsSource(r, SkillDirName(p)) {
      report.Fail(Untracked(p));
      return;
    }
    match content
    case None => report.Fail(Unreadable(p));
    case Some(text) =>
      if HasVersionLine(text) {
        report.Fail(Untracked(p));
      }
  }

  lemma {:induction false} EntriesSnoc(path: string, es: seq<SkillWalk.Entry>, e: SkillWalk.Entry)
    ensures SkillWalk.EntriesEvents(path, es + [e]) ==
            SkillWalk.EntriesEvents(path, es) + SkillWalk.EntryEvents(path, e)
    ensures SkillWalk.SubdirsOf(es + [e]) == SkillWalk.SubdirsOf(es) + if e.Dir? then [e] else []
  {
    if es == [] {
      assert es + [e] == [e] + [];
      SkillWalk.EntriesStep(path, e, []);
      assert SkillWalk.EntriesEvents(path, []) == [] && SkillWalk.SubdirsOf([]) == [];
      hide *;
    } else {
      assert es == [es[0]] + es[1..] && es + [e] == [es[0]] + (es[1..] + [e]);
      hide *;
      SkillWalk.EntriesStep(path, es[0], es[1..]);
      SkillWalk.EntriesStep(path, es[0], es[1..] + [e]);
      EntriesSnoc(path, es[1..], e);
    }
  }

  lemma {:induction false} WalkedAllSnoc(g: SkillWalk.Graph, subs: seq<SkillWalk.Entry>, sub: SkillWalk.Entry,
                                         path: string, ancestry: set<SkillWalk.Key>)
    ensures SkillWalk.WalkedAll(g, subs + [sub], path, ancestry) ==
            SkillWalk.WalkedAll(g, subs, path, ancestry) + SkillWalk.WalkedInto(g, sub, path, ancestry)
  {
    if subs == [] {
      assert subs + [sub] == [sub] + [];
      SkillWalk.WalkedAllStep(g, sub, [], path, ancestry);
      assert SkillWalk.WalkedAll(g, [], path, ancestry) == [];
      hide *;
    } else {
      assert subs == [subs[0]] + subs[1..] && subs + [sub] == [subs[0]] + (subs[1..] + [sub]);
      hide *;
      SkillWalk.WalkedAllStep(g, subs[0], subs[1..], path, ancestry);
      SkillWalk.WalkedAllStep(g, subs[0], subs[1..] + [sub], path, ancestry);
      WalkedAllSnoc(g, subs[1..], sub, path, ancestry);
    }
  }

  /** One entry: inspect a `SKILL.md`, report one that cannot be asked, keep a directory for later. */
  method VisitEntry(r: Repo, path: string, entry: SkillWalk.Entry, report: Report)
    modifies report`failures
    ensures report.failures == old(report.failures) + EventsFailures(r, SkillWalk.EntryEvents(path, entry))
  {
    match entry {
      case File(name, content) =>
        if name == SKILL {
          InspectSkill(r, SkillWalk.Under(path, name), content, report);
        }
      case Dir(_, _) =>
      case BadEntry(name) => report.Fail(WalkFailed(SkillWalk.Under(path, name)));
      case Other(_) =>
    }
  }

  ghost function ListingFailures(r: Repo, path: string, entries: seq<SkillWalk.Entry>): seq<Failure> {
    EventsFailures(r, SkillWalk.EntriesEvents(path, entries))
  }

  lemma ListingSnoc(r: Repo, path: string, es: seq<SkillWalk.Entry>, i: nat)
    requires i < |es|
    ensures ListingFailures(r, path, es[..i + 1]) ==
            ListingFailures(r, path, es[..i]) + EventsFailures(r, SkillWalk.EntryEvents(path, es[i]))
    ensures SkillWalk.SubdirsOf(es[..i + 1]) == SkillWalk.SubdirsOf(es[..i]) + if es[i].Dir? then [es[i]] else []
  {
    assert es[..i + 1] == es[..i] + [es[i]];
    EntriesSnoc(path, es[..i], es[i]);
    EventsFailuresAppend(r, SkillWalk.EntriesEvents(path, es[..i]), SkillWalk.EntryEvents(path, es[i]));
  }

  method ListDirectory(r: Repo, path: string, entries: seq<SkillWalk.Entry>, report: Report)
    returns (subdirs: seq<SkillWalk.Entry>)
    modifies report`failures
    ensures report.failures == old(report.failures) + ListingFailures(r, path, entries)
    ensures subdirs == SkillWalk.SubdirsOf(entries)
  {
    ghost var before := report.failures;
    subdirs := [];
    assert ListingFailures(r, path, entries[..0]) == [] && SkillWalk.SubdirsOf(entries[..0]) == [];
    hide *;
    var i := 0;
    while i < |entries|
      invariant 0 <= i <= |entries|
      invariant report.failures == before + ListingFailures(r, path, entries[..i])
      invariant subdirs == SkillWalk.SubdirsOf(entries[..i])
    {
      ListingSnoc(r, path, entries, i);
      VisitEntry(r, path, entries[i], report);
      if entries[i].Dir? {
        subdirs := subdirs + [entries[i]];
      }
      i := i + 1;
    }
    assert entries[..i] == entries;
  }

  /** The failures of the whole walk below a directory, of all its subdirectories, and of one of them. */
  ghost function WalkFailures(r: Repo, key: SkillWalk.Key, path: string, ancestry: set<SkillWalk.Key>): seq<Failure> {
    EventsFailures(r, SkillWalk.Walked(r.graph, key, path, ancestry))
  }

  ghost function SubdirsFailures(r: Repo, subs: seq<SkillWalk.Entry>, path: string,
                                 ancestry: set<SkillWalk.Key>): seq<Failure> {
    EventsFailures(r, SkillWalk.WalkedAll(r.graph, subs, path, ancestry))
  }

  ghost function IntoFailures(r: Repo, sub: SkillWalk.Entry, path: string, ancestry: set<SkillWalk.Key>): seq<Failure> {
    EventsFailures(r, SkillWalk.WalkedInto(r.graph, sub, path, ancestry))
  }

  lemma EventsFailuresOne(r: Repo, e: SkillWalk.Event)
    ensures EventsFailures(r, [e]) == EventFailures(r, e)
  {
    assert [e][1..] == [] && EventFailures(r, e) + [] == EventFailures(r, e);
  }

  lemma WalkFailuresSplit(r: Repo, key: SkillWalk.Key, path: string, ancestry: set<SkillWalk.Key>)
    ensures WalkFailures(r, key, path, ancestry) ==
            if key !in r.graph then [WalkFailed(path)]
            else ListingFailures(r, path, r.graph[key]) +
                 SubdirsFailures(r, SkillWalk.SubdirsOf(r.graph[key]), path, ancestry)
  {
    EventsFailuresOne(r, SkillWalk.Unlistable(path));
    if key in r.graph {
      EventsFailuresAppend(r, SkillWalk.EntriesEvents(path, r.graph[key]),
                           SkillWalk.WalkedAll(r.graph, SkillWalk.SubdirsOf(r.graph[key]), path, ancestry));
    }
  }

  lemma SubdirsFailuresSnoc(r: Repo, subs: seq<SkillWalk.Entry>, sub: SkillWalk.Entry, path: string,
                            ancestry: set<SkillWalk.Key>)
    ensures SubdirsFailures(r, subs + [sub], path, ancestry) ==
            SubdirsFailures(r, subs, path, ancestry) + IntoFailures(r, sub, path, ancestry)
    ensures SubdirsFailures(r, [], path, ancestry) == []
  {
    WalkedAllSnoc(r.graph, subs, sub, path, ancestry);
    EventsFailuresAppend(r, SkillWalk.WalkedAll(r.graph, subs, path, ancestry),
                         SkillWalk.WalkedInto(r.graph, sub, path, ancestry));
  }

  /** Descend, following symlinks, stopping only at a directory already on the path. */
  method Walk(r: Repo, key: SkillWalk.Key, path: string, ancestry: set<SkillWalk.Key>, report: Report)
    modifies report`failures
    ensures report.failures == old(report.failures) + WalkFailures(r, key, path, ancestry)
    decreases SkillWalk.Measure(r.graph, ancestry), if key in r.graph then 1 else 0, 2
  {
    hide ListingFailures, WalkFailures, SubdirsFailures, SkillWalk.SubdirsOf;
    WalkFailuresSplit(r, key, path, ancestry);
    if key !in r.graph {
      report.Fail(WalkFailed(path));
      return;
    }
    var subdirs := ListDirectory(r, path, r.graph[key], report);
    SkillWalk.SubdirsAreDirs(r.graph[key]);
    WalkSubdirs(r, key, subdirs, path, ancestry, report);
  }

  method WalkSubdirs(r: Repo, key: SkillWalk.Key, subdirs: seq<SkillWalk.Entry>, path: string,
                     ancestry: set<SkillWalk.Key>, report: Report)
    requires key in r.graph && forall sub :: sub in subdirs ==> sub.Dir?
    modifies report`failures
    ensures report.failures == old(report.failures) + SubdirsFailures(r, subdirs, path, ancestry)
    decreases SkillWalk.Measure(r.graph, ancestry), 1, 1
  {
    hide SubdirsFailures, IntoFailures;
    ghost var before := report.failures;
    var j := 0;
    SubdirsFailuresSnoc(r, [], SkillWalk.Other(""), path, ancestry);
    while j < |subdirs|
      invariant 0 <= j <= |subdirs|
      invariant report.failures == before + SubdirsFailures(r, subdirs[..j], path, ancestry)
    {
      assert subdirs[..j + 1] == subdirs[..j] + [subdirs[j]];
      SubdirsFailuresSnoc(r, subdirs[..j], subdirs[j], path, ancestry);
      assert subdirs[j] in subdirs;
      WalkInto(r, key, subdirs[j], path, ancestry, report);
      j := j + 1;
    }
    assert subdirs[..j] == subdirs;
  }

  /** Enter one subdirectory, unless it cannot be stat'ed or is already on the path. */
  method WalkInto(r: Repo, key: SkillWalk.Key, sub: SkillWalk.Entry, path: string,
                  ancestry: set<SkillWalk.Key>, report: Report)
    requires key in r.graph && sub.Dir?
    modifies report`failures
    ensures report.failures == old(report.failures) + IntoFailures(r, sub, path, ancestry)
    decreases SkillWalk.Measure(r.graph, ancestry), 1, 0
  {
    var under := SkillWalk.Under(path, sub.name);
    match sub.key {
      case None =>
        EventsFailuresOne(r, SkillWalk.StatFailed(under));
        report.Fail(WalkFailed(under));
      case Some(k) =>
        if k !in ancestry {
          if k in r.graph {
            SkillWalk.MeasureDrops(r.graph, ancestry, k);
          } else {
            assert r.graph.Keys - (ancestry + {k}) == r.graph.Keys - ancestry;
          }
          Walk(r, k, under, ancestry + {k}, report);
        }
    }
  }

  // ---------------------------------------------------------------------
  // The run
  // ---------------------------------------------------------------------

  const ROOT_PATH := COPY_ROOT

  /** Look under the copy root for copies the index does not hold. */
  method ScanUntracked(r: Repo, report: Report)
    modifies report`failures
    ensures report.failures == old(report.failures) + ScanFailures(r)
  {
    match r.root
    case Directory(key) => Walk(r, key, ROOT_PATH, {key}, report);
    case NotDirectory => return;
    case Absent => return;
  }

  ghost function ScanFailures(r: Repo): seq<Failure> {
    match r.root
    case Directory(key) => WalkFailures(r, key, ROOT_PATH, {key})
    case _ => []
  }

  ghost predicate SourcesClean(r: Repo, ps: set<string>) {
    forall p :: p in ps ==> SourceFailures(r, p) == []
  }

  predicate PathClean(r: Repo, p: string) {
    p in r.index && PathFailures(r, p) == []
  }

  ghost predicate PathsClean(r: Repo, ps: set<string>) {
    forall p :: p in ps ==> PathClean(r, p)
  }

  lemma SourcesCleanGrow(r: Repo, ps: set<string>, p: string)
    ensures SourcesClean(r, ps + {p}) <==> SourcesClean(r, ps) && SourceFailures(r, p) == []
  {
  }

  lemma PathsCleanGrow(r: Repo, ps: set<string>, p: string)
    ensures PathsClean(r, ps + {p}) <==> PathsClean(r, ps) && PathClean(r, p)
  {
  }

  /** Every rule the gate checks before it looks at the counters. */
  ghost predicate RulesHold(r: Repo) {
    && (forall p :: p in r.index ==> r.index[p].mode != GIT_SYMLINK_MODE)
    && SourcesClean(r, SourceFiles(r))
    && PathsClean(r, OutsideFiles(r))
    && ScanFailures(r) == []
    && r.root != NotDirectory
  }

  /** What the gate lets pass, rule by rule. */
  ghost predicate Passes(r: Repo) {
    && SourceFiles(r) != {}
    && RulesHold(r)
    && (r.root == Absent ==> OutsideFiles(r) == {})
    && (r.root.Directory? ==> Copies(r) != {})
  }

  /** The one check of a source on disk. */
  method CheckSource(r: Repo, p: string, report: Report)
    modifies report
    ensures report.failures == old(report.failures) + SourceFailures(r, p)
    ensures report.checked == old(report.checked) && report.expected == old(report.expected)
    ensures SourceFailures(r, p) == [] ==> report.missing == old(report.missing)
  {
    if p in r.links {
      report.Fail(SourceIsSymlink(p));
    } else if p !in r.files {
      report.missing := report.missing + 1;
      report.Fail(SourceMissing(p));
    }
  }

  method CheckSources(r: Repo, report: Report)
    modifies report
    ensures report.failures == [] <==> old(report.failures) == [] && SourcesClean(r, SourceFiles(r))
    ensures report.checked == old(report.checked) && report.expected == old(report.expected)
    ensures report.failures == [] ==> report.missing == old(report.missing)
  {
    hide SourceFailures, SourceFiles, SourcesClean;
    ghost var before := report.failures;
    var left := SourceFiles(r);
    ghost var done: set<string> := {};
    assert SourcesClean(r, {}) by { NothingClean(r); }
    while left != {}
      invariant done + left == SourceFiles(r)
      invariant report.failures == [] <==> before == [] && SourcesClean(r, done)
      invariant report.checked == old(report.checked) && report.expected == old(report.expected)
      invariant report.failures == [] ==> report.missing == old(report.missing)
      decreases |left|
    {
      var p :| p in left;
      left := left - {p};
      SourcesCleanGrow(r, done, p);
      done := done + {p};
      CheckSource(r, p, report);
    }
    assert done == SourceFiles(r);
  }

  lemma NothingClean(r: Repo)
    ensures SourcesClean(r, {}) && PathsClean(r, {})
  {
  }

  /** The rules for one tracked `SKILL.md` outside the sources. */
  method CheckPath(r: Repo, p: string, report: Report)
    requires p in OutsideFiles(r)
    modifies report
    ensures report.failures == old(report.failures) + PathFailures(r, p)
    ensures report.expected == old(report.expected) + if IsCopy(r, p) then 1 else 0
    ensures report.checked == old(report.checked) +
                              if IsCopy(r, p) && Compared(r, p, SourcePath(SkillDirName(p))) then 1 else 0
    ensures report.failures == [] ==> report.missing == old(report.missing)
  {
    var name := SkillDirName(p);
    if UnderCopyRoot(p) {
      if IsSource(r, name) {
        CompareCopy(r, p, SourcePath(name), report);
      } else {
        var marked := HasVersionMarker(r, p, report);
        if marked {
          report.Fail(Orphaned(p));
        }
      }
      return;
    }
    if SRC_PREFIX <= p {
      report.Fail(InsideSourceTree(p));
      return;
    }
    if IsSource(r, name) {
      var marked := HasVersionMarker(r, p, report);
      if marked {
        report.Fail(OutsideCopyRoot(p));
      }
    }
  }

  method CheckOutside(r: Repo, report: Report) returns (outside: nat)
    requires report.checked == report.expected == 0
    modifies report
    ensures outside == |OutsideFiles(r)|
    ensures report.failures == [] <==> old(report.failures) == [] && PathsClean(r, OutsideFiles(r))
    ensures report.expected == |Copies(r)|
    ensures report.failures == [] && SourcesClean(r, SourceFiles(r)) ==> report.checked == report.expected
    ensures report.failures == [] ==> report.missing == old(report.missing)
  {
    hide PathFailures, PathsClean, SourcesClean, OutsideFiles, Copies, SourceFiles, Compared;
    NothingClean(r);
    assert {} * Copies(r) == {};
    ghost var before := report.failures;
    outside := 0;
    var left := OutsideFiles(r);
    ghost var done: set<string> := {};
    while left != {}
      invariant done + left == OutsideFiles(r) && done !! left && outside == |done|
      invariant report.failures == [] <==> before == [] && PathsClean(r, done)
      invariant report.expected == |done * Copies(r)|
      invariant report.failures == [] && SourcesClean(r, SourceFiles(r)) ==> report.checked == report.expected
      invariant report.failures == [] ==> report.missing == old(report.missing)
      decreases |left|
    {
      var p :| p in left;
      left := left - {p};
      outside := outside + 1;
      OutsideTracked(r, p);
      CountOne(r, done, p);
      PathsCleanGrow(r, done, p);
      CheckPath(r, p, report);
      if IsCopy(r, p) && PathClean(r, p) {
        CleanCopyCompared(r, p);
      }
      done := done + {p};
    }
    assert done == OutsideFiles(r);
    CopiesOutside(r);
  }

  lemma OutsideTracked(r: Repo, p: string)
    requires p in OutsideFiles(r)
    ensures p in r.index
  {
  }

  lemma CopiesOutside(r: Repo)
    ensures OutsideFiles(r) * Copies(r) == Copies(r)
  {
  }

  lemma CountOne(r: Repo, done: set<string>, p: string)
    requires p !in done && p in OutsideFiles(r)
    ensures |done + {p}| == |done| + 1
    ensures |(done + {p}) * Copies(r)| == |done * Copies(r)| + if IsCopy(r, p) then 1 else 0
  {
    if IsCopy(r, p) {
      assert (done + {p}) * Copies(r) == done * Copies(r) + {p};
    } else {
      assert (done + {p}) * Copies(r) == done * Copies(r);
    }
  }

  /** A copy nothing is said about was compared, if its source is in order. */
  lemma CleanCopyCompared(r: Repo, p: string)
    requires p in OutsideFiles(r) && IsCopy(r, p) && PathClean(r, p)
    ensures SourcesClean(r, SourceFiles(r)) ==> Compared(r, p, SourcePath(SkillDirName(p)))
  {
    SourceFilesExact(r, SkillDirName(p));
  }

  /**
   The whole gate.  It returns 0 exactly when every rule holds and the tree is
   either the mirror (no copy root, nothing outside the sources) or holds
   copies, each of them compared.
   */
  method Run(r: Repo) returns (code: nat, report: Report)
    ensures code == 0 || code == 1
    ensures code == 0 <==> Passes(r)
    ensures code == 0 && r.root.Directory? ==> report.checked == report.expected == |Copies(r)| > 0
  {
    report := new Report();
    if exists p :: p in r.index && r.index[p].mode == GIT_SYMLINK_MODE {
      report.Fail(TrackedSymlink);
    }
    if SourceFiles(r) == {} {
      report.Fail(NoSources);
      return 1, report;
    }
    CheckSources(r, report);
    var outside := CheckOutside(r, report);
    ScanUntracked(r, report);
    if r.root == NotDirectory {
      report.Fail(RootNotDirectory);
    }
    assert report.failures == [] <==> RulesHold(r);
    assert outside == 0 <==> OutsideFiles(r) == {};
    var present := r.root.Directory?;
    if !present && outside == 0 && report.failures == [] {
      return 0, report;
    }
    if !present && outside > 0 {
      report.Fail(RootGone);
    }
    if present && report.expected == 0 {
      report.Fail(NoCopies);
    }
    if report.checked != report.expected && report.missing == 0 {
      report.Fail(NotAllCompared);
    }
    code := if report.failures != [] then 1 else 0;
  }
}
