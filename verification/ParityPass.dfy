/** What a PASS of the parity gate says about the tree, and that it says no less. */
module ParityPass {
  import opened Wrappers
  import opened SkillPaths
  import opened ParityGate
  import SkillWalk

  /** The copy is a plain file, equal to its source on disk and in the index. */
  predicate SameAsSource(r: Repo, p: string)
    requires p in r.index
  {
    var src := SourcePath(SkillDirName(p));
    && p !in r.links
    && src in r.index
    && p in r.files && src in r.files
    && r.files[p] == r.files[src]
    && r.index[p].oid == r.index[src].oid
  }

  /** A skill that is nobody's copy: no source has its name, or it carries no version. */
  predicate Foreign(r: Repo, p: string)
    requires p in r.index
  {
    if UnderCopyRoot(p) then !IsSource(r, SkillDirName(p)) && Marker(r, p) == Some(false)
    else !(SRC_PREFIX <= p) && (IsSource(r, SkillDirName(p)) ==> Marker(r, p) == Some(false))
  }

  /** A `SKILL.md` met on disk that is tracked, or is plainly not a copy. */
  predicate Harmless(r: Repo, p: string, content: Option<string>) {
    || p in SkillFiles(r)
    || (!IsSource(r, SkillDirName(p)) && content.Some? && !HasVersionLine(content.value))
  }

  /** Every directory reached without repeating one can be read and holds no stray copy. */
  ghost predicate NoStray(r: Repo, key: SkillWalk.Key) {
    forall steps :: SkillWalk.SimplePath(r.graph, key, {key}, steps) ==>
      CleanDirectory(r, SkillWalk.EndOf(key, steps), SkillWalk.PathOf(COPY_ROOT, steps))
  }

  ghost predicate CleanDirectory(r: Repo, key: SkillWalk.Key, path: string) {
    && key in r.graph
    && (forall entry :: entry in r.graph[key] ==> !entry.BadEntry? && (entry.Dir? ==> entry.key.Some?))
    && (forall content :: SkillWalk.File(SKILL, content) in r.graph[key] ==>
          Harmless(r, SkillWalk.Under(path, SKILL), content))
  }

  /** The tree the gate is there to certify. */
  ghost predicate InStep(r: Repo) {
    && (forall p :: p in r.index ==> r.index[p].mode != GIT_SYMLINK_MODE)
    && (exists name :: IsSource(r, name))
    && (forall name :: IsSource(r, name) ==> SourcePath(name) in r.files && SourcePath(name) !in r.links)
    && match r.root
       case NotDirectory => false
       case Absent => forall p :: p in SkillFiles(r) ==> SourceName(p).Some?
       case Directory(key) =>
         && (exists p :: p in OutsideFiles(r) && IsCopy(r, p))
         && (forall p :: p in OutsideFiles(r) ==> if IsCopy(r, p) then SameAsSource(r, p) else Foreign(r, p))
         && NoStray(r, key)
  }

  lemma SourcesInOrder(r: Repo)
    ensures SourcesClean(r, SourceFiles(r)) <==>
            forall name :: IsSource(r, name) ==> SourcePath(name) in r.files && SourcePath(name) !in r.links
    ensures SourceFiles(r) != {} <==> exists name :: IsSource(r, name)
  {
    forall name ensures IsSource(r, name) ==> SourcePath(name) in SourceFiles(r) {
      SourceFilesExact(r, name);
    }
    forall p | p in SourceFiles(r)
      ensures IsSource(r, SourceName(p).value) && p == SourcePath(SourceName(p).value)
    {
      SourceNameExact(p, SourceName(p).value);
    }
    if SourceFiles(r) != {} {
      var p :| p in SourceFiles(r);
      assert IsSource(r, SourceName(p).value);
    }
    if name :| IsSource(r, name) {
      assert SourcePath(name) in SourceFiles(r);
    }
  }

  lemma PathsInOrder(r: Repo)
    requires forall name :: IsSource(r, name) ==> SourcePath(name) in r.files && SourcePath(name) !in r.links
    ensures PathsClean(r, OutsideFiles(r)) <==>
            forall p :: p in OutsideFiles(r) ==> if IsCopy(r, p) then SameAsSource(r, p) else Foreign(r, p)
  {
    forall p | p in OutsideFiles(r)
      ensures PathClean(r, p) <==> if IsCopy(r, p) then SameAsSource(r, p) else Foreign(r, p)
    {
    }
  }

  /** Nothing said about the walk is nothing stray in any directory it can reach. */
  lemma ScanInOrder(r: Repo, key: SkillWalk.Key)
    requires r.root == Directory(key)
    ensures ScanFailures(r) == [] <==> NoStray(r, key)
  {
    var events := SkillWalk.Walked(r.graph, key, COPY_ROOT, {key});
    EventsClean(r, events);
    forall e ensures e in events <==> SkillWalk.Seen(r.graph, key, COPY_ROOT, {key}, e) {
      SkillWalk.WalkedExact(r.graph, key, COPY_ROOT, {key}, e);
    }
    if ScanFailures(r) == [] {
      forall steps | SkillWalk.SimplePath(r.graph, key, {key}, steps)
        ensures CleanDirectory(r, SkillWalk.EndOf(key, steps), SkillWalk.PathOf(COPY_ROOT, steps))
      {
        NothingSaid(r, key, steps);
      }
    }
    if NoStray(r, key) {
      forall e | e in events ensures EventFailures(r, e) == [] {
        SeenIsClean(r, key, e);
      }
    }
  }

  lemma NothingSaid(r: Repo, key: SkillWalk.Key, steps: seq<SkillWalk.Step>)
    requires SkillWalk.SimplePath(r.graph, key, {key}, steps)
    requires forall e :: SkillWalk.Seen(r.graph, key, COPY_ROOT, {key}, e) ==> EventFailures(r, e) == []
    ensures CleanDirectory(r, SkillWalk.EndOf(key, steps), SkillWalk.PathOf(COPY_ROOT, steps))
  {
    var k, path := SkillWalk.EndOf(key, steps), SkillWalk.PathOf(COPY_ROOT, steps);
    forall e | SkillWalk.LocalEvent(r.graph, k, path, e) ensures EventFailures(r, e) == [] {
      assert SkillWalk.Seen(r.graph, key, COPY_ROOT, {key}, e);
    }
    if k !in r.graph {
      assert SkillWalk.LocalEvent(r.graph, k, path, SkillWalk.Unlistable(path));
      assert false;
    }
    forall entry | entry in r.graph[k]
      ensures !entry.BadEntry? && (entry.Dir? ==> entry.key.Some?)
    {
      if entry.BadEntry? || (entry.Dir? && entry.key.None?) {
        assert SkillWalk.LocalEvent(r.graph, k, path, SkillWalk.StatFailed(SkillWalk.Under(path, entry.name)));
        assert false;
      }
    }
    forall content | SkillWalk.File(SKILL, content) in r.graph[k]
      ensures Harmless(r, SkillWalk.Under(path, SKILL), content)
    {
      var e := SkillWalk.Inspect(SkillWalk.Under(path, SKILL), content);
      assert SkillWalk.LocalEvent(r.graph, k, path, e);
      assert EventFailures(r, e) == [];
    }
  }

  lemma SeenIsClean(r: Repo, key: SkillWalk.Key, e: SkillWalk.Event)
    requires NoStray(r, key) && SkillWalk.Seen(r.graph, key, COPY_ROOT, {key}, e)
    ensures EventFailures(r, e) == []
  {
    var steps :| SkillWalk.SimplePath(r.graph, key, {key}, steps) &&
                 SkillWalk.LocalEvent(r.graph, SkillWalk.EndOf(key, steps), SkillWalk.PathOf(COPY_ROOT, steps), e);
    assert CleanDirectory(r, SkillWalk.EndOf(key, steps), SkillWalk.PathOf(COPY_ROOT, steps));
  }

  lemma NoneOutside(r: Repo)
    ensures OutsideFiles(r) == {} <==> forall p :: p in SkillFiles(r) ==> SourceName(p).Some?
  {
    if p :| p in SkillFiles(r) && SourceName(p).None? {
      assert p in OutsideFiles(r);
    }
  }

  /** The gate passes exactly the trees that are in step. */
  lemma PassExactly(r: Repo)
    ensures Passes(r) <==> InStep(r)
  {
    SourcesInOrder(r);
    match r.root
    case NotDirectory =>
    case Absent =>
      NoneOutside(r);
    case Directory(key) =>
      ScanInOrder(r, key);
      if Passes(r) {
        PathsInOrder(r);
        var p :| p in Copies(r);
        assert p in OutsideFiles(r) && IsCopy(r, p);
      }
      if InStep(r) {
        PathsInOrder(r);
        var p :| p in OutsideFiles(r) && IsCopy(r, p);
        assert p in Copies(r);
      }
  }
}
