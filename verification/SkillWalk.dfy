/**
 The symlink-following directory walk of
 `scripts/ci/check_agent_skills_parity.py`.  Directories are known by their
 (device, inode) key, so the graph may hold cycles and aliases.
 */
module SkillWalk {
  import opened Wrappers
  import opened SkillPaths

  /** A directory's identity. */
  type Key = nat

  /** An entry as the walk sees it, links followed. */
  datatype Entry =
    | File(name: string, content: Option<string>)  // no content: it cannot be read
    | Dir(name: string, key: Option<Key>)          // no key: it cannot be stat'ed
    | BadEntry(name: string)                       // asking what it is fails
    | Other(name: string)

  /** What listing each directory gives; a directory left out cannot be listed. */
  type Graph = map<Key, seq<Entry>>

  datatype Event =
    | Inspect(path: string, content: Option<string>)
    | Unlistable(path: string)
    | StatFailed(path: string)

  function Under(dir: string, name: string): string { dir + "/" + name }

  /** What one entry gives before any descent. */
  function EntryEvents(dir: string, e: Entry): seq<Event> {
    match e
    case File(name, content) => if name == SKILL then [Inspect(Under(dir, name), content)] else []
    case BadEntry(name) => [StatFailed(Under(dir, name))]
    case _ => []
  }

  function EntriesEvents(dir: string, es: seq<Entry>): seq<Event> {
    if es == [] then [] else EntryEvents(dir, es[0]) + EntriesEvents(dir, es[1..])
  }

  function SubdirsOf(es: seq<Entry>): seq<Entry> {
    if es == [] then []
    else if es[0].Dir? then [es[0]] + SubdirsOf(es[1..])
    else SubdirsOf(es[1..])
  }

  lemma {:induction false} SubdirsAreDirs(es: seq<Entry>)
    ensures forall e :: e in SubdirsOf(es) <==> e in es && e.Dir?
  {
    if es != [] {
      SubdirsAreDirs(es[1..]);
      assert es == [es[0]] + es[1..];
    }
  }

  ghost function Measure(g: Graph, ancestry: set<Key>): nat { |g.Keys - ancestry| }

  lemma MeasureDrops(g: Graph, ancestry: set<Key>, key: Key)
    requires key in g && key !in ancestry
    ensures Measure(g, ancestry + {key}) < Measure(g, ancestry)
  {
    assert g.Keys - (ancestry + {key}) == (g.Keys - ancestry) - {key};
  }

  /** Everything the walk does in and below a directory, with the keys from the root to it. */
  ghost function Walked(g: Graph, key: Key, path: string, ancestry: set<Key>): seq<Event>
    decreases Measure(g, ancestry), 1, 0
  {
    if key !in g then [Unlistable(path)]
    else EntriesEvents(path, g[key]) + WalkedAll(g, SubdirsOf(g[key]), path, ancestry)
  }

  ghost function WalkedAll(g: Graph, subs: seq<Entry>, path: string, ancestry: set<Key>): seq<Event>
    decreases Measure(g, ancestry), 0, |subs|
  {
    if subs == [] then []
    else WalkedInto(g, subs[0], path, ancestry) + WalkedAll(g, subs[1..], path, ancestry)
  }

  lemma WalkedAllStep(g: Graph, first: Entry, rest: seq<Entry>, path: string, ancestry: set<Key>)
    ensures WalkedAll(g, [first] + rest, path, ancestry) ==
            WalkedInto(g, first, path, ancestry) + WalkedAll(g, rest, path, ancestry)
  {
    assert ([first] + rest)[1..] == rest;
    hide WalkedInto;
  }

  lemma EntriesStep(dir: string, first: Entry, rest: seq<Entry>)
    ensures EntriesEvents(dir, [first] + rest) == EntryEvents(dir, first) + EntriesEvents(dir, rest)
    ensures SubdirsOf([first] + rest) == (if first.Dir? then [first] else []) + SubdirsOf(rest)
  {
    assert ([first] + rest)[1..] == rest;
    hide EntryEvents;
  }

  ghost function WalkedInto(g: Graph, sub: Entry, path: string, ancestry: set<Key>): seq<Event>
    decreases Measure(g, ancestry), 0, 0
  {
    match sub
    case Dir(name, None) => [StatFailed(Under(path, name))]
    case Dir(name, Some(key)) =>
      if key in ancestry then []
      else if key !in g then [Unlistable(Under(path, name))]
      else
        MeasureDrops(g, ancestry, key);
        Walked(g, key, Under(path, name), ancestry + {key})
    case _ => []
  }

  // ---------------------------------------------------------------------
  // What the walk sees, without the walk
  // ---------------------------------------------------------------------

  /** A step from a directory into one of its subdirectories. */
  datatype Step = Step(name: string, key: Key)

  function EndOf(key: Key, steps: seq<Step>): Key {
    if steps == [] then key else steps[|steps| - 1].key
  }

  function PathOf(path: string, steps: seq<Step>): string
    decreases |steps|
  {
    if steps == [] then path else PathOf(Under(path, steps[0].name), steps[1..])
  }

  function KeyAt(key: Key, steps: seq<Step>, i: nat): Key
    requires i <= |steps|
  {
    if i == 0 then key else steps[i - 1].key
  }

  /** Each step is an entry of the directory the steps before it lead to. */
  ghost predicate Linked(g: Graph, key: Key, steps: seq<Step>) {
    forall i :: 0 <= i < |steps| ==> Link(g, KeyAt(key, steps, i), steps[i])
  }

  /** No directory on the path repeats, nor is one of `ancestry`. */
  ghost predicate NoRepeat(ancestry: set<Key>, steps: seq<Step>) {
    && (forall i :: 0 <= i < |steps| ==> steps[i].key !in ancestry)
    && (forall i, j :: 0 <= i < j < |steps| ==> steps[i].key != steps[j].key)
  }

  ghost predicate SimplePath(g: Graph, key: Key, ancestry: set<Key>, steps: seq<Step>) {
    Linked(g, key, steps) && NoRepeat(ancestry, steps)
  }

  /** The events of a directory itself: of its listing and of the subdirectories it cannot enter. */
  ghost predicate LocalEvent(g: Graph, key: Key, path: string, e: Event) {
    match e
    case Inspect(p, content) => key in g && File(SKILL, content) in g[key] && p == Under(path, SKILL)
    case Unlistable(p) => key !in g && p == path
    case StatFailed(p) => key in g && exists entry :: entry in g[key] && p == Under(path, entry.name) &&
                                        (entry.BadEntry? || entry == Dir(entry.name, None))
  }

  /** The event belongs to the end of some path that repeats no directory. */
  ghost predicate Seen(g: Graph, key: Key, path: string, ancestry: set<Key>, e: Event) {
    exists steps :: SimplePath(g, key, ancestry, steps) && LocalEvent(g, EndOf(key, steps), PathOf(path, steps), e)
  }

  lemma {:induction false} EntriesEventsExact(dir: string, es: seq<Entry>, e: Event)
    ensures e in EntriesEvents(dir, es) <==>
            (match e
             case Inspect(p, content) => File(SKILL, content) in es && p == Under(dir, SKILL)
             case StatFailed(p) => exists entry :: entry in es && entry.BadEntry? && p == Under(dir, entry.name)
             case Unlistable(_) => false)
  {
    if es != [] {
      EntriesEventsExact(dir, es[1..], e);
      assert es == [es[0]] + es[1..];
      if e.StatFailed? && es[0].BadEntry? && e.path == Under(dir, es[0].name) {
        assert es[0] in es;
      }
    }
  }

  lemma {:induction false} WalkedAllExact(g: Graph, subs: seq<Entry>, path: string, ancestry: set<Key>, e: Event)
    ensures e in WalkedAll(g, subs, path, ancestry) <==>
            exists sub :: sub in subs && e in WalkedInto(g, sub, path, ancestry)
    decreases |subs|
  {
    if subs != [] {
      WalkedAllExact(g, subs[1..], path, ancestry, e);
      assert subs == [subs[0]] + subs[1..];
      if e in WalkedInto(g, subs[0], path, ancestry) { assert subs[0] in subs; }
    }
  }

  /** One link of a chain: the directory holds an entry leading to the step's key. */
  ghost predicate Link(g: Graph, key: Key, step: Step) {
    key in g && Dir(step.name, Some(step.key)) in g[key]
  }

  lemma LinkedStep(g: Graph, key: Key, first: Step, rest: seq<Step>)
    ensures Linked(g, key, [first] + rest) <==> Link(g, key, first) && Linked(g, first.key, rest)
  {
    var steps := [first] + rest;
    assert forall i :: 0 <= i < |rest| ==> steps[i + 1] == rest[i];
    if Linked(g, key, steps) {
      assert steps[0] == first && KeyAt(key, steps, 0) == key;
      forall i | 0 <= i < |rest| ensures Link(g, KeyAt(first.key, rest, i), rest[i]) {
        assert steps[i + 1] == rest[i] && KeyAt(key, steps, i + 1) == KeyAt(first.key, rest, i);
      }
    }
    if Link(g, key, first) && Linked(g, first.key, rest) {
      forall i | 0 <= i < |steps| ensures Link(g, KeyAt(key, steps, i), steps[i]) {
        if i > 0 {
          assert steps[i] == rest[i - 1] && KeyAt(key, steps, i) == KeyAt(first.key, rest, i - 1);
        }
      }
    }
  }

  lemma NoRepeatStep(ancestry: set<Key>, first: Step, rest: seq<Step>)
    ensures NoRepeat(ancestry, [first] + rest) <==>
            first.key !in ancestry && NoRepeat(ancestry + {first.key}, rest)
  {
    var steps := [first] + rest;
    assert forall i :: 0 <= i < |rest| ==> steps[i + 1] == rest[i];
    if NoRepeat(ancestry, steps) {
      assert steps[0] == first;
      forall i | 0 <= i < |rest| ensures rest[i].key !in ancestry + {first.key} {
        assert steps[i + 1].key != steps[0].key;
      }
      forall i, j | 0 <= i < j < |rest| ensures rest[i].key != rest[j].key {
        assert steps[i + 1].key != steps[j + 1].key;
      }
    }
  }

  /** A simple path is nothing, or a step to a new directory and a simple path from there. */
  lemma SimplePathStep(g: Graph, key: Key, ancestry: set<Key>, first: Step, rest: seq<Step>)
    ensures SimplePath(g, key, ancestry, [first] + rest) <==>
            (Link(g, key, first) && first.key !in ancestry &&
             SimplePath(g, first.key, ancestry + {first.key}, rest))
  {
    hide Linked, NoRepeat;
    LinkedStep(g, key, first, rest);
    NoRepeatStep(ancestry, first, rest);
  }

  lemma SeenHere(g: Graph, key: Key, path: string, ancestry: set<Key>, e: Event)
    requires LocalEvent(g, key, path, e)
    ensures Seen(g, key, path, ancestry, e)
  {
    hide LocalEvent;
    var none: seq<Step> := [];
    assert SimplePath(g, key, ancestry, none) && EndOf(key, none) == key && PathOf(path, none) == path;
  }

  lemma SeenFarther(g: Graph, key: Key, path: string, ancestry: set<Key>, step: Step, e: Event)
    requires SeenThrough(g, key, path, ancestry, step, e)
    ensures Seen(g, key, path, ancestry, e)
  {
    hide LocalEvent, SimplePath;
    var under := Under(path, step.name);
    var rest :| SimplePath(g, step.key, ancestry + {step.key}, rest) &&
                LocalEvent(g, EndOf(step.key, rest), PathOf(under, rest), e);
    SimplePathStep(g, key, ancestry, step, rest);
    var steps := [step] + rest;
    assert steps[1..] == rest && EndOf(key, steps) == EndOf(step.key, rest);
  }

  /** Seeing from a directory is seeing it, or seeing from a subdirectory not yet on the path. */
  lemma SeenStep(g: Graph, key: Key, path: string, ancestry: set<Key>, e: Event)
    ensures Seen(g, key, path, ancestry, e) <==>
            LocalEvent(g, key, path, e) || exists step :: SeenThrough(g, key, path, ancestry, step, e)
  {
    hide LocalEvent, SimplePath;
    if Seen(g, key, path, ancestry, e) {
      var steps :| SimplePath(g, key, ancestry, steps) && LocalEvent(g, EndOf(key, steps), PathOf(path, steps), e);
      if steps != [] {
        var first, rest := steps[0], steps[1..];
        assert steps == [first] + rest;
        SimplePathStep(g, key, ancestry, first, rest);
        assert EndOf(key, steps) == EndOf(first.key, rest);
        assert SeenThrough(g, key, path, ancestry, first, e);
      }
    }
    if LocalEvent(g, key, path, e) { SeenHere(g, key, path, ancestry, e); }
    if step :| SeenThrough(g, key, path, ancestry, step, e) { SeenFarther(g, key, path, ancestry, step, e); }
  }

  ghost predicate SeenThrough(g: Graph, key: Key, path: string, ancestry: set<Key>, step: Step, e: Event) {
    Link(g, key, step) && step.key !in ancestry &&
    Seen(g, step.key, Under(path, step.name), ancestry + {step.key}, e)
  }

  /**
   The walk ends on every graph, cycles included, and does exactly what is to
   be seen along paths that repeat no directory: every `SKILL.md` at the end of
   such a path is inspected, under each of its names.
   */
  lemma {:induction false} WalkedExact(g: Graph, key: Key, path: string, ancestry: set<Key>, e: Event)
    requires key in ancestry
    ensures e in Walked(g, key, path, ancestry) <==> Seen(g, key, path, ancestry, e)
    decreases Measure(g, ancestry)
  {
    SeenStep(g, key, path, ancestry, e);
    if key in g {
      var es := g[key];
      EntriesEventsExact(path, es, e);
      WalkedAllExact(g, SubdirsOf(es), path, ancestry, e);
      SubdirsAreDirs(es);
      forall sub | sub in SubdirsOf(es)
        ensures e in WalkedInto(g, sub, path, ancestry) <==>
                (sub.key == None && e == StatFailed(Under(path, sub.name))) ||
                (sub.key.Some? && SeenThrough(g, key, path, ancestry, Step(sub.name, sub.key.value), e))
      {
        IntoExact(g, key, sub, path, ancestry, e);
      }
      if step :| SeenThrough(g, key, path, ancestry, step, e) {
        assert Dir(step.name, Some(step.key)) in SubdirsOf(es);
      }
      if e.StatFailed? && LocalEvent(g, key, path, e) {
        var entry :| entry in es && e.path == Under(path, entry.name) &&
                     (entry.BadEntry? || entry == Dir(entry.name, None));
        if entry.Dir? { assert entry in SubdirsOf(es); }
      }
    }
  }

  lemma {:induction false} IntoExact(g: Graph, key: Key, sub: Entry, path: string, ancestry: set<Key>, e: Event)
    requires key in g && sub in g[key] && sub.Dir?
    ensures e in WalkedInto(g, sub, path, ancestry) <==>
            (sub.key == None && e == StatFailed(Under(path, sub.name))) ||
            (sub.key.Some? && SeenThrough(g, key, path, ancestry, Step(sub.name, sub.key.value), e))
    decreases Measure(g, ancestry), 0
  {
    if sub.key.Some? && sub.key.value !in ancestry {
      var k, under := sub.key.value, Under(path, sub.name);
      if k in g {
        MeasureDrops(g, ancestry, k);
        WalkedExact(g, k, under, ancestry + {k}, e);
      } else {
        SeenStep(g, k, under, ancestry + {k}, e);
      }
    }
  }

  /** Two graphs whose listings differ only in order show the same. */
  lemma ListingOrderIrrelevant(g: Graph, h: Graph, key: Key, path: string, ancestry: set<Key>, e: Event)
    requires key in ancestry && g.Keys == h.Keys
    requires forall k, entry :: k in g ==> (entry in g[k] <==> entry in h[k])
    ensures e in Walked(g, key, path, ancestry) <==> e in Walked(h, key, path, ancestry)
  {
    WalkedExact(g, key, path, ancestry, e);
    WalkedExact(h, key, path, ancestry, e);
    forall steps ensures SimplePath(g, key, ancestry, steps) <==> SimplePath(h, key, ancestry, steps) {
    }
    forall k, p ensures LocalEvent(g, k, p, e) <==> LocalEvent(h, k, p, e) {
    }
  }
}
