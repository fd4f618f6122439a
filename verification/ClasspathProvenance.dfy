/**
 Which jars `sqry-classpath/src/pipeline.rs` scans, and what it records about
 each.  A jar path is known by its rank in the order of paths.
 */
module ClasspathProvenance {
  import opened Wrappers

  type Jar = nat

  datatype Entry = Entry(jar: Jar, coordinates: Option<string>, isDirect: bool)

  datatype Resolved = Resolved(moduleName: string, moduleRoot: string, entries: seq<Entry>)

  datatype Scope = Scope(moduleName: string, moduleRoot: string, isDirect: bool)

  datatype Provenance = Provenance(jar: Jar, coordinates: Option<string>, isDirect: bool, scopes: seq<Scope>)

  datatype Depth = Full | Shallow

  predicate Kept(depth: Depth, e: Entry) { depth == Full || e.isDirect }

  // ---------------------------------------------------------------------
  // The jars to scan
  // ---------------------------------------------------------------------

  function Flatten(cps: seq<Resolved>): seq<Entry> {
    if cps == [] then [] else cps[0].entries + Flatten(cps[1..])
  }

  function Filter(depth: Depth, es: seq<Entry>): seq<Entry> {
    if es == [] then []
    else (if Kept(depth, es[0]) then [es[0]] else []) + Filter(depth, es[1..])
  }

  predicate NoRepeats<T(==)>(s: seq<T>) { forall i, j :: 0 <= i < j < |s| ==> s[i] != s[j] }

  /** Each jar once, in the order of its first entry. */
  ghost predicate FirstOccurrences(es: seq<Entry>, jars: seq<Jar>) {
    && NoRepeats(jars)
    && (forall jar :: jar in jars <==> exists e :: e in es && e.jar == jar)
    && (forall i, j, m, n :: 0 <= i < j < |jars| && FirstAt(es, jars[i], m) && FirstAt(es, jars[j], n) ==> m < n)
  }

  predicate FirstAt(es: seq<Entry>, jar: Jar, n: nat) {
    n < |es| && es[n].jar == jar && forall k :: 0 <= k < n ==> es[k].jar != jar
  }

  method DeduplicateJarPaths(es: seq<Entry>) returns (unique: seq<Jar>)
    ensures FirstOccurrences(es, unique)
  {
    var seen: set<Jar> := {};
    unique := [];
    var i := 0;
    while i < |es|
      invariant 0 <= i <= |es|
      invariant forall jar :: jar in seen <==> jar in unique
      invariant NoRepeats(unique)
      invariant forall jar :: jar in unique <==> exists k :: 0 <= k < i && es[k].jar == jar
      invariant forall a, b, m, n ::
                  0 <= a < b < |unique| && FirstAt(es, unique[a], m) && FirstAt(es, unique[b], n) ==> m < n
    {
      var jar := es[i].jar;
      if jar !in seen {
        assert FirstAt(es, jar, i);
        forall a, m, n | 0 <= a < |unique| && FirstAt(es, unique[a], m) && FirstAt(es, jar, n) ensures m < n {
          assert unique[a] in unique;
          assert n == i;
        }
        seen := seen + {jar};
        unique := unique + [jar];
      }
      i := i + 1;
    }
  }

  // ---------------------------------------------------------------------
  // Provenance
  // ---------------------------------------------------------------------

  /** One kept entry, with the scope it is recorded under. */
  datatype Occurrence = Occurrence(entry: Entry, scope: Scope)

  function EntryOccurrences(cp: Resolved, depth: Depth, es: seq<Entry>): seq<Occurrence> {
    if es == [] then []
    else
      var last := es[|es| - 1];
      EntryOccurrences(cp, depth, es[..|es| - 1]) +
      if Kept(depth, last) then [Occurrence(last, Scope(cp.moduleName, cp.moduleRoot, last.isDirect))] else []
  }

  function Occurrences(cps: seq<Resolved>, depth: Depth): seq<Occurrence> {
    if cps == [] then []
    else
      var last := cps[|cps| - 1];
      Occurrences(cps[..|cps| - 1], depth) + EntryOccurrences(last, depth, last.entries)
  }

  /** Fold one occurrence into the record of its jar. */
  function Record(byJar: map<Jar, Provenance>, o: Occurrence): map<Jar, Provenance> {
    var jar := o.entry.jar;
    var p := if jar in byJar then byJar[jar] else Provenance(jar, o.entry.coordinates, o.entry.isDirect, []);
    byJar[jar := Provenance(
      jar,
      if p.coordinates == None then o.entry.coordinates else p.coordinates,
      p.isDirect && o.entry.isDirect,
      if o.scope in p.scopes then p.scopes else p.scopes + [o.scope])]
  }

  function Records(os: seq<Occurrence>): map<Jar, Provenance> {
    if os == [] then map[] else Record(Records(os[..|os| - 1]), os[|os| - 1])
  }

  /** A record tells exactly what its jar's occurrences say. */
  ghost predicate Tells(p: Provenance, os: seq<Occurrence>, jar: Jar) {
    && p.jar == jar
    && (p.isDirect <==> forall o :: o in os && o.entry.jar == jar ==> o.entry.isDirect)
    && NoRepeats(p.scopes)
    && (forall s :: s in p.scopes <==> exists o :: o in os && o.entry.jar == jar && o.scope == s)
    && (p.coordinates.None? <==> forall o :: o in os && o.entry.jar == jar ==> o.entry.coordinates.None?)
    && (p.coordinates.Some? ==> exists i: nat :: FirstNamed(os, jar, i) && os[i].entry.coordinates == p.coordinates)
  }

  /** Occurrence `i` is the first of its jar with coordinates. */
  predicate FirstNamed(os: seq<Occurrence>, jar: Jar, i: nat) {
    && i < |os| && os[i].entry.jar == jar && os[i].entry.coordinates.Some?
    && forall k :: 0 <= k < i && os[k].entry.jar == jar ==> os[k].entry.coordinates.None?
  }

  /** The records have exactly the jars that occur, and each tells its occurrences. */
  lemma {:induction false} RecordsTell(os: seq<Occurrence>)
    ensures forall jar :: jar in Records(os) <==> exists o :: o in os && o.entry.jar == jar
    ensures forall jar :: jar in Records(os) ==> Tells(Records(os)[jar], os, jar)
  {
    if os != [] {
      var init, o := os[..|os| - 1], os[|os| - 1];
      RecordsTell(init);
      assert os == init + [o];
      forall jar | jar in Records(os) ensures Tells(Records(os)[jar], os, jar) {
        if jar == o.entry.jar {
          if jar in Records(init) {
            TellsMore(Records(init)[jar], init, o);
          } else {
            TellsFirst(init, o);
          }
        } else {
          TellsSame(Records(init)[jar], init, o, jar);
        }
      }
    }
  }

  lemma TellsSame(p: Provenance, os: seq<Occurrence>, o: Occurrence, jar: Jar)
    requires Tells(p, os, jar) && o.entry.jar != jar
    ensures Tells(p, os + [o], jar)
  {
    var all := os + [o];
    assert forall x :: x in all && x.entry.jar == jar <==> x in os && x.entry.jar == jar;
    if p.coordinates.Some? {
      var i: nat :| FirstNamed(os, jar, i) && os[i].entry.coordinates == p.coordinates;
      assert FirstNamed(all, jar, i) && all[i] == os[i];
    }
  }

  lemma TellsFirst(os: seq<Occurrence>, o: Occurrence)
    requires forall x :: x in os ==> x.entry.jar != o.entry.jar
    ensures Tells(Record(map[], o)[o.entry.jar], os + [o], o.entry.jar)
  {
    var all, jar := os + [o], o.entry.jar;
    assert forall x :: x in all && x.entry.jar == jar <==> x == o;
    var p := Record(map[], o)[jar];
    assert p.scopes == [o.scope];
    if o.entry.coordinates.Some? {
      assert all[|os|] == o;
      forall k | 0 <= k < |os| ensures all[k].entry.jar != jar { assert all[k] in os; }
      assert FirstNamed(all, jar, |os|);
    }
  }

  lemma TellsMore(p: Provenance, os: seq<Occurrence>, o: Occurrence)
    requires Tells(p, os, o.entry.jar)
    ensures Tells(Record(map[o.entry.jar := p], o)[o.entry.jar], os + [o], o.entry.jar)
  {
    var all, jar := os + [o], o.entry.jar;
    var q := Record(map[jar := p], o)[jar];
    OccursMore(os, o);
    ScopesGrow(p.scopes, o.scope);
    NamedMore(p, os, o);
    hide Record, FirstNamed;
    forall s ensures s in q.scopes <==> exists x :: x in all && x.entry.jar == jar && x.scope == s {
      if s == o.scope { assert o in all && o.entry.jar == jar; }
      if s in p.scopes {
        var x :| x in os && x.entry.jar == jar && x.scope == s;
        assert x in all;
      }
    }
  }

  lemma OccursMore(os: seq<Occurrence>, o: Occurrence)
    ensures forall x :: x in os + [o] <==> x == o || x in os
  {
  }

  /** The coordinates stay those of the first occurrence that has any. */
  lemma NamedMore(p: Provenance, os: seq<Occurrence>, o: Occurrence)
    requires Tells(p, os, o.entry.jar)
    ensures var all, jar := os + [o], o.entry.jar;
            var named := if p.coordinates == None then o.entry.coordinates else p.coordinates;
            && (named.None? <==> forall x :: x in all && x.entry.jar == jar ==> x.entry.coordinates.None?)
            && (named.Some? ==> exists i: nat :: FirstNamed(all, jar, i) && all[i].entry.coordinates == named)
  {
    var all, jar := os + [o], o.entry.jar;
    OccursMore(os, o);
    if p.coordinates.Some? {
      var i: nat :| FirstNamed(os, jar, i) && os[i].entry.coordinates == p.coordinates;
      assert FirstNamed(all, jar, i) && all[i] == os[i];
      assert all[i] in all;
    } else if o.entry.coordinates.Some? {
      assert all[|os|] == o;
      forall k | 0 <= k < |os| && all[k].entry.jar == jar ensures all[k].entry.coordinates.None? {
        assert all[k] in os;
      }
      assert FirstNamed(all, jar, |os|);
    }
  }

  lemma ScopesGrow(scopes: seq<Scope>, s: Scope)
    requires NoRepeats(scopes)
    ensures var more := if s in scopes then scopes else scopes + [s];
            NoRepeats(more) && forall x :: x in more <==> x in scopes || x == s
  {
  }

  /** Strictly ascending by path. */
  predicate Ascending(ps: seq<Provenance>) { forall i, j :: 0 <= i < j < |ps| ==> ps[i].jar < ps[j].jar }

  /** The values of the table, least path first. */
  method SortByJar(byJar: map<Jar, Provenance>) returns (ps: seq<Provenance>)
    requires forall jar :: jar in byJar ==> byJar[jar].jar == jar
    ensures Ascending(ps)
    ensures forall p :: p in ps <==> p.jar in byJar && p == byJar[p.jar]
  {
    ps := [];
    var left := byJar.Keys;
    while left != {}
      invariant left <= byJar.Keys
      invariant forall i :: 0 <= i < |ps| ==> forall jar :: jar in left ==> ps[i].jar < jar
      invariant Ascending(ps)
      invariant forall p :: p in ps <==> p.jar in byJar && p.jar !in left && p == byJar[p.jar]
      decreases |left|
    {
      var least := Least(left);
      ps := ps + [byJar[least]];
      left := left - {least};
    }
  }

  method Least(s: set<Jar>) returns (least: Jar)
    requires s != {}
    ensures least in s && forall x :: x in s ==> least <= x
  {
    least :| least in s;
    var left := s - {least};
    while left != {}
      invariant left <= s && least in s && forall x :: x in s && x !in left ==> least <= x
      decreases |left|
    {
      var x :| x in left;
      left := left - {x};
      if x < least {
        least := x;
      }
    }
  }

  method BuildProvenance(cps: seq<Resolved>, depth: Depth) returns (result: seq<Provenance>)
    ensures Ascending(result)
    ensures forall p ::
              p in result <==> p.jar in Records(Occurrences(cps, depth)) && p == Records(Occurrences(cps, depth))[p.jar]
  {
    var byJar: map<Jar, Provenance> := map[];
    var i := 0;
    while i < |cps|
      invariant 0 <= i <= |cps|
      invariant byJar == Records(Occurrences(cps[..i], depth))
    {
      byJar := RecordClasspath(cps[i], depth, Occurrences(cps[..i], depth), byJar);
      assert cps[..i + 1][..i] == cps[..i];
      i := i + 1;
    }
    assert cps[..i] == cps;
    RecordsTell(Occurrences(cps, depth));
    result := SortByJar(byJar);
  }

  /** The inner loop: the entries of one module. */
  method RecordClasspath(cp: Resolved, depth: Depth, ghost before: seq<Occurrence>, start: map<Jar, Provenance>)
    returns (byJar: map<Jar, Provenance>)
    requires start == Records(before)
    ensures byJar == Records(before + EntryOccurrences(cp, depth, cp.entries))
  {
    byJar := start;
    var j := 0;
    assert before + EntryOccurrences(cp, depth, cp.entries[..0]) == before;
    hide Records, EntryOccurrences;
    while j < |cp.entries|
      invariant 0 <= j <= |cp.entries|
      invariant byJar == Records(before + EntryOccurrences(cp, depth, cp.entries[..j]))
    {
      var entry := cp.entries[j];
      NextOccurrence(cp, depth, before, j);
      if !(depth == Shallow && !entry.isDirect) {
        byJar := Absorb(byJar, entry, Scope(cp.moduleName, cp.moduleRoot, entry.isDirect));
      }
      j := j + 1;
    }
    assert cp.entries[..j] == cp.entries;
  }

  lemma NextOccurrence(cp: Resolved, depth: Depth, before: seq<Occurrence>, j: nat)
    requires j < |cp.entries|
    ensures var os := before + EntryOccurrences(cp, depth, cp.entries[..j]);
            var e := cp.entries[j];
            Records(before + EntryOccurrences(cp, depth, cp.entries[..j + 1])) ==
            if Kept(depth, e) then Record(Records(os), Occurrence(e, Scope(cp.moduleName, cp.moduleRoot, e.isDirect)))
            else Records(os)
  {
    var e, es := cp.entries[j], cp.entries[..j + 1];
    var os := before + EntryOccurrences(cp, depth, cp.entries[..j]);
    assert es[..j] == cp.entries[..j];
    if Kept(depth, e) {
      var o := Occurrence(e, Scope(cp.moduleName, cp.moduleRoot, e.isDirect));
      hide Record;
      assert before + EntryOccurrences(cp, depth, es) == os + [o];
      assert (os + [o])[..|os|] == os;
    } else {
      assert before + EntryOccurrences(cp, depth, es) == os;
    }
  }

  /** One kept entry: find or make its jar's record and bring it up to date. */
  method Absorb(byJar: map<Jar, Provenance>, entry: Entry, scope: Scope) returns (r: map<Jar, Provenance>)
    ensures r == Record(byJar, Occurrence(entry, scope))
  {
    var p := if entry.jar in byJar then byJar[entry.jar]
             else Provenance(entry.jar, entry.coordinates, entry.isDirect, []);
    if p.coordinates.None? {
      p := p.(coordinates := entry.coordinates);
    }
    p := p.(jar := entry.jar, isDirect := p.isDirect && entry.isDirect);
    if scope !in p.scopes {
      p := p.(scopes := p.scopes + [scope]);
    }
    r := byJar[entry.jar := p];
  }

  // ---------------------------------------------------------------------
  // The two agree
  // ---------------------------------------------------------------------

  lemma {:induction false} EntryOccurrencesKept(cp: Resolved, depth: Depth, es: seq<Entry>, e: Entry)
    ensures (exists o :: o in EntryOccurrences(cp, depth, es) && o.entry == e) <==> e in es && Kept(depth, e)
  {
    if es != [] {
      var init, last := es[..|es| - 1], es[|es| - 1];
      EntryOccurrencesKept(cp, depth, init, e);
      assert es == init + [last];
      var o := Occurrence(last, Scope(cp.moduleName, cp.moduleRoot, last.isDirect));
      if e == last && Kept(depth, e) { assert o in EntryOccurrences(cp, depth, es); }
      if x :| x in EntryOccurrences(cp, depth, init) && x.entry == e {
        assert x in EntryOccurrences(cp, depth, es);
      }
    }
  }

  lemma {:induction false} OccurrencesKept(cps: seq<Resolved>, depth: Depth, e: Entry)
    ensures (exists o :: o in Occurrences(cps, depth) && o.entry == e) <==>
            Kept(depth, e) && exists cp :: cp in cps && e in cp.entries
  {
    if cps != [] {
      var init, last := cps[..|cps| - 1], cps[|cps| - 1];
      OccurrencesKept(init, depth, e);
      EntryOccurrencesKept(last, depth, last.entries, e);
      assert cps == init + [last];
      if o :| o in Occurrences(init, depth) && o.entry == e { assert o in Occurrences(cps, depth); }
      if o :| o in EntryOccurrences(last, depth, last.entries) && o.entry == e { assert o in Occurrences(cps, depth); }
    }
  }

  lemma {:induction false} FlattenHas(cps: seq<Resolved>, e: Entry)
    ensures e in Flatten(cps) <==> exists cp :: cp in cps && e in cp.entries
  {
    if cps != [] {
      FlattenHas(cps[1..], e);
      assert cps == [cps[0]] + cps[1..];
      if e in cps[0].entries { assert cps[0] in cps; }
      if cp :| cp in cps[1..] && e in cp.entries { assert cp in cps; }
    }
  }

  lemma {:induction false} FilterHas(depth: Depth, es: seq<Entry>, e: Entry)
    ensures e in Filter(depth, es) <==> e in es && Kept(depth, e)
  {
    if es != [] {
      FilterHas(depth, es[1..], e);
      assert es == [es[0]] + es[1..];
    }
  }

  /**
   The jars scanned are the jars recorded: whatever order the table gives, the
   ascending records list exactly the deduplicated jars of the kept entries,
   each telling its own occurrences.
   */
  lemma ScannedAreRecorded(cps: seq<Resolved>, depth: Depth, unique: seq<Jar>, result: seq<Provenance>)
    requires FirstOccurrences(Filter(depth, Flatten(cps)), unique)
    requires Ascending(result)
    requires forall p ::
              p in result <==> p.jar in Records(Occurrences(cps, depth)) && p == Records(Occurrences(cps, depth))[p.jar]
    ensures forall jar :: jar in unique <==> exists p :: p in result && p.jar == jar
    ensures forall p :: p in result ==> Tells(p, Occurrences(cps, depth), p.jar)
    ensures |unique| == |result|
  {
    var os, es := Occurrences(cps, depth), Filter(depth, Flatten(cps));
    RecordsTell(os);
    forall e ensures e in es <==> exists o :: o in os && o.entry == e {
      FilterHas(depth, Flatten(cps), e);
      FlattenHas(cps, e);
      OccurrencesKept(cps, depth, e);
    }
    forall jar ensures jar in unique <==> jar in Records(os) {
      if jar in unique {
        var e :| e in es && e.jar == jar;
        var o :| o in os && o.entry == e;
      }
      if jar in Records(os) {
        var o :| o in os && o.entry.jar == jar;
        assert o.entry in es;
      }
    }
    forall jar | jar in unique ensures exists p :: p in result && p.jar == jar {
      assert Records(os)[jar] in result;
    }
    SameLength(unique, result);
  }

  lemma {:induction false} SameLength(jars: seq<Jar>, ps: seq<Provenance>)
    requires NoRepeats(jars) && Ascending(ps)
    requires forall jar :: jar in jars <==> exists p :: p in ps && p.jar == jar
    ensures |jars| == |ps|
  {
    var js := seq(|ps|, i requires 0 <= i < |ps| => ps[i].jar);
    forall i, j | 0 <= i < j < |js| ensures js[i] != js[j] { assert ps[i].jar < ps[j].jar; }
    forall jar ensures jar in js <==> jar in jars {
      if jar in js { var i :| 0 <= i < |js| && js[i] == jar; assert ps[i] in ps; }
      if jar in jars {
        var p :| p in ps && p.jar == jar;
        var i :| 0 <= i < |ps| && ps[i] == p;
        assert js[i] == jar;
      }
    }
    CountNoRepeats(jars);
    CountNoRepeats(js);
    assert Elements(jars) == Elements(js);
  }

  ghost function Elements(s: seq<Jar>): set<Jar> { set x | x in s }

  lemma {:induction false} CountNoRepeats(s: seq<Jar>)
    requires NoRepeats(s)
    ensures |Elements(s)| == |s|
  {
    if s != [] {
      var init, last := s[..|s| - 1], s[|s| - 1];
      CountNoRepeats(init);
      assert s == init + [last];
      assert last !in Elements(init);
      assert Elements(s) == Elements(init) + {last};
    }
  }
}
