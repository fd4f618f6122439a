/**
 The upward search for an index: the bounded walk of
 `sqry-core/src/workspace/discovery.rs` and the legacy walk behind it in
 `sqry-cli/src/index_discovery.rs`.  A directory is the list of its names from
 the root.
 */
module IndexDiscovery {
  import opened Wrappers

  type Path = seq<string>

  const MAX_ANCESTOR_DEPTH: nat := 64

  /** What the walks ask of the file system. */
  datatype Files = Files(graphs: set<Path>, legacy: set<Path>, legacyFiles: set<Path>, markers: set<Path>)

  /** A legacy index that is a file exists. */
  predicate Consistent(fs: Files) { fs.legacyFiles <= fs.legacy }

  predicate Indexed(fs: Files, dir: Path) { dir in fs.graphs || dir in fs.legacy }

  /** The directory `depth` levels up. */
  function Up(dir: Path, depth: nat): Path
    requires depth <= |dir|
  {
    dir[..|dir| - depth]
  }

  datatype Discovery =
    | GraphFound(root: Path, boundary: Path, depth: nat)
    | BoundaryOnly(boundary: Path)
    | Nothing

  /** Level `d` is visited: it exists, is within the bound, and no marker stands below it. */
  predicate Visited(fs: Files, start: Path, d: nat) {
    d < MAX_ANCESTOR_DEPTH && d <= |start| && forall k :: 0 <= k < d ==> Up(start, k) !in fs.markers
  }

  /** The nearest visited level with an index. */
  predicate NearestIndex(fs: Files, start: Path, d: nat) {
    Visited(fs, start, d) && Indexed(fs, Up(start, d)) && forall k :: 0 <= k < d ==> !Indexed(fs, Up(start, k))
  }

  /** The visited level with a project marker. */
  predicate Boundary(fs: Files, start: Path, d: nat) {
    Visited(fs, start, d) && Up(start, d) in fs.markers
  }

  /** What the walk is to find, level by level. */
  ghost predicate Describes(fs: Files, start: Path, r: Discovery) {
    match r
    case GraphFound(root, boundary, depth) =>
      && NearestIndex(fs, start, depth) && root == Up(start, depth)
      && ((exists b: nat :: Boundary(fs, start, b) && boundary == Up(start, b)) ||
          (boundary == root && forall b: nat :: !Boundary(fs, start, b)))
    case BoundaryOnly(boundary) =>
      && (exists b: nat :: Boundary(fs, start, b) && boundary == Up(start, b))
      && forall d: nat :: !NearestIndex(fs, start, d)
    case Nothing =>
      (forall b: nat :: !Boundary(fs, start, b)) && forall d: nat :: !NearestIndex(fs, start, d)
  }

  method DiscoverWorkspaceRoot(fs: Files, start: Path) returns (r: Discovery)
    ensures Describes(fs, start, r)
  {
    var current := start;
    var graphFound: Option<(Path, nat)> := None;
    var boundary: Option<Path> := None;
    ghost var stop: nat := 0;
    var depth := 0;
    while depth < MAX_ANCESTOR_DEPTH
      invariant 0 <= depth <= MAX_ANCESTOR_DEPTH && depth <= |start| && current == Up(start, depth)
      invariant boundary.None? && forall k :: 0 <= k < depth ==> Up(start, k) !in fs.markers
      invariant graphFound.None? ==> forall k :: 0 <= k < depth ==> !Indexed(fs, Up(start, k))
      invariant graphFound.Some? ==>
                  graphFound.value.1 < depth && graphFound.value.0 == Up(start, graphFound.value.1) &&
                                     NearestIndex(fs, start, graphFound.value.1)
    {
      if graphFound.None? && (current in fs.graphs || current in fs.legacy) {
        graphFound := Some((current, depth));
      }
      if current in fs.markers {
        boundary := Some(current);
        assert Boundary(fs, start, depth);
        break;
      }
      if current == [] {
        break;
      }
      current := current[..|current| - 1];
      depth := depth + 1;
    }
    match (graphFound, boundary)
    case (Some((root, at)), Some(b)) =>
      assert root[..|b|] == b;
      if b <= root {
        return GraphFound(root, b, at);
      }
      return BoundaryOnly(b);
    case (Some((root, at)), None) =>
      return GraphFound(root, root, at);
    case (None, Some(b)) =>
      return BoundaryOnly(b);
    case (None, None) =>
      return Nothing;
  }

  datatype Location = Location(root: Path, isAncestor: bool, isFileQuery: bool, requiresScopeFilter: bool)

  function LocationAt(from: Path, depth: nat, isFile: bool): Location
    requires depth <= |from|
  {
    Location(Up(from, depth), depth > 0, isFile, depth > 0 || isFile)
  }

  /** A legacy index file at a level the old walk reaches. */
  predicate LegacyAt(fs: Files, start: Path, boundary: Option<Path>, d: nat) {
    d < MAX_ANCESTOR_DEPTH && d <= |start| && Up(start, d) in fs.legacyFiles &&
    forall k :: 0 <= k < d ==> boundary != Some(Up(start, k))
  }

  /** The old walk: up to the boundary, looking for a `.sqry-index` file. */
  method LegacyWalk(fs: Files, start: Path, boundary: Option<Path>) returns (r: Option<(Path, nat)>)
    ensures r.Some? ==> LegacyAt(fs, start, boundary, r.value.1) && r.value.0 == Up(start, r.value.1)
    ensures r.None? ==> forall d: nat :: !LegacyAt(fs, start, boundary, d)
  {
    var dir := start;
    var depth := 0;
    while depth < MAX_ANCESTOR_DEPTH
      invariant 0 <= depth <= MAX_ANCESTOR_DEPTH && depth <= |start| && dir == Up(start, depth)
      invariant forall k :: 0 <= k < depth ==> boundary != Some(Up(start, k)) && Up(start, k) !in fs.legacyFiles
    {
      if dir in fs.legacyFiles {
        return Some((dir, depth));
      }
      if boundary == Some(dir) {
        return None;
      }
      if dir == [] {
        return None;
      }
      dir := dir[..|dir| - 1];
      depth := depth + 1;
    }
    return None;
  }

  /**
   Whenever the first walk finds no index, the legacy walk finds none either:
   from an absolute path the fallback never has anything to add.
   */
  lemma LegacyAddsNothing(fs: Files, start: Path, r: Discovery, d: nat)
    requires Consistent(fs) && Describes(fs, start, r) && !r.GraphFound?
    ensures !LegacyAt(fs, start, if r.BoundaryOnly? then Some(r.boundary) else None, d)
  {
    if LegacyAt(fs, start, if r.BoundaryOnly? then Some(r.boundary) else None, d) {
      LegacyIsVisited(fs, start, r, d);
      var n := LowestIndex(fs, start, d);
    }
  }

  /** The old walk stays within the levels the first walk visits. */
  lemma LegacyIsVisited(fs: Files, start: Path, r: Discovery, d: nat)
    requires Describes(fs, start, r) && !r.GraphFound?
    requires LegacyAt(fs, start, if r.BoundaryOnly? then Some(r.boundary) else None, d)
    ensures Visited(fs, start, d)
  {
    forall k: nat | k < d ensures Up(start, k) !in fs.markers {
      if Up(start, k) in fs.markers {
        var b := LowestMarker(fs, start, k);
        BoundaryUnique(fs, start);
      }
    }
  }

  lemma {:induction false} LowestMarker(fs: Files, start: Path, k: nat) returns (b: nat)
    requires k < MAX_ANCESTOR_DEPTH && k <= |start| && Up(start, k) in fs.markers
    ensures b <= k && Boundary(fs, start, b)
  {
    if j: nat :| j < k && Up(start, j) in fs.markers {
      b := LowestMarker(fs, start, j);
    } else {
      b := k;
    }
  }

  lemma {:induction false} LowestIndex(fs: Files, start: Path, d: nat) returns (n: nat)
    requires Visited(fs, start, d) && Indexed(fs, Up(start, d))
    ensures n <= d && NearestIndex(fs, start, n)
  {
    if j: nat :| j < d && Indexed(fs, Up(start, j)) {
      n := LowestIndex(fs, start, j);
    } else {
      n := d;
    }
  }

  lemma BoundaryUnique(fs: Files, start: Path)
    ensures forall a: nat, b: nat :: Boundary(fs, start, a) && Boundary(fs, start, b) ==> a == b
  {
  }

  /**
   The index found is the nearest one on the way up that is at or below the
   first project marker and within the depth bound; there is a location
   exactly when there is such an index.
   */
  method FindNearestIndex(fs: Files, start: Path, isFile: bool) returns (r: Option<Location>)
    requires Consistent(fs)
    ensures var from := if isFile && start != [] then Up(start, 1) else start;
            && (r.None? <==> forall d: nat :: !NearestIndex(fs, from, d))
            && (r.Some? ==> exists d: nat ::
                              NearestIndex(fs, from, d) && r.value == LocationAt(from, d, isFile))
  {
    var dir := if isFile && start != [] then start[..|start| - 1] else start;
    var found := DiscoverWorkspaceRoot(fs, dir);
    var boundary: Option<Path> := None;
    match found {
      case GraphFound(root, _, depth) =>
        assert NearestIndex(fs, dir, depth);
        return Some(LocationAt(dir, depth, isFile));
      case BoundaryOnly(b) => boundary := Some(b);
      case Nothing =>
    }
    var legacy := LegacyWalk(fs, dir, boundary);
    r := if legacy.Some? then Some(LocationAt(dir, legacy.value.1, isFile)) else None;
    forall d: nat ensures !LegacyAt(fs, dir, boundary, d) {
      LegacyAddsNothing(fs, dir, found, d);
    }
  }

  /** The path of the request below the index root, when results are to be filtered. */
  function RelativeScope(l: Location, scope: Path): Option<Path> {
    if l.requiresScopeFilter && l.root <= scope then Some(scope[|l.root|..]) else None
  }

  /**
   Filtering is asked for exactly when the request is not the index root
   itself, and the scope then leads from the root to the request.
   */
  lemma ScopeLeadsToRequest(fs: Files, start: Path, isFile: bool, l: Location, d: nat)
    requires isFile ==> start != []
    requires var from := if isFile then Up(start, 1) else start;
             NearestIndex(fs, from, d) && l == LocationAt(from, d, isFile)
    ensures RelativeScope(l, start).None? <==> l.root == start
    ensures RelativeScope(l, start).Some? ==>
              l.root + RelativeScope(l, start).value == start && RelativeScope(l, start).value != []
  {
    var from := if isFile then Up(start, 1) else start;
    assert l.root == start[..|l.root|];
  }
}
