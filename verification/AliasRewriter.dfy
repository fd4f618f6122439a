/**
 The `@alias` argv rewriter of `sqry-cli/src/main.rs`: it finds an `@alias`
 token, splits what follows it into flags and at most one path, and emits the
 argv of the equivalent direct run.  Each method below is proved equal to the
 function beside it; AliasMeaning, AliasDetection and AliasCommandWord prove
 what those functions mean.
 */
module AliasRewriter {
  import opened Wrappers
  import opened CommandLine

  const SEARCH := "search"
  const QUERY := "query"

  predicate StartsWithDash(tok: string) { |tok| > 0 && tok[0] == '-' }

  predicate StartsWithAt(tok: string) { |tok| > 0 && tok[0] == '@' }

  // ---------------------------------------------------------------------
  // Which tokens a flag takes with it
  // ---------------------------------------------------------------------

  datatype ClusterTail = NoValue | ConsumesNext | OptionalNext

  datatype Cluster = Cluster(shorts: seq<string>, tail: ClusterTail)

  /** The short flags bundled in `body`, up to the first one that takes a value. */
  function ClusterOf(t: Tables, body: string): Cluster {
    if body == "" then Cluster([], NoValue)
    else
      var short := ['-', body[0]];
      if short in t.valued || short in t.optional then
        Cluster([short],
                if |body| > 1 then NoValue else if short in t.valued then ConsumesNext else OptionalNext)
      else
        var rest := ClusterOf(t, body[1..]);
        Cluster([short] + rest.shorts, rest.tail)
  }

  predicate IsCluster(tok: string) {
    StartsWithDash(tok) && !("--" <= tok) && '=' !in tok && |tok| >= 2
  }

  function SplitCluster(t: Tables, tok: string): Option<Cluster> {
    if IsCluster(tok) then Some(ClusterOf(t, tok[1..])) else None
  }

  method SplitShortCluster(t: Tables, token: string) returns (r: Option<Cluster>)
    ensures r == SplitCluster(t, token)
  {
    if !StartsWithDash(token) || "--" <= token || '=' in token || |token| < 2 {
      return None;
    }
    var body := token[1..];
    var shorts: seq<string> := [];
    var tail := NoValue;
    var idx := 0;
    while idx < |body|
      invariant 0 <= idx <= |body|
      invariant tail == NoValue
      invariant ClusterOf(t, body).shorts == shorts + ClusterOf(t, body[idx..]).shorts
      invariant ClusterOf(t, body).tail == ClusterOf(t, body[idx..]).tail
    {
      var short := ['-', body[idx]];
      assert body[idx..][1..] == body[idx + 1..];
      var mandatory := short in t.valued;
      var optional := short in t.optional;
      shorts := shorts + [short];
      if mandatory || optional {
        var glued := idx + 1 < |body|;
        tail := if glued then NoValue else if mandatory then ConsumesNext else OptionalNext;
        return Some(Cluster(shorts, tail));
      }
      idx := idx + 1;
    }
    assert shorts + [] == shorts;
    return Some(Cluster(shorts, tail));
  }

  predicate IsOptionalFlagValue(arg: string) {
    !StartsWithAt(arg) && !StartsWithDash(arg) && IsCount(arg)
  }

  /** Whether `arg`, with `next` after it, takes the next token as its value. */
  predicate TakesNext(t: Tables, arg: string, next: Option<string>) {
    if next == Some("--") then false
    else if '=' in arg then false
    else if arg in t.valued then true
    else if arg in t.optional then next.Some? && IsOptionalFlagValue(next.value)
    else
      match SplitCluster(t, arg)
      case Some(Cluster(_, ConsumesNext)) => true
      case Some(Cluster(_, OptionalNext)) => next.Some? && IsOptionalFlagValue(next.value)
      case _ => false
  }

  function Get(args: seq<string>, i: nat): Option<string> {
    if i < |args| then Some(args[i]) else None
  }

  predicate ShouldSkipNext(t: Tables, args: seq<string>, i: nat)
    requires i < |args|
  {
    TakesNext(t, args[i], Get(args, i + 1))
  }

  // ---------------------------------------------------------------------
  // The tail after the alias
  // ---------------------------------------------------------------------

  datatype Tail = Tail(flags: seq<string>, path: Option<string>)

  /** The two paths an ambiguous invocation gives. */
  datatype TwoPaths = TwoPaths(existing: string, other: string)

  /** Put tokens already split off in front of the split of the rest. */
  function Combine(flags: seq<string>, path: Option<string>, r: Result<Tail, TwoPaths>): Result<Tail, TwoPaths> {
    match (path, r)
    case (None, Ok(tail)) => Ok(Tail(flags + tail.flags, tail.path))
    case (None, Err(e)) => Err(e)
    case (Some(p), Ok(tail)) =>
      (match tail.path case None => Ok(Tail(flags + tail.flags, path)) case Some(q) => Err(TwoPaths(p, q)))
    case (Some(p), Err(e)) => Err(TwoPaths(p, e.existing))
  }

  /** Words after `--`: the first is the path, a second is one too many. */
  function EscapedTail(words: seq<string>): Result<Tail, TwoPaths> {
    if |words| > 1 then Err(TwoPaths(words[0], words[1])) else Ok(Tail([], First(words)))
  }

  function Partition(t: Tables, ts: seq<string>): Result<Tail, TwoPaths>
    decreases |ts|
  {
    if ts == [] then Ok(Tail([], None))
    else if ts[0] == "--" then EscapedTail(ts[1..])
    else if StartsWithDash(ts[0]) then
      if |ts| > 1 && ShouldSkipNext(t, ts, 0)
      then Combine(ts[..2], None, Partition(t, ts[2..]))
      else Combine(ts[..1], None, Partition(t, ts[1..]))
    else Combine([], Some(ts[0]), Partition(t, ts[1..]))
  }

  /** Combining in two steps is combining once. */
  lemma CombineTwice(flags: seq<string>, path: Option<string>, more: seq<string>, r: Result<Tail, TwoPaths>)
    ensures Combine(flags, path, Combine(more, None, r)) == Combine(flags + more, path, r)
  {
    if r.Ok? {
      assert flags + (more + r.value.flags) == flags + more + r.value.flags;
    }
  }

  method PartitionAliasTail(t: Tables, tokens: seq<string>) returns (r: Result<Tail, TwoPaths>)
    ensures r == Partition(t, tokens)
  {
    var flags: seq<string> := [];
    var path: Option<string> := None;
    var i := 0;
    assert tokens[0..] == tokens;
    assert Partition(t, tokens) == Combine([], None, Partition(t, tokens)) by {
      CombineTwice([], None, [], Partition(t, tokens));
      var p := Partition(t, tokens);
      if p.Ok? { assert [] + p.value.flags == p.value.flags; }
    }
    while i < |tokens|
      invariant 0 <= i <= |tokens|
      invariant Partition(t, tokens) == Combine(flags, path, Partition(t, tokens[i..]))
    {
      var tok := tokens[i];
      ghost var rest := tokens[i..];
      assert rest[1..] == tokens[i + 1..];
      if tok == "--" {
        var words := tokens[i + 1..];
        var j := 0;
        ghost var before := path;
        while j < |words|
          invariant 0 <= j <= |words|
          invariant j <= 1 && (j == 0 ==> path == before)
          invariant j == 1 ==> before.None? && path == Some(words[0])
        {
          if path.Some? {
            return Err(TwoPaths(path.value, words[j]));
          }
          path := Some(words[j]);
          j := j + 1;
        }
        assert flags + [] == flags;
        return Ok(Tail(flags, path));
      }
      if StartsWithDash(tok) {
        assert Get(rest, 1) == Get(tokens, i + 1);
        if ShouldSkipNext(t, tokens, i) && i + 1 < |tokens| {
          assert rest[2..] == tokens[i + 2..];
          assert rest[..2] == [tok, tokens[i + 1]];
          CombineTwice(flags, path, rest[..2], Partition(t, tokens[i + 2..]));
          assert flags + rest[..2] == flags + [tok] + [tokens[i + 1]];
          flags := flags + [tok] + [tokens[i + 1]];
          i := i + 2;
        } else {
          assert rest[..1] == [tok];
          CombineTwice(flags, path, rest[..1], Partition(t, tokens[i + 1..]));
          flags := flags + [tok];
          i := i + 1;
        }
      } else {
        ghost var r' := Partition(t, tokens[i + 1..]);
        if r'.Ok? { assert [] + r'.value.flags == r'.value.flags; }
        if path.Some? {
          return Err(TwoPaths(path.value, tok));
        }
        path := Some(tok);
        i := i + 1;
      }
    }
    assert flags + [] == flags;
    return Ok(Tail(flags, path));
  }

  // ---------------------------------------------------------------------
  // Finding the alias
  // ---------------------------------------------------------------------

  /** The first `@` token reached from `j` past flags and their values only. */
  function AfterPrefix(t: Tables, args: seq<string>, j: nat): Option<nat>
    decreases |args| - j
  {
    if j >= |args| || args[j] == "--" then None
    else if StartsWithAt(args[j]) then Some(j)
    else if StartsWithDash(args[j]) then AfterPrefix(t, args, if ShouldSkipNext(t, args, j) then j + 2 else j + 1)
    else None
  }

  method FindAliasAfterPrefix(t: Tables, args: seq<string>, start: nat) returns (r: Option<nat>)
    ensures r == AfterPrefix(t, args, start)
  {
    var j := start;
    while j < |args|
      invariant AfterPrefix(t, args, start) == AfterPrefix(t, args, j)
    {
      var token := args[j];
      if token == "--" {
        return None;
      }
      if StartsWithAt(token) {
        return Some(j);
      }
      if StartsWithDash(token) {
        j := j + if ShouldSkipNext(t, args, j) then 2 else 1;
        continue;
      }
      return None;
    }
    return None;
  }

  /** Where the alias is, and where the `query` or `search` word in front of it is. */
  datatype Site = Site(alias: nat, prefix: Option<nat>)

  function Locate(t: Tables, args: seq<string>, i: nat): Option<Site>
    decreases |args| - i
  {
    if i >= |args| || args[i] == "--" then None
    else if StartsWithDash(args[i]) then Locate(t, args, if ShouldSkipNext(t, args, i) then i + 2 else i + 1)
    else if StartsWithAt(args[i]) then Some(Site(i, None))
    else if args[i] == QUERY || args[i] == SEARCH then
      match AfterPrefix(t, args, i + 1)
      case Some(k) => Some(Site(k, Some(i)))
      case None => None
    else None
  }

  /** Any alias found lies inside the argv, after its prefix word. */
  lemma AfterPrefixInRange(t: Tables, args: seq<string>, j: nat)
    ensures var k := AfterPrefix(t, args, j); k.Some? ==> j <= k.value < |args|
    decreases |args| - j
  {
    if j < |args| && StartsWithDash(args[j]) {
      AfterPrefixInRange(t, args, if ShouldSkipNext(t, args, j) then j + 2 else j + 1);
    }
  }

  lemma LocateInRange(t: Tables, args: seq<string>, i: nat)
    ensures var s := Locate(t, args, i);
            s.Some? ==> i <= s.value.alias < |args| &&
                        (s.value.prefix.Some? ==> i <= s.value.prefix.value < s.value.alias)
    decreases |args| - i
  {
    if i < |args| {
      if StartsWithDash(args[i]) {
        LocateInRange(t, args, if ShouldSkipNext(t, args, i) then i + 2 else i + 1);
      }
      AfterPrefixInRange(t, args, i + 1);
    }
  }

  datatype AliasScan = AliasScan(
    aliasIndex: Option<nat>,
    remainingPath: Option<string>,
    postAliasFlags: seq<string>,
    subcommandPrefix: Option<nat>)

  const NO_ALIAS := AliasScan(None, None, [], None)

  function Scan(t: Tables, args: seq<string>): Result<AliasScan, TwoPaths> {
    LocateInRange(t, args, 1);
    match Locate(t, args, 1)
    case None => Ok(NO_ALIAS)
    case Some(Site(k, prefix)) =>
      match Partition(t, args[k + 1..])
      case Err(e) => Err(e)
      case Ok(tail) => Ok(AliasScan(Some(k), tail.path, tail.flags, prefix))
  }

  method ScanAliasArgs(t: Tables, args: seq<string>) returns (r: Result<AliasScan, TwoPaths>)
    ensures r == Scan(t, args)
  {
    var skipNext := false;
    LocateInRange(t, args, 1);
    var i := 1;
    while i < |args|
      invariant 1 <= i
      invariant Locate(t, args, 1) == Locate(t, args, if skipNext then i + 1 else i)
    {
      var arg := args[i];
      if skipNext {
        skipNext := false;
        i := i + 1;
        continue;
      }
      if arg == "--" {
        return Ok(NO_ALIAS);
      }
      if StartsWithDash(arg) {
        if ShouldSkipNext(t, args, i) {
          skipNext := true;
        }
        i := i + 1;
        continue;
      }
      if !StartsWithAt(arg) {
        if arg == QUERY || arg == SEARCH {
          var found := FindAliasAfterPrefix(t, args, i + 1);
          if found.Some? {
            var tail := PartitionAliasTail(t, args[found.value + 1..]);
            if tail.Err? {
              return Err(tail.error);
            }
            return Ok(AliasScan(found, tail.value.path, tail.value.flags, Some(i)));
          }
        }
        return Ok(NO_ALIAS);
      }
      var tail := PartitionAliasTail(t, args[i + 1..]);
      if tail.Err? {
        return Err(tail.error);
      }
      return Ok(AliasScan(Some(i), tail.value.path, tail.value.flags, None));
    }
    return Ok(NO_ALIAS);
  }

  // ---------------------------------------------------------------------
  // The expansion
  // ---------------------------------------------------------------------

  /** The stored command and arguments of an alias. */
  datatype SavedAlias = SavedAlias(command: string, args: seq<string>)

  /** What the top-level parser knows: its long names, its short letters, and the subcommand names. */
  datatype Surface = Surface(longs: set<string>, shorts: set<char>, subcommands: set<string>)

  function TrimDashes(s: string): string {
    if StartsWithDash(s) then TrimDashes(s[1..]) else s
  }

  /** The lookup knows no dashes: a name is a long name, or a short letter. */
  predicate IsBareName(s: Surface, bare: string) {
    bare in s.longs || (|bare| == 1 && bare[0] in s.shorts)
  }

  predicate DefinedOnTopLevel(s: Surface, flag: string) {
    IsBareName(s, TrimDashes(NameOf(flag)))
  }

  function FlagsToClassify(t: Tables, arg: string): seq<string> {
    match SplitCluster(t, arg)
    case Some(Cluster(shorts, _)) => shorts
    case None => [arg]
  }

  /** Whether a dash token names a flag the top-level parser does not define. */
  predicate ScopedToken(t: Tables, s: Surface, arg: string) {
    StartsWithDash(arg) && exists flag :: flag in FlagsToClassify(t, arg) && !DefinedOnTopLevel(s, flag)
  }

  predicate AnyFlagRequiresSubcommand(t: Tables, s: Surface, tokens: seq<string>) {
    exists arg :: arg in tokens && ScopedToken(t, s, arg)
  }

  lemma JudgedApart(t: Tables, s: Surface, a: seq<string>, b: seq<string>)
    ensures AnyFlagRequiresSubcommand(t, s, a + b) <==>
            AnyFlagRequiresSubcommand(t, s, a) || AnyFlagRequiresSubcommand(t, s, b)
  {
    if AnyFlagRequiresSubcommand(t, s, a) {
      var x :| x in a && ScopedToken(t, s, x);
      assert x in a + b;
    }
    if AnyFlagRequiresSubcommand(t, s, b) {
      var x :| x in b && ScopedToken(t, s, x);
      assert x in a + b;
    }
  }

  /** The tokens before the alias, without the program name and the typed command word. */
  function PreAliasFlags(args: seq<string>, k: nat, prefix: Option<nat>): seq<string>
    requires 1 <= k <= |args|
    requires prefix.Some? ==> 1 <= prefix.value < k
  {
    match prefix
    case None => args[1..k]
    case Some(w) => args[1..w] + args[w + 1..k]
  }

  predicate UseShorthand(t: Tables, s: Surface, alias: SavedAlias, pre: seq<string>, trailing: seq<string>) {
    && alias.command == SEARCH
    && alias.args != []
    && alias.args[0] !in s.subcommands
    && !AnyFlagRequiresSubcommand(t, s, pre)
    && !AnyFlagRequiresSubcommand(t, s, trailing)
  }

  /** The path and the trailing flags as they are re-emitted. */
  function EmitTail(flags: seq<string>, path: string): seq<string> {
    if StartsWithDash(path) then flags + ["--", path] else [path] + flags
  }

  const CURRENT_DIR := "."

  function PathOrDot(path: Option<string>): string {
    match path
    case Some(p) => p
    case None => CURRENT_DIR
  }

  /** Everything after the program name and the command word. */
  function ExpandedBody(pre: seq<string>, alias: SavedAlias, tail: Tail): seq<string> {
    pre + alias.args + EmitTail(tail.flags, PathOrDot(tail.path))
  }

  function CommandWord(t: Tables, s: Surface, alias: SavedAlias, pre: seq<string>, trailing: seq<string>): seq<string> {
    if UseShorthand(t, s, alias, pre, trailing) then [] else [alias.command]
  }

  function Expanded(t: Tables, s: Surface, args: seq<string>, k: nat, tail: Tail, prefix: Option<nat>,
                    alias: SavedAlias): seq<string>
    requires 1 <= k < |args|
    requires prefix.Some? ==> 1 <= prefix.value < k
  {
    var pre := PreAliasFlags(args, k, prefix);
    [args[0]] + CommandWord(t, s, alias, pre, tail.flags) + ExpandedBody(pre, alias, tail)
  }

  /** The prefix word, once the scan is past it. */
  function PrefixBelow(prefix: Option<nat>, i: nat): Option<nat> {
    if prefix.Some? && prefix.value < i then prefix else None
  }

  lemma NextPreAliasFlag(args: seq<string>, i: nat, prefix: Option<nat>)
    requires 1 <= i < |args|
    requires prefix.Some? ==> 1 <= prefix.value
    ensures PreAliasFlags(args, i + 1, PrefixBelow(prefix, i + 1)) ==
            PreAliasFlags(args, i, PrefixBelow(prefix, i)) + if Some(i) != prefix then [args[i]] else []
  {
    assert args[1..i + 1] == args[1..i] + [args[i]];
    if prefix.Some? && prefix.value < i {
      assert args[prefix.value + 1..i + 1] == args[prefix.value + 1..i] + [args[i]];
    }
  }

  method CollectPreAliasFlags(args: seq<string>, k: nat, prefix: Option<nat>) returns (pre: seq<string>)
    requires 1 <= k <= |args|
    requires prefix.Some? ==> 1 <= prefix.value < k
    ensures pre == PreAliasFlags(args, k, prefix)
  {
    pre := [];
    var i := 1;
    assert PreAliasFlags(args, 1, PrefixBelow(prefix, 1)) == [];
    hide PreAliasFlags;
    while i < k
      invariant 1 <= i <= k
      invariant pre == PreAliasFlags(args, i, PrefixBelow(prefix, i))
    {
      NextPreAliasFlag(args, i, prefix);
      if Some(i) != prefix {
        pre := pre + [args[i]];
      }
      i := i + 1;
    }
  }

  method BuildExpandedArgs(t: Tables, s: Surface, args: seq<string>, k: nat, remainingPath: Option<string>,
                           postAliasFlags: seq<string>, prefix: Option<nat>, alias: SavedAlias)
    returns (expanded: seq<string>)
    requires 1 <= k < |args|
    requires prefix.Some? ==> 1 <= prefix.value < k
    ensures expanded == Expanded(t, s, args, k, Tail(postAliasFlags, remainingPath), prefix, alias)
  {
    hide UseShorthand, PreAliasFlags;
    expanded := [args[0]];
    var pre := CollectPreAliasFlags(args, k, prefix);
    var useShorthand := UseShorthand(t, s, alias, pre, postAliasFlags);
    if !useShorthand {
      expanded := expanded + [alias.command];
    }
    ghost var front := expanded;
    expanded := expanded + pre;
    expanded := expanded + alias.args;
    var pathToken := PathOrDot(remainingPath);
    if StartsWithDash(pathToken) {
      expanded := expanded + postAliasFlags;
      expanded := expanded + ["--"];
      expanded := expanded + [pathToken];
      AppendTwice(front + pre + alias.args, postAliasFlags, ["--"], [pathToken]);
    } else {
      expanded := expanded + [pathToken];
      expanded := expanded + postAliasFlags;
    }
    AppendAll(front, pre, alias.args, EmitTail(postAliasFlags, pathToken));
  }

  lemma AppendAll(a: seq<string>, b: seq<string>, c: seq<string>, d: seq<string>)
    ensures a + b + c + d == a + (b + c + d)
  {
  }

  lemma AppendTwice(a: seq<string>, b: seq<string>, c: seq<string>, d: seq<string>)
    ensures a + b + c + d == a + (b + (c + d))
  {
  }
}
