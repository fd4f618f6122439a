/** A flag typed in front of the alias against the same flag typed behind it. */
module AliasSides {
  import opened Wrappers
  import opened CommandLine
  import opened AliasRewriter
  import opened AliasMeaning
  import opened AliasPattern
  import opened AliasTokens
  import opened AliasDetection
  import opened AliasCommandWord

  // ---------------------------------------------------------------------
  // The scan, the command word and the direct run
  // ---------------------------------------------------------------------

  lemma RunBehind(t: Tables, g: seq<string>, ts: seq<string>)
    requires Grouped(t, g, First(ts)) && Partition(t, ts).Ok?
    ensures var tail := Partition(t, ts).value;
            Partition(t, g + ts) == Ok(Tail(g + tail.flags, tail.path))
  {
    hide Grouped, Partition;
    PartitionAfterRun(t, g, ts);
  }

  lemma CommandWordMoves(t: Tables, s: Surface, a: seq<string>, g: seq<string>, flags: seq<string>, alias: SavedAlias)
    ensures CommandWord(t, s, alias, a + g, flags) == CommandWord(t, s, alias, a, g + flags)
  {
    JudgedApart(t, s, a, g);
    JudgedApart(t, s, g, flags);
  }

  lemma RunsMeet(t: Tables, a: seq<string>, g: seq<string>, at: string, ts: seq<string>)
    requires WellFormed(t) && StartsWithAt(at)
    requires Grouped(t, a, Some(at)) && Grouped(t, g, Some(at))
    requires !(OpenEnded(t, g) && ts != [] && IsCount(ts[0]))
    ensures Grouped(t, a, First(g)) && Grouped(t, a + g, Some(at)) && Grouped(t, g, First(ts))
  {
    if g != [] {
      if IsCount(g[0]) { CountIsPlain(g[0]); }
      GroupedRetarget(t, a, at, g[0]);
    } else {
      GroupedAtEnd(t, a, at);
    }
    GroupedAppend(t, a, g, at);
    if ts != [] { GroupedRetarget(t, g, at, ts[0]); } else { GroupedAtEnd(t, g, at); }
  }

  lemma {:induction false} GroupedAtEnd(t: Tables, ts: seq<string>, was: string)
    requires WellFormed(t) && Grouped(t, ts, Some(was))
    ensures Grouped(t, ts, None)
    decreases |ts|
  {
    if ts != [] {
      if TakesNext(t, ts[0], Following(ts, Some(was))) {
        GroupedAtEnd(t, ts[2..], was);
      } else {
        GroupedAtEnd(t, ts[1..], was);
      }
    }
  }

  lemma ScanOfRun(t: Tables, prog: string, pre: seq<string>, at: string, ts: seq<string>)
    requires StartsWithAt(at) && Grouped(t, pre, Some(at))
    ensures Scan(t, [prog] + pre + [at] + ts) ==
            match Partition(t, ts)
            case Err(e) => Err(e)
            case Ok(tail) => Ok(AliasScan(Some(1 + |pre|), tail.path, tail.flags, None))
  {
    hide Grouped, Partition, Locate;
    var args := [prog] + pre + [at] + ts;
    var k := 1 + |pre|;
    assert args[1..k] == pre && args[k] == at && args[k + 1..] == ts;
    LocateExact(t, args, 1, Site(k, None));
  }

  lemma JoinMoves(a: Parse, g: Parse, ts: Parse, stored: seq<string>)
    requires g.Parsed? ==> g.positionals == []
    ensures Join(Join(a, g), Join(Parsed([], stored), WithDefaultPath(ts))) ==
            Join(a, Join(Parsed([], stored), WithDefaultPath(Join(g, ts))))
  {
    if a.Parsed? && g.Parsed? {
      assert a.positionals + g.positionals == a.positionals;
      if ts.Parsed? {
        assert g.positionals + ts.positionals == ts.positionals;
        assert a.flags + g.flags + ([] + ts.flags) == a.flags + ([] + (g.flags + ts.flags));
      }
    }
  }

  lemma DirectMoves(t: Tables, a: seq<string>, g: seq<string>, ts: seq<string>, stored: seq<string>)
    requires WellFormed(t) && LoneDashes(t, g) == 0
    requires Grouped(t, a, First(g)) && Grouped(t, g, First(ts))
    ensures Direct(t, a + g, stored, ts) == Direct(t, a, stored, g + ts)
  {
    hide ParseTokens, Grouped;
    ParseGrouped(t, a, g);
    ParseGrouped(t, g, ts);
    assert Dashes(0) == [];
    JoinMoves(ParseTokens(t, a), ParseTokens(t, g), ParseTokens(t, ts), stored);
  }

  // ---------------------------------------------------------------------
  // When the two expansions come to the same
  // ---------------------------------------------------------------------

  /** A count behind the flags in front, that an open optional value on either side could take. */
  predicate CountAtStake(t: Tables, a: seq<string>, g: seq<string>, stored: seq<string>, tail: Tail) {
    IsCount(Behind(stored, tail)[0]) && (OpenEnded(t, a) || OpenEnded(t, g))
  }

  /** Moving the flags `g` past what is read as `k`, with `words` words in all, changes nothing that is accepted. */
  predicate Commute(g: Parse, k: Parse, words: nat, atStake: bool, limit: nat)
    requires g.Parsed? && k.Parsed?
  {
    if atStake then words > limit + 1 else words > limit || g.flags + k.flags == k.flags + g.flags
  }

  /**
   When the expansion with `g` in front of the alias and the one with `g` behind
   it come to the same, for a command that takes `limit` words: exactly, for
   any stored tokens.
   */
  predicate SidesAgree(t: Tables, a: seq<string>, g: seq<string>, stored: seq<string>, ts: seq<string>, limit: nat)
    requires Partition(t, ts).Ok?
  {
    || g == [] || ParseTokens(t, a).Rejected?
    || (if ParseTokens(t, g).Rejected? then RefusedAgree(t, g, stored, Partition(t, ts).value)
        else AcceptedAgree(t, a, g, stored, ts, limit))
  }

  /** With `g` refused, unless a stored token is refused before it or makes a word of it. */
  predicate RefusedAgree(t: Tables, g: seq<string>, stored: seq<string>, tail: Tail) {
    match ReachOf(t, stored, Emitted(Moved(g, tail))[0])
    case Escapes => false
    case Takes => true
    case Stays => ParseTokens(t, stored).Parsed? || ParseTokens(t, stored) == ParseTokens(t, g)
  }

  /** With `g` accepted. */
  predicate AcceptedAgree(t: Tables, a: seq<string>, g: seq<string>, stored: seq<string>, ts: seq<string>, limit: nat)
    requires Partition(t, ts).Ok? && ParseTokens(t, g).Parsed?
  {
    var tail, s, p := Partition(t, ts).value, ParseTokens(t, stored), ParseTokens(t, ts);
    var before, atStake := LoneDashes(t, a), CountAtStake(t, a, g, stored, tail);
    match ReachOf(t, stored, Emitted(Moved(g, tail))[0])
    case Escapes =>
      s.Parsed? &&
      before + |s.positionals| + |Emitted(tail)| > limit + (if Swallows(t, g, stored, tail) then 1 else 0)
    case Takes =>
      var k := With(t, stored, Emitted(tail)[0]);
      p.Rejected? ||
      (k.Parsed? && Commute(ParseTokens(t, g), k, before + LoneDashes(t, ts) + |k.positionals|, atStake, limit))
    case Stays =>
      if ReachOf(t, stored, Emitted(tail)[0]) == Takes then s == p
      else
        s.Rejected? || p.Rejected? ||
        Commute(ParseTokens(t, g), s, before + LoneDashes(t, ts) + |s.positionals| + 1, atStake, limit)
  }

  /** The trailing flags with `g` among them. */
  function Moved(g: seq<string>, tail: Tail): Tail { Tail(g + tail.flags, tail.path) }

  // ---------------------------------------------------------------------
  // The parts
  // ---------------------------------------------------------------------

  /** A run is open-ended when its last part is. */
  lemma {:induction false} OpenEndedAppend(t: Tables, a: seq<string>, g: seq<string>)
    requires WellFormed(t) && g != [] && Grouped(t, a, First(g))
    ensures OpenEnded(t, a + g) <==> OpenEnded(t, g)
    decreases |a|
  {
    if a == [] {
      assert a + g == g;
    } else {
      var all := a + g;
      assert Get(all, 1) == Following(a, First(g));
      var n := if ShouldSkipNext(t, all, 0) then 2 else 1;
      assert all[n..] == a[n..] + g && all[0] == a[0];
      OpenEndedAppend(t, a[n..], g);
    }
  }

  /** A run that keeps to itself in front of a tail does so in front of the tail's flags. */
  lemma FlagsBehindRun(t: Tables, g: seq<string>, ts: seq<string>)
    requires WellFormed(t) && Partition(t, ts).Ok? && Grouped(t, g, First(ts))
    ensures Grouped(t, g, First(Partition(t, ts).value.flags))
  {
    FlagsStartWithDash(t, ts);
    FirstRetarget(t, g, First(ts), First(Partition(t, ts).value.flags));
  }

  lemma {:induction false} FirstRetarget(t: Tables, ts: seq<string>, was: Option<string>, now: Option<string>)
    requires WellFormed(t) && Grouped(t, ts, was)
    requires was.None? ==> now.None?
    requires was == Some("--") ==> now.None?
    requires now.Some? ==> now.value != "--" && !IsCount(now.value)
    ensures Grouped(t, ts, now)
    decreases |ts|
  {
    if ts != [] {
      if TakesNext(t, ts[0], Following(ts, was)) {
        if |ts| > 1 { FirstRetarget(t, ts[2..], was, now); }
      } else if |ts| > 1 {
        FirstRetarget(t, ts[1..], was, now);
      } else if now.Some? {
        SingletonTakesNothing(t, ts[0], was, now);
      }
    }
  }

  /** Of a re-emitted tail, what a flag in front could take as a count does not depend on the flags. */
  lemma SameFirst(t: Tables, stored: seq<string>, g: seq<string>, tail: Tail)
    requires g != [] ==> !IsCount(g[0])
    requires tail.flags != [] ==> !IsCount(tail.flags[0])
    ensures var first := Behind(stored, tail)[0];
            var moved := Behind(stored, Tail(g + tail.flags, tail.path))[0];
            (IsCount(first) <==> IsCount(moved)) && (IsCount(first) ==> first == moved)
  {
    if IsCount("--") { CountIsPlain("--"); }
  }

  /** How the re-emitted tail changes when `g` joins the trailing flags. */
  lemma MovedEmitted(t: Tables, g: seq<string>, ts: seq<string>)
    requires WellFormed(t) && Partition(t, ts).Ok? && LoneDashes(t, g) == 0 && g != []
    requires Grouped(t, g, First(ts))
    requires Partition(t, g + ts) == Ok(Tail(g + Partition(t, ts).value.flags, Partition(t, ts).value.path))
    ensures var tail, gs := Partition(t, ts).value, ParseTokens(t, g);
            var e, m := Emitted(tail), Emitted(Tail(g + tail.flags, tail.path));
            && |m| == |e| + |g|
            && (gs.Parsed? ==> gs.positionals == [] && gs.flags != [])
            && ParseTokens(t, m) == Join(gs, ParseTokens(t, e))
            && (if StartsWithDash(PathOrDot(tail.path)) then m[0] == g[0] && LooksLikeFlag(m[0])
                else m[0] == e[0] && ParseTokens(t, m[1..]) == Join(gs, ParseTokens(t, e[1..])))
  {
    var tail := Partition(t, ts).value;
    var flags, path := tail.flags, PathOrDot(tail.path);
    EmitTailReads(t, ts);
    EmitTailReads(t, g + ts);
    FlagsBehindRun(t, g, ts);
    ParseGrouped(t, g, flags);
    DashTokenCases(g[0]);
    if g[0] == "-" { LoneDashTakesNothing(t, Get(g, 1)); }
    if ParseTokens(t, g).Parsed? { RunReadsSomething(t, g, First(ts)); }
    hide Partition, ParseTokens, Grouped, LoneDashes;
    assert Dashes(0) == [];
    JoinPath(ParseTokens(t, g), ParseTokens(t, flags), path);
    var e, m := Emitted(tail), Emitted(Tail(g + flags, tail.path));
    if !StartsWithDash(path) { assert m[1..] == g + flags && e[1..] == flags; }
  }

  lemma JoinPath(g: Parse, f: Parse, path: string)
    requires g.Parsed? ==> g.positionals == []
    ensures Join(Join(g, f), Parsed([], [path])) == Join(g, Join(f, Parsed([], [path])))
    ensures Join(Parsed([], [path]), Join(g, f)) == Join(g, Join(Parsed([], [path]), f))
  {
    if g.Parsed? && f.Parsed? {
      assert g.flags + f.flags + [] == g.flags + (f.flags + []);
      assert [] + (g.flags + f.flags) == g.flags + ([] + f.flags);
      assert [path] + ([] + f.positionals) == [] + ([path] + f.positionals);
    }
  }

  /** In front of a token that looks like a flag, stored tokens take nothing, and escape as they do anywhere. */
  lemma {:induction false} ReachMoved(t: Tables, ts: seq<string>, x: string, y: string)
    requires LooksLikeFlag(y)
    ensures ReachOf(t, ts, y) == if ReachOf(t, ts, x) == Escapes then Escapes else Stays
    decreases |ts|
  {
    if IsCount(y) { CountIsPlain(y); }
    if ts != [] && ts[0] != "--" {
      hide Read;
      if |ts| == 1 {
        assert ts[1..] == [];
      } else {
        ReachMoved(t, ts[1..], x, y);
        ReachMoved(t, ts[2..], x, y);
      }
    }
  }

  /** A count is swallowed on one side or the other exactly when one is at stake. */
  lemma SwallowSides(t: Tables, a: seq<string>, g: seq<string>, stored: seq<string>, ts: seq<string>)
    requires WellFormed(t) && g != [] && Grouped(t, a, First(g))
    requires Partition(t, ts).Ok? && Grouped(t, g, First(ts))
    ensures var tail := Partition(t, ts).value;
            var moved := Tail(g + tail.flags, tail.path);
            && (Swallows(t, a + g, stored, tail) <==> Swallows(t, g, stored, tail))
            && (CountAtStake(t, a, g, stored, tail) <==> Swallows(t, g, stored, tail) || Swallows(t, a, stored, moved))
            && (CountAtStake(t, a, g, stored, tail) ==> Behind(stored, moved)[0] == Behind(stored, tail)[0])
  {
    OpenEndedAppend(t, a, g);
    FlagsStartWithDash(t, ts);
    if IsCount(g[0]) { CountIsPlain(g[0]); }
    SameFirst(t, stored, g, Partition(t, ts).value);
  }

  // ---------------------------------------------------------------------
  // Comparing the two bodies
  // ---------------------------------------------------------------------

  /** A body in two parts, of which the front may have taken the first word of the back. */
  datatype Split = Split(front: Parse, back: Parse, lost: bool, first: string, less: Parse)
  {
    predicate Valid() {
      front.Parsed? &&
      (lost ==> back == Join(Parsed([], [first]), less) &&
                front.flags != [] && front.flags[|front.flags| - 1].value == None)
    }

    function Body(): Parse {
      if lost then Join(TakeLast(front, first), less) else Join(front, back)
    }

    function Lost(): nat { if lost then 1 else 0 }
  }

  lemma BodyOfSplit(x: Split)
    requires x.Valid()
    ensures x.back.Rejected? ==> x.Body() == x.back
    ensures x.back.Parsed? ==>
              && x.Body().Parsed?
              && |x.Body().positionals| + x.Lost() == |x.front.positionals| + |x.back.positionals|
              && |x.Body().flags| == |x.front.flags| + |x.back.flags|
              && (!x.lost ==> x.Body().flags == x.front.flags + x.back.flags)
  {
    if x.back.Parsed? && x.lost { assert [] + x.less.flags == x.less.flags; }
  }

  /** The flags `g` on one side of `k` and on the other. */
  lemma CompareSides(x: Split, y: Split, g: Parse, k: Parse, q: Parse, limit: nat)
    requires x.Valid() && y.Valid() && g.Parsed? && k.Parsed? && q.Parsed?
    requires g.positionals == [] && g.flags != []
    requires x.front == Join(y.front, g)
    requires x.back == Join(k, q) && y.back == Join(k, Join(g, q))
    ensures Accept(x.Body(), limit) == Accept(y.Body(), limit) <==>
            Commute(g, k, |y.front.positionals| + |k.positionals| + |q.positionals|, x.lost || y.lost, limit)
  {
    BodyOfSplit(x);
    BodyOfSplit(y);
    var f := y.front.flags;
    if y.lost {
      var last := |f| - 1;
      assert y.Body().flags[last] == Flag(f[last].name, Some(y.first));
      assert x.Body().flags[last] == f[last] by {
        if x.lost { assert |x.front.flags| - 1 > last; }
      }
    } else if !x.lost {
      assert x.Body().flags == f + g.flags + (k.flags + q.flags);
      assert y.Body().flags == f + (k.flags + (g.flags + q.flags));
      FlagsCommute(f, g.flags, k.flags, q.flags);
      assert y.front.positionals + [] == y.front.positionals;
      assert [] + q.positionals == q.positionals;
    }
  }

  /** The same where a part may be refused. */
  lemma CompareParts(x: Split, y: Split, g: Parse, k: Parse, q: Parse, limit: nat)
    requires x.Valid() && y.Valid() && g.Parsed? && g.positionals == [] && g.flags != []
    requires x.front == Join(y.front, g)
    requires x.back == Join(k, q) && y.back == Join(k, Join(g, q))
    ensures Accept(x.Body(), limit) == Accept(y.Body(), limit) <==>
            k.Rejected? || q.Rejected? ||
            Commute(g, k, |y.front.positionals| + |k.positionals| + |q.positionals|, x.lost || y.lost, limit)
  {
    if k.Rejected? || q.Rejected? {
      BodyOfSplit(x);
      BodyOfSplit(y);
    } else {
      CompareSides(x, y, g, k, q, limit);
    }
  }

  lemma FlagsCommute(f: seq<Flag>, g: seq<Flag>, k: seq<Flag>, q: seq<Flag>)
    ensures f + g + (k + q) == f + (k + (g + q)) <==> g + k == k + g
  {
    var x, y := f + g + (k + q), f + (k + (g + q));
    assert x == f + (g + k) + q && y == f + (k + g) + q;
    var n, m := |f|, |f| + |g| + |k|;
    assert x[n..m] == g + k && y[n..m] == k + g;
  }

  /** The two bodies as splits. */
  lemma BodySplit(t: Tables, pre: seq<string>, at: string, alias: SavedAlias, tail: Tail) returns (x: Split)
    requires WellFormed(t) && StartsWithAt(at) && Grouped(t, pre, Some(at)) && ParseTokens(t, pre).Parsed?
    ensures x.Valid() && x.Body() == ParseTokens(t, ExpandedBody(pre, alias, tail))
    ensures x.front == ParseTokens(t, pre) && x.back == ParseTokens(t, Behind(alias.args, tail))
    ensures x.lost == Swallows(t, pre, alias.args, tail)
  {
    BodySplits(t, pre, at, alias, tail);
    var behind := Behind(alias.args, tail);
    x := Split(ParseTokens(t, pre), ParseTokens(t, behind), Swallows(t, pre, alias.args, tail),
               behind[0], ParseTokens(t, behind[1..]));
  }

  /** What holds of the parts whenever `g` can stand on either side. */
  ghost predicate Movable(t: Tables, a: seq<string>, g: seq<string>, at: string, ts: seq<string>) {
    && WellFormed(t) && StartsWithAt(at) && Partition(t, ts).Ok? && g != [] && LoneDashes(t, g) == 0
    && Grouped(t, a, Some(at)) && Grouped(t, a + g, Some(at))
    && Grouped(t, a, First(g)) && Grouped(t, g, First(ts))
    && Partition(t, g + ts) == Ok(Tail(g + Partition(t, ts).value.flags, Partition(t, ts).value.path))
  }

  /** Moving `g` behind the alias changes how far the stored tokens reach only in front of an escaped path. */
  lemma SameReach(t: Tables, a: seq<string>, g: seq<string>, at: string, ts: seq<string>, stored: seq<string>)
    requires Movable(t, a, g, at, ts)
    ensures var tail := Partition(t, ts).value;
            var e, m := Emitted(tail), Emitted(Moved(g, tail));
            if StartsWithDash(PathOrDot(tail.path)) then
              && !IsCount(e[0])
              && ReachOf(t, stored, m[0]) == if ReachOf(t, stored, e[0]) == Escapes then Escapes else Stays
            else m[0] == e[0]
  {
    var tail := Partition(t, ts).value;
    MovedEmitted(t, g, ts);
    FlagsStartWithDash(t, ts);
    if IsCount("--") { CountIsPlain("--"); }
    if StartsWithDash(PathOrDot(tail.path)) {
      ReachMoved(t, stored, Emitted(tail)[0], Emitted(Moved(g, tail))[0]);
    }
  }

  /** With `g` refused, the one body is refused for it, and the other unless a stored part comes first. */
  lemma RefusedMoves(t: Tables, a: seq<string>, g: seq<string>, at: string, ts: seq<string>, alias: SavedAlias,
                     limit: nat)
    requires Movable(t, a, g, at, ts) && ParseTokens(t, a).Parsed? && ParseTokens(t, g).Rejected?
    ensures var tail := Partition(t, ts).value;
            Accept(ParseTokens(t, ExpandedBody(a + g, alias, tail)), limit) ==
            Accept(ParseTokens(t, ExpandedBody(a, alias, Moved(g, tail))), limit) <==>
            SidesAgree(t, a, g, alias.args, ts, limit)
  {
    var tail, stored := Partition(t, ts).value, alias.args;
    var m := Emitted(Moved(g, tail));
    ParseGrouped(t, a, g);
    BodySplits(t, a + g, at, alias, tail);
    var y := BodySplit(t, a, at, alias, Moved(g, tail));
    MovedEmitted(t, g, ts);
    match ReachOf(t, stored, m[0])
    case Stays => StaysReads(t, stored, m);
    case Takes => TakesReads(t, stored, m);
    case Escapes => EscapesReads(t, stored, m);
    hide Partition, ParseTokens, Grouped, LoneDashes, Emitted, ReachOf, Swallows;
    BodyOfSplit(y);
  }

  /** The two bodies, each in two parts: `x` with `g` in front of the alias, `y` with `g` behind it. */
  ghost predicate SplitsOf(t: Tables, a: seq<string>, g: seq<string>, at: string, ts: seq<string>, stored: seq<string>,
                           x: Split, y: Split)
    requires Partition(t, ts).Ok?
  {
    var tail := Partition(t, ts).value;
    && Movable(t, a, g, at, ts) && x.Valid() && y.Valid()
    && ParseTokens(t, a).Parsed? && ParseTokens(t, g).Parsed?
    && x.front == Join(ParseTokens(t, a), ParseTokens(t, g)) && y.front == ParseTokens(t, a)
    && x.back == ParseTokens(t, Behind(stored, tail)) && y.back == ParseTokens(t, Behind(stored, Moved(g, tail)))
  }

  lemma EscapedMoves(t: Tables, a: seq<string>, g: seq<string>, at: string, ts: seq<string>, stored: seq<string>,
                     x: Split, y: Split, limit: nat)
    requires Partition(t, ts).Ok? && SplitsOf(t, a, g, at, ts, stored, x, y)
    requires var tail := Partition(t, ts).value;
             && ReachOf(t, stored, Emitted(tail)[0]) == Escapes
             && ReachOf(t, stored, Emitted(Moved(g, tail))[0]) == Escapes
    ensures ParseTokens(t, stored).Parsed?
    ensures Accept(x.Body(), limit) == Accept(y.Body(), limit) <==>
            |y.front.positionals| + |ParseTokens(t, stored).positionals| + |Emitted(Partition(t, ts).value)| >
            limit + x.Lost()
  {
    var tail := Partition(t, ts).value;
    MovedEmitted(t, g, ts);
    EscapesReads(t, stored, Emitted(tail));
    EscapesReads(t, stored, Emitted(Moved(g, tail)));
    hide Partition, ParseTokens, Grouped, LoneDashes, Emitted, ReachOf;
    BodyOfSplit(x);
    BodyOfSplit(y);
    assert |x.Body().flags| != |y.Body().flags|;
  }

  /** How many words a tail gives to the two re-emitted tails, whose flags are read alike. */
  lemma TailWords(t: Tables, ts: seq<string>)
    requires WellFormed(t) && Partition(t, ts).Ok?
    ensures var e, p := Emitted(Partition(t, ts).value), ParseTokens(t, ts);
            && (ParseTokens(t, e).Rejected? <==> p.Rejected?)
            && (p.Parsed? ==> |ParseTokens(t, e).positionals| == LoneDashes(t, ts) + 1)
            && (Plain(e[0]) ==>
                  && (ParseTokens(t, e[1..]).Rejected? <==> p.Rejected?)
                  && (p.Parsed? ==> |ParseTokens(t, e[1..]).positionals| == LoneDashes(t, ts)))
  {
    hide Partition, ParseTokens, LoneDashes, Emitted;
    EmittedReads(t, ts);
  }

  lemma TakenParts(t: Tables, a: seq<string>, g: seq<string>, at: string, ts: seq<string>, stored: seq<string>)
    requires Movable(t, a, g, at, ts)
    requires ReachOf(t, stored, Emitted(Moved(g, Partition(t, ts).value))[0]) == Takes
    ensures var tail := Partition(t, ts).value;
            var e := Emitted(tail);
            var k, q := With(t, stored, e[0]), ParseTokens(t, e[1..]);
            && Plain(e[0]) && k.Parsed?
            && ParseTokens(t, Behind(stored, tail)) == Join(k, q)
            && ParseTokens(t, Behind(stored, Moved(g, tail))) == Join(k, Join(ParseTokens(t, g), q))
  {
    hide Partition, ParseTokens, Grouped, LoneDashes, Emitted, ReachOf, With;
    var tail := Partition(t, ts).value;
    MovedEmitted(t, g, ts);
    SameReach(t, a, g, at, ts, stored);
    TakesReads(t, stored, Emitted(tail));
    TakesReads(t, stored, Emitted(Moved(g, tail)));
  }

  lemma TakenMoves(t: Tables, a: seq<string>, g: seq<string>, at: string, ts: seq<string>, stored: seq<string>,
                   x: Split, y: Split, limit: nat)
    requires Partition(t, ts).Ok? && SplitsOf(t, a, g, at, ts, stored, x, y)
    requires var tail := Partition(t, ts).value;
             && ReachOf(t, stored, Emitted(Moved(g, tail))[0]) == Takes
    ensures var k := With(t, stored, Emitted(Partition(t, ts).value)[0]);
            var p := ParseTokens(t, ts);
            k.Parsed? &&
            (Accept(x.Body(), limit) == Accept(y.Body(), limit) <==>
             p.Rejected? || Commute(ParseTokens(t, g), k, |y.front.positionals| + LoneDashes(t, ts) + |k.positionals|,
                                    x.lost || y.lost, limit))
  {
    hide Partition, ParseTokens, Grouped, LoneDashes, Emitted, ReachOf, With, Behind;
    hide Accept, Commute, Split.Body, Split.Valid, Join;
    var e := Emitted(Partition(t, ts).value);
    MovedEmitted(t, g, ts);
    TailWords(t, ts);
    TakenParts(t, a, g, at, ts, stored);
    CompareParts(x, y, ParseTokens(t, g), With(t, stored, e[0]), ParseTokens(t, e[1..]), limit);
  }

  lemma StayingParts(t: Tables, g: seq<string>, ts: seq<string>, stored: seq<string>)
    requires WellFormed(t) && Partition(t, ts).Ok? && LoneDashes(t, g) == 0 && g != [] && Grouped(t, g, First(ts))
    requires Partition(t, g + ts) == Ok(Moved(g, Partition(t, ts).value))
    requires ReachOf(t, stored, Emitted(Partition(t, ts).value)[0]) == Stays
    requires ReachOf(t, stored, Emitted(Moved(g, Partition(t, ts).value))[0]) == Stays
    ensures var tail := Partition(t, ts).value;
            var s, q := ParseTokens(t, stored), ParseTokens(t, Emitted(tail));
            && ParseTokens(t, Behind(stored, tail)) == Join(s, q)
            && ParseTokens(t, Behind(stored, Moved(g, tail))) == Join(s, Join(ParseTokens(t, g), q))
  {
    hide Partition, ParseTokens, Grouped, LoneDashes, Emitted, ReachOf;
    var tail := Partition(t, ts).value;
    MovedEmitted(t, g, ts);
    StaysReads(t, stored, Emitted(tail));
    StaysReads(t, stored, Emitted(Moved(g, tail)));
  }

  lemma StayingMoves(t: Tables, a: seq<string>, g: seq<string>, at: string, ts: seq<string>, stored: seq<string>,
                     x: Split, y: Split, limit: nat)
    requires Partition(t, ts).Ok? && SplitsOf(t, a, g, at, ts, stored, x, y)
    requires var tail := Partition(t, ts).value;
             && ReachOf(t, stored, Emitted(tail)[0]) == Stays
             && ReachOf(t, stored, Emitted(Moved(g, tail))[0]) == Stays
    ensures var s, p := ParseTokens(t, stored), ParseTokens(t, ts);
            Accept(x.Body(), limit) == Accept(y.Body(), limit) <==>
            s.Rejected? || p.Rejected? ||
            Commute(ParseTokens(t, g), s, |y.front.positionals| + LoneDashes(t, ts) + |s.positionals| + 1,
                    x.lost || y.lost, limit)
  {
    hide Partition, ParseTokens, Grouped, LoneDashes, Emitted, ReachOf, Behind;
    hide Accept, Commute, Split.Body, Split.Valid, Join;
    MovedEmitted(t, g, ts);
    TailWords(t, ts);
    StayingParts(t, g, ts, stored);
    var e := Emitted(Partition(t, ts).value);
    CompareParts(x, y, ParseTokens(t, g), ParseTokens(t, stored), ParseTokens(t, e), limit);
  }

  /** A stored flag takes a lone dash in front of an escaped path, but not `g`, and is refused for it. */
  lemma DashTakenMoves(t: Tables, a: seq<string>, g: seq<string>, at: string, ts: seq<string>, stored: seq<string>,
                       x: Split, y: Split, limit: nat)
    requires Partition(t, ts).Ok? && SplitsOf(t, a, g, at, ts, stored, x, y)
    requires var tail := Partition(t, ts).value;
             && ReachOf(t, stored, Emitted(tail)[0]) == Takes
             && ReachOf(t, stored, Emitted(Moved(g, tail))[0]) == Stays
    ensures Accept(x.Body(), limit) == Accept(y.Body(), limit) <==> ParseTokens(t, stored) == ParseTokens(t, ts)
  {
    var tail := Partition(t, ts).value;
    var e, m := Emitted(tail), Emitted(Moved(g, tail));
    SameReach(t, a, g, at, ts, stored);
    EmittedReads(t, ts);
    TakesReads(t, stored, e);
    StaysReads(t, stored, m);
    hide Partition, ParseTokens, Grouped, LoneDashes, Emitted, ReachOf, IsCount;
    BodyOfSplit(x);
    BodyOfSplit(y);
  }

  lemma BodiesAgree(t: Tables, a: seq<string>, g: seq<string>, at: string, ts: seq<string>, alias: SavedAlias,
                    limit: nat)
    requires Movable(t, a, g, at, ts)
    ensures var tail := Partition(t, ts).value;
            Accept(ParseTokens(t, ExpandedBody(a + g, alias, tail)), limit) ==
            Accept(ParseTokens(t, ExpandedBody(a, alias, Moved(g, tail))), limit) <==>
            SidesAgree(t, a, g, alias.args, ts, limit)
  {
    var tail, stored := Partition(t, ts).value, alias.args;
    ParseGrouped(t, a, g);
    ParseGrouped(t, a, [at]);
    if ParseTokens(t, a).Rejected? {
      BodySplits(t, a + g, at, alias, tail);
      BodySplits(t, a, at, alias, Moved(g, tail));
    } else if ParseTokens(t, g).Rejected? {
      RefusedMoves(t, a, g, at, ts, alias, limit);
    } else {
      var x := BodySplit(t, a + g, at, alias, tail);
      var y := BodySplit(t, a, at, alias, Moved(g, tail));
      SwallowSides(t, a, g, stored, ts);
      assert |y.front.positionals| == LoneDashes(t, a);
      assert SidesAgree(t, a, g, stored, ts, limit) <==> AcceptedAgree(t, a, g, stored, ts, limit);
      assert SplitsOf(t, a, g, at, ts, stored, x, y);
      hide *;
      SplitsAgree(t, a, g, at, ts, stored, x, y, limit);
    }
  }

  lemma SplitsAgree(t: Tables, a: seq<string>, g: seq<string>, at: string, ts: seq<string>, stored: seq<string>,
                    x: Split, y: Split, limit: nat)
    requires Partition(t, ts).Ok? && SplitsOf(t, a, g, at, ts, stored, x, y)
    requires ParseTokens(t, g).Parsed? && y.front.Parsed? && |y.front.positionals| == LoneDashes(t, a)
    requires x.lost == Swallows(t, g, stored, Partition(t, ts).value)
    requires CountAtStake(t, a, g, stored, Partition(t, ts).value) <==> x.lost || y.lost
    ensures Accept(x.Body(), limit) == Accept(y.Body(), limit) <==> AcceptedAgree(t, a, g, stored, ts, limit)
  {
    hide Partition, ParseTokens, Grouped, LoneDashes, Emitted, ReachOf, Swallows, CountAtStake, Commute, Behind, With;
    hide SplitsOf, Accept, Split.Body, Join;
    var tail := Partition(t, ts).value;
    ReachesAgree(t, a, g, at, ts, stored, x, y);
    match ReachOf(t, stored, Emitted(Moved(g, tail))[0])
    case Escapes => EscapedMoves(t, a, g, at, ts, stored, x, y, limit);
    case Takes => TakenMoves(t, a, g, at, ts, stored, x, y, limit);
    case Stays =>
      if ReachOf(t, stored, Emitted(tail)[0]) == Takes {
        DashTakenMoves(t, a, g, at, ts, stored, x, y, limit);
      } else {
        StayingMoves(t, a, g, at, ts, stored, x, y, limit);
      }
  }

  lemma ReachesAgree(t: Tables, a: seq<string>, g: seq<string>, at: string, ts: seq<string>, stored: seq<string>,
                     x: Split, y: Split)
    requires Partition(t, ts).Ok? && SplitsOf(t, a, g, at, ts, stored, x, y)
    ensures var tail := Partition(t, ts).value;
            var front, behind := ReachOf(t, stored, Emitted(tail)[0]), ReachOf(t, stored, Emitted(Moved(g, tail))[0]);
            (front == Escapes <==> behind == Escapes) && (behind == Takes ==> front == Takes)
  {
    SameReach(t, a, g, at, ts, stored);
  }

  // ---------------------------------------------------------------------
  // The law
  // ---------------------------------------------------------------------

  /**
   A flag and the side of the alias it is typed on: with `g` moved from in front
   of `@name` to behind it, the run asks for the same thing and keeps or drops
   the command word alike, for any stored words; and the two expansions, for a
   command of any number of words and any stored tokens, come to the same
   reading if and only if `SidesAgree` holds.  `g` holds whole groups, no lone
   `-`, and no open optional value that a count at the front of the tail would
   fill.
   */
  lemma SideOfAliasIrrelevant(t: Tables, s: Surface, prog: string, a: seq<string>, g: seq<string>, at: string,
                              ts: seq<string>, alias: SavedAlias, limit: nat)
    requires WellFormed(t) && StartsWithAt(at) && Partition(t, ts).Ok?
    requires Grouped(t, a, Some(at)) && Grouped(t, g, Some(at)) && LoneDashes(t, g) == 0
    requires !(OpenEnded(t, g) && ts != [] && IsCount(ts[0]))
    ensures var before := [prog] + (a + g) + [at] + ts;
            var behind := [prog] + a + [at] + (g + ts);
            var tail := Partition(t, ts).value;
            var moved := Moved(g, tail);
            && Scan(t, before) == Ok(AliasScan(Some(1 + |a| + |g|), tail.path, tail.flags, None))
            && Scan(t, behind) == Ok(AliasScan(Some(1 + |a|), moved.path, moved.flags, None))
            && Direct(t, a + g, alias.args, ts) == Direct(t, a, alias.args, g + ts)
            && CommandWord(t, s, alias, a + g, tail.flags) == CommandWord(t, s, alias, a, moved.flags)
            && (Accept(ParseTokens(t, ExpandedBody(a + g, alias, tail)), limit) ==
                Accept(ParseTokens(t, ExpandedBody(a, alias, moved)), limit) <==>
                SidesAgree(t, a, g, alias.args, ts, limit))
  {
    hide *;
    MovedIs(g, Partition(t, ts).value);
    RunsMeet(t, a, g, at, ts);
    RunBehind(t, g, ts);
    ScanOfRun(t, prog, a + g, at, ts);
    ScanOfRun(t, prog, a, at, g + ts);
    DirectMoves(t, a, g, ts, alias.args);
    CommandWordMoves(t, s, a, g, Partition(t, ts).value.flags, alias);
    if g == [] {
      NothingMoves(t, a, g, alias, ts, limit);
    } else {
      MovableIs(t, a, g, at, ts);
      BodiesAgree(t, a, g, at, ts, alias, limit);
    }
  }

  lemma MovedIs(g: seq<string>, tail: Tail)
    ensures Moved(g, tail) == Tail(g + tail.flags, tail.path)
  {
  }

  lemma NothingMoves(t: Tables, a: seq<string>, g: seq<string>, alias: SavedAlias, ts: seq<string>, limit: nat)
    requires g == [] && Partition(t, ts).Ok?
    ensures a + g == a && Moved(g, Partition(t, ts).value) == Partition(t, ts).value
    ensures SidesAgree(t, a, g, alias.args, ts, limit)
  {
    assert g + Partition(t, ts).value.flags == Partition(t, ts).value.flags;
  }

  lemma MovableIs(t: Tables, a: seq<string>, g: seq<string>, at: string, ts: seq<string>)
    requires WellFormed(t) && StartsWithAt(at) && Partition(t, ts).Ok?
    requires Grouped(t, a, Some(at)) && Grouped(t, g, Some(at)) && LoneDashes(t, g) == 0
    requires !(OpenEnded(t, g) && ts != [] && IsCount(ts[0]))
    ensures g != [] ==> Movable(t, a, g, at, ts)
  {
    hide Partition, Grouped, OpenEnded, IsCount, LoneDashes;
    RunsMeet(t, a, g, at, ts);
    RunBehind(t, g, ts);
  }

  /** Where no stored flag is in play, the two come to the same unless a count is at stake. */
  lemma PlainSides(t: Tables, a: seq<string>, g: seq<string>, stored: seq<string>, ts: seq<string>)
    requires Partition(t, ts).Ok? && forall w :: w in stored ==> Plain(w)
    ensures SidesAgree(t, a, g, stored, ts, |stored| + 1) <==>
            || g == [] || ParseTokens(t, a).Rejected? || ParseTokens(t, g).Rejected? || ParseTokens(t, ts).Rejected?
            || !CountAtStake(t, a, g, stored, Partition(t, ts).value)
            || LoneDashes(t, a) + LoneDashes(t, ts) >= 2
  {
    var tail := Partition(t, ts).value;
    PlainWordsStay(t, stored, Emitted(tail)[0]);
    PlainWordsStay(t, stored, Emitted(Moved(g, tail))[0]);
    hide ReachOf, ParseTokens, Partition, LoneDashes, CountAtStake, Emitted;
    var gs := ParseTokens(t, g);
    if gs.Parsed? { assert gs.flags + [] == [] + gs.flags; }
  }

  /** A short flag that takes no value reads as itself. */
  lemma PlainShort(t: Tables, x: char)
    requires x != '-' && x != '=' && ['-', x] !in t.valued && ['-', x] !in t.optional
    ensures ParseTokens(t, [['-', x]]) == Parsed([Flag(['-', x], None)], [])
    ensures Read(t, ['-', x]) == Whole([Flag(['-', x], None)])
  {
    var tok := ['-', x];
    assert tok[1..] == [x] && [x][1..] == "" && ReadShorts(t, "") == Whole([]);
    assert Read(t, tok) == Whole([Flag(tok, None)]);
    var rest: seq<string> := [tok][1..];
    assert rest == [];
  }

  /**
   `sqry -p -j @five` and `sqry @five` with `-j` behind it, the stored pattern
   being `5`: the one searches for `5`, the other for `.` with five lines of preview.
   */
  lemma CountTakesSides(t: Tables, alias: SavedAlias)
    requires LikeSqry(t) && alias.args == ["5"]
    ensures Partition(t, []) == Ok(Tail([], None))
    ensures Accept(ParseTokens(t, ExpandedBody(["-p"] + ["-j"], alias, Tail([], None))), 2) ==
            Run([Flag("-p", None), Flag("-j", None)], ["5", "."])
    ensures Accept(ParseTokens(t, ExpandedBody(["-p"], alias, Moved(["-j"], Tail([], None)))), 2) ==
            Run([Flag("-p", Some("5")), Flag("-j", None)], ["."])
  {
    FiveIsCount();
    PreviewReads(t);
    assert ['-', 'j'] == "-j";
    hide LikeSqry;
    PlainShort(t, 'j');
    if IsCount("-j") { CountIsPlain("-j"); }
    hide Read, IsCount;
    var before, behind := ["-p", "-j", "5", "."], ["-p", "5", ".", "-j"];
    assert before[1..] == ["-j", "5", "."] && before[1..][1..] == ["5", "."] && before[1..][1..][1..] == ["."];
    assert behind[2..] == [".", "-j"] && behind[2..][1..] == ["-j"];
    assert ParseTokens(t, ["."]) == Parsed([], ["."]) by { assert ["."][1..] == []; }
    assert ParseTokens(t, before) == Parsed([Flag("-p", None), Flag("-j", None)], ["5", "."]);
    assert ParseTokens(t, behind) == Parsed([Flag("-p", Some("5")), Flag("-j", None)], ["."]);
    assert ExpandedBody(["-p"] + ["-j"], alias, Tail([], None)) == before;
    assert ExpandedBody(["-p"], alias, Moved(["-j"], Tail([], None))) == behind;
  }

  /** `sqry -j @x` and `sqry @x -j` with the stored pattern `--`: the one has a flag `-j`, the other a word. */
  lemma EscapeTakesSides(t: Tables, alias: SavedAlias)
    requires LikeSqry(t) && alias.args == ["--"]
    ensures Partition(t, []) == Ok(Tail([], None))
    ensures Accept(ParseTokens(t, ExpandedBody(["-j"], alias, Tail([], None))), 2) == Run([Flag("-j", None)], ["."])
    ensures Accept(ParseTokens(t, ExpandedBody([], alias, Moved(["-j"], Tail([], None)))), 2) == Run([], [".", "-j"])
  {
    PlainShort(t, 'j');
    assert ['-', 'j'] == "-j";
    hide Read, LikeSqry;
    var before, behind := ["-j", "--", "."], ["--", ".", "-j"];
    assert before[1..] == ["--", "."] && before[1..][1..] == ["."] && behind[1..] == [".", "-j"];
    assert ExpandedBody(["-j"], alias, Tail([], None)) == before;
    assert ExpandedBody([], alias, Moved(["-j"], Tail([], None))) == behind;
  }
}
