/**
 What the expansion means when the stored arguments are command-line tokens of
 their own, flags among them, as an imported alias may hold them.
 */
module AliasTokens {
  import opened Wrappers
  import opened CommandLine
  import opened AliasRewriter
  import opened AliasMeaning
  import opened AliasPattern

  // ---------------------------------------------------------------------
  // How far stored tokens reach
  // ---------------------------------------------------------------------

  /**
   How stored tokens stand to the token `next` behind them: they stay among
   themselves, their last flag takes it as its value, or a stored `--` makes
   words of everything behind it.
   */
  datatype Reach = Stays | Takes | Escapes

  function ReachOf(t: Tables, ts: seq<string>, next: string): Reach
    decreases |ts|
  {
    if ts == [] then Stays
    else if ts[0] == "--" then Escapes
    else if Plain(ts[0]) then ReachOf(t, ts[1..], next)
    else
      var first := if |ts| > 1 then ts[1] else next;
      if RefusedPattern(t, ts[0], first).Some? then Stays
      else if TakesFirst(t, ts[0], first) then if |ts| > 1 then ReachOf(t, ts[2..], next) else Takes
      else ReachOf(t, ts[1..], next)
  }

  /** One token at the front: a word, or a flag with what it takes. */
  lemma FrontReads(t: Tables, ts: seq<string>)
    requires ts != [] && ts[0] != "--"
    ensures Plain(ts[0]) ==> ParseTokens(t, ts) == Join(Parsed([], [ts[0]]), ParseTokens(t, ts[1..]))
    ensures !Plain(ts[0]) && |ts| > 1 ==>
              match RefusedPattern(t, ts[0], ts[1])
              case Some(name) => ParseTokens(t, ts) == Rejected(name)
              case None =>
                ParseTokens(t, ts) == Join(Parsed(Added(t, ts[0], ts[1]), []),
                                           ParseTokens(t, ts[if TakesFirst(t, ts[0], ts[1]) then 2 else 1..]))
    ensures !Plain(ts[0]) && |ts| == 1 ==>
              match Read(t, ts[0])
              case Whole(fs) => ParseTokens(t, ts) == Parsed(fs, [])
              case MayTake(fs, name) => ParseTokens(t, ts) == Parsed(fs + [Flag(name, None)], [])
              case Needs(_, name) => ParseTokens(t, ts) == Rejected(name)
              case Unknown(name) => ParseTokens(t, ts) == Rejected(name)
  {
    if |ts| == 1 {
      assert ts[1..] == [];
      hide Read;
      if LooksLikeFlag(ts[0]) && !Read(t, ts[0]).Unknown? {
        var r := Read(t, ts[0]);
        var fs := if r.Whole? then r.flags else r.before + [Flag(r.name, None)];
        JoinUnit(Parsed(fs, []));
      }
    } else if LooksLikeFlag(ts[0]) && IsCount(ts[1]) {
      CountIsPlain(ts[1]);
    }
  }

  /** Tokens that stay among themselves read alone as they read in front of anything starting with `next`. */
  lemma {:induction false} StaysReads(t: Tables, ts: seq<string>, rest: seq<string>)
    requires rest != [] && ReachOf(t, ts, rest[0]) == Stays
    ensures ParseTokens(t, ts + rest) == Join(ParseTokens(t, ts), ParseTokens(t, rest))
    decreases |ts|
  {
    var all := ts + rest;
    if ts == [] {
      assert all == rest;
      JoinUnit(ParseTokens(t, rest));
    } else {
      var first := if |ts| > 1 then ts[1] else rest[0];
      FrontReads(t, ts);
      FrontReads(t, all);
      assert all[0] == ts[0] && all[1] == first && all[1..] == ts[1..] + rest;
      hide ParseTokens;
      if Plain(ts[0]) {
        StaysReads(t, ts[1..], rest);
        JoinAssociative(Parsed([], [ts[0]]), ParseTokens(t, ts[1..]), ParseTokens(t, rest));
      } else if RefusedPattern(t, ts[0], first).None? {
        var n := if TakesFirst(t, ts[0], first) then 2 else 1;
        if |ts| > 1 {
          assert all[n..] == ts[n..] + rest;
          StaysReads(t, ts[n..], rest);
          JoinAssociative(Parsed(Added(t, ts[0], first), []), ParseTokens(t, ts[n..]), ParseTokens(t, rest));
        } else {
          assert ts[1..] + rest == rest;
        }
      }
    }
  }

  /** Behind a stored `--` everything is a word. */
  lemma {:induction false} EscapesReads(t: Tables, ts: seq<string>, rest: seq<string>)
    requires rest != [] && ReachOf(t, ts, rest[0]) == Escapes
    ensures var alone := ParseTokens(t, ts);
            alone.Parsed? && ParseTokens(t, ts + rest) == Parsed(alone.flags, alone.positionals + rest)
    decreases |ts|
  {
    var all := ts + rest;
    assert all[0] == ts[0] && all[1..] == ts[1..] + rest;
    if ts[0] != "--" {
      assert |ts| > 1;
      FrontReads(t, ts);
      FrontReads(t, all);
      assert all[1] == ts[1];
      hide ParseTokens, Read, TakesFirst, RefusedPattern, Join;
      var n := if LooksLikeFlag(ts[0]) && TakesFirst(t, ts[0], ts[1]) then 2 else 1;
      assert all[n..] == ts[n..] + rest;
      EscapesReads(t, ts[n..], rest);
      var front := if Plain(ts[0]) then Parsed([], [ts[0]]) else Parsed(Added(t, ts[0], ts[1]), []);
      MoreWordsBehind(front, ParseTokens(t, ts[n..]), rest);
    }
  }

  lemma MoreWordsBehind(front: Parse, back: Parse, rest: seq<string>)
    requires front.Parsed? && back.Parsed?
    ensures Join(front, back).Parsed?
    ensures Join(front, Parsed(back.flags, back.positionals + rest)) ==
            Parsed(Join(front, back).flags, Join(front, back).positionals + rest)
  {
    assert front.positionals + (back.positionals + rest) == front.positionals + back.positionals + rest;
  }

  /** What stored tokens that reach for the token behind them come to with it. */
  function With(t: Tables, ts: seq<string>, next: string): Parse {
    ParseTokens(t, ts + [next])
  }

  /** What `alone` lacks of `taken`: the value of its last flag, or being accepted. */
  predicate LacksValue(alone: Parse, taken: Parse, next: string) {
    taken.Parsed? && taken.flags != [] &&
    (alone.Parsed? ==>
      IsCount(next) && alone.positionals == taken.positionals && |alone.flags| == |taken.flags| &&
      alone.flags[|alone.flags| - 1].value.None? && taken.flags[|taken.flags| - 1].value.Some?)
  }

  lemma LacksValueBehind(front: Parse, alone: Parse, taken: Parse, next: string)
    requires front.Parsed? && LacksValue(alone, taken, next)
    ensures LacksValue(Join(front, alone), Join(front, taken), next)
  {
  }

  /** One flag that takes the token behind it. */
  lemma FlagTakes(t: Tables, w: string, rest: seq<string>)
    requires rest != [] && LooksLikeFlag(w) && w != "--" && TakesFirst(t, w, rest[0])
    ensures Plain(rest[0])
    ensures ParseTokens(t, [w] + rest) == Join(With(t, [w], rest[0]), ParseTokens(t, rest[1..]))
    ensures LacksValue(ParseTokens(t, [w]), With(t, [w], rest[0]), rest[0])
  {
    var all, some := [w] + rest, [w] + [rest[0]];
    FrontReads(t, [w]);
    FrontReads(t, all);
    FrontReads(t, some);
    if IsCount(rest[0]) { CountIsPlain(rest[0]); }
    assert all[2..] == rest[1..];
    assert ParseTokens(t, some[2..]) == Parsed([], []);
    hide ParseTokens, IsCount;
    JoinUnit(Parsed(Added(t, w, rest[0]), []));
  }

  /**
   Tokens that take the token behind them read with it as they read with it in
   front of anything; without it their last flag is refused, or has no value.
   */
  lemma {:induction false} TakesReads(t: Tables, ts: seq<string>, rest: seq<string>)
    requires rest != [] && ReachOf(t, ts, rest[0]) == Takes
    ensures Plain(rest[0])
    ensures ParseTokens(t, ts + rest) == Join(With(t, ts, rest[0]), ParseTokens(t, rest[1..]))
    ensures LacksValue(ParseTokens(t, ts), With(t, ts, rest[0]), rest[0])
    decreases |ts|
  {
    if |ts| == 1 && LooksLikeFlag(ts[0]) {
      assert ts == [ts[0]];
      assert TakesFirst(t, ts[0], rest[0]) by { OneReach(t, ts[0], rest[0]); }
      hide *;
      FlagTakes(t, ts[0], rest);
    } else {
      var all, some := ts + rest, ts + [rest[0]];
      FrontReads(t, ts);
      FrontReads(t, all);
      FrontReads(t, some);
      var n := if LooksLikeFlag(ts[0]) && TakesFirst(t, ts[0], ts[1]) then 2 else 1;
      assert all[n..] == ts[n..] + rest && some[n..] == ts[n..] + [rest[0]];
      TakesReads(t, ts[n..], rest);
      hide ParseTokens, LacksValue;
      var front := if Plain(ts[0]) then Parsed([], [ts[0]]) else Parsed(Added(t, ts[0], ts[1]), []);
      JoinAssociative(front, With(t, ts[n..], rest[0]), ParseTokens(t, rest[1..]));
      LacksValueBehind(front, ParseTokens(t, ts[n..]), With(t, ts[n..], rest[0]), rest[0]);
    }
  }

  lemma OneReach(t: Tables, w: string, next: string)
    requires LooksLikeFlag(w) && ReachOf(t, [w], next) == Takes
    ensures w != "--" && TakesFirst(t, w, next)
  {
    assert [w][1..] == [];
  }

  // ---------------------------------------------------------------------
  // The body
  // ---------------------------------------------------------------------

  /** Everything behind the flags in front: the stored tokens, the path and the trailing flags. */
  function Behind(stored: seq<string>, tail: Tail): (b: seq<string>)
    ensures b != []
  {
    stored + Emitted(tail)
  }

  /**
   The body in two parts: the flags in front, whose last may take a count at the
   start of what is behind them, and the rest.
   */
  lemma BodySplits(t: Tables, pre: seq<string>, was: string, alias: SavedAlias, tail: Tail)
    requires WellFormed(t) && Grouped(t, pre, Some(was)) && was != "--"
    ensures var body, behind := ParseTokens(t, ExpandedBody(pre, alias, tail)), Behind(alias.args, tail);
            var front, back := ParseTokens(t, pre), ParseTokens(t, behind);
            if Swallows(t, pre, alias.args, tail) then
              && body == Join(TakeLast(front, behind[0]), ParseTokens(t, behind[1..]))
              && back == Join(Parsed([], [behind[0]]), ParseTokens(t, behind[1..]))
              && (front.Parsed? ==> front.flags != [] && front.flags[|front.flags| - 1].value == None)
            else body == Join(front, back)
  {
    var behind := Behind(alias.args, tail);
    assert ExpandedBody(pre, alias, tail) == pre + behind;
    assert behind[0] == FirstAfterFlags(alias.args, tail);
    if Swallows(t, pre, alias.args, tail) {
      CountIsPlain(behind[0]);
      hide ParseTokens, Grouped, OpenEnded, IsCount;
      BodySwallows(t, pre, was, behind);
      FrontReads(t, behind);
    } else {
      hide ParseTokens, Grouped, OpenEnded, IsCount;
      GroupedRetarget(t, pre, was, behind[0]);
      ParseGrouped(t, pre, behind);
    }
  }

  /** The re-emitted tail reads as the path and the flags. */
  lemma EmittedReads(t: Tables, ts: seq<string>)
    requires WellFormed(t) && Partition(t, ts).Ok?
    ensures var tail, p := Partition(t, ts).value, ParseTokens(t, ts);
            var e, d := Emitted(tail), LoneDashes(t, ts);
            && ParseTokens(t, tail.flags) == (if p.Rejected? then p else Parsed(p.flags, Dashes(d)))
            && SameFlags(ParseTokens(t, e), ParseTokens(t, tail.flags), 1)
            && (Plain(e[0]) ==> SameFlags(ParseTokens(t, e[1..]), ParseTokens(t, tail.flags), 0))
            && (p.Parsed? && d == 0 ==> ParseTokens(t, e) == Parsed(p.flags, [PathOrDot(tail.path)]))
            && (p.Parsed? ==> |p.positionals| == d + |OptionSeq(tail.path)|)
            && (p.Parsed? && d == 0 ==> WithDefaultPath(p).positionals == [PathOrDot(tail.path)])
  {
    PartitionReads(t, ts);
    EmitTailSameFlags(t, ts);
    EmitTailReads(t, ts);
    var e := Emitted(Partition(t, ts).value);
    if e[0] != "--" { FrontReads(t, e); }
    hide Partition, ParseTokens, LoneDashes;
    var rest := ParseTokens(t, e[1..]);
    if rest.Parsed? { assert [] + rest.flags == rest.flags; }
    var p := ParseTokens(t, ts);
    if p.Parsed? { assert [] + p.flags == p.flags && p.flags + [] == p.flags && Dashes(0) == []; }
  }

  // ---------------------------------------------------------------------
  // The law for stored tokens
  // ---------------------------------------------------------------------

  /** What a run of stored tokens asks for: the three parts, each read on its own. */
  function DirectTokens(t: Tables, pre: seq<string>, stored: seq<string>, ts: seq<string>): Parse {
    Join(ParseTokens(t, pre), Join(ParseTokens(t, stored), WithDefaultPath(ParseTokens(t, ts))))
  }

  /** The words a command takes: those stored, and one path. */
  function WordLimit(stored: Parse): nat {
    match stored
    case Parsed(_, words) => |words| + 1
    case Rejected(_) => 1
  }

  /** When the expansion comes to what is asked for. */
  predicate TokensAgree(t: Tables, pre: seq<string>, stored: seq<string>, ts: seq<string>)
    requires Partition(t, ts).Ok?
  {
    var tail, s, p := Partition(t, ts).value, ParseTokens(t, stored), ParseTokens(t, ts);
    var dashes := LoneDashes(t, pre) + LoneDashes(t, ts);
    var lost := if Swallows(t, pre, stored, tail) then 1 else 0;
    ParseTokens(t, pre).Rejected? ||
    match ReachOf(t, stored, Emitted(tail)[0])
    case Stays =>
      s.Rejected? || p.Rejected? || dashes >= 2 ||
      (lost == 0 && !(LoneDashes(t, ts) == 1 && tail.path == None))
    case Escapes =>
      p.Parsed? &&
      ((lost == 0 && tail.flags == [] && !StartsWithDash(PathOrDot(tail.path))) ||
       (LoneDashes(t, pre) + |Emitted(tail)| - lost > 1 && (LoneDashes(t, pre) > 0 || |p.positionals| > 1)))
    case Takes =>
      if s.Rejected? then p == s else p.Rejected? || dashes >= 2 + lost
  }

  /** Two readings behind `before` words come to the same, where the first may lose a word to the flags in front. */
  predicate BackAgrees(back: Parse, direct: Parse, before: nat, lost: nat, limit: nat) {
    match (back, direct)
    case (Rejected(x), Rejected(y)) => x == y
    case (Parsed(_, words), Parsed(_, wanted)) =>
      || (before + |words| > limit + lost && before + |wanted| > limit)
      || (lost == 0 && before + |words| <= limit && back == direct)
    case _ => false
  }

  lemma AcceptSplit(front: Parse, back: Parse, direct: Parse, limit: nat, body: Parse, lost: nat, less: Parse,
                    first: string)
    requires front.Parsed? && lost <= 1
    requires lost == 0 ==> body == Join(front, back)
    requires lost == 1 ==>
               && body == Join(TakeLast(front, first), less) && back == Join(Parsed([], [first]), less)
               && front.flags != [] && front.flags[|front.flags| - 1].value == None
    ensures Accept(body, limit) == Accept(Join(front, direct), limit) <==>
            BackAgrees(back, direct, |front.positionals|, lost, limit)
  {
    if back.Parsed? && direct.Parsed? {
      var want := Join(front, direct);
      if lost == 1 {
        var last := |front.flags| - 1;
        assert body.flags[last].value == Some(first);
        assert want.flags[last] == front.flags[last];
      } else {
        var n, k := |front.flags|, |front.positionals|;
        assert body.flags[n..] == back.flags && want.flags[n..] == direct.flags;
        assert body.positionals[k..] == back.positionals && want.positionals[k..] == direct.positionals;
      }
    }
  }

  /** What is asked for behind the flags in front. */
  function Asked(s: Parse, p: Parse): Parse { Join(s, WithDefaultPath(p)) }

  lemma BackStays(t: Tables, stored: seq<string>, ts: seq<string>, before: nat, lost: nat)
    requires WellFormed(t) && Partition(t, ts).Ok? && lost <= 1
    requires ReachOf(t, stored, Emitted(Partition(t, ts).value)[0]) == Stays
    ensures var tail, s, p := Partition(t, ts).value, ParseTokens(t, stored), ParseTokens(t, ts);
            BackAgrees(ParseTokens(t, Behind(stored, tail)), Asked(s, p), before, lost, WordLimit(s)) <==>
            s.Rejected? || p.Rejected? || before + LoneDashes(t, ts) >= 2 ||
            (lost == 0 && !(LoneDashes(t, ts) == 1 && tail.path == None))
  {
    var tail, s, p := Partition(t, ts).value, ParseTokens(t, stored), ParseTokens(t, ts);
    EmittedReads(t, ts);
    StaysReads(t, stored, Emitted(tail));
    hide Partition, ParseTokens, LoneDashes, ReachOf, Emitted;
  }

  lemma BackEscapes(t: Tables, stored: seq<string>, ts: seq<string>, before: nat, lost: nat)
    requires WellFormed(t) && Partition(t, ts).Ok? && lost <= 1
    requires ReachOf(t, stored, Emitted(Partition(t, ts).value)[0]) == Escapes
    ensures var tail, s, p := Partition(t, ts).value, ParseTokens(t, stored), ParseTokens(t, ts);
            BackAgrees(ParseTokens(t, Behind(stored, tail)), Asked(s, p), before, lost, WordLimit(s)) <==>
            p.Parsed? &&
            ((lost == 0 && tail.flags == [] && !StartsWithDash(PathOrDot(tail.path))) ||
             (before + |Emitted(tail)| > 1 + lost && (before > 0 || |p.positionals| > 1)))
  {
    var tail, s, p := Partition(t, ts).value, ParseTokens(t, stored), ParseTokens(t, ts);
    var e := Emitted(tail);
    EmittedReads(t, ts);
    EscapesReads(t, stored, e);
    if p.Parsed? && tail.flags != [] && LoneDashes(t, ts) == 0 {
      TailReadsSomething(t, ts);
    }
    EmittedShape(tail);
    hide Partition, ParseTokens, LoneDashes, ReachOf, Emitted;
    if p.Parsed? {
      var n := |s.positionals|;
      var wanted := WithDefaultPath(p).positionals;
      assert (s.positionals + e)[n..] == e && (s.positionals + wanted)[n..] == wanted;
      assert (s.flags + p.flags)[|s.flags|..] == p.flags;
    }
  }

  lemma EmittedShape(tail: Tail)
    ensures var e, path := Emitted(tail), PathOrDot(tail.path);
            |e| == |tail.flags| + (if StartsWithDash(path) then 2 else 1) &&
            (tail.flags == [] ==> e == if StartsWithDash(path) then ["--", path] else [path])
  {
  }

  /** Trailing flags without a lone dash are read as something. */
  lemma TailReadsSomething(t: Tables, ts: seq<string>)
    requires WellFormed(t) && Partition(t, ts).Ok? && ParseTokens(t, ts).Parsed?
    requires Partition(t, ts).value.flags != [] && LoneDashes(t, ts) == 0
    ensures ParseTokens(t, ts).flags != []
  {
    var flags := Partition(t, ts).value.flags;
    PartitionReads(t, ts);
    PartitionFlagsGrouped(t, ts);
    ParseGrouped(t, flags, []);
    assert |Dashes(LoneDashes(t, flags))| == 0;
    RunReadsSomething(t, flags, None);
  }

  lemma BackTakes(t: Tables, stored: seq<string>, ts: seq<string>, before: nat, lost: nat)
    requires WellFormed(t) && Partition(t, ts).Ok? && lost <= 1
    requires ReachOf(t, stored, Emitted(Partition(t, ts).value)[0]) == Takes
    ensures var tail, s, p := Partition(t, ts).value, ParseTokens(t, stored), ParseTokens(t, ts);
            BackAgrees(ParseTokens(t, Behind(stored, tail)), Asked(s, p), before, lost, WordLimit(s)) <==>
            if s.Rejected? then p == s else p.Rejected? || before + LoneDashes(t, ts) >= 2 + lost
  {
    var tail, s, p := Partition(t, ts).value, ParseTokens(t, stored), ParseTokens(t, ts);
    var e := Emitted(tail);
    EmittedReads(t, ts);
    TakesReads(t, stored, e);
    if IsCount(e[0]) { CountInFront(t, ts); }
    hide Partition, ParseTokens, LoneDashes, ReachOf, Emitted;
    if s.Parsed? && p.Parsed? {
      var taken := With(t, stored, e[0]);
      var back := ParseTokens(t, Behind(stored, tail));
      var last := |s.flags| - 1;
      assert back.flags[last] == taken.flags[last];
      assert Asked(s, p).flags[last] == s.flags[last];
    }
  }

  /** A count at the front of the re-emitted tail is a path that was given. */
  lemma CountInFront(t: Tables, ts: seq<string>)
    requires Partition(t, ts).Ok? && IsCount(Emitted(Partition(t, ts).value)[0])
    ensures Partition(t, ts).value.path.Some?
  {
    SwallowedPath(t, ts);
    assert !IsCount(".");
  }

  /**
   For every argv whose flags in front of the alias form a run, every
   unambiguous tail and every list of stored tokens, the expanded argv is read
   as the flags in front, the stored tokens and the tail, each read on its own,
   if and only if `TokensAgree` holds: the first stored token is not swallowed,
   the last stored flag does not reach the path, no `--` is stored in front of
   what it would change, and no lone `-` was the path.
   */
  lemma TokensMeaning(t: Tables, pre: seq<string>, was: string, alias: SavedAlias, ts: seq<string>)
    requires WellFormed(t) && Partition(t, ts).Ok?
    requires Grouped(t, pre, Some(was)) && was != "--"
    ensures var body := ParseTokens(t, ExpandedBody(pre, alias, Partition(t, ts).value));
            var limit := WordLimit(ParseTokens(t, alias.args));
            Accept(body, limit) == Accept(DirectTokens(t, pre, alias.args, ts), limit) <==>
            TokensAgree(t, pre, alias.args, ts)
  {
    var tail, stored := Partition(t, ts).value, alias.args;
    var front, s, p := ParseTokens(t, pre), ParseTokens(t, stored), ParseTokens(t, ts);
    BodySplits(t, pre, was, alias, tail);
    ParseGrouped(t, pre, [was]);
    var behind := Behind(stored, tail);
    var lost := if Swallows(t, pre, stored, tail) then 1 else 0;
    var before := LoneDashes(t, pre);
    hide Partition, ParseTokens, LoneDashes, Swallows, Emitted, Grouped;
    if front.Parsed? {
      AcceptSplit(front, ParseTokens(t, behind), Asked(s, p), WordLimit(s),
                  ParseTokens(t, ExpandedBody(pre, alias, tail)), lost, ParseTokens(t, behind[1..]), behind[0]);
      match ReachOf(t, stored, Emitted(tail)[0])
      case Stays => BackStays(t, stored, ts, before, lost);
      case Escapes => BackEscapes(t, stored, ts, before, lost);
      case Takes => BackTakes(t, stored, ts, before, lost);
    }
  }

  /** Stored words that do not look like flags stay among themselves, and ask for themselves. */
  lemma {:induction false} PlainWordsStay(t: Tables, stored: seq<string>, next: string)
    requires forall w :: w in stored ==> Plain(w)
    ensures ReachOf(t, stored, next) == Stays && ParseTokens(t, stored) == Parsed([], stored)
  {
    ParsePlainWords(t, stored, []);
    assert ParseTokens(t, []) == Parsed([], []) && stored + [] == stored;
    hide ParseTokens;
    if stored != [] {
      assert stored[0] in stored && forall w :: w in stored[1..] ==> w in stored;
      PlainWordsStay(t, stored[1..], next);
    }
  }
}
