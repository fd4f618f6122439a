/**
 What the expansion means when the stored pattern itself looks like a flag, and
 the main result of AliasMeaning for every pattern an alias can be saved with.
 */
module AliasPattern {
  import opened Wrappers
  import opened CommandLine
  import opened AliasRewriter
  import opened AliasMeaning

  /** What is saved: one pattern, whatever it is; or words that do not look like flags. */
  predicate Storable(stored: seq<string>) {
    |stored| == 1 || forall w :: w in stored ==> Plain(w)
  }

  /** The path and flags re-emitted behind the stored words. */
  function Emitted(tail: Tail): (e: seq<string>)
    ensures e != []
  {
    EmitTail(tail.flags, PathOrDot(tail.path))
  }

  /** The pattern, read as a flag, takes the token behind it as its value. */
  predicate TakesFirst(t: Tables, w: string, first: string)
    requires LooksLikeFlag(w)
  {
    match Read(t, w)
    case Needs(_, _) => Plain(first)
    case MayTake(_, _) => IsCount(first)
    case _ => false
  }

  /** The flag a pattern is refused for in front of `first`. */
  function RefusedPattern(t: Tables, w: string, first: string): Option<string>
    requires LooksLikeFlag(w)
  {
    match Read(t, w)
    case Needs(_, name) => if Plain(first) then None else Some(name)
    case Unknown(name) => Some(name)
    case _ => None
  }

  /**
   When the expansion of a pattern that looks like a flag still comes to the
   direct run, with the flags in front accepted.  A pattern `--` is a word only
   in front of another `--`; any other pattern is read as a flag, so the two
   only agree where both are refused for the same flag or have too many words.
   */
  predicate PatternAgrees(t: Tables, pre: seq<string>, w: string, ts: seq<string>)
    requires LooksLikeFlag(w) && Partition(t, ts).Ok?
  {
    var tail, p := Partition(t, ts).value, ParseTokens(t, ts);
    var follow, before, behind := Emitted(tail), LoneDashes(t, pre), LoneDashes(t, ts);
    if w == "--" then
      p.Parsed? &&
      (follow[0] == "--" ||
       (before + |follow| > 2 && (before > 0 || behind + |OptionSeq(tail.path)| > 1)))
    else
      match RefusedPattern(t, w, follow[0])
      case Some(name) => p == Rejected(name)
      case None => p.Rejected? || before + behind >= if TakesFirst(t, w, follow[0]) then 3 else 2
  }

  /** When the expansion means the direct run. */
  predicate MeansDirect(t: Tables, pre: seq<string>, stored: seq<string>, ts: seq<string>)
    requires Storable(stored) && Partition(t, ts).Ok?
  {
    ParseTokens(t, pre).Rejected? ||
    if forall w :: w in stored ==> Plain(w)
    then ParseTokens(t, ts).Rejected? || !Misses(t, pre, stored, ts)
    else PatternAgrees(t, pre, stored[0], ts)
  }

  // ---------------------------------------------------------------------
  // The body behind a pattern that looks like a flag
  // ---------------------------------------------------------------------

  /** The flags in front keep to themselves. */
  lemma PatternBody(t: Tables, pre: seq<string>, was: string, alias: SavedAlias, tail: Tail)
    requires WellFormed(t) && Grouped(t, pre, Some(was)) && was != "--"
    requires |alias.args| == 1 && LooksLikeFlag(alias.args[0])
    ensures var w := alias.args[0];
            ParseTokens(t, ExpandedBody(pre, alias, tail)) ==
            Join(ParseTokens(t, pre), ParseTokens(t, [w] + Emitted(tail)))
  {
    var w := alias.args[0];
    if IsCount(w) { CountIsPlain(w); }
    GroupedRetarget(t, pre, was, w);
    ParseGrouped(t, pre, [w] + Emitted(tail));
    assert ExpandedBody(pre, alias, tail) == pre + ([w] + Emitted(tail));
  }

  lemma {:induction false} ShortsReadSomething(t: Tables, body: string)
    requires body != "" && ReadShorts(t, body).Whole?
    ensures ReadShorts(t, body).flags != []
  {
  }

  lemma WholeReadsSomething(t: Tables, w: string)
    requires LooksLikeFlag(w) && Read(t, w).Whole?
    ensures Read(t, w).flags != []
  {
    if w[1] != '-' { ShortsReadSomething(t, w[1..]); }
  }

  lemma RunReadsSomething(t: Tables, g: seq<string>, next: Option<string>)
    requires WellFormed(t) && g != [] && Grouped(t, g, next) && LoneDashes(t, g) == 0
    requires ParseTokens(t, g).Parsed?
    ensures ParseTokens(t, g).flags != []
  {
    DashTokenCases(g[0]);
    LoneDashTakesNothing(t, Get(g, 1));
    if Read(t, g[0]).Whole? { WholeReadsSomething(t, g[0]); }
  }

  /** What the pattern, read as a flag, adds to the flags of the run. */
  function Added(t: Tables, w: string, first: string): (added: seq<Flag>)
    requires LooksLikeFlag(w)
    ensures RefusedPattern(t, w, first).None? ==> added != []
  {
    match Read(t, w)
    case Whole(fs) =>
      WholeReadsSomething(t, w);
      fs
    case Needs(fs, name) => fs + [Flag(name, Some(first))]
    case MayTake(fs, name) => fs + [Flag(name, if IsCount(first) then Some(first) else None)]
    case Unknown(_) => []
  }

  /** The pattern and what follows it: its own flags, and the re-emitted tail with at most one word less. */
  lemma PatternReads(t: Tables, w: string, ts: seq<string>)
    requires WellFormed(t) && Partition(t, ts).Ok? && LooksLikeFlag(w) && w != "--"
    ensures var tail := Partition(t, ts).value;
            var first := Emitted(tail)[0];
            var read := ParseTokens(t, [w] + Emitted(tail));
            match RefusedPattern(t, w, first)
            case Some(name) => read == Rejected(name)
            case None => exists rest ::
              read == Join(Parsed(Added(t, w, first), []), rest) &&
              SameFlags(rest, ParseTokens(t, tail.flags), if TakesFirst(t, w, first) then 0 else 1)
  {
    var tail := Partition(t, ts).value;
    var follow := Emitted(tail);
    var all := [w] + follow;
    EmitTailSameFlags(t, ts);
    if IsCount(follow[0]) { CountIsPlain(follow[0]); }
    hide EmitTail, Partition, Emitted, Read;
    assert all[1..] == follow && all[2..] == follow[1..];
    var rest := ParseTokens(t, if TakesFirst(t, w, follow[0]) then follow[1..] else follow);
    if TakesFirst(t, w, follow[0]) {
      assert ParseTokens(t, follow) == Join(Parsed([], [follow[0]]), rest);
      if rest.Parsed? { assert [] + rest.flags == rest.flags; }
    }
    if RefusedPattern(t, w, follow[0]).None? {
      assert ParseTokens(t, all) == Join(Parsed(Added(t, w, follow[0]), []), rest);
    }
  }

  /** The direct run of one pattern: refused with its tail, or the pattern and at least a path behind lone dashes. */
  lemma DirectCounts(t: Tables, pre: seq<string>, was: string, w: string, ts: seq<string>)
    requires WellFormed(t) && Partition(t, ts).Ok? && Grouped(t, pre, Some(was)) && ParseTokens(t, pre).Parsed?
    ensures var tail, p := Partition(t, ts).value, ParseTokens(t, ts);
            var front, direct := ParseTokens(t, pre), Direct(t, pre, [w], ts);
            var before, behind := LoneDashes(t, pre), LoneDashes(t, ts);
            && front.positionals == Dashes(before)
            && if p.Rejected? then ParseTokens(t, tail.flags) == p == direct
               else
                 && ParseTokens(t, tail.flags) == Parsed(p.flags, Dashes(behind))
                 && direct.Parsed? && direct.flags == front.flags + p.flags
                 && |direct.positionals| > before && direct.positionals[before] == w
                 && |direct.positionals| == before + 1 +
                      (if behind + |OptionSeq(tail.path)| == 0 then 1 else behind + |OptionSeq(tail.path)|)
                 && (behind == 0 ==> direct.positionals == Dashes(before) + [w, PathOrDot(tail.path)])
  {
    PartitionReads(t, ts);
    ParseGrouped(t, pre, [was]);
    var p, tail := ParseTokens(t, ts), Partition(t, ts).value;
    hide Partition, ParseTokens, Grouped;
    if p.Parsed? {
      assert [] + p.flags == p.flags;
      var words := WithDefaultPath(p).positionals;
      assert Direct(t, pre, [w], ts).positionals == Dashes(LoneDashes(t, pre)) + ([w] + words);
      if LoneDashes(t, ts) == 0 { assert [w] + words == [w, PathOrDot(tail.path)]; }
    }
  }

  /** A pattern `--` makes words of everything behind it. */
  lemma EscapeBody(t: Tables, pre: seq<string>, was: string, alias: SavedAlias, ts: seq<string>)
    requires WellFormed(t) && Partition(t, ts).Ok?
    requires Grouped(t, pre, Some(was)) && was != "--" && ParseTokens(t, pre).Parsed?
    requires alias.args == ["--"]
    ensures var front, follow := ParseTokens(t, pre), Emitted(Partition(t, ts).value);
            ParseTokens(t, ExpandedBody(pre, alias, Partition(t, ts).value)) ==
            Parsed(front.flags, front.positionals + follow)
  {
    var tail := Partition(t, ts).value;
    var follow := Emitted(tail);
    PatternBody(t, pre, was, alias, tail);
    assert (["--"] + follow)[1..] == follow;
    assert ParseTokens(t, ["--"] + follow) == Parsed([], follow);
    assert ParseTokens(t, pre).flags + [] == ParseTokens(t, pre).flags;
  }

  lemma EscapeMeaning(t: Tables, pre: seq<string>, was: string, alias: SavedAlias, ts: seq<string>)
    requires WellFormed(t) && Partition(t, ts).Ok?
    requires Grouped(t, pre, Some(was)) && was != "--" && ParseTokens(t, pre).Parsed?
    requires alias.args == ["--"]
    ensures var body := ParseTokens(t, ExpandedBody(pre, alias, Partition(t, ts).value));
            Accept(body, 2) == Accept(Direct(t, pre, alias.args, ts), 2) <==> PatternAgrees(t, pre, "--", ts)
  {
    hide Partition, ParseTokens, Grouped, EmitTail, LoneDashes, Emitted, Direct, ExpandedBody;
    var tail := Partition(t, ts).value;
    var follow := Emitted(tail);
    DirectCounts(t, pre, was, "--", ts);
    EscapeBody(t, pre, was, alias, ts);
    if follow[0] == "--" { EscapeInFront(t, ts); }
    var front, before := ParseTokens(t, pre), LoneDashes(t, pre);
    assert (front.positionals + follow)[before] == follow[0];
    assert front.flags + [] == front.flags;
  }

  /** The re-emitted tail starts with `--` exactly when it is an escaped path alone. */
  lemma EscapeInFront(t: Tables, ts: seq<string>)
    requires WellFormed(t) && Partition(t, ts).Ok? && Emitted(Partition(t, ts).value)[0] == "--"
    ensures var tail := Partition(t, ts).value;
            && tail.flags == [] && StartsWithDash(PathOrDot(tail.path))
            && Emitted(tail) == ["--", PathOrDot(tail.path)] && LoneDashes(t, ts) == 0
            && ParseTokens(t, tail.flags) == Parsed([], [])
  {
    FlagsStartWithDash(t, ts);
    PartitionReads(t, ts);
  }

  /** Any other pattern is read as a flag. */
  lemma FlagMeaning(t: Tables, pre: seq<string>, was: string, alias: SavedAlias, ts: seq<string>)
    requires WellFormed(t) && Partition(t, ts).Ok?
    requires Grouped(t, pre, Some(was)) && was != "--" && ParseTokens(t, pre).Parsed?
    requires |alias.args| == 1 && LooksLikeFlag(alias.args[0]) && alias.args[0] != "--"
    ensures var body := ParseTokens(t, ExpandedBody(pre, alias, Partition(t, ts).value));
            Accept(body, 2) == Accept(Direct(t, pre, alias.args, ts), 2) <==>
            PatternAgrees(t, pre, alias.args[0], ts)
  {
    var tail, w := Partition(t, ts).value, alias.args[0];
    var first := Emitted(tail)[0];
    assert alias.args == [w];
    DirectCounts(t, pre, was, w, ts);
    PatternBody(t, pre, was, alias, tail);
    PatternReads(t, w, ts);
    var front, read := ParseTokens(t, pre), ParseTokens(t, [w] + Emitted(tail));
    hide Partition, ParseTokens, Grouped, Emitted, LoneDashes, Read, TakesFirst;
    if RefusedPattern(t, w, first).None? {
      var rest :| read == Join(Parsed(Added(t, w, first), []), rest) &&
                  SameFlags(rest, ParseTokens(t, tail.flags), if TakesFirst(t, w, first) then 0 else 1);
      if rest.Parsed? {
        var added := Added(t, w, first);
        assert [] + rest.positionals == rest.positionals;
        assert |front.flags + (added + rest.flags)| > |front.flags + rest.flags|;
      }
    }
  }

  // ---------------------------------------------------------------------
  // Main result
  // ---------------------------------------------------------------------

  /**
   Meaning is preserved.  For every argv whose flags in front of the alias form
   a run (every alias found has one, see AliasDetection), every unambiguous
   tail and everything an alias can be saved with, the expanded argv is read
   with exactly the flags typed before and after the alias, in order, and the
   stored words followed by the one path or `.`, and is refused exactly when,
   and for the flag for which, the direct form is refused, if and only if
   `MeansDirect` holds.
   */
  lemma ExpansionMeaning(t: Tables, pre: seq<string>, was: string, alias: SavedAlias, ts: seq<string>)
    requires WellFormed(t) && Partition(t, ts).Ok?
    requires Grouped(t, pre, Some(was)) && was != "--"
    requires Storable(alias.args)
    ensures var body := ParseTokens(t, ExpandedBody(pre, alias, Partition(t, ts).value));
            var limit := |alias.args| + 1;
            Accept(body, limit) == Accept(Direct(t, pre, alias.args, ts), limit) <==>
            MeansDirect(t, pre, alias.args, ts)
  {
    if forall w :: w in alias.args ==> Plain(w) {
      PlainWordsMeaning(t, pre, was, alias, ts);
    } else if ParseTokens(t, pre).Rejected? {
      assert alias.args == [alias.args[0]] && !Plain(alias.args[0]);
      PatternBody(t, pre, was, alias, Partition(t, ts).value);
    } else {
      assert alias.args == [alias.args[0]] && !Plain(alias.args[0]);
      if alias.args[0] == "--" {
        EscapeMeaning(t, pre, was, alias, ts);
      } else {
        FlagMeaning(t, pre, was, alias, ts);
      }
    }
  }

  /**
   Where the direct run of a pattern that looks like a flag would run, the
   expansion comes to it only for the pattern `--` and an escaped path alone.
   */
  lemma FlagPatternRunsExactly(t: Tables, pre: seq<string>, was: string, alias: SavedAlias, ts: seq<string>)
    requires WellFormed(t) && Partition(t, ts).Ok?
    requires Grouped(t, pre, Some(was)) && was != "--"
    requires |alias.args| == 1 && LooksLikeFlag(alias.args[0])
    requires Accept(Direct(t, pre, alias.args, ts), 2).Run?
    ensures var tail := Partition(t, ts).value;
            Accept(ParseTokens(t, ExpandedBody(pre, alias, tail)), 2) == Accept(Direct(t, pre, alias.args, ts), 2) <==>
            alias.args == ["--"] && tail.flags == [] && StartsWithDash(PathOrDot(tail.path))
  {
    var w := alias.args[0];
    assert alias.args == [w];
    DirectCounts(t, pre, was, w, ts);
    if w == "--" {
      EscapeMeaning(t, pre, was, alias, ts);
      if Emitted(Partition(t, ts).value)[0] == "--" { EscapeInFront(t, ts); }
    } else {
      FlagMeaning(t, pre, was, alias, ts);
    }
  }

  /** The saved pattern `-5`: the direct run searches for `-5`, the expansion for `.` with a flag `-5`. */
  lemma SavedDashIsRead(t: Tables, alias: SavedAlias)
    requires "-5" !in t.valued && "-5" !in t.optional && alias.args == ["-5"]
    ensures Partition(t, []) == Ok(Tail([], None))
    ensures Accept(Direct(t, [], alias.args, []), 2) == Run([], ["-5", "."])
    ensures Accept(ParseTokens(t, ExpandedBody([], alias, Tail([], None))), 2) == Run([Flag("-5", None)], ["."])
  {
    var body := ExpandedBody([], alias, Tail([], None));
    assert body == ["-5", "."] && body[1..] == ["."] && ["."][1..] == [];
    var w: string := "-5";
    assert w[1..] == ['5'] && ['-', '5'] == w && w[1..][1..] == "";
    assert ReadShorts(t, "") == Whole([]);
    assert ReadShorts(t, w[1..]) == Whole([Flag(w, None)]);
  }

  lemma SavedDashMisses(t: Tables, alias: SavedAlias)
    requires WellFormed(t) && "-5" !in t.valued && "-5" !in t.optional && alias.args == ["-5"]
    ensures Partition(t, []) == Ok(Tail([], None)) && !MeansDirect(t, [], alias.args, [])
  {
    SavedDashIsRead(t, alias);
    ExpansionMeaning(t, [], "@neg", alias, []);
  }
}
