/**
 What the expansion means: read by the reference parser of CommandLine, the
 expanded argv carries exactly the flags typed on either side of the alias and
 the stored words followed by the one path.
 */
module AliasMeaning {
  import opened Wrappers
  import opened Text
  import opened CommandLine
  import opened AliasRewriter

  // ---------------------------------------------------------------------
  // The rewriter's notion of "takes the next token" against the parser's
  // ---------------------------------------------------------------------

  lemma {:induction false} ClusterMatchesShorts(t: Tables, body: string)
    requires '=' !in body
    ensures var r, c := ReadShorts(t, body), ClusterOf(t, body);
            && (r.Whole? <==> c.tail == NoValue)
            && (r.Needs? <==> c.tail == ConsumesNext)
            && (r.MayTake? <==> c.tail == OptionalNext)
  {
    if body != "" {
      assert body[0] in body;
      assert forall c :: c in body[1..] ==> c in body;
      ClusterMatchesShorts(t, body[1..]);
    }
  }

  lemma {:induction false} EqualsEndsShorts(t: Tables, body: string)
    requires '=' in body
    ensures ReadShorts(t, body).Whole? || ReadShorts(t, body).Unknown?
  {
    if body[0] != '=' {
      assert body == [body[0]] + body[1..];
      assert '=' in body[1..];
      EqualsEndsShorts(t, body[1..]);
    }
  }

  /** Counts never look like aliases, flags or `--`. */
  lemma CountIsPlain(tok: string)
    requires IsCount(tok)
    ensures IsOptionalFlagValue(tok) && Plain(tok)
  {
    if tok[0] != '+' {
      assert tok[0] in tok;
      assert IsDigit(tok[0]);
    }
  }

  lemma TakesMatchesReading(t: Tables, tok: string, next: Option<string>)
    requires WellFormed(t) && LooksLikeFlag(tok) && tok != "--"
    ensures match Read(t, tok)
            case Whole(_) => !TakesNext(t, tok, next)
            case Unknown(_) => !TakesNext(t, tok, next)
            case Needs(_, _) => TakesNext(t, tok, next) <==> next != Some("--")
            case MayTake(_, _) => TakesNext(t, tok, next) <==> next.Some? && IsCount(next.value)
  {
    if next.Some? && IsCount(next.value) {
      CountIsPlain(next.value);
    }
    assert tok == ['-'] + tok[1..];
    NameOfIsPrefix(tok);
    if tok[1] == '-' {
      assert "--" <= tok;
    } else {
      assert !("--" <= tok);
      assert '=' in tok <==> '=' in tok[1..];
      if '=' in tok {
        EqualsEndsShorts(t, tok[1..]);
      } else {
        ClusterMatchesShorts(t, tok[1..]);
        if |tok| == 2 {
          assert tok == ['-', tok[1]];
        }
      }
    }
  }

  // ---------------------------------------------------------------------
  // Runs of flag groups
  // ---------------------------------------------------------------------

  /** The token after `ts[0]`, looking past the end of `ts` to `next`. */
  function Following(ts: seq<string>, next: Option<string>): Option<string>
    requires ts != []
  {
    if |ts| > 1 then Some(ts[1]) else next
  }

  /**
   `ts` is a run of flag groups that keep to themselves when `next` follows:
   every head starts with a dash and is not `--`, and no head takes a token
   from outside the run.
   */
  predicate Grouped(t: Tables, ts: seq<string>, next: Option<string>)
    decreases |ts|
  {
    ts == [] ||
    (StartsWithDash(ts[0]) && ts[0] != "--" &&
     if TakesNext(t, ts[0], Following(ts, next)) then
       if |ts| > 1 then Grouped(t, ts[2..], next) else next.None?
     else Grouped(t, ts[1..], next))
  }

  /** Heads that are a lone `-`: the rewriter calls them flags, the parser calls them words. */
  function LoneDashes(t: Tables, ts: seq<string>): nat
    decreases |ts|
  {
    if ts == [] || ts[0] == "--" then 0
    else if StartsWithDash(ts[0]) && |ts| > 1 && ShouldSkipNext(t, ts, 0) then LoneDashes(t, ts[2..])
    else (if ts[0] == "-" then 1 else 0) + LoneDashes(t, ts[1..])
  }

  function Dashes(n: nat): seq<string> { seq(n, _ => "-") }

  /** The run's last group is an optional-value flag without a value. */
  predicate OpenEnded(t: Tables, ts: seq<string>)
    decreases |ts|
  {
    ts != [] && StartsWithDash(ts[0]) &&
    if |ts| > 1 && ShouldSkipNext(t, ts, 0) then OpenEnded(t, ts[2..])
    else if |ts| > 1 then OpenEnded(t, ts[1..])
    else LooksLikeFlag(ts[0]) && ts[0] != "--" && Read(t, ts[0]).MayTake?
  }

  lemma LoneDashTakesNothing(t: Tables, next: Option<string>)
    requires WellFormed(t)
    ensures !TakesNext(t, "-", next)
  {
  }

  lemma DashTokenCases(tok: string)
    requires StartsWithDash(tok)
    ensures tok == "-" || LooksLikeFlag(tok)
  {
  }

  /**
   A run reads the same alone as in front of anything it keeps to itself
   before; alone, its only words are its lone dashes.
   */
  lemma {:induction false} ParseGrouped(t: Tables, ts: seq<string>, rest: seq<string>)
    requires WellFormed(t) && Grouped(t, ts, First(rest))
    ensures ParseTokens(t, ts + rest) == Join(ParseTokens(t, ts), ParseTokens(t, rest))
    ensures ParseTokens(t, ts).Parsed? ==> ParseTokens(t, ts).positionals == Dashes(LoneDashes(t, ts))
    decreases |ts|
  {
    if ts == [] {
      assert ts + rest == rest;
      JoinUnit(ParseTokens(t, rest));
    } else {
      var next := Following(ts, First(rest));
      assert (ts + rest)[1..] == ts[1..] + rest;
      assert |ts| + |rest| > 1 ==> (ts + rest)[1] == next.value;
      DashTokenCases(ts[0]);
      if ts[0] == "-" {
        LoneDashTakesNothing(t, next);
        LoneDashTakesNothing(t, Get(ts, 1));
        ParseGrouped(t, ts[1..], rest);
        JoinAssociative(Parsed([], ["-"]), ParseTokens(t, ts[1..]), ParseTokens(t, rest));
        assert ["-"] + Dashes(LoneDashes(t, ts[1..])) == Dashes(1 + LoneDashes(t, ts[1..]));
      } else {
        ParseGroup(t, ts, rest);
      }
    }
  }

  lemma {:induction false} ParseGroup(t: Tables, ts: seq<string>, rest: seq<string>)
    requires WellFormed(t) && Grouped(t, ts, First(rest)) && ts != [] && LooksLikeFlag(ts[0])
    ensures ParseTokens(t, ts + rest) == Join(ParseTokens(t, ts), ParseTokens(t, rest))
    ensures ParseTokens(t, ts).Parsed? ==> ParseTokens(t, ts).positionals == Dashes(LoneDashes(t, ts))
    decreases |ts|, 0
  {
    var next := Following(ts, First(rest));
    TakesMatchesReading(t, ts[0], next);
    TakesMatchesReading(t, ts[0], Get(ts, 1));
    assert (ts + rest)[1..] == ts[1..] + rest;
    var head := Read(t, ts[0]);
    if TakesNext(t, ts[0], next) {
      if |ts| > 1 {
        assert (ts + rest)[2..] == ts[2..] + rest;
        ParseGrouped(t, ts[2..], rest);
        if (head.Needs? && Plain(ts[1])) || head.MayTake? {
          JoinAssociative(Parsed(head.before + [Flag(head.name, Some(ts[1]))], []),
                          ParseTokens(t, ts[2..]), ParseTokens(t, rest));
        }
      }
    } else if !head.Unknown? {
      ParseGrouped(t, ts[1..], rest);
      var alone := if head.Whole? then head.flags else head.before + [Flag(head.name, None)];
      JoinAssociative(Parsed(alone, []), ParseTokens(t, ts[1..]), ParseTokens(t, rest));
    }
  }

  // ---------------------------------------------------------------------
  // The partition of the tail
  // ---------------------------------------------------------------------

  /** The flags are split off as one run that never holds `--`. */
  lemma {:induction false} PartitionFlagsGrouped(t: Tables, ts: seq<string>)
    requires WellFormed(t) && Partition(t, ts).Ok?
    ensures var flags := Partition(t, ts).value.flags;
            Grouped(t, flags, None) && Grouped(t, flags, Some("--")) && "--" !in flags
    decreases |ts|
  {
    if ts != [] && ts[0] != "--" {
      if StartsWithDash(ts[0]) {
        var n := if |ts| > 1 && ShouldSkipNext(t, ts, 0) then 2 else 1;
        var flags := Partition(t, ts[n..]).value.flags;
        PartitionFlagsGrouped(t, ts[n..]);
        FlagsStartWithDash(t, ts[n..]);
        if n == 1 { FlagsStartWithDash(t, ts[1..]); }
        PrependGroup(t, ts, n, flags, None);
        PrependGroup(t, ts, n, flags, Some("--"));
      } else {
        PartitionFlagsGrouped(t, ts[1..]);
        var flags := Partition(t, ts[1..]).value.flags;
        assert [] + flags == flags;
      }
    }
  }

  /** A group taken from the front of the tail stays a group in front of the flags of the rest. */
  lemma PrependGroup(t: Tables, ts: seq<string>, n: nat, flags: seq<string>, next: Option<string>)
    requires WellFormed(t) && ts != [] && StartsWithDash(ts[0]) && ts[0] != "--"
    requires n == if |ts| > 1 && ShouldSkipNext(t, ts, 0) then 2 else 1
    requires flags != [] ==> |ts| > 1 && ts[1] != "--" && StartsWithDash(flags[0]) && !IsCount(flags[0])
    requires next == None || next == Some("--")
    requires Grouped(t, flags, next)
    ensures Grouped(t, ts[..n] + flags, next)
  {
    var all := ts[..n] + flags;
    assert all[n..] == flags;
    if IsCount("--") { CountIsPlain("--"); }
    if n == 1 {
      SingletonTakesNothing(t, ts[0], Get(ts, 1), Following(all, next));
    }
  }

  lemma SingletonTakesNothing(t: Tables, tok: string, was: Option<string>, now: Option<string>)
    requires WellFormed(t) && StartsWithDash(tok) && tok != "--"
    requires was.Some? ==> !TakesNext(t, tok, was)
    requires was == None || was == Some("--") ==> now == None || now == Some("--")
    requires now.Some? ==> !IsCount(now.value)
    ensures now.Some? ==> !TakesNext(t, tok, now)
  {
    DashTokenCases(tok);
    if tok == "-" {
      LoneDashTakesNothing(t, now);
    } else {
      TakesMatchesReading(t, tok, was);
      TakesMatchesReading(t, tok, now);
    }
  }

  lemma {:induction false} FlagsStartWithDash(t: Tables, ts: seq<string>)
    requires Partition(t, ts).Ok?
    ensures var flags := Partition(t, ts).value.flags;
            && (flags != [] ==> StartsWithDash(flags[0]) && flags[0] != "--" && !IsCount(flags[0]))
            && (ts != [] && ts[0] == "--" ==> flags == [])
    decreases |ts|
  {
    if ts != [] && ts[0] != "--" {
      if StartsWithDash(ts[0]) {
        if IsCount(ts[0]) { CountIsPlain(ts[0]); }
      } else {
        FlagsStartWithDash(t, ts[1..]);
        var flags := Partition(t, ts[1..]).value.flags;
        assert [] + flags == flags;
      }
    }
  }

  /** A run in front of a tail is split off whole. */
  lemma {:induction false} PartitionAfterRun(t: Tables, run: seq<string>, rest: seq<string>)
    requires Grouped(t, run, First(rest))
    ensures Partition(t, run + rest) == Combine(run, None, Partition(t, rest))
    decreases |run|
  {
    var r := Partition(t, rest);
    if run == [] {
      assert run + rest == rest;
      if r.Ok? { assert [] + r.value.flags == r.value.flags; }
    } else {
      var all := run + rest;
      assert Get(all, 1) == Following(run, First(rest));
      if |all| > 1 && ShouldSkipNext(t, all, 0) {
        assert all[2..] == run[2..] + rest && all[..2] == run[..2];
        PartitionAfterRun(t, run[2..], rest);
        CombineTwice(run[..2], None, run[2..], r);
        assert run[..2] + run[2..] == run;
      } else if |all| == 1 {
        assert run == all && rest == [] && run[1..] == [];
      } else {
        assert all[1..] == run[1..] + rest && all[..1] == run[..1];
        PartitionAfterRun(t, run[1..], rest);
        CombineTwice(run[..1], None, run[1..], r);
        assert run[..1] + run[1..] == run;
      }
    }
  }

  /** Splitting what is re-emitted gives back the same flags and the same path. */
  lemma PartitionFixpoint(t: Tables, ts: seq<string>)
    requires WellFormed(t) && Partition(t, ts).Ok?
    ensures var tail := Partition(t, ts).value;
            Partition(t, EmitTail(tail.flags, PathOrDot(tail.path))) == Ok(Tail(tail.flags, Some(PathOrDot(tail.path))))
  {
    var tail := Partition(t, ts).value;
    var path := PathOrDot(tail.path);
    PartitionFlagsGrouped(t, ts);
    if StartsWithDash(path) {
      PartitionAfterRun(t, tail.flags, ["--", path]);
      assert ["--", path][1..] == [path];
      assert tail.flags + [] == tail.flags;
    } else {
      PartitionAfterRun(t, tail.flags, []);
      assert tail.flags + [] == tail.flags;
      assert ([path] + tail.flags)[1..] == tail.flags;
      assert [] + tail.flags == tail.flags;
    }
  }

  /** The tail is its flags with the path woven in at one place, or set off by `--`. */
  predicate Woven(ts: seq<string>, tail: Tail) {
    match tail.path
    case None => ts == tail.flags || ts == tail.flags + ["--"]
    case Some(p) =>
      || ts == tail.flags + ["--", p]
      || exists i :: 0 <= i <= |tail.flags| && WovenAt(ts, tail.flags, p, i)
  }

  predicate WovenAt(ts: seq<string>, flags: seq<string>, p: string, i: nat)
    requires i <= |flags|
  {
    var core := flags[..i] + [p] + flags[i..];
    ts == core || ts == core + ["--"]
  }

  /** Every tail token but the boundary `--` is kept, once and in order. */
  lemma {:induction false} PartitionConserves(t: Tables, ts: seq<string>)
    requires Partition(t, ts).Ok?
    ensures Woven(ts, Partition(t, ts).value)
    decreases |ts|
  {
    if ts == [] {
    } else if ts[0] == "--" {
      assert ts == ["--"] + ts[1..];
      assert [] + ["--"] == ["--"];
    } else {
      hide Woven, TakesNext;
      var n := if StartsWithDash(ts[0]) && |ts| > 1 && ShouldSkipNext(t, ts, 0) then 2 else 1;
      var rest := Partition(t, ts[n..]).value;
      assert ts == ts[..n] + ts[n..];
      PartitionConserves(t, ts[n..]);
      if StartsWithDash(ts[0]) {
        WeavePrefix(ts[..n], ts[n..], rest);
      } else {
        assert [] + rest.flags == rest.flags && ts[..n] == [ts[0]];
        assert Partition(t, ts) == Combine([], Some(ts[0]), Partition(t, ts[n..]));
        assert rest.path == None;
        WeaveWord(ts[0], ts[n..], rest.flags);
      }
    }
  }

  lemma WeaveWord(word: string, ts: seq<string>, flags: seq<string>)
    requires Woven(ts, Tail(flags, None))
    ensures Woven([word] + ts, Tail(flags, Some(word)))
  {
    assert flags[..0] + [word] + flags[0..] == [word] + flags;
    assert [word] + (flags + ["--"]) == [word] + flags + ["--"];
    assert WovenAt([word] + ts, flags, word, 0);
  }

  lemma WeavePrefix(front: seq<string>, ts: seq<string>, tail: Tail)
    requires Woven(ts, tail)
    ensures Woven(front + ts, Tail(front + tail.flags, tail.path))
  {
    var flags := front + tail.flags;
    hide WovenAt;
    match tail.path
    case None =>
      assert front + (tail.flags + ["--"]) == flags + ["--"];
    case Some(p) =>
      if ts == tail.flags + ["--", p] {
        assert front + ts == flags + ["--", p];
      } else {
        var i :| 0 <= i <= |tail.flags| && WovenAt(ts, tail.flags, p, i);
        WeaveAt(front, ts, tail.flags, p, i);
      }
  }

  lemma WeaveAt(front: seq<string>, ts: seq<string>, flags: seq<string>, p: string, i: nat)
    requires i <= |flags| && WovenAt(ts, flags, p, i)
    ensures WovenAt(front + ts, front + flags, p, |front| + i)
  {
    var core, all, j := flags[..i] + [p] + flags[i..], front + flags, |front| + i;
    assert all[..j] == front + flags[..i] && all[j..] == flags[i..];
    assert front + core == all[..j] + [p] + all[j..];
    assert front + (core + ["--"]) == front + core + ["--"];
  }

  /**
   Wherever the path stands among the flag groups, the split is the same, as
   long as the flag in front of it does not take the path as its value.
   */
  lemma PathAnywhere(t: Tables, before: seq<string>, path: string, after: seq<string>)
    requires !StartsWithDash(path)
    requires Grouped(t, before, Some(path)) && Grouped(t, after, None)
    ensures Partition(t, before + [path] + after) == Ok(Tail(before + after, Some(path)))
  {
    assert before + [path] + after == before + ([path] + after);
    PartitionAfterRun(t, before, [path] + after);
    PartitionAfterRun(t, after, []);
    assert after + [] == after && [] + after == after;
    assert ([path] + after)[1..] == after;
  }

  // ---------------------------------------------------------------------
  // The tail as the reference parser reads it
  // ---------------------------------------------------------------------

  /** How a split `r` stands to the reading `p` with `n` lone dashes; `f` reads the split-off flags. */
  predicate ReadsAs(n: nat, p: Parse, r: Result<Tail, TwoPaths>, f: Parse) {
    match (p, r)
    case (Rejected(_), Ok(_)) => f == p
    case (Rejected(_), Err(_)) => true
    case (Parsed(flags, words), Ok(tail)) =>
      && f == Parsed(flags, Dashes(n))
      && |words| == n + |OptionSeq(tail.path)|
      && (n == 0 ==> words == OptionSeq(tail.path))
    case (Parsed(_, words), Err(e)) =>
      && |words| >= n + 2
      && (n == 0 ==> e == TwoPaths(words[0], words[1]))
  }

  function FlagsReading(t: Tables, r: Result<Tail, TwoPaths>): Parse {
    match r
    case Ok(tail) => ParseTokens(t, tail.flags)
    case Err(_) => Parsed([], [])
  }

  lemma ReadsAsGroup(m: nat, g: Parse, group: seq<string>, n: nat, p: Parse, r: Result<Tail, TwoPaths>, f: Parse)
    requires ReadsAs(n, p, r, f)
    requires g.Parsed? ==> g.positionals == Dashes(m)
    ensures ReadsAs(m + n, Join(g, p), Combine(group, None, r), Join(g, f))
  {
    assert Dashes(m) + Dashes(n) == Dashes(m + n);
  }

  lemma ReadsAsWord(word: string, n: nat, p: Parse, r: Result<Tail, TwoPaths>, f: Parse)
    requires ReadsAs(n, p, r, f)
    ensures ReadsAs(n, Join(Parsed([], [word]), p), Combine([], Some(word), r), f)
  {
    if p.Parsed? { assert [] + p.flags == p.flags; }
  }

  /** A front group stands in front of the rest of the tail and of its flags alike. */
  lemma FrontGroup(t: Tables, ts: seq<string>, n: nat)
    requires WellFormed(t) && ts != [] && StartsWithDash(ts[0]) && ts[0] != "--"
    requires n == if |ts| > 1 && ShouldSkipNext(t, ts, 0) then 2 else 1
    ensures Grouped(t, ts[..n], First(ts[n..]))
    ensures Partition(t, ts[n..]).Ok? ==> Grouped(t, ts[..n], First(Partition(t, ts[n..]).value.flags))
  {
    assert ts[..n][n..] == [];
    if n == 1 && Partition(t, ts[1..]).Ok? && Partition(t, ts[1..]).value.flags != [] {
      FlagsStartWithDash(t, ts[1..]);
      SingletonTakesNothing(t, ts[0], Get(ts, 1), Some(Partition(t, ts[1..]).value.flags[0]));
    }
  }

  /**
   The split succeeds exactly when the reading finds at most one word besides
   lone dashes; that word is the path, and the flags read the same on their own.
   */
  lemma {:induction false} PartitionReads(t: Tables, ts: seq<string>)
    requires WellFormed(t)
    ensures ReadsAs(LoneDashes(t, ts), ParseTokens(t, ts), Partition(t, ts), FlagsReading(t, Partition(t, ts)))
    decreases |ts|
  {
    if ts == [] || ts[0] == "--" {
    } else if StartsWithDash(ts[0]) {
      var n := if |ts| > 1 && ShouldSkipNext(t, ts, 0) then 2 else 1;
      PartitionReads(t, ts[n..]);
      FrontGroupReads(t, ts, n);
    } else {
      PartitionReads(t, ts[1..]);
      var r := Partition(t, ts[1..]);
      if r.Ok? { assert [] + r.value.flags == r.value.flags; }
      ReadsAsWord(ts[0], LoneDashes(t, ts[1..]), ParseTokens(t, ts[1..]), r, FlagsReading(t, r));
    }
  }

  lemma FrontGroupReads(t: Tables, ts: seq<string>, n: nat)
    requires WellFormed(t) && ts != [] && StartsWithDash(ts[0]) && ts[0] != "--"
    requires n == if |ts| > 1 && ShouldSkipNext(t, ts, 0) then 2 else 1
    requires ReadsAs(LoneDashes(t, ts[n..]), ParseTokens(t, ts[n..]), Partition(t, ts[n..]),
                     FlagsReading(t, Partition(t, ts[n..])))
    ensures ReadsAs(LoneDashes(t, ts), ParseTokens(t, ts), Partition(t, ts), FlagsReading(t, Partition(t, ts)))
  {
    var group, rest := ts[..n], ts[n..];
    var r := Partition(t, rest);
    assert ts == group + rest;
    FrontGroup(t, ts, n);
    ParseGrouped(t, group, rest);
    assert LoneDashes(t, ts) == LoneDashes(t, group) + LoneDashes(t, rest) by { assert group[n..] == []; }
    assert Partition(t, ts) == Combine(group, None, r);
    ReadsAsGroup(LoneDashes(t, group), ParseTokens(t, group), group,
                 LoneDashes(t, rest), ParseTokens(t, rest), r, FlagsReading(t, r));
    if r.Ok? {
      ParseGrouped(t, group, r.value.flags);
    }
  }

  // ---------------------------------------------------------------------
  // The flags before the alias
  // ---------------------------------------------------------------------

  /** A run that stops at a plain word also stops at `now`, unless its open last group takes `now`. */
  lemma {:induction false} GroupedRetarget(t: Tables, ts: seq<string>, was: string, now: string)
    requires WellFormed(t) && Grouped(t, ts, Some(was)) && was != "--"
    requires !(OpenEnded(t, ts) && IsCount(now))
    ensures Grouped(t, ts, Some(now))
    decreases |ts|
  {
    if ts == [] {
    } else if TakesNext(t, ts[0], Following(ts, Some(was))) {
      GroupedRetarget(t, ts[2..], was, now);
    } else if |ts| > 1 {
      GroupedRetarget(t, ts[1..], was, now);
    } else {
      DashTokenCases(ts[0]);
      if ts[0] == "-" {
        LoneDashTakesNothing(t, Some(now));
      } else {
        TakesMatchesReading(t, ts[0], Some(was));
        TakesMatchesReading(t, ts[0], Some(now));
      }
    }
  }

  /** The flags of a run whose open last group takes `count`. */
  function TakeLast(p: Parse, count: string): Parse {
    match p
    case Rejected(_) => p
    case Parsed(flags, words) =>
      if flags == [] then p
      else
        var last := |flags| - 1;
        Parsed(flags[..last] + [Flag(flags[last].name, Some(count))], words)
  }

  lemma TakeLastJoin(a: Parse, b: Parse, count: string)
    requires a.Parsed?
    requires b.Parsed? ==> b.flags != []
    ensures TakeLast(Join(a, b), count) == Join(a, TakeLast(b, count))
  {
    if b.Parsed? {
      var all := a.flags + b.flags;
      assert all[..|all| - 1] == a.flags + b.flags[..|b.flags| - 1];
    }
  }

  /** An open optional-value flag takes a count that follows it. */
  lemma OpenFlagTakesCount(t: Tables, tok: string, count: string, rest: seq<string>)
    requires WellFormed(t) && OpenEnded(t, [tok]) && IsCount(count)
    ensures var alone := ParseTokens(t, [tok]);
            && ParseTokens(t, [tok] + [count] + rest) == Join(TakeLast(alone, count), ParseTokens(t, rest))
            && alone.Parsed? && alone.flags != [] && alone.flags[|alone.flags| - 1].value == None
  {
    var all := [tok] + [count] + rest;
    CountIsPlain(count);
    hide Read;
    assert all[1..] == [count] + rest && all[2..] == rest && [tok][1..] == [];
    var head := Read(t, tok);
    var flags := head.before + [Flag(head.name, None)];
    assert flags[..|flags| - 1] == head.before;
    JoinUnit(Parsed(flags, []));
  }

  /** An open-ended run takes a count that follows it. */
  lemma {:induction false} OpenRunTakesCount(t: Tables, ts: seq<string>, was: string, count: string, rest: seq<string>)
    requires WellFormed(t) && Grouped(t, ts, Some(was)) && OpenEnded(t, ts) && IsCount(count)
    ensures var alone := ParseTokens(t, ts);
            && ParseTokens(t, ts + [count] + rest) == Join(TakeLast(alone, count), ParseTokens(t, rest))
            && (alone.Parsed? ==> alone.flags != [] && alone.flags[|alone.flags| - 1].value == None)
    decreases |ts|
  {
    if |ts| == 1 {
      assert ts == [ts[0]];
      hide *;
      OpenFlagTakesCount(t, ts[0], count, rest);
    } else {
      var n := if ShouldSkipNext(t, ts, 0) then 2 else 1;
      OpenRunTakesCount(t, ts[n..], was, count, rest);
      assert ts == ts[..n] + ts[n..];
      assert Grouped(t, ts[..n], First(ts[n..]));
      assert Grouped(t, ts[..n], First(ts[n..] + [count] + rest));
      assert ts + [count] + rest == ts[..n] + (ts[n..] + [count] + rest);
      ParseGrouped(t, ts[..n], ts[n..]);
      ParseGrouped(t, ts[..n], ts[n..] + [count] + rest);
      hide ParseTokens, Grouped, OpenEnded, TakesNext, Read;
      var front, back := ParseTokens(t, ts[..n]), ParseTokens(t, ts[n..]);
      JoinAssociative(front, TakeLast(back, count), ParseTokens(t, rest));
      if front.Parsed? { TakeLastJoin(front, back, count); }
    }
  }

  // ---------------------------------------------------------------------
  // The expansion
  // ---------------------------------------------------------------------

  /** A reading with the default path when no word was given. */
  function WithDefaultPath(p: Parse): Parse {
    match p
    case Rejected(_) => p
    case Parsed(flags, words) => Parsed(flags, if words == [] then [CURRENT_DIR] else words)
  }

  /**
   What the alias run asks for: the flags typed before the alias, the stored
   words as positionals, then the tail as typed, with `.` for a missing path.
   */
  function Direct(t: Tables, pre: seq<string>, stored: seq<string>, ts: seq<string>): Parse {
    Join(ParseTokens(t, pre), Join(Parsed([], stored), WithDefaultPath(ParseTokens(t, ts))))
  }

  datatype Outcome = Run(flags: seq<Flag>, positionals: seq<string>) | Refused(flag: string) | TooManyWords

  /** A command that takes at most `limit` positionals. */
  function Accept(p: Parse, limit: nat): Outcome {
    match p
    case Rejected(f) => Refused(f)
    case Parsed(flags, words) => if |words| > limit then TooManyWords else Run(flags, words)
  }

  /** The first token after the flags in front of the alias. */
  function FirstAfterFlags(stored: seq<string>, tail: Tail): string {
    (stored + EmitTail(tail.flags, PathOrDot(tail.path)))[0]
  }

  /** A bare optional-value flag in front of the alias takes a stored (or path) count as its value. */
  predicate Swallows(t: Tables, pre: seq<string>, stored: seq<string>, tail: Tail) {
    OpenEnded(t, pre) && IsCount(FirstAfterFlags(stored, tail))
  }

  lemma EmitTailReads(t: Tables, ts: seq<string>)
    requires WellFormed(t) && Partition(t, ts).Ok?
    ensures var tail := Partition(t, ts).value;
            var path := PathOrDot(tail.path);
            ParseTokens(t, EmitTail(tail.flags, path)) ==
            if StartsWithDash(path) then Join(ParseTokens(t, tail.flags), Parsed([], [path]))
            else Join(Parsed([], [path]), ParseTokens(t, tail.flags))
  {
    var tail := Partition(t, ts).value;
    var path := PathOrDot(tail.path);
    PartitionFlagsGrouped(t, ts);
    if StartsWithDash(path) {
      ParseGrouped(t, tail.flags, ["--", path]);
      assert ["--", path][1..] == [path];
    } else {
      assert ([path] + tail.flags)[1..] == tail.flags;
    }
  }

  /** Without a swallowed count, the body reads as its parts. */
  lemma BodyReads(t: Tables, pre: seq<string>, was: string, alias: SavedAlias, ts: seq<string>)
    requires WellFormed(t) && Partition(t, ts).Ok?
    requires Grouped(t, pre, Some(was)) && was != "--"
    requires forall w :: w in alias.args ==> Plain(w)
    requires !Swallows(t, pre, alias.args, Partition(t, ts).value)
    ensures var tail := Partition(t, ts).value;
            ParseTokens(t, ExpandedBody(pre, alias, tail)) ==
            Join(ParseTokens(t, pre), Join(Parsed([], alias.args),
                 ParseTokens(t, EmitTail(tail.flags, PathOrDot(tail.path)))))
  {
    var tail := Partition(t, ts).value;
    var emitted := EmitTail(tail.flags, PathOrDot(tail.path));
    assert ExpandedBody(pre, alias, tail) == pre + (alias.args + emitted);
    GroupedRetarget(t, pre, was, FirstAfterFlags(alias.args, tail));
    ParseGrouped(t, pre, alias.args + emitted);
    ParsePlainWords(t, alias.args, emitted);
  }

  /** With a swallowed count, the body reads without the word it was. */
  lemma BodySwallows(t: Tables, pre: seq<string>, was: string, follow: seq<string>)
    requires WellFormed(t) && Grouped(t, pre, Some(was))
    requires OpenEnded(t, pre) && follow != [] && IsCount(follow[0])
    ensures ParseTokens(t, pre + follow) == Join(TakeLast(ParseTokens(t, pre), follow[0]), ParseTokens(t, follow[1..]))
    ensures var p := ParseTokens(t, pre);
            p.Parsed? ==> p.flags != [] && p.flags[|p.flags| - 1].value == None
  {
    hide *;
    OpenRunTakesCount(t, pre, was, follow[0], follow[1..]);
    assert pre + follow == pre + [follow[0]] + follow[1..];
  }

  /** Of the re-emitted tail, only the path itself can be a count in front. */
  lemma SwallowedPath(t: Tables, ts: seq<string>)
    requires Partition(t, ts).Ok?
    requires IsCount(EmitTail(Partition(t, ts).value.flags, PathOrDot(Partition(t, ts).value.path))[0])
    ensures !StartsWithDash(PathOrDot(Partition(t, ts).value.path))
  {
    if IsCount("--") { CountIsPlain("--"); }
    FlagsStartWithDash(t, ts);
  }

  /** A reading with the flags of `flags`, and `n` words besides its lone dashes. */
  predicate SameFlags(rest: Parse, flags: Parse, n: nat) {
    match (rest, flags)
    case (Rejected(_), _) => rest == flags
    case (Parsed(f, words), Parsed(g, dashes)) => f == g && |words| == n + |dashes|
    case _ => false
  }

  lemma SameFlagsAfterWords(words: seq<string>, rest: Parse, flags: Parse, n: nat)
    requires SameFlags(rest, flags, n)
    ensures SameFlags(Join(Parsed([], words), rest), flags, |words| + n)
  {
    if rest.Parsed? { assert [] + rest.flags == rest.flags; }
  }

  lemma EmitTailSameFlags(t: Tables, ts: seq<string>)
    requires WellFormed(t) && Partition(t, ts).Ok?
    ensures var tail := Partition(t, ts).value;
            SameFlags(ParseTokens(t, EmitTail(tail.flags, PathOrDot(tail.path))), ParseTokens(t, tail.flags), 1)
  {
    EmitTailReads(t, ts);
    var flags := ParseTokens(t, Partition(t, ts).value.flags);
    if flags.Parsed? { assert [] + flags.flags == flags.flags && flags.flags + [] == flags.flags; }
  }

  /** What is left of the stored words and the re-emitted tail once their first token is swallowed. */
  lemma AfterSwallow(t: Tables, stored: seq<string>, ts: seq<string>)
    requires WellFormed(t) && Partition(t, ts).Ok?
    requires forall w :: w in stored ==> Plain(w)
    requires IsCount(FirstAfterFlags(stored, Partition(t, ts).value))
    ensures var tail := Partition(t, ts).value;
            var follow := stored + EmitTail(tail.flags, PathOrDot(tail.path));
            SameFlags(ParseTokens(t, follow[1..]), ParseTokens(t, tail.flags), |stored|)
  {
    var tail := Partition(t, ts).value;
    var emitted := EmitTail(tail.flags, PathOrDot(tail.path));
    var follow := stored + emitted;
    hide ParseTokens, Partition, Grouped;
    if stored == [] {
      assert follow == emitted;
      SwallowedPath(t, ts);
      assert follow[1..] == tail.flags;
    } else {
      assert follow[1..] == stored[1..] + emitted;
      assert forall w :: w in stored[1..] ==> w in stored;
      ParsePlainWords(t, stored[1..], emitted);
      EmitTailSameFlags(t, ts);
      SameFlagsAfterWords(stored[1..], ParseTokens(t, emitted), ParseTokens(t, tail.flags), 1);
    }
  }

  // ---------------------------------------------------------------------
  // Main result
  // ---------------------------------------------------------------------

  /**
   The one way an expansion can miss: at most one lone `-` was typed, and
   either a bare optional-value flag in front takes a count, or that `-` was
   the only path.
   */
  predicate Misses(t: Tables, pre: seq<string>, stored: seq<string>, ts: seq<string>)
    requires Partition(t, ts).Ok?
  {
    var tail := Partition(t, ts).value;
    && LoneDashes(t, pre) + LoneDashes(t, ts) <= 1
    && (Swallows(t, pre, stored, tail) || (LoneDashes(t, ts) == 1 && tail.path == None))
  }

  /** When a part is refused outright, the expansion is refused for the same flag. */
  lemma RefusedAlike(t: Tables, pre: seq<string>, was: string, alias: SavedAlias, ts: seq<string>)
    requires WellFormed(t) && Partition(t, ts).Ok?
    requires Grouped(t, pre, Some(was)) && was != "--"
    requires forall w :: w in alias.args ==> Plain(w)
    requires ParseTokens(t, pre).Rejected? || ParseTokens(t, ts).Rejected?
    ensures ParseTokens(t, ExpandedBody(pre, alias, Partition(t, ts).value)) == Direct(t, pre, alias.args, ts)
  {
    var tail := Partition(t, ts).value;
    var follow := alias.args + EmitTail(tail.flags, PathOrDot(tail.path));
    PartitionReads(t, ts);
    assert ExpandedBody(pre, alias, tail) == pre + follow;
    if Swallows(t, pre, alias.args, tail) {
      BodySwallows(t, pre, was, follow);
      AfterSwallow(t, alias.args, ts);
    } else {
      BodyReads(t, pre, was, alias, ts);
      EmitTailReads(t, ts);
    }
  }

  /** Without a swallowed count: flags agree, and words agree up to lone dashes. */
  lemma WordsAlike(t: Tables, pre: seq<string>, was: string, alias: SavedAlias, ts: seq<string>)
    requires WellFormed(t) && Partition(t, ts).Ok?
    requires Grouped(t, pre, Some(was)) && was != "--"
    requires forall w :: w in alias.args ==> Plain(w)
    requires ParseTokens(t, pre).Parsed? && ParseTokens(t, ts).Parsed?
    requires !Swallows(t, pre, alias.args, Partition(t, ts).value)
    ensures var body := ParseTokens(t, ExpandedBody(pre, alias, Partition(t, ts).value));
            var direct := Direct(t, pre, alias.args, ts);
            && body.Parsed? && body.flags == direct.flags
            && |body.positionals| == LoneDashes(t, pre) + |alias.args| + 1 + LoneDashes(t, ts)
            && (LoneDashes(t, ts) == 0 ==> body == direct)
  {
    var tail := Partition(t, ts).value;
    var path := PathOrDot(tail.path);
    PartitionReads(t, ts);
    BodyReads(t, pre, was, alias, ts);
    EmitTailReads(t, ts);
    ParseGrouped(t, pre, [was]);
    var flags := ParseTokens(t, ts).flags;
    assert flags + [] == flags && [] + flags == flags;
    assert Dashes(0) + [path] == [path] && [path] + Dashes(0) == [path];
  }

  /** The main result for stored words that do not look like flags; AliasPattern has it for any stored pattern. */
  lemma PlainWordsMeaning(t: Tables, pre: seq<string>, was: string, alias: SavedAlias, ts: seq<string>)
    requires WellFormed(t) && Partition(t, ts).Ok?
    requires Grouped(t, pre, Some(was)) && was != "--"
    requires forall w :: w in alias.args ==> Plain(w)
    ensures var body := ParseTokens(t, ExpandedBody(pre, alias, Partition(t, ts).value));
            var limit := |alias.args| + 1;
            Accept(body, limit) == Accept(Direct(t, pre, alias.args, ts), limit) <==>
            (ParseTokens(t, pre).Rejected? || ParseTokens(t, ts).Rejected? || !Misses(t, pre, alias.args, ts))
  {
    var tail := Partition(t, ts).value;
    if ParseTokens(t, pre).Rejected? || ParseTokens(t, ts).Rejected? {
      RefusedAlike(t, pre, was, alias, ts);
    } else if Swallows(t, pre, alias.args, tail) {
      SwallowMisses(t, pre, was, alias, ts);
    } else {
      WordsAlike(t, pre, was, alias, ts);
      PartitionReads(t, ts);
      ParseGrouped(t, pre, [was]);
    }
  }

  lemma SwallowMisses(t: Tables, pre: seq<string>, was: string, alias: SavedAlias, ts: seq<string>)
    requires WellFormed(t) && Partition(t, ts).Ok?
    requires Grouped(t, pre, Some(was)) && was != "--"
    requires forall w :: w in alias.args ==> Plain(w)
    requires ParseTokens(t, pre).Parsed? && ParseTokens(t, ts).Parsed?
    requires Swallows(t, pre, alias.args, Partition(t, ts).value)
    ensures var body := ParseTokens(t, ExpandedBody(pre, alias, Partition(t, ts).value));
            var limit := |alias.args| + 1;
            Accept(body, limit) == Accept(Direct(t, pre, alias.args, ts), limit) <==>
            LoneDashes(t, pre) + LoneDashes(t, ts) >= 2
  {
    var tail := Partition(t, ts).value;
    var follow := alias.args + EmitTail(tail.flags, PathOrDot(tail.path));
    PartitionReads(t, ts);
    BodySwallows(t, pre, was, follow);
    assert ExpandedBody(pre, alias, tail) == pre + follow;
    AfterSwallow(t, alias.args, ts);
    PartitionFlagsGrouped(t, ts);
    ParseGrouped(t, tail.flags, []);
    ParseGrouped(t, pre, [was]);
    var front, back := ParseTokens(t, pre).flags, ParseTokens(t, ts).flags;
    var body := ParseTokens(t, pre + follow);
    var last := |front| - 1;
    assert body.flags[last].value == Some(follow[0]);
    assert Direct(t, pre, alias.args, ts).flags[last] == front[last];
  }
}
