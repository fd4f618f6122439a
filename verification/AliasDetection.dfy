/**
 Which argv are alias runs, and how the parts found by the scan meet the
 conditions of AliasMeaning.
 */
module AliasDetection {
  import opened Wrappers
  import opened CommandLine
  import opened AliasRewriter
  import opened AliasMeaning
  import opened AliasPattern
  import opened AliasTokens

  // ---------------------------------------------------------------------
  // Detection is exact
  // ---------------------------------------------------------------------

  /** Token `k` is an `@` word, and the tokens from `j` to it are whole flag groups. */
  predicate RunEndsAt(t: Tables, args: seq<string>, j: nat, k: nat) {
    j <= k < |args| && StartsWithAt(args[k]) && Grouped(t, args[j..k], Some(args[k]))
  }

  /** The alias run the site describes: flag groups, at most one command word, flag groups, `@`. */
  predicate IsAliasRun(t: Tables, args: seq<string>, i: nat, site: Site) {
    match site.prefix
    case None => RunEndsAt(t, args, i, site.alias)
    case Some(w) =>
      && i <= w < site.alias < |args|
      && (args[w] == QUERY || args[w] == SEARCH)
      && Grouped(t, args[i..w], Some(args[w]))
      && RunEndsAt(t, args, w + 1, site.alias)
  }

  /** One step of the scan over a flag group is one step of the run. */
  lemma GroupStep(t: Tables, args: seq<string>, j: nat, k: nat)
    requires j < k < |args| && StartsWithDash(args[j]) && args[j] != "--"
    ensures var n := if ShouldSkipNext(t, args, j) then 2 else 1;
            Grouped(t, args[j..k], Some(args[k])) <==>
            (j + n <= k && Grouped(t, args[j + n..k], Some(args[k])))
  {
    var ts := args[j..k];
    assert Following(ts, Some(args[k])) == Get(args, j + 1);
    assert ts[1..] == args[j + 1..k];
    if |ts| > 1 { assert ts[2..] == args[j + 2..k]; }
  }

  lemma {:induction false} AfterPrefixExact(t: Tables, args: seq<string>, j: nat, k: nat)
    ensures AfterPrefix(t, args, j) == Some(k) <==> RunEndsAt(t, args, j, k)
    decreases |args| - j
  {
    AfterPrefixInRange(t, args, j);
    if j < |args| && args[j] != "--" && !StartsWithAt(args[j]) && StartsWithDash(args[j]) {
      var n := if ShouldSkipNext(t, args, j) then 2 else 1;
      AfterPrefixExact(t, args, j + n, k);
      AfterPrefixInRange(t, args, j + n);
      if j < k < |args| { GroupStep(t, args, j, k); }
    }
  }

  /**
   The scan reports an alias at `site` exactly when the argv is an alias run
   there; in particular an argv is an alias run at no more than one site.
   */
  lemma {:induction false} LocateExact(t: Tables, args: seq<string>, i: nat, site: Site)
    ensures Locate(t, args, i) == Some(site) <==> IsAliasRun(t, args, i, site)
    decreases |args| - i
  {
    LocateInRange(t, args, i);
    if i < |args| && args[i] != "--" {
      if StartsWithDash(args[i]) {
        hide Grouped, TakesNext;
        var n := if ShouldSkipNext(t, args, i) then 2 else 1;
        LocateExact(t, args, i + n, site);
        LocateInRange(t, args, i + n);
        var stop := match site.prefix case None => site.alias case Some(w) => w;
        if i < stop < |args| { GroupStep(t, args, i, stop); }
      } else {
        AfterPrefixExact(t, args, i + 1, site.alias);
      }
    }
  }

  /** Nothing in front of a run's end is the `--` escape. */
  lemma {:induction false} GroupedNoEscape(t: Tables, ts: seq<string>, next: Option<string>)
    requires Grouped(t, ts, next)
    ensures "--" !in ts
    decreases |ts|
  {
    if ts != [] {
      if TakesNext(t, ts[0], Following(ts, next)) && |ts| > 1 {
        GroupedNoEscape(t, ts[2..], next);
        assert ts == [ts[0], ts[1]] + ts[2..];
      } else {
        if |ts| > 1 { GroupedNoEscape(t, ts[1..], next); }
        assert ts == [ts[0]] + ts[1..];
      }
    }
  }

  /**
   What the scan reports, in the words of its documentation: the token starts
   with `@`, no `--` stands before it, it is no flag's value, the typed
   `query` or `search` word is the only word before it, and the tail is
   unambiguous.
   */
  lemma ScanFindsAliases(t: Tables, args: seq<string>)
    requires Scan(t, args).Ok? && Scan(t, args).value.aliasIndex.Some?
    ensures var scan := Scan(t, args).value;
            var k := scan.aliasIndex.value;
            && IsAliasRun(t, args, 1, Site(k, scan.subcommandPrefix))
            && "--" !in args[1..k]
            && Partition(t, args[k + 1..]) == Ok(Tail(scan.postAliasFlags, scan.remainingPath))
  {
    var scan := Scan(t, args).value;
    var k := scan.aliasIndex.value;
    LocateInRange(t, args, 1);
    LocateExact(t, args, 1, Site(k, scan.subcommandPrefix));
    match scan.subcommandPrefix
    case None => GroupedNoEscape(t, args[1..k], Some(args[k]));
    case Some(w) =>
      GroupedNoEscape(t, args[1..w], Some(args[w]));
      GroupedNoEscape(t, args[w + 1..k], Some(args[k]));
      assert args[1..k] == args[1..w] + [args[w]] + args[w + 1..k];
  }

  // ---------------------------------------------------------------------
  // The typed command word is erased without trace
  // ---------------------------------------------------------------------

  lemma {:induction false} GroupedAppend(t: Tables, a: seq<string>, b: seq<string>, next: string)
    requires Grouped(t, a, First(b + [next])) && Grouped(t, b, Some(next))
    ensures Grouped(t, a + b, Some(next))
    decreases |a|
  {
    if a == [] {
      assert a + b == b;
    } else {
      var all := a + b;
      assert Following(all, Some(next)) == Following(a, First(b + [next]));
      if TakesNext(t, a[0], Following(a, First(b + [next]))) {
        assert all[2..] == a[2..] + b;
        GroupedAppend(t, a[2..], b, next);
      } else {
        assert all[1..] == a[1..] + b;
        GroupedAppend(t, a[1..], b, next);
      }
    }
  }

  /** Two runs on either side of a plain word make one run when the word is dropped. */
  lemma GroupedAcrossWord(t: Tables, a: seq<string>, word: string, b: seq<string>, at: string)
    requires WellFormed(t) && StartsWithAt(at) && word != "--"
    requires Grouped(t, a, Some(word)) && Grouped(t, b, Some(at))
    ensures Grouped(t, a + b, Some(at))
  {
    var now := (b + [at])[0];
    if IsCount(now) { CountIsPlain(now); }
    GroupedRetarget(t, a, word, now);
    GroupedAppend(t, a, b, at);
  }

  lemma PreAliasGrouped(t: Tables, args: seq<string>, site: Site)
    requires WellFormed(t) && IsAliasRun(t, args, 1, site)
    ensures Grouped(t, PreAliasFlags(args, site.alias, site.prefix), Some(args[site.alias]))
  {
    if site.prefix.Some? {
      var w := site.prefix.value;
      GroupedAcrossWord(t, args[1..w], args[w], args[w + 1..site.alias], args[site.alias]);
    }
  }

  lemma EraseAt(args: seq<string>, w: nat, k: nat)
    requires 1 <= w < k < |args|
    ensures var erased := args[..w] + args[w + 1..];
            && erased[0] == args[0]
            && erased[1..k - 1] == args[1..w] + args[w + 1..k]
            && erased[k - 1] == args[k]
            && erased[k..] == args[k + 1..]
  {
    var erased := args[..w] + args[w + 1..];
    assert forall i :: w <= i < |erased| ==> erased[i] == args[i + 1];
  }

  /** Erasing the typed `query` or `search` word gives the same expansion. */
  lemma CommandWordErased(t: Tables, s: Surface, args: seq<string>, k: nat, w: nat, alias: SavedAlias)
    requires WellFormed(t) && 1 <= w < k < |args|
    requires Scan(t, args).Ok? && Scan(t, args).value.aliasIndex == Some(k)
    requires Scan(t, args).value.subcommandPrefix == Some(w)
    ensures var erased := args[..w] + args[w + 1..];
            var scan := Scan(t, args).value;
            && Scan(t, erased) == Ok(AliasScan(Some(k - 1), scan.remainingPath, scan.postAliasFlags, None))
            && Expanded(t, s, erased, k - 1, Tail(scan.postAliasFlags, scan.remainingPath), None, alias) ==
               Expanded(t, s, args, k, Tail(scan.postAliasFlags, scan.remainingPath), Some(w), alias)
  {
    var erased := args[..w] + args[w + 1..];
    ScanFindsAliases(t, args);
    PreAliasGrouped(t, args, Site(k, Some(w)));
    EraseAt(args, w, k);
    LocateExact(t, erased, 1, Site(k - 1, None));
  }

  // ---------------------------------------------------------------------
  // The whole run
  // ---------------------------------------------------------------------

  /**
   From argv to meaning: whatever argv the scan accepts as an alias run and
   whatever is stored, the expanded argv after its program name and command word
   is read as the run of the stored tokens exactly when `TokensAgree` says so;
   and for everything an alias can be saved with, as the run of the stored
   pattern exactly when `MeansDirect` says so.
   */
  lemma RunMeaning(t: Tables, s: Surface, args: seq<string>, k: nat, alias: SavedAlias)
    requires WellFormed(t) && 1 <= k < |args|
    requires Scan(t, args).Ok? && Scan(t, args).value.aliasIndex == Some(k)
    ensures var scan := Scan(t, args).value;
            var prefix := scan.subcommandPrefix;
            (prefix.Some? ==> 1 <= prefix.value < k) &&
            var pre := PreAliasFlags(args, k, prefix);
            var tail := Tail(scan.postAliasFlags, scan.remainingPath);
            var word := CommandWord(t, s, alias, pre, tail.flags);
            var ts := args[k + 1..];
            && Expanded(t, s, args, k, tail, prefix, alias)[1 + |word|..] == ExpandedBody(pre, alias, tail)
            && Partition(t, ts).Ok?
            && ReadAsTokens(t, pre, alias, ts) && (Storable(alias.args) ==> ReadAsPattern(t, pre, alias, ts))
  {
    hide ReadAsTokens, ReadAsPattern;
    ScanFindsAliases(t, args);
    var scan := Scan(t, args).value;
    var site := Site(k, scan.subcommandPrefix);
    var pre := PreAliasFlags(args, k, site.prefix);
    PreAliasGrouped(t, args, site);
    BothReadings(t, pre, args[k], alias, args[k + 1..]);
  }

  /** The body comes to the run of the stored tokens exactly when `TokensAgree`. */
  ghost predicate ReadAsTokens(t: Tables, pre: seq<string>, alias: SavedAlias, ts: seq<string>)
    requires Partition(t, ts).Ok?
  {
    var body := ParseTokens(t, ExpandedBody(pre, alias, Partition(t, ts).value));
    var limit := WordLimit(ParseTokens(t, alias.args));
    Accept(body, limit) == Accept(DirectTokens(t, pre, alias.args, ts), limit) <==> TokensAgree(t, pre, alias.args, ts)
  }

  /** The body comes to the run of the stored pattern exactly when `MeansDirect`. */
  ghost predicate ReadAsPattern(t: Tables, pre: seq<string>, alias: SavedAlias, ts: seq<string>)
    requires Storable(alias.args) && Partition(t, ts).Ok?
  {
    var body := ParseTokens(t, ExpandedBody(pre, alias, Partition(t, ts).value));
    var limit := |alias.args| + 1;
    Accept(body, limit) == Accept(Direct(t, pre, alias.args, ts), limit) <==> MeansDirect(t, pre, alias.args, ts)
  }

  lemma BothReadings(t: Tables, pre: seq<string>, was: string, alias: SavedAlias, ts: seq<string>)
    requires WellFormed(t) && Partition(t, ts).Ok? && Grouped(t, pre, Some(was)) && was != "--"
    ensures ReadAsTokens(t, pre, alias, ts)
    ensures Storable(alias.args) ==> ReadAsPattern(t, pre, alias, ts)
  {
    hide Partition, Grouped, ParseTokens, MeansDirect, TokensAgree;
    TokensMeaning(t, pre, was, alias, ts);
    if Storable(alias.args) { ExpansionMeaning(t, pre, was, alias, ts); }
  }
}
