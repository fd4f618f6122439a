/**
 When the expansion keeps its command word, told by the flags the reference
 parser reads; and the flag tables of `sqry-cli/src/main.rs`, with the inputs
 on which the rewriter and the direct form part.
 */
module AliasCommandWord {
  import opened Wrappers
  import opened CommandLine
  import opened AliasRewriter
  import opened AliasMeaning
  import opened AliasPattern
  import opened AliasTokens

  // ---------------------------------------------------------------------
  // The command word
  // ---------------------------------------------------------------------

  /** Long names and short letters are spelled without dashes and `=`. */
  ghost predicate SurfaceWellFormed(s: Surface) {
    && (forall l :: l in s.longs ==> l != "" && l[0] != '-' && '=' !in l)
    && '-' !in s.shorts && '=' !in s.shorts
  }

  /** The flag named as the parser reads it, `-x` or `--name`, is a top-level flag. */
  predicate TopLevel(s: Surface, name: string) {
    if |name| == 2 then name[0] == '-' && name[1] in s.shorts
    else "--" <= name && name[2..] in s.longs
  }

  /** Some flag read is not a top-level flag. */
  predicate AnyScoped(s: Surface, flags: seq<Flag>) {
    exists f :: f in flags && !TopLevel(s, f.name)
  }

  /** `-xyz=v`: read as the short flag `-x` with the rest glued on, looked up as `xyz`. */
  predicate Glued(tok: string) {
    LooksLikeFlag(tok) && tok[1] != '-' && '=' in tok && |NameOf(tok)| >= 3
  }

  /** The name is of no top-level flag, but with other dashes it would be: `-x` for `--x`, `--x` or `---x` for `-x`. */
  predicate OtherSpelling(s: Surface, name: string) {
    if |name| == 2 then name[1] != '-' && name[1] !in s.shorts && [name[1]] in s.longs
    else "--" <= name && name[2..] !in s.longs && IsBareName(s, TrimDashes(name[2..]))
  }

  /** Tokens that force the command word whatever they are read as: a lone `-`, and `-xyz=v` with `xyz` no name. */
  predicate Forces(s: Surface, tok: string) {
    tok == "-" || (Glued(tok) && !IsBareName(s, NameOf(tok)[1..]))
  }

  /** The token is read as a flag that is not top-level, and it shows: it is neither glued nor another spelling. */
  predicate Tells(t: Tables, s: Surface, tok: string) {
    LooksLikeFlag(tok) && !Glued(tok) &&
    exists n :: n in NamesRead(Read(t, tok)) && !TopLevel(s, n) && !OtherSpelling(s, n)
  }

  /** The names a reading of one token speaks of. */
  function NamesOf(flags: seq<Flag>): seq<string> {
    if flags == [] then [] else [flags[0].name] + NamesOf(flags[1..])
  }

  function NamesRead(r: Reading): seq<string> {
    match r
    case Whole(fs) => NamesOf(fs)
    case Needs(fs, name) => NamesOf(fs) + [name]
    case MayTake(fs, name) => NamesOf(fs) + [name]
    case Unknown(name) => [name]
  }

  lemma {:induction false} NamesOfAppend(a: seq<Flag>, b: seq<Flag>)
    ensures NamesOf(a + b) == NamesOf(a) + NamesOf(b)
  {
    if a == [] {
      assert a + b == b;
    } else {
      assert (a + b)[1..] == a[1..] + b;
      NamesOfAppend(a[1..], b);
    }
  }

  lemma NamesOfOne(f: Flag)
    ensures NamesOf([f]) == [f.name] && [] + [f.name] == [f.name]
  {
    assert [f][1..] == [];
  }

  lemma {:induction false} NamesOfAt(flags: seq<Flag>)
    ensures |NamesOf(flags)| == |flags| && forall i :: 0 <= i < |flags| ==> NamesOf(flags)[i] == flags[i].name
  {
    if flags != [] { NamesOfAt(flags[1..]); }
  }

  lemma NamesReadPrepend(f: Flag, r: Reading)
    requires !r.Unknown?
    ensures NamesRead(Prepend(f, r)) == [f.name] + NamesRead(r)
  {
    var fs := if r.Whole? then r.flags else r.before;
    assert ([f] + fs)[1..] == fs;
  }

  /** A bundle is classified by exactly the short flags read from it. */
  lemma {:induction false} ClusterNames(t: Tables, body: string)
    requires '=' !in body
    ensures !ReadShorts(t, body).Unknown?
    ensures ClusterOf(t, body).shorts == NamesRead(ReadShorts(t, body))
    ensures forall c :: c in ClusterOf(t, body).shorts ==> |c| == 2 && c[0] == '-' && NameOf(c) == c
  {
    if body != "" {
      assert body[0] in body && forall c :: c in body[1..] ==> c in body;
      ClusterNames(t, body[1..]);
      var short := ['-', body[0]];
      NameOfIsPrefix(short);
      assert '=' !in short;
      NamesOfOne(Flag(short, Some(StripEquals(body[1..]))));
      if !(short in t.valued || short in t.optional) {
        NamesReadPrepend(Flag(short, None), ReadShorts(t, body[1..]));
      }
    }
  }

  lemma DashesOff(s: Surface, name: string)
    requires |name| >= 2 && name[0] == '-'
    ensures TrimDashes(name) == if name[1] == '-' then TrimDashes(name[2..]) else name[1..]
  {
    assert name[1..][0] == name[1] && name[1..][1..] == name[2..];
  }

  /** The lookup of a flag's name finds the flag itself or another spelling, and nothing else. */
  lemma LookupFinds(s: Surface, name: string)
    requires SurfaceWellFormed(s) && ((|name| == 2 && name[0] == '-') || "--" <= name)
    ensures IsBareName(s, TrimDashes(name)) <==> TopLevel(s, name) || OtherSpelling(s, name)
  {
    DashesOff(s, name);
    if |name| == 2 {
      assert name[1..] == [name[1]] && name[2..] == "";
    } else if name[2..] in s.longs {
      assert TrimDashes(name[2..]) == name[2..];
    }
  }

  /** What one flag token that is read at all is judged by. */
  lemma TokenJudged(t: Tables, s: Surface, tok: string)
    requires WellFormed(t) && SurfaceWellFormed(s) && LooksLikeFlag(tok) && !Read(t, tok).Unknown?
    ensures ScopedToken(t, s, tok) <==> Forces(s, tok) || Tells(t, s, tok)
  {
    var names := NamesRead(Read(t, tok));
    NameOfIsPrefix(tok);
    assert tok == ['-'] + tok[1..];
    if tok[1] == '-' {
      assert "--" <= tok;
      forall v { NamesOfOne(Flag(NameOf(tok), v)); }
      assert names == [NameOf(tok)];
      assert FlagsToClassify(t, tok) == [tok];
      assert tok in FlagsToClassify(t, tok) && NameOf(tok) in names;
      LookupFinds(s, NameOf(tok));
    } else if '=' !in tok {
      assert !("--" <= tok);
      ClusterNames(t, tok[1..]);
      assert FlagsToClassify(t, tok) == names;
      forall n | n in names ensures DefinedOnTopLevel(s, n) <==> TopLevel(s, n) || OtherSpelling(s, n) {
        LookupFinds(s, n);
      }
    } else {
      assert '=' in tok[1..];
      GluedToken(t, tok);
      assert FlagsToClassify(t, tok) == [tok];
      assert tok in FlagsToClassify(t, tok);
      assert NameOf(tok)[0] == '-' && NameOf(tok)[1] == tok[1];
      if Glued(tok) {
        DashesOff(s, NameOf(tok));
      } else {
        assert NameOf(tok) in names;
        LookupFinds(s, NameOf(tok));
      }
    }
  }

  /** `-x=v` names the one flag `-x`, if it is read. */
  lemma GluedToken(t: Tables, tok: string)
    requires LooksLikeFlag(tok) && tok[1] != '-' && '=' in tok && !Read(t, tok).Unknown?
    ensures |NameOf(tok)| >= 2
    ensures |NameOf(tok)| == 2 ==> NamesRead(Read(t, tok)) == [NameOf(tok)]
  {
    NameOfIsPrefix(tok);
    var n := |NameOf(tok)|;
    assert tok[n] == '=';
    if n == 2 {
      var f := NameOf(tok);
      assert f == ['-', tok[1]];
      var body := tok[1..];
      assert ReadShorts(t, body[1..]) == Unknown("-=");
      NamesOfOne(Flag(f, Some(StripEquals(body[1..]))));
    }
  }

  lemma JudgedOne(t: Tables, s: Surface, tok: string)
    ensures AnyFlagRequiresSubcommand(t, s, [tok]) <==> ScopedToken(t, s, tok)
  {
    if ScopedToken(t, s, tok) { assert tok in [tok]; }
  }

  predicate AnyForces(s: Surface, ts: seq<string>) {
    exists tok :: tok in ts && Forces(s, tok)
  }

  predicate AnyTells(t: Tables, s: Surface, ts: seq<string>) {
    exists tok :: tok in ts && Tells(t, s, tok)
  }

  lemma ShowingApart(t: Tables, s: Surface, a: seq<string>, b: seq<string>)
    ensures AnyForces(s, a + b) <==> AnyForces(s, a) || AnyForces(s, b)
    ensures AnyTells(t, s, a + b) <==> AnyTells(t, s, a) || AnyTells(t, s, b)
  {
    hide Forces, Tells;
    if AnyForces(s, a) { var x :| x in a && Forces(s, x); assert x in a + b; }
    if AnyForces(s, b) { var x :| x in b && Forces(s, x); assert x in a + b; }
    if AnyTells(t, s, a) { var x :| x in a && Tells(t, s, x); assert x in a + b; }
    if AnyTells(t, s, b) { var x :| x in b && Tells(t, s, x); assert x in a + b; }
  }

  lemma ScopedApart(s: Surface, a: seq<Flag>, b: seq<Flag>)
    ensures AnyScoped(s, a + b) <==> AnyScoped(s, a) || AnyScoped(s, b)
  {
    if AnyScoped(s, a) { var f :| f in a && !TopLevel(s, f.name); assert f in a + b; }
    if AnyScoped(s, b) { var f :| f in b && !TopLevel(s, f.name); assert f in a + b; }
  }

  lemma ScopedByName(s: Surface, flags: seq<Flag>)
    ensures AnyScoped(s, flags) <==> exists n :: n in NamesOf(flags) && !TopLevel(s, n)
  {
    NamesOfAt(flags);
    if AnyScoped(s, flags) {
      var f :| f in flags && !TopLevel(s, f.name);
      var i :| 0 <= i < |flags| && flags[i] == f;
      assert NamesOf(flags)[i] == f.name;
    }
    if n :| n in NamesOf(flags) && !TopLevel(s, n) {
      var i :| 0 <= i < |flags| && NamesOf(flags)[i] == n;
      assert flags[i] in flags;
    }
  }

  /** A lone `-` is judged a subcommand flag, and no other plain token is judged. */
  lemma PlainJudged(t: Tables, s: Surface, tok: string)
    requires SurfaceWellFormed(s) && Plain(tok)
    ensures ScopedToken(t, s, tok) <==> Forces(s, tok)
  {
    if tok == "-" {
      assert FlagsToClassify(t, tok) == [tok] && tok in FlagsToClassify(t, tok);
      NameOfIsPrefix(tok);
      assert '=' !in tok && NameOf(tok) == tok;
      assert TrimDashes(tok) == TrimDashes(tok[1..]) == "";
    } else if StartsWithDash(tok) {
      DashTokenCases(tok);
    }
  }

  predicate ReadOrPlain(t: Tables, tok: string) {
    Plain(tok) || !Read(t, tok).Unknown?
  }

  /** In a run that is read, a flag that tells is one of the flags read, and every other token is plain. */
  lemma {:induction false} RunTokens(t: Tables, s: Surface, ts: seq<string>, next: Option<string>)
    requires WellFormed(t) && Grouped(t, ts, next) && ParseTokens(t, ts).Parsed?
    ensures forall tok :: tok in ts ==> ReadOrPlain(t, tok)
    ensures AnyTells(t, s, ts) ==> AnyScoped(s, ParseTokens(t, ts).flags)
    decreases |ts|
  {
    if ts != [] {
      DashTokenCases(ts[0]);
      var n := if |ts| > 1 && TakesNext(t, ts[0], Some(ts[1])) then 2 else 1;
      assert ts == ts[..n] + ts[n..];
      ShowingApart(t, s, ts[..n], ts[n..]);
      if ts[0] == "-" {
        LoneDashTakesNothing(t, Following(ts, next));
        LoneDashTakesNothing(t, Get(ts, 1));
        RunTokens(t, s, ts[1..], next);
        assert ts[..n] == ["-"];
      } else {
        var read := FirstRead(t, ts, n, next);
        RunTokens(t, s, ts[n..], next);
        GroupTells(t, s, ts[..n], read);
        ScopedApart(s, read, ParseTokens(t, ts[n..]).flags);
      }
    }
  }

  lemma GroupTells(t: Tables, s: Surface, group: seq<string>, read: seq<Flag>)
    requires |group| == 1 || (|group| == 2 && Plain(group[1]))
    requires LooksLikeFlag(group[0]) && NamesOf(read) == NamesRead(Read(t, group[0]))
    ensures AnyTells(t, s, group) ==> AnyScoped(s, read)
  {
    ScopedByName(s, read);
  }

  /**
   For every run of flag tokens the reference parser accepts, the rewriter
   keeps the command word because of them exactly when some token forces it, or
   some flag that is not top-level tells.
   */
  lemma WordKeptExactly(t: Tables, s: Surface, ts: seq<string>, next: Option<string>)
    requires WellFormed(t) && SurfaceWellFormed(s) && Grouped(t, ts, next) && ParseTokens(t, ts).Parsed?
    ensures AnyFlagRequiresSubcommand(t, s, ts) <==> AnyForces(s, ts) || AnyTells(t, s, ts)
  {
    RunTokens(t, s, ts, next);
    forall tok | tok in ts ensures ScopedToken(t, s, tok) <==> Forces(s, tok) || Tells(t, s, tok) {
      if Plain(tok) { PlainJudged(t, s, tok); } else { TokenJudged(t, s, tok); }
    }
  }

  /**
   The rewriter and the parser disagree about flags: either all flags are
   top-level and yet a token forces the word, or one is not and nothing shows it.
   */
  predicate Misjudged(t: Tables, s: Surface, flags: seq<Flag>, ts: seq<string>) {
    if AnyScoped(s, flags) then !AnyForces(s, ts) && !AnyTells(t, s, ts) else AnyForces(s, ts)
  }

  /** The command word is kept when, and only when, a flag read needs it, unless the run is misjudged. */
  lemma WordKeptAsNeeded(t: Tables, s: Surface, ts: seq<string>, next: Option<string>)
    requires WellFormed(t) && SurfaceWellFormed(s) && Grouped(t, ts, next) && ParseTokens(t, ts).Parsed?
    ensures (AnyFlagRequiresSubcommand(t, s, ts) <==> AnyScoped(s, ParseTokens(t, ts).flags)) <==>
            !Misjudged(t, s, ParseTokens(t, ts).flags, ts)
  {
    WordKeptExactly(t, s, ts, next);
    RunTokens(t, s, ts, next);
  }

  /** The flags read from the first group of a run. */
  lemma FirstRead(t: Tables, ts: seq<string>, n: nat, next: Option<string>) returns (read: seq<Flag>)
    requires WellFormed(t) && Grouped(t, ts, next) && ParseTokens(t, ts).Parsed?
    requires ts != [] && LooksLikeFlag(ts[0])
    requires n == if |ts| > 1 && TakesNext(t, ts[0], Some(ts[1])) then 2 else 1
    ensures Grouped(t, ts[n..], next) && ParseTokens(t, ts[n..]).Parsed?
    ensures !Read(t, ts[0]).Unknown? && NamesOf(read) == NamesRead(Read(t, ts[0]))
    ensures ParseTokens(t, ts).flags == read + ParseTokens(t, ts[n..]).flags
    ensures n == 2 ==> Plain(ts[1])
  {
    TakesMatchesReading(t, ts[0], Get(ts, 1));
    TakesMatchesReading(t, ts[0], Following(ts, next));
    if n == 2 && IsCount(ts[1]) { CountIsPlain(ts[1]); }
    match Read(t, ts[0])
    case Whole(fs) => read := fs;
    case Needs(fs, name) =>
      read := fs + [Flag(name, Some(ts[1]))];
      NamesOfAppend(fs, [Flag(name, Some(ts[1]))]);
    case MayTake(fs, name) =>
      var value := if n == 2 then Some(ts[1]) else None;
      read := fs + [Flag(name, value)];
      NamesOfAppend(fs, [Flag(name, value)]);
    case Unknown(_) => read := [];
  }

  /** The alias may run without its command word, as far as its stored part goes. */
  predicate Eligible(s: Surface, alias: SavedAlias) {
    alias.command == SEARCH && alias.args != [] && alias.args[0] !in s.subcommands
  }

  /**
   The shorthand form is used exactly for a `search` alias whose pattern is no
   subcommand name and whose flags, on both sides, show no need of the word.
   That is exactly when all of them are top-level, unless they are misjudged;
   so a subcommand flag is lost to the shorthand only where nothing shows it.
   */
  lemma ShorthandExactly(t: Tables, s: Surface, alias: SavedAlias, pre: seq<string>, at: string, ts: seq<string>)
    requires WellFormed(t) && SurfaceWellFormed(s) && Partition(t, ts).Ok?
    requires Grouped(t, pre, Some(at)) && ParseTokens(t, pre).Parsed? && ParseTokens(t, ts).Parsed?
    ensures var flags := ParseTokens(t, pre).flags + ParseTokens(t, ts).flags;
            var trailing := Partition(t, ts).value.flags;
            var tokens := pre + trailing;
            && (UseShorthand(t, s, alias, pre, trailing) <==>
                Eligible(s, alias) && !AnyForces(s, tokens) && !AnyTells(t, s, tokens))
            && ((UseShorthand(t, s, alias, pre, trailing) <==> Eligible(s, alias) && !AnyScoped(s, flags)) <==>
                !(Eligible(s, alias) && Misjudged(t, s, flags, tokens)))
  {
    var trailing := Partition(t, ts).value.flags;
    PartitionReads(t, ts);
    PartitionFlagsGrouped(t, ts);
    WordKeptExactly(t, s, pre, Some(at));
    WordKeptExactly(t, s, trailing, None);
    RunTokens(t, s, pre, Some(at));
    RunTokens(t, s, trailing, None);
    ScopedApart(s, ParseTokens(t, pre).flags, ParseTokens(t, ts).flags);
    ShowingApart(t, s, pre, trailing);
  }

  // ---------------------------------------------------------------------
  // The tables, and where the forms part
  // ---------------------------------------------------------------------

  const OUTPUT_FLAGS: set<string> := {"--columns", "--limit", "--format", "--sort", "--theme", "--pager-cmd"}

  const MATCH_FLAGS: set<string> := {"--kind", "-k", "--lang", "-l", "--max-depth"}

  const FUZZY_FLAGS: set<string> := {
    "--fuzzy-algorithm", "--fuzzy-threshold", "--fuzzy-max-candidates", "--fuzzy-field-distance"
  }

  const SEARCH_FLAGS: set<string> := {
    "--validate", "--threshold-orphaned-files", "--context", "-C", "--max-text-results"
  }

  const INPUT_FLAGS: set<string> := {"--var", "--cfg-filter", "--timeout", "--save-as", "--description"}

  const PLUGIN_FLAGS: set<string> := {"--enable-plugin", "--enable-language", "--disable-plugin", "--disable-language"}

  const REVISION_FLAGS: set<string> := {"--revision-id", "--revision-ref", "--revision-commit", "--revision-tree"}

  const WORKSPACE_FLAGS: set<string> := {"--workspace", "--config-dir", "--path", "--type"}

  const FLAGS_WITH_VALUES: set<string> :=
    OUTPUT_FLAGS + MATCH_FLAGS + FUZZY_FLAGS + SEARCH_FLAGS + INPUT_FLAGS + PLUGIN_FLAGS + REVISION_FLAGS +
    WORKSPACE_FLAGS

  const FLAGS_WITH_OPTIONAL_VALUES: set<string> := {"--preview", "-p"}

  const SQRY_TABLES := Tables(FLAGS_WITH_VALUES, FLAGS_WITH_OPTIONAL_VALUES)

  lemma OutputFlagsSpelled()
    ensures forall f :: f in OUTPUT_FLAGS + FUZZY_FLAGS ==> IsLongName(f)
  {
  }

  lemma MatchFlagsSpelled()
    ensures forall f :: f in MATCH_FLAGS + SEARCH_FLAGS ==> f in {"-k", "-l", "-C"} || IsLongName(f)
  {
  }

  lemma InputFlagsSpelled()
    ensures forall f :: f in INPUT_FLAGS + PLUGIN_FLAGS ==> IsLongName(f)
  {
  }

  lemma RevisionFlagsSpelled()
    ensures forall f :: f in REVISION_FLAGS + WORKSPACE_FLAGS ==> IsLongName(f)
  {
  }

  lemma ValueFlagSpelled(f: string)
    requires f in FLAGS_WITH_VALUES
    ensures f in {"-k", "-l", "-C"} || IsLongName(f)
  {
    OutputFlagsSpelled();
    MatchFlagsSpelled();
    InputFlagsSpelled();
    RevisionFlagsSpelled();
    hide OUTPUT_FLAGS, MATCH_FLAGS, FUZZY_FLAGS, SEARCH_FLAGS;
    hide INPUT_FLAGS, PLUGIN_FLAGS, REVISION_FLAGS, WORKSPACE_FLAGS;
    hide IsLongName;
  }

  lemma OptionalFlagSpelled(f: string)
    requires f in FLAGS_WITH_OPTIONAL_VALUES
    ensures f == "-p" || IsLongName(f)
  {
  }

  /** The tables are spelled right, and hold the flags used below as they do here. */
  ghost predicate LikeSqry(t: Tables) {
    && WellFormed(t)
    && "-p" in t.optional && "-p" !in t.valued
    && "-k" in t.valued && "-l" in t.valued && "--lang" in t.valued
    && (forall x :: ['-', x] in t.valued || ['-', x] in t.optional ==> x in {'k', 'l', 'C', 'p'})
  }

  lemma MatchFlagsHeld()
    ensures forall f :: f in MATCH_FLAGS ==> f in FLAGS_WITH_VALUES
    ensures "-k" in MATCH_FLAGS && "-l" in MATCH_FLAGS && "--lang" in MATCH_FLAGS
    ensures "-p" in FLAGS_WITH_OPTIONAL_VALUES
  {
  }

  /** Every table entry is spelled right, and the short ones are four. */
  lemma TableFlagSpelled(f: string)
    requires f in FLAGS_WITH_VALUES || f in FLAGS_WITH_OPTIONAL_VALUES
    ensures IsShortName(f) || IsLongName(f)
    ensures |f| == 2 ==> f[1] in {'k', 'l', 'C', 'p'} && (f[1] == 'p' ==> f !in FLAGS_WITH_VALUES)
  {
    if f in FLAGS_WITH_VALUES { ValueFlagSpelled(f); } else { OptionalFlagSpelled(f); }
    hide FLAGS_WITH_VALUES, FLAGS_WITH_OPTIONAL_VALUES;
  }

  lemma SqryTablesAreLikeSqry()
    ensures LikeSqry(SQRY_TABLES)
  {
    MatchFlagsHeld();
    hide FLAGS_WITH_VALUES, FLAGS_WITH_OPTIONAL_VALUES, MATCH_FLAGS;
    TableFlagSpelled("-p");
    forall f | f in FLAGS_WITH_VALUES || f in FLAGS_WITH_OPTIONAL_VALUES ensures IsShortName(f) || IsLongName(f) {
      TableFlagSpelled(f);
    }
    forall x | ['-', x] in SQRY_TABLES.valued || ['-', x] in SQRY_TABLES.optional ensures x in {'k', 'l', 'C', 'p'} {
      TableFlagSpelled(['-', x]);
    }
  }

  /** `sqry @picks -`: the direct form searches the path `-`, the expansion gives two paths. */
  lemma LoneDashIsLost(t: Tables, alias: SavedAlias)
    requires WellFormed(t) && alias.args == ["pick_"]
    ensures var tail := Partition(t, ["-"]);
            && tail == Ok(Tail(["-"], None))
            && Accept(Direct(t, [], alias.args, ["-"]), 2) == Run([], ["pick_", "-"])
            && Accept(ParseTokens(t, ExpandedBody([], alias, tail.value)), 2) == TooManyWords
  {
    LoneDashTakesNothing(t, None);
    hide TakesNext;
    assert ["-"][1..] == [] && ["-"][..1] + [] == ["-"];
    var body := ExpandedBody([], alias, Tail(["-"], None));
    assert body == ["pick_", ".", "-"];
    assert body[1..] == [".", "-"] && body[1..][1..] == ["-"] && body[1..][1..][1..] == [];
  }

  lemma FiveIsCount()
    ensures IsCount("5")
  {
    assert "5"[..0] == "";
    assert DecimalValue("5") == 5;
  }

  lemma PreviewReads(t: Tables)
    requires LikeSqry(t)
    ensures Read(t, "-p") == MayTake([], "-p")
  {
    assert "-p"[1..] == "p" && ['-', 'p'] == "-p";
  }

  /** `sqry -p @five` with the stored pattern `5`: the pattern becomes the value of `-p`. */
  lemma StoredCountIsSwallowed(t: Tables, alias: SavedAlias)
    requires LikeSqry(t) && alias.args == ["5"]
    ensures var tail := Tail([], None);
            && Partition(t, []) == Ok(tail)
            && Accept(Direct(t, ["-p"], alias.args, []), 2) == Run([Flag("-p", None)], ["5", "."])
            && Accept(ParseTokens(t, ExpandedBody(["-p"], alias, tail)), 2) == Run([Flag("-p", Some("5"))], ["."])
  {
    FiveIsCount();
    PreviewReads(t);
    hide IsCount, Read, LikeSqry;
    var body := ExpandedBody(["-p"], alias, Tail([], None));
    assert body == ["-p", "5", "."];
    assert body[2..] == ["."] && body[2..][1..] == [];
    assert ["-p"][1..] == [];
  }

  /** `sqry @neg` with the saved pattern `-5`: directly a search for `-5`, expanded one for `.` with a flag `-5`. */
  lemma SavedDashIsLost(t: Tables, alias: SavedAlias)
    requires LikeSqry(t) && alias.args == ["-5"]
    ensures var tail := Tail([], None);
            && Partition(t, []) == Ok(tail)
            && Accept(Direct(t, [], alias.args, []), 2) == Run([], ["-5", "."])
            && Accept(ParseTokens(t, ExpandedBody([], alias, tail)), 2) == Run([Flag("-5", None)], ["."])
            && !MeansDirect(t, [], alias.args, [])
  {
    assert ['-', '5'] == "-5";
    hide *;
    SavedDashIsRead(t, alias);
    SavedDashMisses(t, alias);
  }

  /** `-kfn=x` is `-k` with a value, yet it forces the command word even where `-k` is top-level. */
  lemma GluedEqualsForcesWord(t: Tables, s: Surface)
    requires LikeSqry(t) && SurfaceWellFormed(s) && 'k' in s.shorts && "kfn" !in s.longs
    ensures ParseTokens(t, ["-kfn=x"]) == Parsed([Flag("-k", Some("fn=x"))], [])
    ensures TopLevel(s, "-k") && AnyFlagRequiresSubcommand(t, s, ["-kfn=x"])
  {
    hide *;
    GluedRun(t, s, 'k', "fn", "x");
    assert ['-'] + (['k'] + "fn") + ['='] + "x" == "-kfn=x" && "fn" + ['='] + "x" == "fn=x";
    assert ['-', 'k'] == "-k" && ['k'] + "fn" == "kfn";
  }

  /**
   `-lang=rust` is `-l` with the value `ang=rust`, and is looked up as `lang`:
   it keeps the shorthand wherever `--lang` is top-level, whether `-l` is or not.
   */
  lemma GluedLongNameHides(t: Tables, s: Surface)
    requires LikeSqry(t) && SurfaceWellFormed(s) && "lang" in s.longs
    ensures ParseTokens(t, ["-lang=rust"]) == Parsed([Flag("-l", Some("ang=rust"))], [])
    ensures !AnyFlagRequiresSubcommand(t, s, ["-lang=rust"])
    ensures Misjudged(t, s, [Flag("-l", Some("ang=rust"))], ["-lang=rust"]) <==> 'l' !in s.shorts
  {
    hide *;
    GluedRun(t, s, 'l', "ang", "rust");
    assert ['-'] + (['l'] + "ang") + ['='] + "rust" == "-lang=rust" && "ang" + ['='] + "rust" == "ang=rust";
    assert ['-', 'l'] == "-l" && ['l'] + "ang" == "lang";
  }

  /** `-xyz=v` is read as `-x`, and looked up as `xyz`. */
  lemma GluedRun(t: Tables, s: Surface, x: char, yz: string, v: string)
    requires LikeSqry(t) && SurfaceWellFormed(s) && (x == 'k' || x == 'l') && yz != "" && '=' !in yz
    ensures var tok := ['-'] + ([x] + yz) + ['='] + v;
            var flag := Flag(['-', x], Some(yz + ['='] + v));
            && ParseTokens(t, [tok]) == Parsed([flag], [])
            && (AnyFlagRequiresSubcommand(t, s, [tok]) <==> [x] + yz !in s.longs)
            && (Misjudged(t, s, [flag], [tok]) <==> (x in s.shorts <==> [x] + yz !in s.longs))
            && (TopLevel(s, ['-', x]) <==> x in s.shorts)
  {
    GluedRead(t, x, yz, v);
    hide Read, ParseTokens, NameOf, Glued;
    var tok := ['-'] + ([x] + yz) + ['='] + v;
    var flag := Flag(['-', x], Some(yz + ['='] + v));
    GluedJudged(t, s, tok, [x] + yz);
    GluedMisjudged(t, s, tok, [x] + yz, flag);
  }

  lemma GluedMisjudged(t: Tables, s: Surface, tok: string, bare: string, flag: Flag)
    requires Glued(tok) && NameOf(tok)[1..] == bare
    ensures Misjudged(t, s, [flag], [tok]) <==> (TopLevel(s, flag.name) <==> !IsBareName(s, bare))
  {
    hide NameOf;
    assert flag in [flag] && tok in [tok];
    assert Forces(s, tok) <==> !IsBareName(s, bare);
    assert !Tells(t, s, tok);
  }

  /** `-xyz=v` for a short `-x` that takes a value. */
  lemma GluedRead(t: Tables, x: char, yz: string, v: string)
    requires LikeSqry(t) && (x == 'k' || x == 'l')
    requires yz != "" && '=' !in yz
    ensures var tok := ['-'] + ([x] + yz) + ['='] + v;
            && Read(t, tok) == Whole([Flag(['-', x], Some(yz + ['='] + v))])
            && ParseTokens(t, [tok]) == Parsed([Flag(['-', x], Some(yz + ['='] + v))], [])
            && Glued(tok) && NameOf(tok)[1..] == [x] + yz
  {
    var tok := ['-'] + ([x] + yz) + ['='] + v;
    var value := yz + ['='] + v;
    assert ['-', x] in {"-k", "-l"};
    assert tok[1..] == [x] + value && tok[1..][1..] == value && value[0] == yz[0] && yz[0] in yz;
    assert ReadShorts(t, tok[1..]) == Whole([Flag(['-', x], Some(value))]);
    ParseOneWhole(t, tok, [Flag(['-', x], Some(value))]);
    NameEnds(['-'] + ([x] + yz), v);
  }

  lemma {:induction false} NameEnds(name: string, v: string)
    requires '=' !in name
    ensures NameOf(name + ['='] + v) == name
  {
    var all := name + ['='] + v;
    if name != "" {
      assert name[0] in name && forall c :: c in name[1..] ==> c in name;
      assert all[1..] == name[1..] + ['='] + v;
      NameEnds(name[1..], v);
    }
  }

  lemma ParseOneWhole(t: Tables, tok: string, flags: seq<Flag>)
    requires LooksLikeFlag(tok) && tok != "--" && Read(t, tok) == Whole(flags)
    ensures ParseTokens(t, [tok]) == Parsed(flags, [])
  {
    hide Read;
    assert [tok][1..] == [] && flags + [] == flags;
  }

  lemma GluedJudged(t: Tables, s: Surface, tok: string, bare: string)
    requires WellFormed(t) && SurfaceWellFormed(s)
    requires Glued(tok) && !Read(t, tok).Unknown? && NameOf(tok)[1..] == bare
    ensures AnyFlagRequiresSubcommand(t, s, [tok]) <==> !IsBareName(s, bare)
    ensures Forces(s, tok) <==> !IsBareName(s, bare)
    ensures !Tells(t, s, tok)
  {
    TokenJudged(t, s, tok);
    JudgedOne(t, s, tok);
  }

  /** The stored arguments `kind:function --lang rust` stay among themselves; without `rust` they reach for the path. */
  lemma StoredLangReaches(t: Tables, next: string)
    requires LikeSqry(t) && Plain(next)
    ensures ReachOf(t, ["kind:function", "--lang", "rust"], next) == Stays
    ensures ParseTokens(t, ["kind:function", "--lang", "rust"]) ==
            Parsed([Flag("--lang", Some("rust"))], ["kind:function"])
    ensures ReachOf(t, ["kind:function", "--lang"], next) == Takes
  {
    LangNeedsValue(t);
    hide Read, LikeSqry;
    var all, short := ["kind:function", "--lang", "rust"], ["kind:function", "--lang"];
    assert all[1..] == ["--lang", "rust"] && all[1..][2..] == [] && short[1..] == ["--lang"];
  }

  lemma LangNeedsValue(t: Tables)
    requires "--lang" in t.valued
    ensures Read(t, "--lang") == Needs([], "--lang")
  {
    NameOfIsPrefix("--lang");
    assert '=' !in "--lang";
  }
}
