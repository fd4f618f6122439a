/**
 A reference reading of a command line, standing in for the argument parser
 the rewritten argv is handed to.  It is written from the parser's own rules
 (long flags with `=`, short flags that bundle, glued values, the `--` escape,
 a lone `-` as an ordinary word), and shares no code with the alias rewriter.
 */
module CommandLine {
  import opened Wrappers
  import opened Text

  /** The flags that take a value: always, or only when the next token is a count. */
  datatype Tables = Tables(valued: set<string>, optional: set<string>)

  predicate IsShortName(f: string) {
    |f| == 2 && f[0] == '-' && f[1] != '-' && f[1] != '='
  }

  predicate IsLongName(f: string) {
    |f| >= 3 && f[0] == '-' && f[1] == '-' && '=' !in f
  }

  /** Every table entry is spelled `-x` or `--name`. */
  ghost predicate WellFormed(t: Tables) {
    forall f :: f in t.valued || f in t.optional ==> IsShortName(f) || IsLongName(f)
  }

  /** Tokens read as flags: a dash and something after it. */
  predicate LooksLikeFlag(tok: string) {
    |tok| >= 2 && tok[0] == '-'
  }

  /** Tokens read as words wherever they stand before `--`. */
  predicate Plain(tok: string) {
    !LooksLikeFlag(tok)
  }

  const MAX_USIZE: nat := 0xFFFF_FFFF_FFFF_FFFF

  function DecimalValue(digits: string): nat
    requires forall c :: c in digits ==> IsDigit(c)
  {
    if digits == [] then 0
    else
      assert digits[|digits| - 1] in digits && IsDigit(digits[|digits| - 1]);
      10 * DecimalValue(digits[..|digits| - 1]) + (digits[|digits| - 1] as int - '0' as int)
  }

  /** Whether the token parses as a 64-bit unsigned integer (a leading `+` is allowed). */
  predicate IsCount(tok: string) {
    var digits := if |tok| > 0 && tok[0] == '+' then tok[1..] else tok;
    |digits| > 0 && (forall c :: c in digits ==> IsDigit(c)) && DecimalValue(digits) <= MAX_USIZE
  }

  datatype Flag = Flag(name: string, value: Option<string>)

  /** What one flag token says on its own. */
  datatype Reading =
    | Whole(flags: seq<Flag>)                    // nothing more to read
    | Needs(before: seq<Flag>, name: string)     // `name` must take the next token
    | MayTake(before: seq<Flag>, name: string)   // `name` takes the next token if it is a count
    | Unknown(name: string)                      // `=` after a flag that takes no value

  function Prepend(f: Flag, r: Reading): Reading {
    match r
    case Whole(fs) => Whole([f] + fs)
    case Needs(fs, name) => Needs([f] + fs, name)
    case MayTake(fs, name) => MayTake([f] + fs, name)
    case Unknown(name) => r
  }

  function StripEquals(v: string): string {
    if |v| > 0 && v[0] == '=' then v[1..] else v
  }

  /** Read the letters of a bundle of short flags: `-jkfoo` is `-j` and `-k foo`. */
  function ReadShorts(t: Tables, body: string): Reading {
    if body == "" then Whole([])
    else if body[0] == '=' then Unknown("-=")
    else
      var f := ['-', body[0]];
      if f in t.valued || f in t.optional then
        if |body| > 1 then Whole([Flag(f, Some(StripEquals(body[1..])))])
        else if f in t.valued then Needs([], f)
        else MayTake([], f)
      else Prepend(Flag(f, None), ReadShorts(t, body[1..]))
  }

  /** The part of a token before its first `=`. */
  function NameOf(tok: string): string {
    if tok == "" || tok[0] == '=' then "" else [tok[0]] + NameOf(tok[1..])
  }

  lemma NameOfIsPrefix(tok: string)
    ensures |NameOf(tok)| <= |tok| && NameOf(tok) == tok[..|NameOf(tok)|]
    ensures '=' !in NameOf(tok)
    ensures '=' !in tok ==> NameOf(tok) == tok
    ensures '=' in tok ==> |NameOf(tok)| < |tok| && tok[|NameOf(tok)|] == '='
  {
  }

  /** Read one long flag token: `--name` or `--name=value`. */
  function ReadLong(t: Tables, tok: string): Reading {
    NameOfIsPrefix(tok);
    var name := NameOf(tok);
    if '=' in tok then Whole([Flag(name, Some(tok[|name| + 1..]))])
    else if name in t.valued then Needs([], name)
    else if name in t.optional then MayTake([], name)
    else Whole([Flag(name, None)])
  }

  function Read(t: Tables, tok: string): Reading
    requires LooksLikeFlag(tok)
  {
    if tok[1] == '-' then ReadLong(t, tok) else ReadShorts(t, tok[1..])
  }

  /** A command line is a list of flags and a list of positionals, or is rejected. */
  datatype Parse = Parsed(flags: seq<Flag>, positionals: seq<string>) | Rejected(flag: string)

  function Join(a: Parse, b: Parse): Parse {
    match a
    case Rejected(_) => a
    case Parsed(f, p) =>
      match b
      case Rejected(_) => b
      case Parsed(g, q) => Parsed(f + g, p + q)
  }

  function ParseTokens(t: Tables, ts: seq<string>): Parse
    decreases |ts|
  {
    if ts == [] then Parsed([], [])
    else if ts[0] == "--" then Parsed([], ts[1..])
    else if Plain(ts[0]) then Join(Parsed([], [ts[0]]), ParseTokens(t, ts[1..]))
    else
      match Read(t, ts[0])
      case Whole(fs) => Join(Parsed(fs, []), ParseTokens(t, ts[1..]))
      case Needs(fs, name) =>
        if |ts| > 1 && Plain(ts[1])
        then Join(Parsed(fs + [Flag(name, Some(ts[1]))], []), ParseTokens(t, ts[2..]))
        else Rejected(name)
      case MayTake(fs, name) =>
        if |ts| > 1 && IsCount(ts[1])
        then Join(Parsed(fs + [Flag(name, Some(ts[1]))], []), ParseTokens(t, ts[2..]))
        else Join(Parsed(fs + [Flag(name, None)], []), ParseTokens(t, ts[1..]))
      case Unknown(name) => Rejected(name)
  }

  lemma JoinAssociative(a: Parse, b: Parse, c: Parse)
    ensures Join(Join(a, b), c) == Join(a, Join(b, c))
  {
    if a.Parsed? && b.Parsed? && c.Parsed? {
      assert a.flags + b.flags + c.flags == a.flags + (b.flags + c.flags);
      assert a.positionals + b.positionals + c.positionals == a.positionals + (b.positionals + c.positionals);
    }
  }

  lemma JoinUnit(a: Parse)
    ensures Join(a, Parsed([], [])) == a
    ensures Join(Parsed([], []), a) == a
  {
    if a.Parsed? {
      assert a.flags + [] == a.flags && [] + a.flags == a.flags;
      assert a.positionals + [] == a.positionals && [] + a.positionals == a.positionals;
    }
  }

  /** Plain words in front of a command line become its leading positionals. */
  lemma {:induction false} ParsePlainWords(t: Tables, words: seq<string>, rest: seq<string>)
    requires forall w :: w in words ==> Plain(w)
    ensures ParseTokens(t, words + rest) == Join(Parsed([], words), ParseTokens(t, rest))
  {
    if words == [] {
      assert words + rest == rest;
      JoinUnit(ParseTokens(t, rest));
    } else {
      var all := words + rest;
      assert all[1..] == words[1..] + rest && all[0] == words[0] && words[0] in words;
      assert ParseTokens(t, all) == Join(Parsed([], [words[0]]), ParseTokens(t, all[1..]));
      assert forall w :: w in words[1..] ==> w in words;
      ParsePlainWords(t, words[1..], rest);
      hide ParseTokens;
      JoinAssociative(Parsed([], [words[0]]), Parsed([], words[1..]), ParseTokens(t, rest));
      assert [words[0]] + words[1..] == words;
      assert Join(Parsed([], [words[0]]), Parsed([], words[1..])) == Parsed([], words);
    }
  }

  // ---------------------------------------------------------------------
  // The eager rule for optional values
  // ---------------------------------------------------------------------

  /**
   The same reading by a parser that gives an optional-value flag any word behind
   it, and refuses the flag when that word is no count.
   */
  function ParseEager(t: Tables, ts: seq<string>): Parse
    decreases |ts|
  {
    if ts == [] then Parsed([], [])
    else if ts[0] == "--" then Parsed([], ts[1..])
    else if Plain(ts[0]) then Join(Parsed([], [ts[0]]), ParseEager(t, ts[1..]))
    else
      match Read(t, ts[0])
      case Whole(fs) => Join(Parsed(fs, []), ParseEager(t, ts[1..]))
      case Needs(fs, name) =>
        if |ts| > 1 && Plain(ts[1])
        then Join(Parsed(fs + [Flag(name, Some(ts[1]))], []), ParseEager(t, ts[2..]))
        else Rejected(name)
      case MayTake(fs, name) =>
        if |ts| > 1 && IsCount(ts[1])
        then Join(Parsed(fs + [Flag(name, Some(ts[1]))], []), ParseEager(t, ts[2..]))
        else if |ts| > 1 && Plain(ts[1]) then Rejected(name)
        else Join(Parsed(fs + [Flag(name, None)], []), ParseEager(t, ts[1..]))
      case Unknown(name) => Rejected(name)
  }

  /** Some optional-value flag that is reached stands in front of a word that is no count. */
  predicate Hesitates(t: Tables, ts: seq<string>)
    decreases |ts|
  {
    ts != [] && ts[0] != "--" &&
    if Plain(ts[0]) then Hesitates(t, ts[1..])
    else
      match Read(t, ts[0])
      case Whole(_) => Hesitates(t, ts[1..])
      case Needs(_, _) => |ts| > 1 && Plain(ts[1]) && Hesitates(t, ts[2..])
      case MayTake(_, _) =>
        if |ts| > 1 && IsCount(ts[1]) then Hesitates(t, ts[2..])
        else (|ts| > 1 && Plain(ts[1])) || Hesitates(t, ts[1..])
      case Unknown(_) => false
  }

  /** The eager rule refuses what hesitates, and changes nothing else. */
  lemma {:induction false} EagerReads(t: Tables, ts: seq<string>)
    ensures if Hesitates(t, ts) then ParseEager(t, ts).Rejected? else ParseEager(t, ts) == ParseTokens(t, ts)
    decreases |ts|
  {
    if ts != [] && ts[0] != "--" {
      hide Read, IsCount;
      EagerReads(t, ts[1..]);
      if |ts| > 1 { EagerReads(t, ts[2..]); }
    }
  }
}
