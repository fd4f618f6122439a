/**
 The release-version check of `scripts/ci/check_release_version.py`: the version
 a markdown document declares, the tokens that are stale, and the run that
 checks or fixes them.
 */
module ReleaseVersion {
  import opened Wrappers
  import opened Text
  import opened VersionTokens

  // ---------------------------------------------------------------------
  // The declared version
  // ---------------------------------------------------------------------

  function FirstNewline(s: string): (n: nat)
    ensures n <= |s| && (n < |s| ==> s[n] == '\n') && '\n' !in s[..n]
  {
    if s == "" || s[0] == '\n' then 0
    else
      var n := 1 + FirstNewline(s[1..]);
      assert s[..n] == [s[0]] + s[1..][..n - 1];
      n
  }

  /** The text between newlines. */
  function SplitLines(s: string): (ls: seq<string>)
    ensures ls != []
    decreases |s|
  {
    var n := FirstNewline(s);
    if n == |s| then [s] else [s[..n]] + SplitLines(s[n + 1..])
  }

  function SkipBlanks(s: string): string {
    if s != "" && (s[0] == ' ' || s[0] == '\t') then SkipBlanks(s[1..]) else s
  }

  function DropQuote(s: string): string {
    if s != "" && (s[0] == '"' || s[0] == '\'') then s[1..] else s
  }

  predicate Trailing(s: string) {
    forall c :: c in s ==> c == ' ' || c == '\t' || c == '\r'
  }

  const FIELD := "version:"

  /** The token a line `version: <token>` declares. */
  function Field(line: string): Option<string> {
    if !(FIELD <= line) then None
    else
      var value := DropQuote(SkipBlanks(line[|FIELD|..]));
      var n := TokenLen(value);
      if n > 0 && Trailing(DropQuote(value[n..])) then Some(value[..n]) else None
  }

  function FirstField(lines: seq<string>): Option<string> {
    if lines == [] then None
    else if Field(lines[0]).Some? then Field(lines[0])
    else FirstField(lines[1..])
  }

  const BOM := "\U{EF}\U{BB}\U{BF}"

  /** A `---` line, with blanks and a carriage return allowed after it. */
  predicate Fence(line: string) {
    "---" <= line && (SkipBlanks(line[3..]) == "" || SkipBlanks(line[3..]) == "\r")
  }

  predicate Opens(line: string) {
    Fence(if BOM <= line then line[|BOM|..] else line)
  }

  /** The first fence at or after line `j`. */
  function FirstFence(lines: seq<string>, j: nat): (r: Option<nat>)
    ensures r.Some? ==> j <= r.value < |lines|
    decreases |lines| - j
  {
    if j >= |lines| then None else if Fence(lines[j]) then Some(j) else FirstFence(lines, j + 1)
  }

  function DropCr(line: string): string {
    if line != "" && line[|line| - 1] == '\r' then line[..|line| - 1] else line
  }

  /** The lines between the opening fence and the first later fence that leaves at least one. */
  function Frontmatter(blob: string): Option<seq<string>> {
    var lines := SplitLines(blob);
    if !Opens(lines[0]) then None
    else
      match FirstFence(lines, 2)
      case None => None
      case Some(j) => Some(lines[1..j - 1] + [DropCr(lines[j - 1])])
  }

  function StripVs(s: string): string {
    if s != "" && s[0] == 'v' then StripVs(s[1..]) else s
  }

  datatype Undeclared = NoFrontmatter | NoField | NotJson

  function DeclaredVersion(blob: string): Result<string, Undeclared> {
    DeclaredIn(Frontmatter(blob))
  }

  function DeclaredIn(front: Option<seq<string>>): Result<string, Undeclared> {
    match front
    case None => Err(NoFrontmatter)
    case Some(body) =>
      match FirstField(body)
      case None => Err(NoField)
      case Some(token) => Ok(StripVs(token))
  }

  function TokensIn(ps: seq<Piece>): set<string> {
    if ps == [] then {}
    else (match ps[0] case Token(text) => {text} case Gap(_) => {}) + TokensIn(ps[1..])
  }

  function StaleTokens(blob: string, version: string): set<string> {
    set t | t in TokensIn(Pieces(blob)) && t != version && t != "v" + version
  }

  // ---------------------------------------------------------------------
  // Rewriting a document
  // ---------------------------------------------------------------------

  /** Text the pattern never touches, whatever follows it: no digit, and no `v` at its end. */
  predicate Inert(p: string) {
    (forall c :: c in p ==> !IsDigit(c)) && (p != "" ==> p[|p| - 1] != 'v')
  }

  lemma NoDigitNoCore(s: string, parts: nat)
    requires parts > 0 && (s == "" || !IsDigit(s[0]))
    ensures Core(s, parts) == 0
  {
  }

  lemma InertHeadIsGap(p: string, s: string)
    requires Inert(p) && p != ""
    ensures TokenLen(p + s) == 0 && Inert(p[1..])
  {
    assert p[0] in p;
    NoDigitNoCore(p + s, 3);
    assert forall c :: c in p[1..] ==> c in p;
    if |p| > 1 {
      assert p[1] in p;
      assert (p + s)[1..][0] == p[1];
      NoDigitNoCore((p + s)[1..], 3);
    }
  }

  lemma {:induction false} RewriteInert(p: string, s: string, version: string)
    requires Inert(p)
    ensures Rewrite(p + s, version) == p + Rewrite(s, version)
  {
    hide Rewrite, TokenLen;
    if p == "" {
      assert p + s == s && p + Rewrite(s, version) == Rewrite(s, version);
    } else {
      InertHeadIsGap(p, s);
      RewriteGap(p + s, version);
      DropFront(p, s, 1);
      RewriteInert(p[1..], s, version);
      HeadFirst(p, Rewrite(s, version));
    }
  }

  lemma HeadFirst(p: string, r: string)
    requires p != ""
    ensures [p[0]] + (p[1..] + r) == p + r
  {
    assert [p[0]] + p[1..] == p;
  }

  /** A substituted token starts with a digit, or a `v` and a digit. */
  lemma RetokenHead(s: string, version: string)
    requires IsVersion(version) && TokenLen(s) > 0
    ensures var r := Rewrite(s, version);
            r != "" && (IsDigit(r[0]) || (r[0] == 'v' && |r| > 1 && IsDigit(r[1])))
  {
    RewriteToken(s, version);
    VersionIsCore(version, "");
  }

  lemma RewriteNothing(version: string)
    ensures Rewrite("", version) == ""
  {
  }

  /** Inert text at the front of the result was at the front of the input. */
  lemma {:induction false} RewriteInertBack(p: string, s: string, version: string)
    requires IsVersion(version) && Inert(p) && p <= Rewrite(s, version)
    ensures p <= s
  {
    if p != "" {
      RewriteNothing(version);
      assert p[0] in p && forall c :: c in p[1..] ==> c in p;
      if |p| > 1 { assert p[1] in p; }
      if TokenLen(s) > 0 {
        RetokenHead(s, version);
        assert false;
      } else {
        RewriteGap(s, version);
        hide Rewrite;
        assert Rewrite(s, version)[1..] == Rewrite(s[1..], version);
        RewriteInertBack(p[1..], s[1..], version);
      }
    }
  }

  /** Inert text stays where it is at the front. */
  lemma InertFront(p: string, s: string, version: string)
    requires IsVersion(version) && Inert(p)
    ensures p <= s <==> p <= Rewrite(s, version)
    ensures p <= s ==> Rewrite(s, version)[|p|..] == Rewrite(s[|p|..], version)
  {
    hide Rewrite, TokenLen, Core, IsVersion, Retoken;
    if p <= s {
      assert s == p + s[|p|..];
      RewriteInert(p, s[|p|..], version);
    }
    if p <= Rewrite(s, version) {
      RewriteInertBack(p, s, version);
    }
  }

  /** A text is fixed when it is inert, before or after. */
  lemma InertWhole(s: string, version: string)
    requires IsVersion(version) && (Inert(s) || Inert(Rewrite(s, version)))
    ensures Rewrite(s, version) == s
  {
    hide Rewrite, TokenLen, Core, IsVersion, Retoken;
    RewriteNothing(version);
    if Inert(s) {
      assert s + "" == s;
      RewriteInert(s, "", version);
    } else {
      var r := Rewrite(s, version);
      InertFront(r, s, version);
      assert r[|r|..] == "";
      if s[|r|..] != "" { RewriteSomething(s[|r|..], version); }
    }
  }

  lemma RewriteSomething(s: string, version: string)
    requires IsVersion(version) && s != ""
    ensures Rewrite(s, version) != ""
  {
    if TokenLen(s) > 0 { RetokenHead(s, version); } else { RewriteGap(s, version); }
  }

  /** A byte that is neither digit nor `v` leads the result exactly when it led the input. */
  lemma InertByte(c: char, s: string, version: string)
    requires IsVersion(version) && !IsDigit(c) && c != 'v'
    ensures var r := Rewrite(s, version);
            (s != "" && s[0] == c <==> r != "" && r[0] == c) &&
            (s != "" && s[0] == c ==> r[1..] == Rewrite(s[1..], version))
  {
    hide Rewrite, TokenLen, Core, IsVersion, Retoken;
    var r := Rewrite(s, version);
    InertFront([c], s, version);
    assert [c] <= s <==> s != "" && s[0] == c;
    assert [c] <= r <==> r != "" && r[0] == c;
  }

  lemma {:induction false} SkipBlanksRewrite(s: string, version: string)
    requires IsVersion(version)
    ensures SkipBlanks(Rewrite(s, version)) == Rewrite(SkipBlanks(s), version)
  {
    hide Rewrite, TokenLen, Core, IsVersion, Retoken;
    InertByte(' ', s, version);
    InertByte('\t', s, version);
    if s != "" && (s[0] == ' ' || s[0] == '\t') {
      SkipBlanksRewrite(s[1..], version);
    }
  }

  lemma DropQuoteRewrite(s: string, version: string)
    requires IsVersion(version)
    ensures DropQuote(Rewrite(s, version)) == Rewrite(DropQuote(s), version)
  {
    hide Rewrite, TokenLen, Core, IsVersion, Retoken;
    InertByte('"', s, version);
    InertByte('\'', s, version);
  }

  lemma TrailingInert(s: string)
    requires Trailing(s)
    ensures Inert(s)
  {
    if s != "" { assert s[|s| - 1] in s; }
  }

  lemma TrailingRewrite(s: string, version: string)
    requires IsVersion(version)
    ensures Trailing(Rewrite(s, version)) <==> Trailing(s)
  {
    hide Rewrite, TokenLen, Core, IsVersion, Retoken;
    if Trailing(s) { TrailingInert(s); InertWhole(s, version); }
    if Trailing(Rewrite(s, version)) { TrailingInert(Rewrite(s, version)); InertWhole(s, version); }
  }

  function RetokenOption(token: Option<string>, version: string): Option<string> {
    match token
    case None => None
    case Some(t) => Some(Retoken(t, version))
  }

  /** The first token of a text and what follows it, before and after. */
  lemma FrontTokenRewrite(s: string, version: string)
    requires IsVersion(version)
    ensures var r, n := Rewrite(s, version), TokenLen(s);
            if n == 0 then TokenLen(r) == 0
            else r[..TokenLen(r)] == Retoken(s[..n], version) && TokenLen(r) > 0 &&
                 r[TokenLen(r)..] == Rewrite(s[n..], version)
  {
    RewriteNothing(version);
    if s != "" {
      if TokenLen(s) > 0 {
        var rest := Rewrite(s[TokenLen(s)..], version);
        RewriteToken(s, version);
        AfterToken(s, version);
        RetokenLen(s[..TokenLen(s)], version, rest);
        var t := Retoken(s[..TokenLen(s)], version);
        assert (t + rest)[..|t|] == t && (t + rest)[|t|..] == rest;
      } else {
        GapStaysGap(s, version);
      }
    }
  }

  /** A line declares the release after the rewrite exactly when it declared a version before. */
  lemma FieldRewrite(line: string, version: string)
    requires IsVersion(version)
    ensures Field(Rewrite(line, version)) == RetokenOption(Field(line), version)
  {
    hide Rewrite, TokenLen, IsVersion, Retoken;
    assert Inert(FIELD);
    InertFront(FIELD, line, version);
    if FIELD <= line {
      var blank := line[|FIELD|..];
      SkipBlanksRewrite(blank, version);
      DropQuoteRewrite(SkipBlanks(blank), version);
      var value := DropQuote(SkipBlanks(blank));
      FrontTokenRewrite(value, version);
      var rest := value[TokenLen(value)..];
      DropQuoteRewrite(rest, version);
      TrailingRewrite(DropQuote(rest), version);
    }
  }

  // ---------------------------------------------------------------------
  // Lines are rewritten one by one
  // ---------------------------------------------------------------------

  /** Text that cannot continue a token. */
  predicate Breaks(rest: string) {
    rest == "" || (!IsDigit(rest[0]) && rest[0] != '.')
  }

  predicate DotAt(s: string, run: nat) { 0 < run < |s| && s[run] == '.' }

  lemma SameCore(s: string, t: string, parts: nat)
    requires parts > 1 && DigitRun(s) == DigitRun(t)
    requires DotAt(s, DigitRun(s)) <==> DotAt(t, DigitRun(t))
    requires DotAt(s, DigitRun(s)) ==> Core(s[DigitRun(s) + 1..], parts - 1) == Core(t[DigitRun(t) + 1..], parts - 1)
    ensures Core(s, parts) == Core(t, parts)
  {
    CoreUnfolds(s, parts);
    CoreUnfolds(t, parts);
    hide Core, DigitRun;
  }

  lemma {:induction false} CoreBreaks(s: string, parts: nat, rest: string)
    requires parts > 0 && Breaks(rest)
    ensures Core(s + rest, parts) == Core(s, parts)
    decreases parts
  {
    RunStops(s, rest);
    if parts > 1 {
      var run := DigitRun(s);
      DotStays(s, rest, run);
      if DotAt(s, run) {
        DropFront(s, rest, run + 1);
        CoreBreaks(s[run + 1..], parts - 1, rest);
      }
      SameCore(s + rest, s, parts);
    }
  }

  lemma DotStays(s: string, rest: string, run: nat)
    requires Breaks(rest) && run <= |s|
    ensures DotAt(s + rest, run) <==> DotAt(s, run)
  {
  }

  lemma TokenBreaks(s: string, rest: string)
    requires Breaks(rest) && s != ""
    ensures TokenLen(s + rest) == TokenLen(s)
  {
    CoreBreaks(s, 3, rest);
    CoreBreaks(s[1..], 3, rest);
    hide Core;
    assert (s + rest)[1..] == s[1..] + rest;
  }

  lemma {:induction false} RewriteBreaks(s: string, rest: string, version: string)
    requires Breaks(rest)
    ensures Rewrite(s + rest, version) == Rewrite(s, version) + Rewrite(rest, version)
    decreases |s|
  {
    hide Rewrite, Core;
    if s == "" {
      RewriteNothing(version);
      assert s + rest == rest;
    } else {
      TokenBreaks(s, rest);
      var n := if TokenLen(s) > 0 then TokenLen(s) else 1;
      DropFront(s, rest, n);
      assert (s + rest)[..n] == s[..n];
      RewriteBreaks(s[n..], rest, version);
      if TokenLen(s) > 0 {
        RewriteToken(s, version);
        RewriteToken(s + rest, version);
      } else {
        RewriteGap(s, version);
        RewriteGap(s + rest, version);
      }
    }
  }

  lemma {:induction false} CoreChars(s: string, parts: nat)
    requires parts > 0
    ensures forall i :: 0 <= i < Core(s, parts) ==> IsDigit(s[i]) || s[i] == '.'
    decreases parts
  {
    RunEnds(s);
    var run := DigitRun(s);
    if parts > 1 && run < |s| {
      CoreChars(s[run + 1..], parts - 1);
      assert forall i :: run < i < Core(s, parts) ==> s[i] == s[run + 1..][i - run - 1];
    }
  }

  /** Neither a found token nor its substitute holds or ends in any byte but digits, dots and `v`. */
  lemma TokenBytes(s: string, version: string, c: char)
    requires IsVersion(version) && TokenLen(s) > 0 && !IsDigit(c) && c != '.' && c != 'v'
    ensures var n := TokenLen(s); var t := Retoken(s[..n], version);
            t != "" && c !in t && c !in s[..n]
  {
    CoreChars(version, 3);
    TokenChars(s);
    hide TokenLen, Core;
    var n := TokenLen(s);
    assert forall x :: x in version ==> IsDigit(x) || x == '.';
    assert forall x :: x in s[..n] ==> IsDigit(x) || x == '.' || x == 'v';
  }

  /** A byte that is no digit, dot or `v` is in the result only if it was in the input. */
  lemma {:induction false} RewriteAddsNoOther(s: string, version: string, c: char)
    requires IsVersion(version) && !IsDigit(c) && c != '.' && c != 'v'
    ensures c in Rewrite(s, version) ==> c in s
    ensures s != "" ==> var r := Rewrite(s, version); r != "" && (r[|r| - 1] == c <==> s[|s| - 1] == c)
    decreases |s|
  {
    hide Rewrite, TokenLen, IsVersion, Retoken;
    RewriteNothing(version);
    if s != "" {
      var n := if TokenLen(s) > 0 then TokenLen(s) else 1;
      RewriteAddsNoOther(s[n..], version, c);
      var t := if TokenLen(s) > 0 then Retoken(s[..n], version) else [s[0]];
      if TokenLen(s) > 0 {
        RewriteToken(s, version);
        TokenBytes(s, version, c);
        assert s[n - 1] in s[..n] && t[|t| - 1] in t;
      } else {
        RewriteGap(s, version);
        assert s[..1] == t;
      }
      EndsAlike(s[..n], s[n..], t, Rewrite(s[n..], version), c);
      assert s == s[..n] + s[n..];
    }
  }

  lemma EndsAlike(a: string, b: string, t: string, r: string, c: char)
    requires a != "" && t != "" && (c in t ==> c in a) && (c in r ==> c in b)
    requires t[|t| - 1] == c <==> a[|a| - 1] == c
    requires b == "" <==> r == ""
    requires b != "" ==> (r[|r| - 1] == c <==> b[|b| - 1] == c)
    ensures c in t + r ==> c in a + b
    ensures (t + r)[|t + r| - 1] == c <==> (a + b)[|a + b| - 1] == c
  {
  }

  lemma TokenChars(s: string)
    ensures forall i :: 0 <= i < TokenLen(s) ==> IsDigit(s[i]) || s[i] == '.' || s[i] == 'v'
  {
    CoreChars(s, 3);
    if s != "" {
      CoreChars(s[1..], 3);
      assert forall i :: 0 < i < |s| ==> s[i] == s[1..][i - 1];
    }
  }

  function RewriteEach(lines: seq<string>, version: string): (r: seq<string>)
    ensures |r| == |lines| && forall i :: 0 <= i < |r| ==> r[i] == Rewrite(lines[i], version)
  {
    seq(|lines|, i requires 0 <= i < |lines| => Rewrite(lines[i], version))
  }

  lemma NewlineIs(s: string, n: nat)
    requires n <= |s| && '\n' !in s[..n] && (n < |s| ==> s[n] == '\n')
    ensures FirstNewline(s) == n
  {
  }

  /** The first line, and the lines after the newline. */
  lemma LinesOf(line: string, rest: string)
    requires '\n' !in line
    ensures SplitLines(line) == [line]
    ensures SplitLines(line + (['\n'] + rest)) == [line] + SplitLines(rest)
  {
    var s := line + (['\n'] + rest);
    assert line[..|line|] == line && s[..|line|] == line && s[|line| + 1..] == rest;
    NewlineIs(line, |line|);
    NewlineIs(s, |line|);
  }

  lemma {:induction false} LinesRewrite(s: string, version: string)
    requires IsVersion(version)
    ensures SplitLines(Rewrite(s, version)) == RewriteEach(SplitLines(s), version)
    decreases |s|
  {
    hide Rewrite, TokenLen, Core, IsVersion, Retoken, SplitLines;
    var n := FirstNewline(s);
    var line := s[..n];
    RewriteAddsNoOther(line, version, '\n');
    if n == |s| {
      assert line == s;
      LinesOf(line, "");
      LinesOf(Rewrite(line, version), "");
    } else {
      var rest := s[n + 1..];
      assert s == line + (['\n'] + rest);
      RewriteBreaks(line, ['\n'] + rest, version);
      RewriteInert(['\n'], rest, version);
      LinesRewrite(rest, version);
      LinesOf(line, rest);
      LinesOf(Rewrite(line, version), Rewrite(rest, version));
    }
  }

  lemma FenceInert(line: string)
    requires Fence(line)
    ensures Inert(line)
  {
    BlanksInert(line[3..]);
    assert line == "---" + line[3..];
    assert forall c :: c in line ==> c == '-' || c in line[3..];
    assert line[|line| - 1] in line;
  }

  lemma {:induction false} BlanksInert(s: string)
    requires SkipBlanks(s) == "" || SkipBlanks(s) == "\r"
    ensures Trailing(s)
  {
    if s != "" && (s[0] == ' ' || s[0] == '\t') {
      BlanksInert(s[1..]);
      assert s == [s[0]] + s[1..];
    }
  }

  lemma FenceRewrite(line: string, version: string)
    requires IsVersion(version)
    ensures Fence(Rewrite(line, version)) <==> Fence(line)
  {
    hide Rewrite, TokenLen, Core, IsVersion, Retoken;
    if Fence(line) { FenceInert(line); InertWhole(line, version); }
    if Fence(Rewrite(line, version)) { FenceInert(Rewrite(line, version)); InertWhole(line, version); }
  }

  lemma OpensRewrite(line: string, version: string)
    requires IsVersion(version)
    ensures Opens(Rewrite(line, version)) <==> Opens(line)
  {
    hide Rewrite, TokenLen, Core, IsVersion, Retoken;
    InertFront(BOM, line, version);
    FenceRewrite(line, version);
    if BOM <= line { FenceRewrite(line[|BOM|..], version); }
  }

  lemma {:induction false} FirstFenceRewrite(lines: seq<string>, j: nat, version: string)
    requires IsVersion(version)
    ensures FirstFence(RewriteEach(lines, version), j) == FirstFence(lines, j)
    decreases |lines| - j
  {
    hide Rewrite, TokenLen, Core, IsVersion, Retoken;
    if j < |lines| {
      FenceRewrite(lines[j], version);
      FirstFenceRewrite(lines, j + 1, version);
    }
  }

  lemma DropCrRewrite(line: string, version: string)
    requires IsVersion(version)
    ensures DropCr(Rewrite(line, version)) == Rewrite(DropCr(line), version)
  {
    hide Rewrite, TokenLen, Core, IsVersion, Retoken;
    RewriteNothing(version);
    RewriteAddsNoOther(line, version, '\r');
    if line != "" && line[|line| - 1] == '\r' {
      var body := DropCr(line);
      assert line == body + "\r";
      RewriteBreaks(body, "\r", version);
      assert Inert("\r");
      InertWhole("\r", version);
    }
  }

  lemma {:induction false} FirstFieldRewrite(lines: seq<string>, version: string)
    requires IsVersion(version)
    ensures FirstField(RewriteEach(lines, version)) == RetokenOption(FirstField(lines), version)
  {
    hide Rewrite, TokenLen, Core, IsVersion, Retoken;
    if lines != [] {
      FieldRewrite(lines[0], version);
      FirstFieldRewrite(lines[1..], version);
      assert RewriteEach(lines, version)[1..] == RewriteEach(lines[1..], version);
    }
  }

  /** The frontmatter of the rewritten document is the rewritten frontmatter. */
  lemma FrontmatterRewrite(blob: string, version: string)
    requires IsVersion(version)
    ensures var before, after := Frontmatter(blob), Frontmatter(Rewrite(blob, version));
            (before.None? <==> after.None?) &&
            (before.Some? ==> after == Some(RewriteEach(before.value, version)))
  {
    hide Rewrite, TokenLen, Core, IsVersion, Retoken;
    var lines := SplitLines(blob);
    LinesRewrite(blob, version);
    OpensRewrite(lines[0], version);
    FirstFenceRewrite(lines, 2, version);
    hide SplitLines, FirstFence, Opens;
    if Frontmatter(blob).Some? {
      BodyRewrite(lines, FirstFence(lines, 2).value, version);
    }
  }

  lemma BodyRewrite(lines: seq<string>, j: nat, version: string)
    requires IsVersion(version) && 2 <= j < |lines|
    ensures var after := RewriteEach(lines, version);
            after[1..j - 1] + [DropCr(after[j - 1])] ==
            RewriteEach(lines[1..j - 1] + [DropCr(lines[j - 1])], version)
  {
    hide Rewrite, IsVersion, DropCr;
    DropCrRewrite(lines[j - 1], version);
    assert RewriteEach(lines, version)[1..j - 1] == RewriteEach(lines[1..j - 1], version);
    var body := lines[1..j - 1] + [DropCr(lines[j - 1])];
    assert RewriteEach(body, version) ==
           RewriteEach(lines[1..j - 1], version) + [Rewrite(DropCr(lines[j - 1]), version)];
  }

  /** A document declares the release after the rewrite exactly when it declared some version. */
  lemma DeclaredRewrite(blob: string, version: string)
    requires IsVersion(version)
    ensures DeclaredVersion(Rewrite(blob, version)) ==
            match DeclaredVersion(blob)
            case Ok(_) => Ok(version)
            case Err(e) => Err(e)
  {
    hide Frontmatter, Rewrite, IsVersion, RewriteEach;
    FrontmatterRewrite(blob, version);
    if Frontmatter(blob).Some? {
      DeclaredInRewritten(Frontmatter(blob).value, version);
    }
  }

  lemma DeclaredInRewritten(body: seq<string>, version: string)
    requires IsVersion(version)
    ensures DeclaredIn(Some(RewriteEach(body, version))) ==
            if DeclaredIn(Some(body)).Ok? then Ok(version) else Err(NoField)
  {
    FirstFieldRewrite(body, version);
    hide FirstField, Rewrite, RewriteEach, IsVersion, Retoken, StripVs;
    if FirstField(body).Some? {
      StripRetoken(FirstField(body).value, version);
    }
  }

  lemma StripRetoken(t: string, version: string)
    requires IsVersion(version)
    ensures StripVs(Retoken(t, version)) == version
  {
    VersionIsCore(version, "");
    assert version + "" == version;
    hide Core, IsVersion;
    StripOneV(version);
    assert "" + version == version;
  }

  lemma StripOneV(s: string)
    requires s != "" && IsDigit(s[0])
    ensures StripVs(s) == s && StripVs("v" + s) == s
  {
    assert ("v" + s)[1..] == s;
  }

  // ---------------------------------------------------------------------
  // The run
  // ---------------------------------------------------------------------

  /** A pinned document; one that cannot be read has no bytes. */
  datatype Doc = Doc(json: bool, blob: Option<string>)

  datatype Judgement = Rejected | Settled | Rewritten(blob: string)

  /** The `version` key of a JSON document, as its own parser reads it. */
  type JsonReader = string -> Option<string>

  function Declared(read: JsonReader, json: bool, blob: string): Result<string, Undeclared> {
    if json then
      match read(blob)
      case None => Err(NotJson)
      case Some(value) => Ok(StripVs(value))
    else DeclaredVersion(blob)
  }

  function Judge(read: JsonReader, doc: Doc, version: string, fix: bool): Judgement {
    match doc.blob
    case None => Rejected
    case Some(blob) =>
      var stale := StaleTokens(blob, version);
      match Declared(read, doc.json, blob)
      case Err(_) => Rejected
      case Ok(declared) =>
        if declared != version && !fix then Rejected
        else if stale == {} && declared == version then Settled
        else if fix then Rewritten(Rewrite(blob, version))
        else Rejected
  }

  function AfterJudgement(doc: Doc, j: Judgement): Doc {
    match j
    case Rewritten(blob) => doc.(blob := Some(blob))
    case _ => doc
  }

  /** Every document, as the run leaves it. */
  function AfterRun(read: JsonReader, docs: seq<Doc>, version: string, fix: bool): (r: seq<Doc>)
    ensures |r| == |docs|
  {
    seq(|docs|, i requires 0 <= i < |docs| => AfterJudgement(docs[i], Judge(read, docs[i], version, fix)))
  }

  ghost predicate AllAccepted(read: JsonReader, docs: seq<Doc>, version: string, fix: bool) {
    forall i :: 0 <= i < |docs| ==> Judge(read, docs[i], version, fix) != Rejected
  }

  /** One pass of the loop over the documents. */
  method Examine(read: JsonReader, doc: Doc, version: string, fix: bool) returns (j: Judgement)
    ensures j == Judge(read, doc, version, fix)
  {
    hide StaleTokens, Declared, Rewrite;
    if doc.blob.None? {
      return Rejected;
    }
    var blob := doc.blob.value;
    var stale := StaleTokens(blob, version);
    var declared := Declared(read, doc.json, blob);
    if declared.Err? {
      return Rejected;
    }
    if declared.value != version && !fix {
      return Rejected;
    }
    if stale == {} && declared.value == version {
      return Settled;
    }
    if fix {
      return Rewritten(Rewrite(blob, version));
    }
    return Rejected;
  }

  /** Check the documents, or fix them; no documents at all is a failure. */
  method Run(read: JsonReader, docs: seq<Doc>, version: string, fix: bool) returns (code: nat, left: seq<Doc>)
    ensures code == 0 || code == 1
    ensures code == 0 <==> docs != [] && AllAccepted(read, docs, version, fix)
    ensures left == AfterRun(read, docs, version, fix)
  {
    hide Judge;
    left := docs;
    if docs == [] {
      return 1, left;
    }
    var errors, fixed: nat := 0, 0;
    var i := 0;
    while i < |docs|
      invariant 0 <= i <= |docs| == |left|
      invariant errors >= 0
      invariant errors == 0 <==> forall k :: 0 <= k < i ==> Judge(read, docs[k], version, fix) != Rejected
      invariant forall k :: 0 <= k < i ==> left[k] == AfterJudgement(docs[k], Judge(read, docs[k], version, fix))
      invariant forall k :: i <= k < |docs| ==> left[k] == docs[k]
    {
      var j := Examine(read, docs[i], version, fix);
      match j {
        case Rejected => errors := errors + 1;
        case Settled =>
        case Rewritten(blob) =>
          left := left[i := docs[i].(blob := Some(blob))];
          fixed := fixed + 1;
      }
      i := i + 1;
    }
    code := if errors > 0 then 1 else 0;
  }

  // ---------------------------------------------------------------------
  // Fixing settles
  // ---------------------------------------------------------------------

  lemma {:induction false} TokensSubstituted(ps: seq<Piece>, version: string)
    ensures forall t :: t in TokensIn(SubstituteAll(ps, version)) ==> t == version || t == "v" + version
  {
    if ps != [] {
      TokensSubstituted(ps[1..], version);
      assert SubstituteAll(ps, version)[1..] == SubstituteAll(ps[1..], version);
      assert "" + version == version;
    }
  }

  /** No token of a rewritten text is stale. */
  lemma RewriteLeavesNoStale(blob: string, version: string)
    requires IsVersion(version)
    ensures StaleTokens(Rewrite(blob, version), version) == {}
  {
    RewriteRetokenises(blob, version);
    TokensSubstituted(Pieces(blob), version);
  }

  lemma SubstituteOnceMore(p: Piece, first: string, second: string)
    requires IsVersion(first)
    ensures Substitute(Substitute(p, first), second) == Substitute(p, second)
  {
    if p.Token? { RetokenOnceMore(p.text, first, second); }
  }

  lemma RetokenOnceMore(text: string, first: string, second: string)
    requires IsVersion(first)
    ensures Retoken(Retoken(text, first), second) == Retoken(text, second)
  {
    VersionIsCore(first, "");
    hide Core, IsVersion;
    if text != "" && text[0] == 'v' {
      assert ("v" + first)[0] == 'v';
    } else {
      assert "" + first == first && !IsDigit('v');
    }
  }

  lemma {:induction false} SubstituteTwice(ps: seq<Piece>, first: string, second: string)
    requires IsVersion(first)
    ensures SubstituteAll(SubstituteAll(ps, first), second) == SubstituteAll(ps, second)
  {
    hide Substitute, IsVersion;
    if ps != [] {
      SubstituteOnceMore(ps[0], first, second);
      SubstituteTwice(ps[1..], first, second);
      assert SubstituteAll(ps, first)[1..] == SubstituteAll(ps[1..], first);
    }
  }

  /** Bumping through a release is bumping past it; so a second rewrite is a no-op. */
  lemma RewriteTwice(blob: string, first: string, second: string)
    requires IsVersion(first)
    ensures Rewrite(Rewrite(blob, first), second) == Rewrite(blob, second)
  {
    RewriteRetokenises(blob, first);
    SubstituteTwice(Pieces(blob), first, second);
  }

  /**
   A markdown document is fixable exactly when it can be read and declares some
   version; and what fixing leaves is settled, for the check and for another fix.
   */
  lemma FixSettles(read: JsonReader, doc: Doc, version: string)
    requires IsVersion(version) && !doc.json
    ensures var j := Judge(read, doc, version, true);
            && (j != Rejected <==> doc.blob.Some? && DeclaredVersion(doc.blob.value).Ok?)
            && (Judge(read, AfterJudgement(doc, j), version, false) == Settled <==> j != Rejected)
            && (Judge(read, AfterJudgement(doc, j), version, false) == Rejected <==> j == Rejected)
            && (j != Rejected ==> Judge(read, AfterJudgement(doc, j), version, true) == Settled)
  {
    if doc.blob.Some? {
      DeclaredRewrite(doc.blob.value, version);
      RewriteLeavesNoStale(doc.blob.value, version);
    }
  }

  /** `--fix` and then a check: the check passes exactly where the fix did, on every set of markdown documents. */
  lemma FixThenCheck(read: JsonReader, docs: seq<Doc>, version: string)
    requires IsVersion(version) && forall doc :: doc in docs ==> !doc.json
    ensures AllAccepted(read, AfterRun(read, docs, version, true), version, false) <==>
            AllAccepted(read, docs, version, true)
    ensures AfterRun(read, AfterRun(read, docs, version, true), version, true) == AfterRun(read, docs, version, true)
  {
    var left := AfterRun(read, docs, version, true);
    forall i | 0 <= i < |docs|
      ensures Judge(read, left[i], version, false) == Rejected <==> Judge(read, docs[i], version, true) == Rejected
      ensures AfterJudgement(left[i], Judge(read, left[i], version, true)) == left[i]
    {
      assert docs[i] in docs;
      FixSettles(read, docs[i], version);
    }
    if AllAccepted(read, left, version, false) {
      forall i | 0 <= i < |docs| ensures Judge(read, docs[i], version, true) != Rejected {
        assert Judge(read, left[i], version, false) != Rejected;
      }
    }
  }
}
