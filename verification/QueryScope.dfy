/** The path scope added to a query by `sqry-cli/src/index_discovery.rs`, on non-Windows paths. */
module QueryScope {
  import opened Wrappers
  import opened QueryLexer
  import Text

  /** What one path character is escaped to: two backslashes for every one the matcher is to see. */
  function EscapeChar(c: char): string {
    if c == '\\' then "\\\\\\\\"
    else if c in GLOB_CHARS then "\\\\" + [c]
    else [c]
  }

  function EscapePath(path: string): string {
    if path == "" then "" else EscapeChar(path[0]) + EscapePath(path[1..])
  }

  lemma {:induction false} EscapePathSnoc(path: string, c: char)
    ensures EscapePath(path + [c]) == EscapePath(path) + EscapeChar(c)
  {
    if path == "" {
      assert "" + [c] == [c] && [c][1..] == "";
      assert EscapeChar(c) + "" == EscapeChar(c);
    } else {
      assert (path + [c])[1..] == path[1..] + [c];
      EscapePathSnoc(path[1..], c);
    }
  }

  method EscapePathForQuery(path: string) returns (escaped: string)
    ensures escaped == EscapePath(path)
  {
    escaped := "";
    var i := 0;
    while i < |path|
      invariant 0 <= i <= |path|
      invariant escaped == EscapePath(path[..i])
    {
      var ch := path[i];
      EscapePathSnoc(path[..i], ch);
      assert path[..i + 1] == path[..i] + [ch];
      if ch == '\\' {
        escaped := escaped + "\\\\\\\\";
      } else if ch in GLOB_CHARS {
        escaped := escaped + ("\\\\" + [ch]);
      } else {
        escaped := escaped + [ch];
      }
      i := i + 1;
    }
    assert path[..i] == path;
  }

  predicate NeedsQuoting(path: string) {
    (path != "" && !IsWordStart(path[0])) ||
    exists c :: c in path && (c == ' ' || c == '"' || c in GLOB_CHARS)
  }

  /** Every double quote with a backslash in front. */
  function EscapeQuotes(s: string): string {
    if s == "" then "" else (if s[0] == '"' then "\\\"" else [s[0]]) + EscapeQuotes(s[1..])
  }

  function Suffix(isFile: bool): string { if isFile then "" else "/**" }

  function ScopePattern(path: string, isFile: bool): string {
    if NeedsQuoting(path) then "\"" + EscapeQuotes(EscapePath(path)) + Suffix(isFile) + "\""
    else path + Suffix(isFile)
  }

  /** Only white space. */
  predicate Blank(s: string) { forall c :: c in s ==> Text.IsWhitespace(c) }

  function AugmentQuery(query: string, path: string, isFile: bool): string {
    if path == "" then query
    else
      var filter := "path:" + ScopePattern(path, isFile);
      if Blank(query) then filter else "(" + query + ") AND " + filter
  }

  // ---------------------------------------------------------------------
  // Quoted scopes
  // ---------------------------------------------------------------------

  /** The path as the matcher is to see it: glob characters behind one backslash. */
  function GlobEscaped(path: string): string {
    if path == "" then ""
    else GlobEscapedChar(path[0]) + GlobEscaped(path[1..])
  }

  function GlobEscapedChar(c: char): string {
    if c in GLOB_CHARS then ['\\', c] else [c]
  }

  lemma {:induction false} EscapeQuotesAppend(a: string, b: string)
    ensures EscapeQuotes(a + b) == EscapeQuotes(a) + EscapeQuotes(b)
  {
    if a == "" {
      assert a + b == b;
    } else {
      assert (a + b)[1..] == a[1..] + b;
      EscapeQuotesAppend(a[1..], b);
    }
  }

  /** What one path character becomes inside the quotes. */
  function QuotedChar(c: char): string {
    if c == '"' then "\\\"" else EscapeChar(c)
  }

  lemma EscapeQuotesOfChar(c: char)
    ensures EscapeQuotes(EscapeChar(c)) == QuotedChar(c)
  {
    var e := EscapeChar(c);
    if c == '\\' {
      var four: string := "\\\\\\\\";
      assert four[1..] == "\\\\\\" && four[1..][1..] == "\\\\" && four[1..][1..][1..] == "\\";
      assert "\\"[1..] == "";
      assert EscapeQuotes("\\") == "\\";
      assert EscapeQuotes("\\\\") == "\\\\";
      assert EscapeQuotes("\\\\\\") == "\\\\\\";
    } else if c in GLOB_CHARS {
      assert e[1..] == ['\\', c] && e[1..][1..] == [c] && [c][1..] == "";
      assert EscapeQuotes([c]) == [c];
      assert EscapeQuotes(['\\', c]) == ['\\', c];
    } else {
      assert [c][1..] == "";
    }
  }

  /** The lexer undoes one character's escapes and stops only where the text goes on. */
  lemma ReadQuotedChar(c: char, more: string)
    ensures ReadString(QuotedChar(c) + more, '"') ==
            Push(GlobEscapedChar(c), ReadString(more, '"'))
  {
    var s := QuotedChar(c) + more;
    if c == '"' {
      assert s[1..][0] == '"' && s[2..] == more;
    } else if c == '\\' {
      assert s[1..][0] == '\\' && s[2..] == "\\\\" + more;
      var t := s[2..];
      assert t[0] == '\\' && t[1..][0] == '\\' && t[2..] == more;
      assert ReadString(t, '"') == Push(['\\'], ReadString(more, '"'));
      assert ReadString(s, '"') == Push(['\\'], ReadString(t, '"'));
      assert ['\\'] + ['\\'] == ['\\', c];
      PushTwice(['\\'], ['\\'], ReadString(more, '"'));
    } else if c in GLOB_CHARS {
      assert s[1..][0] == '\\' && s[2..] == [c] + more;
      ReadRaw(c, more);
      assert ReadString(s, '"') == Push(['\\'], ReadString([c] + more, '"'));
      assert ['\\'] + [c] == ['\\', c];
      PushTwice(['\\'], [c], ReadString(more, '"'));
    } else {
      assert s[0] == c && s[1..] == more;
    }
  }

  lemma PushTwice(a: string, b: string, r: Option<Lexed>)
    ensures Push(a, Push(b, r)) == Push(a + b, r)
  {
    if r.Some? { assert a + (b + r.value.value) == a + b + r.value.value; }
  }

  /** The lexer stage undoes the quoting, up to the closing quote and not before. */
  lemma {:induction false} LexerUndoesQuoting(path: string, tail: string)
    ensures ReadString(EscapeQuotes(EscapePath(path)) + tail, '"') == Push(GlobEscaped(path), ReadString(tail, '"'))
  {
    if path == "" {
      assert "" + tail == tail;
      if ReadString(tail, '"').Some? {
        assert "" + ReadString(tail, '"').value.value == ReadString(tail, '"').value.value;
      }
    } else {
      EscapeQuotesAppend(EscapeChar(path[0]), EscapePath(path[1..]));
      EscapeQuotesOfChar(path[0]);
      var more := EscapeQuotes(EscapePath(path[1..])) + tail;
      assert EscapeQuotes(EscapePath(path)) + tail == QuotedChar(path[0]) + more;
      ReadQuotedChar(path[0], more);
      LexerUndoesQuoting(path[1..], tail);
      PushTwice(GlobEscapedChar(path[0]), GlobEscaped(path[1..]), ReadString(tail, '"'));
    }
  }

  lemma ReadRaw(c: char, more: string)
    requires c != '"' && c != '\\'
    ensures ReadString([c] + more, '"') == Push([c], ReadString(more, '"'))
  {
    assert ([c] + more)[1..] == more;
  }

  lemma SuffixReads(isFile: bool)
    ensures ReadString(Suffix(isFile) + "\"", '"') == Some(Lexed(Suffix(isFile), ""))
  {
    assert "\""[1..] == "" && "" + "\"" == "\"";
    assert ReadString("\"", '"') == Some(Lexed("", ""));
    if !isFile {
      ReadRaw('*', "\"");
      ReadRaw('*', "*\"");
      ReadRaw('/', "**\"");
      assert ['*'] + "\"" == "*\"" && ['*'] + "*\"" == "**\"" && ['/'] + "**\"" == Suffix(isFile) + "\"";
      assert ['*'] + "" == "*" && ['*'] + "*" == "**" && ['/'] + "**" == Suffix(isFile);
    }
  }

  /** What the matcher is to see: the path letter by letter, and for a directory a slash and two live stars. */
  function Intended(path: string, isFile: bool): seq<GlobPiece> {
    Literals(path) + if isFile then [] else [Literal('/'), Live('*'), Live('*')]
  }

  /** Append already parsed pieces to a parse. */
  function Before(ps: seq<GlobPiece>, r: Option<seq<GlobPiece>>): Option<seq<GlobPiece>> {
    match r
    case None => None
    case Some(qs) => Some(ps + qs)
  }

  lemma {:induction false} GlobUndoesEscapes(path: string, tail: string)
    ensures ParseGlob(GlobEscaped(path) + tail) == Before(Literals(path), ParseGlob(tail))
  {
    if path == "" {
      assert "" + tail == tail;
      if ParseGlob(tail).Some? { assert [] + ParseGlob(tail).value == ParseGlob(tail).value; }
    } else {
      var more := GlobEscaped(path[1..]) + tail;
      ParseEscaped(path[0], more);
      assert GlobEscaped(path) + tail == GlobEscapedChar(path[0]) + more;
      GlobUndoesEscapes(path[1..], tail);
      if ParseGlob(tail).Some? {
        assert [Literal(path[0])] + (Literals(path[1..]) + ParseGlob(tail).value) ==
               Literals(path) + ParseGlob(tail).value;
      }
    }
  }

  lemma ParseEscaped(c: char, more: string)
    ensures ParseGlob(GlobEscapedChar(c) + more) == Cons(Literal(c), ParseGlob(more))
  {
    var s := GlobEscapedChar(c) + more;
    assert s[|GlobEscapedChar(c)|..] == more;
  }

  lemma ParseRaw(c: char, more: string)
    requires c != '\\'
    ensures ParseGlob([c] + more) == Cons(if c in GLOB_CHARS then Live(c) else Literal(c), ParseGlob(more))
  {
    assert ([c] + more)[1..] == more;
  }

  lemma SuffixParses(isFile: bool)
    ensures ParseGlob(Suffix(isFile)) == Some(if isFile then [] else [Literal('/'), Live('*'), Live('*')])
  {
    if !isFile {
      ParseRaw('*', "");
      ParseRaw('*', "*");
      ParseRaw('/', "**");
      assert ['*'] + "" == "*" && ['*'] + "*" == "**" && ['/'] + "**" == Suffix(isFile);
      assert [Live('*')] + [] == [Live('*')] && [Live('*')] + [Live('*')] == [Live('*'), Live('*')];
      assert [Literal('/')] + [Live('*'), Live('*')] == [Literal('/'), Live('*'), Live('*')];
    }
  }

  /** The two stages a scope goes through. */
  function Decoded(scope: string): Option<seq<GlobPiece>> {
    match LexValue(scope)
    case None => None
    case Some(value) => ParseGlob(value)
  }

  /** A quoted scope always decodes to its path. */
  lemma QuotedScopeDecodes(path: string, isFile: bool)
    requires NeedsQuoting(path)
    ensures Decoded(ScopePattern(path, isFile)) == Some(Intended(path, isFile))
  {
    var scope := ScopePattern(path, isFile);
    var body := EscapeQuotes(EscapePath(path));
    assert scope == "\"" + (body + (Suffix(isFile) + "\""));
    assert scope[1..] == body + (Suffix(isFile) + "\"");
    LexerUndoesQuoting(path, Suffix(isFile) + "\"");
    SuffixReads(isFile);
    GlobUndoesEscapes(path, Suffix(isFile));
    SuffixParses(isFile);
  }

  // ---------------------------------------------------------------------
  // Bare scopes
  // ---------------------------------------------------------------------

  /** Letters, digits and `_ . / -`, with `::` and closed angle-bracket segments in between. */
  predicate Bare(path: string)
    decreases |path|
  {
    path == "" ||
    if IsWordChar(path[0]) then Bare(path[1..])
    else if "::" <= path then Bare(path[2..])
    else path[0] == '<' && Segment(path, 0) > 0 && Bare(path[Segment(path, 0)..])
  }

  /** A segment closes inside the path, or not at all: the suffix holds no `>`. */
  lemma {:induction false} SegmentIgnoresSuffix(s: string, depth: nat, isFile: bool)
    ensures Segment(s + Suffix(isFile), depth) == Segment(s, depth)
  {
    if s == "" {
      var t := Suffix(isFile);
      assert s + t == t;
      if !isFile {
        assert t[1..] == "**" && t[1..][1..] == "*" && t[1..][1..][1..] == "";
        assert Segment("*", depth) == 0 && Segment("**", depth) == 0;
      }
    } else {
      assert (s + Suffix(isFile))[1..] == s[1..] + Suffix(isFile);
      var next := if s[0] == '<' then depth + 1 else if s[0] == '>' && depth > 0 then depth - 1 else depth;
      SegmentIgnoresSuffix(s[1..], next, isFile);
    }
  }

  lemma SuffixIsWord(isFile: bool)
    ensures ReadWord(Suffix(isFile)) == Lexed(Suffix(isFile), "")
  {
    if !isFile {
      var t: string := "/**";
      assert t[1..] == "**" && t[1..][1..] == "*" && t[1..][1..][1..] == "";
      assert t[..1] == "/" && "**"[..1] == "*" && "*"[..1] == "*";
    }
  }

  /** The word read is the whole scope exactly when the path is bare. */
  lemma {:induction false} ReadWordExactly(path: string, isFile: bool)
    ensures var l := ReadWord(path + Suffix(isFile));
            && l.value + l.rest == path + Suffix(isFile)
            && (l.rest == "" <==> Bare(path))
    decreases |path|
  {
    if path == "" {
      assert path + Suffix(isFile) == Suffix(isFile);
      SuffixIsWord(isFile);
    } else {
      var n := WordStep(path);
      WordStepKept(path, isFile);
      WordStepReads(path);
      WordStepReads(path + Suffix(isFile));
      var s := path + Suffix(isFile);
      hide ReadWord, WordStep, Bare, Grow;
      if n > 0 {
        ReadWordExactly(path[n..], isFile);
        GrowCovers(s, n, ReadWord(s[n..]));
      } else {
        assert "" + s == s;
      }
    }
  }

  lemma GrowCovers(s: string, n: nat, l: Lexed)
    requires n <= |s| && l.value + l.rest == s[n..]
    ensures var g := Grow(s[..n], l); g.value + g.rest == s && g.rest == l.rest
  {
    assert s[..n] + l.value + l.rest == s[..n] + (l.value + l.rest);
    assert s[..n] + s[n..] == s;
  }

  /** How much of the input one turn of the word loop takes; 0 ends the word. */
  function WordStep(s: string): (n: nat)
    requires s != ""
    ensures n <= |s|
  {
    if IsWordChar(s[0]) then 1 else if "::" <= s then 2 else if s[0] == '<' then Segment(s, 0) else 0
  }

  lemma WordStepReads(s: string)
    requires s != ""
    ensures var n := WordStep(s);
            && ReadWord(s) == (if n > 0 then Grow(s[..n], ReadWord(s[n..])) else Lexed("", s))
            && Bare(s) == (n > 0 && Bare(s[n..]))
  {
  }

  lemma WordStepKept(path: string, isFile: bool)
    requires path != ""
    ensures var s, n := path + Suffix(isFile), WordStep(path);
            WordStep(s) == n && s[..n] == path[..n] && s[n..] == path[n..] + Suffix(isFile)
  {
    SegmentIgnoresSuffix(path, 0, isFile);
    NoColonInSuffix(path, isFile);
    assert (path + Suffix(isFile))[0] == path[0];
    hide Segment, IsWordChar;
    Front(path, Suffix(isFile), WordStep(path));
  }

  lemma Front(s: string, tail: string, n: nat)
    requires n <= |s|
    ensures (s + tail)[..n] == s[..n] && (s + tail)[n..] == s[n..] + tail
  {
  }

  lemma NoColonInSuffix(path: string, isFile: bool)
    requires path != ""
    ensures "::" <= path + Suffix(isFile) <==> "::" <= path
  {
    var s := path + Suffix(isFile);
    if |s| > 1 { assert "::" <= s <==> s[0] == ':' && s[1] == ':'; }
    if |path| > 1 { assert "::" <= path <==> path[0] == ':' && path[1] == ':'; }
  }

  lemma {:induction false} PlainPathIsLiteral(path: string)
    requires forall c :: c in path ==> c !in GLOB_CHARS
    ensures GlobEscaped(path) == path
  {
    if path != "" {
      assert path[0] in path && forall c :: c in path[1..] ==> c in path;
      PlainPathIsLiteral(path[1..]);
    }
  }

  /**
   A scope decodes to its path exactly when the path is quoted, or is a bare
   word that is no keyword; in particular a path may hold any characters at all
   once one of them makes it quoted.
   */
  lemma ScopeDecodesExactly(path: string, isFile: bool)
    requires path != ""
    ensures Decoded(ScopePattern(path, isFile)) == Some(Intended(path, isFile)) <==>
            (NeedsQuoting(path) || (Bare(path) && !(isFile && IsKeyword(path))))
  {
    if NeedsQuoting(path) {
      QuotedScopeDecodes(path, isFile);
    } else {
      var scope := path + Suffix(isFile);
      assert scope[0] == path[0];
      ReadWordExactly(path, isFile);
      PlainPathIsLiteral(path);
      GlobUndoesEscapes(path, Suffix(isFile));
      SuffixParses(isFile);
      var word := ReadWord(scope);
      if word.rest == "" {
        assert word.value + "" == word.value;
        assert word.value == scope;
        SlashIsNoKeyword(path, isFile);
      }
    }
  }

  /** No keyword holds a slash. */
  lemma SlashIsNoKeyword(path: string, isFile: bool)
    ensures IsKeyword(path + Suffix(isFile)) <==> isFile && IsKeyword(path)
  {
    if isFile {
      assert path + "" == path;
    } else {
      var s := path + Suffix(isFile);
      assert Upper(s)[|path|] == '/';
    }
  }

  /** Without colons and angle brackets, bare is a matter of single characters. */
  lemma {:induction false} BareByCharacter(path: string)
    requires ':' !in path && '<' !in path
    ensures Bare(path) <==> forall c :: c in path ==> IsWordChar(c)
  {
    if path != "" {
      assert path[0] in path && path == [path[0]] + path[1..];
      assert forall c :: c in path[1..] ==> c in path;
      BareByCharacter(path[1..]);
    }
  }

  lemma {:induction false} LiteralsAt(s: string)
    ensures |Literals(s)| == |s| && forall i :: 0 <= i < |s| ==> Literals(s)[i] == Literal(s[i])
  {
    if s != "" { LiteralsAt(s[1..]); }
  }

  /** Different scopes never look alike to the matcher. */
  lemma IntendedInjective(p: string, f: bool, q: string, g: bool)
    requires Intended(p, f) == Intended(q, g)
    ensures p == q && f == g
  {
    LiteralsAt(p);
    LiteralsAt(q);
    var a, b := Intended(p, f), Intended(q, g);
    assert |a| == |b|;
    assert f == g by { EndTells(p, f); EndTells(q, g); }
    assert |p| == |q|;
    forall i | 0 <= i < |p| ensures p[i] == q[i] {
      assert a[i] == Literal(p[i]) && b[i] == Literal(q[i]);
    }
  }

  /** A directory scope ends live, a file scope does not. */
  lemma EndTells(p: string, f: bool)
    ensures var a := Intended(p, f); f <==> a == [] || a[|a| - 1].Literal?
  {
    LiteralsAt(p);
  }

  /** So two scopes that decode as they should are the same text only for the same path and kind. */
  lemma ScopesDistinct(p: string, f: bool, q: string, g: bool)
    requires p != "" && q != "" && ScopePattern(p, f) == ScopePattern(q, g)
    requires NeedsQuoting(p) || (Bare(p) && !(f && IsKeyword(p)))
    requires NeedsQuoting(q) || (Bare(q) && !(g && IsKeyword(q)))
    ensures p == q && f == g
  {
    ScopeDecodesExactly(p, f);
    ScopeDecodesExactly(q, g);
    IntendedInjective(p, f, q, g);
  }

  /** The same holds of the whole query the scope is added to. */
  lemma AugmentedDistinct(query: string, p: string, f: bool, q: string, g: bool)
    requires p != "" && q != "" && AugmentQuery(query, p, f) == AugmentQuery(query, q, g)
    requires NeedsQuoting(p) || (Bare(p) && !(f && IsKeyword(p)))
    requires NeedsQuoting(q) || (Bare(q) && !(g && IsKeyword(q)))
    ensures p == q && f == g
  {
    hide ScopePattern, NeedsQuoting, Bare, IsKeyword;
    var front := if Blank(query) then "path:" else "(" + query + ") AND " + "path:";
    forall path, isFile | path != ""
      ensures AugmentQuery(query, path, isFile)[|front|..] == ScopePattern(path, isFile)
    {
      assert AugmentQuery(query, path, isFile) == front + ScopePattern(path, isFile);
    }
    assert ScopePattern(p, f) == ScopePattern(q, g);
    ScopesDistinct(p, f, q, g);
  }

  /** The directory `src+gen` is left bare, and lost at the plus sign. */
  lemma PlusIsLost()
    ensures Decoded(ScopePattern("src+gen", false)) != Some(Intended("src+gen", false))
  {
    PlusIsBareButUnlexable();
    hide *;
    ScopeDecodesExactly("src+gen", false);
  }

  lemma PlusIsBareButUnlexable()
    ensures !NeedsQuoting("src+gen") && !Bare("src+gen")
  {
    var plus: string := "src+gen";
    PlusLetters(plus);
    hide Bare, NeedsQuoting;
    assert plus[3] == '+';
    assert plus[3] in plus;
    BareByCharacter(plus);
  }

  lemma PlusLetters(plus: string)
    requires plus == "src+gen"
    ensures !NeedsQuoting(plus) && ':' !in plus && '<' !in plus
  {
    assert forall c :: c in plus ==> c in {'s', 'r', 'c', '+', 'g', 'e', 'n'};
  }

  /** The file `or` is left bare, and is a keyword. */
  lemma KeywordIsLost()
    ensures Decoded(ScopePattern("or", true)) != Some(Intended("or", true))
  {
    assert !NeedsQuoting("or");
    var word: string := "or";
    assert |Upper(word)| == 2 && Upper(word)[0] == 'O' && Upper(word)[1] == 'R';
    assert Upper(word) == "OR";
    assert IsKeyword(word);
    hide *;
    ScopeDecodesExactly("or", true);
  }
}
