/**
 The two readers a path scope goes through: the value tokens of the query lexer
 (`sqry-core/src/query/lexer.rs`), and the glob matcher's own escapes.
 */
module QueryLexer {
  import opened Text
  import opened Wrappers

  predicate IsAlpha(c: char) { 'a' <= c <= 'z' || 'A' <= c <= 'Z' }

  /** A value read from the front of the input, and what is left of it. */
  datatype Lexed = Lexed(value: string, rest: string)

  // ---------------------------------------------------------------------
  // Quoted strings
  // ---------------------------------------------------------------------

  function HexValue(c: char): Option<nat> {
    if IsDigit(c) then Some(c as int - '0' as int)
    else if 'a' <= c <= 'f' then Some(c as int - 'a' as int + 10)
    else if 'A' <= c <= 'F' then Some(c as int - 'A' as int + 10)
    else None
  }

  /** `\uXXXX`, from after the `u`. */
  function UnicodeEscape(s: string): Option<char> {
    if |s| < 4 then None
    else
      match (HexValue(s[0]), HexValue(s[1]), HexValue(s[2]), HexValue(s[3]))
      case (Some(a), Some(b), Some(c), Some(d)) =>
        var code := 4096 * a + 256 * b + 16 * c + d;
        if code < 0xD800 || 0xE000 <= code < 0x11_0000 then Some(code as char) else None
      case _ => None
  }

  /** The character an escape stands for, and how many characters it takes after the backslash. */
  function Escape(s: string): Option<(char, nat)> {
    if s == "" then None
    else
      var c := s[0];
      if c == '"' || c == '\'' || c == '\\' || c == '*' || c == '?' || c == '[' || c == ']' || c == '{' || c == '}'
      then Some((c, 1))
      else if c == 'n' then Some(('\n', 1))
      else if c == 't' then Some(('\t', 1))
      else if c == 'r' then Some(('\r', 1))
      else if c == 'u' then (match UnicodeEscape(s[1..]) case Some(u) => Some((u, 5)) case None => None)
      else None
  }

  lemma EscapeFits(s: string)
    ensures Escape(s).Some? ==> 0 < Escape(s).value.1 <= |s|
  {
  }

  /** The string after an opening quote, up to the first unescaped closing one. */
  function ReadString(s: string, quote: char): Option<Lexed>
    decreases |s|
  {
    if s == "" then None
    else if s[0] == quote then Some(Lexed("", s[1..]))
    else if s[0] == '\\' then
      EscapeFits(s[1..]);
      match Escape(s[1..])
      case None => None
      case Some((c, n)) => Push([c], ReadString(s[1 + n..], quote))
    else Push([s[0]], ReadString(s[1..], quote))
  }

  function Push(front: string, r: Option<Lexed>): Option<Lexed> {
    match r
    case None => None
    case Some(l) => Some(Lexed(front + l.value, l.rest))
  }

  // ---------------------------------------------------------------------
  // Bare words
  // ---------------------------------------------------------------------

  predicate IsWordStart(c: char) { IsAlpha(c) || c == '_' }

  predicate IsWordChar(c: char) {
    IsAlpha(c) || IsDigit(c) || c in {'_', '.', '*', '?', '/', '-', '[', ']'}
  }

  /** The length of the angle-bracket segment at the front, or 0 when it does not close before white space. */
  function Segment(s: string, depth: nat): (n: nat)
    ensures n <= |s|
  {
    if s == "" || IsWhitespace(s[0]) then 0
    else if s[0] == '>' && depth <= 1 then depth
    else
      var inner := Segment(s[1..], if s[0] == '<' then depth + 1 else if s[0] == '>' then depth - 1 else depth);
      if inner == 0 then 0 else 1 + inner
  }

  /** The word at the front of the input. */
  function ReadWord(s: string): Lexed
    decreases |s|
  {
    if s == "" then Lexed("", "")
    else if IsWordChar(s[0]) then Grow(s[..1], ReadWord(s[1..]))
    else if "::" <= s then Grow(s[..2], ReadWord(s[2..]))
    else if s[0] == '<' && Segment(s, 0) > 0 then Grow(s[..Segment(s, 0)], ReadWord(s[Segment(s, 0)..]))
    else Lexed("", s)
  }

  function Grow(front: string, l: Lexed): Lexed { Lexed(front + l.value, l.rest) }

  function Upper(s: string): string {
    seq(|s|, i requires 0 <= i < |s| =>
      if 'a' <= s[i] <= 'z' then (s[i] as int - 'a' as int + 'A' as int) as char else s[i])
  }

  predicate IsKeyword(word: string) {
    Upper(word) in {"AND", "OR", "NOT", "TRUE", "FALSE"}
  }

  /** The text a value token gives when the input is that token and nothing else. */
  function LexValue(s: string): Option<string> {
    if s == "" then None
    else if s[0] == '"' then
      match ReadString(s[1..], '"')
      case Some(Lexed(value, "")) => Some(value)
      case _ => None
    else if IsWordStart(s[0]) then
      var word := ReadWord(s);
      if word.rest == "" && !IsKeyword(word.value) then Some(word.value) else None
    else None
  }

  // ---------------------------------------------------------------------
  // Globs
  // ---------------------------------------------------------------------

  const GLOB_CHARS: set<char> := {'*', '?', '[', ']', '{', '}', '\\'}

  datatype GlobPiece = Literal(c: char) | Live(c: char)

  /** The pattern the matcher sees: a backslash makes the next character literal. */
  function ParseGlob(s: string): Option<seq<GlobPiece>>
    decreases |s|
  {
    if s == "" then Some([])
    else if s[0] == '\\' then
      if |s| < 2 then None else Cons(Literal(s[1]), ParseGlob(s[2..]))
    else Cons(if s[0] in GLOB_CHARS then Live(s[0]) else Literal(s[0]), ParseGlob(s[1..]))
  }

  function Cons(p: GlobPiece, r: Option<seq<GlobPiece>>): Option<seq<GlobPiece>> {
    match r
    case None => None
    case Some(ps) => Some([p] + ps)
  }

  function Literals(s: string): seq<GlobPiece> {
    if s == "" then [] else [Literal(s[0])] + Literals(s[1..])
  }
}
