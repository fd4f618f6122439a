/** The literate-Haskell converter of `sqry-lang-haskell/src/preprocess.rs`. */
module LiterateHaskell {
  import opened Text

  const BEGIN_CODE := "\\begin{code}"
  const END_CODE := "\\end{code}"

  predicate Begins(line: string) { BEGIN_CODE <= TrimStart(line) }

  predicate Ends(line: string) { END_CODE <= TrimStart(line) }

  predicate Bird(line: string) { ">" <= TrimStart(line) }

  /** Some place in the text holds `\begin{code}`. */
  predicate MentionsCode(s: string) { exists i :: 0 <= i <= |s| && BEGIN_CODE <= s[i..] }

  function BirdCount(lines: seq<string>): nat {
    if lines == [] then 0
    else BirdCount(lines[..|lines| - 1]) + if Bird(lines[|lines| - 1]) then 1 else 0
  }

  /** Literate: a code environment, four bird tracks, or bird tracks on a third of the lines. */
  predicate Literate(content: string) {
    var total, bird := |Lines(content)|, BirdCount(Lines(content));
    MentionsCode(content) || bird >= 4 || (bird > 0 && bird * 3 >= total)
  }

  method LooksLiterate(content: string) returns (b: bool)
    ensures b == Literate(content)
  {
    if MentionsCode(content) {
      return true;
    }
    var total, bird := 0, 0;
    var lines := Lines(content);
    while total < |lines|
      invariant 0 <= total <= |lines|
      invariant bird == BirdCount(lines[..total])
    {
      assert lines[..total + 1][..total] == lines[..total];
      if Bird(lines[total]) {
        bird := bird + 1;
      }
      total := total + 1;
    }
    assert lines[..total] == lines;
    return bird >= 4 || (bird > 0 && bird * 3 >= total);
  }

  /** A line without its bird track and one space after it. */
  function Unbird(line: string): string
    requires Bird(line)
  {
    var rest := TrimStart(line)[1..];
    if " " <= rest then rest[1..] else rest
  }

  /** Whether a code environment is open after the lines. */
  predicate InCode(lines: seq<string>) {
    lines != [] &&
    var last := lines[|lines| - 1];
    (Begins(last) || (!Ends(last) && InCode(lines[..|lines| - 1])))
  }

  /** What stands in the place of a line. */
  function Plain(inCode: bool, line: string): string {
    if Begins(line) || Ends(line) then ""
    else if inCode then line
    else if Bird(line) then Unbird(line)
    else ""
  }

  function Unlit(lines: seq<string>): (r: seq<string>)
    ensures |r| == |lines| && forall i :: 0 <= i < |r| ==> r[i] == Plain(InCode(lines[..i]), lines[i])
  {
    seq(|lines|, i requires 0 <= i < |lines| => Plain(InCode(lines[..i]), lines[i]))
  }

  function Convert(content: string): string {
    Closed(Unlines(Unlit(TrimAll(Lines(content)))), content)
  }

  method ConvertLiterate(content: string) returns (result: string)
    ensures result == Convert(content)
  {
    result := "";
    var inCodeBlock := false;
    var lines := Lines(content);
    ghost var trimmed := TrimAll(lines);
    var i := 0;
    while i < |lines|
      invariant 0 <= i <= |lines|
      invariant inCodeBlock == InCode(trimmed[..i])
      invariant result == Unlines(Unlit(trimmed[..i]))
    {
      var line := TrimCrs(lines[i]);
      UnlitSnoc(trimmed, i);
      i := i + 1;
      if Begins(line) {
        inCodeBlock := true;
        result := result + "\n";
        continue;
      }
      if Ends(line) {
        inCodeBlock := false;
        result := result + "\n";
        continue;
      }
      if inCodeBlock {
        result := result + line;
        result := result + "\n";
        continue;
      }
      if Bird(line) {
        result := result + Unbird(line);
        result := result + "\n";
      } else {
        result := result + "\n";
      }
    }
    assert trimmed[..i] == trimmed;
    if !EndsWithNewline(content) {
      result := result + "\n";
    }
  }

  lemma UnlitSnoc(lines: seq<string>, i: nat)
    requires i < |lines|
    ensures var inCode := InCode(lines[..i]);
            && InCode(lines[..i + 1]) == (Begins(lines[i]) || (!Ends(lines[i]) && inCode))
            && Unlines(Unlit(lines[..i + 1])) == Unlines(Unlit(lines[..i])) + Plain(inCode, lines[i]) + "\n"
  {
    var more, some := lines[..i + 1], lines[..i];
    assert more[..i] == some && more[i] == lines[i];
    assert forall k :: 0 <= k < i ==> more[..k] == some[..k];
    assert Unlit(more) == Unlit(some) + [Plain(InCode(some), lines[i])];
    UnlinesAppend(Unlit(some), [Plain(InCode(some), lines[i])]);
    UnlinesOne(Plain(InCode(some), lines[i]));
    hide Unlit, Unlines;
    var front, l := Unlines(Unlit(some)), Plain(InCode(some), lines[i]);
    assert front + (l + "\n") == front + l + "\n";
  }

  method PreprocessContent(content: string) returns (result: string)
    ensures result == if Literate(content) then Convert(content) else content
  {
    var literate := LooksLiterate(content);
    if content == "" || !literate {
      if content == "" { EmptyIsPlain(); }
      return content;
    }
    result := ConvertLiterate(content);
  }

  lemma EmptyIsPlain()
    ensures !Literate("")
  {
    assert forall i :: 0 <= i <= 0 ==> ""[i..] == "";
  }

  /** Line `j` opens an environment that no later line ends. */
  predicate OpenedAt(lines: seq<string>, j: nat) {
    j < |lines| && Begins(lines[j]) && forall k :: j < k < |lines| ==> !Ends(lines[k]) || Begins(lines[k])
  }

  /** A line is code exactly when some line before it opened an environment that was not ended since. */
  lemma {:induction false} InCodeExactly(lines: seq<string>)
    ensures InCode(lines) <==> exists j: nat :: OpenedAt(lines, j)
  {
    if lines != [] {
      var n := |lines| - 1;
      var init := lines[..n];
      InCodeExactly(init);
      if InCode(lines) {
        if Begins(lines[n]) {
          assert OpenedAt(lines, n);
        } else {
          var j: nat :| OpenedAt(init, j);
          forall k | j < k < |lines| ensures !Ends(lines[k]) || Begins(lines[k]) {
            if k < n { assert init[k] == lines[k]; }
          }
          assert OpenedAt(lines, j);
        }
      }
      if j: nat :| OpenedAt(lines, j) {
        if j < n {
          forall k | j < k < n ensures !Ends(init[k]) || Begins(init[k]) { assert init[k] == lines[k]; }
          assert OpenedAt(init, j);
        }
      }
    }
  }

  /** Stripping a bird track never brings a newline in. */
  lemma {:induction false} TrimStartSubset(s: string)
    ensures forall c :: c in TrimStart(s) ==> c in s
  {
    if s != "" && IsWhitespace(s[0]) { TrimStartSubset(s[1..]); }
  }

  /**
   The result has a line for every input line, in place; after them comes one
   blank line more exactly when the input does not end in a newline.
   */
  lemma LineAligned(content: string)
    ensures var lines := TrimAll(Lines(content));
            Lines(Convert(content)) == Unlit(lines) + if EndsWithNewline(content) then [] else [""]
  {
    var lines := TrimAll(Lines(content));
    var out := Unlit(lines);
    NoNewlines(content);
    hide Unlit, Lines, TrimAll;
    var more := out + if EndsWithNewline(content) then [] else [""];
    if EndsWithNewline(content) {
      assert more == out;
    } else {
      UnlinesAppend(out, [""]);
      UnlinesOne("");
      assert "" + "\n" == "\n";
    }
    LinesOfUnlines(more);
  }

  lemma NoNewlines(content: string)
    ensures forall l :: l in Unlit(TrimAll(Lines(content))) ==> '\n' !in l
  {
    var lines := TrimAll(Lines(content));
    var out := Unlit(lines);
    forall l | l in out ensures '\n' !in l {
      var i :| 0 <= i < |lines| && out[i] == l;
      TrimCrsTwice(Lines(content)[i]);
      TrimStartSubset(lines[i]);
      assert Lines(content)[i] in Lines(content);
    }
  }
}
