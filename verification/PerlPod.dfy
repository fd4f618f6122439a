/** The POD remover of `sqry-lang-perl/src/preprocess.rs`. */
module PerlPod {
  import opened Text

  datatype Kind = Cut | Open | Code

  function LowerChar(c: char): char {
    if 'A' <= c <= 'Z' then (c as int - 'A' as int + 'a' as int) as char else c
  }

  function Lower(s: string): string {
    seq(|s|, i requires 0 <= i < |s| => LowerChar(s[i]))
  }

  const OPENERS: set<string> := {
    "=begin", "=for", "=pod", "=head1", "=head2", "=head3", "=head4", "=over", "=back", "=item"
  }

  /** What a line is to the remover. */
  function KindOf(line: string): Kind {
    var trimmed := TrimStart(line);
    if trimmed == "" || trimmed[0] != '=' then Code
    else
      var directive := Lower(FirstWord(trimmed));
      if directive == "=cut" then Cut else if directive in OPENERS then Open else Code
  }

  /** The depth after a line. */
  function Next(depth: nat, line: string): nat {
    match KindOf(line)
    case Cut => if depth > 0 then depth - 1 else 0
    case Open => depth + 1
    case Code => depth
  }

  function DepthAfter(lines: seq<string>): nat {
    if lines == [] then 0 else Next(DepthAfter(lines[..|lines| - 1]), lines[|lines| - 1])
  }

  /** What stands in the place of a line. */
  function Kept(depth: nat, line: string): string {
    if depth == 0 && KindOf(line) == Code then line else ""
  }

  function Stripped(lines: seq<string>): (r: seq<string>)
    ensures |r| == |lines| && forall i :: 0 <= i < |r| ==> r[i] == Kept(DepthAfter(lines[..i]), lines[i])
  {
    seq(|lines|, i requires 0 <= i < |lines| => Kept(DepthAfter(lines[..i]), lines[i]))
  }

  function Preprocess(content: string): string {
    if content == "" then "" else Closed(Unlines(Stripped(TrimAll(Lines(content)))), content)
  }

  method PreprocessContent(content: string) returns (result: string)
    ensures result == Preprocess(content)
  {
    if content == "" {
      return content;
    }
    result := "";
    var podDepth: nat := 0;
    var lines := Lines(content);
    ghost var trimmed := TrimAll(lines);
    var i := 0;
    assert DepthAfter(trimmed[..0]) == 0 && Unlines(Stripped(trimmed[..0])) == "";
    hide DepthAfter, Stripped, Unlines, Lines, TrimCrs, KindOf;
    while i < |lines|
      invariant 0 <= i <= |lines|
      invariant podDepth == DepthAfter(trimmed[..i])
      invariant result == Unlines(Stripped(trimmed[..i]))
    {
      var line := TrimCrs(lines[i]);
      StrippedSnoc(trimmed, i);
      i := i + 1;
      match KindOf(line) {
        case Cut =>
          if podDepth > 0 {
            podDepth := podDepth - 1;
          }
          result := result + "\n";
          continue;
        case Open =>
          podDepth := podDepth + 1;
          result := result + "\n";
          continue;
        case Code =>
      }
      if podDepth > 0 {
        result := result + "\n";
        continue;
      }
      result := result + line;
      result := result + "\n";
    }
    assert trimmed[..i] == trimmed;
    if !EndsWithNewline(content) {
      result := result + "\n";
    }
  }

  /** One more line adds its own line to the result. */
  lemma StrippedSnoc(lines: seq<string>, i: nat)
    requires i < |lines|
    ensures var depth := DepthAfter(lines[..i]);
            && DepthAfter(lines[..i + 1]) == Next(depth, lines[i])
            && Unlines(Stripped(lines[..i + 1])) == Unlines(Stripped(lines[..i])) + Kept(depth, lines[i]) + "\n"
  {
    var more, some := lines[..i + 1], lines[..i];
    assert more[..i] == some && more[i] == lines[i];
    assert forall k :: 0 <= k < i ==> more[..k] == some[..k];
    assert Stripped(more) == Stripped(some) + [Kept(DepthAfter(some), lines[i])];
    UnlinesAppend(Stripped(some), [Kept(DepthAfter(some), lines[i])]);
    UnlinesOne(Kept(DepthAfter(some), lines[i]));
    hide Stripped, Unlines;
    var front, l := Unlines(Stripped(some)), Kept(DepthAfter(some), lines[i]);
    assert front + (l + "\n") == front + l + "\n";
  }

  // ---------------------------------------------------------------------
  // What the depth means
  // ---------------------------------------------------------------------

  function Count(lines: seq<string>, k: Kind): nat {
    if lines == [] then 0
    else Count(lines[..|lines| - 1], k) + if KindOf(lines[|lines| - 1]) == k then 1 else 0
  }

  /** How many more POD blocks were opened than cut since line `j`. */
  function Excess(lines: seq<string>, j: nat): int
    requires j <= |lines|
  {
    Count(lines[j..], Open) - Count(lines[j..], Cut)
  }

  /** Since line `j`, more POD blocks were opened than cut. */
  predicate OpenSince(lines: seq<string>, j: nat)
    requires j <= |lines|
  {
    Excess(lines, j) > 0
  }

  /**
   The depth is the largest excess of openings over cuts since any line: so a
   line is inside POD exactly when, since some line before it, more blocks were
   opened than cut.
   */
  lemma {:induction false} DepthIsExcess(lines: seq<string>)
    ensures forall j :: 0 <= j <= |lines| ==> Excess(lines, j) <= DepthAfter(lines)
    ensures exists j :: 0 <= j <= |lines| && Excess(lines, j) == DepthAfter(lines)
  {
    if lines == [] {
      assert lines[0..] == [] && Excess(lines, 0) == 0;
    } else {
      var n := |lines| - 1;
      var init, last := lines[..n], lines[n];
      DepthIsExcess(init);
      forall j | 0 <= j <= n ensures Excess(lines, j) == Excess(init, j) + Weight(last) {
        ExcessGrows(lines, j);
      }
      assert Excess(lines, |lines|) == 0 by { assert lines[|lines|..] == []; }
      assert DepthAfter(lines) == Next(DepthAfter(init), last);
      hide Excess, KindOf, DepthAfter;
      var j :| 0 <= j <= n && Excess(init, j) == DepthAfter(init);
      assert Excess(lines, j) == DepthAfter(init) + Weight(last);
    }
  }

  /** What a line adds to the openings less the cuts. */
  function Weight(line: string): int {
    match KindOf(line)
    case Open => 1
    case Cut => -1
    case Code => 0
  }

  lemma ExcessGrows(lines: seq<string>, j: nat)
    requires j < |lines|
    ensures var n := |lines| - 1; Excess(lines, j) == Excess(lines[..n], j) + Weight(lines[n])
  {
    var n := |lines| - 1;
    assert lines[j..][..n - j] == lines[..n][j..] && lines[j..][n - j] == lines[n];
  }

  lemma InsidePodExactly(lines: seq<string>)
    ensures DepthAfter(lines) > 0 <==> exists j :: 0 <= j <= |lines| && OpenSince(lines, j)
  {
    DepthIsExcess(lines);
    if DepthAfter(lines) > 0 {
      var j :| 0 <= j <= |lines| && Excess(lines, j) == DepthAfter(lines);
      assert OpenSince(lines, j);
    }
  }

  // ---------------------------------------------------------------------
  // Line alignment and idempotence
  // ---------------------------------------------------------------------

  lemma KeptHasNoNewline(lines: seq<string>)
    requires forall l :: l in lines ==> '\n' !in l
    ensures forall l :: l in Stripped(lines) ==> '\n' !in l
  {
    forall l | l in Stripped(lines) ensures '\n' !in l {
      var i :| 0 <= i < |lines| && Stripped(lines)[i] == l;
      assert lines[i] in lines;
    }
  }

  lemma TrimmedHasNoNewline(content: string)
    ensures forall l :: l in TrimAll(Lines(content)) ==> '\n' !in l
  {
    forall l | l in TrimAll(Lines(content)) ensures '\n' !in l {
      var i :| 0 <= i < |Lines(content)| && TrimAll(Lines(content))[i] == l;
      TrimCrsTwice(Lines(content)[i]);
      assert Lines(content)[i] in Lines(content);
    }
  }

  /**
   The result has a line for every input line, in place: the line itself
   without trailing carriage returns where no POD is open and it is no listed
   directive, and a blank line elsewhere; after them comes one blank line more
   exactly when the input does not end in a newline.
   */
  lemma LineAligned(content: string)
    requires content != ""
    ensures var lines := TrimAll(Lines(content));
            Lines(Preprocess(content)) == Stripped(lines) + if EndsWithNewline(content) then [] else [""]
  {
    var kept := Stripped(TrimAll(Lines(content)));
    TrimmedHasNoNewline(content);
    KeptHasNoNewline(TrimAll(Lines(content)));
    var more := kept + if EndsWithNewline(content) then [] else [""];
    if EndsWithNewline(content) {
      assert more == kept;
    } else {
      UnlinesAppend(kept, [""]);
      UnlinesOne("");
      assert "" + "\n" == "\n";
    }
    LinesOfUnlines(more);
  }

  lemma {:induction false} CodeStaysOut(lines: seq<string>)
    requires forall l :: l in lines ==> KindOf(l) == Code
    ensures DepthAfter(lines) == 0
  {
    if lines != [] {
      assert lines[|lines| - 1] in lines && forall l :: l in lines[..|lines| - 1] ==> l in lines;
      CodeStaysOut(lines[..|lines| - 1]);
    }
  }

  /** Lines with nothing to strip are left as they are. */
  lemma NothingToStrip(lines: seq<string>)
    requires forall l :: l in lines ==> KindOf(l) == Code && TrimCrs(l) == l
    ensures Stripped(TrimAll(lines)) == lines
  {
    assert TrimAll(lines) == lines by {
      forall i | 0 <= i < |lines| ensures TrimAll(lines)[i] == lines[i] { assert lines[i] in lines; }
    }
    forall i | 0 <= i < |lines| ensures Stripped(lines)[i] == lines[i] {
      assert lines[i] in lines && forall l :: l in lines[..i] ==> l in lines;
      CodeStaysOut(lines[..i]);
    }
  }

  /** A second pass changes nothing. */
  lemma Idempotent(content: string)
    ensures Preprocess(Preprocess(content)) == Preprocess(content)
  {
    if content != "" {
      var once := Preprocess(content);
      var lines := TrimAll(Lines(content));
      var kept := Stripped(lines) + if EndsWithNewline(content) then [] else [""];
      LineAligned(content);
      forall l | l in kept ensures KindOf(l) == Code && TrimCrs(l) == l {
        if l != "" {
          var i :| 0 <= i < |lines| && Stripped(lines)[i] == l;
          TrimCrsTwice(Lines(content)[i]);
        }
      }
      NothingToStrip(kept);
      ResultIsUnlines(content, kept);
      UnlinesEnds(kept);
    }
  }

  lemma ResultIsUnlines(content: string, kept: seq<string>)
    requires content != ""
    requires kept == Stripped(TrimAll(Lines(content))) + if EndsWithNewline(content) then [] else [""]
    ensures kept != [] && Preprocess(content) == Unlines(kept)
  {
    var stripped := Stripped(TrimAll(Lines(content)));
    if EndsWithNewline(content) {
      assert kept == stripped;
    } else {
      UnlinesAppend(stripped, [""]);
      UnlinesOne("");
      assert "" + "\n" == "\n";
    }
  }
}
