/**
 The release tokens of `scripts/ci/check_release_version.py`: what the pattern
 `v?\d+\.\d+\.\d+` finds scanning left to right, and the substitution of every
 find.  A byte is the character of the same code.
 */
module VersionTokens {
  import opened Text

  /** How many digits the text starts with. */
  function DigitRun(s: string): (n: nat)
    ensures n <= |s|
  {
    if s == "" || !IsDigit(s[0]) then 0 else 1 + DigitRun(s[1..])
  }

  /** The length of the longest `\d+(\.\d+){parts - 1}` at the start, or 0. */
  function Core(s: string, parts: nat): (n: nat)
    requires parts > 0
    ensures n <= |s|
    decreases parts
  {
    var run := DigitRun(s);
    if run == 0 || parts == 1 then run
    else if run < |s| && s[run] == '.' && Core(s[run + 1..], parts - 1) > 0
    then run + 1 + Core(s[run + 1..], parts - 1)
    else 0
  }

  /** The length of the token at the start, or 0. */
  function TokenLen(s: string): (n: nat)
    ensures n <= |s|
  {
    if s != "" && s[0] == 'v' && Core(s[1..], 3) > 0 then 1 + Core(s[1..], 3) else Core(s, 3)
  }

  datatype Piece = Gap(c: char) | Token(text: string)

  /** The text as the scan cuts it: tokens, and single bytes between them. */
  function Pieces(s: string): seq<Piece>
    decreases |s|
  {
    if s == "" then []
    else
      var n := TokenLen(s);
      if n > 0 then [Token(s[..n])] + Pieces(s[n..]) else [Gap(s[0])] + Pieces(s[1..])
  }

  /** The token a find is replaced by: the release, with the `v` the find had. */
  function Retoken(text: string, version: string): string {
    (if text != "" && text[0] == 'v' then "v" else "") + version
  }

  function Substitute(p: Piece, version: string): Piece {
    match p
    case Gap(c) => p
    case Token(text) => Token(Retoken(text, version))
  }

  function SubstituteAll(ps: seq<Piece>, version: string): seq<Piece> {
    if ps == [] then [] else [Substitute(ps[0], version)] + SubstituteAll(ps[1..], version)
  }

  function TextOf(p: Piece): string {
    match p
    case Gap(c) => [c]
    case Token(text) => text
  }

  function Flatten(ps: seq<Piece>): string {
    if ps == [] then "" else TextOf(ps[0]) + Flatten(ps[1..])
  }

  /** Every token replaced, every other byte kept. */
  function Rewrite(s: string, version: string): string {
    Flatten(SubstituteAll(Pieces(s), version))
  }

  /** A version of the shape digits.digits.digits. */
  predicate IsVersion(version: string) { version != "" && Core(version, 3) == |version| }

  /** A version of that shape, with or without a pre-release or build part behind it. */
  predicate StartsVersion(version: string) { Core(version, 3) > 0 }

  // ---------------------------------------------------------------------
  // Stepping through a rewrite
  // ---------------------------------------------------------------------

  lemma RewriteGap(s: string, version: string)
    requires s != "" && TokenLen(s) == 0
    ensures Rewrite(s, version) == [s[0]] + Rewrite(s[1..], version)
  {
    var ps := Pieces(s);
    assert ps[1..] == Pieces(s[1..]);
    assert SubstituteAll(ps, version)[1..] == SubstituteAll(ps[1..], version);
  }

  lemma RewriteToken(s: string, version: string)
    requires TokenLen(s) > 0
    ensures Rewrite(s, version) == Retoken(s[..TokenLen(s)], version) + Rewrite(s[TokenLen(s)..], version)
  {
    var ps := Pieces(s);
    assert ps[1..] == Pieces(s[TokenLen(s)..]);
    assert SubstituteAll(ps, version)[1..] == SubstituteAll(ps[1..], version);
  }

  /** The pieces are the text. */
  lemma {:induction false} PiecesCover(s: string)
    ensures Flatten(Pieces(s)) == s
    decreases |s|
  {
    hide TokenLen;
    if s != "" {
      var n := if TokenLen(s) > 0 then TokenLen(s) else 1;
      PiecesCover(s[n..]);
      assert Pieces(s)[1..] == Pieces(s[n..]);
      assert s == s[..n] + s[n..];
    }
  }

  /** Core spelled out: the parts are digit runs, and no digit follows the last. */
  lemma {:induction false} CoreEnds(s: string, parts: nat)
    requires parts > 0 && Core(s, parts) > 0
    ensures var n := Core(s, parts); IsDigit(s[0]) && (n < |s| ==> !IsDigit(s[n]))
    decreases parts
  {
    RunEnds(s);
    if parts > 1 { CoreEnds(s[DigitRun(s) + 1..], parts - 1); }
  }

  lemma {:induction false} RunEnds(s: string)
    ensures var n := DigitRun(s);
            (n > 0 <==> s != "" && IsDigit(s[0])) && (n < |s| ==> !IsDigit(s[n])) &&
            (forall i :: 0 <= i < n ==> IsDigit(s[i]))
  {
    if s != "" && IsDigit(s[0]) { RunEnds(s[1..]); }
  }

  /** Where the next byte is no digit, a run before it ends there. */
  lemma {:induction false} RunStops(s: string, rest: string)
    requires rest == "" || !IsDigit(rest[0])
    ensures DigitRun(s + rest) == DigitRun(s)
  {
    if s == "" {
      assert s + rest == rest;
    } else if IsDigit(s[0]) {
      assert (s + rest)[1..] == s[1..] + rest;
      RunStops(s[1..], rest);
    }
  }

  lemma DropFront(s: string, rest: string, n: nat)
    requires n <= |s|
    ensures (s + rest)[n..] == s[n..] + rest
  {
  }

  /** Core, one part at a time. */
  lemma CoreUnfolds(s: string, parts: nat)
    requires parts > 1
    ensures var run := DigitRun(s);
            Core(s, parts) ==
            if 0 < run < |s| && s[run] == '.' && Core(s[run + 1..], parts - 1) > 0
            then run + 1 + Core(s[run + 1..], parts - 1) else 0
  {
  }

  /** A whole core stays the core in front of anything but a digit. */
  lemma {:induction false} CoreStops(core: string, parts: nat, rest: string)
    requires parts > 0 && core != "" && Core(core, parts) == |core|
    requires rest == "" || !IsDigit(rest[0])
    ensures Core(core + rest, parts) == |core|
    decreases parts
  {
    RunStops(core, rest);
    if parts > 1 {
      var run := DigitRun(core);
      assert run < |core| && core[run] == '.';
      DropFront(core, rest, run + 1);
      CoreStops(core[run + 1..], parts - 1, rest);
      CoreUnfolds(core + rest, parts);
    }
  }

  lemma {:induction false} CoreOfPrefix(s: string, parts: nat)
    requires parts > 0 && Core(s, parts) > 0
    ensures var n := Core(s, parts); Core(s[..n], parts) == n
    decreases parts
  {
    var n, run := Core(s, parts), DigitRun(s);
    RunOfPrefix(s, n);
    if parts > 1 {
      CoreOfPrefix(s[run + 1..], parts - 1);
      assert s[..n][run + 1..] == s[run + 1..][..n - run - 1];
    }
  }

  lemma {:induction false} RunOfPrefix(s: string, n: nat)
    requires DigitRun(s) <= n <= |s|
    ensures DigitRun(s[..n]) == DigitRun(s)
  {
    if s != "" && IsDigit(s[0]) {
      assert s[..n][1..] == s[1..][..n - 1];
      RunOfPrefix(s[1..], n - 1);
    }
  }

  // ---------------------------------------------------------------------
  // Substitution keeps every cut where it was
  // ---------------------------------------------------------------------

  /** Inside a part, with `parts` still to finish: can the pattern be completed from here? */
  predicate Completes(s: string, parts: nat)
    requires parts > 0
    decreases |s|, 0
  {
    parts == 1 ||
    (s != "" && ((IsDigit(s[0]) && Completes(s[1..], parts)) || (s[0] == '.' && Starts(s[1..], parts - 1))))
  }

  /** At the start of a part: can the pattern be completed from here? */
  predicate Starts(s: string, parts: nat)
    requires parts > 0
    decreases |s|, 1
  {
    s != "" && IsDigit(s[0]) && Completes(s[1..], parts)
  }

  lemma {:induction false} StartsIsCore(s: string, parts: nat)
    requires parts > 0
    ensures Core(s, parts) > 0 <==> Starts(s, parts)
    decreases |s|
  {
    if |s| > 1 && IsDigit(s[0]) && parts > 1 {
      var run := DigitRun(s);
      assert run == 1 + DigitRun(s[1..]);
      if IsDigit(s[1]) {
        StartsIsCore(s[1..], parts);
        if run < |s| { assert s[1..][run - 1] == s[run] && s[1..][run..] == s[run + 1..]; }
      } else {
        assert run == 1;
        StartsIsCore(s[2..], parts - 1);
        assert s[1..][1..] == s[2..];
      }
    }
  }

  /** A longer pattern starts where a shorter one does. */
  lemma {:induction false} FewerParts(s: string, parts: nat)
    requires parts > 1 && Core(s, parts) > 0
    ensures Core(s, parts - 1) > 0
    decreases parts
  {
    if parts > 2 { FewerParts(s[DigitRun(s) + 1..], parts - 1); }
  }

  lemma StartsAlike(s: string, t: string, parts: nat)
    requires 0 < parts <= 3 && Core(s, 3) > 0 && Core(t, 3) > 0
    ensures Starts(s, parts) && Starts(t, parts) && Completes(s, parts) && Completes(t, parts)
  {
    FewerParts(s, 3);
    FewerParts(t, 3);
    FewerParts(s, 2);
    FewerParts(t, 2);
    hide Core;
    StartsIsCore(s, parts);
    StartsIsCore(t, parts);
  }

  /** A version is one core, and starts with a digit. */
  lemma VersionIsCore(version: string, rest: string)
    requires IsVersion(version) && (rest == "" || !IsDigit(rest[0]))
    ensures Core(version + rest, 3) == |version| > 0 && IsDigit(version[0])
  {
    CoreStops(version, 3, rest);
    CoreEnds(version, 3);
  }

  /** A substituted token is one token, whatever follows that is no digit. */
  lemma RetokenLen(text: string, version: string, rest: string)
    requires IsVersion(version) && (rest == "" || !IsDigit(rest[0]))
    ensures var t := Retoken(text, version);
            && TokenLen(t + rest) == |t| > 0
            && (text != "" && text[0] == 'v' ==> t[0] == 'v')
            && (text == "" || text[0] != 'v' ==> Core(t + rest, 3) > 0)
  {
    VersionIsCore(version, rest);
    hide TokenLen, Core, IsVersion;
    TokenOfCore(version + rest);
    if text != "" && text[0] == 'v' {
      Prefixed(version, rest);
    } else {
      assert Retoken(text, version) == version;
    }
  }

  lemma Prefixed(version: string, rest: string)
    ensures "v" + version + rest == ['v'] + (version + rest)
  {
  }

  /** A core is a token, with or without a `v` in front. */
  lemma TokenOfCore(core: string)
    requires Core(core, 3) > 0 && IsDigit(core[0])
    ensures TokenLen(core) == Core(core, 3) && TokenLen(['v'] + core) == 1 + Core(core, 3)
  {
    hide Core;
    assert (['v'] + core)[1..] == core;
  }

  /** The text after a token starts with no digit, rewritten or not. */
  lemma AfterToken(s: string, version: string)
    requires IsVersion(version) && TokenLen(s) > 0
    ensures var rest := s[TokenLen(s)..];
            && (rest == "" || !IsDigit(rest[0]))
            && (Rewrite(rest, version) == "" || !IsDigit(Rewrite(rest, version)[0]))
  {
    var rest := s[TokenLen(s)..];
    if s[0] == 'v' && Core(s[1..], 3) > 0 {
      CoreEnds(s[1..], 3);
    } else {
      CoreEnds(s, 3);
    }
    if rest != "" {
      if TokenLen(rest) > 0 {
        RewriteToken(rest, version);
        if rest[0] != 'v' { CoreEnds(rest, 3); }
      } else {
        RewriteGap(rest, version);
      }
    }
  }

  /** The two texts offer the pattern the same places. */
  predicate SameShape(s: string, t: string, parts: nat)
    requires parts > 0
  {
    (Starts(s, parts) <==> Starts(t, parts)) && (Completes(s, parts) <==> Completes(t, parts))
  }

  lemma {:induction false} StartsGrows(s: string, rest: string, parts: nat)
    requires parts > 0
    ensures Starts(s, parts) ==> Starts(s + rest, parts)
    ensures Completes(s, parts) ==> Completes(s + rest, parts)
    decreases |s|
  {
    if s != "" {
      assert (s + rest)[1..] == s[1..] + rest;
      StartsGrows(s[1..], rest, parts);
      if parts > 1 { StartsGrows(s[1..], rest, parts - 1); }
    }
  }

  /** A substituted token that starts with a version still does, whatever follows. */
  lemma RetokenStarts(text: string, version: string, rest: string)
    requires StartsVersion(version)
    ensures Core(version + rest, 3) > 0
    ensures var t := Retoken(text, version);
            t != "" && if text != "" && text[0] == 'v' then t[0] == 'v' else t == version
  {
    StartsIsCore(version, 3);
    StartsGrows(version, rest, 3);
    StartsIsCore(version + rest, 3);
    hide Core;
    assert "" + version == version;
  }

  lemma TokenKeepsShape(s: string, version: string, parts: nat)
    requires StartsVersion(version) && 0 < parts <= 3 && TokenLen(s) > 0
    ensures SameShape(s, Rewrite(s, version), parts)
  {
    RewriteToken(s, version);
    RetokenStarts(s[..TokenLen(s)], version, Rewrite(s[TokenLen(s)..], version));
    hide Rewrite, Core;
    if s[0] != 'v' {
      StartsAlike(s, Rewrite(s, version), parts);
    }
  }

  lemma NothingToKeep(version: string, parts: nat)
    requires parts > 0
    ensures Rewrite("", version) == "" && SameShape("", "", parts)
  {
  }

  lemma ShapeStep(c: char, s: string, t: string, parts: nat)
    requires parts > 0 && SameShape(s, t, parts) && (parts > 1 ==> SameShape(s, t, parts - 1))
    ensures SameShape([c] + s, [c] + t, parts)
  {
    assert ([c] + s)[1..] == s && ([c] + t)[1..] == t;
  }

  /** Rewriting changes nothing about where the pattern can start or be completed. */
  lemma {:induction false} RewriteKeepsShape(s: string, version: string, parts: nat)
    requires StartsVersion(version) && 0 < parts <= 3
    ensures SameShape(s, Rewrite(s, version), parts)
    decreases |s|
  {
    hide *;
    if s == "" {
      NothingToKeep(version, parts);
    } else {
      if TokenLen(s) > 0 {
        TokenKeepsShape(s, version, parts);
      } else {
        RewriteGap(s, version);
        RewriteKeepsShape(s[1..], version, parts);
        if parts > 1 { RewriteKeepsShape(s[1..], version, parts - 1); }
        ShapeStep(s[0], s[1..], Rewrite(s[1..], version), parts);
        assert s == [s[0]] + s[1..];
      }
    }
  }

  /** Where the scan finds no token, it finds none after the rewrite. */
  lemma GapStaysGap(s: string, version: string)
    requires StartsVersion(version) && s != "" && TokenLen(s) == 0
    ensures TokenLen(Rewrite(s, version)) == 0
  {
    var r := Rewrite(s, version);
    RewriteGap(s, version);
    assert r[1..] == Rewrite(s[1..], version);
    StartsIsCore(s, 3);
    StartsIsCore(r, 3);
    StartsIsCore(s[1..], 3);
    StartsIsCore(r[1..], 3);
    RewriteKeepsShape(s, version, 3);
    RewriteKeepsShape(s[1..], version, 3);
  }

  /**
   The rewritten text is cut exactly where the text was: token for token with
   the release in place, byte for byte between them.
   */
  lemma {:induction false} RewriteRetokenises(s: string, version: string)
    requires IsVersion(version)
    ensures Pieces(Rewrite(s, version)) == SubstituteAll(Pieces(s), version)
    decreases |s|
  {
    if s != "" {
      var r, n := Rewrite(s, version), TokenLen(s);
      if n > 0 {
        var text, rest := s[..n], Rewrite(s[n..], version);
        RewriteToken(s, version);
        AfterToken(s, version);
        RetokenLen(text, version, rest);
        var t := Retoken(text, version);
        assert r[..|t|] == t && r[|t|..] == rest;
        RewriteRetokenises(s[n..], version);
      } else {
        RewriteGap(s, version);
        GapStaysGap(s, version);
        assert r[1..] == Rewrite(s[1..], version);
        RewriteRetokenises(s[1..], version);
      }
      var k := if n > 0 then n else 1;
      assert Pieces(s)[1..] == Pieces(s[k..]);
    }
  }
}
