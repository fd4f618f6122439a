/**
 What `scripts/ci/check_release_version.py` does when the workspace version has
 a pre-release or build part: exactly when `--fix` settles a document.
 */
module PrereleaseVersion {
  import opened Wrappers
  import opened Text
  import opened VersionTokens
  import opened ReleaseVersion

  lemma CoreAgain(s: string, parts: nat, rest: string)
    requires parts > 0 && 0 < Core(s, parts) < |s|
    ensures var n := Core(s, parts);
            Core(s[..n], parts) == n && Core(s + rest, parts) == n
  {
    var n := Core(s, parts);
    CoreEnds(s, parts);
    CoreOfPrefix(s, parts);
    CoreStops(s[..n], parts, s[n..] + rest);
    assert s + rest == s[..n] + (s[n..] + rest);
  }

  /** Where text follows the three numbers, they alone are found again. */
  lemma CoreFoundAgain(version: string, rest: string)
    requires StartsVersion(version) && !IsVersion(version)
    ensures var core := version[..Core(version, 3)];
            && IsVersion(core) && |core| < |version|
            && Core(version + rest, 3) == |core| > 0
  {
    hide Core;
    CoreAgain(version, 3, rest);
  }

  lemma RetokenFoundAgain(text: string, version: string, rest: string)
    requires StartsVersion(version) && !IsVersion(version)
    ensures var core := version[..Core(version, 3)];
            var t := Retoken(text, version) + rest;
            TokenLen(t) > 0 && t[..TokenLen(t)] == Retoken(text, core)
  {
    hide Core;
    CoreFoundAgain(version, rest);
    CoreEnds(version + rest, 3);
    TokenOfCore(version + rest);
    var core := version[..Core(version, 3)];
    hide *;
    RetokenFront(text, version, core, rest);
  }

  lemma RetokenFront(text: string, version: string, core: string, rest: string)
    requires core <= version
    requires TokenLen(version + rest) == |core| > 0 && TokenLen(['v'] + (version + rest)) == 1 + |core|
    ensures var t := Retoken(text, version) + rest;
            TokenLen(t) > 0 && t[..TokenLen(t)] == Retoken(text, core)
  {
    hide TokenLen;
    var s := version + rest;
    assert s[..|core|] == core;
    if text != "" && text[0] == 'v' {
      Prefixed(version, rest);
      assert (['v'] + s)[..|core| + 1] == "v" + core;
    } else {
      assert "" + version + rest == s && "" + core == core;
    }
  }

  /** Once there is a token, the rewritten text holds the bare three numbers. */
  lemma {:induction false} CoreIsLeft(blob: string, version: string)
    requires StartsVersion(version) && !IsVersion(version) && TokensIn(Pieces(blob)) != {}
    ensures var core := version[..Core(version, 3)];
            core in TokensIn(Pieces(Rewrite(blob, version))) || "v" + core in TokensIn(Pieces(Rewrite(blob, version)))
    decreases |blob|
  {
    if blob != "" {
      hide TokensIn, TokenLen, Core, IsVersion, StartsVersion, Rewrite, Pieces;
      var n := TokenLen(blob);
      if n > 0 {
        var core := version[..Core(version, 3)];
        RewriteToken(blob, version);
        RetokenFoundAgain(blob[..n], version, Rewrite(blob[n..], version));
        FirstTokenFound(Rewrite(blob, version));
        assert "" + core == core;
      } else {
        RewriteGap(blob, version);
        GapStaysGap(blob, version);
        GapTokens(blob);
        GapTokens(Rewrite(blob, version));
        assert Rewrite(blob, version)[1..] == Rewrite(blob[1..], version);
        CoreIsLeft(blob[1..], version);
      }
    }
  }

  lemma FirstTokenFound(s: string)
    requires TokenLen(s) > 0
    ensures s[..TokenLen(s)] in TokensIn(Pieces(s))
  {
    hide TokenLen;
    assert Pieces(s)[0] == Token(s[..TokenLen(s)]);
  }

  lemma GapTokens(s: string)
    requires s != "" && TokenLen(s) == 0
    ensures TokensIn(Pieces(s)) == TokensIn(Pieces(s[1..]))
  {
    hide TokenLen;
    assert Pieces(s)[1..] == Pieces(s[1..]);
  }

  /** A text without tokens is left as it is. */
  lemma {:induction false} NoTokensNoChange(blob: string, version: string)
    requires TokensIn(Pieces(blob)) == {}
    ensures Rewrite(blob, version) == blob
    decreases |blob|
  {
    if blob == "" {
      RewriteNothing(version);
    } else {
      if TokenLen(blob) > 0 { FirstTokenFound(blob); }
      GapTokens(blob);
      RewriteGap(blob, version);
      NoTokensNoChange(blob[1..], version);
    }
  }

  /** The rewritten text holds no stale token exactly when the version is three numbers, or there was no token. */
  lemma StaleAfterFixExactly(blob: string, version: string)
    requires StartsVersion(version)
    ensures StaleTokens(Rewrite(blob, version), version) == {} <==>
            IsVersion(version) || TokensIn(Pieces(blob)) == {}
  {
    var left := Rewrite(blob, version);
    if IsVersion(version) {
      RewriteLeavesNoStale(blob, version);
    } else if TokensIn(Pieces(blob)) == {} {
      NoTokensNoChange(blob, version);
    } else {
      var core := version[..Core(version, 3)];
      CoreIsLeft(blob, version);
      CoreFoundAgain(version, "");
      CoreEnds(version, 3);
      hide Core, TokensIn, Pieces, Rewrite, IsVersion, StartsVersion, StaleTokens;
      assert ("v" + core)[0] != version[0];
      StaleToken(left, version, if core in TokensIn(Pieces(left)) then core else "v" + core);
    }
  }

  lemma StaleToken(blob: string, version: string, t: string)
    requires t in TokensIn(Pieces(blob)) && t != version && t != "v" + version
    ensures StaleTokens(blob, version) != {}
  {
    assert t in StaleTokens(blob, version);
  }

  /** What a field declares is three numbers, once its `v` is off. */
  lemma FieldIsVersion(line: string)
    requires Field(line).Some?
    ensures IsVersion(StripVs(Field(line).value))
  {
    var value := DropQuote(SkipBlanks(line[|FIELD|..]));
    TokenIsVersion(value);
  }

  lemma TokenIsVersion(value: string)
    requires TokenLen(value) > 0
    ensures IsVersion(StripVs(value[..TokenLen(value)]))
  {
    var core := if value[0] == 'v' then value[1..] else value;
    var n := Core(core, 3);
    CoreEnds(core, 3);
    CoreOfPrefix(core, 3);
    StripOneV(core[..n]);
    hide Core;
    assert value[0] == 'v' ==> value[..n + 1] == "v" + core[..n];
  }

  lemma {:induction false} FirstFieldIsVersion(lines: seq<string>)
    requires FirstField(lines).Some?
    ensures IsVersion(StripVs(FirstField(lines).value))
  {
    if Field(lines[0]).Some? {
      FieldIsVersion(lines[0]);
    } else {
      FirstFieldIsVersion(lines[1..]);
    }
  }

  /** Any version a document declares is three numbers. */
  lemma DeclaredIsVersion(blob: string)
    requires DeclaredVersion(blob).Ok?
    ensures IsVersion(DeclaredVersion(blob).value)
  {
    FirstFieldIsVersion(Frontmatter(blob).value);
  }

  lemma SmallVersion(c: char)
    requires IsDigit(c)
    ensures IsVersion([c, '.', c, '.', c])
  {
    var s := [c, '.', c, '.', c];
    assert s[2..] == [c, '.', c] && s[2..][2..] == [c] && s[1..] == ['.', c, '.', c] && [c][1..] == [];
    assert DigitRun([c]) == 1 && DigitRun(s[2..]) == 1 && DigitRun(s) == 1;
    assert Core([c], 1) == 1;
    assert Core(s[2..], 2) == 3;
  }

  /** A document that declares a version holds a token. */
  lemma DeclaredHasToken(blob: string)
    requires DeclaredVersion(blob).Ok?
    ensures TokensIn(Pieces(blob)) != {}
  {
    if TokensIn(Pieces(blob)) == {} {
      hide *;
      SmallVersion('1');
      SmallVersion('2');
      var one, two := ['1', '.', '1', '.', '1'], ['2', '.', '2', '.', '2'];
      assert one[0] != two[0];
      NoTokensNoChange(blob, one);
      NoTokensNoChange(blob, two);
      DeclaredRewrite(blob, one);
      DeclaredRewrite(blob, two);
    }
  }

  /**
   For every document that declares a version: the check passes after `--fix`
   if and only if the workspace version is three numbers and nothing more.
   */
  lemma FixSettlesExactly(read: JsonReader, doc: Doc, version: string)
    requires StartsVersion(version) && !doc.json
    requires doc.blob.Some? && DeclaredVersion(doc.blob.value).Ok?
    ensures var fixed := AfterJudgement(doc, Judge(read, doc, version, true));
            Judge(read, fixed, version, false) != Rejected <==> IsVersion(version)
  {
    if IsVersion(version) {
      FixSettles(read, doc, version);
    } else {
      var blob := doc.blob.value;
      DeclaredIsVersion(blob);
      DeclaredHasToken(blob);
      StaleAfterFixExactly(blob, version);
      hide *;
      OtherIsRewritten(read, doc, version);
      StaleIsRejected(read, doc.(blob := Some(Rewrite(blob, version))), version);
    }
  }

  /** A document that declares another version is rewritten by `--fix`. */
  lemma OtherIsRewritten(read: JsonReader, doc: Doc, version: string)
    requires !doc.json && doc.blob.Some? && DeclaredVersion(doc.blob.value).Ok?
    requires DeclaredVersion(doc.blob.value).value != version
    ensures AfterJudgement(doc, Judge(read, doc, version, true)) ==
            doc.(blob := Some(Rewrite(doc.blob.value, version)))
  {
    hide StaleTokens, DeclaredVersion, Rewrite;
  }

  /** A document with a stale token is rejected by the check. */
  lemma StaleIsRejected(read: JsonReader, doc: Doc, version: string)
    requires doc.blob.Some? && StaleTokens(doc.blob.value, version) != {}
    ensures Judge(read, doc, version, false) == Rejected
  {
    hide StaleTokens, DeclaredVersion, Rewrite;
  }

  /** With the workspace at `1.2.3-rc`, no document that declares a version passes the check after `--fix`. */
  lemma ReleaseCandidateNeverSettles(read: JsonReader, doc: Doc)
    requires !doc.json && doc.blob.Some? && DeclaredVersion(doc.blob.value).Ok?
    ensures Judge(read, AfterJudgement(doc, Judge(read, doc, "1.2.3-rc", true)), "1.2.3-rc", false) == Rejected
  {
    CandidateShape();
    hide *;
    FixSettlesExactly(read, doc, "1.2.3-rc");
  }

  lemma CandidateShape()
    ensures StartsVersion("1.2.3-rc") && !IsVersion("1.2.3-rc")
  {
    var s: string := "1.2.3-rc";
    assert s[2..] == "2.3-rc" && "2.3-rc"[2..] == "3-rc" && "3-rc"[1..] == "-rc";
    assert DigitRun("-rc") == 0 && DigitRun("3-rc") == 1;
    assert "2.3-rc"[1..] == ".3-rc" && DigitRun("2.3-rc") == 1 && s[1..] == ".2.3-rc" && DigitRun(s) == 1;
    assert Core("3-rc", 1) == 1;
    assert Core("2.3-rc", 2) == 3;
    assert Core(s, 3) == 5;
  }
}
