/** The path helpers of `scripts/ci/check_agent_skills_parity.py`. */
module SkillPaths {
  import opened Wrappers

  const SRC_PREFIX := "agent-skills/skills/"
  const COPY_ROOT := ".claude/skills"
  const SKILL := "SKILL.md"

  /** The pieces of a path between its slashes. */
  function Split(p: string): (parts: seq<string>)
    ensures parts != []
  {
    if p == "" then [""]
    else
      var rest := Split(p[1..]);
      if p[0] == '/' then [""] + rest else [[p[0]] + rest[0]] + rest[1..]
  }

  function BaseName(p: string): string {
    var parts := Split(p);
    parts[|parts| - 1]
  }

  /** The name of the directory a path's last piece is in. */
  function SkillDirName(p: string): string {
    var parts := Split(p);
    if |parts| > 1 then parts[|parts| - 2] else ""
  }

  predicate UnderCopyRoot(p: string) { COPY_ROOT + "/" <= p }

  /** The skill a path is the source of, if it is one. */
  function SourceName(p: string): Option<string> {
    if !(SRC_PREFIX <= p) then None
    else
      var parts := Split(p[|SRC_PREFIX|..]);
      if |parts| != 2 || parts[1] != SKILL || parts[0] == "" then None else Some(parts[0])
  }

  function SourcePath(name: string): string { SRC_PREFIX + name + "/" + SKILL }

  function Joined(parts: seq<string>): string
    requires parts != []
  {
    if |parts| == 1 then parts[0] else parts[0] + "/" + Joined(parts[1..])
  }

  lemma {:induction false} JoinedSplit(p: string)
    ensures Joined(Split(p)) == p
    ensures forall part :: part in Split(p) ==> '/' !in part
  {
    if p != "" {
      JoinedSplit(p[1..]);
      var rest := Split(p[1..]);
      if p[0] == '/' {
        assert ([""] + rest)[1..] == rest;
      } else {
        var parts := [[p[0]] + rest[0]] + rest[1..];
        assert parts[1..] == rest[1..];
        assert rest[0] in rest;
        if |rest| > 1 {
          assert [p[0]] + rest[0] + "/" + Joined(rest[1..]) == [p[0]] + (rest[0] + "/" + Joined(rest[1..]));
        }
      }
    }
  }

  lemma {:induction false} SplitWord(w: string)
    requires '/' !in w
    ensures Split(w) == [w]
  {
    if w != "" {
      assert w[0] in w && forall c :: c in w[1..] ==> c in w;
      SplitWord(w[1..]);
      assert [w[0]] + w[1..] == w;
    }
  }

  lemma {:induction false} SplitAfterWord(w: string, p: string)
    requires '/' !in w
    ensures Split(w + "/" + p) == [w] + Split(p)
  {
    var all := w + "/" + p;
    if w == "" {
      assert all[1..] == p;
    } else {
      assert w[0] in w && forall c :: c in w[1..] ==> c in w;
      assert all[1..] == w[1..] + "/" + p;
      SplitAfterWord(w[1..], p);
      assert [w[0]] + w[1..] == w;
    }
  }

  /** A path is the source of `name` exactly when it is `agent-skills/skills/<name>/SKILL.md`. */
  lemma SourceNameExact(p: string, name: string)
    ensures SourceName(p) == Some(name) <==> name != "" && '/' !in name && p == SourcePath(name)
  {
    if SRC_PREFIX <= p {
      var rest := p[|SRC_PREFIX|..];
      assert p == SRC_PREFIX + rest;
      TwoPieces(rest, name);
      assert SourcePath(name)[|SRC_PREFIX|..] == name + "/" + SKILL;
      assert SourcePath(name) == SRC_PREFIX + (name + "/" + SKILL);
    } else {
      assert SourcePath(name)[..|SRC_PREFIX|] == SRC_PREFIX;
    }
  }

  lemma TwoPieces(rest: string, name: string)
    ensures Split(rest) == [name, SKILL] <==> '/' !in name && rest == name + "/" + SKILL
  {
    if Split(rest) == [name, SKILL] {
      JoinedSplit(rest);
      assert name in Split(rest) && Split(rest)[1..] == [SKILL];
    }
    if '/' !in name && rest == name + "/" + SKILL {
      SplitAfterWord(name, SKILL);
      SplitWord(SKILL);
    }
  }

  lemma {:induction false} BaseNameAppend(p: string, q: string)
    ensures BaseName(p + "/" + q) == BaseName(q)
  {
    var all := p + "/" + q;
    if p == "" {
      assert all[1..] == q;
    } else {
      BaseNameAppend(p[1..], q);
      assert all[1..] == p[1..] + "/" + q;
      var rest := Split(all[1..]);
      if p[0] != '/' {
        SlashSplits(p[1..], q);
      }
    }
  }

  lemma {:induction false} SlashSplits(p: string, q: string)
    ensures |Split(p + "/" + q)| > 1
  {
    var all := p + "/" + q;
    if p == "" {
      assert all[1..] == q;
    } else {
      assert all[1..] == p[1..] + "/" + q;
      SlashSplits(p[1..], q);
    }
  }

  /** A source's file name is `SKILL.md`. */
  lemma SourceBaseName(p: string)
    requires SourceName(p).Some?
    ensures BaseName(p) == SKILL
  {
    SourceNameExact(p, SourceName(p).value);
    BaseNameAppend(SRC_PREFIX + SourceName(p).value, SKILL);
    SplitWord(SKILL);
  }

  /** Some line starts with `version:`. */
  predicate HasVersionLine(text: string) {
    exists i :: 0 <= i < |text| && LineStart(text, i) && "version:" <= text[i..]
  }

  predicate LineStart(text: string, i: nat)
    requires i < |text|
  {
    i == 0 || text[i - 1] == '\n' || text[i - 1] == '\r'
  }
}
