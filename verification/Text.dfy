/** Lines, white space and digits. */
module Text {
  predicate IsDigit(c: char) { '0' <= c <= '9' }

  /** The characters Unicode calls white space. */
  predicate IsWhitespace(c: char) {
    var n := c as int;
    9 <= n <= 13 || n == 32 || n == 0x85 || n == 0xA0 || n == 0x1680 || 0x2000 <= n <= 0x200A ||
    n == 0x2028 || n == 0x2029 || n == 0x202F || n == 0x205F || n == 0x3000
  }

  function TrimStart(s: string): string {
    if s != "" && IsWhitespace(s[0]) then TrimStart(s[1..]) else s
  }

  /** The text before the first white space. */
  function FirstWord(s: string): string {
    if s == "" || IsWhitespace(s[0]) then "" else [s[0]] + FirstWord(s[1..])
  }

  /** A line without its carriage returns at the end. */
  function TrimCrs(s: string): string {
    if s != "" && s[|s| - 1] == '\r' then TrimCrs(s[..|s| - 1]) else s
  }

  lemma {:induction false} TrimCrsTwice(s: string)
    ensures TrimCrs(TrimCrs(s)) == TrimCrs(s)
    ensures forall c :: c in TrimCrs(s) ==> c in s
  {
    if s != "" && s[|s| - 1] == '\r' {
      TrimCrsTwice(s[..|s| - 1]);
    }
  }

  function LineEnd(s: string): (n: nat)
    ensures n <= |s| && (n < |s| ==> s[n] == '\n') && '\n' !in s[..n]
  {
    if s == "" || s[0] == '\n' then 0
    else
      var n := 1 + LineEnd(s[1..]);
      assert s[..n] == [s[0]] + s[1..][..n - 1];
      n
  }

  /** The lines of a text; a newline at the end starts no further line. */
  function Lines(s: string): (ls: seq<string>)
    ensures s != "" ==> ls != []
    ensures forall l :: l in ls ==> '\n' !in l
    decreases |s|
  {
    if s == "" then []
    else
      var n := LineEnd(s);
      if n == |s| then
        assert s[..n] == s;
        [s]
      else [s[..n]] + Lines(s[n + 1..])
  }

  /** Each line and a newline. */
  function Unlines(ls: seq<string>): string {
    if ls == [] then "" else ls[0] + "\n" + Unlines(ls[1..])
  }

  predicate EndsWithNewline(s: string) { s != "" && s[|s| - 1] == '\n' }

  lemma {:induction false} UnlinesAppend(a: seq<string>, b: seq<string>)
    ensures Unlines(a + b) == Unlines(a) + Unlines(b)
  {
    if a == [] {
      assert a + b == b;
    } else {
      assert (a + b)[1..] == a[1..] + b;
      UnlinesAppend(a[1..], b);
    }
  }

  lemma UnlinesOne(l: string)
    ensures Unlines([l]) == l + "\n"
  {
    assert [l][1..] == [];
  }

  lemma {:induction false} UnlinesEnds(ls: seq<string>)
    requires ls != []
    ensures EndsWithNewline(Unlines(ls))
  {
    if |ls| > 1 { UnlinesEnds(ls[1..]); }
  }

  /** Lines put together are read back as the same lines. */
  lemma {:induction false} LinesOfUnlines(ls: seq<string>)
    requires forall l :: l in ls ==> '\n' !in l
    ensures Lines(Unlines(ls)) == ls
  {
    if ls != [] {
      var l, rest := ls[0], Unlines(ls[1..]);
      var s := l + "\n" + rest;
      assert l in ls && forall x :: x in ls[1..] ==> x in ls;
      assert s[..|l|] == l && s[|l|] == '\n' && s[|l| + 1..] == rest;
      LineEndIs(s, |l|);
      LinesOfUnlines(ls[1..]);
      assert [l] + ls[1..] == ls;
    }
  }

  lemma LineEndIs(s: string, n: nat)
    requires n < |s| && s[n] == '\n' && '\n' !in s[..n]
    ensures LineEnd(s) == n
  {
  }

  /** Every line with its trailing carriage returns off. */
  function TrimAll(ls: seq<string>): (r: seq<string>)
    ensures |r| == |ls| && forall i :: 0 <= i < |r| ==> r[i] == TrimCrs(ls[i])
  {
    seq(|ls|, i requires 0 <= i < |ls| => TrimCrs(ls[i]))
  }

  /** The closing step of both preprocessors: one more newline when the input lacks its last. */
  function Closed(result: string, input: string): string {
    if EndsWithNewline(input) then result else result + "\n"
  }
}
