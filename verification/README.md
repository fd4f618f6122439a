# sqry: verified models of its self-contained algorithms

This project models the parts of sqry whose correctness can be stated without
its graph engine, and proves what they promise, for every input, every run and
every interleaving:

* **The `@alias` argv rewriter** (`CommandLine`, `AliasRewriter`, `AliasMeaning`,
  `AliasPattern`, `AliasTokens`, `AliasDetection`, `AliasCommandWord`,
  `AliasSides`). `CommandLine` is an independent reference parser of command
  lines, driven by two tables of flags. The rewriter is proved against it: the
  expanded argv means what the direct form means.
* **The daemon frame codec, the shim handshake and the stdio pump** (`Framing`,
  `ShimHandshake`, `Pump`), over streams that choose their own chunks, ends,
  failures and timeouts.
* **The agent-skills parity gate** (`SkillPaths`, `SkillWalk`, `ParityGate`,
  `ParityPass`), its recursive walk through symlink cycles included.
* **The release-version check and its token rewriter** (`VersionTokens`,
  `ReleaseVersion`, `PrereleaseVersion`).
* **Path scopes of queries and the search for the index** (`QueryLexer`,
  `QueryScope`, `IndexDiscovery`).
* **Classpath provenance and the stub cache** (`ClasspathProvenance`,
  `StubCache`, `ParallelScan`).
* **The Perl POD and literate Haskell preprocessors** (`Text`, `PerlPod`,
  `LiterateHaskell`).
* **Progress throttling** (`IngestProgress`, `PlainRateLimit`).

Loops and objects of the source are methods and classes here, proved equal to a
function or to a stated result; the laws are lemmas about those. `dafny verify
dfyconfig.toml` checks everything.

## Where the code and its documentation part

Some promised laws are not true of the code on every input. The code is modelled
as it is, and the exact condition under which the law holds is proved.

* *The expansion means the direct form.* It does not when a bare `-p` or
  `--preview` stands in front of the alias and the stored pattern is a number
  (the pattern becomes the flag's value), nor when a lone `-` is the only path
  (it is taken for a flag), nor when the saved pattern looks like a flag itself
  (`sqry search --save-as neg -- -5`; no `--` is put back in front of it).
  `ExpansionMeaning` shows these are the only cases, and
  `FlagPatternRunsExactly` the one pattern, `--`, that can still come out right.
* *It does not matter on which side of the alias a flag sits.* For stored words
  it does not, but for an open optional value such as a bare `-p` and a stored
  number (`PlainSides`, `CountTakesSides`). A saved `--` makes a word of a flag typed
  behind the alias (`EscapeTakesSides`), and a stored flag keeps its place among
  the others; `SideOfAliasIrrelevant` gives the exact condition for anything stored.
* *An imported alias may store flags* (`["kind:function", "--lang", "rust"]`).
  They mean what they mean on their own unless the first is swallowed, the last
  reaches for the path, one is `--`, or a lone `-` is lost as above
  (`TokensMeaning`).
* *A bundle keeps the shorthand form exactly when all its flags are top-level.*
  The lookup drops every dash and knows no gluing. So `-kfn=x`, and `-` as a
  value, keep the command word for nothing; and `-lang=rust`, which is `-l` with
  the value `ang=rust`, is looked up as `lang` and would hide a `-l` that is not
  top-level, as would `-x` for a long name `x`. `WordKeptExactly` and
  `ShorthandExactly` give the exact conditions in both directions.
* *A scope filters by the path given.* An unquoted path such as `src+gen`, and a
  file named like a keyword (`or`), are not read back as themselves
  (`ScopeDecodesExactly`, `PlusIsLost`, `KeywordIsLost`).
* *The legacy `.sqry-index` walk adds v1 layouts.* The first walk already
  reports every such file, so from an absolute path the second can find nothing
  (`LegacyAddsNothing`).
* *The stub cache is transparent.* It is keyed by content only, so jars with
  equal content at two paths share the `source_jar` of whichever was scanned
  last (`CacheTransparentExactly`, `CacheInvisibleExactly`, `EqualJarsShow`).
* *Preprocessing preserves line numbers.* It does; but input without a final
  newline gains one blank line at the end (both `LineAligned`). In the POD
  remover a `=cut` closes one opening only, so two openings need two cuts
  (`InsidePodExactly`).
* *`--fix` settles the tree.* It does for versions of three numbers; a
  pre-release version is found stale again after every fix
  (`FixSettlesExactly`).

## Reading the model

* Strings and byte strings are sequences of characters; a byte is the character
  of its code. Frame bodies are sequences of bytes.
* `Tables` holds the two flag tables, and the laws hold for every pair of tables
  whose entries are spelled `-x` or `--name`. `SQRY_TABLES` is the pair in the
  source. `Surface` holds what the source asks its argument parser: the long
  names (visible aliases among them) and short letters of the top-level flags,
  and the subcommand names.
* The reference parser takes a mandatory flag's value from the next token unless
  it looks like a flag, takes an optional value only if it is a count, ends
  flags at `--`, reads `-` as a word, and splits bundled short flags. Whether a
  flag exists is not its question: unknown flags are read as flags. An
  optional flag in front of a word leaves the word alone, as sqry's help text
  for `--preview main` says. `Direct` is the meaning of a run: the flags before
  the alias, the stored words, then the tail as typed.
* A file tree is a map of listings by directory identity, so cycles and aliases
  are ordinary values; a `Reader` holds the bytes its peer will ever send and
  what it does afterwards.
* A jar path is its rank in the order of paths, except in `StubCache`, where
  order plays no part.

## Model

| member | source | states |
|---|---|---|
| `AliasPattern.ExpansionMeaning` | sqry-cli/src/main.rs:2163-2263 | the main law of `@alias` runs, for every pattern sqry saves under a name and every list of stored words: read by the reference parser, the expanded argv gives the flags typed before the alias, the flags typed after it, the stored words and then the one path or `.`, and is refused for the same flag as the direct form, if and only if `MeansDirect` holds |
| `AliasTokens.TokensMeaning` | sqry-cli/src/main.rs:2163-2263 | the main law for any list of stored tokens, flags among them, as an imported alias holds: the expanded argv is read as the flags in front, the stored tokens and the tail, each read on its own, if and only if `TokensAgree` holds: no stored token is swallowed, no stored flag reaches for the path, no stored `--` makes words of what follows, no lone `-` was the path |
| `AliasTokens.StaysReads` | sqry-cli/src/main.rs:2235-2236 | stored tokens whose last flag does not reach past them read alone as they read in front of the path and the trailing flags |
| `AliasTokens.TakesReads` | sqry-cli/src/main.rs:2235-2236 | stored tokens whose last flag reaches past them take exactly the next token; alone that flag is refused, or has no value |
| `AliasTokens.EscapesReads` | sqry-cli/src/main.rs:2235-2236 | a stored `--` makes words of the path and of every trailing flag |
| `AliasCommandWord.StoredLangReaches` | sqry-cli/src/main.rs:2235-2236 | `kind:function --lang rust` stays among itself and is read as a word and a flag; `kind:function --lang` takes the path |
| `AliasMeaning.PlainWordsMeaning` | sqry-cli/src/main.rs:2163-2263 | its case for any number of stored words that do not look like flags: the law fails if and only if neither side is refused and `Misses` holds |
| `AliasPattern.FlagPatternRunsExactly` | sqry-cli/src/main.rs:2235-2236 | for a saved pattern that looks like a flag, wherever the direct run would run, the expansion comes to it if and only if the pattern is `--` and the tail is a path that starts with `-` and no flags |
| `AliasCommandWord.SavedDashIsLost` | sqry-cli/src/main.rs:2235-2236 | `sqry @neg` with the saved pattern `-5`: directly a search for `-5`, expanded a search for `.` with a flag `-5` |
| `AliasDetection.RunMeaning` | sqry-cli/src/main.rs:2018-2263 | the laws from argv to meaning: for every argv the scan accepts, every well-formed table and every stored list, what follows the program name and the command word is read as the run of the stored tokens if and only if `TokensAgree` holds, and, for what sqry saves, as the run of the stored pattern if and only if `MeansDirect` holds |
| `AliasMeaning.TakesMatchesReading` | sqry-cli/src/main.rs:2085-2136 | the one choke point for value consumption agrees with the parser on every flag token: a mandatory flag takes the next token unless it is `--`, an optional one takes exactly counts, `=` and glued values take nothing |
| `CommandLine.EagerReads` | sqry-cli/src/args/mod.rs:180-195 | a parser that gives an optional-value flag any word behind it refuses exactly the command lines where such a flag stands in front of a word that is no count, and reads all others alike |
| `AliasMeaning.ParseGrouped` | sqry-cli/src/main.rs:2085-2132 | a run of whole flag groups reads the same in front of anything it does not reach into as it reads alone, and alone its only positionals are its lone dashes |
| `AliasMeaning.PartitionReads` | sqry-cli/src/main.rs:1937-2016 | the split succeeds exactly when the parser finds at most one word besides lone dashes; that word is the path (or the reported pair is the first two words), and the split-off flags alone read as the whole tail's flags |
| `AliasMeaning.PartitionConserves` | sqry-cli/src/main.rs:1972-2016 | every tail token except the first `--` lands once, in order, in the flags or as the path: the tail is the flags with the path at one place, or behind `--` |
| `AliasMeaning.PartitionFixpoint` | sqry-cli/src/main.rs:1972-2016 | partitioning the tail that the expansion re-emits gives the same flags and the same path, `.` where there was none, also for paths that start with `-` |
| `AliasMeaning.PartitionAfterRun` | sqry-cli/src/main.rs:1972-2016 | flag groups in front of any tail are split off whole, and leave the rest to be split as if alone, errors included |
| `AliasMeaning.PartitionFlagsGrouped` | sqry-cli/src/main.rs:1972-2016 | the split-off flags never hold `--` and end in no group that could reach past them |
| `AliasMeaning.PathAnywhere` | sqry-cli/src/main.rs:1945-1948 | the path may stand before, after or among the trailing flag groups: the split does not depend on where |
| `AliasMeaning.GroupedRetarget` | sqry-cli/src/main.rs:2085-2136 | what follows a run of flags may be replaced by any token without changing the run, unless its last flag has an open optional value and the token is a count |
| `AliasMeaning.OpenRunTakesCount` | sqry-cli/src/main.rs:2110-2127 | in that one case the run's last flag takes the count as its value and every other flag is read as before |
| `AliasDetection.LocateExact` | sqry-cli/src/main.rs:2018-2083 | the scan reports an alias at token k if and only if token k starts with `@` and is preceded by whole flag groups and at most one `query` or `search` word; so there is never more than one site |
| `AliasDetection.AfterPrefixExact` | sqry-cli/src/main.rs:1908-1935 | the search after a prefix word finds token k if and only if k is an `@` token and only whole flag groups stand before it |
| `AliasDetection.ScanFindsAliases` | sqry-cli/src/main.rs:2018-2083 | a reported alias has no `--` before it, is no flag's value, and its tail splits into exactly the reported flags and path |
| `AliasDetection.CommandWordErased` | sqry-cli/src/main.rs:2173-2184 | erasing the typed `query` or `search` word moves the alias one to the left and leaves the scan's other results and the whole expansion unchanged |
| `AliasSides.SideOfAliasIrrelevant` | sqry-cli/src/main.rs:1884-1890 | moving whole flag groups from in front of the alias to behind it changes neither what the run of stored words asks for nor whether the command word is kept; and the two expansions, for any stored tokens and any number of words taken, are read alike if and only if `SidesAgree` holds |
| `AliasSides.BodiesAgree` | sqry-cli/src/main.rs:2163-2263 | the same if-and-only-if about the two expanded bodies alone |
| `AliasSides.PlainSides` | sqry-cli/src/main.rs:2163-2263 | for stored words that are no flags the condition is: nothing moved, something refused, no open optional value that can take a count, or too many words on both sides |
| `AliasSides.ReachMoved` | sqry-cli/src/main.rs:2253-2260 | in front of a moved flag a stored flag takes nothing, and a stored `--` escapes as before |
| `AliasSides.CompareSides` | sqry-cli/src/main.rs:2163-2263 | with everything accepted and no count at stake, the two orders of flags come to the same exactly when the moved flags and the stored ones are the same in either order, or there are too many words |
| `AliasSides.CountTakesSides` | sqry-cli/src/main.rs:2133-2136 | `sqry -p -j @five` with the stored pattern `5` is a search for `5`; `sqry -p @five -j` is a search for `.` with five lines of preview |
| `AliasSides.EscapeTakesSides` | sqry-cli/src/main.rs:2235-2236 | with the stored pattern `--`, `sqry -j @x` has a flag `-j` and `sqry @x -j` has a word `-j` |
| `AliasDetection.GroupedAcrossWord` | sqry-cli/src/main.rs:2177-2184 | the flags on the two sides of a dropped command word join into one run without either taking from the other |
| `AliasCommandWord.WordKeptExactly` | sqry-cli/src/main.rs:1774-1789 | for flags the parser accepts, the command word is kept because of them if and only if some token forces it (a lone `-`, or `-xyz=v` with `xyz` no name) or some flag that is not top-level shows, being neither glued with `=` nor another spelling of a name |
| `AliasCommandWord.WordKeptAsNeeded` | sqry-cli/src/main.rs:1864-1897 | the word is kept exactly when some flag read is not top-level, if and only if the run is not misjudged in one of the two directions |
| `AliasCommandWord.LookupFinds` | sqry-cli/src/main.rs:1774-1789 | the lookup without dashes finds a top-level flag, or `-x` where only `--x` is one, or `--x` where only `-x` is one, and nothing else |
| `AliasCommandWord.ShorthandExactly` | sqry-cli/src/main.rs:2196-2221 | the shorthand form is used exactly for a `search` alias whose pattern is no subcommand name and whose flags on both sides neither force nor show the need of the word; that is exactly when all flags read are top-level, if and only if the run is not misjudged |
| `AliasCommandWord.TokenJudged` | sqry-cli/src/main.rs:1854-1897 | one flag token is judged by the flags it is read as, each bundled short on its own, except where it is glued with `=` and looked up whole |
| `AliasCommandWord.ClusterNames` | sqry-cli/src/main.rs:1804-1862 | the members a bundle is split into are the short flags the parser reads from it, up to the first that takes a value |
| `AliasCommandWord.SqryTablesAreLikeSqry` | sqry-cli/src/main.rs:1608-1661 | every entry of the two real flag tables is spelled `-x` or `--name`, so all laws above hold of them; and they hold the flags of the inputs below as those need them |
| `AliasCommandWord.LoneDashIsLost` | sqry-cli/src/main.rs:1993-2002 | `sqry @picks -` is read directly with the path `-`, but the expansion has one word too many |
| `AliasCommandWord.StoredCountIsSwallowed` | sqry-cli/src/main.rs:2133-2136 | `sqry -p @five` with stored pattern `5`: directly a search for `5`, expanded a preview of 5 lines with pattern `.` |
| `AliasCommandWord.GluedEqualsForcesWord` | sqry-cli/src/main.rs:1774-1789 | `-kfn=x` is read as `-k` with a value, yet forces the command word even where `-k` is a top-level flag, as `kfn` is no name |
| `AliasCommandWord.GluedLongNameHides` | sqry-cli/src/main.rs:1774-1789 | `-lang=rust` is read as `-l` with a value and looked up as `lang`: it keeps the shorthand wherever `--lang` is top-level, and hides `-l` where that is not |
| `AliasRewriter.SplitShortCluster` | sqry-cli/src/main.rs:1820-1852 | the loop over a bundle's letters computes the bundle's members and tail as the recursive reading of the letters does, and nothing for tokens that are no bundle |
| `AliasRewriter.PartitionAliasTail` | sqry-cli/src/main.rs:1972-2016 | the index loop with its early exits computes the split that the lemmas on `Partition` are about, error pairs included |
| `AliasRewriter.FindAliasAfterPrefix` | sqry-cli/src/main.rs:1908-1935 | the loop computes `AfterPrefix`, whose meaning is `AfterPrefixExact` |
| `AliasRewriter.ScanAliasArgs` | sqry-cli/src/main.rs:2018-2083 | the scan with its `skip_next` flag computes `Scan`, whose meaning is `LocateExact` and `ScanFindsAliases` |
| `AliasRewriter.CollectPreAliasFlags` | sqry-cli/src/main.rs:2177-2184 | the tokens in front of the alias in order, without the program name and the typed command word |
| `AliasRewriter.BuildExpandedArgs` | sqry-cli/src/main.rs:2163-2263 | the pushes build the argv whose meaning is `ExpansionMeaning` and whose command word is `ShorthandExactly` |
| `AliasRewriter.JudgedApart` | sqry-cli/src/main.rs:1869-1897 | flags on either side are judged alike: judging them together is judging them apart |
| `Framing.ReadFrame` | sqry-daemon-protocol/src/framing.rs:93-127 | under every chunk schedule the result and the bytes taken are those of the first frame of the byte stream; an armed timer can only cut the read short, and then no byte past the frame is taken |
| `Framing.ReadPrefix` | sqry-daemon-protocol/src/framing.rs:97-110 | the prefix loop ends, tells a clean end from a truncated prefix by whether a byte was read, and takes exactly four bytes on success |
| `Framing.ReadExact` | sqry-daemon-protocol/src/framing.rs:118-126 | the buffer is filled with the next bytes of the stream in order however they are chunked, or the stream ended short of it |
| `Framing.WriteFrame` | sqry-daemon-protocol/src/framing.rs:56-79 | bodies over the cap write nothing; otherwise exactly the encoding is appended, or a failing writer holds a proper prefix of it, or all of it when only the flush failed |
| `Framing.WriteFrames` | sqry-daemon-protocol/src/framing.rs:56-79 | frames written one after the other are the encoding of the list; when one is refused or fails, what is written is the encoding of those before it and nothing of the refused one, or a part of the failed one; a writer that does not fail refuses exactly the lists with a body over the cap |
| `Framing.ReadFrames` | sqry-daemon-protocol/src/framing.rs:93-127 | frames read one after the other under any chunk schedule are those the bytes decode to, stopped by what the bytes say, with exactly their bytes taken |
| `Framing.SendAndReceive` | sqry-daemon-protocol/src/framing.rs:50-127 | any list of bodies within the cap, written to one end and read from the other under any chunk schedule, arrives as the same list and then a clean end |
| `Framing.FrameRoundTrip` | sqry-daemon-protocol/src/framing.rs:50-127 | a written frame is read back whole whatever follows it, leaving exactly what follows |
| `Framing.FramesRoundTrip` | sqry-daemon-protocol/src/framing.rs:50-127 | the bytes of any list of bodies within the cap decode to the same list and then a clean end, all bytes used; empty bodies are bodies |
| `Framing.EncodeAllInjective` | sqry-daemon-protocol/src/framing.rs:56-79 | two lists of bodies with the same bytes on the wire are the same list |
| `Framing.FrameReadIsWritten` | sqry-daemon-protocol/src/framing.rs:93-127 | every frame accepted by the reader is the encoding of the body returned |
| `Framing.ReadOutcomes` | sqry-daemon-protocol/src/framing.rs:81-127 | the outcome on a finite stream is classified by its bytes alone: none iff empty, invalid data iff the little-endian length is over the cap, unexpected end iff prefix or body is short, and a body iff its encoding starts the stream |
| `Framing.LittleEndianRoundTrip` | sqry-daemon-protocol/src/framing.rs:69-75 | every 32-bit length survives its little-endian bytes |
| `ShimHandshake.DoShimHandshake` | sqry-daemon-client/src/lib.rs:390-461 | writes exactly one register frame, or fails to write or flush it and reads nothing; the verdict is that of the daemon's first frame or a timeout; success leaves exactly the bytes after the acknowledgement frame, and nothing past it is ever taken |
| `ShimHandshake.SuccessExactly` | sqry-daemon-client/src/lib.rs:433-461 | success if and only if the stream starts with a frame whose body decodes to an accepting acknowledgement of the right envelope version, with that daemon version |
| `ShimHandshake.VersionNeverMasked` | sqry-daemon-client/src/lib.rs:438-461 | a wrong envelope version is reported as such whether or not the daemon accepted, and rejection is reported only for the right version |
| `ShimHandshake.ReadFrameJson` | sqry-daemon-protocol/src/framing.rs:152-162 | a typed read takes what the frame read takes, and tells transport, JSON and clean-end outcomes apart |
| `ShimHandshake.ConnectShimWithTimeouts` | sqry-daemon-client/src/lib.rs:478-517 | the connect-timeout error appears exactly for a hung connect, a connection not made is never written to, and success means the handshake's success |
| `Pump.PumpConserves` | sqry-daemon-client/src/lib.rs:569-608 | in every state of every interleaving each source is its sink, buffer and rest in order; a pump ending without error has delivered one whole source, reports its length, and 0 for the other |
| `Pump.SinksArePrefixes` | sqry-daemon-client/src/lib.rs:598-607 | sinks only grow, and always hold a prefix of their source |
| `ParityGate.Run` | scripts/ci/check_agent_skills_parity.py:206-305 | returns 0 exactly when every rule of the gate holds; with a copy root, then, every copy was compared and there is at least one |
| `ParityPass.PassExactly` | scripts/ci/check_agent_skills_parity.py:206-305 | the gate passes if and only if the tree is in step: no tracked symlink, every source a plain file on disk, and either the mirror shape or copies each equal to their source on disk and by blob id with nothing orphaned, misplaced or untracked |
| `ParityPass.ScanInOrder` | scripts/ci/check_agent_skills_parity.py:348-416 | the scan says nothing if and only if every directory reachable without repeating one can be read and holds no stray `SKILL.md` |
| `ParityPass.PathsInOrder` | scripts/ci/check_agent_skills_parity.py:245-266 | no complaint about tracked paths if and only if each is a copy equal to its source or plainly not a copy |
| `ParityPass.SourcesInOrder` | scripts/ci/check_agent_skills_parity.py:222-243 | no complaint about sources if and only if each named source is a regular file on disk and no symlink; there are sources iff some path has the source shape |
| `ParityGate.CheckOutside` | scripts/ci/check_agent_skills_parity.py:245-266 | the loop over tracked paths outside the sources counts every copy as expected, counts it compared when nothing is reported, and reports nothing iff every path is clean |
| `ParityGate.CheckSources` | scripts/ci/check_agent_skills_parity.py:234-243 | the loop reports nothing iff every source is in order, and then counts nothing missing |
| `ParityGate.CheckPath` | scripts/ci/check_agent_skills_parity.py:247-266 | one tracked path: its failures, and its share of the expected and compared counters |
| `ParityGate.CompareCopy` | scripts/ci/check_agent_skills_parity.py:308-345 | one copy is always expected, compared only when it and its source are regular files, and reported once if it is a link, missing, diverged on disk, or differs by blob id |
| `ParityGate.HasVersionMarker` | scripts/ci/check_agent_skills_parity.py:151-184 | a marker that cannot be read is reported, never silently absent |
| `ParityGate.InspectSkill` | scripts/ci/check_agent_skills_parity.py:403-409 | an untracked copy is reported when it is named as a source or carries a version marker, and a tracked one never |
| `ParityGate.Walk` | scripts/ci/check_agent_skills_parity.py:365-401 | the recursive walk terminates on every directory graph, cycles included, and reports exactly the failures of what it meets |
| `ParityGate.WalkSubdirs` | scripts/ci/check_agent_skills_parity.py:392-401 | every subdirectory is entered in turn with the keys on the path to it |
| `ParityGate.ListDirectory` | scripts/ci/check_agent_skills_parity.py:378-391 | a listing is inspected entry by entry, with its subdirectories kept for later |
| `ParityGate.ScanUntracked` | scripts/ci/check_agent_skills_parity.py:348-416 | the scan reports the failures of the walk from the copy root, and nothing where there is no directory |
| `SkillWalk.WalkedExact` | scripts/ci/check_agent_skills_parity.py:365-401 | the walk does exactly what is to be seen at the ends of paths that repeat no directory: each `SKILL.md` there is inspected under each of its names, aliases included |
| `SkillWalk.ListingOrderIrrelevant` | scripts/ci/check_agent_skills_parity.py:366-377 | two directory graphs that differ only in listing order are walked to the same events |
| `SkillWalk.SimplePathStep` | scripts/ci/check_agent_skills_parity.py:392-401 | extending the ancestry by the directory entered is the same as asking the path to repeat none |
| `SkillWalk.MeasureDrops` | scripts/ci/check_agent_skills_parity.py:398-401 | each descent leaves one directory fewer to enter, which is why the walk ends |
| `SkillPaths.SourceNameExact` | scripts/ci/check_agent_skills_parity.py:127-140 | a path is the source of a skill if and only if it is `agent-skills/skills/<name>/SKILL.md` with a non-empty name that holds no slash |
| `SkillPaths.SourceBaseName` | scripts/ci/check_agent_skills_parity.py:218-226 | every source is among the tracked `SKILL.md` files |
| `VersionTokens.RewriteRetokenises` | scripts/ci/check_release_version.py:45 | for every text and every version digits.digits.digits, the rewritten text is cut into tokens and gaps exactly where the text was, token for token and byte for byte |
| `VersionTokens.PiecesCover` | scripts/ci/check_release_version.py:45 | the left-to-right scan loses and adds nothing: its tokens and gaps put together are the text |
| `VersionTokens.RewriteKeepsShape` | scripts/ci/check_release_version.py:177-180 | rewriting changes nothing about where the pattern can start or be completed |
| `VersionTokens.GapStaysGap` | scripts/ci/check_release_version.py:177-180 | where no token was found, none appears after the rewrite |
| `VersionTokens.StartsIsCore` | scripts/ci/check_release_version.py:45 | greedy matching of `\d+(\.\d+)*` finds a match exactly where a match exists |
| `ReleaseVersion.DeclaredRewrite` | scripts/ci/check_release_version.py:106-136 | a markdown document declares the release after the rewrite if and only if it declared some version before, and is otherwise rejected for the same reason |
| `ReleaseVersion.FrontmatterRewrite` | scripts/ci/check_release_version.py:61-62 | the frontmatter of the rewritten document is the rewritten frontmatter |
| `ReleaseVersion.FieldRewrite` | scripts/ci/check_release_version.py:56-57 | a line declares a version after the rewrite exactly when it did before, and then the release |
| `ReleaseVersion.LinesRewrite` | scripts/ci/check_release_version.py:56-57 | rewriting a text is rewriting its lines |
| `ReleaseVersion.RewriteLeavesNoStale` | scripts/ci/check_release_version.py:139-141 | no token of a rewritten text is stale |
| `ReleaseVersion.RewriteTwice` | scripts/ci/check_release_version.py:177-181 | rewriting to one version and then another is rewriting to the second; a second rewrite is a no-op |
| `ReleaseVersion.FixSettles` | scripts/ci/check_release_version.py:144-187 | `--fix` rejects exactly the unreadable and undeclared markdown documents, and what it leaves settles both a check and another fix |
| `ReleaseVersion.FixThenCheck` | scripts/ci/check_release_version.py:144-199 | on any set of markdown documents a check after `--fix` passes if and only if the fix did, and another fix changes nothing |
| `PrereleaseVersion.FixSettlesExactly` | scripts/ci/check_release_version.py:144-199 | for every markdown document that declares a version, a check after `--fix` accepts it if and only if the workspace version is three numbers and nothing more |
| `PrereleaseVersion.ReleaseCandidateNeverSettles` | scripts/ci/check_release_version.py:144-199 | with the workspace at `1.2.3-rc`, no such document passes a check after `--fix` |
| `PrereleaseVersion.StaleAfterFixExactly` | scripts/ci/check_release_version.py:139-181 | a rewritten text holds no stale token if and only if the version is three numbers and nothing more, or the text held no token |
| `PrereleaseVersion.DeclaredIsVersion` | scripts/ci/check_release_version.py:127-136 | whatever version a markdown document declares is three numbers once its `v` is off |
| `PrereleaseVersion.DeclaredHasToken` | scripts/ci/check_release_version.py:106-136 | a document that declares a version is one the rewriter finds a token in |
| `ReleaseVersion.Examine` | scripts/ci/check_release_version.py:150-187 | one turn of the loop reaches the verdict the lemmas are about, with the source's order of tests |
| `ReleaseVersion.Run` | scripts/ci/check_release_version.py:144-199 | the run returns 0 iff there are documents and none is rejected, and leaves each rejected or settled document untouched |
| `QueryScope.ScopeDecodesExactly` | sqry-cli/src/index_discovery.rs:243-281 | through the lexer and the glob matcher a scope decodes to its path, literally, plus the live `/**` of a directory, if and only if it was quoted, or is a bare word that is no keyword |
| `QueryScope.QuotedScopeDecodes` | sqry-cli/src/index_discovery.rs:171-205 | every quoted scope decodes to its path whatever characters it holds |
| `QueryScope.LexerUndoesQuoting` | sqry-core/src/query/lexer.rs:348-405 | the lexer takes one level of escapes off the quoted path and reaches the closing quote and no earlier one |
| `QueryScope.GlobUndoesEscapes` | sqry-core/src/query/executor/graph_eval.rs:856-858 | the matcher takes the second level off and sees the path as literals |
| `QueryScope.ReadWordExactly` | sqry-core/src/query/lexer.rs:621-705 | the lexer reads an unquoted scope as one word if and only if the path is bare |
| `QueryScope.BareByCharacter` | sqry-core/src/query/lexer.rs:646-656 | without colons and angle brackets, bare means every character is a word character |
| `QueryScope.ScopesDistinct` | sqry-cli/src/index_discovery.rs:243-271 | scopes that decode are the same text only for the same path and the same kind of request |
| `QueryScope.AugmentedDistinct` | sqry-cli/src/index_discovery.rs:272-280 | and so are the queries they are added to |
| `QueryScope.PlusIsLost` | sqry-cli/src/index_discovery.rs:207-224 | the directory `src+gen` is left unquoted and does not decode to itself |
| `QueryScope.KeywordIsLost` | sqry-core/src/query/lexer.rs:284-301 | the file `or` is left unquoted and is read as a keyword |
| `QueryScope.EscapePathForQuery` | sqry-cli/src/index_discovery.rs:182-205 | the character loop builds the escaping the decoding lemmas are about |
| `IndexDiscovery.DiscoverWorkspaceRoot` | sqry-core/src/workspace/discovery.rs:284-358 | the bounded walk finds the nearest index at or below the first project marker and that marker, level by level |
| `IndexDiscovery.LegacyWalk` | sqry-cli/src/index_discovery.rs:144-168 | the fallback walk finds a legacy index file iff one stands on a level it reaches, never above the boundary, and within the depth bound |
| `IndexDiscovery.LegacyAddsNothing` | sqry-cli/src/index_discovery.rs:129-168 | from an absolute path the fallback finds nothing whenever the first walk finds nothing |
| `IndexDiscovery.FindNearestIndex` | sqry-cli/src/index_discovery.rs:92-169 | there is a location exactly when an index stands within bounds and at or below the first marker, and it is the nearest one with the flags of its distance |
| `IndexDiscovery.ScopeLeadsToRequest` | sqry-cli/src/index_discovery.rs:43-64 | a filter is asked for exactly when the request is not the index root, and the root followed by the scope is the request |
| `ClasspathProvenance.ScannedAreRecorded` | sqry-classpath/src/pipeline.rs:147-163 | for either depth the provenance lists, once each and ascending, exactly the jars that are scanned, and each record tells its kept entries |
| `ClasspathProvenance.RecordsTell` | sqry-classpath/src/pipeline.rs:496-526 | after any entries: direct iff all kept entries are, coordinates the first present, scopes the duplicate-free set of occurrences |
| `ClasspathProvenance.DeduplicateJarPaths` | sqry-classpath/src/pipeline.rs:418-429 | each jar once, in the order of first occurrence |
| `ClasspathProvenance.BuildProvenance` | sqry-classpath/src/pipeline.rs:489-531 | the nested loops and the sort give the ascending records of all kept occurrences, whatever order the table is read in |
| `ClasspathProvenance.RecordClasspath` | sqry-classpath/src/pipeline.rs:497-525 | one module's entries, filtered by depth, are folded in after the modules before it |
| `ClasspathProvenance.SortByJar` | sqry-classpath/src/pipeline.rs:528-530 | the table's values, each once, strictly ascending |
| `StubCache.CacheTransparentExactly` | sqry-classpath/src/pipeline.rs:448-482 | after any history of writes and losses an answer has the classes of a fresh scan in order, and is the fresh answer iff the scan was forced, the jar is empty, or its content was not last written from another path |
| `StubCache.CacheInvisibleExactly` | sqry-classpath/src/pipeline.rs:436-482 | over all runs the cache is invisible if and only if no two jar paths share the content of a non-empty jar |
| `StubCache.EqualJarsShow` | sqry-classpath/src/stub/cache.rs:175-206 | of two jars with equal content, the second to be scanned is said to be the first |
| `StubCache.CacheHoldsScans` | sqry-classpath/src/stub/cache.rs:79-173 | every reachable cache file holds what a fresh scan of its last writer gives, and is there iff written and not lost since |
| `StubCache.RunTransparent` | sqry-classpath/src/pipeline.rs:436-445 | outcomes that each answer as the cache would after some history make up a stub list with the classes of an uncached run, in order; a forced run is the uncached run |
| `StubCache.ScanJars` | sqry-classpath/src/pipeline.rs:436-445 | scanning jar after jar keeps the cache one that some history of scans and losses has left, and gives the classes of an uncached run in order |
| `ParallelScan.OverlappingScansTransparent` | sqry-classpath/src/pipeline.rs:436-482 | however the scans of a run overlap, sharing temporary files of equal content, writing over each other's bytes, failing half-way and losing cache files, the finished run has the classes of an uncached run in order; and the disk it leaves at any moment is one a later run can start from |
| `ParallelScan.RunInvariant` | sqry-classpath/src/stub/cache.rs:117-173 | in every interleaving every cache and temporary name leads to a file of its content, a file that can be read back holds a scan of its content, and every outcome so far is one some history of the cache answers |
| `ParallelScan.StepKeepsDisk` | sqry-classpath/src/stub/cache.rs:126-173 | opening, writing to, renaming and cleaning up a temporary file keep the disk so, whichever scan made the file, and touch only files of the scan's own content |
| `ParallelScan.PieceReads` | sqry-classpath/src/stub/cache.rs:146-158 | a shorter write over a longer one is still read back as what was written, and a part of a write is not read back at all |
| `ParallelScan.EmptyDiskTrue` | sqry-classpath/src/stub/cache.rs:68-77 | an empty cache directory is one a first run can start from |
| `StubCache.ScanSingleJar` | sqry-classpath/src/pipeline.rs:448-482 | a hit answers unless forced; a scan is written back or the write is lost; failures leave the cache alone |
| `StubCache.CollectStubs` | sqry-classpath/src/pipeline.rs:170-204 | all stubs of all outcomes in order, each with a source jar, failures contributing none |
| `PerlPod.LineAligned` | sqry-lang-perl/src/preprocess.rs:4-56 | output line i is input line i without trailing carriage returns where the POD depth before it is 0 and it is no listed directive, and blank elsewhere; one blank line more iff the input lacks its final newline |
| `PerlPod.Idempotent` | sqry-lang-perl/src/preprocess.rs:4-56 | a second pass changes nothing, byte for byte |
| `PerlPod.InsidePodExactly` | sqry-lang-perl/src/preprocess.rs:24-45 | a line is inside POD iff since some earlier line more blocks were opened than cut |
| `PerlPod.DepthIsExcess` | sqry-lang-perl/src/preprocess.rs:24-37 | the depth is the largest excess of openings over cuts since any line |
| `PerlPod.PreprocessContent` | sqry-lang-perl/src/preprocess.rs:4-56 | the loop on `pod_depth` builds the text the other lemmas are about |
| `LiterateHaskell.LineAligned` | sqry-lang-haskell/src/preprocess.rs:36-78 | conversion keeps every line in its place; one blank line more iff the input lacks its final newline |
| `LiterateHaskell.InCodeExactly` | sqry-lang-haskell/src/preprocess.rs:45-55 | a line is inside code iff some earlier line opened an environment that no line since ended |
| `LiterateHaskell.LooksLiterate` | sqry-lang-haskell/src/preprocess.rs:17-33 | literate iff `\begin{code}` occurs, four lines carry bird tracks, or at least one and a third of the lines do |
| `LiterateHaskell.ConvertLiterate` | sqry-lang-haskell/src/preprocess.rs:36-78 | the loop on `in_code_block` builds the text the alignment lemma is about |
| `LiterateHaskell.PreprocessContent` | sqry-lang-haskell/src/preprocess.rs:4-14 | content that does not look literate is left as it is, byte for byte |
| `IngestProgress.EtaExact` | sqry-core/src/progress.rs:352-370 | with files left the estimate is at most, and less than `remaining` nanoseconds below, elapsed times remaining over processed; there is none iff nothing is measured or the product passes 64 bits |
| `IngestProgress.RunSound` | sqry-core/src/progress.rs:322-350 | after any calls at any times the counters count every kind recorded, and every unforced emission is at least 800 ms after the one before it or the creation |
| `IngestProgress.FinishReports` | sqry-core/src/progress.rs:328-349 | finishing always reports, with every file and every node kind of the run |
| `IngestProgress.DueIsEmitted` | sqry-core/src/progress.rs:333-338 | a record is reported iff 800 ms have passed since the last emission |
| `IngestProgress.AddKindsCounts` | sqry-core/src/progress.rs:261-293 | each kind lands in its own bucket and the total is the number of kinds |
| `IngestProgress.Tracker.RecordNodeKinds` | sqry-core/src/progress.rs:322-326 | one file more, its kinds added, and a throttled emission |
| `IngestProgress.Tracker.MaybeEmit` | sqry-core/src/progress.rs:333-350 | an unforced call within 800 ms changes nothing; any other emits the present state and moves the clock |
| `PlainRateLimit.RunInvariant` | sqry-cli/src/progress.rs:852-875 | in every interleaving at most one thread holds the lock, the stored time is that of the last grant, and no reading under the lock lies before it |
| `PlainRateLimit.GrantsApart` | sqry-cli/src/progress.rs:852-875 | in every interleaving of any number of threads any two grants are at least 250 ms apart for each grant between them, and no line is written that was not granted |
| `PlainRateLimit.DecisionExact` | sqry-cli/src/progress.rs:864-871 | a thread is granted iff there was no grant yet or its reading is at least 250 ms after the last one |

## Left out

- The argument parser itself, alias storage, history, exit codes and dispatch: the alias laws are about argv, with the flag tables, top-level flags and subcommand names as parameters.
- AliasPattern.ExpansionMeaning: reads what is stored as one pattern, or as words; a stored list of several tokens with a flag among them, as `sqry alias import` accepts (`sqry-cli/src/commands/alias.rs`, lines 282-311), has a meaning only as tokens, and that is `TokensMeaning`.
- AliasSides.SideOfAliasIrrelevant: the groups moved hold no lone `-` and leave no optional value open in front of a count, where the two forms ask for different things.
- CommandLine.ParseTokens: gives an optional-value flag only counts, as the help text for `--preview main` has it; under `num_args = 0..=1` (`sqry-cli/src/args/mod.rs`, line 183) a parser may take any word and refuse it, and `EagerReads` says where that differs.
- Reporting of an unknown or empty alias name (`sqry-cli/src/main.rs`, lines 2138-2161).
- Sockets, named pipes and task scheduling: a stream is its bytes, its end, and an arbitrary chunk for each read; a timeout may fire at any read.
- JSON: the register frame is given as bytes and the acknowledgement decoder is a function from bytes to an acknowledgement.
- Pump.PumpConserves: a state machine over the two copies and not two methods, since what matters is every interleaving; read and write errors end the pump and their kinds are not told apart.
- Windows: the backslash branch of `escape_path_for_query` and named pipes.
- Git subprocesses, regular-expression engines and file reads: the index, blobs, working tree and documents are values, and the patterns are written out as functions.
- ParityGate.Run: unmerged index entries and git failures end the script before the gate and are not modelled; printed detail lines are left out, and the sorted loops are taken in an arbitrary order, which the verdict does not depend on.
- ReleaseVersion.FixThenCheck: for markdown documents; JSON documents go through a reader that is a parameter, and nothing is known about what it reads after a rewrite.
- The workspace version's own lookup in `Cargo.toml` and the pathspecs of the pinned documents.
- QueryScope.ScopeDecodesExactly: a scope is decoded on its own; token positions, the parser's precedence and regular-expression values are not modelled, and the matcher is modelled by its escapes and live characters only.
- IndexDiscovery.FindNearestIndex: for absolute canonical paths; joining a relative path to the current directory is left out.
- StubCache.CacheTransparentExactly: a digest stands for its content, so hash collisions are left out, and a corrupt cache file is a lost one.
- ParallelScan.OverlappingScansTransparent: a file shared by jars of equal content is written in one piece each time, while a file no other scan shares may be written in any pieces and fail between them; two scans writing a shared file in several pieces each could mix their bytes. The encoding of stubs is a parameter that reads back what was written whatever bytes stand behind it, and reads no part of it, as the serialisation library does. Jars do not change while they are scanned.
- Jar and class parsing, build-tool resolution, persistence of classpath results and counters of cached and fresh jars.
- UTF-8 decoding with replacement in the preprocessors: the model starts from characters. Lower-casing is ASCII, as in the source.
- IngestProgress.RunSound: node counters are unbounded where the source has machine words; the count of files saturates at 64 bits as in the source.
- PlainRateLimit.GrantsApart: a state machine over the threads' steps; a poisoned lock behaves as an ordinary one, as the source recovers its state.
- Formatting of progress lines, stage events, and everything that only carries data: wire types, errors, confidence, metadata and redaction.
