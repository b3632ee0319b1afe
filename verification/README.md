# OnyxShell, verified

OnyxShell is a freestanding shell without a heap: its text processing and its tables are
index loops over fixed buffers. This project models that code in Dafny, loop by loop, and
proves that each loop computes a simple reference, and then what the reference means.

Methods mirror the source: same branches, same limits, same error returns, arrays where the
source updates arrays, classes for its global tables. Each method is proved equal to a
function; the theorems are lemmas about these functions, for all inputs and whole runs. What
a function means is fixed by equations on literal bytes, such as `Glob.RangeMember`,
`Script.LinesSplit` or `Path.PathSteps`, that do not use its parts.

`dafny verify dfyconfig.toml` checks everything.

| file | models |
|---|---|
| `Bytes.dfy` | bytes, ASCII codes, shared facts on sequences |
| `Glob.dfy`, `Dirs.dfy` | the wildcard matcher; directory scans and glob expansion |
| `Complete.dfy` | tab completion |
| `Path.dfy` | path normalization and resolution |
| `Io.dfy` | decimal output and input, the tokenizer |
| `Parse.dfy`, `Grammar.dfy` | the pipeline parser; every line as a sentence, round trip, agreement with the tokenizer |
| `Exec.dfy`, `Pipeline.dfy` | pipe, fork, dup and close over descriptor tables; from a command line to its processes |
| `Buffer.dfy` | the 256-byte vector that every expander writes to |
| `History.dfy` | the history ring, arrow-key navigation, `!` expansion |
| `Env.dfy` | the environment table, `$` and `~` expansion |
| `Jobs.dfy` | the background job table |
| `Copy.dfy` | the copy loop and the fallback of mv |
| `Script.dfy` | the script runner |
| `Eval.dfy` | from a line to a command, interactively and in scripts |
| `Repl.dfy` | the raw-mode loop: from reads to a line, the history and a command |
| `Raw.dfy`, `Keys.dfy` | the line editor; streams of keystrokes cut into reads |
| `Terminal.dfy`, `Redraw.dfy` | a terminal; editor and terminal in step |

System calls are parameters: what getcwd, readdir, read, write, waitpid and the file
contents answer, and which of open, create, rename, unlink, pipe and fork succeed. Every
theorem holds for all of these answers.

## What the code does not do

Where an expected property fails, the code is modelled as it is, and a lemma says exactly
when the property holds.

- The matcher compares a pattern byte with the name byte before it looks for a star, so a
  star facing a `*` byte is taken as that byte: the pattern `*?` rejects the name `*`
  followed by two more bytes. `Glob.DecidesLiteral` gives the relation that is computed,
  `Glob.SafeNames` and `Glob.SafePatterns` the names and the patterns that are not affected.
- Normalization is not idempotent: `/a/b/..` gives `/a/`, which gives `/a`
  (`Path.NormalizeIdempotent`).
- In a pipeline every child that reads from a pipe also holds its write end, so its input
  cannot reach end-of-file while it runs (`Exec.ReadersHoldTheirWriter`). The parent keeps the
  write ends of all pipes but the first, the last read end when the last segment has no
  arguments, as in `a | &`, and the redirect files (`Exec.WhatStaysOpen`); its table is as
  before exactly as `Exec.TableRestored` says.
- A single builtin such as `pwd` is run by the shell itself, with the shell's own output,
  also behind `> f` (`Exec.OutputReaches`).
- A recalled line, and one completed without a list of candidates, is written over the prompt
  (`Redraw.ExactIffKeptInPlace`).
- Completing a token with a directory replaces it by the bare entry name
  (`Complete.CompletionDropsDirectory`).
- A line typed in raw mode is stored before its `!` references are expanded, so `!!` recalls
  the line itself, `!-k` the entry that `!-(k-1)` stood for, and `!n` shifts in a full ring.
  `History.SubmittedBangBang`, `History.SubmittedBack` and `History.SubmittedFront` say exactly
  when a reference keeps its meaning, `History.BackShifts`, `History.SubmittedBackDiffers` and
  `History.SubmittedFrontDiffers` exactly when it does not.
  `Repl.TypedBangBang`, `Repl.TypedBack` and `Repl.TypedFront` take in the cut to 256 bytes and
  that lines with operators are not expanded.
- Ctrl-C submits the line (`Repl.InterruptSubmits`). `Repl.InterruptDiscards` says exactly when
  the line is discarded all the same; `Repl.InterruptedWordRuns` is a word that is run.
- An arrow key with a read's end inside its three bytes is not recognized; its last two bytes
  are inserted as text (`Keys.ReadsDecode`, `Keys.DecodedIffWhole`).
- A line with a byte that is not printable, recalled or completed, is not shown in step
  (`Redraw.InStepIffPrintable`).
- An environment key of 64 bytes or more can be stored twice (`Env.SetKeepsUnique`), and
  unsetting it then leaves one of the two (`Env.UnsetRemoves`); a
  history line of 128 bytes or more can be stored next to an equal entry
  (`History.PushKeepsNoRepeats`).
- Variable expansion works word by word only behind text that closes its braces
  (`Env.DistributesIffClosed`).
- A redirect operator without a target takes back an earlier target: `ls > f >` writes to the
  terminal (`Grammar.ParseInvertsPrint`). When the output file cannot be opened but the input
  file can, the input file stays open (`Exec.OpenFails`).
- A text after the 16th word of a segment starts a new segment (`Grammar.ParseChunks`,
  `Grammar.SegmentPerPiece`).
- A line whose variables hold `|`, `<` or `>` is a pipeline in a script and a plain command
  when typed; a typed pipeline gets no substitutions (`Eval.EvaluatorsAgree`).
- A typed line can be stored twice, as typed and as evaluated; `Eval.StoredOnce` says exactly
  when it is not. It is, for instance, for a line with a variable (`Eval.VariableStoredTwice`), or a plain line of 128
  bytes or more (`Eval.PlainLineStoredOnce`).
- A token without `/` is matched, and completed, against the root directory, whatever the
  working directory (`Dirs.ExpansionIsListing`). A name of 64 bytes or more is cut, so that
  its argument does not name that file (`Dirs.ArgumentNamesFile`).
- Copying a file onto itself, and moving it there when the rename fails, loses its contents
  (`Copy.CpKeepsContents`, `Copy.MvLosesContents`).

The repository's README.md says that the kernel does the line editing; the code in
src/repl/raw.rs does it in the shell, and the model follows the code.

## Model

Lines are those of the files in the repository. A lemma that states something about a loop
as a whole cites the whole loop.

| member | source | states |
|---|---|---|
| `Glob.GlobMatch` | src/features/service/glob.rs:89-169 | the in-place loop, its four exits to "no match" included, terminates by the measure (pattern behind the last star, name behind its retry position, name left) and returns exactly what `Decides` says; `steps` is the number of iterations |
| `Glob.DecidesLiteral` | src/features/service/glob.rs:89-169 | for every pattern and every name, the loop accepts exactly the recursive relation `Literal` between tokens and names: ordinary matching, except that a star facing a `*` byte of the name is taken as that byte |
| `Glob.RangeMember` | src/features/service/glob.rs:118-136 | for all bytes and every rest of a class: `[lo-hi...]` accepts a byte if and only if it lies from lo to hi, both included, or the rest of the class accepts it |
| `Glob.SingleMember` | src/features/service/glob.rs:118-136 | the same for a member that starts no range |
| `Glob.NoMember` | src/features/service/glob.rs:118-136 | the empty class accepts nothing |
| `Glob.ClosedClass` | src/features/service/glob.rs:99-147 | a pattern that begins with a closed class accepts a name exactly when the class accepts its first byte and the rest of the pattern the rest of the name |
| `Glob.UnclosedBracket` | src/features/service/glob.rs:104-115 | a `[` that nothing closes stands for itself |
| `Glob.StarByte` | src/features/service/glob.rs:96-159 | a star accepts any suffix that the rest of the pattern accepts, except that it takes a `*` byte as just that byte |
| `Glob.QuestionByte` | src/features/service/glob.rs:96-98 | `?` accepts any byte |
| `Glob.PlainByte` | src/features/service/glob.rs:96-98 | any other byte accepts itself |
| `Glob.EmptyPattern` | src/features/service/glob.rs:165-168 | the empty pattern accepts the empty name only; with the equations above this fixes the answer for every pattern and name |
| `Glob.Correct` | src/features/service/glob.rs:89-169 | the loop is exactly the ordinary matching relation whenever the name holds no `*` byte or the pattern no star |
| `Glob.SafeNames` | src/features/service/glob.rs:96-97 | a name is treated correctly by every pattern if and only if it holds no `*` byte |
| `Glob.SafePatterns` | src/features/service/glob.rs:96-97 | a pattern treats every name correctly if and only if it holds no star, or holds a class that no byte fits |
| `Glob.BreakerBreaks` | src/features/service/glob.rs:96-97 | for each name with a `*` byte, a concrete pattern that the name matches and the loop rejects |
| `Glob.PatternBreaker` | src/features/service/glob.rs:96-97 | for each satisfiable pattern with a star, a concrete name that matches it and that the loop's relation rejects |
| `Glob.Sound` | src/features/service/glob.rs:89-169 | an accepted name always matches, for all patterns and names |
| `Glob.Overtakes` | src/features/service/glob.rs:152-159 | the exchange argument: a match that starts the current segment later passes its end no earlier than the loop did, and exactly where the loop did if it starts where the loop did |
| `Glob.AliveStep` | src/features/service/glob.rs:95-163 | no iteration loses a match: a cursor with a match ahead of it is never rejected and moves to a cursor with a match ahead of it, although only the last star is remembered |
| `Glob.AliveRuns` | src/features/service/glob.rs:95-168 | from such a cursor the rest of the loop and the trailing-star scan accept |
| `Glob.IterationBound` | src/features/service/glob.rs:95-163 | for every pattern and name the main loop runs at most (pattern length + 1) * name length times |
| `Glob.IterationsFrom` | src/features/service/glob.rs:95-163 | the potential behind that bound, from any reachable cursor |
| `Glob.MatchesIffPieces` | src/features/service/glob.rs:1-2 | the reference relation holds exactly when the name falls into one piece per token, any piece for a star and one fitting byte for every other token |
| `Glob.HeadToken` | src/features/service/glob.rs:96-151 | the byte test at a pattern position agrees with the first token from there on: class, unclosed `[` as itself, `?`, literal, star |
| `Glob.ClassHas` | src/features/service/glob.rs:118-136 | scanning the bytes of a class finds c exactly when c fits one of its items, `a-z` being a range only when a byte follows the `-` |
| `Glob.ScanClass` | src/features/service/glob.rs:120-136 | the class loop computes that |
| `Glob.MatchBracket` | src/features/service/glob.rs:99-147 | the bracket case: where the first `]` closes, what an unclosed `[` does, and where the pattern continues |
| `Dirs.GlobExpand` | src/features/service/glob.rs:11-45 | the expansion loop returns the matching entries in scan order, each behind at most 64 directory bytes and cut to 127, or the token itself |
| `Dirs.ExpansionIsMatches` | src/features/service/glob.rs:11-45 | when directory and token need no cut and no entry holds a `*` byte, the expansion is exactly the set of matching entries, as the scan shows them, behind their directory, or the token itself when there is none |
| `Dirs.ExpansionInOrder` | src/features/service/glob.rs:11-45 | for every token with a wildcard: the arguments are those of the accepted entries, each once and in scan order, each the first 64 directory bytes and the entry; or the first 127 bytes of the token |
| `Dirs.PlainToken` | src/features/service/glob.rs:11-19 | a token without wildcards is its own expansion, cut to 127 bytes |
| `Dirs.EntriesOf` | src/features/service/glob.rs:61-87 | a scan reads the first 64 names of the path's first 255 bytes, or of the root, each up to its NUL and at most 63 bytes of it |
| `Dirs.EntriesAreNames` | src/features/service/glob.rs:61-87 | a scan shows a directory as it is if and only if it has at most 64 names, each without NUL and of at most 63 bytes |
| `Dirs.ArgumentNamesFile` | src/features/service/glob.rs:23-34 | the argument made for a listed name is that file's path if and only if the name is of that kind and the directory has at most 64 bytes |
| `Dirs.ExpansionIsListing` | src/features/service/glob.rs:11-87 | for such a directory without `*` bytes the arguments are the paths of exactly the matching files, or the token itself; a token without `/` is matched against the root directory |
| `Dirs.MatchingMembers` | src/features/service/glob.rs:23-34 | an argument is produced exactly when some entry is accepted and yields it |
| `Dirs.SplitParts` | src/features/service/glob.rs:47-52 | splitting a token at its last `/` loses nothing; the second part holds no `/`; the first is empty exactly when there is none |
| `Complete.TabComplete` | src/features/service/mod.rs:19-134 | the completion code returns the spliced line (first 256 bytes), the cursor and the printed flag, and writes the list of candidates exactly when there are several |
| `Complete.CandidatesAre` | src/features/service/mod.rs:25-59 | the candidates are the builtins with the prefix, if only blanks stand before the token, and the entries with the prefix of its last part, each of them once and in order |
| `Complete.CompletionByCount` | src/features/service/mod.rs:61-134 | what no, one and several candidates make of line, cursor and output: nothing; the name and a blank; a list, and the longest common prefix if it is longer than the token |
| `Complete.ListedConcat` | src/features/service/mod.rs:106-125 | the list has each candidate followed by two blanks |
| `Complete.CompletionExtends` | src/features/service/mod.rs:19-134 | a token without `/` is only ever extended: the result is line before + extension + line behind, the token is a prefix of the extension, the cursor is right behind it, and with several candidates the extension is the greatest prefix that all of them share |
| `Complete.CommonIsLongest` | src/features/service/mod.rs:85-98 | a length is at most the computed common length if and only if all candidates agree on that many bytes |
| `Complete.CompletionDropsDirectory` | src/features/service/mod.rs:48-59 | when no directory entry holds a `/`, the token stays a prefix of what replaces it if and only if it holds no `/`, or there are no candidates, or several that share no more bytes than it has |
| `Complete.CollectCandidates` | src/features/service/mod.rs:25-59 | builtins with the prefix (first word only) followed by directory entries with the prefix, in order |
| `Complete.ShrinkCommon` | src/features/service/mod.rs:85-98 | the shrinking loop with its early exit at 0 computes the common length |
| `Path.Normalize` | src/path.rs:103-168 | the in-place loop over the output buffer returns 0 exactly when `Normalized` fails, else the length of its result, NUL-terminated |
| `Path.PopBack` | src/path.rs:126-134 | the backward scan over the buffer is the byte-level pop |
| `Path.PushComp` | src/path.rs:136-152 | separator, bounds tests and copy are the byte-level push, error returns included |
| `Path.NormalizeFolds` | src/path.rs:103-168 | a successful result spells the stack fold of the input's components (skip empty and `.`, `..` pops and stops at the root), with a final `/` below the root exactly when the last component that had an effect was `..`; its own components are that fold |
| `Path.AppendAllSpells` | src/path.rs:115-158 | pops and pushes in the byte buffer refine pops and pushes on a stack of names, from any buffer that spells a stack |
| `Path.SplitJoin` | src/path.rs:115-158 | splitting into components is compositional at every `/` |
| `Path.NormalizeSucceeds` | src/path.rs:103-168 | an absolute input of less than 256 bytes never fails, and the result is no longer than the input |
| `Path.NormalizedStep` | src/path.rs:115-158 | for an absolute path of any length, one more component acts on the result of the path in front of it |
| `Path.LoopFits` | src/path.rs:115-158 | the invariant behind that: from any reachable loop state the rest of the input fits |
| `Path.NormalizeAgain` | src/path.rs:103-168 | a second application gives the spelling without a final `/`, a third changes nothing |
| `Path.NormalizeIdempotent` | src/path.rs:126-134 | a second application changes nothing if and only if the result is the root or the last effective component was not `..` |
| `Path.NamesSpell` | src/path.rs:103-168 | a spelled stack of names denotes that stack |
| `Path.Resolve` | src/path.rs:29-88 | resolution in place, with the root as the fallback when getcwd fails or answers a relative path, and 0 when the joined path is too long |
| `Path.ResolveSpells` | src/path.rs:29-88 | for every input and directory: each result, the fallback included, spells names, those of the input or of the directory, a `/` and the input, with a `/` at the end below the root exactly when `..` had the last word; and exactly when there is a result for relative inputs, and for absolute ones of less than 256 bytes |
| `Path.ResolveFails` | src/path.rs:103-168 | an absolute input of any length fails if and only if one of its names does not fit behind those in front of it |
| `Path.PathSteps` | src/path.rs:115-158 | the names of a path and its last word, component by component and byte by byte: empty and `.` change nothing, `..` drops the last name, any other component is a name |
| `Path.SpellSteps` | src/path.rs:136-152 | names are spelled each behind a `/`, the root as `/` |
| `Path.JoinInto` | src/path.rs:63-85 | directory, separator and input in the 256-byte buffer, or failure |
| `Path.CopyAbs` | src/path.rs:91-98 | copies a path that fits, NUL-terminated, else returns 0 |
| `Path.JoinNames` | src/path.rs:55-85 | neither the separator rule nor the `./` strip changes the components: they are those of the directory with the input's components folded onto them |
| `Path.ResolveNames` | src/path.rs:29-88 | the components of every successful resolve |
| `Path.ResolveSucceeds` | src/path.rs:65-88 | a relative path resolves if and only if the joined path fits |
| `Path.ResolveComposes` | src/path.rs:29-88 | resolving b against the directory that a resolves to has the same components as resolving a/b, whenever both succeed; and for a relative a, or an absolute a/b of less than 256 bytes, the first succeeds whenever the second does |
| `Path.InnerSucceeds` | src/path.rs:65-88 | that b fits behind the resolved directory whenever a/b fits behind the working directory |
| `Path.DirFits` | src/path.rs:29-88 | a resolved directory with its separator takes no more room than the text it was resolved from |
| `Io.WriteU64` | src/io.rs:59-73 | for every u64 the digit loop stays within its 20 bytes and writes the decimal numeral |
| `Io.U64Digits` | src/io.rs:64-72 | 20 digits are enough for every u64 |
| `Io.ValueOfDecimal` | src/io.rs:59-73 | reading the numeral gives the number back |
| `Io.DecimalDigits` | src/io.rs:59-73 | the digits of the numeral, last one first, as bytes |
| `Io.ParseJobId` | src/commands/exec/mod.rs:108-128 | the checked loop returns the value of the digits behind `%`, and 0 for an empty or malformed specifier or a value of 2^64 or more |
| `Io.JobIdRoundTrip` | src/commands/exec/mod.rs:108-128 | the numeral of any u64 behind a `%` is read back as that number |
| `Io.JobIdOfDigits` | src/commands/exec/mod.rs:108-128 | `%`, zeros and any numeral give the number, or 0 when it is 2^64 or more |
| `Io.JobIdOfOthers` | src/commands/exec/mod.rs:108-128 | anything else gives 0 |
| `Io.Tokenize` | src/io.rs:154-175 | fills the token array with the first 16 words and returns their number |
| `Io.RunsCover` | src/io.rs:154-175 | the words are maximal blank-free runs, in order, with only blanks before, between and (unless the limit was reached) behind them |
| `Io.CoverUnique` | src/io.rs:154-175 | no other word list has that property |
| `Parse.ParseLine` | src/pipeline/parse.rs:23-95 | the nested index loops compute the parser function, segment limit, argument limit and background rule included |
| `Parse.ParseSegment` | src/pipeline/parse.rs:46-80 | the segment loop |
| `Parse.ParseItem` | src/pipeline/parse.rs:55-78 | one redirect or one word |
| `Parse.SegToArgs` | src/pipeline/parse.rs:4-21 | each argument is the text of its slice, cut to 63 bytes |
| `Parse.ParsedInLine` | src/pipeline/parse.rs:23-95 | every slice the parser returns lies within the line, and there are at most 8 segments |
| `Grammar.ParseInvertsPrint` | src/pipeline/parse.rs:23-95 | parsing the printed form of any sentence gives back its words segment by segment, the last target of each redirect operator and the background flag, for every choice of blanks and bars, for redirects anywhere among the words and operators without a target |
| `Grammar.EveryLineIsSentence` | src/pipeline/parse.rs:23-95 | every line is the printed form of a sentence, so what holds of sentences holds of whatever is typed |
| `Grammar.AmpersandRule` | src/pipeline/parse.rs:83-92 | a final `&` behind the last segment's other words is no word but the background flag; no other `&` is |
| `Grammar.LastTargetWins` | src/pipeline/parse.rs:55-72 | of several redirects by one operator the last gives the target |
| `Grammar.SegsParse` | src/pipeline/parse.rs:37-81 | the same from any point between two segments |
| `Grammar.ItemsParse` | src/pipeline/parse.rs:47-80 | the same from any point within a segment |
| `Grammar.SegmentsAreChunks` | src/pipeline/parse.rs:37-81 | on a line without redirects the segments are the first 8 of: the words of each piece between bars, in groups of 16; from any state of the outer loop |
| `Grammar.ParseChunks` | src/pipeline/parse.rs:37-92 | the same for a whole line, then the background rule: a 17th word starts a new segment |
| `Grammar.SegmentPerPiece` | src/pipeline/parse.rs:37-81 | on such a line there is one segment for each non-blank piece, with exactly its words, if and only if there are at most 8 such pieces and each has at most 16 words |
| `Grammar.SegmentTakesWords` | src/pipeline/parse.rs:47-80 | one run of the segment loop takes the next words of its piece, 16 in all, and stops where the next segment begins |
| `Grammar.ParseAgreesWithTokenize` | src/pipeline/parse.rs:37-92 | with 1 to 16 words there is one segment, whose arguments are exactly the tokenizer's words minus a final lone `&` |
| `Exec.Parent.Execute` | src/pipeline/exec.rs:9-180 | the whole call on the parent's descriptor table, all paths and early returns included: one segment without redirects, a single builtin with redirects, opens, segment loop, close loop, waiting or the job entry |
| `Exec.Parent.ExecuteAlone` | src/pipeline/exec.rs:11-39 | one segment without redirects: nothing, a command in the shell, or one background child |
| `Exec.Parent.RunSegments` | src/pipeline/exec.rs:95-158 | the segment loop |
| `Exec.Parent.CloseAll` | src/pipeline/exec.rs:159-163 | the close loop |
| `Exec.Parent.WaitAll` | src/pipeline/exec.rs:164-179 | waits for every child in order, or enters the last one as a job |
| `Exec.Parent.OpenRedirects` | src/pipeline/exec.rs:40-74 | both opens are tried before either answer is looked at; the output file is closed again when the input file fails |
| `Exec.Parent.RunSegment` | src/pipeline/exec.rs:100-158 | one segment: skip, pipe, fork (and the closes after a failed fork), child table, close entry |
| `Exec.ChildTableFacts` | src/pipeline/exec.rs:130-138 | after its closes and dups a child reads from its read descriptor, writes to its write descriptor and has every other descriptor as before |
| `Exec.SpawnKeepsWired` | src/pipeline/exec.rs:100-158 | each iteration keeps the wiring invariant: the parent holds the base table and both ends of every pipe, the next read end is the last pipe's, every child started so far is wired, every close entry is the expected one |
| `Exec.RunWires` | src/pipeline/exec.rs:9-163 | in every run without failures the shell runs the command itself, without children and with its own table, or there is one child per segment with arguments, in order; child k reads the pipe that child k-1 writes, and the ends are the redirect files or the inherited descriptors |
| `Exec.OutputReaches` | src/pipeline/exec.rs:75-140 | some process writes to the opened output file if and only if the last segment has arguments and is not a single builtin; that one runs with the shell's own output |
| `Exec.ParentWaits` | src/pipeline/exec.rs:164-179 | in every run without failures exactly the children are waited for, in order, or none in the background, where the last one becomes the job |
| `Exec.ClosesAreSafe` | src/pipeline/exec.rs:64-163 | on every path and whichever calls fail, the parent closes only descriptors that were not open before, each at most once, never 0, 1 or 2 |
| `Exec.HaltsIffCallsFail` | src/pipeline/exec.rs:19-129 | the run returns early if and only if an open fails, or the shell does not run the command itself and a pipe or fork call that a segment with arguments makes fails |
| `Exec.OpenFails` | src/pipeline/exec.rs:40-74 | a redirect that cannot be opened: nothing runs and the table is as before, but for the input file when the output file is the one that failed |
| `Exec.LoopFails` | src/pipeline/exec.rs:100-129 | the first segment whose pipe or fork call fails: the children before it are wired and run on, nothing is waited for, no job is entered, and the exact closes and the exact table left |
| `Exec.RunReads` | src/pipeline/exec.rs:95-158 | children are the segments with arguments, in order; each reads and writes what its place among them says, and the one that writes no pipe is that of the last segment |
| `Exec.ChildPids` | src/pipeline/exec.rs:117-158 | every child has the process id that fork answered for its segment |
| `Exec.ReadersHoldTheirWriter` | src/pipeline/exec.rs:130-163 | every child that reads from a pipe also holds that pipe's write end under a number above 2 |
| `Exec.WhatStaysOpen` | src/pipeline/exec.rs:146-163 | after every run without failures in which the shell does not run the command itself, the parent's table is the base table, the write end of every pipe but the first, and the last read end if the last segment has no arguments |
| `Exec.TableRestored` | src/pipeline/exec.rs:75-163 | after every run without failures the parent's table is as before if and only if the shell ran the command itself, or there were no redirects and no segment with arguments, or one or two of which the last is the last segment |
| `Exec.ReadEndLeft` | src/pipeline/exec.rs:105-163 | a failing instance: two segments, the second without arguments, no redirects |
| `Pipeline.RunLine` | src/pipeline/exec.rs:11-180 | parsing a line, copying the arguments and executing the pipeline, as one |
| `Pipeline.RunWithJobs` | src/pipeline/exec.rs:9-180 | the same with the job table: finished jobs are reaped first, the last process of a background line is added in the end |
| `Pipeline.SentencePlan` | src/pipeline/parse.rs:4-95 | what any line, as a sentence, is to the executor: which segments have words, their arguments cut to 63 bytes, the redirects, the background flag |
| `Pipeline.PipelineRuns` | src/pipeline/exec.rs:9-163 | for every line, in a run without failures, child k is wired to its neighbours and runs the words of its segment, each cut to 63 bytes, or the shell runs the only command |
| `Pipeline.SentenceHalts` | src/pipeline/exec.rs:9-129 | for every line, from its words and the answers of the system calls alone: the run ends early if and only if a file that is named cannot be opened, or the shell does not run the line itself and a command with words makes a pipe or fork call that fails |
| `Pipeline.SentenceWires` | src/pipeline/exec.rs:9-180 | otherwise the shell runs the only command with its own descriptors, or the commands with words are children, in order, with the processes that fork answered; each reads the pipe of the one before it, the first the input file; each writes its own pipe, the last of the line the output file; and all are waited for, or the last is the job |
| `Buffer.ByteVec.Push` | src/features/buffer/mod.rs:18-23 | the vector always holds the first 256 bytes of everything pushed |
| `Buffer.ByteVec.Extend` | src/features/buffer/mod.rs:37-41 | extending is pushing in order |
| `History.Ring.Push` | src/features/history.rs:14-40 | trim, comparison with the last stored entry, cut and slot store extend the log of accepted lines and keep every slot equal to its latest occupant |
| `History.Ring.Get` | src/features/history.rs:42-55 | returns the entry that the 64-bit index arithmetic selects |
| `History.Ring.GetLast` | src/features/history.rs:57-64 | returns the last entry of the log |
| `History.Ring.NavUp` | src/features/history.rs:74-92 | the up key, on the log |
| `History.Ring.NavDown` | src/features/history.rs:94-104 | the down key, on the log |
| `History.Ring.NavReset` | src/features/history.rs:70-72 | a fresh navigation |
| `History.Ring.HistoryExpand` | src/features/history.rs:108-178 | the expansion loop writes the first 256 bytes of the unbounded reference expansion |
| `History.Ring.ExpandOne` | src/features/history.rs:112-175 | one round of it: `!!`, `!-n`, `!n`, overflow of the number, or a plain byte |
| `History.OccupantAt` | src/features/history.rs:46-54 | the slot of each of the last 16 entries holds that entry |
| `History.PushedOccupants` | src/features/history.rs:34-39 | storing one more entry changes one slot only, across wraparound |
| `History.PushKeepsNoRepeats` | src/features/history.rs:27-38 | neighbouring entries stay different if and only if the line is not one of 128 bytes or more whose first 127 are the last entry |
| `History.RecallIsWindow` | src/features/history.rs:42-55 | the n-th recall is the n-th of the last min(16, count) entries, and nothing beyond, if and only if the index sum stays below 2^64 |
| `History.UpShowsRecent` | src/features/history.rs:74-92 | after a reset the k-th up key shows the k-th most recent stored entry, and nothing once they run out |
| `History.DownUndoesUp` | src/features/history.rs:74-104 | a down key takes back an up key that moved, entry and cursor |
| `History.NumberRead` | src/features/history.rs:125-164 | a decimal numeral in the line is read as its number |
| `History.BangBang` | src/features/history.rs:114-124 | `!!` expands to the latest entry, or to itself, whatever follows |
| `History.BangMinus` | src/features/history.rs:125-150 | `!-` and any digits, with leading zeros or too many of them: the digits that stay below 2^64 are read, and name the entry counted from the back; 0 or no digits leave the `!` as it is |
| `History.BangNumber` | src/features/history.rs:152-171 | `!` and any digits: the same, counted from the front |
| `History.LoneBang` | src/features/history.rs:174-175 | any other `!` starts no reference and is copied |
| `History.TrimIs` | src/features/history.rs:15-18 | exactly the line ends and NULs at the end are dropped |
| `History.Remembered` | src/features/history.rs:14-40 | a line is stored, cut to 127 bytes, unless it is empty or the latest entry; the last 16 entries can be seen |
| `History.ExpandPlain` | src/features/history.rs:111-176 | text without `!` is copied |
| `History.BangBangIsMinusOne` | src/features/history.rs:114-150 | with a non-empty history `!!` and `!-1` expand alike, behind any text without `!` |
| `History.FrontIsBack` | src/features/history.rs:125-172 | `!n` and `!-k` expand alike whenever n + k is one more than the number of stored entries, although they compute their slots differently |
| `History.SubmittedBangBang` | src/features/history.rs:14-39 | in the expansion before its cut to 256 bytes, a line with `!!`, stored before it is expanded, recalls its own text; that is what it stood for if and only if the last entry was the line's first 127 bytes already, or the history was empty and the line is `!!` alone |
| `History.SubmittedBack` | src/features/history.rs:14-39 | in the expansion before its cut to 256 bytes, a stored line with `!-k` expands to the entry that `!-(k-1)` named, `!-1` to the line; the meaning is kept if and only if nothing was stored or the two entries are equal |
| `History.BackShifts` | src/features/history.rs:125-150 | as expansions, the shift by one holds if and only if k is not 17 or the ring was not full |
| `History.SubmittedFront` | src/features/history.rs:14-55 | in the expansion before its cut to 256 bytes, a stored line with `!n`: the number one past the stored entries names the line, in a full ring every other number the next entry; the meaning is kept if and only if nothing was stored or the two entries are equal |
| `History.SubmittedBackDiffers` | src/features/history.rs:125-150 | without equal neighbours the meaning of `!-k` is lost if and only if the line was stored and k is at most the number of entries now stored |
| `History.SubmittedFrontDiffers` | src/features/history.rs:152-171 | without equal neighbours the meaning of `!n` is lost if and only if the line was stored and the ring was full with 0 < n <= 16, or n is one past the stored entries |
| `History.PushKeepsFit` | src/features/history.rs:14-39 | entries stay between 1 and 127 bytes |
| `Env.EnvTable.EnvGet` | src/features/env.rs:21-30 | the array search is lookup in the list of bindings |
| `Env.EnvTable.EnvSet` | src/features/env.rs:32-60 | overwrites in place, appends, or ignores a new key when 32 are stored; keys cut to 63 bytes, values to 127 |
| `Env.EnvTable.EnvUnset` | src/features/env.rs:62-76 | the shift-left loop removes the first binding of the key and keeps the order of the rest |
| `Env.EnvTable.BuildEnvp` | src/features/env.rs:89-114 | one row per binding, in order, each beginning with key, `=`, value, NUL, and a pointer to each, ended by 0 |
| `Env.DecodeEnvString` | src/features/env.rs:93-111 | reading a row to its NUL and splitting at its first `=` gives the binding back, whatever the row held before |
| `Env.LookupSet` | src/features/env.rs:32-60 | setting changes exactly one entry of the map, if the key is known or there is room |
| `Env.SetIgnored` | src/features/env.rs:32-60 | when setting changes nothing; an existing row keeps its place, a new one comes last |
| `Env.LookupUnset` | src/features/env.rs:62-76 | unsetting leaves the lookup of every other key as it is, in every table |
| `Env.UnsetRemoves` | src/features/env.rs:62-76 | the key is gone if and only if no second row holds it |
| `Env.UniqueHeldOnce` | src/features/env.rs:62-76 | which is so in every table with distinct keys |
| `Env.LongKeyStays` | src/features/env.rs:36-59 | a failing instance: a key of 64 bytes or more that was set twice |
| `Env.SetKeepsUnique` | src/features/env.rs:36-59 | keys stay distinct if and only if the key is empty, known, ignored, or its first 63 bytes are not a stored key |
| `Env.RunsKeepTable` | src/features/env.rs:21-76 | over whole runs of sets and unsets the sizes stay within bounds, and keys stay distinct while no key of 64 bytes or more is set |
| `Env.EnvTable.ExpandVarsInto` | src/features/env.rs:118-159 | the loop writes the first 256 bytes of the unbounded reference expansion |
| `Env.EnvTable.ExpandPiece` | src/features/env.rs:122-156 | one round of it: `${name}`, `$name`, or a plain byte |
| `Env.PiecesCoverLine` | src/features/env.rs:118-159 | the line is cut into pieces before any value is known, and the pieces put together are the line: substituted values are never rescanned |
| `Env.PlainExpands` | src/features/env.rs:155-156 | text without `$` is copied |
| `Env.BracedExpands` | src/features/env.rs:124-136 | `${name}` stands for the value, or nothing |
| `Env.NamedExpands` | src/features/env.rs:137-153 | `$name` stands for the value of the longest name, or nothing |
| `Env.LoneDollar` | src/features/env.rs:122-156 | any other `$` is copied: at the end, before a byte that starts no name, before a brace that is never closed |
| `Env.ExpandDistributes` | src/features/env.rs:118-159 | expansion distributes over a + blank + b, for every table and every b, when a closes its braces |
| `Env.DistributesIffClosed` | src/features/env.rs:124-136 | it does so for every table and every b if and only if every `${` that the scan of a meets is closed within a |
| `Env.UnclosedDiffers` | src/features/env.rs:124-136 | the failing instance: an empty table and b = `}` |
| `Env.EnvTable.ExpandTildeInto` | src/features/env.rs:163-189 | the loop writes the first 256 bytes of the unbounded reference expansion |
| `Env.TildeDistributes` | src/features/env.rs:163-189 | tilde expansion distributes over a + blank + b for all a and b |
| `Env.TildeWord` | src/features/env.rs:167-184 | `~user` stands for that user's directory, a bare `~` for HOME or its default |
| `Env.TildePlain` | src/features/env.rs:166-187 | any other byte is copied; a word can start behind a blank or a tab, and nowhere else |
| `Jobs.JobTable.JobAdd` | src/features/service/jobs.rs:14-26 | appends a running job under the next id, or answers 0 when 16 are listed |
| `Jobs.JobTable.JobRemoveById` | src/features/service/jobs.rs:28-41 | removes the first job with that id and shifts the rest |
| `Jobs.JobTable.JobFindById` | src/features/service/jobs.rs:43-50 | finds the first job with that id |
| `Jobs.JobTable.JobSetRunning` | src/features/service/jobs.rs:52-60 | changes the flag of the first job with that id |
| `Jobs.JobTable.JobReap` | src/features/service/jobs.rs:91-115 | for every sequence of waitpid answers, removes the first job of each finished process up to the first non-positive answer |
| `Jobs.AddOrdered` | src/features/service/jobs.rs:14-26 | adding keeps ids strictly increasing and below the next id if and only if the table is full or the counter does not wrap |
| `Jobs.AddFinds` | src/features/service/jobs.rs:14-26 | a new job is found under the id returned, with its process and running; every other id finds what it did |
| `Jobs.FirstById` | src/features/service/jobs.rs:28-60 | finding, removing and marking act on the first job with the id |
| `Jobs.ReapsFirst` | src/features/service/jobs.rs:91-115 | a reported process takes off the first job that has it |
| `Jobs.ReapsNone` | src/features/service/jobs.rs:91-115 | and nothing when no job has it; a non-positive answer ends the round |
| `Jobs.RunsKeepOrder` | src/features/service/jobs.rs:14-115 | over whole runs of add, remove, mark and reap that do not use up the counter, ids stay strictly increasing and non-zero |
| `Jobs.ReapedOrdered` | src/features/service/jobs.rs:91-115 | reaping keeps the order |
| `Jobs.ListedIdFindsJob` | src/features/service/jobs.rs:43-50 | every listed id, printed, typed back behind `%` and looked up, finds exactly its own job |
| `Jobs.MarkChangesOne` | src/features/service/jobs.rs:52-60 | marking changes the lookup of that id only |
| `Jobs.ReapedExactly` | src/features/service/jobs.rs:91-115 | when processes are distinct, one round of reaping takes off exactly the jobs whose process is reported before the first non-positive answer |
| `Jobs.RemoveTakesOne` | src/features/service/jobs.rs:28-41 | removing by id changes the lookup of that id only |
| `Copy.Transfer.CopyLoop` | src/commands/file/copy.rs:47-69 | both loops, over every schedule of short reads, short writes and errors |
| `Copy.Transfer.WriteLoop` | src/commands/file/copy.rs:59-67 | the inner loop |
| `Copy.CopyIsPrefix` | src/commands/file/copy.rs:47-69 | success means that the destination received exactly the source bytes, failure that it received a prefix |
| `Copy.CopySucceeds` | src/commands/file/copy.rs:47-69 | short reads and writes alone never make it fail |
| `Copy.CpKeepsContents` | src/commands/file/copy.rs:29-44 | a copy that succeeds leaves the contents at the destination if and only if the two paths differ or there was nothing to copy |
| `Copy.CpCopies` | src/commands/file/copy.rs:29-69 | a copy between two paths: what each failing call leaves, that success is the full contents, and that no other file changes |
| `Copy.MvKeepsContents` | src/commands/file/copy.rs:89-102 | moving onto another path removes the source only when its full contents are at the destination, and touches no third file |
| `Copy.MvMoves` | src/commands/file/copy.rs:89-102 | a move happens whenever the rename succeeds, or the copy and the unlink do; without the unlink both files stay; a failing open or create changes nothing |
| `Copy.MvCommandKeeps` | src/commands/file/copy.rs:71-103 | the same for the command, for every argument list and working directory: it changes nothing, or its first two arguments resolve and the files they name do as stated |
| `Copy.MvCommandMoves` | src/commands/file/copy.rs:71-103 | and two arguments that resolve to different paths are moved whenever the calls succeed |
| `Copy.MvLosesContents` | src/commands/file/copy.rs:71-103 | no copy of the contents survives if and only if source and destination are one path, the rename fails, the fallback opens and creates, and the file was not empty (or was, and is unlinked as well) |
| `Script.Shell.DoScript` | src/commands/exec/script.rs:20-32 | the depth counter never exceeds 8 and is restored unless the shell ends; state, executed lines and whether the shell ended are those of the recursive reference, for every world of scripts, self-sourcing ones included |
| `Script.Shell.DoScriptInner` | src/commands/exec/script.rs:34-73 | the byte loop executes the lines of the file, terminating by (8 - depth, unread bytes) |
| `Script.Shell.ExecuteLine` | src/commands/exec/script.rs:75-128 | one line as a recursive step: its effect, then whatever script it sources or executes, and the end of the shell if it exits |
| `Script.PendingIsLines` | src/commands/exec/script.rs:48-68 | the line assembler yields exactly the split on LF with CR dropped, each line cut to 255 bytes, empty and `#` lines skipped |
| `Script.LinesSplit` | src/commands/exec/script.rs:48-68 | lines end at line feeds: the lines of a, a line feed and b are those of a and those of b |
| `Script.LinesWithoutCr` | src/commands/exec/script.rs:60-63 | a carriage return anywhere in a file changes none of its lines |
| `Script.OneLine` | src/commands/exec/script.rs:53-68 | one line is skipped if it is empty or begins with `#`, and otherwise is its first 255 bytes; with the two laws above this fixes the lines of every file |
| `Script.SourceEffects` | src/commands/exec/script.rs:20-73 | the state that a sourced script leaves is exactly the effects of the executed lines, in order, for every world, depth and name |
| `Script.RunLinesEffects` | src/commands/exec/script.rs:50-68 | the same for any list of lines |
| `Script.SourceIsMachine` | src/commands/exec/script.rs:9-128 | the recursion with its depth counter runs the same lines in the same order to the same state as a machine without recursion, a stack of what at most 8 open scripts have left |
| `Script.RunLinesConcat` | src/commands/exec/script.rs:50-68 | executing lines is compositional, and nothing is executed after the shell has ended |
| `Script.SourceBound` | src/commands/exec/script.rs:20-73 | with at most L lines per file, sourcing from depth d executes at most L + L^2 + ... + L^(8-d) lines |
| `Script.SourceReachesBound` | src/commands/exec/script.rs:20-73 | the bound is reached whenever every file has L lines that all source some file |
| `Script.PowSumStep` | src/commands/exec/script.rs:9-10 | the recurrence behind the sum |
| `Eval.EvalLine` | src/eval.rs:8-69 | history, tilde and variable expansion, the operator test before the substitutions, both history pushes, tokens, glob expansion and the cut at 32 arguments yield the command and the new history log |
| `Eval.ExecuteLine` | src/commands/exec/script.rs:75-128 | the script line: the operator test after the substitutions, then a pipeline or one command |
| `Eval.CollectArgs` | src/commands/exec/script.rs:103-125 | the nested argument loops with their two early exits return the first 32 expanded arguments |
| `Eval.PlainLine` | src/eval.rs:8-69 | through every stage: a line without special bytes, with words of at most 127 bytes, reaches its command as exactly the texts of its first 16 words, interactively and in a script, for every history, environment and directory |
| `Eval.PipedIff` | src/eval.rs:19-28 | a line becomes a pipeline if and only if `<`, `>` or a bar is in it, behind the references when typed and behind the substitutions in a script; its text is cut to 255 bytes |
| `Eval.OneOperator` | src/eval.rs:4-6 | for instance a word, `<` alone and a word |
| `Eval.RecallEvaluates` | src/eval.rs:13-33 | what a reference recalls is evaluated as if it had been typed |
| `Eval.ValueVerbatim` | src/eval.rs:30-34 | a variable's value is not looked at again, not even for a `~` |
| `Eval.ArgsConcat` | src/eval.rs:49-67 | the arguments of several words are those of each, one after the other |
| `Eval.ArgsOfWord` | src/eval.rs:51-63 | each expansion of a word is an argument, up to a NUL |
| `Eval.SimpleIs` | src/eval.rs:41-68 | the first 16 words and the first 32 arguments are kept |
| `Eval.EvaluatorsAgree` | src/eval.rs:19-37 | interactive and script evaluation of a line without `!` give the same command if and only if the substitutions leave a line with operators as it is and bring none into a line without |
| `Eval.EvalStores` | src/eval.rs:8-39 | evaluating any line leaves the history as it is if and only if the text it evaluates, once trimmed, is empty or the last entry |
| `Eval.StoredOnce` | src/repl/raw.rs:164-178 | a typed line is stored as typed and stored again as evaluated; one entry is left if and only if the second text is empty or equals the first 127 bytes of the first, for every line |
| `Eval.FreeLineStoredOnce` | src/repl/raw.rs:164-178 | for a line without references and operators: if and only if its substitution is empty or is its own first 127 bytes |
| `Eval.VariableStoredTwice` | src/repl/raw.rs:164-178 | a failing instance: a typed variable leaves two entries |
| `Eval.PlainLineStoredOnce` | src/repl/raw.rs:164-178 | a plain line is stored once if and only if it has less than 128 bytes or was the last entry already |
| `Eval.SourceLineTarget` | src/commands/exec/script.rs:75-128 | a line `source w` sources the first name that the word, substituted, expands to, as long as that is one word without operators and fits the buffers |
| `Eval.SourceLineSources` | src/commands/exec/script.rs:75-128 | a line `source f` with a plain word of at most 127 bytes sources f, in every environment and directory |
| `Eval.SourcePipeSources` | src/commands/exec/script.rs:75-93 | so does the same line with a bar behind it, a pipeline of one segment that the shell runs itself, with f cut to 63 bytes; except for `&`, which makes it a background line |
| `Eval.SelfSourcingScript` | src/commands/exec/script.rs:20-128 | a script of L lines that each source the script itself executes exactly L + L^2 + ... + L^8 lines, whatever else the host answers |
| `Eval.TargetIsSourced` | src/commands/exec/script.rs:12-18 | what follows a command is sourcing a script exactly when the command is a source command that the shell runs itself, and it is that script |
| `Eval.StepsByName` | src/commands/mod.rs:76-89 | by command name, what is executed after a command; no other command decides that |
| `Eval.RedirectedExitEnds` | src/pipeline/exec.rs:75-94 | a redirected `exit` ends a script exactly when its file can be opened |
| `Eval.ExitEnds` | src/commands/exec/script.rs:75-128 | no line behind an exit line is executed |
| `Repl.ReadAndRun` | src/repl/raw.rs:13-179 | one round of the loop, from the prompt over the reads to the command and the history: an empty line does nothing, a line with operators is stored and goes to the pipeline unexpanded, any other is stored and then evaluated |
| `Repl.InterruptSubmits` | src/repl/raw.rs:88-132 | at any point of a line Ctrl-C ends it as Enter does, with the same text |
| `Repl.SubmitsNothing` | src/repl/raw.rs:164-178 | a submitted line runs nothing and leaves the history as it is if and only if it is empty, or it is blank but for line ends or the last entry already, holds no operator and evaluates to blanks that are no new entry |
| `Repl.EnteredIsStored` | src/repl/raw.rs:164-178 | every submitted line with something in it is in the history, as the last entry if it is a pipeline |
| `Repl.InterruptDiscards` | src/repl/raw.rs:129-178 | so an interrupted line is discarded exactly under that condition |
| `Repl.InterruptedWordRuns` | src/repl/raw.rs:129-178 | an instance: a typed word is run when it is interrupted |
| `Repl.SubmittedRuns` | src/repl/raw.rs:164-178 | the command of a typed line is the one of its evaluated text, of which an expansion keeps 256 bytes and a line with operators is kept as typed |
| `Repl.TypedBangBang` | src/repl/raw.rs:164-178 | a typed line with `!!` is evaluated as what it stood for if and only if it has an operator, or its own text and the last entry give the same line as far as it is kept |
| `Repl.TypedBack` | src/repl/raw.rs:164-178 | the same for `!-k`, with the k-th entries from the back before and after the line is stored |
| `Repl.TypedFront` | src/repl/raw.rs:164-178 | the same for `!n`, with the n-th stored entries |
| `Repl.SameKeptFits` | src/repl/raw.rs:164-178 | for lines that fit in 256 bytes these conditions are equality of the two texts |
| `Raw.LineEditor.EditLine` | src/repl/raw.rs:18-163 | over all reads until the line is submitted or the shell exits, a failing read included, buffer, cursor, history cursor and output are those of the zipper editor |
| `Raw.LineEditor.ProcessChunk` | src/repl/raw.rs:28-162 | the same for the bytes of one read; what follows a submitting byte is dropped |
| `Raw.LineEditor.KeyPress` | src/repl/raw.rs:30-161 | the same for one key |
| `Raw.LineEditor.KeyInsert` | src/repl/raw.rs:141-156 | shift up in place, store, redraw: insertion at the zipper's gap, ignored at 255 bytes |
| `Raw.LineEditor.KeyRubout` | src/repl/raw.rs:92-108 | shift down in place, redraw: deletion before the gap |
| `Raw.LineEditor.KeyUp` | src/repl/raw.rs:34-45 | recall of an older entry |
| `Raw.LineEditor.KeyDown` | src/repl/raw.rs:46-64 | recall of a newer entry, or an empty line |
| `Raw.LineEditor.KeyLeft` | src/repl/raw.rs:73-80 | cursor left |
| `Raw.LineEditor.KeyRight` | src/repl/raw.rs:65-72 | cursor right |
| `Raw.LineEditor.KeyTab` | src/repl/raw.rs:109-128 | completion replaces line and cursor, with a new prompt if candidates were listed |
| `Raw.LineEditor.Submit` | src/repl/raw.rs:164-168 | a non-empty line goes into the history |
| `Raw.DecodeKeystroke` | src/repl/raw.rs:30-161 | every key is recognized from the bytes a terminal sends for it, whatever follows them in the same read |
| `Keys.KeysOfBytes` | src/repl/raw.rs:30-161 | the key of every byte, by its code |
| `Keys.KeysOfArrows` | src/repl/raw.rs:30-86 | the three bytes of each arrow key |
| `Keys.ArrowsAfter` | src/repl/raw.rs:34-64 | after any keys, with n steps back made by the arrows so far: up shows the next older entry with the cursor at its end, or changes nothing; down shows the next newer one, or empties the line |
| `Keys.DownClears` | src/repl/raw.rs:56-60 | a down key that finds no entry leaves a fresh line, whatever has been typed |
| `Keys.UpsAndDowns` | src/repl/raw.rs:34-64 | k up keys and j down keys show the entry of the difference, or leave an empty line |
| `Keys.EndKeys` | src/repl/raw.rs:88-140 | what Enter, Ctrl-C and Ctrl-D do and write; Ctrl-D ends the shell on an empty line only |
| `Keys.EdgeKeys` | src/repl/raw.rs:65-156 | keys at an edge of the line, and insertion into a full one, change and write nothing |
| `Keys.TabCompletes` | src/repl/raw.rs:109-128 | a tab makes the line its completion, cut to 255 bytes, with the cursor where completion puts it or at the end |
| `Raw.CutArrow` | src/repl/raw.rs:28-86 | the instance of one arrow in two reads; `Keys.ReadsDecode` has all streams and cuts |
| `Keys.ReadsDecode` | src/repl/raw.rs:18-161 | for every list of keys that terminals send and every way of cutting its bytes into reads, the editor decodes the keys sent, except that each arrow with a read's end inside it becomes an ignored byte and two inserted letters |
| `Keys.DecodedIffWhole` | src/repl/raw.rs:18-161 | the decoded keys are the keys sent if and only if no read ends inside an arrow's three bytes |
| `Keys.SessionIsKeys` | src/repl/raw.rs:18-163 | over all reads, the editor depends on the decoded keys only |
| `Keys.SessionOfStrokes` | src/repl/raw.rs:18-163 | so editor and output are those of the keys sent, whichever way the stream is cut, unless an arrow is cut, and those of the keys as decoded in any case |
| `Raw.TypingInserts` | src/repl/raw.rs:141-156 | typing printable text inserts as much of it as fits in front of the cursor and changes nothing else |
| `Raw.RuboutUndoesInsert` | src/repl/raw.rs:92-156 | deleting takes back an insertion anywhere in the line |
| `Raw.MovesUndo` | src/repl/raw.rs:65-80 | the cursor keys take each other back |
| `Raw.ApplyKeepsOk` | src/repl/raw.rs:28-162 | every key keeps the line below 256 bytes and the history cursor in range |
| `Raw.BangBangRecallsItself` | src/repl/raw.rs:168 | the instance of a line that is `!!` alone, for every history; `History.SubmittedBangBang` has all lines |
| `Redraw.AlwaysInStep` | src/repl/raw.rs:10-163 | the screen is in step after every sequence of keys if and only if the entries that the arrow keys can show are printable and every completion of a printable line is |
| `Redraw.InStepIffPrintable` | src/repl/raw.rs:10-163 | for every history and directory and every sequence of keys: the emitted bytes, run on a terminal, show the line after each key, with the terminal cursor at the editor's cursor, if and only if the line was printable after each |
| `Redraw.LineStaysInStep` | src/repl/raw.rs:10-163 | in particular, with printable history and directory entries, the screen shows the line at some column whatever the reads deliver, as long as it is edited |
| `Redraw.LineStaysExact` | src/repl/raw.rs:65-156 | with inserting, deleting and moving only, the row is at all times exactly prompt and line, blank behind |
| `Redraw.ExactIffKeptInPlace` | src/repl/raw.rs:34-128 | from an exact row, a key leaves an exact row if and only if it does not move the line to column 0; recall and silent completion do, over the prompt |
| `Redraw.KeyKeepsStep` | src/repl/raw.rs:30-161 | each key that gives a printable line keeps line and terminal in step, and where the line starts afterwards |
| `Redraw.KeyKeepsPrintable` | src/repl/raw.rs:30-161 | with printable history and directory entries every key gives a printable line |
| `Redraw.ChunkKeepsStep` | src/repl/raw.rs:28-162 | so do the bytes of one read |
| `Redraw.SessionKeepsStep` | src/repl/raw.rs:18-163 | so do successive reads |
| `Redraw.LocalScreen` | src/repl/raw.rs:65-156 | the exact stretch of the row that inserting, deleting and moving rewrite |
| `Redraw.LocalInStep` | src/repl/raw.rs:65-156 | these keys keep line and terminal in step |
| `Redraw.LocalExact` | src/repl/raw.rs:65-156 | and keep an exact row exact |
| `Redraw.LocalChunkExact` | src/repl/raw.rs:65-156 | so does a read that holds such keys only |
| `Redraw.SessionExact` | src/repl/raw.rs:18-163 | and successive reads of that kind |
| `Redraw.RecallScreen` | src/repl/raw.rs:36-41 | every cell of the row after a recall: new text from column 0, blanks up to the old length, and what was there behind that |
| `Redraw.TabScreen` | src/repl/raw.rs:113-125 | the row after a completion's redraw |
| `Redraw.TabInStep` | src/repl/raw.rs:109-128 | a completion to a printable line brings line and terminal in step from any state, whatever candidates were listed |
| `Redraw.TabExact` | src/repl/raw.rs:109-128 | and gives an exact row when printable candidates were listed |
| `Redraw.PromptExact` | src/repl/raw.rs:16 | a line starts out exact |
| `Terminal.FeedClear` | src/repl/raw.rs:3-9 | the clearing sequence blanks as many cells as the line has bytes, from column 0, and no more |
| `Terminal.FeedClearAny` | src/repl/raw.rs:3-9 | it ends in column 0 whatever state the terminal was in |
| `Terminal.FeedText` | src/repl/raw.rs:41 | printing overwrites the row from the cursor on |
| `Terminal.FeedLefts` | src/repl/raw.rs:102-104 | k cursor-left sequences move the cursor k columns |

## Left out

- Glob.GlobMatch: the pattern and the name are sequences; the code only reads them.
- Parse.ParseLine: the segments and arguments are sequences in a value, not fixed arrays with counts; the limits of 8 and 16 are kept.
- Dirs.GlobExpand: argument buffers are their contents, not 128-byte arrays; the list is not cut at 256 because a scan yields at most 64 entries.
- Dirs.ExpansionIsMatches: speaks of entries as the scan cuts them; `Dirs.ExpansionIsListing` speaks of the files.
- Dirs.Entries: a scan is assumed to list the directory from its start each time, and an entry is its bytes up to the first NUL.
- Complete.TabComplete: the lists of candidates are sequences, not 256-slot vectors; at most 27 builtins and 64 entries are ever collected.
- Path.Resolve: getcwd is assumed to answer at most 256. The second bounds test on the separator (src/path.rs:71-75) and the default for an empty result (src/path.rs:160-164) can never apply and are not modelled.
- Exec.Parent.Execute: reaping at the start of the call and the job entry at its end are in `Pipeline.RunWithJobs`; error and job messages and the static argument buffers are not modelled, nor are the 255 bytes to which a redirect path is cut; fork answers a positive number in the parent, and pipe takes the two lowest free descriptors.
- Exec.RunWires: of the descriptors above 1 it says only that 2 is inherited and that the write end of the input pipe is there; `Exec.ChildTableFacts` has the rest.
- History.Ring.Push: the counter stays below 2^64, so its saturation is not modelled; `History.RecallIsWindow` states the one place where 64-bit arithmetic shows.
- History.Ring.HistoryExpand: the error messages for a missing entry are not modelled, only that nothing is inserted.
- Env.EnvTable.BuildEnvp: the address of a row is given by a function, as addresses are not modelled.
- Jobs.JobTable.JobReap: the "Done" messages are not modelled.
- Jobs.RunsKeepOrder: runs that use up the 64-bit id counter are excluded; `Jobs.AddOrdered` states exactly when the order is lost.
- Copy.MvKeepsContents: cp and mv are modelled on a map from paths to contents, without links or open descriptors; creating a file is assumed to empty it. The commands around it, with their argument checks and path resolution, are `Copy.MvCommandKeeps`; their messages are not modelled.
- Copy.MvLosesContents: stated over the same file map, so two names of one file (hard links) count as different files.
- Script.Shell.ExecuteLine: what a line does is an oracle that changes an abstract state, may source or execute one script and may end the shell; `Eval.ScriptWorld` makes it concrete up to what the dispatched commands do to the state and what exec answers. Lines executed by the forked children of a pipeline are not counted, and the static argument buffers that nested scripts share are not modelled.
- Script.Shell.DoScriptInner: the file is what the reads deliver until the first end-of-file or error; it does not change while it is read.
- Redraw.LineStaysInStep: the terminal has unbounded width and knows printable bytes, CR, LF (as CR LF on a fresh row) and the two cursor sequences; `Redraw.InStepIffPrintable` has the lines that are not printable.
- Eval.SourceLineSources: stated for plain words; `Eval.SourceLineTarget` has the words that substitutions and wildcards change.
- Keys.ReadsDecode: of the bytes that mean the same key (CR and LF, DEL and backspace) a terminal is taken to send the first.
- History.SubmittedBangBang: stated of the unbounded expansion, as all lemmas on it in that file; `Repl.TypedBangBang` and those beside it have the 256 bytes that are kept.
- Raw.CutArrow: one arrow in two reads; `Keys.ReadsDecode` has the rest.
- Raw.BangBangRecallsItself: one line; `History.SubmittedBangBang` has the rest.
- History.SubmittedFront: the counter and n stay below 2^64 in sum, as in `History.RecallIsWindow`.
- src/syscalls, start-up code, linker and build files: assembly and plumbing.
- src/commands/nav.rs, src/commands/file/edit.rs, src/commands/sys.rs and the dispatch table: printing around single system calls, and flat branching.
- Program search, shebang lines and argv blocks (src/commands/exec/mod.rs): copying around system calls, with only bounds to state.
- Signed and hexadecimal output (src/io.rs): easy members beside the decimal writer.
- src/repl/cooked.rs: one read, one trim, one call of the evaluator.
