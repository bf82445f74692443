# Verification of the sed engine of mod_sed and of the PKCS#11 engine's caches

This project models two components and proves properties of the models with Dafny 4.11.

`dafny verify dfyconfig.toml` checks all of it.

## What is modelled

**The sed engine** (`nza-userland/components/apache2/mod_sed`). A line is a NUL-free sequence of bytes, and a
pointer into a line or into compiled code is an offset.

| files | what they hold |
|---|---|
| `Bytes`, `Options`, `Program` | bytes, bitmaps, and the instructions that regular expressions compile to, with their encoding |
| `MatchSpec`, `Matcher` | what `_advance` computes (`Run`, `Try`), and `_advance` itself on the encoded bytes (class `StepVars`) |
| `MatchTheory`, `MatchFacts` | a declarative meaning of programs (`Reach`, `Preferred`), and facts about all matches |
| `Stepper` | `sed_step`, with its fast path |
| `RegexSpec`, `RegexCompiler` | what `sed_compile` makes of a text (`Compile`), and `sed_compile` writing into a byte buffer |
| `Pattern`, `Meaning`, `Translation`, `PatternSearch` | patterns as syntax trees with a language in which every group carries the text it stands for, the text they are written as, and what compiling and matching that text does |
| `Refusals` | which patterns are refused, and with what error, in terms of the pattern as written |
| `Substitution` | the `s` command: which matches there are, what replaces them, whether the line fits its buffer, and `substitute`, `match`, `dosub`, `place` |
| `Templates` | the template of `s` as written, what its parts stand for, and `s` from the texts of pattern and template to the new line |
| `Adjacency`, `Outgrowing` | two places where `s` does not do what it is for: a match right behind another, and a line that outgrows its buffer |
| `LineList` | the `l` command |
| `Script`, `Evaluation` | compiled scripts, and what they do to one line: `Act` is `command`, `Step` and `Loop` are the loop of `execute` |
| `Execution` | `execute`, `command`, `arout` and the selection of commands by addresses, on the evaluator object |
| `PushPull` | lines pushed one at a time against an interpreter that reads the next line where `n` and `N` ask for it |
| `LineRoom` | the size of the line buffer along a run: nothing else depends on it, and which scripts never outgrow it |
| `Chunks` | `sed_eval_buffer`, `sed_eval_file`, `sed_finalize_eval` |
| `Traces`, `Straying` | the commands a run comes to, and which of them follow a pointer out of its buffer |
| `Ranges`, `Blocks` | address ranges, and blocks, over whole runs |
| `Filters`, `Idioms`, `Suspensions`, `Queues`, `RangeChanges`, `Searches` | what scripts write for every text, in terms of its lines: scripts without commands, of one command, and well-known ones of several |
| `ScriptCompiler`, `ScriptTargets` | `fcomp`: the list of commands, blocks and labels as linked nodes, and where every link leads |
| `ScriptErrors` | which scripts `fcomp` accepts, and what it reports of the others, in terms of the script |
| `CompiledScripts` | that list of nodes as the script `execute` runs: branches and blocks from the text to the run |
| `OutputFilter` | the output buffer, the buckets and the pool of the filter |

**The PKCS#11 engine** (`nza-userland/components/openssl/openssl-1.0.1/engines/pkcs11`). A provider call or an
allocation is a parameter that says how it turns out; a region under a lock is one step.

| files | what they hold |
|---|---|
| `ActiveLists` | the active list: doubly linked, reference-counted |
| `KeyReferences` | the two locked regions that hold and release RSA keys, and a state machine of any number of threads |
| `RsaSessions` | the key handles a session caches, and the checks for a cached key, as steps of that state machine |
| `DigestSessions` | the free list of sessions and the digest operations |
| `CipherKeys` | the secret key cached in a session |

The parts that change state in place are classes with the fields of the source's structures; each method is proved
against a function, and the theorems are about the functions. The specification functions follow the source branch
by branch: `MatchSpec.Run` lines 392-593 of `regexp.c`, `RegexSpec.Compile` lines 132-358, `Evaluation.Act` lines
691-963 of `sed1.c`, `Evaluation.Addressed` lines 486-540, `KeyReferences.GetKey` lines 1632-1706 of `e_pk11_pub.c`.

## Where the code does not do what one would expect

Each of these is proved, with the condition under which the expected property holds.

- A replacement of every match stops moving forward, and the source never returns, exactly when the pattern has
  neither a symbol nor a `$` and is not anchored (`Substitution.ProgressCondition`,
  `PatternSearch.SubstitutionProgresses`).
- A repetition is not allowed to end where the previous match ended, even when the match as a whole would not be
  empty: `s/x*abc/-/g` replaces only the first of two adjacent occurrences (`Adjacency.SecondIsPassedOver`). The next
  match is the one a search from there finds exactly if the match right behind the previous one has no repetition that
  ends there (`Adjacency.NextIsScan`), and always if the pattern's first consuming part takes a character
  (`Adjacency.EagerIsScan`).
- When a pass of a flagged substitution makes the line outgrow its buffer, the line moves to a larger one, but `loc2`
  still points into the old one, and the source reads there what comes next (`Outgrowing.ThousandX`: `s/x/yy/g` on 1000
  x). It reads there exactly when some line a pass writes does not fit, with its terminator, into the buffer the line is
  in (`Substitution.Editor.Substitute`); without flags it never does. What follows is not part of the model, since it
  depends on what the old buffer still holds behind that place: with a match there, the next pass subtracts pointers
  into different buffers; without one, and always when the pattern is anchored, the source stops, and its line is right
  if nothing behind the replaced text would have been replaced.
- The twentieth text that `a` queues in one cycle is followed by a terminator behind the end of the queue: a script of
  `a` alone does so on its first line exactly if it has twenty of them or more (`Straying.TwentyAppends`).
- These two are the only ways to get there, and a run does exactly if it comes to such an `a` or such an `s`
  (`Straying.RunStrays` for pushed lines, `Straying.FileStrays` for a file read in pieces).
- A group followed by `*` is followed by a literal `*` (`PatternSearch.StarBehindGroup`).
- A back-reference is compared with the number of groups closed so far, not with the groups that are closed: a reference
  to the group it stands in compiles (`PatternSearch.OpenReferenceCompiles`), and whether it matches depends on what an
  earlier group has left behind (`PatternSearch.OpenReferenceIsStale`). Every reference reads a span already written
  exactly when none is to an open group (`Pattern.ReferencesRead`).
- A branch without a label ends the cycle only when no other such branch follows it in the script; otherwise it leads
  to the next one (`ScriptTargets.UnlabelledBranches`, `ScriptTargets.TwoUnlabelled`).
- A quit on an ended line that was held back until more input came does not stop the loop over that input: one more
  line is executed. The result is that of the undivided input exactly when this does not happen
  (`Chunks.Feeder.EvalBuffer`, `Chunks.QuitOverruns`).
- `n,m` does not select every visit on the lines from n to m, when a command is reached more than once on a line: a
  later visit on line m is left out, and with m before n every other visit on line n (`Ranges.TwiceOnALine`).
  `Ranges.NumberRange` says which visits are selected, `Ranges.RangeOfLines` when these are all visits on those lines.
- `n,mc` with m not behind n takes line n away without writing its text, unless that is the last line: a range of one
  line is still taken to go on behind it, and the text waits for its end (`RangeChanges.ChangesRange`).
- `N` on the last line loses it, and `n` there writes it (`Queues.JoinsLines`, `Suspensions.EveryOtherLine`).
- `l` does not list different lines differently (`LineList.Ambiguous`). Since `char` is signed, the digits it spells are
  those of the byte exactly for bytes up to 127; above, the first is four too low (`LineList.DigitsOfByte`). No other
  line has the listing of a line exactly if the line holds nothing that is spelled with a backslash, and no backslash
  that starts such a spelling (`LineList.ListingTells`).
- When a search has found an RSA key object and closing the search fails, the handle is returned without being
  counted. Counts and holders agree over a run exactly when that does not happen (`KeyReferences.RunsAreConsistent`),
  and the object may be destroyed while it is in use (`KeyReferences.UncountedIsDestroyed`).
- A secret key of 32 bytes that is the beginning of a longer key cached before is taken for that key
  (`CipherKeys.Ciphers.FalseHit`), a key cached for one cipher is taken for a key of another with the same bytes
  (`CipherKeys.Ciphers.OtherKind`), and a key object the provider fails to destroy is used for the new key.
  `CipherKeys.Ciphers.Serves` is the exact condition (`CipherKeys.Ciphers.Init`).

## Model

| member | source | states |
|---|---|---|
| Program.TestDecides | nza-userland/components/apache2/mod_sed/regexp.c:405-441 | the byte test of a one-character instruction, bitmaps of 16 and 32 bytes and negation included, is true for exactly the characters its atom has, and never for the terminator |
| Bytes.PlaceAddsOne | nza-userland/components/apache2/mod_sed/regexp.h:54 | placing a byte in a bitmap adds exactly that byte to the set the bitmap lays out, and touches one byte of it |
| Bytes.IsThereDecides | nza-userland/components/apache2/mod_sed/regexp.h:55 | the bit test decides membership in the set a bitmap lays out |
| MatchSpec.StaleSpans | nza-userland/components/apache2/mod_sed/regexp.c:443-453 | entries of the group lists that a program will write before it reads them cannot change what the matcher does |
| MatchSpec.RunLengthSplits | nza-userland/components/apache2/mod_sed/regexp.c:455-468 | counting the required copies and then the optional ones counts what one scan up to the maximum counts |
| Matcher.DecodeHead | nza-userland/components/apache2/mod_sed/regexp.c:401-403 | code that starts with the encoding of a program starts with a whole instruction, and the rest of the program follows it |
| Matcher.HeadTells | nza-userland/components/apache2/mod_sed/regexp.c:403-571 | the opcode byte tells apart every kind of instruction the matcher distinguishes |
| Matcher.StepVars.GetRange | nza-userland/components/apache2/mod_sed/regexp.c:595-599 | decodes the bounds behind an atom: the least number of copies the quantifier permits, and as many more as the most it permits, 20000 when open-ended |
| Matcher.StepVars.SkipStar | nza-userland/components/apache2/mod_sed/regexp.c:552-579 | the scan of a starred atom stops one behind the longest stretch the atom matches |
| Matcher.StepVars.ScanRange | nza-userland/components/apache2/mod_sed/regexp.c:455-521 | the scan of an interval fails exactly when there are too few copies, and otherwise stops one behind the most copies allowed |
| Matcher.StepVars.SameText | nza-userland/components/apache2/mod_sed/regexp.c:523-533 | the comparison of a back-reference is true exactly when the text at the position repeats the group's text |
| Matcher.StepVars.Backtrack | nza-userland/components/apache2/mod_sed/regexp.c:582-589 | the loop tries the end positions of a repetition from the farthest down, refuses to end at locs, and gives up below the least |
| Matcher.StepVars.Grouping | nza-userland/components/apache2/mod_sed/regexp.c:443-453 | group marks record the position in exactly their own entry |
| Matcher.StepVars.Advance | nza-userland/components/apache2/mod_sed/regexp.c:392-593 | on the bytes of a well-formed program the matcher succeeds exactly when the specification does, with the same end and the same group spans, and a failure leaves loc2 alone |
| MatchTheory.RunIsPreferred | nza-userland/components/apache2/mod_sed/regexp.c:392-593 | the backtracking search returns exactly the one match in which every repetition is as long as it can be while the rest still matches, and fails exactly when there is no match at all |
| MatchTheory.PreferredIsUnique | nza-userland/components/apache2/mod_sed/regexp.c:582-589 | there is at most one such match, group spans included |
| Stepper.SedStep | nza-userland/components/apache2/mod_sed/regexp.c:360-390 | reports the match with the least starting position, with loc1, loc2 and the groups, whichever of the two scans is taken |
| Stepper.FastScan | nza-userland/components/apache2/mod_sed/regexp.c:369-381 | trying only positions that hold the first character gives the result and the captures of the plain scan |
| Stepper.PlainScan | nza-userland/components/apache2/mod_sed/regexp.c:382-389 | tries every position up to and including the end of the line |
| MatchFacts.MatchInside | nza-userland/components/apache2/mod_sed/regexp.c:360-390 | loc1 <= loc2 <= end of line, and every group's span lies inside [loc1, loc2] |
| MatchFacts.ScanShifted | nza-userland/components/apache2/mod_sed/regexp.c:360-390 | the leftmost match from a position on depends on nothing before that position, whatever is put in front of the text |
| MatchFacts.Progress | nza-userland/components/apache2/mod_sed/regexp.c:582-589 | with locs at its start, a match of a program with an atom or a `$` is not empty before the end of the line |
| MatchFacts.Stalls | nza-userland/components/apache2/mod_sed/regexp.c:443-453 | a program of groups and back-references alone matches the empty text wherever it is tried |
| RegexCompiler.CompileClass | nza-userland/components/apache2/mod_sed/regexp.c:199-268 | a bracket class is written as the opcode and the bitmap of the set the specification reads off the text, widened to 32 bytes when a high byte turns up, or the error is reported |
| RegexCompiler.CompileInterval | nza-userland/components/apache2/mod_sed/regexp.c:289-323 | an interval is written as its two bounds, or the error the specification names is reported |
| RegexCompiler.SedCompile | nza-userland/components/apache2/mod_sed/regexp.c:132-358 | the bytes between start and the returned pointer are those the specification computes, each error arises where it says, the scan position and the number of groups agree, and nothing outside start..endbuf is written, also when start is behind endbuf |
| Pattern.AtomDenotes | nza-userland/components/apache2/mod_sed/regexp.c:199-268 | the atom a symbol compiles to has exactly the bytes the symbol denotes, none of them NUL |
| Pattern.InstructionsWellFormed | nza-userland/components/apache2/mod_sed/regexp.c:270-338 | the program of every pattern the compiler accepts ends in its only end mark, nests its groups with distinct indices below nine, and each back-reference is below the number of groups closed so far; it is well formed exactly when no reference is to a group still open |
| Pattern.ReferencesRead | nza-userland/components/apache2/mod_sed/regexp.c:325-338 | every back-reference reads a span already written exactly when none is to a group still open |
| Program.WellFormedReads | nza-userland/components/apache2/mod_sed/regexp.c:325-338 | the same for programs: what the compiler accepts is well formed exactly when it reads no span before it is written |
| Meaning.RunDecidesLanguage | nza-userland/components/apache2/mod_sed/regexp.c:392-593 | started without locs the matcher accepts at a position exactly when some text starting there is in the pattern's language, where a back-reference matches just the text its group stands for; and the spans it records are those of the texts the groups stand for in the text it accepts |
| Translation.ScansClass | nza-userland/components/apache2/mod_sed/regexp.c:208-268 | reading a written class, ranges, a leading bracket and a trailing dash included, places exactly the bytes listed, and widens exactly when one of the characters written is high |
| Translation.ScansInterval | nza-userland/components/apache2/mod_sed/regexp.c:289-323 | reading a written interval gives the bounds it was written from |
| Translation.CompilesPattern | nza-userland/components/apache2/mod_sed/regexp.c:132-358 | the text of every valid pattern, wherever it stands, compiles to the encoding of the pattern's program exactly when that fits into the room there is, and otherwise reports too much command text |
| PatternSearch.CompiledSearch | nza-userland/components/apache2/mod_sed/regexp.c:132-593 | a pattern written out, compiled and searched for finds a match on a line exactly when some text of the line is in its language, beginning at the first such text, with the groups where that text has them |
| PatternSearch.DoubledCharacter | nza-userland/components/apache2/mod_sed/regexp.c:523-533 | `\(.\)\1` has exactly the texts of two equal characters |
| Refusals.RefusesPattern | nza-userland/components/apache2/mod_sed/regexp.c:164-349 | of a pattern with a tenth group, a group closed that is not open or left open, a reference to a number of groups not yet closed, a newline, a class without an end, or an interval without a number, too large, with a third number, without its brace or with the larger number first, the first such fault decides the error reported, whatever surrounds it |
| Refusals.AcceptedPatterns | nza-userland/components/apache2/mod_sed/regexp.c:164-349 | with room enough a pattern of pieces that can be told apart is accepted if and only if no tenth group is opened, groups are closed and opened in pairs, and no reference has a number above that of the groups closed before it |
| Refusals.ValidIsFaultless | nza-userland/components/apache2/mod_sed/regexp.c:270-338 | these are exactly the valid patterns |
| PatternSearch.SymbolsConsume | nza-userland/components/apache2/mod_sed/regexp.c:164-349 | the program of a pattern has an instruction that makes progress exactly when the pattern has a symbol or a `$` |
| PatternSearch.SubstitutionProgresses | nza-userland/components/apache2/mod_sed/sed1.c:611-618 | for patterns without a reference to an open group, every pass of a global substitution gets on, on every line, exactly if the pattern has a symbol or a `$` |
| PatternSearch.OpenReferenceCompiles | nza-userland/components/apache2/mod_sed/regexp.c:325-338 | a reference to the group it stands in is accepted |
| PatternSearch.OpenReferenceIsStale | nza-userland/components/apache2/mod_sed/regexp.c:523-533 | the same pattern matches a line or not according to where an earlier group has ended, at the start of the line or behind its first character |
| PatternSearch.StarBehindGroup | nza-userland/components/apache2/mod_sed/regexp.c:187-191 | a star behind a group stands for itself |
| Substitution.NextIsLater | nza-userland/components/apache2/mod_sed/sed1.c:611-618 | each pass ends strictly later than the one before it, so the unscanned suffix gets strictly shorter |
| Substitution.ProgressCondition | nza-userland/components/apache2/mod_sed/sed1.c:611-618 | that holds for all lines and positions exactly when the program consumes something |
| Substitution.MatchesOrdered | nza-userland/components/apache2/mod_sed/sed1.c:603-621 | the matches replaced are matches of the original line, in order and without overlap |
| Substitution.NoneChosen | nza-userland/components/apache2/mod_sed/sed1.c:626-636 | gaps, matches and tail make up the line: a numeric flag beyond the matches changes nothing |
| Substitution.OnlyNth | nza-userland/components/apache2/mod_sed/sed1.c:626-636 | the flag n replaces the n-th match of the enumeration and nothing else |
| Substitution.ReplacesChosen | nza-userland/components/apache2/mod_sed/sed1.c:626-636 | something has been replaced, as `t` and `p` take it, exactly if the flag is for one of the matches there are |
| Substitution.AmpersandIsIdentity | nza-userland/components/apache2/mod_sed/sed1.c:642-647 | replacing matches by `&` changes no line |
| Substitution.NextCorresponds | nza-userland/components/apache2/mod_sed/sed1.c:611-618 | the search on the partly replaced line finds what the search on the original line would have found, moved: replaced text is never scanned again |
| Templates.TemplateExpands | nza-userland/components/apache2/mod_sed/sed1.c:642-690 | a template as written puts characters for themselves, also behind a backslash, the match for `&`, and for `\digit` the stretch between the ends reported for that group |
| Templates.EveryTemplate | nza-userland/components/apache2/mod_sed/sed1.c:642-670 | every template is such a text |
| Templates.SubstitutedIsEdited | nza-userland/components/apache2/mod_sed/sed1.c:603-690 | the line becomes the gaps, what the parts of the template stand for in each match the flag is for, the other matches, and the tail |
| Templates.FirstReplaced | nza-userland/components/apache2/mod_sed/sed1.c:603-690 | `s/pattern/template/` from the texts on: the first text of the line in the pattern's language is replaced by what the template says, with the texts its groups stand for in it, and a line without one stays as it is |
| Adjacency.RunWithLocs | nza-userland/components/apache2/mod_sed/regexp.c:582-589 | with locs set the matcher finds what it would find without, or nothing when a repetition of that ends at locs |
| Adjacency.NextIsScan | nza-userland/components/apache2/mod_sed/sed1.c:611-618 | the next match is what a search from there finds exactly if no match right behind the previous one has a repetition ending where that one ended |
| Adjacency.EagerIsScan | nza-userland/components/apache2/mod_sed/sed1.c:611-618 | so it is always for patterns whose first consuming part takes a character |
| Adjacency.SecondIsPassedOver | nza-userland/components/apache2/mod_sed/sed1.c:611-618 | `s/x*abc/-/g` replaces one of two adjacent abc |
| Substitution.SubstitutedNulFree | nza-userland/components/apache2/mod_sed/sed1.c:665-668 | the new line is a string again |
| Substitution.Editor.Match | nza-userland/components/apache2/mod_sed/sed1.c:582-598 | searches the line from the start, or goes on behind the previous match with locs set there; an anchored pattern does not go on |
| Substitution.Editor.ExpandTemplate | nza-userland/components/apache2/mod_sed/sed1.c:642-690 | generates the template with `&` and `\digit` replaced by the text of the match and of its groups, and the generated line always leaves room for its terminator in its buffer |
| Substitution.Editor.Dosub | nza-userland/components/apache2/mod_sed/sed1.c:626-670 | replaces the current match unless the flag asks for another, and moves loc2 behind what it has put in; loc2 points into the line buffer afterwards exactly when the new line fits the buffer there was |
| Substitution.Editor.Substitute | nza-userland/components/apache2/mod_sed/sed1.c:603-621 | the line becomes the gaps, the expanded templates and the tail for the successive matches of the original line, and the result and sflag say whether anything was replaced, unless the line buffer that loc2 points into is read after it has been given up; that happens exactly when the substitution has a flag and a line that one of its passes writes does not fit the line buffer |
| Outgrowing.Doubling | nza-userland/components/apache2/mod_sed/sed1.c:603-668 | `s/x/yy/g` on a line of nothing but x fits exactly when twice the line, with a terminator, fits the line buffer |
| Outgrowing.ThousandX | nza-userland/components/apache2/mod_sed/sed1.c:611-668 | on 1000 x in a buffer of the first size it does not |
| LineList.JoinedStretches | nza-userland/components/apache2/mod_sed/sed1.c:771-856 | joining the folded lines without their backslashes gives the spelled-out line back |
| LineList.EmptyLastLine | nza-userland/components/apache2/mod_sed/sed1.c:854-855 | every folded line has 71 bytes of it, and the last one is empty exactly when the length is a multiple of 71 |
| LineList.DigitsOfByte | nza-userland/components/apache2/mod_sed/sed1.c:792-829 | the three octal digits spelled are those of the byte exactly for bytes up to 127; above, the first is four too low and no digit |
| LineList.SpellingOfByte | nza-userland/components/apache2/mod_sed/sed1.c:28-61 | printable bytes and the newline are listed as they are; any other byte as a backslash and its number in octal, but for the first digit above 127 |
| LineList.PlainReadsBack | nza-userland/components/apache2/mod_sed/sed1.c:28-61 | a line without backslashes, without 127 and without bytes above it can be read back from its listing |
| LineList.Ambiguous | nza-userland/components/apache2/mod_sed/sed1.c:28-61 | two pairs of different lines with the same listing |
| LineList.ListingTells | nza-userland/components/apache2/mod_sed/sed1.c:28-61 | exactly the lines with nothing to be spelled with a backslash, and no backslash that starts such a spelling, have a listing of their own |
| LineList.Told | nza-userland/components/apache2/mod_sed/sed1.c:28-61 | none of the lines in these pairs does, but a backslash alone is no reason |
| LineList.Lister.Put | nza-userland/components/apache2/mod_sed/sed1.c:830-838 | a byte stored never leaves the write index at or above 71, and folds exactly when the stretch is full |
| LineList.Lister.PutString | nza-userland/components/apache2/mod_sed/sed1.c:778-790 | copying a string with its terminator adds the string and no more |
| LineList.Lister.List | nza-userland/components/apache2/mod_sed/sed1.c:771-856 | writes the spelled-out line in stretches of 71 bytes and a backslash, and a shorter last one |
| Evaluation.StepValid | nza-userland/components/apache2/mod_sed/sed1.c:478-561 | every turn of the loop keeps the buffers strings, the queue within its length and the next command inside the list |
| Evaluation.ActLeaves | nza-userland/components/apache2/mod_sed/sed1.c:691-963 | no command changes the line number, the flag for `$` or the range flags |
| Evaluation.LoopLost | nza-userland/components/apache2/mod_sed/sed1.c:478-561 | a pointer that has left its buffer stays lost |
| Evaluation.DecimalReads | nza-userland/components/apache2/mod_sed/sed1.c:738-741 | the digits `=` writes stand for the line number, and begin with no 0 |
| Filters.NoCommands | nza-userland/components/apache2/mod_sed/sed1.c:563-567 | a script without commands writes every line of every text with a newline, and nothing under `-n` |
| Filters.TextIsLines | nza-userland/components/apache2/mod_sed/sed1.c:383-414 | a text is its lines, each with a newline, but for the one its last line may lack |
| Filters.OneCommand | nza-userland/components/apache2/mod_sed/sed1.c:691-963 | a script of one command, with any single address and with or without `!`, does to every line it selects what the command is for, at the end of the cycle too, and passes on the others |
| Idioms.ReversesLines | nza-userland/components/apache2/mod_sed/sed1.c:461-577 | `1!G;h;$!d` writes the lines of every text in reverse |
| Idioms.CollectsLines | nza-userland/components/apache2/mod_sed/sed1.c:461-577 | `H;$!d;g` writes at the end an empty line and then all lines of the text |
| Idioms.KeepsSelected | nza-userland/components/apache2/mod_sed/sed1.c:461-577 | a branch to the end in front of `d` keeps exactly the lines it is executed on |
| Idioms.EditedLines | nza-userland/components/apache2/mod_sed/sed1.c:916-948 | `s` with `t` and `d` behind it writes exactly the lines in which something has been replaced |
| Idioms.AppendsInOrder | nza-userland/components/apache2/mod_sed/sed1.c:968-1004 | texts that `a` queues follow their line in the order in which they were queued |
| Suspensions.EveryOtherLine | nza-userland/components/apache2/mod_sed/sed1.c:858-872 | `n;d` writes the first of every two lines |
| Suspensions.RollsOn | nza-userland/components/apache2/mod_sed/sed1.c:723-882 | `$!N;P;D` writes every line |
| Suspensions.FirstLines | nza-userland/components/apache2/mod_sed/sed1.c:892-915 | `kq` writes the first k lines, and nothing under `-n` |
| Queues.EditsEveryOther | nza-userland/components/apache2/mod_sed/sed1.c:858-872 | with `a`, `s`, `n`, `t` and `d` the first of every two lines is edited and written, with the queued text behind it, when `n` asks for the second, which `t` does not save from `d` |
| Queues.JoinsLines | nza-userland/components/apache2/mod_sed/sed1.c:874-882 | with `a` and `N` the queued text is written before the second of every two lines is read, and both lines at the end of the cycle; a last one on its own is lost |
| Queues.QuitsBehind | nza-userland/components/apache2/mod_sed/sed1.c:892-915 | with `a` and `q` the first line is written, unless under `-n`, then the queued text, and nothing more |
| RangeChanges.ChangesRange | nza-userland/components/apache2/mod_sed/sed1.c:712-719 | `n,mc` takes away the lines from n to the larger of n and m, and writes its text in their place exactly if n is before m or is the last line |
| Searches.PrintsHolding | nza-userland/components/apache2/mod_sed/sed1.c:486-537 | `-n /pattern/p`, from the text of the pattern on, writes exactly the lines that hold a text of the pattern's language, in their order |
| Execution.Evaluator.Arout | nza-userland/components/apache2/mod_sed/sed1.c:968-1004 | writes the queued texts in order and empties the queue |
| Execution.Evaluator.Match | nza-userland/components/apache2/mod_sed/sed1.c:582-598 | an address matches exactly when the pattern has a first match on the line, whatever the group lists hold |
| Execution.Evaluator.Selected | nza-userland/components/apache2/mod_sed/sed1.c:483-537 | the command is executed exactly when its address, or with `!` its negation, selects the line |
| Execution.Evaluator.DeleteFirstLine | nza-userland/components/apache2/mod_sed/sed1.c:723-736 | `D` removes the first of several lines and starts over, or deletes the only one |
| Execution.Evaluator.TranslateLine | nza-userland/components/apache2/mod_sed/sed1.c:956-960 | `y` maps every byte of the line |
| Execution.Evaluator.SubstituteLine | nza-userland/components/apache2/mod_sed/sed1.c:916-933 | `s` and its print flags, or a pointer into a line buffer given up, where the specification says |
| Execution.Evaluator.Command | nza-userland/components/apache2/mod_sed/sed1.c:691-963 | every command leaves the buffers, flags, output and the size of the line buffer the specification gives, and jflag, delflag, pending and quitflag tell what comes next; a pointer leaves its buffer exactly where the specification says |
| Execution.Evaluator.OneTurn | nza-userland/components/apache2/mod_sed/sed1.c:478-559 | one turn of the loop: which command is next, or how the loop is left |
| Execution.Evaluator.RunCommands | nza-userland/components/apache2/mod_sed/sed1.c:478-561 | the loop comes to the end the specification computes, or to the command where it says a pointer leaves its buffer; when `q` has been executed already it stops after the first command executed |
| Execution.Evaluator.Execute | nza-userland/components/apache2/mod_sed/sed1.c:461-577 | a line is executed from the pending command or the first one, with the state and the suspension the specification computes, and a pointer leaves its buffer exactly when it does so there |
| PushPull.SameTurn | nza-userland/components/apache2/mod_sed/sed1.c:487-560 | one turn of the loop, with the line that resumes a suspension, is one step of the interpreter that reads lines in place |
| PushPull.PushRefinesPull | nza-userland/components/apache2/mod_sed/sed1.c:461-577 | for every script and input, pushing the lines one at a time ends having written some output exactly if the interpreter reading the next line in place does, and all pointers stay in their buffers in both or in neither; without a next line `n` and `N` end the run |
| PushPull.OutputGrows | nza-userland/components/apache2/mod_sed/sed1.c:461-577 | over every run, what has been written stays |
| LineRoom.PushAlike | nza-userland/components/apache2/mod_sed/sed1.c:94-174 | over every run, nothing but the size of the line buffer depends on the size it had |
| LineRoom.HeldFits | nza-userland/components/apache2/mod_sed/sed1.c:858-882 | a line that waits for the next one fits the line buffer |
| LineRoom.TamePush | nza-userland/components/apache2/mod_sed/sed1.c:603-668 | without flagged `s` and without `a`, no run follows a pointer out of its buffer; which runs do is said by `Straying.RunStrays` |
| Chunks.MoreText | nza-userland/components/apache2/mod_sed/sed1.c:383-414 | what more text makes of the lines known not to be the last, and of the line held back |
| Chunks.PushAppend | nza-userland/components/apache2/mod_sed/sed1.c:383-409 | pushing lines and then more lines is pushing all of them |
| Chunks.PushLast | nza-userland/components/apache2/mod_sed/sed1.c:422-456 | the last line is executed once more input is ruled out, and it alone with the flag for `$` |
| Chunks.Feeder.RunLines | nza-userland/components/apache2/mod_sed/sed1.c:383-414 | the loop executes every line of a piece that is not its last, and holds the rest back |
| Chunks.Feeder.RunHeld | nza-userland/components/apache2/mod_sed/sed1.c:373-381 | the line held back is executed first when more input comes |
| Chunks.Feeder.RunAfterQuit | nza-userland/components/apache2/mod_sed/sed1.c:383-414 | when that line has quit, exactly one further line of the piece is executed, up to its first command |
| Chunks.Feeder.EvalBuffer | nza-userland/components/apache2/mod_sed/sed1.c:355-417 | wherever the input is cut, lines, line numbers and output are those of the text pushed line by line, exactly unless a held line quits while the piece has another line to execute; and a pointer leaves its buffer exactly when it does so in these lines, given the size the line buffer has so far |
| Chunks.Feeder.Finalize | nza-userland/components/apache2/mod_sed/sed1.c:422-456 | the output is that of all lines pushed one by one, the last one known to be the last, unless a pointer leaves its buffer in it |
| Chunks.Feeder.EvalFile | nza-userland/components/apache2/mod_sed/sed1.c:332-350 | so the output for a file does not depend on how its reads cut it; only whether a pointer leaves its buffer does, and exactly as the sizes computed from the pieces say |
| Chunks.AlwaysSmooth | nza-userland/components/apache2/mod_sed/sed1.c:373-391 | for scripts without `q` this is so however the input is cut |
| Chunks.QuitOverruns | nza-userland/components/apache2/mod_sed/sed1.c:373-391 | the script `q` fed three lines in two pieces executes its second line |
| Straying.StepStrays | nza-userland/components/apache2/mod_sed/sed1.c:478-561 | with all pointers in their buffers, a command takes one out of its buffer exactly if it is executed and is an `a` that takes the last place of the queue, or an `s` with a flag and a match one of whose passes writes a line too long for the line buffer |
| Straying.LoopStrays | nza-userland/components/apache2/mod_sed/sed1.c:478-561 | the loop over the commands does so exactly if it comes to such a command |
| Straying.RunStrays | nza-userland/components/apache2/mod_sed/sed1.c:461-577 | over every run a pointer is followed out of its buffer exactly if one of the commands the run comes to does so |
| Straying.FileStrays | nza-userland/components/apache2/mod_sed/sed1.c:332-350 | feeding a file in pieces follows a pointer out of its buffer exactly if a command executed for one of the pieces or on the last line does so |
| Straying.TwentyAppends | nza-userland/components/apache2/mod_sed/sed1.c:701-710 | on its first line, a script of nothing but `a` writes behind the queue exactly if there are twenty or more |
| Straying.OrderlyPush | nza-userland/components/apache2/mod_sed/sed1.c:691-710 | a script with at most nineteen `a`, without flagged `s`, `D` and branches back never follows a pointer out of its buffer |
| Ranges.NumberRange | nza-userland/components/apache2/mod_sed/sed1.c:486-537 | which visits `n,m` selects, for a command reached any number of times on any lines: with n before m all from line n to line m but the later ones on line m, none when line n is left out, with n the same as m all on that line, with m before n every other one on line n; and `!` exactly the others |
| Ranges.RangeOfLines | nza-userland/components/apache2/mod_sed/sed1.c:486-537 | these are all visits on the lines from n to the larger of n and m exactly if the last one is not a later visit on m, or an even one on n when m is before n |
| Ranges.OnEveryLine | nza-userland/components/apache2/mod_sed/sed1.c:486-537 | reached once on every line, the lines selected are those from n to the larger of n and m |
| Ranges.ToEndRange | nza-userland/components/apache2/mod_sed/sed1.c:486-537 | `n,$` selects exactly the visits from the first on line n on |
| Ranges.AnyRange | nza-userland/components/apache2/mod_sed/sed1.c:486-537 | for addresses of every kind, the visits selected are those that begin a range and those up to the first behind it that ends it, but none behind the line a number as the end stands for; with `$` as the first address only the last line; and `!` exactly the others |
| Ranges.MatchingRange | nza-userland/components/apache2/mod_sed/sed1.c:486-537 | `/a/,/b/`, when no line visited is matched by both, selects exactly the visits on lines that the first pattern matches, and those behind one with no line in between that the second matches; lines matched by both are the subject of the row above |
| Ranges.EveryLine | nza-userland/components/apache2/mod_sed/sed1.c:514-524 | a command reached once on every line has been reached once on line n from line n on; there is no line 0 |
| Ranges.TwiceOnALine | nza-userland/components/apache2/mod_sed/sed1.c:491-500 | with `3,2` a second visit on line 3 is not selected, and with `2,4` a second one on line 4 |
| Ranges.RunFlags | nza-userland/components/apache2/mod_sed/sed1.c:478-561 | along every run the range flag of a command is at each visit what the visits before it have made it, and the visits come in the order of the lines |
| Ranges.RunExecutes | nza-userland/components/apache2/mod_sed/sed1.c:478-561 | so in every run a command is executed at a visit exactly when the visits so far say so |
| Blocks.BlockTurn | nza-userland/components/apache2/mod_sed/sed0.c:295-303 | the node of a block goes on with the body exactly when the block's address, or its negation, selects the line, and otherwise behind the block |
| Blocks.EntersByAddress | nza-userland/components/apache2/mod_sed/sed1.c:478-561 | in every run a command in the body of a block that nothing jumps into is reached only through the block's node on a line it selects |
| Blocks.RunEntered | nza-userland/components/apache2/mod_sed/sed1.c:461-577 | over every run, also across lines where `n` and `N` wait, a command in the body of a block that nothing jumps into comes next only behind another one of the body or behind the block's node on a line it selects |
| ScriptCompiler.RecordSound | nza-userland/components/apache2/mod_sed/sed0.c:328-474 | what has been read stays consistent with every accepted item |
| ScriptCompiler.Commands.AllocReptr | nza-userland/components/apache2/mod_sed/sed0.c:1002-1024 | a new empty node at the end of the list, which is also the address of the first table entry; all links stay right |
| ScriptCompiler.Commands.Search | nza-userland/components/apache2/mod_sed/sed0.c:907-921 | finds the first table entry with the name just read, or none |
| ScriptCompiler.Commands.Dechain | nza-userland/components/apache2/mod_sed/sed0.c:179-194 | sends exactly the branches waiting for the label to the current node and empties the chain |
| ScriptCompiler.Commands.AppendToChain | nza-userland/components/apache2/mod_sed/sed0.c:460-465 | links the current node to the last branch waiting for the label, and changes no other link |
| ScriptCompiler.Commands.DefineLabel | nza-userland/components/apache2/mod_sed/sed0.c:328-363 | refuses a label with an address, too long, defined before or one too many; otherwise every link and every chain is right again |
| ScriptCompiler.Commands.AddBranch | nza-userland/components/apache2/mod_sed/sed0.c:429-474 | links a branch to its label or into the label's chain, or refuses it; its node has its command and its negation |
| ScriptCompiler.Commands.OpenBlock | nza-userland/components/apache2/mod_sed/sed0.c:295-303 | a block's node is remembered, and branches around the block on the lines the block is not for |
| ScriptCompiler.Commands.CloseBlock | nza-userland/components/apache2/mod_sed/sed0.c:305-318 | the innermost open block is linked to the current node, or the brace refused |
| ScriptCompiler.Commands.AddCommand | nza-userland/components/apache2/mod_sed/sed0.c:512-515 | `D` is linked to the first command, other commands to none; the node keeps the negation |
| ScriptCompiler.Commands.Compile | nza-userland/components/apache2/mod_sed/sed0.c:199-671 | after every script, in one or in several parts, the nodes form one list in order, every link leads to its target, every undefined label has the null-terminated chain of exactly its waiting branches, each node has the command and negation of its item, and the first refused item is reported |
| ScriptCompiler.Commands.CheckFinalized | nza-userland/components/apache2/mod_sed/sed0.c:160-174 | true exactly when no block is open and every label mentioned is defined |
| ScriptErrors.AcceptedScripts | nza-userland/components/apache2/mod_sed/sed0.c:199-671 | a script is accepted if and only if no label has an address, an empty name or one too long, no two have the same, no branch names one too long, all have at most 48 names, and every closing brace has no address and a block to close |
| ScriptErrors.AcceptsClean | nza-userland/components/apache2/mod_sed/sed0.c:199-671 | a script is accepted if and only if nothing is wrong with any of its items |
| ScriptErrors.ReportsFirstFault | nza-userland/components/apache2/mod_sed/sed0.c:199-671 | otherwise the first item with which something is wrong decides the error |
| ScriptErrors.FinalizedScripts | nza-userland/components/apache2/mod_sed/sed0.c:160-174 | an accepted script is complete if and only if its blocks are closed and every label a branch names is defined |
| ScriptErrors.SlotCounts | nza-userland/components/apache2/mod_sed/sed0.c:1002-1024 | the command at a label is the one with as many commands before it as there are in front of the label |
| ScriptTargets.BranchesReachLabels | nza-userland/components/apache2/mod_sed/sed0.c:328-474 | every branch leads to the command at its label, whatever mix of forward and backward references the script has |
| ScriptTargets.FinalizedBranches | nza-userland/components/apache2/mod_sed/sed0.c:160-174 | once the script is finalized, every labelled branch has such a label |
| ScriptTargets.UnlabelledBranches | nza-userland/components/apache2/mod_sed/sed0.c:439-446 | a branch without a label ends the cycle exactly when no other such branch follows it; otherwise it leads to a later one |
| ScriptTargets.TwoUnlabelled | nza-userland/components/apache2/mod_sed/sed0.c:439-446 | of two such branches the first leads to the second |
| ScriptTargets.BlocksReachTheirEnd | nza-userland/components/apache2/mod_sed/sed0.c:295-318 | the node of every block leads to the command slot current at its matching brace |
| CompiledScripts.WhatIsLeft | nza-userland/components/apache2/mod_sed/sed0.c:199-671 | a script that agrees with the nodes `fcomp` leaves, pointer by pointer, has for every item its command, negation and target |
| CompiledScripts.BranchesGoToLabels | nza-userland/components/apache2/mod_sed/sed0.c:328-474 | in a finalized script a labelled `b` or `t` continues at the command behind its label exactly on the lines its address, or its negation, selects (and for `t` after a substitution), and otherwise at the next command |
| CompiledScripts.BracesAreBlocks | nza-userland/components/apache2/mod_sed/sed0.c:295-318 | every pair of matching braces is a block of the list that is run |
| CompiledScripts.AlwaysNested | nza-userland/components/apache2/mod_sed/sed0.c:295-318 | at every point blocks lie inside each other or behind each other |
| CompiledScripts.NothingElseInto | nza-userland/components/apache2/mod_sed/sed0.c:295-318 | when no branch crosses a block, no link at all leads into its body from outside |
| CompiledScripts.BlocksAreEnteredByAddress | nza-userland/components/apache2/mod_sed/sed0.c:295-318 | in every run of a compiled script over any lines, resumed behind `n` and `N` wherever it was, the body of a block no branch crosses is entered only through its opening brace, on a line the block's address or its negation selects, and not left since |
| CompiledScripts.LinksAreValid | nza-userland/components/apache2/mod_sed/sed0.c:199-671 | every link of a compiled script leads into the list or behind its end, and that of `D` to the first command |
| CompiledScripts.CompiledIsValid | nza-userland/components/apache2/mod_sed/sed0.c:199-671 | a compiled script is valid exactly if the addresses, texts and expressions given with its commands are |
| OutputFilter.Context.PassBrigade | nza-userland/components/apache2/mod_sed/mod_sed.c:119-122 | the next filter gets the bytes of the buckets as they are at that moment |
| OutputFilter.Context.AppendBucket | nza-userland/components/apache2/mod_sed/mod_sed.c:102-127 | adds a bucket's bytes to what is on its way; the fiftieth transient bucket passes everything on and clears the pool |
| OutputFilter.Context.FlushOutputBuffer | nza-userland/components/apache2/mod_sed/mod_sed.c:133-145 | the filled part goes into a bucket of its own memory, and nothing is lost |
| OutputFilter.Context.WriteOutput | nza-userland/components/apache2/mod_sed/mod_sed.c:150-194 | what has been passed on, what is in buckets and what fills the buffer is everything written, in order; buckets refer to live memory other than the buffer, and fewer than fifty are pending |
| OutputFilter.Context.InsertFlush | nza-userland/components/apache2/mod_sed/mod_sed.c:338-347 | a flush goes behind all that was written before it |
| OutputFilter.Context.EndCall | nza-userland/components/apache2/mod_sed/mod_sed.c:370-381 | at the end of a call everything written has been passed on and the pool is empty |
| ActiveLists.UnlinkedLinked | nza-userland/components/openssl/openssl-1.0.1/engines/pkcs11/e_pk11_pub.c:298-311 | linking the neighbours of an entry past it leaves a well-linked acyclic list without it |
| ActiveLists.ActiveList.Find | nza-userland/components/openssl/openssl-1.0.1/engines/pkcs11/e_pk11_pub.c:227-236 | finds the one entry of a handle exactly when the handle is counted |
| ActiveLists.ActiveList.Add | nza-userland/components/openssl/openssl-1.0.1/engines/pkcs11/e_pk11_pub.c:246-285 | adds one to the handle's count and returns it; an invalid handle or a failed allocation changes nothing |
| ActiveLists.ActiveList.Remove | nza-userland/components/openssl/openssl-1.0.1/engines/pkcs11/e_pk11_pub.c:293-318 | the entry and its handle are gone, the others stay as they are and well linked |
| ActiveLists.ActiveList.Delete | nza-userland/components/openssl/openssl-1.0.1/engines/pkcs11/e_pk11_pub.c:354-374 | returns 1 exactly when the count reaches zero and the entry is gone, 0 when references are left, -1 for a handle not counted, which changes nothing |
| ActiveLists.ActiveList.FreeAll | nza-userland/components/openssl/openssl-1.0.1/engines/pkcs11/e_pk11_pub.c:321-342 | nothing is counted any more |
| KeyReferences.KeyStore.Get | nza-userland/components/openssl/openssl-1.0.1/engines/pkcs11/e_pk11_pub.c:1632-1706 | the region that finds or creates a key and holds it, with every failure and its rollback, does to counts and objects what the step of the state machine does |
| KeyReferences.GetKeyAcquires | nza-userland/components/openssl/openssl-1.0.1/engines/pkcs11/e_pk11_pub.c:1632-1706 | with the search closed there is a handle exactly if the search worked, an object was found or created, the numbers could be copied and the handle was counted or there was memory; it is the found one with no object added or the made one with just that object added, counted once more; without one nothing is counted and no object is left, unless destroying it failed |
| KeyReferences.KeyStore.TryDestroy | nza-userland/components/openssl/openssl-1.0.1/engines/pkcs11/e_pk11.c:350-361 | the region that releases a key asks for the object to be destroyed exactly when the last reference has gone |
| KeyReferences.StepConsistent | nza-userland/components/openssl/openssl-1.0.1/engines/pkcs11/e_pk11.c:161-178 | every other step keeps the count of each handle equal to the number of its holders, in slots and in calls, and keeps what is held in existence |
| KeyReferences.UncountedBreaks | nza-userland/components/openssl/openssl-1.0.1/engines/pkcs11/e_pk11_pub.c:1653-1660 | a found handle returned because closing the search failed is not counted |
| KeyReferences.RunsAreConsistent | nza-userland/components/openssl/openssl-1.0.1/engines/pkcs11/e_pk11_pub.c:1582-1719 | over every run, any threads, any interleaving, any failures, counts and holders agree all along exactly if no such step is taken |
| KeyReferences.LastReleaseDestroys | nza-userland/components/openssl/openssl-1.0.1/engines/pkcs11/e_pk11.c:350-361 | a release destroys the object exactly when nobody else holds its handle |
| KeyReferences.UncountedIsDestroyed | nza-userland/components/openssl/openssl-1.0.1/engines/pkcs11/e_pk11_pub.c:1653-1660 | after an uncounted acquisition a release destroys an object still in use |
| RsaSessions.TakenIsRun | nza-userland/components/openssl/openssl-1.0.1/engines/pkcs11/e_pk11.c:161-178 | the steps that calls take form a run of the state machine |
| RsaSessions.CallsKeepCounts | nza-userland/components/openssl/openssl-1.0.1/engines/pkcs11/e_pk11.c:161-178 | calls whose handles are all counted keep counts and holders in agreement, whatever was done before |
| RsaSessions.GetIsRun | nza-userland/components/openssl/openssl-1.0.1/engines/pkcs11/e_pk11_pub.c:1582-1719 | filling the empty slot of a session is acquiring a key and keeping it, and touches no other slot or call; the handle is counted unless closing the search failed |
| RsaSessions.PutBothIsRun | nza-userland/components/openssl/openssl-1.0.1/engines/pkcs11/e_pk11.c:350-361 | clearing the slots of a session is a release of what each of them holds before it is cleared, and touches nothing else |
| RsaSessions.RsaKeys.DestroyPublic | nza-userland/components/openssl/openssl-1.0.1/engines/pkcs11/e_pk11.c:1930-1945 | releases the public key of a session and forgets all its numbers, and does nothing without a handle |
| RsaSessions.RsaKeys.DestroyPrivate | nza-userland/components/openssl/openssl-1.0.1/engines/pkcs11/e_pk11.c:1948-1963 | the same for the private key |
| RsaSessions.RsaKeys.CheckNewPublic | nza-userland/components/openssl/openssl-1.0.1/engines/pkcs11/e_pk11_pub.c:1941-1979 | a hit exactly for the same structure, the same numbers and a handle; otherwise no public handle is left, and a private one only with the caller's numbers; all of it steps of the state machine on this session's slots |
| RsaSessions.RsaKeys.CheckNewPrivate | nza-userland/components/openssl/openssl-1.0.1/engines/pkcs11/e_pk11_pub.c:1986-2021 | the same for private keys |
| RsaSessions.RsaKeys.GetPublicKey | nza-userland/components/openssl/openssl-1.0.1/engines/pkcs11/e_pk11_pub.c:1582-1719 | what the call does to the store and to the numbers the session caches |
| RsaSessions.RsaKeys.GetPrivateKey | nza-userland/components/openssl/openssl-1.0.1/engines/pkcs11/e_pk11_pub.c:1727-1934 | the same for private keys, in the token for a key by reference, for which no object is created; when the private exponent cannot be copied the public numbers cached before stay |
| RsaSessions.RsaKeys.PublicHandle | nza-userland/components/openssl/openssl-1.0.1/engines/pkcs11/e_pk11_pub.c:746-751 | with no handle cached there is one exactly if the search worked, an object was found or could be created, the numbers could be copied and the handle was counted or there was memory; it is that of the object found, or of the one object created from the caller's key, and counted once more; a cached one is returned as it is, and a found one uncounted when closing the search failed; the session's slot is filled by steps of the state machine |
| RsaSessions.RsaKeys.PrivateHandle | nza-userland/components/openssl/openssl-1.0.1/engines/pkcs11/e_pk11_pub.c:803-808 | the same for private keys, where none is created for a key by reference: an object with the caller's numbers, and with no handle cached before one in the token exactly for a key by reference |
| DigestSessions.Digests.GetSession | nza-userland/components/openssl/openssl-1.0.1/engines/pkcs11/e_pk11.c:1512-1683 | the session returned is the first of the free list or a new one, and belongs to nobody; a failure leaves an empty list empty |
| DigestSessions.Digests.ReturnSession | nza-userland/components/openssl/openssl-1.0.1/engines/pkcs11/e_pk11.c:1686-1721 | the session becomes the first of the free list |
| DigestSessions.Digests.Init | nza-userland/components/openssl/openssl-1.0.1/engines/pkcs11/e_pk11.c:2734-2771 | succeeds exactly if the digest is known, the provider starts it, and there is a free session or memory and a new one from the provider; the context then holds the first free session or a new one, no other context holds it, and after a failure the free list is what it was |
| DigestSessions.Digests.Update | nza-userland/components/openssl/openssl-1.0.1/engines/pkcs11/e_pk11.c:2773-2798 | a failure of the provider returns the session, and the context holds it no longer |
| DigestSessions.Digests.Final | nza-userland/components/openssl/openssl-1.0.1/engines/pkcs11/e_pk11.c:2800-2832 | returns the session, but for a digest of an unexpected length, which leaves it with the context |
| DigestSessions.Digests.Copy | nza-userland/components/openssl/openssl-1.0.1/engines/pkcs11/e_pk11.c:2834-2906 | a context copied byte by byte ends with a session of its own or with none, whatever fails, and exactly when it succeeds |
| DigestSessions.Digests.Cleanup | nza-userland/components/openssl/openssl-1.0.1/engines/pkcs11/e_pk11.c:2909-2929 | the context holds nothing afterwards, but for a digest of an unexpected length |
| CipherKeys.Ciphers.DestroyKeyObject | nza-userland/components/openssl/openssl-1.0.1/engines/pkcs11/e_pk11.c:2952-2989 | the session's object is gone, or both stay when the provider fails |
| CipherKeys.Ciphers.SameBytes | nza-userland/components/openssl/openssl-1.0.1/engines/pkcs11/e_pk11.c:2942-2943 | compares as many cached bytes as the key has |
| CipherKeys.Ciphers.CheckNew | nza-userland/components/openssl/openssl-1.0.1/engines/pkcs11/e_pk11.c:2939-2949 | a hit exactly when the cached bytes are the key; on a miss the old object is destroyed if the provider lets it |
| CipherKeys.Ciphers.GetCipherKey | nza-userland/components/openssl/openssl-1.0.1/engines/pkcs11/e_pk11.c:2665-2721 | the object is made from the whole key and has the type asked for, the session caches the first 32 bytes and nothing of the type |
| CipherKeys.Ciphers.Init | nza-userland/components/openssl/openssl-1.0.1/engines/pkcs11/e_pk11.c:2304-2406 | succeeds exactly if the provider starts the operation, the direction is the same as before or the old operation can be ended, and the object is still that of the session or one can be created; every session's handle denotes an object made from a key it caches the beginning of; after a success the object is made from exactly the caller's key and has the cipher's key type if and only if the condition Serves held before, in particular for keys of at most 32 bytes, one type of key and successful destruction |
| CipherKeys.Ciphers.FalseHit | nza-userland/components/openssl/openssl-1.0.1/engines/pkcs11/e_pk11.c:2939-2949 | the condition fails for a 32-byte key that begins a longer one cached before |
| CipherKeys.Ciphers.OtherKind | nza-userland/components/openssl/openssl-1.0.1/engines/pkcs11/e_pk11.c:2939-2949 | the condition fails for a key of another type with the bytes cached before |

## Left out

- The hold buffer, whose growth moves no pointer that is used again, is a sequence of any length. Sizes are unbounded where the source's are unsigned.
- `D` copies a line onto itself with `memcpy`; the model takes the bytes to be moved as if they did not overlap.
- What the source does once it has followed a pointer out of its buffer; after the last text of the queue it goes on with whatever the terminator has overwritten.
- LineRoom.TamePush: says nothing of scripts with an `a` or a flagged `s`; `Straying.RunStrays` does, in both directions.
- PatternSearch.OpenReferenceIsStale: entries of the group lists that nothing has written are offset 0 in the model and null in the source, where the comparison with such a group fails; the lemma speaks of entries written by an earlier group.
- Patterns and classes without an end: the compiler's result is then only that it reads past the text. Interval numbers are unbounded where the source's may overflow.
- Starred back-references, stacked quantifiers and `\{` after a group are compiled as the code does, but have no meaning theorem; patterns with a reference to a group still open are the subject of the lemmas on open references.
- Reading script text: `fcomp` starts from a sequence of items with their addresses parsed; `rline`, `address`, `text`, `ycomp`, `compsub` and the size of `respace` are not modelled, nor is the empty pattern that repeats the last one.
- Execution.Evaluator.Command: does not model `r`, `w` and `x`, because files are not part of the model and the source's `x` copies nothing into the buffer it exchanges through.
- Execution.Evaluator.SubstituteLine: does not model the `w` flag, because files are not part of the model.
- Error messages.
- A write that fails: output is a sequence that takes everything; the filter's next stage accepts every brigade.
- More than twenty blocks inside each other, for which the source writes behind `cmpend`.
- Line numbers and reference counts that overflow an int.
- Execution.Evaluator.Execute: needs the loop to come to an end within some number of turns; for a script that loops forever the source does not return either.
- Substitution.Editor.Substitute: needs a pattern that makes progress when every match is to be replaced; without it the source does not return. It does not say what the source does once it has read the old buffer, including the cases in which its line is right all the same, because the bytes left there by earlier lines are not part of the model.
- Compiled scripts: `CompiledScripts` connects branches, negation and the kinds of commands that branch; what other commands a node holds, its addresses and its expressions are given with the script.
- A `!` in front of a label or a closing brace, which the source carries over to the next command.
- The object the evaluator keeps for `s` and the buffer of `l` are separate objects in `Execution`, although the source has one structure with one `genbuf`; nothing is carried over in that buffer from one command to another.
- The input side of the filter, the configuration, and everything of Apache but pools and brigades.
- KeyReferences.RunsAreConsistent: does not model what a provider does to objects of its own accord, nor the end of the engine, which empties the list.
- RsaSessions.RsaKeys.PublicHandle: does not model other threads between the check of the session and the search; what they may do to a held key is the subject of the state machine.
- Forks, relogin and re-initialisation in `pk11_get_session`; failing returns of cipher contexts; `pk11_free_all_sessions`.
- DSA and DH keys, which follow the same scheme, padding, and the cryptographic operations themselves.
