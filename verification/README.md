# Verified models of rsyslog components

This project models five parts of rsyslog in Dafny 4.11 and proves what they promise. `dafny verify dfyconfig.toml`
checks all of it.

**RainerScript.** `Script.dfy` gives expressions two meanings: `Run` is what the evaluator does (array equality by
binary search), `Ref` is what the script says (membership). `Optimizer.dfy` is the expression optimizer: constant folding,
severity and facility comparisons, by number or name, turned into bit masks, masks merged under NOT, AND and OR, arrays
sorted.
`OptimizerSound.dfy` proves that running the optimized tree means what the tree as written says, for every expression
that meets `Safe`. `Safe` is a check on the script alone; `OptimizerLimits.dfy` and `Optimizer.FreedExactly` show what
lies outside it and, for the mask rewrites, the dropped operands, unsorted arrays and numbers against arrays, exactly when
meaning changes there. `Statements.dfy`,
`StmtOptimizer.dfy`, `StmtSound.dfy` and `StmtNormal.dfy` do the same for nested statement lists, `SelectorCache.dfy` for the variable
cache of else-if chains. What evaluation and execution mean is fixed by laws over all operands and scripts in
`ScriptLaws.dfy` and `StmtLaws.dfy`, and by a small machine for scripts; `MessageProps.dfy` says what a property reads.
`Replace.dfy` and `Base64.dfy` are the two loop algorithms behind `replace()` and
`base64_dec()`. `SortSearch.dfy` shows that the assumptions made about sorting and searching can be met.

**Action engine.** `ActionEngine.dfy` is the state machine of one worker and one action as a class. The output module,
the clock, the shutdown flag and another worker's disable are an environment that may answer anything at every step. A
ghost log records every module call and decision. Every method keeps `Valid()`, which says that the log obeys the laws
of `ActionLog.dfy`; so the lemmas there hold over every run of any sequence of operations. The message books read off
the log (`Given`, `Acked`, `Filed`, `Attempts`) carry the conservation results. `WorkerTable.dfy` is the table of worker
instances.

**Dynamic statistics.** `Dynstats.dfy` keeps the hash tables and the doubly linked lists of counters as heap objects and
proves that they refine the map of `CounterSpec.dfy` from metric to value and age, including the rollback after a refused
counter. `FileWriteQueue.dfy` is the coalescing queue of state-file writes, as a class and as a state machine over all
interleavings of enqueuers and the writer.

**Timestamps.** `Timestamp3339.dfy` is the RFC 3339 parser and printer, `TimestampGrammar.dfy` the texts it accepts,
`Calendar.dfy` the conversion to Unix time and
the weekday formula, against a recursively defined Gregorian calendar.

**PRI selectors.** `PriFilter.dfy` is the scanner of traditional selectors over a 26-byte mask.

Where the code and its comments differ, the model follows the code: the weekday formula is said to fail in the year 2100
and does so from March 1 on; `actionTryRemoveHardErrorsFromBatch` writes every result other than OK and SUSPENDED to the
error file, not just data failures; the comment on the data-failure state (runtime/wti.h:40-44) speaks of a normal retry
that brings the action back, but a module without commitTransaction is not called again once it is in that state.

## Model

| member | source | states |
|---|---|---|
| `Values.Str2Num` | grammar/rainerscript.c:1453-1481 | str2num: the scanning loop returns the number of the longest digit prefix after an optional minus, and reports success exactly when the whole text was used |
| `Values.NumberRoundTrip` | grammar/rainerscript.c:1453-1537 | a number written as text by var2String and read back by str2num is the same number and reads as a number |
| `ScriptLaws.Arithmetic` | grammar/rainerscript.c:4215-4235 | sums, differences and products are those of the integers; quotient and remainder put the dividend together again, the remainder is smaller than the divisor and has the sign of the dividend; dividing by zero gives zero |
| `ScriptLaws.Undone` | grammar/rainerscript.c:4215-4235 | for all operands, taking away what was added, or adding what was taken away, gives the number of the operand back |
| `ScriptLaws.Reassembled` | grammar/rainerscript.c:4215-4235 | for all operands with a divisor other than zero, quotient times divisor plus remainder is the dividend |
| `ScriptLaws.Comparison` | grammar/rainerscript.c:3943-4091 | a comparison of two expressions is the comparison of their values that Equality, TextOrder and NumberOrder speak of, unless == or <> meets an array |
| `ScriptLaws.Equality` | grammar/rainerscript.c:3943-4075 | == compares texts if two texts meet, JSON on the left meets a text, or a text is no number, and numbers otherwise; <> is its negation |
| `ScriptLaws.TextOrder` | grammar/rainerscript.c:3889-3926 | the order comparisons of operands of which one is no number are those of es_strcmp on their texts |
| `ScriptLaws.NumberOrder` | grammar/rainerscript.c:3889-3926 | the order comparisons of numbers are those of the integers if and only if the difference keeps its sign as a C int; for a difference below 2^32 if and only if it is one |
| `ScriptLaws.OrderFails` | grammar/rainerscript.c:3889-3926 | a pair of numbers that are compared the wrong way round |
| `ScriptLaws.Membership` | grammar/rainerscript.c:3802-3840 | == with an array on the right holds exactly when some element is the text of the left operand, <> exactly when none is |
| `ScriptLaws.SomeElement` | grammar/rainerscript.c:4092-4148 | a text test against an array holds exactly when it holds against some element |
| `ScriptLaws.DeMorgan` | grammar/rainerscript.c:4149-4188 | for all operands, negation turns a conjunction into a disjunction; connectives and their values are those of Logic |
| `ScriptLaws.ConditionMeans` | grammar/rainerscript.c:4701-4708 | a condition holds unless the low 32 bits of its number are all zero |
| `ScriptLaws.NarrowingIsUnique` | grammar/rainerscript.c:3889-3926 | narrowing gives the one C int that agrees with the number modulo 2^32 |
| `ScriptLaws.Joining` | grammar/rainerscript.c:4203-4214 | & joins the texts of its operands, left before right |
| `ScriptLaws.NumeralIsText` | grammar/rainerscript.c:1483-1537 | every decimal numeral without leading zeros is the text of its number |
| `ScriptLaws.NumberThenText` | grammar/rainerscript.c:1453-1481 | text behind the digits ends the number and makes it no number |
| `PriMask.PrifiltInvert` | grammar/rainerscript.c:442-447 | in place, the mask becomes the one that passes exactly the other messages (with InvertedMeans) |
| `PriMask.PrifiltSetSeverity` | grammar/rainerscript.c:453-471 | in place, the mask of a severity comparison, one byte for all facilities |
| `PriMask.PrifiltSetFacility` | grammar/rainerscript.c:478-505 | in place, the mask of a facility comparison |
| `PriMask.PrifiltCombine` | grammar/rainerscript.c:510-520 | in place, the mask of a conjunction or disjunction |
| `PriMask.InvertedMeans` | grammar/rainerscript.c:442-447 | the inverted mask passes a message exactly when the mask does not |
| `PriMask.CombinedMeans` | grammar/rainerscript.c:510-520 | the combined mask passes exactly what both, or either, pass |
| `PriMask.SeverityMaskMeans` | grammar/rainerscript.c:453-471 | the severity mask passes a message exactly when its severity compares as asked with the literal |
| `PriMask.FacilityMaskMeans` | grammar/rainerscript.c:478-505 | the facility mask passes a message exactly when its facility compares as asked with the literal |
| `PriMask.OneFacilityMeans` | grammar/rainerscript.c:6303-6322 | the mask made for a facility code passes exactly the messages of that facility, its inverse exactly the others |
| `PriMask.OneSeverityMeans` | grammar/rainerscript.c:453-471 | the mask made for the code of a severity name passes a message exactly when its severity is, or is not, that code, also for codes no message has |
| `SortSearch.SortCorrect` | grammar/rainerscript.c:5740-5743 | sorting the array literal gives a sorted permutation |
| `SortSearch.BsearchCorrect` | grammar/rainerscript.c:3802-3840 | binary search over a sorted array finds a key exactly when it is a member |
| `SortSearch.SearchAssumptionsHold` | grammar/rainerscript.c:3802-3840 | the sort and the search above satisfy what the optimizer proof assumes of qsort and bsearch |
| `SortSearch.BsearchExactly` | grammar/rainerscript.c:3802-3840 | on any array binary search finds a key exactly when the key occurs at a place that lies on its side of every element the search looks at before |
| `SortSearch.FindsAllAscends` | grammar/rainerscript.c:3802-3840 | if binary search finds every element of an array without repeats, the array is strictly ascending |
| `Script.NumericSound` | grammar/rainerscript.c:3928-4252 | numbers come only from expressions classed as numeric, and all of those except function calls always yield one, under both readings of array comparison |
| `Optimizer.FoldLiteral` | grammar/rainerscript.c:5450-5599 | a constant subtree becomes the literal of its folded value, and no other subtree becomes a literal |
| `Optimizer.MovesExactly` | grammar/rainerscript.c:5605-5734 | the optimizer hands back a new root exactly for expressions that turn into a priority mask |
| `Optimizer.FreedExactly` | grammar/rainerscript.c:5450-5533 | the result refers to a freed node exactly when an arithmetic or concatenation operator has an operand that turns into a mask; elsewhere the dropped result is harmless |
| `OptimizerSound.RunIsRef` | grammar/rainerscript.c:3802-3840 | on sorted array literals the evaluator with binary search agrees with membership, also for numbers, which it compares with the first element, where that element permits it; in value where that is asked for, else in truth |
| `OptimizerSound.OneNumeralExactly` | grammar/rainerscript.c:3990-4009 | comparing numbers with one text instead of an array gives membership for every number if and only if the decimal texts in the array are just that of the number the text reads as |
| `OptimizerSound.PriMeans` | grammar/rainerscript.c:5605-5691 | turning a comparison with a severity or facility, by number or by name, into a mask keeps its value, or for <> its truth |
| `OptimizerSound.MergeMeans` | grammar/rainerscript.c:5714-5734 | merging two masks under AND or OR keeps the value |
| `OptimizerSound.NotMeans` | grammar/rainerscript.c:5698-5712 | inverting a mask under NOT keeps the value |
| `OptimizerSound.FoldCmpMeans` | grammar/rainerscript.c:5536-5599 | folding a comparison of constants keeps its value, or for <> on texts its truth |
| `OptimizerSound.OptimizePreserves` | grammar/rainerscript.c:5747-5853 | for every safe expression and message the optimized tree has the same meaning, where array equality means membership |
| `OptimizerSound.OptimizeReady` | grammar/rainerscript.c:5747-5853 | an optimized expression has its arrays sorted and is again one the optimizer treats correctly |
| `OptimizerSound.OptimizedRunsAsWritten` | grammar/rainerscript.c:5747-5853 | main result: running the optimized tree, with binary search, gives the truth (and where values are kept, the value) of the tree as written, with membership |
| `OptimizerLimits.SeverityRewriteExactly` | grammar/rainerscript.c:5605-5632 | the severity rewrite keeps the value for all severities if and only if the literal of an == or <> survives the narrowing to an int |
| `OptimizerLimits.FacilityRewriteExactly` | grammar/rainerscript.c:5605-5645 | for every literal the rewrite accepts, it keeps the truth for all facilities if and only if the literal of an == or <> survives the narrowing to an int and one that narrows to 24 is compared with < or >=, because facility 24 reads as a word (runtime/msg.c:2054-2067) |
| `OptimizerLimits.NameRewriteExactly` | grammar/rainerscript.c:5651-5691 | rewriting a comparison with a severity or facility name keeps its truth for all messages if and only if the name is the one messages with its code read as (runtime/msg.c:216-237); aliases, other spellings and numbers are not |
| `OptimizerLimits.ArgumentSearched` | grammar/rainerscript.c:5747-5853 | an array comparison inside a function argument is left as it is, and runs as a search of the array as written |
| `OptimizerLimits.UnsortedArgumentExactly` | grammar/rainerscript.c:5747-5853 | that search gives membership for every text if and only if each element of the array occurs at a place that lies on its side of every element the search looks at before; for arrays without repeats, if and only if the array is sorted |
| `OptimizerLimits.UnsortedArgument` | grammar/rainerscript.c:5747-5853 | a two-element array in which it misses a member |
| `OptimizerLimits.NumberAgainstArray` | grammar/rainerscript.c:3990-4009 | a number compared with an array asks for membership as written, but after sorting is compared with the first element only |
| `OptimizerLimits.NumberAgainstArrayExactly` | grammar/rainerscript.c:3990-4009 | that keeps the truth for every number if and only if the decimal texts in the array are just that of the number its least element reads as |
| `OptimizerLimits.NumberAgainstPair` | grammar/rainerscript.c:3990-4009 | a two-element array for which it does not |
| `Statements.ExecAppend` | runtime/ruleset.c:567-624 | running two lists in a row is running the first and, unless it stopped, the second on the message it left; what a stop, a block and an action do is stated by the StmtLaws rows |
| `StmtLaws.ScriptRunsToItsEnd` | runtime/ruleset.c:567-624 | main result: a machine that takes one statement at a time off a stack of unfinished blocks, and drops all of them at a stop, reaches the outcome of the recursive execution for every script and message |
| `StmtLaws.NothingAfterStop` | runtime/ruleset.c:567-624 | whatever follows a stop does not run, and the run is ended as it stands |
| `StmtLaws.BlockChosen` | runtime/ruleset.c:296-339 | an if, priority filter or property filter is the block its condition chooses; a property filter that does not match does nothing |
| `StmtLaws.StopLeavesBlocks` | runtime/ruleset.c:434-449 | a stop inside a block that is entered ends the lists around it: the run is that of the statements before it and before the stop |
| `StmtLaws.StopLeavesLoop` | runtime/ruleset.c:408-432 | a stop in the body of a foreach ends it with the first item and its variable set, and ends the script; without items the loop does nothing |
| `StmtLaws.LoopUnrolls` | runtime/ruleset.c:341-362 | a foreach visits its items in order, one run of the body for each on the message the last one left, until one stops |
| `StmtLaws.ActionRuns` | runtime/ruleset.c:170-187 | an action that is reached runs exactly once, on the message as the statements before it left it |
| `StmtLaws.DiscardIsStop` | grammar/rainerscript.c:6067-6076 | an omdiscard action ends processing like a stop |
| `StmtSound.RemoveNopsExec` | grammar/rainerscript.c:5858-5880 | removing NOPs keeps every run |
| `StmtSound.IfExec` | grammar/rainerscript.c:6010-6065 | removing empty and constant conditions, inverting and turning IF into a priority filter keep every run |
| `StmtSound.PriExec` | grammar/rainerscript.c:6078-6115 | optimizing a priority filter, including the always-true case, keeps every run |
| `StmtSound.LoopExec` | grammar/rainerscript.c:6153-6205 | splicing always-true filters into the enclosing list and re-examining the result keeps every run |
| `StmtSound.ListReady` | grammar/rainerscript.c:6153-6205 | an optimized list is again safe and runs as it is written: no discard action, unknown call or unsorted array is left |
| `StmtSound.OptimizedScriptRunsAsWritten` | grammar/rainerscript.c:6153-6205 | main result: for every nested safe list and message the optimized list runs the same actions in order on the same messages, leaves the same message and stops at the same point |
| `StmtNormal.ListNormal` | grammar/rainerscript.c:6010-6205 | an optimized list holds, at every depth the optimizer visits, no NOP, no if without branches or with a constant false condition and no else, no if that only tests a priority, no filter that lets everything pass, no discard and no call of an unknown ruleset |
| `StmtNormal.AlwaysTrueMeans` | grammar/rainerscript.c:6078-6115 | a filter counts as always true exactly when it lets every facility and severity pass |
| `SelectorCache.AssignSlots` | grammar/rainerscript.c:5985-6007 | the loop gives slots 0, 1, ... to the properties used more than once, in order of first use |
| `SelectorCache.SlotsShareExactly` | grammar/rainerscript.c:5887-6007 | nodes with slots share one exactly when their properties read the same from every message, and every slot is below cache_slots |
| `MessageProps.SamePropMeans` | grammar/rainerscript.c:5892-5901 | two property descriptors are taken for the same exactly when they read the same from every message: a native property by its id, the variables of $!, $. and $/ by tree and name (runtime/msg.c:4170-4173, 3109-3117) |
| `MessageProps.MessageIsEnv` | runtime/msg.c:4170-4173 | reading a message meets what the other results assume of it |
| `SelectorCache.SlotIffRepeated` | grammar/rainerscript.c:5887-6007 | a property gets a slot exactly when the conditions of the chain mention it at least twice, counted as an unsigned short, and fewer than 65535 repeated properties are listed before it; their number is its slot |
| `SelectorCache.AssignEval` | grammar/rainerscript.c:5948-5980 | assigning slots changes no value |
| `SelectorCache.VarCache.EvalVar` | grammar/rainerscript.c:3765-3793 | a cached read returns what the uncached one does; the message is asked only if the property has no slot or its slot is still empty |
| `SelectorCache.VarCache.EvalExpr` | grammar/rainerscript.c:3928-4252 | the cached evaluator returns the uncached value of every expression, and its reads of the message are those of plain evaluation without the repeats the cache serves |
| `SelectorCache.VisitsDecide` | grammar/rainerscript.c:3928-4252 | the properties plain evaluation reads decide its value: another message that agrees on them gives the same value by the same reads |
| `SelectorCache.ShortCircuit` | grammar/rainerscript.c:4149-4178 | the right operand of a connective that the left one decides is not read |
| `SelectorCache.MissesReads` | grammar/rainerscript.c:3765-3793 | serving repeats from the cache leaves one read of each property with a slot and all reads of the others |
| `SelectorCache.SelectBranch` | runtime/ruleset.c:296-339 | main result: the cached else-if chain picks the first branch whose condition is true without a cache; a property with a slot is read once if plain evaluation reads it at all, any other exactly as often |
| `Replace.ReplaceIsLeftmost` | grammar/rainerscript.c:1805-1865 | the result is the source with its leftmost non-overlapping occurrences replaced: the gaps between them contain no occurrence |
| `Replace.CountPass` | grammar/rainerscript.c:1820-1834 | the counting pass, with its backtracking, predicts the length of the result |
| `Replace.WritePass` | grammar/rainerscript.c:1838-1858 | the writing pass fills a buffer of exactly that length with the result; every write is in bounds |
| `Replace.DoFuncReplace` | grammar/rainerscript.c:1805-1865 | main result: the two passes together return the replaced text |
| `Base64.DecodeLen` | grammar/rainerscript.c:3115-3124 | the predicted length is at least the decoded length and at most three quarters of the text |
| `Base64.Decode` | grammar/rainerscript.c:3146-3189 | decoding fails exactly on an invalid character before the first pad character or a buffer that is too small; otherwise the buffer holds the decoded bytes |
| `Base64.Base64Dec` | grammar/rainerscript.c:3191-3243 | with the predicted buffer decoding never overflows, so it fails exactly on invalid text |
| `Base64.DecodeEncode` | grammar/rainerscript.c:3146-3189 | decoding the encoding of section 4 of RFC 4648 of any byte string returns the byte string |
| `Base64.WhitespaceIsIgnored` | grammar/rainerscript.c:3146-3189 | whitespace anywhere in the data changes neither validity nor result |
| `Base64.Alphabet` | grammar/rainerscript.c:3128-3138 | the table is the alphabet of RFC 4648 in its order, four characters of white space and the pad; every other character is invalid |
| `Base64.TextAfterPadIsIgnored` | grammar/rainerscript.c:3146-3189 | what follows a pad character changes neither validity nor result |
| `Timestamp3339.ParseInt32` | runtime/datetime.c:258-269 | srSLMGParseInt32: the loop returns the number and position of the functional parser, including the early stop near INT_MAX |
| `Timestamp3339.ParseTimestamp3339` | runtime/datetime.c:282-405 | the scanner returns what the functional parser does, with its fields and end, and leaves the timestamp alone on failure |
| `TimestampGrammar.ParseAccepts` | runtime/datetime.c:282-405 | main result: a text is accepted with given fields and end if and only if it consists of fields of digits of any length, with the literal separators - - T : :, values in range, perhaps a point and digits that fit into an int, and Z or a sign with hh:mm, followed by the end or a space |
| `Timestamp3339.NormalizedSecFracPower` | runtime/datetime.c:834-849 | the printed fraction is the fraction cut to six digits, with the power of its first digit |
| `Timestamp3339.FormatTimestamp3339` | runtime/datetime.c:896-959 | the formatter writes exactly the text of the timestamp and its terminator |
| `Timestamp3339.ParseFormat` | runtime/datetime.c:282-405 | main result: parsing the formatted text of any clean timestamp, followed by the end or a space, returns its fields cut to six fraction digits and consumes exactly the text |
| `Timestamp3339.CutTruncates` | runtime/datetime.c:834-849 | cutting a longer fraction is truncation to six digits |
| `Calendar.TableIs` | runtime/datetime.c:62-78 | every entry of the year table precedes the first second of a year of the Gregorian calendar |
| `Calendar.UnixTime` | runtime/datetime.c:1017-1103 | for 1970 to 2100 the result is the Gregorian day count times 86400 plus the time of day, less a + offset or plus any other; other years give 0 |
| `Calendar.DaysInARow` | runtime/datetime.c:1017-1103 | days are counted one by one over the ends of months and years, from 0 on Thursday, 1 January 1970 |
| `Calendar.DaysToYearIs` | runtime/datetime.c:1017-1103 | the closed form of the recursive day count, used for table and weekday |
| `Calendar.DayNumberIs` | runtime/datetime.c:1175-1189 | the number getWeekdayNbr reduces is the day count shifted by the leap days the formula does not skip |
| `Calendar.WeekdayExactly` | runtime/datetime.c:1175-1189 | the weekday is right if and only if the skipped leap days make whole weeks and the number reduced is not negative, as it can be before 1701, or the day is a Sunday |
| `Calendar.WeekdayRange` | runtime/datetime.c:1175-1189 | from 1900 to 2199 the weekday is right if and only if the date is from March 1900 to February 2100 |
| `PriFilter.DecodePRIFilter` | runtime/conf.c:339-473 | the scanner terminates on every line, fails exactly when the functional scan does, and otherwise leaves its mask in the array |
| `PriFilter.SetFacilities` | runtime/conf.c:396-467 | the facility loop applies the priority to the named facilities in order and fails at the first unknown one, which may be the empty name |
| `PriFilter.SetBits` | runtime/conf.c:400-464 | one entry is changed as the decoded priority says, all others stay |
| `PriFilter.ApplyMeans` | runtime/conf.c:400-464 | a priority enables exactly severities 0 to pri, with = just pri; ! disables instead, starting from all on an empty mask; none and * clear and fill; codes above 7 count as beyond the byte |
| `PriFilter.ListedMeans` | runtime/conf.c:365-398 | the character sets of the scanner are exactly the listed characters |
| `PriFilter.DecodedList` | runtime/conf.c:339-473 | main result: the text of a selector list, with any commas and blanks between facilities, any separators between selectors and anything behind a blank or tab, is refused exactly when a name is unknown; otherwise the mask of each facility is the left-to-right fold of just the selectors naming it or * |
| `ActionLog.NoCallBeforeRetryTime` | runtime/action.c:888-925 | in every lawful log no module call follows a suspension before its retry time |
| `ActionLog.BackOff` | runtime/action.c:899-905 | in every lawful log delays lie between one and three intervals, capped by the maximum, and never shrink until a resume succeeds |
| `ActionLog.DelayLadder` | runtime/action.c:899-905 | in every lawful log, since the start or the last successful resume the first ten suspensions wait one interval, the next ten two and every later one three, none longer than a positive maximum |
| `ActionLog.SkipNeedsMisuse` | runtime/action.c:1485-1496 | a message counts as taken without doAction only if tryResume or beginTransaction answered with a code meant for doAction |
| `ActionLog.AckedWasGiven` | runtime/action.c:1576-1631 | over every run the acknowledged messages are among the given ones, each delivery acknowledged at most once |
| `ActionLog.SortingConserves` | runtime/action.c:1757-1815 | sorting a batch into committed, kept and failed messages loses and duplicates none |
| `ActionLog.FailedWereTried` | runtime/action.c:1757-1815 | the failed messages of a split batch are exactly those whose own trial failed, in order |
| `ActionLog.NoRoundAfterTheLast` | runtime/action.c:1906-1941 | in every lawful log a round of a retry loop that another one follows had a suspended commit whose retry worked, or ended neither OK, FAILED, DISABLE_ACTION nor FORCE_TERM and left the action neither ready, suspended nor disabled |
| `ActionEngine.DisabledForAReason` | runtime/action.c:730-735 | in every reachable state a disabled action was disabled by another worker at some step or by an answer of DISABLE_ACTION |
| `ActionEngine.Engine.Suspend` | runtime/action.c:888-925 | the delay entered in the log is that of the retry count, which stays in 0 to 20 and counts suspensions since the last resume; DelayLadder says which delay that is |
| `ActionEngine.Engine.AskResume` | runtime/action.c:965-973 | the answer of tryResume counts as it is, except that after ten resumes in a row without a success it is read as SUSPENDED and the count starts again; the count never exceeds ten |
| `ActionEngine.Engine.DoRetry` | runtime/action.c:943-1029 | a retry run calls tryResume at most R + 1 times plus once per unexpected answer, suspends only after R + 1 refusals, sleeps after the refusals it does not end with, and leaves the retry state unless shutdown, a disable or a deferred sleep intervenes |
| `ActionEngine.Engine.TryResumeAction` | runtime/action.c:1169-1212 | a suspended action asks its module again only once the retry time has come, and then does |
| `ActionEngine.Engine.Prepare` | runtime/action.c:1222-1269 | on OK the action is not left ready without an open transaction; an open transaction is left alone, a ready or retrying action asks its module; any other result is explained: it shows in the state, or is the module's own answer, or shutdown was seen; a module's SUSPENDED or DISABLE_ACTION always shows in the state |
| `ActionEngine.Engine.HandleExecResult` | runtime/action.c:1393-1432 | how each module answer moves the state, and that success means ready |
| `ActionEngine.Engine.ReturnCode` | runtime/action.c:684-718 | the return code of each state; a noted auto-commit is reported once |
| `ActionEngine.Engine.ProcessMessage` | runtime/action.c:1485-1496 | one attempt, entered in the log with its result; the message is in the books as taken exactly when the result says so; after a data failure the module is not called again |
| `ActionEngine.Engine.LegacyTransaction` | runtime/action.c:1531-1564 | messages are attempted in order, each once, or a second time exactly if its first attempt was suspended; those taken are a prefix of the batch, the whole batch exactly when the result is OK, and otherwise the result is that of the last attempt; the module is called unless a disable, a shutdown or the state prevents it |
| `ActionEngine.Engine.TryCommit` | runtime/action.c:1576-1631 | at most one hand-over, none when the sleep was deferred; OK only with the whole batch given and the last answer a success; any other result is explained by the state, the module's answer or a shutdown; the module is called unless a disable, a shutdown or the state prevents it |
| `ActionEngine.Engine.Split` | runtime/action.c:1757-1815 | every message is tried alone and committed, kept or written to the error file as its result asks, each given at most once; after a deferred sleep the rest is kept untried; the kept ones are an in-order subsequence copied in bounds; it is ended early exactly by a trial whose result is a forced termination, and leaves the rest untouched |
| `ActionEngine.Engine.RetryLoop` | runtime/action.c:1906-1941 | one loop with one round for each of its commits, entered in the log with its results and the state it leaves, so that it ends as NoRoundAfterTheLast says; it ends with OK exactly when the kept messages were acknowledged; otherwise they are written to the error file at most once, and only after more than R refused resumes, a disable or a shutdown, or the action gives up on them; the result is explained |
| `ActionEngine.Engine.Commit` | runtime/action.c:1835-1949 | nothing of the batch is settled twice; on OK every message was acknowledged or written to the error file; any other result is explained and leaves every message settled, or gives up on the rest, or is one message refused for its data; messages are written to the error file only because their own trial failed, a retry did not work out, or the action is suspended; a batch of several fails only after some were tried alone; a suspended action files its batch, another one asks its module unless a disable, a shutdown or an earlier data failure prevents it |
| `ActionEngine.Engine.ProcessMsgMain` | runtime/action.c:1971-2007 | the result is entered in the log; a transactional message is queued once unless the action is disabled, and never reported as plain OK; another one is given exactly when the result says so, or a disable follows at once |
| `ActionEngine.SetElemState` | runtime/batch.h:91-95 | a discarded element stays discarded; others take the state |
| `ActionEngine.MarkFrom` | runtime/action.c:2009-2023 | from an index on every element that is not discarded has the state; the others are as before |
| `ActionEngine.Engine.ProcessBatchMain` | runtime/action.c:2036-2086 | main result: every element ends as the result that processMsgMain entered in the log for its message says, up to the first element whose result is a disable; it and all later ones are then committed, as is the whole batch of an action disabled at the start; otherwise the commit ends as Commit says over exactly the processed messages, a forced termination of a transactional one leaves the batch ready, and without transactions the module was given exactly the messages reported as taken; discarded elements never change |
| `WorkerTable.FullMeansNoFree` | runtime/action.c:1138-1141 | the count equals the table size exactly when no slot is free |
| `WorkerTable.UsedCountsLive` | runtime/action.c:1127-1153 | the count is the number of workers in the table |
| `WorkerTable.Table.Register` | runtime/action.c:1137-1153 | a new worker goes into an in-range slot that was free or is new, the others stay, and the count stays right; a failed allocation changes nothing |
| `WorkerTable.Table.Remove` | runtime/action.c:2095-2105 | removing a worker keeps the count right if and only if the worker was registered, and then takes out just that worker |
| `CounterSpec.Bounded` | runtime/dynstats.c:1048-1050 | over every run of increments and resets the number of metrics stays within the cardinality |
| `CounterSpec.PerMetric` | runtime/dynstats.c:296-355 | over every run in which its own increments were not refused a metric is there exactly if it was incremented within the last two resets, with every increment since it was last absent counted, whatever happens to other metrics |
| `Dynstats.Bucket.Sizes` | runtime/dynstats.c:1030-1152 | metricCount is the number of live and surviving metrics |
| `Dynstats.Bucket.Unlink` | runtime/dynstats.c:1069-1077 | the survivor list without the counter is linked both ways |
| `Dynstats.Bucket.Relink` | runtime/dynstats.c:1131-1141 | the rollback links the counter back to where it was |
| `Dynstats.Bucket.Reset` | runtime/dynstats.c:297-355 | the abstract map drops survivors and ages the rest; metricCount loses the freed counters, which no list or table refers to any more |
| `Dynstats.Bucket.Create` | runtime/dynstats.c:1063-1099 | a new metric appears with its value, or a failed AddPreCreatedCtr leaves tables, lists and map as they were |
| `Dynstats.Bucket.Revive` | runtime/dynstats.c:1066-1141 | a survivor continues with its old value, or a failed AddPreCreatedCtr restores tables, list links and values exactly |
| `Dynstats.Bucket.AddNewCtr` | runtime/dynstats.c:1030-1152 | succeeds exactly below the cardinality with the counter accepted, adding to the abstract map; a failure changes nothing |
| `Dynstats.Bucket.Inc` | runtime/dynstats.c:1187-1212 | main result: an increment adds one to the abstract map and makes the metric live, or is refused exactly when the map is full, the counter is refused or the lock is busy, and then changes nothing |
| `FileWriteQueue.WorkQueue.Enqueue` | runtime/dynstats.c:1362-1425 | a bucket already queued gets its content replaced, another one is appended; size stays the queue length and buckets stay distinct |
| `FileWriteQueue.WorkQueue.Take` | runtime/dynstats.c:1307-1312 | the writer takes the oldest task, if any |
| `FileWriteQueue.PutQueued` | runtime/dynstats.c:1376-1390 | after an enqueue its content is the only one waiting for its bucket; other buckets are not touched |
| `FileWriteQueue.EveryRun` | runtime/dynstats.c:1276-1320 | over every interleaving of enqueuers and the writer there is at most one task per bucket, and what was written, is held and is queued for a bucket is in enqueued order up to the latest |
| `FileWriteQueue.WrittenInOrder` | runtime/dynstats.c:1276-1320 | contents written for a bucket are an in-order subsequence of those enqueued |
| `FileWriteQueue.DrainedIsUpToDate` | runtime/dynstats.c:1276-1320 | after a drain the last content written for a bucket is the last one enqueued for it |

## Left out

- Expression trees and statement lists are values here; the original rewrites nodes in place. A node that the original
  frees while a parent still refers to it is the constructor `Freed`.
- Optimizer.OptimizePri: decodeSyslogName is a parameter; a numeric facility name of 208 or more, for which the original makes no mask node, reads as an entry no message has, and a severity code of 32 or more is shifted out of the byte.
- 64-bit overflow of script arithmetic, of counters and of the file sizes; script numbers and counters are unbounded.
- Regex, JSON, template, lookup-table, getenv and time functions of the script language: function nodes are opaque.
- The shutdown test inside scriptExec and the nesting limit of ruleset calls: a call is a given function of the message.
- OptimizerSound.OptimizedRunsAsWritten: holds for expressions that meet `Safe`; the mask rewrites, dropped operands, unsorted arguments and number-against-array cases outside it are the ones shown to change meaning (except argument arrays with repeats that are unsorted and still searched rightly), and that folding reads numerals as evaluation does is assumed for the strings present.
- Timestamp3339.ParseFormat: years 0 to 2099, as the printer's four digits allow; RFC 3164 timestamps are not modelled.
- Script.ValidLib: es_strcmp belongs to a library outside the repository; it is assumed to be a total order on texts that places "invld" behind every numeral, as a comparison by bytes does.
- getOrdinal, getWeek and getISOWeek, which use the weekday.
- PriFilter.DecodePRIFilter: numeric facilities of 208 and above, for which the array index of the original is out of range, are excluded by `ValidNames`; priorities of 32 and above, for which the shift of the original is undefined, are shifted out of the byte; the name tables are a parameter.
- External state files, output rate limiting, error-file writing, suspension reporting and statistics of actions: I/O.
- Creation of the worker's module instance within the engine: the instance exists.
- ActionEngine.Engine.DoRetry: terminates because the environment requests shutdown at its horizon; the horizon is arbitrary, so every finite run is covered, but a run that never ends is not. The retry count is cleared as soon as the action is ready, where the original clears it after the loop.
- ActionEngine.Engine.Commit: the retry loop's termination rests on the same horizon; the original does not bound it under repeated data failures.
- ActionEngine.Engine.Split: the parameters of a message are one value, so the multiplication by the number of templates in the copies is not modelled.
- Several workers sharing one action: only the disable flag is shared; the retry time belongs to the worker modelled.
- Dynstats.Bucket.AddNewCtr: allocations succeed, except for the explicit AddPreCreatedCtr failure; the locks make each operation atomic.
- Persistence of buckets, JSON state files and the statistics counters of dynstats.c.
- FileWriteQueue.DrainedIsUpToDate: a worker told to terminate may leave tasks in the queue, which are then discarded; the lemma is about a drained queue.
- Hash table internals, qsort and bsearch: maps, and a verified sort and search as an instance of what is assumed.
