# jmprof, verified

jmprof is a memory profiler. A preloaded library hooks `malloc`, `calloc` and `free`
(`src/preload.c`), unwinds the stack of each call (`src/backtrace.c`) and writes one line
per event and per frame (`src/tracker.c`) with an allocation-free formatter
(`src/printf.c`). A second program reads the lines back, keeps an entry per allocation in
a hash table (`src/external/uthash.h`) and reports what was never freed
(`src/interpret.c`).

This project models those parts in Dafny and proves what they are for. Run
`dafny verify dfyconfig.toml`.

## The hash table

`Handles` declares the element, with its embedded handle, and the table as classes, with
the pointers and counters of the source. `HashState` says what a table is as a value: the
insertion order, the chain of every bucket, the numbers that steer expansion. `Buckets`,
`InsertionList`, `ListSort` and `Uthash` are the macros as methods that rewrite the
pointers in place; each method's contract equates the new concrete state with the
operation on the value. What holds over runs is then proved about the values:

- `Runs`: every legal run keeps list and chains consistent, and lookup with unique keys
  is lookup in a map. `Uthash.Hash.Fsck` therefore always says `Sound`: no `HASH_OOPS`
  can be reached after any of these operations.
- `SortTheorems`: the bottom-up merge sort is a stable sort, equal to inserting the
  elements one by one in order.
- `Expansion`: when an add doubles the buckets, what doubling does to chains, multipliers
  and counters, when it is ineffective, and when it stops. Lengths, places in chains and
  hash values are all that these statements speak of.
- `Duplicates`: with equal keys, lookup finds the newest element exactly when an even
  number of expansions has happened since it was added, or when it is alone.

The hash function is any function of the key bytes.

## The formatter

`IntegerText` gives the text that `print_integer` leaves in its 32-byte buffer and, beside
it, the text of section 7.19.6.1 of ISO/IEC 9899:1999. `IntegerStandard` proves that they
are the same exactly when the field fits the buffer. `FormatText` is the meaning of a
format string, `FormatGrammar` proves that the parser recovers every directive from its
text, `FormatItems` that every format with a meaning is made of such texts. `Printf` is
the code: a gadget that counts past its limit, digit loops on an array, parsing loops,
`vsnprintf_`. `DecimalText` and `DecimalPrint` do the same for the digits of
`print_broken_up_decimal`, from integer components on, again exactly when they fit.

The modelled conversions depart from the standard in five places:

- A field of 33 characters and more may not fit the 32-byte buffer. `StandardText` reads
  the standard's field off the text of a directive, its flag characters, digits, length
  modifier and specifier, and shares nothing with the model of the code;
  `StandardDirective.StandardInteger` says exactly when the field printed is that one, and
  `FormatStandard.WideZerosAreCut` has one that is not.
- A negative argument for a `*` precision should count as an omitted precision but is
  taken as zero (`src/printf.c:1165-1168`). `FormatStandard.NegativePrecision` says
  exactly for which values, widths and flags the integer field is the standard's all the
  same, `FormatStandard.NegativePrecisionOfString` for which strings, and two lemmas give
  calls for which it is not.
- A buffer size above INT_MAX is taken as INT_MAX (`src/printf.c:363-366`), so that a text
  of INT_MAX characters loses its last one. `FormatStandard.Truncation` has the exact
  condition.
- `%lc` and `%ls` print as `%c` and `%s`: the length modifier is ignored
  (`src/printf.c:1392-1444`). The model does the same;
  the statements are about `%c` and `%s`.
- A string with a precision is scanned one character past it, and up to its NUL if the
  precision is zero (`src/printf.c:393-398`, `src/printf.c:1411-1444`): an array of three
  characters without a NUL may not be printed with `%.3s`. The model's strings end in a NUL
  and do not show this.

## The event log

`EventLog` is a step system: any number of threads, the allocator, the guard keys, the two
mutexes and the log. `ProgramCalls` reads the calls off the steps alone, each with the
size of its block and the frames on its stack, and proves that the hooks finish exactly
these, in the order in which the threads let go of the mutex. `LeakReport` is the reader's
fold over records, `Tracing` composes them. `LogText`, `Tracker`, `LineReader` and `LogFile` carry records through text: two
passes of the formatter on the way out, `fgets` and a small `sscanf` on the way in.
`ReaderState` is the reader as a value, for any log; `Interpreter` is
`jm_symbols_parse_log` and the report on the hash table of the first part, with the
counters and the cursor, and proves that it computes that value. `AddedTable` is the table
of a program that only adds, `Listing` what the report lists and when that is right.

`EndToEnd` joins them. `ProfilerIsRight` is about runs in which no address comes back: the
leaks read from the file are the addresses served and not freed, and each entry has the
size of its alloc and the frames of its alloc and then those of its free. `Profile` runs
the interpreter on the file of any run, reuse included: if every free and frame finds the
entry of the latest alloc of its address, the list has exactly one line for each address
served and not freed, with the number, the size and the frames of the call that allocated
it, and no other line. Calls and addresses are those of the steps of the run. Lookups do find these entries if no address comes back, or if there are
fewer than ten allocs, whatever the hash function.

Three limits of the code show in the theorems, and for each there is an input that meets
it. `CallRuns` shows that every sequence of calls a program may make has a run, and
`Counterexamples` uses it.

- A line comes out as intended exactly when it has at most 2046 characters
  (`Tracker.Tracker.Fprintf`): the size passed for the body leaves out one byte more than
  the NUL needs (`src/tracker.c:117-118`). The line of a long path has more
  (`Counterexamples.LongPathIsCut`).
- An alloc and its free may bring up to 62 frames, but the trace buffer of an entry holds
  32 and is not checked (`src/interpret.c:227-230`): the log is read without fault exactly
  when no entry gets more (`LeakReport.ReadDescribes`). A malloc and its free with 31
  frames each are too many (`Counterexamples.TraceOverflows`).
- A program that gets an address again has two entries for it: a free then clears that of
  the latest alloc exactly when the hash table has doubled an even number of times since,
  or when the entry is alone (`ReaderState.FreeClearsLatest`). With a hash function that
  does not spread the keys and ten allocs, an address that has been allocated and freed
  twice is still reported (`Counterexamples.FreedIsListed`).

## Model

| member | source | states |
|---|---|---|
| Handles.Table.constructor | src/external/uthash.h:215-245 | a new table has 32 empty buckets, zero counters and its head as tail |
| HashState.Initial | src/external/uthash.h:132-133 | the empty state has 2 to the log2 buckets and as many multipliers |
| Bits.ShiftMaskIsCeilDiv | src/external/uthash.h:829-833 | for a power of two, shift plus mask test is division rounded up |
| Bits.MaskIsMod | src/external/uthash.h:433-436 | masking with a power of two less one is the remainder |
| HashState.BucketOfDouble | src/external/uthash.h:853-857 | a bucket number after doubling, masked with the old size, is the old bucket number |
| HashState.SplitChainMembers | src/external/uthash.h:853-873 | a chain after doubling holds exactly the elements of its old chain that hash to it, each once |
| HashState.ExpandKeepsWf | src/external/uthash.h:836-886 | expansion keeps list and chains the same set, every element in its bucket |
| HashState.AddToTableKeepsWf | src/external/uthash.h:340-348 | entering an element in its chain, with the expansion it may trigger, keeps the structure |
| HashState.AddKeepsWf | src/external/uthash.h:399-418 | adding a new element keeps the structure |
| HashState.AddInOrderKeepsWf | src/external/uthash.h:353-384 | adding in order keeps the structure |
| HashState.DeleteKeepsWf | src/external/uthash.h:453-480 | deleting keeps the structure, down to the empty table |
| HashState.ReorderKeepsWf | src/external/uthash.h:893-975 | any permutation of the list keeps the structure |
| HashState.FindFinds | src/external/uthash.h:156-176 | lookup gives an element of the table with the key, and null exactly when there is none |
| HashState.ChainsCountItems | src/external/uthash.h:539-548 | the lengths of the chains add up to the number of items |
| Buckets.LinkFront | src/external/uthash.h:865-870 | an element goes in front of a chain, back link included |
| Buckets.CountElement | src/external/uthash.h:859-864 | one more element in a new bucket keeps count, multiplier and nonideal total what they are for the chain so far |
| Buckets.MoveElement | src/external/uthash.h:857-870 | one element of an old chain is counted and linked in its new chain |
| Buckets.MoveChain | src/external/uthash.h:854-872 | the inner loop moves a whole old chain, saving the next pointer before relinking |
| Buckets.MoveAllChains | src/external/uthash.h:853-873 | the outer loop turns the old chains into the split chains with their counts and multipliers |
| Buckets.ComputeIdeal | src/external/uthash.h:849-852 | the ideal length is computed for the doubled bucket count and the nonideal count cleared |
| Buckets.FinishExpansion | src/external/uthash.h:875-883 | sizes, bucket array, ineffective count and noexpand become those of the expanded state |
| Buckets.ExpandBuckets | src/external/uthash.h:836-886 | the table becomes the expanded value, with a fresh bucket array and no change to the list |
| Buckets.AddToBucket | src/external/uthash.h:770-789 | the element heads its chain; the buckets double exactly under the trigger |
| Buckets.DeleteInBucket | src/external/uthash.h:792-805 | the element leaves its chain, the others keep their order and links |
| Buckets.FindInBucket | src/external/uthash.h:748-767 | the first element of the chain with the key, or null; comparing hash values first loses nothing |
| InsertionList.AppendList | src/external/uthash.h:281-287 | the element becomes the last of the list and the tail |
| InsertionList.FindPosition | src/external/uthash.h:289-296 | the walk stops at the first element that compares greater, which is where ordered insertion puts the new one |
| InsertionList.InsertedBefore | src/external/uthash.h:369-377 | inserting in order puts the element before the first that compares greater |
| InsertionList.InsertBefore | src/external/uthash.h:370-377 | the element is spliced in before another, both directions linked |
| InsertionList.Unlink | src/external/uthash.h:467-474 | the element is spliced out, both directions linked |
| ListSort.SplitRun | src/external/uthash.h:909-919 | q ends up insize elements on, or at the end |
| ListSort.MergeStep | src/external/uthash.h:921-957 | one element is taken from the right run and put at the end of the output, next and prev both set |
| ListSort.MergeRuns | src/external/uthash.h:920-960 | the two runs are merged in place, ties from the left, next and prev both set |
| ListSort.MergePass | src/external/uthash.h:903-962 | one round merges all pairs of runs and counts the merges |
| ListSort.SortList | src/external/uthash.h:893-975 | the list becomes its merge sort, doubly linked, tail last, after max(1, ceil(log2 n)) rounds |
| Uthash.Hash.constructor | src/interpret.c:100 | an empty hash is a null head |
| Uthash.Hash.Find | src/external/uthash.h:168-176 | the result is lookup in the value |
| Uthash.Hash.Add | src/external/uthash.h:399-418 | the new concrete state is the old value with the element added |
| Uthash.Hash.AddInOrder | src/external/uthash.h:353-384 | the new concrete state is the old value with the element inserted in order |
| Uthash.Hash.Delete | src/external/uthash.h:453-480 | the new concrete state is the old value without the element; the last one takes the table with it |
| Uthash.Hash.Replace | src/external/uthash.h:257-272 | the element with the same key leaves and is returned, the new one is added |
| Uthash.Hash.Sort | src/external/uthash.h:893-975 | the list is sorted; chains, counts and table stay |
| Uthash.Hash.Fsck | src/external/uthash.h:519-566 | on every valid hash all checks pass: no HASH_OOPS is reached |
| Uthash.Hash.DeleteAll | src/external/uthash.h:1063-1065 | iterating with deletion visits every element once, in order, and leaves the hash empty |
| Uthash.FsckChain | src/external/uthash.h:527-543 | a consistent chain passes the check of its back links and count |
| Uthash.FsckList | src/external/uthash.h:549-564 | a consistent list passes the check of its back links and count |
| SortTheorems.MergeOfRuns | src/external/uthash.h:920-960 | merging two sorted runs is inserting the elements of both, one after the other |
| SortTheorems.PassDoublesRuns | src/external/uthash.h:902-972 | a pass turns sorted blocks of w into sorted blocks of 2w |
| SortTheorems.SortIsInsertion | src/external/uthash.h:893-975 | for a total preorder, sorting gives the list that insertion in order would have built |
| SortTheorems.SortIsStableSort | src/external/uthash.h:893-975 | for a total preorder, the result is ordered, a permutation, and keeps the order of ties |
| Runs.SortKeepsMembers | src/external/uthash.h:893-975 | sorting keeps the elements, whatever the comparison |
| Runs.RunKeepsWf | src/external/uthash.h:353-480 | every run of legal adds, ordered adds, replaces, deletes and sorts keeps the structure |
| Runs.ApplyRefinesMap | src/external/uthash.h:353-480 | each operation of a caller that keeps keys unique does to the table what it does to a map |
| Runs.RunRefinesMap | src/external/uthash.h:156-176 | after any such run, lookup is lookup in the map |
| Expansion.ExpandMultClosed | src/external/uthash.h:859-864 | the multiplier is 0 up to the ideal length I, else the lesser of count - I and ceil(count / I) |
| Expansion.CountWithinShare | src/external/uthash.h:859-864 | a count never exceeds (multiplier + 1) times I |
| Expansion.AfterExpansion | src/external/uthash.h:849-873 | after an expansion: I is ceil(items / buckets), multipliers as above, no bucket meets the trigger if I is at most 9, chain j is the reversed selection of old chain j masked |
| Expansion.ExpansionConserves | src/external/uthash.h:853-877 | expansion leaves the list alone and loses or duplicates no element |
| Expansion.AddExpands | src/external/uthash.h:780-782 | from a table that may expand, an add doubles the buckets if and only if the chain of its hash value, taken modulo the bucket count, has at least 10 * (multiplier + 1) - 1 elements |
| Expansion.ChainsStayShort | src/external/uthash.h:780-782 | over any run, until expansion stops and while the ideal length is at most 9, every chain has fewer than 10 * (multiplier + 1) elements |
| Expansion.ExpansionJudged | src/external/uthash.h:857-863 | the items counted as nonideal are those at a place of their chain beyond ceil(items / buckets); the expansion is ineffective if and only if they are more than half of the items |
| Expansion.BucketsAfterRun | src/external/uthash.h:875-883 | after any run there are 32 * 2^expansions buckets, ineff_expands counts the latest expansions whose states have more than half of the items nonideal, and noexpand is set exactly when two in a row have |
| Expansion.NoExpandStays | src/external/uthash.h:780-782 | once noexpand is set, an operation that does not free the table keeps it, the buckets and the history |
| Expansion.NoExpandOverRun | src/external/uthash.h:780-782 | once noexpand is set the bucket count stays, over any run until an operation frees the table |
| Duplicates.ExpandReverses | src/external/uthash.h:853-873 | an expansion reverses the order of the elements with any one key |
| Duplicates.RunKeepsNewest | src/external/uthash.h:748-767 | the newest element with a key is first or last among them, as the number of expansions is even or odd |
| Duplicates.NewestFound | src/interpret.c:197-217 | lookup returns the newest element with its key exactly when the number of expansions since is even, or it is the only one |
| IntegerTheorems.NumeralReadsBack | src/printf.c:542-549 | the digits of a value read back to it |
| IntegerTheorems.NoLeadingZero | src/printf.c:542-549 | the digits of a positive value do not start with zero |
| IntegerTheorems.NumeralFits | src/printf.c:542-549 | a 64-bit value has at most 22, 20 and 16 digits in bases 8, 10 and 16: the loop never meets its limit |
| IntegerTheorems.GeneratedReadsBack | src/printf.c:519-554 | the generated digits read back to the whole value, in base 2 to its low 32 bits |
| IntegerStandard.FieldIsStandard | src/printf.c:445-554 | the field is the text of section 7.19.6.1 if and only if it fits the 32-byte buffer |
| IntegerStandard.SmallFieldsAreStandard | src/printf.c:445-554 | precision up to 30, and width up to 32 under '0', always give the standard's text |
| IntegerStandard.HexPrefixed | src/printf.c:479-503 | two padding zeros, as far as there are any, give way to 0x |
| IntegerStandard.PointerText | src/printf.c:1446-1462 | the digits that %p prints of a pointer read back to it |
| FormatText.Directive | src/printf.c:1139-1246 | a directive ends within the format, at least two characters on: the loop makes progress |
| Printf.Gadget.Buffer | src/printf.c:353-374 | a buffer gadget holds nothing yet; its capacity is the size cut to INT_MAX, or 0 without a buffer |
| Printf.Gadget.Function | src/printf.c:376-383 | a function gadget takes up to INT_MAX characters |
| Printf.Gadget.PutChar | src/printf.c:321-334 | every character counts as emitted; the buffer or function has exactly those below the limit |
| Printf.Gadget.Terminate | src/printf.c:337-344 | the NUL stands after the text, or in place of the last character that fits |
| Printf.PutReversed | src/printf.c:416-441 | spaces, the buffer backwards, spaces, as flags and width say |
| Printf.PutDigits | src/printf.c:542-549 | the loop leaves the digits in the buffer, least significant first, at most 32 |
| Printf.PadZeros | src/printf.c:457-470 | zeros up to the width under '0', then up to the precision, within the buffer |
| Printf.PutPrefix | src/printf.c:479-503 | taking back zeros and pushing x, X or b and 0 gives the prefixed text |
| Printf.CompleteInteger | src/printf.c:445-513 | the finished buffer holds the text of the field without outer padding |
| Printf.PutInteger | src/printf.c:519-554 | emits the integer field of the model, which FieldIsStandard relates to the standard |
| Printf.CountChars | src/printf.c:393-398 | the length of the string, at most the limit |
| Printf.PutString | src/printf.c:1411-1444 | emits the string, cut to the precision and padded |
| Printf.PutCharacter | src/printf.c:1391-1409 | emits the character padded to the width |
| Printf.PutPointer | src/printf.c:1446-1462 | emits (nil) or the 18-column hexadecimal field |
| Printf.ScanFlags | src/printf.c:1089-1117 | the loop collects the flags and stops at the first other character |
| Printf.ScanNumber | src/printf.c:407-413 | the loop reads the number modulo 2^32 and stops after its digits |
| Printf.ScanDirective | src/printf.c:1139-1243 | flags, width, precision and length modifier are parsed as the model says, early ends included |
| Printf.FormatStringLoop | src/printf.c:1119-1497 | what is emitted is the meaning of the format, for every format and argument list that has one |
| Printf.VSNPrintf | src/printf.c:1500-1523 | the result is the length of the text as an int, whatever the size; the buffer is the terminated text |
| FormatGrammar.NumberIsModulo | src/printf.c:407-413 | atou_ gives the number that the digits spell, leading zeros included, modulo 2^32 |
| FormatGrammar.DecimalReadsBack | src/printf.c:407-413 | atou_ reads a printed 32-bit decimal back to itself |
| FormatGrammar.ConversionRead | src/printf.c:1139-1243 | parsing the text of a conversion gives its flags, width, precision and length modifier |
| FormatGrammar.DirectiveRead | src/printf.c:1139-1496 | the directive found at the text of a conversion is that conversion |
| FormatGrammar.RenderIsItems | src/printf.c:1119-1497 | the output of a format is the concatenation of its literals and fields, in order; numbers with leading zeros or beyond 32 bits and echoed specifiers included |
| FormatItems.ItemFound | src/printf.c:1139-1243 | what the loop finds at a percent sign is the text of one well-formed conversion |
| FormatItems.FormatHasItems | src/printf.c:1119-1497 | every format that has a meaning is the text of a list of items, up to its end or to a directive that it cuts short, and means what they mean |
| StandardDirective.FlagsSet | src/printf.c:1089-1119 | the left, plus, space, hash and zeropad flags are set exactly by '-', '+', ' ', '#' and '0' |
| StandardDirective.ConversionIsStandard | src/printf.c:1247-1359 | %d %i %u %o %x %X with any flags, width, precision and length modifier print the standard's field, as read off the text of the directive, if and only if it fits the buffer, or, for a negative precision argument, if and only if a precision of zero does no harm; width below 2^32 |
| StandardDirective.StandardInteger | src/printf.c:1139-1359 | the same wherever the text of such a directive stands in a format, for any arguments |
| StandardDirective.IntegerDirective | src/printf.c:1139-1359 | every directive of any format with one of these specifiers has such a text, and the same holds of it |
| StandardDirective.SignedReadsBack | src/printf.c:1303-1328 | %d with any length modifier prints every value of its type so that it reads back |
| StandardDirective.CharIsStandard | src/printf.c:1392-1409 | %c prints an unsigned char in its field if and only if the width is below 2^32 |
| StandardDirective.StringDirectiveIsStandard | src/printf.c:1411-1444 | %s prints the characters that the precision lets through, in their field; with a negative precision argument if and only if the string is all spaces and no longer than the width |
| StandardDirective.NullStringPrints | src/printf.c:1411-1415 | a null string prints as (null), padded with spaces unless '0' is given without '-' |
| StandardDirective.PointerPrints | src/printf.c:1446-1462 | %p without precision and sign flags: (nil), or 0x and lower-case hexadecimal digits, 16 with their zeros unless '-' is given, in 18 columns whatever the width |
| StandardDirective.OthersEcho | src/printf.c:1464-1494 | any other specifier that is modelled is put out itself, and takes no argument |
| StandardDirective.BinaryReadsBack | src/printf.c:1247-1359 | %b of a 32-bit value reads back in base 2 |
| StandardDirective.BinaryPrefixed | src/printf.c:479-503 | with '#' the digits of up to 30 bits follow 0b |
| StandardDirective.CutDirectivesStop | src/printf.c:1118-1126 | a format that ends after '%', '*', '.' or a length modifier ends the output |
| StandardText.WrappedIsTheOne | src/printf.c:1303-1328 | the value converted is the one in the range of its type that is congruent to the argument |
| FormatStandard.DirectiveFromLoop | src/printf.c:1158-1170 | parsing leaves the precision zero unless a period was read |
| FormatStandard.WideZerosAreCut | src/printf.c:445-476 | "%033d" with 1 prints a field that is not the standard's |
| FormatStandard.NegativeArgumentRead | src/printf.c:1160-1170 | parsing ".*" with a negative argument sets the precision flag and a precision of zero |
| FormatStandard.ZeroForOmitted | src/printf.c:1165-1168 | section 7.19.6.1: the field for precision zero is that for an omitted precision if and only if the value is not zero, or octal with '#', and zero padding is not needed |
| FormatStandard.NegativePrecision | src/printf.c:1165-1168 | the code's field for a negative precision argument is the standard's field with the precision omitted if and only if that condition holds |
| FormatStandard.NegativePrecisionPerforms | src/printf.c:1165-1168 | the same for whole directives with a '*' precision: any flags, width and length modifier |
| FormatStandard.NegativePrecisionLosesZero | src/printf.c:1165-1168 | "%.*d" with -1 and 0 prints nothing, where the standard asks for 0 |
| FormatStandard.NegativePrecisionOfString | src/printf.c:1165-1168 | for %s the code prints as if the string were empty: the standard's text if and only if the string is all spaces and no longer than the width |
| FormatStandard.NegativePrecisionLosesString | src/printf.c:1165-1168 | "%.*s" with -1 and "abc" prints nothing, where the standard asks for abc |
| FormatStandard.Truncation | src/printf.c:337-366 | section 7.19.6.5: for every size n > 0 the buffer has the first min(length, n - 1) characters and a NUL, and nothing else changes, if n <= INT_MAX or length < INT_MAX; for texts without NUL, only then |
| FormatStandard.ResultIsLength | src/printf.c:1510 | the returned int is the length exactly when that is at most INT_MAX |
| DecimalText.TrimDivides | src/printf.c:732-739 | skipping trailing zeros divides by a power of ten and leaves a last digit other than zero |
| DecimalText.UnsignedText | src/printf.c:726-769 | integral part, point and zero-filled places, as %f and %g with and without '#' show them, if and only if that text has at most 32 characters |
| DecimalText.DecimalReadsBack | src/printf.c:726-769 | the digits shown read back to integral * 10^precision + fractional, up to the zeros that %g leaves out |
| DecimalText.FieldIsJustified | src/printf.c:771-792 | sign, text and padding come in the standard's order if and only if they fit the buffer |
| DecimalPrint.PutBrokenUpDecimal | src/printf.c:719-793 | the loops emit the decimal field of the model, for any components and any start of the buffer |
| EventLog.CallsAreTracked | src/preload.c:139-146 | a thread that calls from the program has no guard set, so its call is tracked |
| EventLog.StepKeepsMutexes | src/backtrace.c:39-58 | each mutex has at most one holder, and only the holder is inside |
| EventLog.StepKeepsGroups | src/backtrace.c:44-55 | every step keeps the log a sequence of whole groups followed by the one under way |
| EventLog.RunIsNeverStuck | src/backtrace.c:39-58 | in every state that a run reaches with a thread inside a hook, some thread inside a hook can go on |
| ProgramCalls.CallsAreFinished | src/backtrace.c:39-58 | in every interleaving the calls finished are those read off the steps: hook and address of the latest request served to the thread with the size and frames at its entry, or what it frees, in the order in which unwind_mutex is let go |
| ProgramCalls.LogIsOfCalls | src/backtrace.c:39-58 | in every interleaving the event and frame records are those of these calls, whole and one after the other, and the first records of the call under way |
| ProgramCalls.OwnedIsKept | src/preload.c:134-212 | when all hooks have returned, the program owns what the steps have served and not freed |
| EventLog.EventsAlternate | src/preload.c:134-166 | in every interleaving the alloc and free events of an address alternate, alloc first, even under reuse |
| EventLog.OutstandingIsOwned | src/preload.c:200-212 | when all hooks have returned, the log leaves allocated exactly what the program owns |
| LeakReport.ReadDescribes | src/interpret.c:307-385 | a log whose events alternate without reuse is read without fault if and only if no trace exceeds 32 frames; then counts, total, cursor and every entry with its size and frames are as the log says |
| LeakReport.FaultsAreExact | src/interpret.c:318-351 | any log fails at the first frame before all events, frame too many for its entry, or free of an address never allocated, each with its own fault |
| LeakReport.OutstandingCount | src/interpret.c:318-351 | allocs less frees is the number of addresses still allocated |
| LeakReport.LeaksAreOutstanding | src/interpret.c:318-351 | the entries left leaking are exactly the addresses never freed, as many as allocs exceed frees; the total is the sum of the sizes |
| LeakReport.TraceOfTasks | src/interpret.c:328-336 | the cursor gives every frame to the event that produced it: a trace is the frames of the calls about the address, in order |
| Tracing.LogIsInOrder | src/backtrace.c:39-58 | the log of any run without failed requests has the events of each address in turn, reuse included, and frames only after events |
| Tracing.OutstandingIsKept | src/preload.c:200-212 | when all hooks have returned, the log leaves allocated exactly the addresses served and not freed |
| Tracing.LogTellsCalls | src/backtrace.c:39-58 | what the log says of an address, its events, latest size, frames and number, is what the calls about it were; counts and total are those of all calls |
| Tracing.CallsOfAddress | src/backtrace.c:39-58 | in such a run the calls about an address are none, an alloc, or an alloc and a free, its size is that of the alloc, and its trace the frames of the one followed by those of the other |
| Tracing.ReportIsRight | src/interpret.c:307-385 | whatever the interleaving, the log is read without fault if and only if the calls about each address have at most 32 frames; then the leaks are the addresses served and not freed, counts and total are those of the calls, and each entry has the size of its alloc and the frames of its alloc followed by those of its free |
| ReaderState.PtrKeyInjective | src/external/uthash.h:504-507 | 64-bit pointers have different keys |
| ReaderState.ReadingIsRun | src/interpret.c:318-326 | on any log the table is the result of adding one element per alloc, in order |
| ReaderState.CountersAreExact | src/interpret.c:318-351 | on any log that is read, with reuse or without, counts, total and cursor are those of the log |
| ReaderState.LatestFound | src/interpret.c:209-217 | on any log, lookup finds the entry of the latest alloc of an address if and only if the expansions since are even in number or the entry is alone |
| ReaderState.FreeClearsLatest | src/interpret.c:343-351 | on any log, a free clears one entry of its address and changes no other; it is that of the latest alloc under the same condition |
| ReaderState.ReadsAsFold | src/interpret.c:307-385 | on a log without reuse the reader is the fold of LeakReport, fault for fault and entry for entry |
| ReaderState.InTurnIsFollowable | src/interpret.c:307-385 | every log in turn with 64-bit addresses is one of those |
| AddedTable.TableFindsLatest | src/external/uthash.h:748-767 | of elements added with one key, lookup finds the last exactly when the expansions since are even in number or it is alone |
| AddedTable.FewNeverExpand | src/external/uthash.h:778-782 | fewer than ten elements never make the table expand, whatever the hash function |
| AddedTable.TenthExpands | src/external/uthash.h:778-782 | ten elements with one hash value make it expand once |
| Listing.LeaksInHas | src/interpret.c:153-159 | an entry is listed exactly when it leaks, under its place in the order of allocation, with its address, size and frames |
| Listing.ReadTells | src/interpret.c:307-385 | on any log in order, reuse included, if lookups find the latest entries: no fault if and only if the trace buffers suffice, and then the latest entry of an address leaks exactly if it is allocated, with its size and its frames since, and older entries do not leak |
| Listing.ReportIsExact | src/interpret.c:150-176 | under the same condition the list has exactly one line for each address still allocated, in the order of allocation, with the size and frames of its latest alloc, and no other |
| Listing.TameFindsLatest | src/interpret.c:209-217 | lookups find the latest entries if the table has not expanded or no address comes back |
| Listing.ListIsFold | src/interpret.c:150-176 | on logs without reuse the list has exactly the entries that leak in the fold |
| Interpreter.AddEntry | src/interpret.c:197-207 | a leaking entry with the size and no frames is added under its address |
| Interpreter.FindEntry | src/interpret.c:209-217 | null for NULL, else lookup under the address |
| Interpreter.Attach | src/interpret.c:227-230 | the frame is appended to the entry found, and to no other; none is a null dereference, 32 frames before it an overflow |
| Interpreter.Release | src/interpret.c:349 | the entry found stops leaking, and no other changes; none is a null dereference |
| Interpreter.ParseAlloc | src/interpret.c:318-326 | counters, cursor, table and entry after an alloc record, on any log |
| Interpreter.ParseFrame | src/interpret.c:328-336 | the assertion, the null dereference, the overflow or the frame appended, on any log |
| Interpreter.ParseFree | src/interpret.c:343-351 | counters, cursor and entry after a free record, on any log |
| Interpreter.ParseRecord | src/interpret.c:314-384 | one round of the loop is one step of the reader as a value |
| Interpreter.ParseLog | src/interpret.c:307-385 | for every log, counters, table and entries are those of the reader as a value, or the loop stops at the record where that fails, with its fault |
| Interpreter.WalkLeaks | src/interpret.c:150-176 | the walk shows the leaking entries in order of allocation, each with its number |
| Interpreter.Interpret | src/interpret.c:118-193 | for every log: exact counters, the leaking entries in order, and every entry deleted once, or the fault; without reuse, the summary and the fault of the fold; if lookups find the latest entries, no fault exactly when the trace buffers suffice, and then one line for each address still allocated |
| LogText.EntryPrints | src/backtrace.c:44-55 | each record format prints the record: opcode, 0x and hexadecimal address, size, path or end address |
| LogText.StampPrints | src/tracker.c:109-115 | the timestamp prints as its decimal digits and a space |
| Tracker.Tracker.Fprintf | src/tracker.c:96-128 | sizing pass and writing passes put out as many characters as the line has; it is the intended line if it has at most 2046, and otherwise a NUL follows the first 2046, so that a line without NULs is right only then |
| Tracker.Tracker.Write | src/tracker.c:162-191 | a record that fits is written as its line |
| LineReader.EventReads | src/interpret.c:289-305 | an alloc or free line gives back timestamp, opcode and address, and for an alloc the size, cut to LONG_MAX |
| LineReader.FrameReads | src/interpret.c:289-305 | a frame line gives back timestamp and address |
| LineReader.PathReads | src/interpret.c:289-305 | a module or executable line gives back timestamp, opcode and address; the path exactly if it has no white space |
| LineReader.RegionReads | src/interpret.c:367-377 | a region line gives back both addresses |
| LogFile.EntryReads | src/interpret.c:289-305 | the line of an alloc, free, frame or module gives back the record, but for the size of a free, and executable and region lines give none, whatever the paths contain |
| LogFile.FileGrows | src/tracker.c:122 | each line written makes the file that of one more entry |
| LogFile.LinesOfFile | src/interpret.c:314 | fgets finds exactly the lines that were written |
| LogFile.FileReadsBack | src/interpret.c:307-385 | the file gives the same summary as the records that were written |
| EndToEnd.ProfilerIsRight | src/interpret.c:307-385 | from any run of the hooks to a file with executable, module and region lines and back: no fault if and only if the calls about each address have at most 32 frames, and then the leaks are the addresses served and not freed, counts and total are those of the calls, and each entry has the size of its alloc and the frames of its alloc followed by those of its free |
| EndToEnd.Profile | src/interpret.c:118-193 | the interpreter on the file of any run, reuse included: if lookups find the latest entries, no fault if and only if no address gets more than 32 frames from one alloc to the next, and then exactly one line for each address served and not freed, with the number, size and frames of the call that allocated it; they do without reuse or below ten allocs |
| CallRuns.CallsCanRun | src/preload.c:134-212 | every sequence of calls that frees what is owned and allocates what is not is the history of a run, with any modules found on the way; it ends with all hooks returned and a log of just these calls and modules |
| CallRuns.HooksOverlap | src/backtrace.c:39-58 | calls of different threads overlap: one thread may write a module while another is in jm_backtrace_unwind |
| Counterexamples.TwoCallsOverflow | src/interpret.c:227-230 | a run of a malloc and its free, with fewer than 32 frames each: its log is read without fault if and only if the frames are at most 32 together |
| Counterexamples.TraceOverflows | src/interpret.c:227-230 | there is a run without failure or reuse whose log is not read without fault |
| Counterexamples.ReusingLogIsWritten | src/preload.c:134-212 | a log in which an address is allocated and freed twice, with ten allocs in all, is that of a run that ends without owning it |
| Counterexamples.FreedIsListed | src/interpret.c:343-351 | if the hash function is constant, reading that log ends without fault, and the report has a line for that address |
| Counterexamples.LongPathIsCut | src/tracker.c:96-128 | the module line of a path of 4095 characters does not fit the buffer |

## Left out

- Hash: `HASH_SELECT`, `HASH_CLEAR`, the replace macros in order, Bloom filters and the out-of-memory branches (both compiled out), and the concrete hash functions. The hash function is a parameter.
- The hash's 32-bit counters are unbounded: the model is exact while counts stay below 2^31.
- An element and its embedded handle are one object, so `ELMT_FROM_HH` has no counterpart; freeing memory is dropping the reference.
- Uthash.Hash.Replace: an element already in the table may only replace itself when lookup returns it, because otherwise the macro adds it twice.
- Printf: floating point from a double to its components, and `%n`; a format that uses them has no meaning in the model.
- Printf.FormatStringLoop: a format that ends right after flags, width or precision digits is excluded, because the loop reads past its end (`src/printf.c:1141-1146`, `src/printf.c:1491-1494`). Formats that end after '%', '*', '.' or a length modifier are included.
- StandardDirective.StringDirectiveIsStandard: says nothing of widths and precisions of 2^32 and more, of `%ls`, whose wide characters the code takes for bytes, nor of arrays without a NUL, which the code may scan one character too far.
- The position counter of the formatter is unbounded: outputs of 2^32 characters and more are not modelled.
- Tracker.Tracker.Fprintf: lines of 2^31 characters and more, whose length is no int, are excluded.
- FLAGS_ADAPT_EXP is a parameter of the decimal members instead of a flag.
- `realloc`: it logs an alloc without a free for the old address (`src/preload.c:168-198`), so alternation and leak reports are about malloc, calloc and free.
- EventLog.RunIsNeverStuck: is about hooks that let go of their mutexes; it leaves out that a `jm_tracker_update_mappings` that finds nothing to do returns with the mutex locked (`src/tracker.c:138-150`).
- EventLog: allocations made inside tracked sections; fork, initialisation and shutdown. Module records may appear at any point of a tracked allocation.
- The size of a call is what `malloc_usable_size` says of its block (`src/backtrace.c:42`), which is a parameter of the step.
- The program frees only addresses it owns, once, and `free(NULL)` is not logged.
- The reader's symbol lookup, the executable path, heap regions and timestamps of entries; the printing of the report.
- The capacity of 128 of the tables of heap regions in both programs.
- Lines of the log longer than 2046 characters and paths with a line end: `EndToEnd` is about files without them.
- Signs and saturation in `sscanf` and `strtol` beyond what the log's own lines contain.
- The reader's cursor, counters and entry table live in locals and parameters instead of the static summary.
- `src/perfmon.c`, libunwind, libdwfl, `/proc` scanning, the clock and the shell wrapper.
