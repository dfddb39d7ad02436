# Kernel support library: a verified model

A Dafny model of the support library of a small teaching kernel: its skew heap, formatter,
string-to-number conversion, random generator, hash, circular lists, bit operations and line
editor. Code that rewrites links, buffers or counters in place is modelled by methods that do
the same; each is proved to compute a function on values, and the laws are proved about those
functions. The lab7 copies are the ones modelled (the line editor is in lab3); the other labs
carry the same code for these parts.

| file | what it models |
|---|---|
| `SkewTree.dfy`, `SkewCost.dfy`, `SkewHeap.dfy` | the skew heap as a tree, its amortised cost and whole runs, and the linked entries that refine it |
| `Rand.dfy`, `Hash.dfy` | the 48-bit linear congruential generator and the multiplicative hash |
| `PowersOfTwo.dfy`, `Modulo.dfy` | the arithmetic both rest on |
| `RingWorld.dfy`, `List.dfy` | disjoint circular lists as values, and the linked entries that refine them |
| `CString.dfy`, `Numeral.dfy`, `Wrappers.dfy` | NUL-terminated strings, positional notation, optional values |
| `Format.dfy`, `FormatLaws.dfy`, `Printf.dfy` | what a format string means, the layout laws, and the formatting loop with its bounded buffer |
| `NumberLaws.dfy`, `OutputLaws.dfy` | number directives against the standard, and what any sequence of text and escapes prints |
| `StrTol.dfy`, `RoundTrip.dfy` | number parsing, and parsing what was printed |
| `Strings.dfy` | string comparison and overlapping copies |
| `Atomic.dfy` | bit operations under any interleaving of threads |
| `ReadLine.dfy` | the line editor |

`dafny verify dfyconfig.toml` checks everything.

## How to read it

* **Heap.** A comparator is any function of two entries; only the answer -1 is looked at. What a
  caller owes is that "less" is a strict weak order on the entries in play. A run gives every
  operation its own comparator, so keys may change from one operation to the next, as long as
  no two entries in the heap change places in the order (`SkewCost.Steady`). The cost bound
  needs none of this. The bound proved, `4 * m * bitlength(N)` for `m` operations and at most `N`
  entries, counts merge calls with two non-empty arguments.
* **Lists.** A world is a set of rings; each operation of `List` takes the world as a ghost
  argument and leaves the links of the world that `RingWorld.Apply` gives.
* **Formatter.** `Format.Pieces` parses a format, `Format.EmitAll` gives its text. `None` stands for
  a call that C leaves undefined: a missing or mismatched argument, a width above what an int
  holds, `%d` of the smallest long long, `%e` of the smallest int. `Printf.VPrintFmt` runs the loop
  with its backwards step.
* **Reading numbers.** `StrTol.Parse` is the number on paper, `StrTol.Returned` what strtol gives
  back: `None` where the number does not fit the long it is added up in, which C leaves undefined.
  A printed number reads back when `Returned` is that number, up to the terminator.
* **Interleavings.** One atomic memory operation is one step, as in section 8.4 of the RISC-V
  Unprivileged ISA, so an interleaving is a sequence of events.

## Where code and documentation disagree

The model follows the code.

* `rand` is documented to return values in [0, RAND_MAX]. `do_div` does not parenthesise its
  divisor, so the remainder is taken by RAND_MAX and 1 is added: the values are exactly
  1 .. RAND_MAX (`Rand.OutputsExactly`), and no call returns the remainder that it spells out
  (`Rand.NeverAsWritten`).
* `printnum` is documented for base 1, where its recursion ends for zero only
  (`NumberLaws.RecursionEnds`); `Printf.PrintNum` takes base 1 for zero and any number in bases 2 to 16.
* The comment above the error table says a field width is supported for numbers only; `%s` has one
  too (`FormatLaws.StringFieldLayout`).
* `strtol` is documented to accept the prefix `0X` in base 16; it accepts `0x` only. It reads a text as
  documented if and only if no `0X` follows the blanks and the sign in base 16
  (`StrTol.ReadsAsDocumented`); otherwise it reads just the zero (`StrTol.CapitalPrefix`).
* The flag `-` is commented as one to pad on the right. For numbers it does not: a number is on the
  left of its field if and only if its digits fill it (`NumberLaws.MinusFlagNotLeft`); otherwise it is
  padded with minus signs (`NumberLaws.MinusFlagLooksNegative`).

The formatter also departs from section 7.21.6.1 of ISO/IEC 9899:2011.

* A precision of zero is read as flags `0`, and a dot without a number sets no precision: the precision
  is the one meant if and only if it is neither (`FormatLaws.PrecisionAsMeant`), and `%.0s` and `%.s`
  print the whole string (`FormatLaws.ZeroPrecisionPlain`). Leading zeros of a precision change the
  padding.
* The sign of a number does not count in the width (`NumberLaws.LeadOutsideWidth`); its precision and
  the flag `#` are ignored (`NumberLaws.PrecisionIgnored`). `NumberLaws.DirectiveAsStandard` says
  of every number directive, given its settings, exactly when it prints what the section asks for.

Hence a printed number does not always read back; `RoundTrip.NumberRoundTrip`,
`RoundTrip.SignedRoundTrip` and `RoundTrip.PointerRoundTrip` say exactly when it does, and
`RoundTrip.DirectiveRoundTrip` says it of every format that is one number directive.

## Model

| member | source | states |
|---|---|---|
| SkewTree.MergeConserves | lab7/libs/skew_heap.h:29-59 | merging neither loses nor duplicates an element |
| SkewTree.MergeNodes | lab7/libs/skew_heap.h:29-59 | merging two disjoint heaps gives one over exactly the union of their entries, each once |
| SkewTree.MergeOrdered | lab7/libs/skew_heap.h:37-58 | merging keeps the heap order under any comparator whose -1 is asymmetric, transitive or not |
| SkewTree.RootIsMinimal | lab7/libs/skew_heap.h:29-59 | the root of an ordered heap is at most every element |
| SkewTree.RemoveNodes | lab7/libs/skew_heap.h:69-85 | removing an arbitrary element takes out that element and nothing else |
| SkewTree.RemoveOrdered | lab7/libs/skew_heap.h:69-85 | removing an arbitrary element keeps the heap order, also above the removed one |
| SkewTree.DrainConserves | lab7/libs/skew_heap.h:69-85 | removing the root until nothing is left yields every element, each as often as it was there, whatever the comparator |
| SkewTree.DrainSorts | lab7/libs/skew_heap.h:69-85 | under an ordering comparator that is a sorted permutation of the elements |
| SkewCost.MergeCost | lab7/libs/skew_heap.h:29-59 | steps plus new potential are at most the old potentials plus twice the ranks of both heaps |
| SkewCost.MergeWeaves | lab7/libs/skew_heap.h:29-59 | a merge puts the two right spines on the left spine of the result, the smaller head first and the second heap first at a tie, one element a step |
| SkewCost.InsertCost | lab7/libs/skew_heap.h:61-67 | an insert costs, amortised, at most four times the rank of the new heap |
| SkewCost.RemoveCost | lab7/libs/skew_heap.h:69-85 | removing any element costs, amortised, at most four times the rank of the heap, including the ancestors that turn heavy |
| SkewCost.InsertTop | lab7/libs/skew_heap.h:61-67 | an inserted entry is on top unless the old root is less; at a tie it is |
| SkewCost.DeleteTop | lab7/libs/skew_heap.h:69-85 | after the root is removed its right child is on top unless the left one is less |
| SkewCost.RunContent | lab7/libs/skew_heap.h:61-85 | after any legal run the heap holds exactly what was inserted and not removed since |
| SkewCost.RunIsPriorityQueue | lab7/libs/skew_heap.h:61-85 | after any legal run, each operation with its own comparator, the heap is ordered and its root is a minimum of the live elements by the order in force |
| SkewCost.FixedIsSteady | lab7/libs/skew_heap.h:61-85 | one comparator that orders all entries involved is enough for the laws about runs |
| SkewCost.RunThenDrain | lab7/libs/skew_heap.h:61-85 | after any such run, taking out roots yields the live elements sorted by the order in force, each once |
| SkewCost.AmortisedBound | lab7/libs/skew_heap.h:29-85 | m inserts and arbitrary removals on at most N elements take at most 4 m bitlength(N) merge steps, whatever the comparators |
| SkewCost.BitLengthIs | lab7/libs/skew_heap.h:29-85 | the bitlength in the bound is the number of binary digits |
| SkewCost.PeakReached | lab7/libs/skew_heap.h:61-85 | the N in the bound is the size of the heap at some point of the run |
| SkewHeap.Init | lab7/libs/skew_heap.h:23-27 | an initialised entry is a heap by itself |
| SkewHeap.Graft | lab7/libs/skew_heap.h:42-44 | the links of the winning root after its children are swapped in, its own parent link untouched |
| SkewHeap.Merge | lab7/libs/skew_heap.h:29-59 | the destructive merge links exactly the tree of the functional merge, leaves the root's parent link alone, writes only entries of the two heaps, and takes the counted steps |
| SkewHeap.Insert | lab7/libs/skew_heap.h:61-67 | inserting links the functional result, with a root without parent |
| SkewHeap.Split | lab7/libs/skew_heap.h:77-82 | a linked heap comes apart at any member into a linked subtree and intact links around it; the member's parent link is its tree parent |
| SkewHeap.Plug | lab7/libs/skew_heap.h:77-82 | any linked tree with the same root fits back into the links around it |
| SkewHeap.Redirect | lab7/libs/skew_heap.h:77-82 | the test of the parent's left link finds the right place, and the whole is linked with the replacement in place of the removed subtree |
| SkewHeap.MergeBelow | lab7/libs/skew_heap.h:73-75 | the two subtrees of the removed entry are merged under its parent |
| SkewHeap.Remove | lab7/libs/skew_heap.h:69-85 | removing any member, root or interior, links the functional result with a root without parent and leaves the removed entry's own links as they were |
| SkewHeap.Run | lab7/libs/skew_heap.h:61-85 | any legal run on linked entries, each call with its own comparator, holds the live ones, has a minimum by the order in force as root, and stays within the amortised bound |
| SkewHeap.DrainAll | lab7/libs/skew_heap.h:69-85 | removing the root of a linked heap until it is empty gives out its entries in the order of the functional drain |
| SkewHeap.RunAndDrain | lab7/libs/skew_heap.h:61-85 | a client that runs any legal operations and then takes out roots gets exactly the live entries, each once, sorted by the order in force |
| Rand.Generator.Rand | lab7/libs/rand.c:11-16 | one call moves to 0x5DEECE66D times the state plus 0xB modulo 2^48, and returns the bits above the low twelve modulo 2^31 - 1, plus 1 |
| Rand.NextRecurs | lab7/libs/rand.c:13 | the next state is congruent to the recurrence modulo 2^48 and below 2^48 |
| Rand.OutputDraws | lab7/libs/riscv.h:235-241 | the value returned is the only one from 1 to 2^31 - 1 that is 1 more than the remainder of the bits above the low twelve |
| Rand.Generator.Seed | lab7/libs/rand.c:22-25 | seeding sets the state, which stays below 2^48 |
| Rand.GeometricValuation | lab7/libs/rand.c:13 | 1 + a + ... + a^(n-1) has as many factors two as n, for a = 1 modulo 4 |
| Rand.AfterIsReduced | lab7/libs/rand.c:11-16 | the 64-bit overflow and the mask together reduce the exact recurrence modulo 2^48 |
| Rand.LowBitsPeriod | lab7/libs/rand.c:11-16 | the low k bits return to their start after exactly the multiples of 2^k calls, from any state, for every k up to 48 |
| Rand.FullPeriod | lab7/libs/rand.c:11-16 | the state returns after exactly the multiples of 2^48 calls |
| Rand.VisitsEveryStateOnce | lab7/libs/rand.c:11-16 | one period visits every state below 2^48, and none twice |
| Rand.OutputsExactly | lab7/libs/riscv.h:235-241 | from any state the values ever returned are exactly 1 .. RAND_MAX |
| Rand.NeverAsWritten | lab7/libs/rand.c:14-15 | what rand returns is never the remainder by RAND_MAX + 1 of the bits above the low twelve |
| Hash.TimesInverse | lab7/libs/hash.c:15 | multiplication modulo m is undone by multiplication by an inverse |
| Hash.HashInRange | lab7/libs/hash.c:13-17 | a hash value has at most the requested bits |
| Hash.HashOfProduct | lab7/libs/hash.c:13-17 | the product with 0x9e370001 is a multiple of 2^32, the hash in its place, and what is shifted out |
| Hash.PerfectlyBalanced | lab7/libs/hash.c:13-17 | each of the 2^bits values is the hash of exactly 2^(32-bits) words |
| RingWorld.ApplyApart | lab7/libs/list.h:40-158 | every operation keeps the rings disjoint and free of repeats, and adds or drops at most its own entry |
| RingWorld.InsertThenDelete | lab7/libs/list.h:66-94 | deleting an entry just inserted, before or after any member, restores every other ring; an initialised entry, a ring by itself before, is then in none |
| RingWorld.Transfer | lab7/libs/list.h:66-106 | delete-and-initialise followed by an insert after or before a member of another ring moves exactly that entry and keeps the order of all others |
| RingWorld.FifoRun | lab7/libs/list.h:66-69 | adding before the head and taking behind it is a queue: over any run, taken plus left equals there plus added, in order |
| RingWorld.LifoRun | lab7/libs/list.h:79-82 | adding after the head and taking behind it is a stack: any run, with puts and takes in any order and takes from an empty list, gives out and leaves just what a stack does |
| RingWorld.PutsThenTakes | lab7/libs/list.h:79-94 | entries put in one after the other and taken out come back reversed and leave the list as before |
| List.Init | lab7/libs/list.h:40-43 | an initialised entry is a ring by itself; other rings keep their links |
| List.AddBetween | lab7/libs/list.h:141-146 | inserting between neighbours gives one ring with the entry between them |
| List.DelBetween | lab7/libs/list.h:154-158 | joining the neighbours gives one ring without the entry, or leaves a lone entry linked to itself |
| List.AddAfter | lab7/libs/list.h:53-56 | list_add and list_add_after put the entry behind the given one; all rings are linked as computed |
| List.AddBefore | lab7/libs/list.h:66-69 | the entry is put before the given one; all rings are linked as computed |
| List.Del | lab7/libs/list.h:91-94 | the entry is out of its ring, its own links unchanged |
| List.DelInit | lab7/libs/list.h:102-106 | the entry is out of its ring and a ring by itself |
| List.Empty | lab7/libs/list.h:112-115 | true exactly when the entry is alone in its ring |
| List.Next | lab7/libs/list.h:120-123 | the cyclic successor in the entry's ring |
| List.Prev | lab7/libs/list.h:130-133 | the cyclic predecessor in the entry's ring |
| List.SingleCycle | lab7/libs/list.h:117-123 | following next k times advances k places modulo the size, so a ring is one cycle through all its members |
| List.Run | lab7/libs/list.h:40-158 | any legal run over any number of rings leaves all links as computed on values |
| List.ServeRun | lab7/libs/list.h:53-94 | linked entries used through a head as a queue or a stack are given out, and left in the list, just as by one, over any run of calls |
| Numeral.DigitsDenote | lab7/libs/printfmt.c:39-61 | the digits printed denote the number and have no leading zero |
| Numeral.DigitsUnique | lab7/libs/printfmt.c:39-61 | no other numeral denotes the number |
| Numeral.DigitsSmall | lab7/libs/printfmt.c:55 | letters among the digits are small |
| Format.PiecesWritten | lab7/libs/printfmt.c:132-285 | the parse of a format accounts for every character, in order |
| Format.PiecesRead | lab7/libs/printfmt.c:132-285 | a format written from well-formed pieces is read as those pieces |
| Format.PiecesWellFormed | lab7/libs/printfmt.c:132-285 | every format parses into well-formed pieces, so formats and such lists of pieces correspond one to one |
| OutputLaws.EscapeSource | lab7/libs/printfmt.c:145-190 | the characters of an escape: one for each flag, decimal or star counts, the dot, and an l for each size step |
| OutputLaws.PartsPrinted | lab7/libs/printfmt.c:125-285 | any sequence of text, %%, conversions and unrecognised escapes prints in order its text, a percent sign, the conversion of the next argument, and itself; every escape takes just its own arguments |
| OutputLaws.ConversionDefined | lab7/libs/printfmt.c:192-270 | a conversion is defined for every word but the smallest %d and %e, for a string under %s, and for the null pointer |
| OutputLaws.CharPrinted | lab7/libs/printfmt.c:192-195 | %c prints the low byte of its argument |
| OutputLaws.StringPrinted | lab7/libs/printfmt.c:212-232 | every character of a %s field: padding, the text cut to the precision, a question mark for what is not printable under #, blanks |
| OutputLaws.NullPrinted | lab7/libs/printfmt.c:213-215 | a null pointer is printed as the text (null) would be |
| OutputLaws.ErrorPrinted | lab7/libs/printfmt.c:17-28 | an error code of either sign is printed as its message, one without a message as its number |
| FormatLaws.NumberFieldLayout | lab7/libs/printfmt.c:39-61 | a number field is exactly the numeral behind max(0, width - digits) pad characters, for any width |
| FormatLaws.StringFieldLayout | lab7/libs/printfmt.c:212-232 | a string field has length max(width, n), shows the first n characters, and is padded on the left, or with blanks on the right under '-' |
| FormatLaws.PlainFlags | lab7/libs/printfmt.c:145-190 | flags without numbers, in any order, only choose padding, size and form; the last of '-' and '0' wins |
| FormatLaws.UsualEscape | lab7/libs/printfmt.c:145-190 | any escape in the order flags, width, precision, size - width and precision left out, in decimal or by star, a precision with any leading zeros - settles as said, and takes just the arguments of its stars |
| FormatLaws.UsualDirective | lab7/libs/printfmt.c:140-270 | a format that is one such escape puts the conversion of its argument under those settings |
| FormatLaws.TwoNumbers | lab7/libs/printfmt.c:158-184 | of two numbers without a dot the second is the precision, or the width when the first was a negative argument |
| FormatLaws.PrecisionAsMeant | lab7/libs/printfmt.c:153-184 | the precision in force is the one meant if and only if it is not a written zero or a dot alone; the padding is the one of the flags if and only if the precision has no leading zero or they ask for zeros |
| FormatLaws.ZeroPrecisionShowsAll | lab7/libs/printfmt.c:153-232 | with such a precision the field of %s shows the whole string, for any flags and width |
| FormatLaws.ZeroPrecisionPlain | lab7/libs/printfmt.c:153-232 | %.0s and %.s print the string as it is |
| NumberLaws.NumberPrinted | lab7/libs/printfmt.c:68-96 | the output of any number directive in full: sign or 0x, padding, and the numeral of the number the low 32 bits of the argument, or all of them under a size flag, stand for |
| NumberLaws.NegativeAsUnsigned | lab7/libs/printfmt.c:68-78 | a negative int comes out of %u, %o and %x as 2^32 more |
| NumberLaws.DirectiveAsStandard | lab7/libs/printfmt.c:140-270 | any single number directive prints what section 7.21.6.1 asks for, given its settings, if and only if its digits fill the field or it is unsigned and padded with blanks or zeros, its precision adds no digit that the padding does not, and the flag # likewise |
| NumberLaws.LeadOutsideWidth | lab7/libs/printfmt.c:234-270 | the output of a number directive has the length asked for if and only if no sign or 0x stands in front or the digits fill the width |
| NumberLaws.PrecisionIgnored | lab7/libs/printfmt.c:234-270 | number directives that differ in the precision and the flag # alone print the same |
| NumberLaws.MinusFlagNotLeft | lab7/libs/printfmt.c:147-150 | under the flag - a number of any conversion is on the left of its field, blanks behind it, if and only if its digits fill the width |
| NumberLaws.MinusFlagLooksNegative | lab7/libs/printfmt.c:147-150 | under the flag - a number of any conversion without a sign comes out with a minus sign in front if and only if it is narrower than its field, and as the digits behind a single minus sign when narrower by one place |
| NumberLaws.MinusFlagNegates | lab7/libs/printfmt.c:147-150 | a positive %d argument narrower by one place is printed under the flag - just as its negation is without it |
| NumberLaws.RecursionEnds | lab7/libs/printfmt.c:39-51 | the recursion of printnum reaches a number below the base if and only if the base is at least 2 or the number is zero |
| Printf.SprintBuf.constructor | lab7/libs/printfmt.c:339 | a fresh buffer has put nothing and keeps the last byte free |
| Printf.SprintBuf.Putch | lab7/libs/printfmt.c:299-305 | a character is counted always and stored while it fits; nothing behind is written |
| Printf.PrintNum | lab7/libs/printfmt.c:39-61 | puts the number field, with the width passed down the recursion, for every number and base for which the recursion ends |
| Printf.StrNLen | lab7/libs/string.c:33-40 | the length, capped at the bound |
| Printf.PrintBody | lab7/libs/printfmt.c:221-228 | puts the characters the precision admits, non-printables as '?' on request, and counts the width down |
| Printf.PrintString | lab7/libs/printfmt.c:212-232 | puts the string field for every width, precision and flag |
| Printf.PrintError | lab7/libs/printfmt.c:197-209 | puts the error text, or the number of an unknown error, through a nested call of the formatter |
| Printf.PrintSigned | lab7/libs/printfmt.c:234-242 | puts the sign before and outside the field of the magnitude |
| Printf.ConvertArg | lab7/libs/printfmt.c:192-270 | puts the conversion of one argument |
| Printf.CopyLiterals | lab7/libs/printfmt.c:132-138 | copies up to the next '%' or the terminator |
| Printf.ReadNumber | lab7/libs/printfmt.c:158-167 | reads the longest run of digits as a number |
| Printf.ReadFlag | lab7/libs/printfmt.c:145-190 | one turn of the switch applies one flag and goes back exactly for flags |
| Printf.ReadFlags | lab7/libs/printfmt.c:140-190 | the reswitch loop reads all flags of an escape and applies them in order |
| Printf.UnknownVerbatim | lab7/libs/printfmt.c:277-282 | an unrecognised or truncated escape stands for its own text |
| Printf.UnknownRewound | lab7/libs/printfmt.c:277-282 | printing '%' and scanning on behind it yields that text |
| Printf.Rewind | lab7/libs/printfmt.c:278-282 | moving backwards stops just behind the '%' of this escape |
| Printf.PrintEscape | lab7/libs/printfmt.c:140-283 | one escape puts its text, takes its arguments, and resumes strictly behind its '%' |
| Printf.VPrintFmt | lab7/libs/printfmt.c:125-285 | terminates on every format and puts exactly the text of its pieces |
| Printf.VSnprintf | lab7/libs/printfmt.c:337-348 | returns the full length; the buffer is the first min(length, size-1) characters, a NUL, and its old contents; no buffer or no room is an error |
| StrTol.SkipBlanks | lab7/libs/string.c:208-211 | skips all leading blanks |
| StrTol.SkipSign | lab7/libs/string.c:213-219 | skips one sign and tells whether it is a minus |
| StrTol.SkipPrefix | lab7/libs/string.c:221-230 | skips the base prefix and settles the base |
| StrTol.ScanDigits | lab7/libs/string.c:232-253 | reads the longest run of digits of the base as a number; no value on the way leaves the range of long when the number does not |
| StrTol.StrTol | lab7/libs/string.c:203-259 | the value and end position of the whole conversion, for every text and base whose number a long holds |
| StrTol.Reads | lab7/libs/string.c:203-259 | blanks, optional sign, optional prefix and digits are read as just that number, up to the first character that is no digit |
| StrTol.EveryTextHasParts | lab7/libs/string.c:203-259 | every text splits into blanks, sign, prefix, digits and rest as StrTol.Reads needs them, so that law covers every input |
| StrTol.CharacterRead | lab7/libs/string.c:236-244 | in every base up to 36, a digit, small letter or capital of the base is read as its value |
| StrTol.NothingRead | lab7/libs/string.c:208-247 | at a character that is no digit, letter, blank, tab or sign nothing is read |
| StrTol.BlanksSkipped | lab7/libs/string.c:208-211 | blanks and tabs in front only move the end |
| StrTol.CaseDoesNotMatter | lab7/libs/string.c:236-244 | texts that differ in the case of letters alone, the x of a prefix aside, are read alike |
| StrTol.CapitalPrefix | lab7/libs/string.c:208-230 | when 0X follows the blanks and the sign, in base 0 or 16, just the zero is read |
| StrTol.ReadsAsDocumented | lab7/libs/string.c:184-230 | a text is read as documented, 0X being a prefix in base 16, if and only if it is not base 16 with 0X behind blanks and sign |
| RoundTrip.NumberRoundTrip | lab7/libs/printfmt.c:39-61 | strtol gives back what printnum printed, for every base from 2 to 16, width and pad character, if and only if the number is below 2^63 and no padding passes for a sign |
| RoundTrip.CapitalsReadBack | lab7/libs/string.c:236-244 | a hexadecimal number below 2^63 reads back however the case of its letters is changed |
| RoundTrip.SignedRoundTrip | lab7/libs/printfmt.c:235-270 | a %d field reads back if and only if its magnitude is below 2^63 and its padding neither stands between sign and digits nor passes for a sign |
| RoundTrip.PointerRoundTrip | lab7/libs/printfmt.c:256-270 | a %p field reads back in base 0 or 16 if and only if the pointer is below 2^63 and the field is unpadded or padded with zeros |
| RoundTrip.DirectiveRoundTrip | lab7/libs/printfmt.c:140-270 | the output of any single %d, %u, %o, %x or %p directive, whatever its flags, width, precision and stars, reads back in its base if and only if the same conditions hold |
| RoundTrip.FormatAndRead | lab7/libs/printfmt.c:337-348 | vsnprintf into a buffer with room and strtol on that buffer give the number back, up to the NUL, under that condition |
| RoundTrip.LongRoundTrip | lab7/libs/printfmt.c:235-270 | every long above the minimum survives formatting with "%ld" and reading |
| Strings.StrCmp | lab7/libs/string.c:103-113 | the sign of the result is the lexicographic order, zero exactly for equal strings |
| Strings.StrNCmp | lab7/libs/string.c:126-132 | the same for the first n characters |
| Strings.FirstDifferenceDecides | lab7/libs/string.c:103-113 | strings that differ first in two characters are in the order of these |
| Strings.PrefixIsBefore | lab7/libs/string.c:103-113 | a string is before those that it only starts |
| Strings.BeforeTransitive | lab7/libs/string.c:103-113 | the order compared by is transitive and asymmetric |
| Strings.MemMove | lab7/libs/string.c:292-311 | for every overlap the destination holds the old source and every other byte is unchanged |
| Atomic.UpdateBits | lab7/libs/atomic.h:30-46 | or, and-not and xor with the mask change bit nr of the map and no other |
| Atomic.Operations | lab7/libs/atomic.h:42-73 | setting adds the bit, clearing drops it, changing does whichever applies and undoes itself |
| Atomic.BitsOfWords | lab7/libs/atomic.h:30-36 | the bitmap: bits 0 to 63 of the first word, lowest first, then those of the next words |
| Atomic.Amo | lab7/libs/atomic.h:33-107 | each operation changes just its bit as its kind says and reports the old one |
| Atomic.TestBit | lab7/libs/atomic.h:87-89 | the bit, for the bits of the first word |
| Atomic.Interleave | lab7/libs/atomic.h:33-107 | any interleaving on words is the same run on bits, every thread told what its event found |
| Atomic.OtherBitsDoNotMatter | lab7/libs/atomic.h:33-107 | a bit goes through any interleaving as if only its own events had taken place |
| Atomic.Conservation | lab7/libs/atomic.h:96-107 | successful sets less successful clears equal the change of the bit |
| Atomic.MutualExclusion | lab7/libs/atomic.h:96-107 | when only holders clear it, a test-and-set bit has at most one holder, and is set exactly while it has one |
| ReadLine.ReadLine | lab3/libs/readline.c:24-49 | the buffer holds the edited input up to the first newline and a NUL; effective keys are echoed; a negative key gives no line |
| ReadLine.ReadTyped | lab3/libs/readline.c:24-49 | printable keys up to a newline or carriage return are the line, character by character, the first 1023 of them, and are echoed |
| ReadLine.TypedText | lab3/libs/readline.c:35-39 | printable keys append their own characters until 1023 are held; just those are shown |
| ReadLine.ControlsIgnored | lab3/libs/readline.c:35-48 | other keys neither change the line nor are shown |
| ReadLine.EchoReplays | lab3/libs/readline.c:35-42 | the echo, fed to the editor again, gives the same line |
| ReadLine.EchoIsEffective | lab3/libs/readline.c:35-42 | every key that is echoed changed the line |
| ReadLine.EraseUndoes | lab3/libs/readline.c:35-42 | as many backspaces as characters that fitted leave the line as it was |
| ReadLine.LineFits | lab3/libs/readline.c:35-42 | no input overfills the buffer, and only printable characters stay in the line |

## Left out

- Printf.VPrintFmt: widths, precisions and the countdown of a width are unbounded integers after they are read, so signed overflow of a width near the limits of int is not modelled.
- Printf.VSnprintf: the count is unbounded, so an output longer than an int can count is not modelled; snprintf and printfmt only wrap it for variable arguments.
- Printf.SprintBuf.Putch: stands for every putch function; the text put is recorded, and only the buffer sink stores it. Characters are bytes; an int put by `%c` is reduced to its low byte.
- StrTol.StrTol: an overflowing result is undefined in C and excluded by the precondition.
- SkewHeap.Merge: the comparator is a fixed function during one operation; it does not read links.
- Atomic.Amo: a machine word is the sequence of its bits; memory ordering beyond the atomicity of one operation is not modelled.
- ReadLine.ReadLine: the prompt is not printed, and input that ends is a negative key.
- `%p` and `%x` of a pointer to a string: its address is not part of the model.
- strlen, strcpy, strncpy, strchr, strfind, memset, memcpy, memcmp and the rounding macros: true but easy.
- SBI calls, CSR access, inline assembly and instruction encodings; user programs; host tools; headers that only declare.
