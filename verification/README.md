# EmbCC run-time models

EmbCC's target run-time is small C code for parts with little memory, no divide instruction
and no file system. This project models the parts of it that carry the most state and
arithmetic, and states what each promises as theorems over every input or every run.

**The AVR heap** (`HeapBlocks`, `HeapLayout`, `HeapMachine`, `HeapRuns`, `HeapMemory`,
`HeapMoves`, `HeapWalk`, `HeapReturns`, `AvrHeap`). `HeapBlocks` describes a heap as blocks
that tile the memory from the heap's start to the break. A well-formed heap has no two free
blocks that touch and none that ends at the break. `HeapLayout` shows that such a heap is
determined by its live blocks alone. `HeapMachine` gives each allocator call as a step on
blocks, with `free` being no more than "the layout of what is still live". `HeapRuns` states
the theorems over whole runs. `HeapMemory` says what it means for the blocks to be held in
64 KB of bytes: a size word before each payload and the free list's links in the free
payloads. The class `AvrHeap.Heap` is the C code on those bytes, list walks and all. Each of
its methods is proved to take exactly the machine's step and to change no byte of any other
live block, wherever its 16-bit sums do not wrap, and to fail only where the memory below the
limit is short. The stack pointer is an input of each call.

**The formatter** (`FormatNumbers`, `FormatSpec`, `FormatC11`, `FormatReader`, `FormatRun`,
`FormatCounts`, `FormatSpelling`, `FormatMeaning`, `FormatConversions`, `Formatter`).
`FormatSpec` gives the layout of one integer conversion as the code has it. `FormatC11` gives
its text as section 7.21.6.1 of C11 asks for it, with nothing shared but the directive, and says
where the two agree. `FormatRun` is the output of a whole format, position by position.
`FormatSpelling` is how specifications are written and what they mean, and `FormatMeaning` shows
that `FormatRun` gives every written format its meaning: text for text, and one conversion for
each specification. `FormatConversions` says what each conversion does with its argument.
`Formatter` is the C code on byte arrays, proved to produce that output. `FormatReader` is an
independent reader of numbers. `FormatCounts` is what `%n` stores, as coded and as C11 asks.
Arguments are a typed sequence, and the objects of `%n` lie in a data memory.

**Coverage** (`GcovFile`, `GcovLayout`, `GcovWriter`, `GcovConsole`, `GcovExtract`, `GcovRun`,
`GcovOps`, `Gcov`, `GcovCutShort`, `GcdaMerge`, `GcdaFields`, `GcdaAccumulate`, `GcdaPacked`,
`GcdaRuns`, `GcovHost`).
`GcovFile` has the .gcda format and a generic tag/length reader, and `GcovLayout` the same files
word by word, with the numbers of the format written out. `GcovWriter` is the target's writer,
streamed and buffered. `GcovConsole` and `GcovExtract` are the hex on the console and
the host's extractor, and `GcovCutShort` what that makes of a dump that breaks off. `GcovRun` is
the dump/reset/flush/exit state machine, `GcovOps` its account in terms of the calls made, and
class `Gcov.Gcov` the code that implements it.
`GcdaMerge` is the in-place merge of two files, and `GcdaFields` what it does to each field of
any two byte strings that it merges. `GcdaAccumulate` shows that exactly the files of
one program are merged, and that merging adds runs. `GcdaPacked` says what a merge reads in any
bytes, and `GcdaRuns` has any number of runs on top of whatever bytes were there. `GcovHost`
joins all of these: the counts a program makes are the counts in the file the host keeps.

**Division** (`Division`), **bit operations** (`StdBit`), **the exit stack** (`ExitStack`),
**MVE predication** (`Mve`) and **NEON interleaving** (`Neon`). The last two and `StdBit` are
parametric in width, lane count and lane size, as the headers are generated.

`Arith`, `Bits`, `Bytes` and `Prelude` hold what the models share.

## Where the code and its promise part

- `malloc` adds the size word to the request in 16 bits. Its room check is exact if and only
  if the sum does not wrap (`AvrHeap.BreakCheckExact`). `AvrHeap.Heap.Malloc` states what
  happens otherwise, and `AvrHeap.WrappedBlockIsLost` what it costs.
- `aligned_alloc` adds the alignment to the request in 16 bits. At every address, the block it
  asks for is big enough if and only if that sum does not wrap (`AvrHeap.AlignedRequestExact`,
  `AvrHeap.NeverFits`).
- `%#o` prints `00` for zero (`FormatC11.OctalZeroAtAnInput`) and ignores the `0` flag.
  `FormatC11.AgreesWithC11` gives the exact set of conversions that differ from C11.
- The extractor ends a path at a space. A file comes back under its own path if and only if
  the path has no space or line end (`GcovConsole.PathSurvives`).
- A dump that breaks off in the log is told to be cut short if and only if the text up to the
  next `@` has fewer hex digits than the dump misses (`GcovCutShort.CutDump`).
  `GcovCutShort.ResetIsTakenForAByte` is a log that fails.
- An explicit `__gcov_dump` writes counts that a later file repeats, and a reset or an exit
  after it drops others. `GcovOps.FilesAgainstOps` gives the exact difference in terms of the
  calls made, and `GcovRun.DumpThenCountAtAnInput` is a run that fails.
- `%n` takes no notice of its length modifier and stores an int, where section 7.21.6.1 of C11
  asks for the modifier's type. `FormatCounts.StoresAgree` gives the exact condition under which
  memory is nevertheless right, and `FormatCounts.CharCountAtAnInput` a memory where `%hhn`
  overwrites a byte that is not its object's.
- The MVE forms that choose lanes by their lowest bit and those that merge bytes do the same on
  all data if and only if the predicate is whole-lane (`Mve.FormsAgreeIffWhole`).
  `Mve.PartialAtAnInput` is a predicate under which they differ.

## Model

| member | source | states |
|---|---|---|
| `HeapBlocks.LivePayloadsDisjoint` | lib/avr/malloc.c:42-75 | blocks of a tiled heap do not overlap and lie between the start and the break |
| `HeapLayout.LayoutOfHeap` | lib/avr/malloc.c:84-114 | every well-formed heap is the layout of its live blocks |
| `HeapLayout.LayoutIsHeap` | lib/avr/malloc.c:84-114 | laying out any spaced live blocks gives a well-formed heap with exactly those live |
| `HeapLayout.SameLiveSameHeap` | lib/avr/malloc.c:77-115 | two well-formed heaps with the same live blocks have the same free list and the same break |
| `HeapLayout.NoMoreFreeThanLive` | lib/avr/malloc.c:87-113 | there are at most as many free blocks as live ones, which bounds every list walk |
| `HeapLayout.FreeListAscends` | lib/avr/malloc.c:96-114 | the free list is strictly ascending by address |
| `HeapMachine.FirstFit` | lib/avr/malloc.c:48-50 | the lowest free block that is big enough, or none |
| `HeapMachine.MallocCorrect` | lib/avr/malloc.c:42-75 | first fit and complete: NULL exactly when no free block fits and the room is short, else the lowest fitting block, or the one at the break if none fits, new, of 0 to 3 bytes over the request, with every other live block kept and the break moved by exactly a block from there |
| `HeapMachine.FreeUndoesMalloc` | lib/avr/malloc.c:42-115 | freeing what malloc just returned gives back the very heap there was |
| `HeapMachine.FreeCorrect` | lib/avr/malloc.c:77-115 | free removes exactly one live block, keeps the heap well formed and never raises the break |
| `HeapMachine.EndIsLast` | lib/avr/malloc.c:83-94 | the break is always the end of the last live block |
| `HeapMachine.CallocCorrect` | lib/avr/malloc.c:119-127 | calloc is malloc of the product, or NULL and no change when that does not fit 16 bits |
| `HeapMachine.AlignedAllocPlain` | lib/avr/malloc.c:153-154 | at alignments 1 and 2 aligned_alloc is malloc |
| `HeapMachine.ReallocCorrect` | lib/avr/malloc.c:131-144 | the result holds the request and only the old block is gone; on failure nothing changes and malloc really could not serve it |
| `HeapMachine.AlignedAllocFails` | lib/avr/malloc.c:151-159 | NULL exactly when malloc refuses the padded request, with nothing changed |
| `HeapMachine.AlignedAllocGrants` | lib/avr/malloc.c:151-170 | otherwise an aligned new live block of at least the request; the lead is free again and joined; every other live block is kept |
| `HeapMachine.AlignUpDrops` | lib/avr/malloc.c:160-161 | the least multiple at or above an address is what dropping the remainder gives |
| `HeapRuns.StepKeeps` | lib/avr/malloc.c:42-170 | every legal allocator call keeps the heap well formed |
| `HeapRuns.RunKeepsHeap` | lib/avr/malloc.c:42-170 | in every state of every run: exact tiling, no free block touching another or the break, an ascending free list, no more free blocks than live ones, and the heap a function of its live blocks |
| `HeapRuns.StepKeepsLimit` | lib/avr/malloc.c:65-70 | no call takes the break over a limit it keeps to |
| `HeapRuns.RunKeepsLimit` | lib/avr/malloc.c:65-70 | in every state of every run, every block lies between the heap's start and the highest limit that any call so far read |
| `HeapRuns.FreeOrderIrrelevant` | lib/avr/malloc.c:77-115 | freeing a set of blocks gives the same heap in every order |
| `HeapRuns.FreeAllEmpties` | lib/avr/malloc.c:84-114 | freeing every live block, in any order, leaves the empty heap |
| `HeapReturns.GivenBackIsFree` | lib/avr/malloc.c:96-114 | the code's joins with both neighbours give the layout of what is still live |
| `HeapReturns.ShrunkIsFree` | lib/avr/malloc.c:84-94 | giving the last block, and a free one before it, to the break gives the layout of what is still live |
| `HeapMemory.WordIsValue` | lib/avr/malloc.c:20-23 | the words of the heap are little-endian |
| `HeapMoves.PayloadsKept` | lib/avr/malloc.c:42-170 | what the methods of the heap mean by untouched: every byte of every other live payload is as it was |
| `AvrHeap.Heap.constructor` | lib/avr/malloc.c:23-40 | a heap with no blocks and no free list |
| `AvrHeap.Heap.Malloc` | lib/avr/malloc.c:42-75 | the list walk and the split in bytes take exactly the machine's step and touch no live payload; NULL exactly when no free block fits and the request with its size word would pass the fixed limit, or the stack pointer less the margin; the break never passes that limit; a wrapping request is described outright |
| `AvrHeap.Heap.FindFit` | lib/avr/malloc.c:47-50 | the walk ends at the first free block that is big enough and knows the one before it; NULL exactly when there is none |
| `AvrHeap.Heap.TopIsLimit` | lib/avr/malloc.c:67-70 | the 16-bit limit of the room check is the fixed end, or the stack pointer less the margin |
| `AvrHeap.Heap.Take` | lib/avr/malloc.c:51-62 | giving out the found block, whole or split, with the list relinked in memory |
| `AvrHeap.Heap.CutBlock` | lib/avr/malloc.c:53-57 | the three words written when a block is split |
| `AvrHeap.Heap.Extend` | lib/avr/malloc.c:65-74 | a block from the break when no free one fits, or NULL |
| `AvrHeap.Heap.Free` | lib/avr/malloc.c:77-115 | the bytes after free hold the layout of what is still live, and no other live payload byte changed; NULL does nothing |
| `AvrHeap.Heap.FreeLast` | lib/avr/malloc.c:84-94 | the last block and a free one before it go back to the break |
| `AvrHeap.Heap.FreeMiddle` | lib/avr/malloc.c:96-114 | insertion in address order with both joins |
| `AvrHeap.Heap.Insert` | lib/avr/malloc.c:102-114 | the block linked in between its list neighbours and joined with those that touch it |
| `AvrHeap.Heap.LinkNext` | lib/avr/malloc.c:102-106 | the block's link and size after the join with the next free block |
| `AvrHeap.Heap.LinkPrev` | lib/avr/malloc.c:107-114 | the join with the free block before, or the link to this one |
| `AvrHeap.Heap.Clear` | lib/avr/malloc.c:124-125 | the block's first bytes zero, no other live payload touched |
| `AvrHeap.Heap.Memset` | lib/avr/malloc.c:125-125 | exactly the bytes from an address on are zero, addresses counted in 16 bits |
| `AvrHeap.RunIsDistance` | lib/avr/malloc.c:125-125 | those are the addresses whose distance, modulo 2^16, is below the length |
| `AvrHeap.Heap.Zeroed` | lib/avr/malloc.c:123-126 | malloc's block, cleared; after a wrapped request every byte of the data space is zero but what is left of the size word |
| `AvrHeap.Heap.Calloc` | lib/avr/malloc.c:119-127 | NULL and no change when the product does not fit 16 bits, else malloc's block, under malloc's limit, with the requested bytes zero and no other payload touched; a product that malloc's sum wraps is granted and the memset goes all round the data space |
| `AvrHeap.Heap.Realloc` | lib/avr/malloc.c:131-144 | the first min(old size, n) bytes are at the result, other blocks' bytes are kept, and on failure the old block's are too; a block that is big enough stays and nothing changes; growth fails exactly as malloc's does and the break keeps malloc's limit; growth that malloc's sum wraps gets an address from which the request runs past the data space, and with a NULL argument exactly malloc's wrapped grant |
| `AvrHeap.Heap.Move` | lib/avr/malloc.c:138-143 | the malloc, copy and free of a growing realloc |
| `AvrHeap.Heap.MoveOut` | lib/avr/malloc.c:138-140 | the address that wrapped growth gets |
| `AvrHeap.Heap.Copy` | lib/avr/malloc.c:140-140 | the old block's bytes in the new one, no other live payload touched |
| `AvrHeap.Heap.AlignedAlloc` | lib/avr/malloc.c:151-170 | where the sums fit, the bytes hold the machine's aligned result and no live payload is touched; NULL exactly when malloc's limit refuses the padded request, and the break keeps that limit; a padded request that wraps gives NULL and no change when malloc refuses what is left of it, else an address from which the request runs past the block malloc gave |
| `AvrHeap.Heap.AlignedOver` | lib/avr/malloc.c:155-169 | the same of the alignments that a block need not have |
| `AvrHeap.Heap.AlignIn` | lib/avr/malloc.c:160-168 | the block is cut at the first aligned payload address that leaves room for a lead block |
| `AvrHeap.Heap.AlignOut` | lib/avr/malloc.c:160-167 | the address a wrapped request gets |
| `AvrHeap.Heap.CutLead` | lib/avr/malloc.c:162-168 | the two size words written, and the lead freed |
| `AvrHeap.MaskIsAlignUp` | lib/avr/malloc.c:160-161 | for a power of two the mask rounds up to the least multiple, in 16 bits |
| `AvrHeap.BreakCheckExact` | lib/avr/malloc.c:69-70 | the room check tells the truth at every break and limit if and only if the request and its size word fit 16 bits |
| `AvrHeap.AlignedRequestExact` | lib/avr/malloc.c:155-161 | at every address, the block asked for has room for the aligned one if and only if the sum fits 16 bits |
| `AvrHeap.NeverFits` | lib/avr/malloc.c:155-161 | nor has it with the up to three spare bytes a grant may have, at any address |
| `AvrHeap.WrappedBlockIsLost` | lib/avr/malloc.c:69-74 | after a wrapped request the returned payload is in no heap that ends at the new break |
| `FormatNumbers.DivMod` | lib/avr/printf.c:60-70 | the number in the bytes is divided in place, and the result is the remainder |
| `FormatNumbers.IsZero` | lib/avr/printf.c:72-78 | true exactly when the number is zero |
| `FormatNumbers.Negate` | lib/avr/printf.c:175-181 | two's complement in place is 256^nb minus the number, for any byte count |
| `FormatNumbers.DigitsNumber` | lib/avr/printf.c:187-193 | the digits, last made first, stand for the number in any base |
| `FormatNumbers.AtMost22Digits` | lib/avr/printf.c:186-193 | a 64-bit number has at most 22 digits in base 8 and up, so the 24-byte buffer holds them |
| `FormatSpec.IntLength` | lib/avr/printf.c:183-215 | every integer conversion has length max(width, sign + prefix + max(digits, effective precision)) and is padded on one side only |
| `FormatC11.AgreesWithC11` | lib/avr/printf.c:183-214 | the code's text is the one section 7.21.6.1 of C11 asks for, whose base, letters, sign, prefix, zeros and field are stated apart from the code's, if and only if the conversion is not one of the `#o` cases named |
| `FormatC11.OctalZeroAtAnInput` | lib/avr/printf.c:196-197 | `%#o` of zero gives `00`, where C11 asks for `0` |
| `FormatC11.NumeralForIsDigitText` | lib/avr/printf.c:146-193 | d, i and u write decimal, o octal, x, X and p hexadecimal, and X alone in capitals |
| `FormatConversions.NumberPrinted` | lib/avr/printf.c:147-182 | which argument type each modifier takes; the number printed is the argument's residue at the modifier's width (8 bits for hh), in the signed range for d and i and the unsigned one for the others |
| `FormatConversions.ArgRange` | lib/avr/printf.c:147-163 | the arguments are exactly the numbers below the modulus of their type |
| `FormatConversions.IntegerConverts` | lib/avr/printf.c:141-216 | when an integer conversion is defined at all; it takes one argument, leaves memory alone and, but for the `#o` cases, prints C11's text |
| `FormatConversions.PaddedStands` | lib/avr/printf.c:218-222 | a padded text stands at the left end of its field with `-` and at the right end without, spaces in the rest, and is never cut |
| `FormatConversions.FieldOnce` | lib/avr/printf.c:218-222 | a text has one way to stand in its field |
| `FormatConversions.CharacterConverts` | lib/avr/printf.c:217-223 | one character in its field, its code the argument modulo 256 |
| `FormatConversions.StringConverts` | lib/avr/printf.c:224-241 | the string up to its terminator or its precision in its field, `(null)` for a null pointer; undefined exactly where the string has neither end or is over 32767 long |
| `FormatConversions.FloatingConverts` | lib/avr/printf.c:248-256 | one double is taken and `?` printed in its field |
| `FormatConversions.OthersConvert` | lib/avr/printf.c:259-261 | every other character, `%` among them, is printed as it is and takes no argument |
| `FormatConversions.CountConverts` | lib/avr/printf.c:242-247 | `%n` prints nothing; two bytes become the count, low byte first, and no other byte changes; a null pointer stores nothing |
| `FormatConversions.CountWidth` | lib/avr/printf.c:147-172 | the object C11 has `%n` store in is as wide as the number the same modifier gives an integer conversion |
| `FormatMeaning.TextIsCopied` | lib/avr/printf.c:85-92 | text with no `%` in front of any format goes to the output unchanged, while the count fits |
| `FormatMeaning.TextAlone` | lib/avr/printf.c:85-92 | a format of text alone prints exactly that text |
| `FormatMeaning.TextConversionRest` | lib/avr/printf.c:85-262 | text, one specification and a rest: the text, that conversion's output, and the rest on the arguments left |
| `FormatMeaning.CutOffWritesNothing` | lib/avr/printf.c:257-258 | a specification that the terminator cuts off writes nothing and ends the output |
| `FormatMeaning.RunIsMeaning` | lib/avr/printf.c:82-265 | for every format written as text and specifications, the walk by position gives exactly the outputs of its items in order, each on the arguments the ones before it left |
| `FormatReader.DigitsAreMagnitude` | lib/avr/printf.c:183-212 | the zeros and digits stand for the argument's magnitude |
| `FormatReader.ReadBack` | lib/avr/printf.c:141-215 | an independent reader gets every argument back from its text, for all flags, widths, precisions and bases, least negatives included |
| `FormatRun.RunExtends` | lib/avr/printf.c:82-265 | output is only ever added to |
| `Formatter.Out.Put` | lib/avr/printf.c:37-44 | one more character made; the buffer keeps the first cap-1 and the sink all |
| `Formatter.Out.Pad` | lib/avr/printf.c:46-50 | so many more characters, none for a negative count |
| `Formatter.ReadFlags` | lib/avr/printf.c:94-102 | the flags and where they end, inside the format |
| `Formatter.ReadNumber` | lib/avr/printf.c:111-114 | the decimal number and where it ends, inside the format |
| `Formatter.ReadLength` | lib/avr/printf.c:131-138 | the length modifier and where it ends, inside the format |
| `Formatter.ReadSpec` | lib/avr/printf.c:93-139 | the whole specification, `*` arguments included, never past the terminator |
| `FormatSpelling.ParseReadsSpelling` | lib/avr/printf.c:93-139 | every specification as section 7.21.6.1 of C11 writes it (flags in any order, width and precision as numbers or `*`, every length modifier) is read as what it means, wherever it stands |
| `Formatter.RawIsValue` | lib/avr/printf.c:147-172 | the bytes loaded, as two's complement of their width, are the argument at its length modifier |
| `Formatter.LoadBytes` | lib/avr/printf.c:147-172 | the little-endian bytes of the argument |
| `Formatter.MakeDigits` | lib/avr/printf.c:186-193 | the digit loop ends with the number's digits, at most 22 |
| `Formatter.TakeDigit` | lib/avr/printf.c:191-192 | one digit off the number, which shrinks until it is zero |
| `Formatter.Magnitude` | lib/avr/printf.c:142-193 | sign, zero test and digits of the argument |
| `Formatter.Emit` | lib/avr/printf.c:183-214 | exactly the layout: spaces, sign, prefix, zeros, digits, spaces |
| `Formatter.WritePieces` | lib/avr/printf.c:204-214 | the six pieces are written in order |
| `Formatter.PutDigits` | lib/avr/printf.c:211-212 | the digits, last made first |
| `Formatter.PutPadded` | lib/avr/printf.c:234-239 | a text padded to the width on the flag's side, as `FormatConversions.PaddedStands` has it |
| `Formatter.ConvertInt` | lib/avr/printf.c:141-216 | an integer conversion adds exactly its text: the one C11 asks for but in the `#o` cases named |
| `Formatter.Measure` | lib/avr/printf.c:232-233 | the length of `%s`, reading at most the precision's characters |
| `Formatter.StoreInt` | lib/avr/printf.c:243-245 | two bytes of memory become the count, low byte first, and no other byte changes |
| `FormatCounts.StoresAgree` | lib/avr/printf.c:242-246 | for every length modifier, count and memory, the code's store is the one section 7.21.6.1 of C11 asks for if and only if the modifier's type is two bytes wide, or it is wider and the upper bytes already are the count's, or it is hh and the byte after already is the count's high byte |
| `FormatCounts.SignExtension` | lib/avr/printf.c:245-245 | the upper bytes of the count as an int are its sign, all zeros or all ones |
| `FormatCounts.CharCountSpills` | lib/avr/printf.c:242-246 | `%hhn` overwrites the byte after its object, and changes it unless it was the count's high byte |
| `FormatCounts.CharCountAtAnInput` | lib/avr/printf.c:242-246 | a memory in which the byte after the object is lost |
| `FormatRun.CountAgreesWithC11` | lib/avr/printf.c:242-246 | the same if-and-only-if of the `%n` conversion itself, which prints nothing and takes one argument |
| `Formatter.ConvertOne` | lib/avr/printf.c:140-262 | any conversion adds its text, takes its argument and leaves the data memory as the conversion says, `%n` storing two bytes |
| `Formatter.VFormat` | lib/avr/printf.c:82-265 | for every terminated format, truncated ones included, the loop ends with the output that `FormatMeaning.RunIsMeaning` describes, its count and the memory that the `%n`s leave |
| `Formatter.ToBuf` | lib/avr/printf.c:273-280 | the buffer is the first min(length, cap-1) characters, a terminator, then what it was; the result and the memory do not depend on the capacity |
| `Formatter.FillBuf` | lib/avr/printf.c:275-276 | the buffer is as much of the output as fits, then what it was |
| `Formatter.Terminate` | lib/avr/printf.c:277-278 | the terminator stands after what was kept and nothing else changes |
| `Formatter.ToOut` | lib/avr/printf.c:372-376 | the sink gets exactly the ideal output, and memory what `%n` stores |
| `GcovFile.DecodeBack` | lib/gcov/gcov.c:131-150 | tags and lengths alone find every record again in both versions |
| `GcovFile.ImageReadsBack` | lib/gcov/gcov.c:118-151 | in both versions and byte orders a generic reader gets every ident, checksum and 64-bit counter back, in order |
| `GcovFile.SizeIsExact` | lib/gcov/gcov.c:78-84 | the size computed beforehand is the size written |
| `GcovLayout.BytesFromB2` | lib/gcov/gcov.c:69-75 | lengths count bytes, and the header has a checksum, from version number 0x42320000 on and not below |
| `GcovLayout.FileIsLaid` | lib/gcov/gcov.c:118-151 | the file word by word, with its numbers: the magic, the header by version number, the summary of length 8 or 2 with the largest counter as far as a word holds it, each function's record of length 12 or 3 and its counters of length 8n or 2n, low word first, and a zero |
| `GcovLayout.FileLaidOnce` | lib/gcov/gcov.c:118-151 | that layout leaves nothing open: no other words have it |
| `GcovLayout.LargestIsLargest` | lib/gcov/gcov.c:122-125 | the largest counter is one of them and none is larger; zero if there is none |
| `GcovLayout.WordBytesAre` | lib/gcov/gcov.c:102-105 | the four bytes of a word in either order |
| `GcovLayout.BytesAt` | lib/gcov/gcov.c:106-115 | each word's bytes stand at four times its place |
| `GcovLayout.OrderFromBytes` | src/ir/gcda.h:46-55 | a file's order is read off its first four bytes, if it has sixteen |
| `GcovWriter.Out.PutWord` | lib/gcov/gcov.c:102-116 | one more word, in the buffer or as hex with its line ends |
| `GcovWriter.ComputeSize` | lib/gcov/gcov.c:78-84 | the loop computes the image size |
| `GcovWriter.FindLargest` | lib/gcov/gcov.c:122-125 | the largest counter |
| `GcovWriter.EmitHead` | lib/gcov/gcov.c:126-134 | the header and summary words |
| `GcovWriter.EmitFn` | lib/gcov/gcov.c:135-149 | one function's two records |
| `GcovWriter.EmitCounters` | lib/gcov/gcov.c:144-148 | each 64-bit counter as two words, low first |
| `GcovWriter.Emit` | lib/gcov/gcov.c:118-151 | exactly the file's words, to either destination, laid out as `GcovLayout.FileIsLaid` says by version number |
| `GcovWriter.Open` | lib/gcov/gcov.c:153-164 | the marker line, with the size in decimal |
| `GcovWriter.DumpStreamed` | lib/gcov/gcov.c:296-302 | streaming prints the text of the image that is never built |
| `GcovWriter.BuildImage` | lib/gcov/gcov.c:294-304 | the image in memory |
| `GcovWriter.PrintImage` | lib/gcov/gcov.c:277-287 | printing a built image gives the same text as streaming it |
| `GcovConsole.HexShows` | lib/gcov/gcov.c:95-115 | every byte of an image is two small hexadecimal digits, high one first, and a line ends after each 32 bytes |
| `GcovConsole.CollectHex` | src/ir/gcov.c:1301-1311 | hex with line ends gives its bytes back |
| `GcovConsole.DecimalBack` | src/ir/gcov.c:1294-1294 | the printed size is read back |
| `GcovConsole.StrtoulReads` | src/ir/gcov.c:1294-1294 | blanks, a sign or none and digits: the number, its negative modulo 2^64 after `-`, and the largest number when it does not fit |
| `GcovConsole.PathEnds` | src/ir/gcov.c:1291-1293 | the path is all before the first space or line end |
| `GcovConsole.LineEnds` | src/ir/gcov.c:1295-1297 | reading goes on at the first line end after it |
| `GcovConsole.ExtractsWhatWasPrinted` | src/ir/gcov.c:1286-1316 | from a whole log, dumps among other text, exactly the files dumped come back, in order |
| `GcovConsole.PathSurvives` | src/ir/gcov.c:1291-1298 | a file comes back under its own path if and only if the path has no space or line end |
| `GcovConsole.SpacedPathIsCut` | src/ir/gcov.c:1291-1293 | a path that does not come back |
| `GcovExtract.FindMarker` | src/ir/gcov.c:1287-1290 | the first marker, or none |
| `GcovExtract.FindPathEnd` | src/ir/gcov.c:1291-1293 | the end of the path |
| `GcovExtract.FindLineEnd` | src/ir/gcov.c:1295-1297 | the end of the marker line |
| `GcovExtract.CollectImage` | src/ir/gcov.c:1301-1311 | the bytes collected and where collecting stops |
| `GcovExtract.ExtractLog` | src/ir/gcov.c:1286-1316 | the loops find exactly the log's entries |
| `GcovCutShort.CollectTakes` | src/ir/gcov.c:1303-1311 | collecting gives the bytes of the hex digits before the next `@`, as many as are wanted |
| `GcovCutShort.CutShortIff` | src/ir/gcov.c:1312-1317 | an entry is told to be cut short if and only if those digits are too few or do not start as a file does |
| `GcovCutShort.CutDump` | src/ir/gcov.c:1303-1317 | a dump that breaks off after its magic is told to be cut short if and only if the text up to the next `@` has fewer hex digits than it misses; otherwise its end is made of those digits |
| `GcovCutShort.ResetIsTakenForAByte` | src/ir/gcov.c:1303-1317 | a log that fails: a dump one byte short, followed by the word "reset", is taken as whole with a wrong last byte |
| `GcovRun.EverythingAccounted` | lib/gcov/gcov.c:324-361 | at every point of every run, dumps and resets included: files, counters held and what resets took equal the counts made and what dumps wrote twice, modulo 2^64 |
| `GcovRun.CountsAreConserved` | lib/gcov/gcov.c:324-361 | over any run that dumps only by flushing, the files up to exit add up to exactly the counts made |
| `GcovRun.FilesAgainstCounts` | lib/gcov/gcov.c:321-349 | the files up to exit against the counts: they fall short by exactly what resets took and what is in no file, and exceed by what dumps wrote twice |
| `GcovRun.DumpedIffLast` | lib/gcov/gcov.c:321-349 | exit finds a dump made if and only if some operation was a dump with no reset or flush after it (or the flag was set before and nothing cleared it) |
| `GcovRun.LatestFirst` | lib/gcov/gcov.c:351-361 | in every run the list is the units registered, the latest first |
| `GcovRun.EmissionsAt` | lib/gcov/gcov.c:324-329 | a dump writes the listed units in that order, each once with the counters it has |
| `GcovRun.DumpThenCountAtAnInput` | lib/gcov/gcov.c:321-349 | a run of init, count, dump, count whose files say 1 where 2 were counted |
| `GcovOps.StateOfOps` | lib/gcov/gcov.c:324-361 | a counter holds the counts since the last reset or flush that found its unit listed, modulo 2^64, and a unit is listed exactly when it was registered |
| `GcovOps.FilesAgainstOps` | lib/gcov/gcov.c:321-361 | files against counts over any run, with what is written twice, lost and in no file read off the operations alone |
| `Gcov.Gcov.Init` | lib/gcov/gcov.c:351-361 | a unit is listed and the exit hook registered once; a wrong magic is passed over |
| `Gcov.Gcov.Dump` | lib/gcov/gcov.c:324-329 | every listed unit's file is printed in list order |
| `Gcov.Gcov.DumpOne` | lib/gcov/gcov.c:311-317 | the console gains exactly the unit's printed image |
| `Gcov.Gcov.Reset` | lib/gcov/gcov.c:331-337 | the listed units' counters are zero and the others as they were |
| `Gcov.Gcov.Zeroed` | lib/gcov/gcov.c:334-335 | a unit's counters all zero |
| `Gcov.Gcov.Flush` | lib/gcov/gcov.c:339-343 | a dump, then a reset |
| `Gcov.Gcov.AtExit` | lib/gcov/gcov.c:345-349 | a dump unless there was one |
| `GcdaMerge.WriteWord` | src/ir/gcda.h:31-35 | a word written in place in the file's order |
| `GcdaMerge.SameBytes` | src/ir/gcda.h:66-74 | true exactly when the two agree on the range |
| `GcdaMerge.FirstPass` | src/ir/gcda.h:75-97 | true exactly when both files have the same records and the same function records, whatever the bytes |
| `GcdaMerge.AddAll` | src/ir/gcda.h:108-120 | counters added in place modulo 2^64, and the largest |
| `GcdaMerge.MergeOne` | src/ir/gcda.h:107-125 | one record's merge |
| `GcdaMerge.MergeKeepsAfter` | src/ir/gcda.h:107-127 | a record's merge changes nothing after it, so the walk goes on as before |
| `GcdaMerge.SecondPass` | src/ir/gcda.h:98-132 | every record merged, then the summary's largest counter |
| `GcdaMerge.Merge` | src/ir/gcda.h:60-133 | merged if and only if header and records agree, else the image is as it was; `GcdaAccumulate.MergeableIffSameProgram` says which files those are |
| `GcdaMerge.MergeableAlike` | src/ir/gcda.h:63-97 | files merged with each other are merged with exactly the same files: being of one program is an equivalence |
| `GcdaFields.RecordsAre` | src/ir/gcda.h:38-44 | the records of any file: where the first is, by version number, how long each is, and the zero after the last |
| `GcdaFields.MergedCounter` | src/ir/gcda.h:108-120 | of any two byte strings that are merged, every whole counter of every counter record is the sum of the two modulo 2^64 |
| `GcdaFields.MergedRuns` | src/ir/gcda.h:121-125 | and every summary's runs are the sum of the two modulo 2^32 |
| `GcdaFields.MergedLargest` | src/ir/gcda.h:129-131 | and the last summary has the largest of all the new counters, as far as a word holds it |
| `GcdaFields.MergedRest` | src/ir/gcda.h:98-132 | and no other byte changes: unknown records, short summaries and what follows the last whole counter included |
| `GcdaAccumulate.FilesMergeIff` | src/ir/gcda.h:63-97 | files with any summaries are mergeable if and only if they are of one byte order and one program |
| `GcdaAccumulate.MergeableIffSameProgram` | src/ir/gcda.h:58-97 | images of any two units are merged if and only if byte order, version, stamp, checksum where there is one, and every function's ident, checksums and counter count agree |
| `GcdaAccumulate.RecordsIff` | src/ir/gcda.h:75-97 | the first pass accepts two files' records if and only if the functions are the same |
| `GcdaAccumulate.MergedWith` | src/ir/gcda.h:98-132 | merging with any bytes that pass: the counters read at their places add, the runs add, and the largest is that of the sums |
| `GcdaAccumulate.MergedFile` | src/ir/gcda.h:60-133 | the merge is the file of the added counters and runs, with the sums' largest |
| `GcdaAccumulate.RunsAccumulate` | src/ir/gcda.h:60-133 | merging two images is, byte for byte, the image of the counts of both |
| `GcdaPacked.MergedWithAny` | src/ir/gcda.h:98-132 | the merge of an image with any bytes at all that it is merged with is the image of its counters, in the order of the file, added to those read there |
| `GcdaPacked.ImageReads` | src/ir/gcda.h:98-132 | an image reads as its own counters and runs |
| `GcdaPacked.PackedImage` | lib/gcov/gcov.c:135-149 | a file is also the file of the unit whose counters lie one function after another |
| `GcdaPacked.InOrderIsPacked` | src/ir/gcov.c:1143-1148 | a unit laid out as the compiler does is that unit itself |
| `GcdaRuns.FileHoldsAllRuns` | lib/gcov/gcov.c:256-276 | after any number of runs, and whatever bytes were at the place, the file is the image of all the counts on top of the counters that a merge reads in those bytes; foreign bytes are replaced |
| `GcdaRuns.ForeignOrNot` | src/ir/gcda.h:58-97 | whether any given bytes are merged does not depend on the image's counters or runs: they are foreign or they are not |
| `GcdaRuns.PriorImage` | src/ir/gcda.h:98-132 | an image of the unit that was there counts for exactly its counters and runs |
| `GcdaRuns.ForeignIffOther` | src/ir/gcda.h:58-97 | a file at the place is left out of the sums if and only if it is of another program or byte order |
| `GcdaRuns.NoFileIsForeign` | src/ir/gcda.h:46-65 | bytes that are no .gcda file are never merged with |
| `GcdaRuns.TotalIsSum` | src/ir/gcda.h:108-120 | the accumulated counters are the plain sums modulo 2^64 |
| `GcovHost.StoreEntry` | src/ir/gcov.c:1313-1333 | a whole file is merged with the one there or replaces it, and no other path's file changes; a cut-short one changes nothing |
| `GcovHost.OnlyItsOwn` | src/ir/gcov.c:1312-1333 | after an entry every path has the file it had, but the path of a whole entry |
| `GcovHost.StoreLog` | src/ir/gcov.c:1286-1338 | a log's files are stored one after another |
| `GcovHost.Deposited` | src/ir/gcov.c:1319-1327 | the host's file of a unit is its own images accumulated on whatever was there, whatever other units' files come between |
| `GcovHost.ConsoleIsLog` | lib/gcov/gcov.c:311-329 | the console of the dumps is a log the extractor takes |
| `GcovHost.FileHoldsTheLog` | src/ir/gcov.c:1271-1344 | from any host files and any log of any emissions: the unit's file is the image of the sums emitted on top of the counters that a merge reads in the bytes that were there; foreign bytes, as of another build, are replaced; a unit the log does not name is left alone |
| `GcovHost.CountsReachTheFile` | lib/gcov/gcov.c:324-361 | over any number of executions, flushes and other console text, and whatever bytes were there, the file the host keeps is the image of exactly the counts made on top of the counters that a merge reads in those bytes, and reads back as those |
| `GcovHost.FreshFileHoldsTheCounts` | lib/gcov/gcov.c:324-361 | a unit laid out as the compiler does, where there was no file or a foreign one: the unit's own image of exactly the counts made |
| `Division.LineUp` | lib/rt/aeabidiv.c:39-42 | the divisor moves up without losing a bit until twice it is over the dividend, and no further than needed |
| `Division.Places` | lib/rt/aeabidiv.c:43-50 | quotient and remainder recombine to the dividend, one step a place |
| `Division.Udivmod` | lib/rt/aeabidiv.c:32-53 | the exact quotient and remainder in at most bitlength(quotient) + 1 steps, zeros for a zero divisor |
| `Division.Uidiv` | lib/rt/aeabidiv.c:55-59 | the quotient |
| `Division.Idiv` | lib/rt/aeabidiv.c:61-66 | truncation toward zero, wrapping only at INT_MIN / -1 |
| `Division.Uidivmod` | lib/rt/aeabidiv.c:70-74 | the quotient in the low word and the remainder in the high one |
| `Division.Idivmod` | lib/rt/aeabidiv.c:76-85 | truncated quotient and a remainder of the dividend's sign, in the two words |
| `Division.TruncatedIsUnique` | lib/rt/aeabidiv.c:61-85 | truncated division has one answer, so the contracts above fix the results |
| `StdBit.LeadingZeros` | include/stdbit.h:36-38 | the count through a wider word is right at the width, bit by bit |
| `StdBit.LeadingOnes` | include/stdbit.h:43-44 | the complement's count is the count of leading ones |
| `StdBit.TrailingZeros` | include/stdbit.h:39-40 | the trailing zeros, the width for zero |
| `StdBit.TrailingOnes` | include/stdbit.h:45-46 | the trailing ones |
| `StdBit.FirstBits` | include/stdbit.h:47-54 | the first one or zero from either end, 0 exactly when there is none |
| `StdBit.CountZeros` | include/stdbit.h:55-56 | width less ones is the number of zeros |
| `StdBit.OneIsPopOne` | include/stdbit.h:57-58 | the test is true exactly when one bit is set |
| `StdBit.OneIsPow2` | include/stdbit.h:57-58 | and exactly for powers of two |
| `StdBit.BitWidth` | include/stdbit.h:59-60 | the least power above the number |
| `StdBit.BitFloor` | include/stdbit.h:61-62 | the greatest power of two not above the number |
| `StdBit.BitCeil` | include/stdbit.h:64-66 | the least power of two not below the number, 0 exactly when it does not fit |
| `ExitStack.Table.CxaAtexit` | lib/avr/exit.c:22-31 | the handler is on top of the table, or -1 and nothing changed when it is full |
| `ExitStack.Table.RunHandler` | lib/avr/exit.c:42-42 | the events are exactly the handler's own registrations, in order, each taken or refused |
| `ExitStack.Table.Exit` | lib/avr/exit.c:38-45 | every registration taken, those made by handlers during exit included, has run exactly once in stack order, each handler making exactly its own registrations before the next runs |
| `ExitStack.OneWayToExit` | lib/avr/exit.c:38-45 | what is pending when exit starts settles every event to its end: the contract of exit has one answer |
| `ExitStack.LastRegisteredFirst` | lib/avr/exit.c:38-45 | handlers that register nothing run in exactly the reverse order of their registration |
| `ExitStack.RunsAsOftenAsRegistered` | lib/avr/exit.c:22-45 | in any history that follows the stack, pending plus registered equals run plus left, handler by handler |
| `Mve.Compare` | include/arm_mve.h:587-670 | for each of the six relations, signed or not, the sixteen bits are those of the whole lanes where it holds and no others; `Mve.LaneNumber` says which numbers are compared |
| `Mve.ShapesAre` | include/arm_mve.h:65-90 | the lane counts of the four lane sizes |
| `Mve.LaneNumber` | include/arm_mve.h:65-90 | a lane's unsigned number is its bytes' in the unsigned range of its width, the signed one their residue in the two's complement range, negative exactly when the top bit is set |
| `Mve.RelationsOfLanes` | include/arm_mve.h:587-670 | lanes are equal exactly when their bytes are; Ne, Le and Ge hold exactly where Eq, Gt and Lt do not; one of Lt, Eq and Gt holds |
| `Mve.TailPredicate` | include/arm_mve.h:4546-4573 | the predicate is the first min(n, lanes) whole lanes, as the number 2^(bytes) - 1 |
| `Mve.Merge` | include/arm_mve.h:25-30 | the bytes whose bits are set |
| `Mve.MergeIsLaneSelect` | include/arm_mve.h:25-30 | under a whole-lane predicate merging bytes is choosing lanes |
| `Mve.SelectRelated` | include/arm_mve.h:671-675 | selecting by a comparison is the lane-wise choice, as whole vectors: the maximum for greater-than, the minimum for less-than |
| `Mve.ChooseLanes` | include/arm_mve.h:387-415 | vmaxq's and vminq's own loops give that same vector |
| `Mve.ChoiceIsExtreme` | include/arm_mve.h:387-415 | each lane of the choice has the greater, or smaller, of the two values |
| `Mve.LoadTail` | include/arm_mve.h:105-110 | the first n lanes of memory and zeros, reading no other byte |
| `Mve.StoreTail` | include/arm_mve.h:111-115 | exactly the first n lanes of memory are written |
| `Mve.StoreLanes` | include/arm_mve.h:111-115 | vst1q_p under any predicate writes the lanes whose lowest bit is set |
| `Mve.FormsAgreeIffWhole` | include/arm_mve.h:105-115 | choosing lanes by their lowest bit and bytes by their own does the same on all data if and only if every bit of each lane is as its lowest |
| `Mve.PartialAtAnInput` | include/arm_mve.h:105-115 | two-byte lanes under the predicate 1: the two forms differ |
| `Mve.WholeLanesAreWhole` | include/arm_mve.h:587-670 | the predicates of compares and vctp are of that kind |
| `Neon.Vzip` | include/arm_neon.h:503-511 | the index arithmetic takes lanes in turn |
| `Neon.Vuzp` | include/arm_neon.h:512-522 | even lanes, then odd lanes |
| `Neon.Vtrn` | include/arm_neon.h:523-533 | two-by-two blocks transposed, as `Neon.TransposeAt` says lane by lane |
| `Neon.ZipAt` | include/arm_neon.h:503-511 | where each lane of the two vectors goes |
| `Neon.TransposeAt` | include/arm_neon.h:523-533 | the four lanes of each block: the second of the first vector and the first of the second change places |
| `Neon.UnzipUndoesZip` | include/arm_neon.h:503-522 | vuzp undoes vzip at any even lane count |
| `Neon.ZipUndoesUnzip` | include/arm_neon.h:503-522 | vzip undoes vuzp |
| `Neon.TransposeTwice` | include/arm_neon.h:523-533 | vtrn is its own inverse |
| `Neon.Load` | include/arm_neon.h:219-226 | lane i of vector j is element i * m + j of memory |
| `Neon.Store` | include/arm_neon.h:227-232 | and the same for the store, every element written |
| `Neon.ElementsInTurn` | include/arm_neon.h:219-260 | lane i of vector j is element i * m + j of memory |
| `Neon.InterleavingIsExact` | include/arm_neon.h:219-260 | equal vectors exactly when equal memory: load and store undo each other |

## Left out

- AvrHeap.Heap.Realloc: of growth to 65534 bytes or more of a live block, below the limit, only the address is described. malloc's sum wraps there, the copy goes on all round the data space and may overwrite the heap's own words, and what the free that follows does depends on them.
- AvrHeap.Heap.Move: takes the requests whose sum does not wrap; the others are those of `AvrHeap.Heap.MoveOut`.
- AvrHeap.Heap.MoveOut: does not make the free of line 141, for the reason given with `AvrHeap.Heap.Realloc`.
- AvrHeap.Heap.AlignedAlloc: of a wrapped request that is granted, only the address is described. Its two size words fall outside the block, and what the free of the lead then does depends on what they overwrote. The alignment is a power of two, as section 7.22.3.1 of C11 has it.
- AvrHeap.Heap.AlignOut: does not make the free of line 168, for that reason.
- AvrHeap.Heap.Free: the argument is NULL or a live payload, as section 7.22.3.3 of C11 demands; freeing anything else is not described.
- Formatter.VFormat: two kinds of run are excluded by `Run(...).Done?`. What C leaves undefined: an argument of the wrong type or missing, a `%n` object outside the memory, an unterminated string without a precision. And where the code's own 16-bit ints overflow: a width or precision above 32767, a sign, prefix and body that together pass 32767 (line 200, as in `%#.32767x`), a string of more than 32767 characters (line 233), output past 65535 characters. The second kind is not undefined in C; the code does not serve it.
- Formatter.ConvertOne: the memory of `%n` is apart from the output buffer, the format and the strings, so a count stored into one of those is not described.
- GcdaMerge.Merge: offsets are unbounded, so the wrap of `unsigned long` sums and of the counter index in files of 4 GB and more is not modelled.
- ExitStack.Table.constructor: the table's size is at most 255, which its 8-bit count needs.
- GcdaAccumulate.RunsAccumulate: needs every counter to belong to a function, since the writer's largest counter ranges over all of them and the merge's only over those of the functions; `GcdaAccumulate.MergedFile` has no such need.
- Gcov.Gcov.Init: a unit registers once, as its constructor does; a second registration would close the list on itself.
- ExitStack.Table.Exit: handlers are finite trees of registrations; one that registers itself for ever never lets exit end.
- The host's choice of a place for a file (`gcov_place`, `place`, `make_dirs`): environment and file system. A file's place is its path.
- `slurp`, `fopen`, `fwrite` and their failures, and running out of memory in the extractor: input and output.
- Flash against RAM reads in the formatter: the format and strings are sequences.
- Floating conversions of printf print `?`, which is modelled; there are no digits to state.
- `abort`, `_exit`, setjmp, EEPROM, program memory, start-up and destructor code: assembly, device registers or loader calls.
- memmove, strstr and the rest of lib/avr/string.c: one-loop functions that would only add easy members.
- Plain lane-wise MVE and NEON operations, saturation and conversions: one expression a lane.
- The compiler proper: not part of this model.
