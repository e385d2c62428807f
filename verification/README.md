# A verified model of llamafile's hard core

llamafile packs a language model and the programs around it into one executable archive. This project models the parts
of it whose correctness is hardest to see, in Dafny, and proves what each of them is for.

- **Matrix product** (`Ruler`, `DotProduct`, `Tiling`, `Stores`, `TinyBlas`, `Gemm`). The tiled, threaded product of
  `tinyBLAS` over real numbers, with its stack of partial sums. However the threads' stores interleave, the output is
  that of the plain triple loop, every cell stored once.
- **JSON** (`Utf8`, `Json`, `JsonPrinter`, `JsonLayout`, `JsonString`, `JsonParser`, `JsonGrammar`, `JsonNumbers`,
  `JsonSyntax`, `JsonRoundTrip`, `JsonTheorems`). The printer and the recursive parser. The parser accepts exactly the
  texts of a grammar written down by itself; printing and parsing are inverse exactly up to nesting 19.
- **Thread pool** (`TaggedWord`, `IdleStack`, `ThreadPool`, `PoolProofs`, `CoreManager`). State machines of atomic steps
  over sequentially consistent memory, for the tagged idle stack, the task hand-off, and the core counter.
- **ZIP archives** (`ZipFormat`, `ZipSearch`, `ZipDirectory`, `ZipWriter`, `ZipReader`, `ZipLegacy`, `ZipTheorems`).
  What `zipalign` writes, `llamafile_open_zip` finds, and nothing old is lost; archives of other programs open too.
- **Conversation** (`KvCache`, `Conversation`, `ConversationLaws`, `Chatbot`). History, undo stack, context stack and
  key-value cache agree after every command, and each command comes to what it should.
- **Line editor** (`LineText`, `Mirror`, `LineEdits`, `LineLaws`, `LineEditor`, `KillRing`, `LineHistory`). The editing
  commands on the bytes of a line do to its characters what they should.
- **Two small cores**: the circular lists (`Dll3`) and percent decoding (`PercentDecode`).

Code that changes state is modelled as classes and methods with loops, each proved against a function of its inputs or
of the old state; the theorems are lemmas about those functions. `ByteSeq` and `Arith` hold shared facts.

## What the code does not do

Some expected properties turned out false. The model keeps the code as it is, shows where it fails, and says when it
does not.

- **Replacing files in an archive can drop others.** The compaction reads each record's size again after it has moved
  the record (llamafile/zipalign.c:235-258). `ZipDirectory.VisitsEveryRecord` says that the walk goes from record to
  record if and only if every kept record but the last still shows its own size after its move. Where it does not and the
  size leads past the directory, `ZipTheorems.StrayedOpens` says exactly which old files can still be opened;
  `ZipDirectory.CompactionLosesC` is a directory for which this happens. Added files open in any case, and old bytes stay
  (`ZipTheorems.ZipThenOpen`, `ZipTheorems.ZipOnlyAppends`).
- **Transposing at the end of a line splits a character of several bytes**, because the code steps one byte back
  (llamafile/bestline.c:3056-3058). `LineEditor.Editor.EditTranspose` says exactly when the line stays UTF-8. On an
  empty line the position wraps below zero, so the method asks for a line that is not empty.
- **Transposing words can split a character**, because the escape steps by the width of the character before the
  position (llamafile/bestline.c:2850-2869). `LineEdits.TransposingWordsKeepsUtf8` says exactly when it does not;
  `LineEdits.WordsCutACharacter` is a line for which it does.
- **A pop of the idle stack can install a stale thread** when 4096 exchanges or more happen between its load and its
  exchange (llamafile/pool.cpp:71-81). `IdleStack.HoldsIffFresh` says that the stack is right over a whole run if and only
  if no pop does that; `IdleStack.FourThousandNinetySixIsTooMany` is a run in which one does. A push has no such bound.
- **Slurp and barf lose count of nested brackets**, because their stack never holds more than one bracket
  (llamafile/bestline.c:3217-3235, 3291-3309). `LineLaws.TakesEnclosing` says exactly when they take the bracket that
  encloses the cursor; `LineLaws.NestedIsLost` is a line on which they do not.
- **Giving back several cores at once can leave a waiter asleep with cores free**, because one signal wakes one waiter
  (llamafile/core_manager.cpp:72-83). It never happens when cores are given back one at a time
  (`CoreManager.NobodyStranded`), and for every larger number there is a run in which it does
  (`CoreManager.ManyAtOnceStrand`).
- **The JSON parser takes more than RFC 8259 allows**: `\xHH` for printable ASCII, and an unpaired surrogate escape, which
  it leaves as text. `JsonGrammar.Proper` lists what a string may hold.
- **`/undo` can erase the system prompt**, although no other command does; see `Conversation.FirstUndoErasesPrompt`.
- **The JSON parser's branch for surrogate pairs in UTF-8 never leads to an accepted string**; see `JsonString.CesuFails`.

## Model

| member | source | states |
|---|---|---|
| `Ruler.LowBitIsMask` | llamafile/tinyblas_cpu.h:561 | `step & -step`, on the integers, is the lowest set bit |
| `Ruler.RuleIsTrailingZeros` | llamafile/tinyblas_cpu.h:561 | the rule the merge loop starts from is one more than the number of times the chunk count can be halved |
| `Ruler.BsrBounds` | llamafile/tinyblas_cpu.h:534 | `bsr` brackets its argument between two powers of two |
| `Ruler.CarryBlock` | llamafile/tinyblas_cpu.h:561-564 | a merge of two equal blocks is a carry: the next block down is the one the rule says |
| `Ruler.PopCountBound` | llamafile/tinyblas_cpu.h:534 | a number has at most `bsr + 1` set bits |
| `Ruler.BlocksLength` | llamafile/tinyblas_cpu.h:549-569 | the number of live stack slots after n chunks is the number of set bits of n |
| `Ruler.BlocksShape` | llamafile/tinyblas_cpu.h:549-569 | the slots cover the chunks 0..n without gap, with strictly falling sizes that are powers of two |
| `Ruler.StackFits` | llamafile/tinyblas_cpu.h:534-569 | the stack never outgrows the declared `bsr(k / CHUNK + 1) + 1` slots |
| `Ruler.PerfectHeight` | llamafile/tinyblas_cpu.h:561-568 | a merged block of 2^b chunks is an addition tree of height b |
| `Ruler.DrainHeight` | llamafile/tinyblas_cpu.h:581-584 | adding the leftover slots gives a tree of height `bsr(n) + 1`, not n |
| `DotProduct.HsumMadd` | llamafile/tinyblas_cpu.h:557-559 | one `madd` over a vector of lanes adds exactly the next lanes' products to the horizontal sum |
| `DotProduct.AccumulateIsDot` | llamafile/tinyblas_cpu.h:551-559 | an accumulator loaded vector by vector sums to the dot product of its range |
| `DotProduct.EvalIsDot` | llamafile/tinyblas_cpu.h:551-589 | whatever addition tree combined the partial sums, its horizontal sum is the dot product of the range the tree covers |
| `DotProduct.PerfectCovers` | llamafile/tinyblas_cpu.h:561-568 | a merged block covers consecutive chunks exactly once |
| `DotProduct.DrainCovers` | llamafile/tinyblas_cpu.h:581-584 | draining the stack covers everything from 0 to the end of the vector tail exactly once |
| `Tiling.Shape` | llamafile/tinyblas_cpu.h:435-524 | the dispatch tables: a tile shape fits the remaining area, and is 1 wide only where the remaining extent is exactly 1 |
| `Tiling.GridOf` | llamafile/tinyblas_cpu.h:535-542 | the `RM > 1 ? ... : 1` shortcut counts tiles correctly, because of how the tables choose shapes |
| `Tiling.JobInRange` | llamafile/tinyblas_cpu.h:535-545 | every cell of the tiled part has a job, and that job's tile holds the cell |
| `Tiling.TileIsJob` | llamafile/tinyblas_cpu.h:544-545 | a tile holds no cells of any other job |
| `Tiling.JobCellsStep` | llamafile/tinyblas_cpu.h:543-545 | the tiles of different jobs are disjoint |
| `Tiling.DutyPositive` | llamafile/tinyblas_cpu.h:538 | the threads' shares together reach every tile |
| `Tiling.JobOwner` | llamafile/tinyblas_cpu.h:538-543 | a job lies in exactly one thread's range of jobs |
| `Tiling.OwnedCases` | llamafile/tinyblas_cpu.h:526-545 | a cell belongs to a thread through exactly one of the three parts mnpack cuts a region into |
| `Tiling.OwnedSplit` | llamafile/tinyblas_cpu.h:526-530 | what a thread owns of a region is the disjoint union of its tiles and what it owns of the two remaining regions |
| `Stores.ApplyConcat` | llamafile/tinyblas_cpu.h:600 | performing two lists of stores one after the other is performing their concatenation |
| `Stores.FilledJoin` | llamafile/tinyblas_cpu.h:526-530 | when two parts fill disjoint sets of cells, each with one store, so do both together |
| `TinyBlas.TinyBLAS.MaddCell` | llamafile/tinyblas_cpu.h:557-559 | one accumulator takes in one more vector; all others keep their values |
| `TinyBlas.TinyBLAS.ChunkPass` | llamafile/tinyblas_cpu.h:549-569 | one trip of the chunk loop adds chunk c to the binary counter of partial sums: slots for c become slots for c + 1 |
| `TinyBlas.TinyBLAS.MergeCarry` | llamafile/tinyblas_cpu.h:561-564 | the merge loop pops exactly the blocks the carry absorbs |
| `TinyBlas.TinyBLAS.PushSum` | llamafile/tinyblas_cpu.h:566-568 | the merged sum becomes the top slot |
| `TinyBlas.TinyBLAS.SumChunk` | llamafile/tinyblas_cpu.h:551-559 | the accumulators of a fresh chunk hold the chunk's sums |
| `TinyBlas.TinyBLAS.VectorTail` | llamafile/tinyblas_cpu.h:571-579 | whole vectors after the last chunk are summed, up to less than one vector before k |
| `TinyBlas.TinyBLAS.DrainStack` | llamafile/tinyblas_cpu.h:581-584 | the leftover slots are added from the top down |
| `TinyBlas.TinyBLAS.ChunkLoop` | llamafile/tinyblas_cpu.h:547-569 | after the loop there is one slot per set bit of the number of chunks, each with its block's sum |
| `TinyBlas.TinyBLAS.SummationHeight` | llamafile/tinyblas_cpu.h:534-584 | the final addition tree has height `bsr(chunks) + 1` |
| `TinyBlas.TinyBLAS.ScalarTail` | llamafile/tinyblas_cpu.h:586-596 | the remaining products are added one at a time, so that every cell holds its whole dot product |
| `TinyBlas.TinyBLAS.TileProduct` | llamafile/tinyblas_cpu.h:547-596 | every cell of a tile ends up with the dot product of its row and column over all of k |
| `TinyBlas.TinyBLAS.StoreTile` | llamafile/tinyblas_cpu.h:598-600 | a tile is stored cell by cell, each cell once, nothing else touched |
| `TinyBlas.TinyBLAS.Gemm` | llamafile/tinyblas_cpu.h:533-602 | a thread's share of the tiles is filled, each cell stored once with its dot product |
| `TinyBlas.TinyBLAS.Mnpack` | llamafile/tinyblas_cpu.h:432-530 | recursion over the remainders ends, and stores every cell the thread owns exactly once, and no other |
| `TinyBlas.TinyBLAS.Matmul` | llamafile/tinyblas_cpu.h:427-429 | one thread's call writes exactly the cells it owns, each once, with its dot product; nothing outside m by n |
| `Gemm.Gemm` | llamafile/gemm.h:43-57 | the reference triple loop meets its own description, for every alpha and beta |
| `Gemm.ResultUnique` | llamafile/gemm.h:43-57 | that description admits one result only |
| `Gemm.UnionCounts` | llamafile/tinyblas_cpu.h:427-602 | over all threads every cell of the output is stored exactly once |
| `Gemm.AllCellsOnce` | llamafile/tinyblas_cpu.h:427-602 | any interleaving of all threads' stores writes each cell once and nothing else |
| `Gemm.AnyScheduleIsGemm` | llamafile/tinyblas_cpu.h:427-602 | any interleaving of all threads' stores leaves in C exactly what the reference product with aT, not bT, alpha 1, beta 0 leaves |
| `Utf8.CodePointEncode` | llamafile/json.cpp:1059-1090 | encoding a scalar value and decoding it again yields it (section 3 of RFC 3629) |
| `Utf8.EncodeCodePoint` | llamafile/json.cpp:1100-1194 | a well-formed character is the encoding of its scalar value |
| `JsonPrinter.UlongToString` | llamafile/json.cpp:210-229 | the digits come out most significant first, with a NUL behind, in at most 20 bytes |
| `JsonPrinter.LongToString` | llamafile/json.cpp:231-236 | also for the minimum, whose magnitude does not fit a signed number |
| `JsonPrinter.Serialize` | llamafile/json.cpp:695-762 | every character is escaped as the table says, malformed UTF-8 byte for byte |
| `JsonPrinter.WriteUnits` | llamafile/json.cpp:745-762 | characters above U+FFFF become two escapes, a high and a low surrogate |
| `JsonPrinter.Marshal` | llamafile/json.cpp:600-685 | printing appends the text of the value, at every nesting and in both layouts |
| `JsonPrinter.ToString` | llamafile/json.cpp:584-590 | the compact text |
| `JsonPrinter.ToStringPretty` | llamafile/json.cpp:592-598 | the indented text |
| `JsonLayout.EscapeTable` | llamafile/json.cpp:695-762 | which characters are printed as they are, which get a short escape, and which are written in UTF-16, from a table of its own |
| `JsonLayout.StringsAreSafe` | llamafile/json.cpp:695-762 | whatever bytes a string holds, its text is printable ASCII without the characters that mean something to HTML |
| `JsonLayout.PrettySpreads` | llamafile/json.cpp:592-685 | the pretty text without the white space outside strings is exactly the compact text |
| `JsonString.ScanString` | llamafile/json.cpp:967-1208 | the string loop follows one step per character, escape or error |
| `JsonString.EmitIsEncode` | llamafile/json.cpp:1059-1090 | what the scanner emits for a code point is its UTF-8 encoding |
| `JsonString.CesuFails` | llamafile/json.cpp:1134-1151 | no accepted string goes through the surrogate-pair branch: it does not advance, and the scan fails right after it |
| `JsonString.StepWellFormed` | llamafile/json.cpp:974-1207 | every step emits well-formed UTF-8, or nothing |
| `JsonString.AcceptedIsUtf8` | llamafile/json.cpp:967-1208 | a string that is accepted is well-formed UTF-8, whatever bytes it was read from |
| `JsonGrammar.ReadsPlain` | llamafile/json.cpp:1098-1207 | raw UTF-8 of one to four bytes is read as the character it is |
| `JsonGrammar.RawTextReadsBack` | llamafile/json.cpp:967-1207 | text without escapes reads back as itself |
| `JsonGrammar.ReadsPiece` | llamafile/json.cpp:986-1096 | every escape of section 7 of RFC 8259, and the two extensions, is read as what it stands for |
| `JsonGrammar.StringIff` | llamafile/json.cpp:967-1208 | what follows a quote is accepted if and only if it is a string of the grammar, and the result is what the string stands for |
| `JsonParser.ReadInteger` | llamafile/json.cpp:873-904 | digits are accumulated with overflow checks, and the first thing that is not a digit of an integer is found |
| `JsonParser.ParseValue` | llamafile/json.cpp:764-1213 | the recursive parser follows its context, depth and position for every input |
| `JsonParser.ReadElems` | llamafile/json.cpp:915-930 | the array loop |
| `JsonParser.ReadFields` | llamafile/json.cpp:941-966 | the object loop |
| `JsonParser.ParseDocument` | llamafile/json.cpp:1217-1232 | a document is one value and nothing but white space behind it |
| `JsonNumbers.IntegerIs` | llamafile/json.cpp:879-899 | the digit loop ends at the first thing that is no digit, and switches to floating point exactly on overflow, fraction or exponent |
| `JsonNumbers.DigitCase` | llamafile/json.cpp:850-914 | leading zeros are refused; any other number is read as the integer it denotes, or converted |
| `JsonSyntax.ReadsTree` | llamafile/json.cpp:764-1210 | every value of the grammar is accepted, as what it stands for |
| `JsonSyntax.OnlyTrees` | llamafile/json.cpp:764-1210 | every value accepted is one of the grammar: white space, commas, colons and keys where the standard has them and nowhere else |
| `JsonSyntax.ParserIsGrammar` | llamafile/json.cpp:764-1232 | for every text: parsing succeeds with a value if and only if the text is a document of the grammar, nested at most 19 deep, that stands for that value |
| `JsonRoundTrip.RuneIsCodePoint` | llamafile/json.cpp:701-719 | the printer's character reader agrees with UTF-8 on well-formed strings |
| `JsonRoundTrip.StepOnUnits` | llamafile/json.cpp:1023-1090 | the parser's \\u branch inverts the printer's surrogate escapes |
| `JsonRoundTrip.StepOnEscape` | llamafile/json.cpp:974-1090 | one scanner step undoes one escape |
| `JsonRoundTrip.ScanSerialized` | llamafile/json.cpp:967-1208 | scanning an escaped string gives back the string |
| `JsonRoundTrip.IntegerPrefix` | llamafile/json.cpp:873-904 | reading the digits of any 64-bit number passes every overflow check and yields the number |
| `JsonRoundTrip.LongRoundTrip` | llamafile/json.cpp:845-904 | every 64-bit integer, the minimum included, reads back as itself |
| `JsonRoundTrip.EmplaceLast` | llamafile/json.cpp:941-966 | fields that come in key order are inserted at the end |
| `JsonRoundTrip.SkipSpaces` | llamafile/json.cpp:774-779 | white space changes nothing |
| `JsonRoundTrip.ElemsRoundTrip` | llamafile/json.cpp:915-930 | the array loop reads back what the printer wrote, or runs out of depth exactly when an element is too deep |
| `JsonRoundTrip.FieldsRoundTrip` | llamafile/json.cpp:941-966 | the object loop likewise |
| `JsonRoundTrip.ValueRoundTrip` | llamafile/json.cpp:764-1213 | at every position and depth, parsing the text of a value yields the value and ends behind it, or exceeds the depth |
| `JsonTheorems.ParseSound` | llamafile/json.cpp:764-1213 | whatever is parsed with success is clean: strings and keys in UTF-8, keys sorted and different, nesting within the depth |
| `JsonTheorems.AcceptedDocument` | llamafile/json.cpp:1217-1232 | the result of any accepted document is clean and nests at most 19 deep |
| `JsonTheorems.RoundTrip` | llamafile/json.cpp:584-1232 | parsing what toString or toStringPretty printed gives success and the same value if and only if nesting is at most 19, else depth_exceeded |
| `JsonTheorems.Reparse` | llamafile/json.cpp:584-1232 | for any accepted document without floating-point numbers, printing and parsing again is the identity |
| `TaggedWord.Unpack` | llamafile/pool.cpp:53-58 | PTR and TAG undo ABA, the tag modulo 4096 |
| `TaggedWord.Pack` | llamafile/pool.cpp:53-58 | every word is the ABA of its PTR and TAG |
| `IdleStack.StepKeeps` | llamafile/pool.cpp:60-81 | every atomic step but a pop that installs a stale thread keeps the linked stack intact, and each successful exchange is one push or one pop of the abstract stack; a push may take any number of exchanges |
| `IdleStack.PopNeedsFresh` | llamafile/pool.cpp:71-81 | a pop leaves the stack it should if and only if the thread it installs is still the one behind the top |
| `IdleStack.HoldsIffFresh` | llamafile/pool.cpp:60-81 | over every interleaving memory holds the stack at every moment if and only if no pop installs a stale thread |
| `IdleStack.StepCompletes` | llamafile/pool.cpp:60-81 | a call ends with exactly its own operation, a push never gives up, and no other step has an effect |
| `IdleStack.CallsAccounted` | llamafile/pool.cpp:60-81 | over every run each finished call stands in the history exactly once, in the order of its caller, and an unfinished one does not |
| `IdleStack.Linearizable` | llamafile/pool.cpp:60-81 | over every run with fewer than 4096 exchanges between a pop's load and its exchange, the history of operations replays to the stack in memory |
| `IdleStack.FourThousandNinetySixIsTooMany` | llamafile/pool.cpp:53-81 | with 4096 exchanges in between a pop of a reachable run installs a stale next and breaks the stack |
| `PoolProofs.StepKeeps` | llamafile/pool.cpp:98-202 | every step of every worker, creator and joiner keeps the hand-off invariant |
| `PoolProofs.AllRuns` | llamafile/pool.cpp:98-202 | it holds in every reachable state |
| `PoolProofs.JoinReturnsTheResult` | llamafile/pool.cpp:162-202 | a function runs at most once, and a join that returns hands over that run's result |
| `PoolProofs.OneWorkerPerTask` | llamafile/pool.cpp:98-160 | no two workers serve one task |
| `PoolProofs.NoSecondTask` | llamafile/pool.cpp:98-202 | no worker serves two tasks: one a creator is about to give a task has none, serves none, and is in no other creator's hands |
| `PoolProofs.NoUseAfterDelete` | llamafile/pool.cpp:105-202 | when a joiner may free a task, its creator is done and no worker will touch it again |
| `PoolProofs.ClearedStaysCleared` | llamafile/pool.cpp:108-117 | once the worker has cleared a task's thread field it never becomes nonzero again |
| `PoolProofs.PushesAreFresh` | llamafile/pool.cpp:119-121 | a worker that pushes itself is not on the idle stack, and nobody has just popped it |
| `PoolProofs.NeverStuck` | llamafile/pool.cpp:98-202 | as long as a task has not been joined, somebody can take a step, or the task is finished and waits for its join to be called |
| `CoreManager.StepKeeps` | llamafile/core_manager.cpp:38-84 | every step of acquire and release keeps the count equal to the cores held |
| `CoreManager.AllRuns` | llamafile/core_manager.cpp:38-84 | in every reachable state |
| `CoreManager.CountIsExact` | llamafile/core_manager.cpp:38-84 | 0 <= used <= total, and used is the sum of what callers hold or have gathered |
| `CoreManager.GotEnough` | llamafile/core_manager.cpp:38-70 | an acquire that returns gives a count between need and greed |
| `CoreManager.ReleaseNeverUnderflows` | llamafile/core_manager.cpp:72-84 | releasing what was acquired never drives the count below zero |
| `CoreManager.BooksBalance` | llamafile/core_manager.cpp:38-84 | over every run each caller holds what its acquires returned less what it gave to release |
| `CoreManager.OneByOneForgetsNone` | llamafile/core_manager.cpp:72-84 | when cores are given back one at a time, as long as anybody sleeps there are no more free cores than callers about to look for one |
| `CoreManager.NobodyStranded` | llamafile/core_manager.cpp:38-84 | so nobody sleeps for good while a core is free |
| `CoreManager.ManyAtOnceStrand` | llamafile/core_manager.cpp:72-84 | giving back any larger number at once can leave a caller asleep with cores free |
| `ZipFormat.ReadLe` | llamafile/zip.h:132-180 | reading back a little-endian number gives it modulo its width |
| `ZipFormat.GetCompressedSize` | llamafile/zip.c:33-47 | the compressed size, from the entry or its zip64 extra field |
| `ZipFormat.GetOffset` | llamafile/zip.c:49-65 | the local header's offset, likewise |
| `ZipFormat.CentralDecodes` | llamafile/zipalign.c:389-421 | on an entry zipalign wrote, the readers give back the size and offset that were written |
| `ZipFormat.End64Reads` | llamafile/zipalign.c:441-452 | the zip64 end record reads back as written |
| `ZipFormat.HeadersAgree` | llamafile/zipalign.c:366-420 | the local header says what the directory entry says, field for field, name, checksum and sizes included |
| `ZipSearch.FindDirectory` | llamafile/zipalign.c:178-206 | the backward search, with the buffer overwritten through every locator it follows |
| `ZipSearch.FakeInOffset` | llamafile/llamafile.c:105-112 | where the locator's own offset spells a magic number, the search is led past the end of the file and rejects it |
| `ZipSearch.ReachesLocator` | llamafile/llamafile.c:105-125 | all 22 positions behind the locator are passed over, for every archive of at most 2^42 bytes |
| `ZipSearch.FindsWhatWasWritten` | llamafile/llamafile.c:82-126 | the search returns count, offset and size of the records zipalign wrote, whatever stands before them |
| `ZipLegacy.FindsLegacy` | llamafile/llamafile.c:118-126 | in a file that ends with a legacy record the search returns its count, offset and size |
| `ZipLegacy.ListedDecodes` | llamafile/zip.c:33-65 | whatever numbers an entry keeps in 32 bits and whatever it moves to the zip64 field, the readers give back the size and offset that were meant |
| `ZipDirectory.LookUp` | llamafile/llamafile.c:147-173 | the reader's walk over the directory |
| `ZipDirectory.LookupCounts` | llamafile/llamafile.c:147-173 | on well-formed records the walk counts every hit and remembers the last |
| `ZipDirectory.MemmoveInPlace` | llamafile/zipalign.c:254 | one record slides down in place |
| `ZipDirectory.CompactInPlace` | llamafile/zipalign.c:231-260 | the writer's compaction in place, re-reading each record's size after its move |
| `ZipDirectory.SmallOrUnmoved` | llamafile/zipalign.c:238-256 | a record that does not move, or is at most 28 bytes longer than the gap, still shows its size after the move |
| `ZipDirectory.VisitsEveryRecord` | llamafile/zipalign.c:231-258 | the walk visits every record where it starts if and only if each kept record but the last still shows its size after its move |
| `ZipDirectory.CompactIsFilter` | llamafile/zipalign.c:231-260 | then the directory shrinks to the records not replaced, byte for byte and in order |
| `ZipDirectory.LaterRecordsLost` | llamafile/zipalign.c:231-260 | if a size read after a move runs past the directory, every later record is lost; the result is right if and only if none of them was to be kept |
| `ZipDirectory.CompactKeepsRecords` | llamafile/zipalign.c:231-260 | on any directory whatever, compaction that ends leaves whole records, counted, none of a name to be replaced |
| `ZipDirectory.CompactionLosesC` | llamafile/zipalign.c:231-260 | a concrete directory of three records from which the third, not replaced, disappears |
| `ZipWriter.Zipalign.CopyFile` | llamafile/zipalign.c:319-335 | the content lands where it should, however the reads are cut up |
| `ZipWriter.Zipalign.Align` | llamafile/zipalign.c:290-296 | the first position that puts the content on the alignment |
| `ZipWriter.Zipalign.Add` | llamafile/zipalign.c:262-425 | one file added: padding, local header, content, directory entry, and 24 bytes left unused |
| `ZipWriter.Zipalign.Finish` | llamafile/zipalign.c:434-467 | the directory and the end records close the archive |
| `ZipWriter.AllDistinct` | llamafile/zipalign.c:225-229 | the duplicate-name check |
| `ZipWriter.Run` | llamafile/zipalign.c:159-470 | the whole program at level 0 computes the archive the specification describes |
| `ZipTheorems.Appends` | llamafile/zipalign.c:262-425 | adding files never changes a byte already in the output |
| `ZipTheorems.LocalStands` | llamafile/zipalign.c:290-387 | every local record stands at its place, above the old bytes and below the directory |
| `ZipTheorems.LocalsAreDisjoint` | llamafile/zipalign.c:262-425 | the local records of different files do not overlap |
| `ZipTheorems.ZippedIs` | llamafile/zipalign.c:159-470 | when the compaction is sound and no name is given twice, the program does not fail, and writes the archive of kept and added files |
| `ZipTheorems.NewArchive` | llamafile/zipalign.c:434-467 | the search run on the new archive leads to exactly the kept and the new records |
| `ZipTheorems.AddedFileOpens` | llamafile/llamafile.c:101-206 | asked for an added file, the reader finds one entry and its exact content |
| `ZipTheorems.OldFileOpens` | llamafile/llamafile.c:101-206 | a file that was not replaced opens to the same place and size as before |
| `ZipTheorems.ZipThenOpen` | llamafile/zipalign.c:159-470 | whatever zipalign added opens, even to an archive with a malformed directory: exactly its bytes, at an aligned offset, above all old bytes |
| `ZipTheorems.ZipOnlyAppends` | llamafile/zipalign.c:159-470 | no byte of the old file changes, whatever it was |
| `ZipTheorems.WroteIs` | llamafile/zipalign.c:159-470 | the directory written is made of whole records: some old ones, none named like an added file, then one for each added file |
| `ZipTheorems.StrayedOpens` | llamafile/zipalign.c:231-260 | when the compaction strays past the directory behind record k, an old file opens as before if and only if its record is one of the first k + 1, and is not found otherwise |
| `ZipTheorems.ZipKeepsOld` | llamafile/zipalign.c:159-470 | when the compaction is sound, every old file not replaced opens as before |
| `ZipReader.Open` | llamafile/llamafile.c:61-206 | the reader, from the search to the content's position |
| `ZipReader.OpenOfRecords` | llamafile/llamafile.c:134-206 | on an archive of well-formed records the outcome depends on the one record that answers, or there is none |
| `ZipLegacy.ListedFileOpens` | llamafile/llamafile.c:101-206 | from an archive another program wrote the reader gives exactly the bytes of a stored file and refuses a compressed one |
| `ZipLegacy.GgufMeans` | llamafile/llamafile.c:163-166 | the ending ".gguf" is matched in any case, and something has to stand before it |
| `KvCache.RmTail` | llamafile/chatbot_hist.cpp:215-219 | removing the cells from a position on leaves the cells of the shorter history |
| `KvCache.DecodeAppends` | llamafile/chatbot_eval.cpp:50-52 | decoding a batch at the end gives the cells of the longer history |
| `KvCache.ForgetCloses` | llamafile/chatbot_hist.cpp:207-210 | removing a slice of cells and sliding the later ones down gives the cells of the history without the slice |
| `Conversation.EvalStringGrows` | llamafile/chatbot_eval.cpp:34-145 | evaluation only appends, keeps the cache in step and stays within the context, wherever it stops |
| `Conversation.EvalFromAppends` | llamafile/chatbot_eval.cpp:38-53 | if all batches succeed the history grows by exactly the tokens, for any batch size |
| `Conversation.RewindBack` | llamafile/chatbot_repl.cpp:176-179 | rewinding after a failure restores the state exactly |
| `Conversation.AdjustFits` | llamafile/chatbot_hist.cpp:157-173 | after the cut a stack of positions is in order and within the shorter history |
| `Conversation.ForgetKeeps` | llamafile/chatbot_hist.cpp:194-213 | /forget never erases a system-prompt token and keeps everything in step |
| `Conversation.ForgetDenotes` | llamafile/chatbot_hist.cpp:157-213 | each position that survives /forget denotes its old prefix with the erased slice taken out |
| `Conversation.StepKeeps` | llamafile/chatbot_repl.cpp:139-207 | every command keeps cache, context bound, stacks and system prompt consistent |
| `Conversation.SetupStarts` | llamafile/chatbot_repl.cpp:98-131 | the setup establishes that |
| `Conversation.AllRuns` | llamafile/chatbot_repl.cpp:98-207 | over every run the cache holds exactly the cells (i, history[i]), the context is not exceeded, both stacks are in order and in range |
| `Conversation.SystemPromptStays` | llamafile/chatbot_hist.cpp:194-272 | no command but /undo touches the system prompt |
| `Conversation.UndoGoesBack` | llamafile/chatbot_hist.cpp:180-192 | /undo goes back to the last recorded position before the end; the system prompt survives if and only if that is not below it |
| `Conversation.FirstUndoErasesPrompt` | llamafile/chatbot_repl.cpp:98-140 | right after the setup /undo erases the system prompt |
| `Conversation.FailureLeavesNoTrace` | llamafile/chatbot_repl.cpp:166-179 | a message or upload that fails half-way leaves only the recorded undo point |
| `Conversation.UndoAfterTalk` | llamafile/chatbot_hist.cpp:175-192 | /undo after a message or upload restores history, cache, stack and system prompt |
| `Conversation.PopAfterPush` | llamafile/chatbot_hist.cpp:260-276 | /push, any talk, /pop restores the conversation that was pushed |
| `ConversationLaws.ClearIs` | llamafile/chatbot_hist.cpp:249-253 | /clear goes back to the end of the system prompt, empties the context stack and keeps exactly the undo points not above |
| `ConversationLaws.UndoIs` | llamafile/chatbot_hist.cpp:180-192 | /undo goes back to the last undo point before the end, all parts in step |
| `ConversationLaws.PopIs` | llamafile/chatbot_hist.cpp:265-276 | /pop goes back to the position pushed last and takes just that off the stack |
| `ConversationLaws.RecordIs` | llamafile/chatbot_hist.cpp:175-178 | the undo point is recorded once |
| `ConversationLaws.MessageIs` | llamafile/chatbot_eval.cpp:34-145 | evaluating succeeds if and only if every piece can be decoded and all of it fits; then the history grows by exactly its tokens |
| `ConversationLaws.ReplyIs` | llamafile/chatbot_repl.cpp:186-199 | the reply adds exactly the samples the model takes, as far as there is room |
| `ConversationLaws.SayAdds` | llamafile/chatbot_repl.cpp:162-206 | what saying something adds: the message and the reply, or nothing |
| `ConversationLaws.UploadAdds` | llamafile/chatbot_file.cpp:37-90 | what an upload adds: its content, or nothing |
| `ConversationLaws.SetupIs` | llamafile/chatbot_repl.cpp:98-131 | a conversation starts with the first token and the whole system prompt, protected to its end |
| `Chatbot.Chat.OnUndo` | llamafile/chatbot_hist.cpp:180-192 | /undo on the mutable state |
| `Chatbot.Chat.OnForget` | llamafile/chatbot_hist.cpp:194-213 | /forget on the mutable state |
| `Chatbot.Chat.OnClear` | llamafile/chatbot_hist.cpp:249-253 | /clear on the mutable state |
| `Chatbot.Chat.OnPush` | llamafile/chatbot_hist.cpp:260-263 | /push on the mutable state |
| `Chatbot.Chat.OnPop` | llamafile/chatbot_hist.cpp:265-276 | /pop on the mutable state |
| `Chatbot.Chat.PopAbove` | llamafile/chatbot_hist.cpp:146-149 | a stack loses the positions past the end |
| `Chatbot.Chat.Adjust` | llamafile/chatbot_hist.cpp:157-168 | positions in the slice go, later ones move down |
| `Chatbot.Chat.Eval` | llamafile/chatbot_eval.cpp:34-61 | batched evaluation with the context guard |
| `Chatbot.Chat.EvalMessage` | llamafile/chatbot_eval.cpp:120-145 | text and images of a message, until one fails |
| `Chatbot.Chat.OnSay` | llamafile/chatbot_repl.cpp:162-206 | a message, the rewind if it fails, and the reply token by token |
| `Chatbot.Chat.OnUpload` | llamafile/chatbot_file.cpp:37-90 | an upload, rewound if it fails |
| `Chatbot.Chat.Start` | llamafile/chatbot_repl.cpp:98-131 | the setup in its order |
| `Chatbot.Chat.Repl` | llamafile/chatbot_repl.cpp:139-207 | the loop: record the undo point, then the command |
| `Dll3.Node.constructor` | llamafile/dll3.h:36-40 | a new element is alone in its own ring |
| `Dll3.Walk` | llamafile/dll3.h:50-76 | first, next and prev walk the list in order, and end in null |
| `Dll3.Inverse` | llamafile/dll3.c:25-33 | next and prev are inverse on a ring |
| `Dll3.Rotate` | llamafile/dll3.c:25-33 | a ring may be read from any of its elements |
| `Dll3.SpliceAfter` | llamafile/dll3.c:25-33 | two disjoint rings become one, in the stated order |
| `Dll3.Remove` | llamafile/dll3.c:40-52 | the list loses one element, which is left alone in its own ring |
| `Dll3.MakeFirst` | llamafile/dll3.c:63-71 | the new ring stands before the old list |
| `Dll3.MakeLast` | llamafile/dll3.c:82-87 | the new ring stands behind the old list |
| `PercentDecode.Decode` | llamafile/datauri.cpp:83-143 | the three-state machine computes: replace a leading %HH by its byte, otherwise copy one byte, on every input |
| `PercentDecode.StepKeepsRule` | llamafile/datauri.cpp:92-130 | no step of the machine changes what the rule makes of the whole |
| `PercentDecode.RoundTrip` | llamafile/datauri.cpp:83-143 | decoding undoes any escaping that escapes at least every % (section 2.1 of RFC 3986) |
| `PercentDecode.HexMeans` | llamafile/datauri.cpp:64-81 | the hexadecimal digits of both cases |
| `LineHistory.History.Add` | llamafile/bestline.c:3669-3684 | a line that repeats the last one is not added; otherwise the last 1024 lines are kept |
| `LineHistory.History.Save` | llamafile/bestline.c:3691-3708 | one line each, a newline behind |
| `LineHistory.Collect` | llamafile/bestline.c:3730-3744 | the ring of 1024 slots holds line t in slot t modulo 1024 |
| `LineHistory.History.Load` | llamafile/bestline.c:3718-3766 | the history becomes exactly the last 1024 non-empty lines, trailing carriage returns stripped |
| `LineHistory.StripTakes` | llamafile/bestline.c:3734-3737 | only carriage returns and newlines are taken off a line |
| `LineHistory.RoundTrip` | llamafile/bestline.c:3691-3766 | a history comes back from its file if and only if no line is empty, holds a newline or ends in a carriage return |
| `KillRing.Slots.RingPush` | llamafile/bestline.c:2451-2461 | a killed text takes the next slot; nothing is pushed for an empty one |
| `KillRing.Slots.RingRotate` | llamafile/bestline.c:2463-2470 | back to the previous slot in use, the unsigned index wrapping at zero |
| `KillRing.PushShows` | llamafile/bestline.c:2451-2461 | the text killed last is the current entry, in a slot of its own, and one rotation shows the one before |
| `KillRing.RotateRecalls` | llamafile/bestline.c:2451-2470 | after killing some texts, rotating d times shows the one killed d before the last, for the last eight |
| `KillRing.RotatesTo` | llamafile/bestline.c:2463-2470 | n rotations end at the n-th slot in use, counting back |
| `KillRing.OnceRound` | llamafile/bestline.c:2463-2470 | as many rotations as there are slots in use come back to the start |
| `LineText.ReadRune` | llamafile/bestline.c:1432-1477 | the character reader's loop over continuation bytes |
| `LineText.StepBack` | llamafile/bestline.c:2491-2498 | one step back over continuation bytes |
| `LineText.ReadsChar` | llamafile/bestline.c:1432-1477 | at a character boundary of well-formed text exactly that character is read |
| `LineText.StepsBack` | llamafile/bestline.c:2491-2498 | stepping back from a boundary leads to the boundary before |
| `Mirror.GetMirror` | llamafile/bestline.c:1331-1346 | the binary search finds a pair if the table has one |
| `Mirror.MirrorsInvert` | llamafile/bestline.c:1348-1376 | the two bracket tables are inverse, and no bracket is its own partner |
| `Mirror.FindRight` | llamafile/bestline.c:2527-2553 | the scan to the right over the bytes finds the partner's position |
| `Mirror.FindLeft` | llamafile/bestline.c:2500-2525 | the scan to the left likewise |
| `Mirror.RightMatchIsPair` | llamafile/bestline.c:2527-2553 | the right scan finds j if and only if the text between is balanced for that kind of bracket |
| `Mirror.LeftMatchIsPair` | llamafile/bestline.c:2500-2525 | the left scan finds i if and only if it is |
| `Mirror.ScansAgree` | llamafile/bestline.c:2500-2553 | going right from a bracket finds its partner if and only if going left from behind the partner finds the bracket |
| `LineEdits.TransposedKeeps` | llamafile/bestline.c:3052-3070 | transposing whole characters permutes them |
| `LineEdits.SlurpedKeeps` | llamafile/bestline.c:3286-3333 | slurping permutes the characters and leaves those before the cursor |
| `LineEdits.BarfedKeeps` | llamafile/bestline.c:3212-3271 | barfing permutes the characters |
| `LineEdits.WordsTransposedKeeps` | llamafile/bestline.c:3072-3096 | transposing whole words permutes the characters |
| `LineEdits.UniformEscapes` | llamafile/bestline.c:2850-2869 | on a line whose characters all take the same number of bytes the escape ends between two characters |
| `LineEdits.WordsCutACharacter` | llamafile/bestline.c:2850-2869 | on other lines it need not: a concrete line that transposing words turns into malformed UTF-8 |
| `LineEdits.TransposingWordsKeepsUtf8` | llamafile/bestline.c:3072-3096 | the line stays UTF-8 if and only if no words are exchanged, or neither the end of the first nor the start of the second is inside a character |
| `LineEdits.WholeWordsMove` | llamafile/bestline.c:3072-3096 | then whole characters are permuted, and the cursor is behind the second word |
| `LineEdits.SwappedBetween` | llamafile/bestline.c:2850-2869 | that is so whenever the escape ends between two characters, and the words around that place are the ones exchanged |
| `LineLaws.WordRightEnds` | llamafile/bestline.c:2838-2842 | right by a word: only separators in between, then one whole word |
| `LineLaws.WordLeftEnds` | llamafile/bestline.c:2844-2848 | left by a word likewise |
| `LineLaws.SqueezeTakesGap` | llamafile/bestline.c:3098-3108 | squeezing takes out the whole gap around the cursor and nothing but separators |
| `LineLaws.RemoveUndoesInsert` | llamafile/bestline.c:2764-2773 | taking out what was inserted gives back line and cursor |
| `LineLaws.TransposesTwo` | llamafile/bestline.c:3052-3070 | just the two characters around the cursor are exchanged |
| `LineLaws.TakesEnclosing` | llamafile/bestline.c:3217-3235 | slurp and barf take the enclosing bracket if and only if no bracket stands inside an outermost one of its kind; otherwise one before it |
| `LineLaws.NestedIsLost` | llamafile/bestline.c:3217-3235 | a line on which they take the wrong one |
| `LineLaws.BarfUndoesSlurp` | llamafile/bestline.c:3212-3333 | slurping a word and barfing gives back the line and the cursor |
| `LineEditor.Editor.Grow` | llamafile/bestline.c:2238-2258 | room is made without changing the line |
| `LineEditor.Editor.EditInsert` | llamafile/bestline.c:2764-2773 | well-formed text goes in at the cursor |
| `LineEditor.Editor.EditLeft` | llamafile/bestline.c:2871-2874 | one character left |
| `LineEditor.Editor.EditLeftWord` | llamafile/bestline.c:2885-2888 | left over separators, then a word |
| `LineEditor.Editor.EditRightWord` | llamafile/bestline.c:2890-2893 | right over separators, then a word |
| `LineEditor.Editor.EditLeftExpr` | llamafile/bestline.c:2895-2904 | left over a bracketed expression or a word |
| `LineEditor.Editor.EditRightExpr` | llamafile/bestline.c:2906-2915 | right over one |
| `LineEditor.Editor.EditDelete` | llamafile/bestline.c:2917-2925 | the character behind the cursor goes |
| `LineEditor.Editor.EditRubout` | llamafile/bestline.c:2927-2936 | the character before the cursor goes |
| `LineEditor.Editor.EditDeleteWord` | llamafile/bestline.c:2938-2947 | the next word goes, to the kill ring |
| `LineEditor.Editor.EditRuboutWord` | llamafile/bestline.c:2949-2959 | the word before the cursor goes, to the kill ring |
| `LineEditor.Editor.EditKillLeft` | llamafile/bestline.c:3001-3010 | everything before the cursor goes to the ring |
| `LineEditor.Editor.EditKillRight` | llamafile/bestline.c:3012-3017 | everything behind the cursor goes to the ring |
| `LineEditor.Editor.EditXlatWord` | llamafile/bestline.c:2961-2986 | the next word is translated character by character, growing or shrinking the line |
| `LineEditor.Editor.EditYank` | llamafile/bestline.c:3019-3038 | the ring's entry goes in at the cursor, and its bounds are remembered |
| `LineEditor.Editor.EditRotate` | llamafile/bestline.c:3040-3050 | the text yanked last gives way to the entry before it |
| `LineEditor.Editor.YankAndRotate` | llamafile/bestline.c:3019-3050 | after a yank and n rotations the line is the original with one entry at the yank point; with n the number of slots in use it is the first yank's |
| `LineEditor.Editor.KillAndYank` | llamafile/bestline.c:2938-3038 | killing left, right or a word and yanking at once gives back the line, the cursor behind what was killed |
| `LineEditor.Editor.EditTranspose` | llamafile/bestline.c:3052-3070 | two characters change places and the line stays UTF-8 if and only if it is not at the end of a line ending in a character of several bytes |
| `LineEditor.Editor.EditTransposeWords` | llamafile/bestline.c:3072-3096 | the bytes of the two words change places; the line stays UTF-8, whole characters permuted, if and only if no character is cut |
| `LineEditor.Editor.EditSqueeze` | llamafile/bestline.c:3098-3108 | the separators around the cursor go |
| `LineEditor.Editor.EditSlurp` | llamafile/bestline.c:3286-3333 | the closing bracket moves right over the next item |
| `LineEditor.Editor.EditBarf` | llamafile/bestline.c:3212-3271 | the closing bracket moves left over the last item, the cursor staying with its character |

## Left out

- Matrix product: floating-point rounding, Kahan correction, SIMD intrinsics and the fp16 and bf16 loads and stores; numbers are reals and a vector is a sequence of lanes.
- Matrix product: the 16-register table of the precise AVX2 product (llamafile/tinyblas_cpu.h:906-925), whose shapes do not guarantee what the tile count relies on, and the quantized kernels.
- Matrix product: llamafile/ansiblas.h, the same scheme with another table; and the `CONFIG` variants that index through pointers.
- Matrix product: A and B are values, so that C overlapping an input is not covered; the counter `step` is unbounded, which matters only beyond 2^30 chunks.
- JSON: floating-point numbers go through the double-conversion library, which is an unknown but fixed function here; round trips leave them out.
- JSON: what is left in the result and the position after a failed parse, and moves of C++ values; a field whose key repeats may or may not take the moved value, and `Json.Library` leaves open which.
- Thread pool: cancellation, shutdown, deletion of threads, and memory orderings weaker than sequential consistency. In the pool's state machine a push and a pop of the idle stack are one step each, as the idle stack's own theorem justifies.
- Core counter: callers release what they were given; the guard against releasing more is not modelled.
- ZIP: deflate, checksums, time stamps, modes and mapping; a checksum is a number carried along. Names are given as they are stored. A directory shorter than four bytes counts as one without the magic number.
- ZIP: a compaction that would write outside the directory, which the code does not check for, ends in an outcome of its own.
- Conversation: tokenizing, templates and sampling are inputs, as is where evaluation is refused or interrupted; `llama_decode` and the cache functions have their usual meaning; a failed decode leaves the cache alone. Roles, printing and commands that only print are left out.
- Line editor: terminal handling, refresh, completion, search, mark and goto, and the tables of letter classes and cases; a class of separators and a translation are parameters. The bytes of a line are a sequence with room at the end, and allocation does not fail.
- LineEditor.Editor.EditTranspose: asks for a line that is not empty, because the code reads outside the line otherwise.
- LineEditor.Editor.EditTransposeWords: a step of the escape past the end of the line stops at the end, whereas the code goes on from there; nothing is exchanged either way.
- LineEditor.Editor.EditRotate: takes the keystroke test as a flag that is set only when the last command yanked or rotated.
- Line history: a NUL byte inside a loaded line does not end it, as it does for a C string.
- Data URIs: the parser of the parts before the payload.
- GPU loading, HTTP and TLS clients, SQLite, flags, system probing, image and colour code, and syntax highlighting.
