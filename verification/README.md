# Verified models of algorithms in a WebKit fork

Dafny models of the self-contained algorithms in a WebKit fork whose correctness is hard to see by
reading, with proofs of what they are for. `dafny verify dfyconfig.toml` checks everything.

- **Keyword lookup compiler** (`Keyword*.dfy`). `KeywordLookupGenerator.py` turns a keyword table into
  a trie, compresses its paths, orders siblings by observed weight and prints C code that looks
  keywords up with packed compares. `KeywordTrie`, `KeywordCompress` and `KeywordWeights` hold the
  passes on values; `KeywordCompare` gives the macros their meaning over the bytes of the buffer;
  `KeywordCode` holds the printed lines and their execution; `KeywordEdges` says when all tests have
  a macro; `KeywordCompiler` proves the compiler correct end to end; `KeywordOrder` proves the order
  optimal; `KeywordNode` is the script's own object-oriented code, proved against the passes.
- **CRC-32 and PNG** (`Binary.dfy`, `CyclicRedundancyCheck.dfy`, `CrcDivision.dfy`, `CrcTable.dfy`,
  `CrcValues.dfy`, `Png.dfy`). The table-driven CRC with its lazily filled table against the
  bit-at-a-time register and against the division that defines it, what it detects, and splicing a
  comment chunk into a PNG file (sections 3.1, 3.2, 3.4, 4.1.1 and 4.2.7 of RFC 2083) while writing it
  out.
- **Self-respawning threads** (`ThreadPool.dfy`, `ThreadPoolLife.dfy`, `ThreadPoolStop.dfy`,
  `ThreadPoolClear.dfy`). `JavaScriptThreading.cpp` as a transition system. A worker takes the mutex in
  one step and does its work under it in the next ones; the stopper's joins and its clear do not need
  the mutex and come in between. Properties of all interleavings.
- **User addons** (`AddonMatching.dfy`, `StyleStripping.dfy`, `StyleSheet.dfy`, `StyleText.dfy`,
  `StyleLoss.dfy`, `StyleRules.dfy`). The translation of glob patterns, the include and exclude
  decision, and the one-pass CSS stripper of `addons.c`: the pass, the sheets it gets right, and those
  it does not.
- **Parsers** (`Decimal.dfy`, `TestLine.dfy`, `TestEscapes.dfy`, `LineShapes.dfy`, `Command.dfy`). Regular
  expression test lines and quote-separated commands, with printers and descriptions of all accepted
  lines.
- **Queues and lines** (`WorkQueue.dfy`, `SharedWorkQueue.dfy`, `WorkQueueManager.dfy`,
  `LineSplitter.dfy`). FIFO queues with ownership and re-entrancy, and a streaming line splitter.

`Wrappers.dfy` and `Sequences.dfy` hold shared definitions and facts.

## What turned out not to hold

- Generated keyword code does not look identifiers up for every table: `OddKeywordIsMistaken` gives
  a buffer for every table with a keyword whose identifier run is no keyword, and
  `LooksUpIdentifiersExactly` shows that these are the only tables with the fault. The whole file
  generated from such a table is not C++ in any case: line 147 prints the keyword as part of an
  identifier.
- Not every table compiles: `CompilesExactly` gives the exact condition for the tests, on the table
  alone.
- `stopJavaScriptThreads` does not always wait for every thread: `StragglerIsReachable` is a run, and
  `StopWaitsForAllExactly` says exactly when it does.
- It clears the thread set without the mutex (JavaScriptThreading.cpp, line 150), and a worker that has
  detached itself in line 111 can be about to do lines 112 and 113 then: `RaceIsReachable` gives runs
  with such a clear and with a set that is not empty after the stop. `ClearIsSafeExactly` shows that
  both are ruled out exactly when no worker is past the check at the copy.
- The assertion in `javaScriptThreads` fails at that clear, except when a straggler happens to hold the
  mutex: `AssertionFailsExactly`, and `BothOutcomesReachable` for runs of both kinds.
- The style stripper does not handle all comments: `StripExactly` and `RightThroughoutExactly` say
  which, and `LeakAndLossCancel` why the second one speaks of all beginnings of a sheet.
- It takes other at-rules for wrappers and loses their openings or the rest of the sheet:
  `AtRulesKeptExactly` says when. Blanks are not always single: `SingleBlanksExactly`.
- The command parser takes `--timeout` behind a bare pixel flag for the hash: `TimeoutBehindFlagDies`.
  In builds without assertions it accepts `--timeout` without a number as zero, and goes on behind
  one empty piece: `LineParses` and `LineParsesOnly` of `Command` cover both kinds of build.
- The test line parser does not stay inside its line: `ShortLineLooksBehind` gives lines,
  and `PastEndExactly` the condition. It accepts some lines without a closing quote:
  `LineShapes.LineParsesOnly` shows that this is the only accidental kind.
- Processing a `WorkQueueManager` queue need not end (`RequeueingNeverStops`); `ProcessWorkQueue`
  covers every run that does.

## Model

| member | source | states |
|---|---|---|
| `KeywordTrie.FindInsert` | Source/JavaScriptCore/KeywordLookupGenerator.py:103-109 | inserting a key changes the value of that key and of no other |
| `KeywordTrie.InsertKeepsShape` | Source/JavaScriptCore/KeywordLookupGenerator.py:103-109 | after every insert, siblings have non-empty prefixes with distinct first characters, edges are single characters and no node is a dead end |
| `KeywordTrie.BuildMeetsTable` | Source/JavaScriptCore/KeywordLookupGenerator.py:214-217 | the trie built from a keyword list gives every text exactly what the table gives it, the last entry for a key winning |
| `KeywordCompress.RekeyingKeepsEveryChild` | Source/JavaScriptCore/KeywordLookupGenerator.py:111-116 | re-keying the dictionary with the merged prefixes never makes two children collide: each is kept, in its place, and first characters stay distinct |
| `KeywordCompress.CoalesceMeaning` | Source/JavaScriptCore/KeywordLookupGenerator.py:111-126 | a coalesced subtree, with its longer prefix, gives every text the value the original gives it |
| `KeywordCompress.CoalesceShape` | Source/JavaScriptCore/KeywordLookupGenerator.py:111-126 | coalescing leaves only nodes that carry a value or have at least two children |
| `KeywordCompress.CompressMeaning` | Source/JavaScriptCore/KeywordLookupGenerator.py:218 | although the result of the root's `coalesce` is dropped, the root still looks every key up as before and everything below it is compressed |
| `KeywordCompress.CompressedSize` | Source/JavaScriptCore/KeywordLookupGenerator.py:111-126 | n non-empty keywords leave at most 2n - 1 nodes below the root, none when n = 0 |
| `KeywordWeights.SortByWeightSorts` | Source/JavaScriptCore/KeywordLookupGenerator.py:137 | the sibling order is by decreasing weight and stable: for every weight the siblings of that weight keep their order |
| `KeywordWeights.SortByWeightPermutes` | Source/JavaScriptCore/KeywordLookupGenerator.py:137 | sorting loses and invents no sibling |
| `KeywordWeights.StableOrderIsUnique` | Source/JavaScriptCore/KeywordLookupGenerator.py:137 | a stable decreasing order is unique, so any stable sort gives the order modelled here |
| `KeywordWeights.DecreasingIsOptimal` | Source/JavaScriptCore/KeywordLookupGenerator.py:137 | rearrangement inequality: among all permutations of the siblings, decreasing weight has the least sum of rank times weight |
| `KeywordWeights.FillOutIsOptimal` | Source/JavaScriptCore/KeywordLookupGenerator.py:128-138 | at every node of a filled out trie the order of the children has the least weighted sum of ranks over all permutations |
| `KeywordWeights.FillOutWeighs` | Source/JavaScriptCore/KeywordLookupGenerator.py:128-138 | at every node the weight is the sum of the keyword weights over the full prefixes of the nodes below and at it |
| `KeywordWeights.FillOutShape` | Source/JavaScriptCore/KeywordLookupGenerator.py:128-138 | every node gets the concatenation of the edges above it as its full prefix, and siblings stay distinguishable |
| `KeywordWeights.FillOutCompressed` | Source/JavaScriptCore/KeywordLookupGenerator.py:128-138 | filling out keeps the trie compressed and loses no child |
| `KeywordWeights.FillOutMeaning` | Source/JavaScriptCore/KeywordLookupGenerator.py:128-138 | filling out and reordering changes the value of no key |
| `KeywordOrder.PrefixesDistinct` | Source/JavaScriptCore/KeywordLookupGenerator.py:128-138 | no full prefix occurs twice, so no keyword weight is counted twice |
| `KeywordOrder.WordsArePrefixes` | Source/JavaScriptCore/KeywordLookupGenerator.py:128-138 | every keyword below a node is the full prefix of some node below it, so its weight is counted |
| `KeywordOrder.GeneratedOrder` | Source/JavaScriptCore/KeywordLookupGenerator.py:214-219 | for every table and weights: weights of the generated trie are sums over distinct full prefixes that include every keyword, and all sibling orders are optimal |
| `KeywordCompare.Compare2Meaning` | Source/JavaScriptCore/KeywordLookupGenerator.py:222-263 | in each configuration and for both character types the two character macro, packed or not, holds exactly when both characters are equal |
| `KeywordCompare.Compare4Meaning` | Source/JavaScriptCore/KeywordLookupGenerator.py:226-279 | likewise the four character macro, including the x86-64 load of 32 or 64 bits |
| `KeywordCompare.CoverEqual` | Source/JavaScriptCore/KeywordLookupGenerator.py:295-298 | two compares that cover all characters, overlapping or not, together decide equality |
| `KeywordCompare.CompareMeaning` | Source/JavaScriptCore/KeywordLookupGenerator.py:222-302 | every test of one to eight characters, in every configuration and for LChar and UChar, holds exactly when the characters are equal one by one |
| `KeywordCode.SkipSubtree` | Source/JavaScriptCore/KeywordLookupGenerator.py:165-174 | skipping the printed lines of a subtree reaches what was printed after it: braces balance |
| `KeywordCode.LeaveChain` | Source/JavaScriptCore/KeywordLookupGenerator.py:165-174 | from the end of a taken branch execution goes on after the whole if / else-if chain |
| `KeywordCode.ExecSubtree` | Source/JavaScriptCore/KeywordLookupGenerator.py:140-174 | running the flat list of printed lines of a subtree and then any further lines is running the subtree as a tree and falling through to those lines |
| `KeywordEdges.EdgesFitExactly` | Source/JavaScriptCore/KeywordLookupGenerator.py:157-164 | a compressed trie has edges of at most eight characters exactly when its keywords never go nine characters without a branch or an end |
| `KeywordEdges.EdgesOfExactly` | Source/JavaScriptCore/KeywordLookupGenerator.py:157 | the edges of a compressed trie consist of characters of a given kind if and only if its keywords do: every edge lies on a keyword and every keyword is made of edges |
| `KeywordCompiler.TestMeaning` | Source/JavaScriptCore/KeywordLookupGenerator.py:152-164 | a printed test, widened by the preceding character when the edge has length three, holds exactly when the edge lies ahead, given that the parent's prefix does |
| `KeywordCompiler.ConfigurationTestsCharacters` | Source/JavaScriptCore/KeywordLookupGenerator.py:222-302 | each processor configuration and character type gives tests that compare characters |
| `KeywordCompiler.RunIsScan` | Source/JavaScriptCore/KeywordLookupGenerator.py:140-174 | executing a subtree is a character-by-character scan for the shortest key that stops |
| `KeywordCompiler.GenerateShape` | Source/JavaScriptCore/KeywordLookupGenerator.py:214-219 | the generated trie is compressed and annotated and means the table |
| `KeywordCompiler.CompilesExactly` | Source/JavaScriptCore/KeywordLookupGenerator.py:157-164 | the tests of the generated file use only compare macros that exist and well-formed character literals if and only if the table has no gap longer than eight characters and no quote or backslash |
| `KeywordCompiler.ProgramFindsShortestStop` | Source/JavaScriptCore/KeywordLookupGenerator.py:103-199 | for every table and every buffer of at least `maxTokenLength` characters, in every configuration: no read is out of range, and the result is the shortest keyword at the start that no identifier part follows, or IDENT if there is none |
| `KeywordCompiler.ProgramLooksUpIdentifier` | Source/JavaScriptCore/KeywordLookupGenerator.py:103-199 | when keyword characters are identifier parts, the result is the table's value of the maximal identifier run at the start of the buffer, and IDENT when that run is no keyword |
| `KeywordCompiler.OddKeywordIsMistaken` | Source/JavaScriptCore/KeywordLookupGenerator.py:143-149 | a keyword whose identifier run is no keyword makes the code return a token for a buffer whose identifier is not in the table |
| `KeywordCompiler.LooksUpIdentifiersExactly` | Source/JavaScriptCore/KeywordLookupGenerator.py:103-199 | the generated code looks identifiers up correctly in every buffer if and only if the identifier run of every keyword is a keyword |
| `KeywordCompiler.MaxTokenLengthIsTight` | Source/JavaScriptCore/KeywordLookupGenerator.py:176-190 | `maxTokenLength` is exactly one more than the length of the longest keyword, 1 for an empty table |
| `KeywordCompiler.ProgramIgnoresTheRest` | Source/JavaScriptCore/KeywordLookupGenerator.py:140-190 | nothing at or beyond index `maxTokenLength` influences the result |
| `KeywordNode.TrieNode.constructor` | Source/JavaScriptCore/KeywordLookupGenerator.py:98-101 | a new node stands for a trie without value and children |
| `KeywordNode.TrieNode.Insert` | Source/JavaScriptCore/KeywordLookupGenerator.py:103-109 | the object after the in-place insert stands for the trie after insertion; only the tree's own and new objects are touched |
| `KeywordNode.TrieNode.Coalesce` | Source/JavaScriptCore/KeywordLookupGenerator.py:111-126 | afterwards the object has its children coalesced, and the returned object, itself or a merged one, stands for the coalesced trie |
| `KeywordNode.TrieNode.CoalesceKeys` | Source/JavaScriptCore/KeywordLookupGenerator.py:112-116 | the new dictionary stands for the coalesced children in their order |
| `KeywordNode.TrieNode.Merged` | Source/JavaScriptCore/KeywordLookupGenerator.py:123-126 | the merged node has the joined prefix and takes over the child's value and children |
| `KeywordNode.TrieNode.FillOut` | Source/JavaScriptCore/KeywordLookupGenerator.py:128-138 | the object after `fillOut` stands for the filled out trie |
| `KeywordNode.FillKeys` | Source/JavaScriptCore/KeywordLookupGenerator.py:134-136 | the loop fills every child out in place and returns the sum of their weights |
| `KeywordNode.SortNodes` | Source/JavaScriptCore/KeywordLookupGenerator.py:137 | the sorted children stand for the stably sorted tries |
| `KeywordNode.PutNode` | Source/JavaScriptCore/KeywordLookupGenerator.py:115 | assigning to a dictionary key replaces the child with that key or appends a new one |
| `KeywordNode.TrieNode.PrintSubTreeAsC` | Source/JavaScriptCore/KeywordLookupGenerator.py:140-174 | the printed lines are those whose execution is proved correct |
| `KeywordNode.TrieNode.MaxLength` | Source/JavaScriptCore/KeywordLookupGenerator.py:176-182 | the loop returns the length of the longest full prefix of the subtree |
| `KeywordNode.GenerateLookup` | Source/JavaScriptCore/KeywordLookupGenerator.py:184-219 | the whole script on objects prints the program and the `maxTokenLength` that the compiler theorems are about |
| `CyclicRedundancyCheck.BitStepLinear` | Tools/DumpRenderTree/CyclicRedundancyCheck.cpp:40-45 | one register step is linear over exclusive or |
| `CyclicRedundancyCheck.BitStepInjective` | Tools/DumpRenderTree/CyclicRedundancyCheck.cpp:40-45 | one register step loses no information |
| `CyclicRedundancyCheck.ShiftIsSteps` | Tools/DumpRenderTree/CyclicRedundancyCheck.cpp:59-61 | shifting in up to 32 bits one at a time is adding them to the register at once and stepping |
| `CrcTable.TableStepIsShift` | Tools/DumpRenderTree/CyclicRedundancyCheck.cpp:61 | a byte through the table is its eight bits through the bit-at-a-time register, lowest first |
| `CyclicRedundancyCheck.WindowDetected` | Tools/DumpRenderTree/CyclicRedundancyCheck.cpp:59-61 | bit strings that differ only inside a window of at most 32 bits leave different registers |
| `CyclicRedundancyCheck.BurstDetected` | Tools/DumpRenderTree/CyclicRedundancyCheck.cpp:50-63 | messages of equal length that differ, but only within 32 successive bits at any bit position, have different CRCs |
| `CyclicRedundancyCheck.FourBytesDetected` | Tools/DumpRenderTree/CyclicRedundancyCheck.cpp:50-63 | in particular messages that differ only within four successive bytes |
| `CyclicRedundancyCheck.GeneratorUndetected` | Tools/DumpRenderTree/CyclicRedundancyCheck.cpp:50-63 | 33 bits are too many: for every message and every bit position, flipping the bits of the generator polynomial in there gives a different message with the same CRC |
| `CrcDivision.GeneratorIsPolynomial` | Tools/DumpRenderTree/CyclicRedundancyCheck.cpp:42 | the constant is the generator with the exponents 32, 26, 23, 22, 16, 12, 11, 10, 8, 7, 5, 4, 2, 1, 0, its highest term left out, the lowest bit for the highest power |
| `CrcDivision.CrcIsRemainder` | Tools/DumpRenderTree/CyclicRedundancyCheck.cpp:36-63 | division over GF(2), section 3.4 of RFC 2083: a word is the CRC if and only if the message followed by 32 zeros, with its first 32 bits complemented, is a multiple of the generator and the complement of the word |
| `CrcValues.CrcOfIend` | Tools/DumpRenderTree/CyclicRedundancyCheck.cpp:50-63 | the CRC of "IEND" is 0xAE426082 |
| `CrcValues.CrcOfNothing` | Tools/DumpRenderTree/CyclicRedundancyCheck.cpp:59-62 | the CRC of nothing is 0 |
| `CrcTable.MakeEntry` | Tools/DumpRenderTree/CyclicRedundancyCheck.cpp:39-45 | the inner loop is eight register steps from the byte |
| `CrcTable.MakeCrcTable` | Tools/DumpRenderTree/CyclicRedundancyCheck.cpp:36-48 | all 256 entries are filled with eight register steps from their index |
| `CrcTable.CrcComputer.constructor` | Tools/DumpRenderTree/CyclicRedundancyCheck.cpp:52-53 | the table starts out not computed |
| `CrcTable.CrcComputer.ComputeCrc` | Tools/DumpRenderTree/CyclicRedundancyCheck.cpp:50-63 | on the first and on every later call the result is the CRC-32 of the message: the remainder that defines it, and the bit-at-a-time reflected CRC with polynomial 0xEDB88320 |
| `Png.DamageDetected` | Tools/DumpRenderTree/PixelDumpSupport.cpp:99-104 | a chunk whose type and data are damaged within four successive bytes no longer parses |
| `Png.ReadWordBytes` | Tools/DumpRenderTree/PixelDumpSupport.cpp:79-87 | the four bytes of a word, read back in network byte order as the length of a chunk is, are its value |
| `Png.CommentParses` | Tools/DumpRenderTree/PixelDumpSupport.cpp:89-105 | the bytes appended for a checksum parse as one tEXt chunk with length 41 and a correct CRC in network byte order, whatever follows |
| `Png.CommentReads` | Tools/DumpRenderTree/PixelDumpSupport.cpp:89-97 | section 4.2.7 of RFC 2083: the bytes up to the first zero of its data are "checksum", those behind it the 32 characters |
| `Png.SpliceInserts` | Tools/DumpRenderTree/PixelDumpSupport.cpp:107-129 | a chunk put 33 bytes into any well-formed file appears right after IHDR, and all other chunks are unchanged |
| `Png.SpliceInsertsComment` | Tools/DumpRenderTree/PixelDumpSupport.cpp:89-138 | every file that parses as signature, IHDR and chunks is output as the same chunks with a tEXt chunk after IHDR that reads as the keyword "checksum" and the 32 characters |
| `Png.ByteVector.AppendInt` | Tools/DumpRenderTree/PixelDumpSupport.cpp:79-87 | grows the vector by four bytes that are the number in network byte order |
| `Png.ConvertChecksumToComment` | Tools/DumpRenderTree/PixelDumpSupport.cpp:89-105 | appends exactly the comment chunk for the first 32 characters of the checksum |
| `Png.WriteInChunks` | Tools/DumpRenderTree/PixelDumpSupport.cpp:127-137 | the loop writes a prefix of the data, all of it when no write falls short |
| `Png.WriteSpliced` | Tools/DumpRenderTree/PixelDumpSupport.cpp:122-137 | the announced number of bytes is written if and only if the output is the spliced file |
| `Png.PrintPng` | Tools/DumpRenderTree/PixelDumpSupport.cpp:114-138 | the announced Content-Length is the length of the spliced file, and the output is that file exactly when that many bytes are written, in particular when every write succeeds |
| `ThreadPool.StartKeepsInv` | Tools/DumpRenderTree/JavaScriptThreading.cpp:123-131 | starting establishes the invariant with four fresh threads |
| `ThreadPool.WorkKeepsInv` | Tools/DumpRenderTree/JavaScriptThreading.cpp:83-121 | every step of every worker keeps the invariant |
| `ThreadPool.MainKeepsInv` | Tools/DumpRenderTree/JavaScriptThreading.cpp:123-153 | every step of the starter and the stopper keeps it |
| `ThreadPool.RunKeepsInv` | Tools/DumpRenderTree/JavaScriptThreading.cpp:63-153 | so does every interleaving |
| `ThreadPool.PoolInvariant` | Tools/DumpRenderTree/JavaScriptThreading.cpp:83-145 | in every reachable state with the mutex free, from the end of start until the clear, the set is exactly the created and not replaced threads, has four members, none detached, and contains every worker that may respawn |
| `ThreadPool.SnapshotHasFourThreads` | Tools/DumpRenderTree/JavaScriptThreading.cpp:140-145 | the size assertion in the stopper holds in every run |
| `ThreadPool.WorkLowersMeasure` | Tools/DumpRenderTree/JavaScriptThreading.cpp:99-121 | once the flag is up, every worker step, taking the mutex included, lowers a natural number, whatever the coin tosses |
| `ThreadPool.ShutdownBound` | Tools/DumpRenderTree/JavaScriptThreading.cpp:99-138 | from any reachable state with the flag up, the workers together take at most that many steps in every interleaving |
| `ThreadPool.WorkersFinish` | Tools/DumpRenderTree/JavaScriptThreading.cpp:99-138 | a run of that many worker steps leaves all workers finished, and until then some worker can step: no deadlock on the mutex |
| `ThreadPool.OnlyLateWorkersRespawn` | Tools/DumpRenderTree/JavaScriptThreading.cpp:99-114 | once the flag is up, the workers that respawn are among those already past the check, each at most once, and no replacement ever does |
| `ThreadPoolLife.WorkerLives` | Tools/DumpRenderTree/JavaScriptThreading.cpp:63-121 | in every run what a worker has done is the beginning of a life: it creates context and script once, goes around evaluating, making objects, looking at the flag and tossing, and after its last look cleans up, or tosses, detaches, removes itself, adds its replacement and cleans up; a finished worker has lived all of it |
| `ThreadPoolLife.BetweenLooks` | Tools/DumpRenderTree/JavaScriptThreading.cpp:83-107 | between two successive looks at the flag by one worker, in any run, there are exactly one toss, one evaluation and one making of objects, in this order |
| `ThreadPoolLife.EveryLife` | Tools/DumpRenderTree/JavaScriptThreading.cpp:63-121 | conversely, for every number of rounds and either ending there is a run in which a worker lives that life |
| `ThreadPoolStop.CopiedBefore` | Tools/DumpRenderTree/JavaScriptThreading.cpp:133-150 | every run that gets to the joins is a run to a copy of the set, continued; so what is said of all continuations of a copy covers all stops |
| `ThreadPoolStop.CopyStaysJoinableExactly` | Tools/DumpRenderTree/JavaScriptThreading.cpp:140-148 | no thread of the stopper's copy is detached in any continuation if and only if no worker is past the check when the copy is made |
| `ThreadPoolStop.StopWaitsForAllExactly` | Tools/DumpRenderTree/JavaScriptThreading.cpp:133-153 | in every continuation stop returns only after all workers have finished if and only if at the copy no worker is past the check and no replaced worker is still cleaning up |
| `ThreadPoolStop.StragglerSurvives` | Tools/DumpRenderTree/JavaScriptThreading.cpp:109-148 | from any state with such a worker at the copy, some continuation returns from stop while a worker is unfinished |
| `ThreadPoolStop.StragglerIsReachable` | Tools/DumpRenderTree/JavaScriptThreading.cpp:99-148 | a concrete run reaches such a state, so stop does not always wait for every worker |
| `ThreadPoolStop.ClearAgainst` | Tools/DumpRenderTree/JavaScriptThreading.cpp:105-150 | for every worker past the check at the copy there is a continuation in which the stopper has joined everybody and can clear the set while that worker holds the mutex, detached and about to remove itself |
| `ThreadPoolClear.SetRefilled` | Tools/DumpRenderTree/JavaScriptThreading.cpp:109-150 | and one in which that worker puts its replacement into the set after the clear |
| `ThreadPoolClear.ClearIsSafeExactly` | Tools/DumpRenderTree/JavaScriptThreading.cpp:105-150 | in every continuation the clear meets no worker with its removal or insertion still to do if and only if no worker is past the check at the copy; and the set is empty for good after the stop under exactly the same condition |
| `ThreadPoolClear.RaceIsReachable` | Tools/DumpRenderTree/JavaScriptThreading.cpp:99-150 | runs from the start that end in such a clear and in a set that is not empty after the stop |
| `ThreadPoolClear.AssertionFailsExactly` | Tools/DumpRenderTree/JavaScriptThreading.cpp:54-150 | at the clear the assertion that the mutex is held fails in every continuation of a copy if and only if no worker was past the check and no replaced one still cleaning up at the copy; some continuation makes it fail in any case |
| `ThreadPoolClear.BothOutcomesReachable` | Tools/DumpRenderTree/JavaScriptThreading.cpp:54-150 | runs from the start that come to the clear with the mutex free and with a worker holding it, so that the assertion fails and holds |
| `AddonMatching.TranslateParses` | Source/BrowserApp/extensions/addons.c:1345-1395 | translated patterns are well-formed regular expressions and read back as the pattern's characters and stars, spaces removed |
| `AddonMatching.ItemsMeanGlob` | Source/BrowserApp/extensions/addons.c:1358-1393 | matching literals and `.*` at the start of a text is glob matching of some prefix of it |
| `AddonMatching.TranslateMeaning` | Source/BrowserApp/extensions/addons.c:1345-1395 | for every pattern and URI the produced expression matches if and only if the pattern without spaces glob-matches some prefix of the URI, a star not crossing line ends |
| `AddonMatching.SpaceMakesNoDifference` | Source/BrowserApp/extensions/addons.c:1387-1388 | a space anywhere in a pattern makes no difference to its translation |
| `AddonMatching.NoSpacesStays` | Source/BrowserApp/extensions/addons.c:1358-1393 | and the pattern that a translation means is the pattern itself when it holds no spaces |
| `AddonMatching.StarMatchesAnything` | Source/BrowserApp/extensions/addons.c:1363-1368 | on text without line ends a star matches everything |
| `AddonMatching.EmitChar` | Source/BrowserApp/extensions/addons.c:1360-1392 | one character is written as one of nothing, itself, itself escaped, or `.*`, within two places |
| `AddonMatching.ConvertToSimpleRegexp` | Source/BrowserApp/extensions/addons.c:1345-1395 | the buffer of 2 len + 2 characters ends up holding the translation and then NULs: all writes and a final NUL fit |
| `AddonMatching.MayRun` | Source/BrowserApp/extensions/addons.c:1397-1436 | true exactly when there are no includes or some include matches, and no exclude matches |
| `AddonMatching.SkipElement` | Source/BrowserApp/extensions/addons.c:1438-1448 | an addon is not skipped exactly when it is enabled, not broken, has no include expression or one that matches, and no exclude expression that matches |
| `AddonMatching.TranslatedListsMeanPatterns` | Source/BrowserApp/extensions/addons.c:1397-1436 | for lists of translated patterns the decision is about the patterns: some expression matches exactly when some pattern does |
| `AddonMatching.LoadedAddonRuns` | Source/BrowserApp/extensions/addons.c:1345-1448 | an addon whose lists were translated from patterns is not skipped if and only if it is enabled, not broken, has no include pattern or one that globs a prefix of the URI, and no exclude pattern that does |
| `StyleSheet.PieceComment` | Source/BrowserApp/extensions/addons.c:1121-1134 | a comment met with the counter at zero outputs nothing and leaves the counter at zero, unless it leaks, holds more than one opener or a star follows; the counter then is given exactly |
| `StyleSheet.Stuck` | Source/BrowserApp/extensions/addons.c:1121-1143 | once the comment counter is above two nothing is output any more |
| `StyleSheet.StripMeaning` | Source/BrowserApp/extensions/addons.c:1083-1144 | of every sheet of rules, at-rules and comments that the pass can handle, exactly the normalised text is left, without comments, the openings and last braces of at-rules, and blanks that follow a blank in the source |
| `StyleSheet.StarAfterCommentLosesTheRest` | Source/BrowserApp/extensions/addons.c:1121-1143 | after a comment directly followed by a star, a sheet without further slashes is lost altogether |
| `StyleLoss.QuietStep` | Source/BrowserApp/extensions/addons.c:1091-1143 | where no comment starts, a raised comment counter only suppresses output |
| `StyleLoss.LossyPieces` | Source/BrowserApp/extensions/addons.c:1083-1144 | out of step, the pass never keeps more than it should |
| `StyleLoss.StripExactly` | Source/BrowserApp/extensions/addons.c:1083-1144 | a sheet in which no slash ends a comment early is stripped to what is meant if and only if no comment with at most one inner opener is directly followed by a star and nothing visible follows a comment with more; otherwise the output is too short |
| `StyleLoss.LeakShows` | Source/BrowserApp/extensions/addons.c:1121-1143 | a comment that starts with a slash is ended by it, and what follows in it is output |
| `StyleLoss.RightThroughoutExactly` | Source/BrowserApp/extensions/addons.c:1083-1144 | for every sheet of these pieces: all its beginnings are stripped to what is meant if and only if no comment leaks, none with at most one inner opener is followed by a star, and nothing visible follows one with more |
| `StyleLoss.LeakAndLossCancel` | Source/BrowserApp/extensions/addons.c:1083-1144 | the whole sheet alone does not tell: there are sheets with faulty comments that come out right because a leak makes up for a loss |
| `StyleLoss.AccidentExists` | Source/BrowserApp/extensions/addons.c:1083-1144 | an example of texts that make up such a sheet |
| `StyleRules.EverySheetWithoutComments` | Source/BrowserApp/extensions/addons.c:1083-1144 | every text without a comment opener is such a sheet, so what is left of it is known |
| `StyleRules.AtRulesKeptExactly` | Source/BrowserApp/extensions/addons.c:1100-1143 | of a sheet whose comments are sound, everything but comments and the wrappers that start with `@-` or `@n` is kept if and only if it has no other at-rules; otherwise text is lost |
| `StyleRules.UnclosedIsLost` | Source/BrowserApp/extensions/addons.c:1100-1143 | everything from an `@` on is lost when no brace follows a later `-` or `n` |
| `StyleRules.MediaRule` | Source/BrowserApp/extensions/addons.c:1100-1119 | the opening of a media rule for the screen is taken for that of a wrapper |
| `StyleRules.SingleBlanksExactly` | Source/BrowserApp/extensions/addons.c:1136-1143 | the output has no two blanks in a row if and only if no text that starts with a blank, and none before it in the source, comes where a blank was output last |
| `StyleRules.BlanksAroundComment` | Source/BrowserApp/extensions/addons.c:1136-1143 | a comment between two blanks is a case of the contrary |
| `StyleText.StripIsClean` | Source/BrowserApp/extensions/addons.c:1091-1143 | for every sheet the output holds no single quote, newline or carriage return |
| `StyleText.StripShowsText` | Source/BrowserApp/extensions/addons.c:1091-1143 | text without `@` and `/` is output word for word, either kind of quote as a double quote, and every run of blanks and line breaks as one blank |
| `StyleText.EveryText` | Source/BrowserApp/extensions/addons.c:1091-1143 | every such text is made up of words and such runs |
| `StyleStripping.StripAt` | Source/BrowserApp/extensions/addons.c:1091-1143 | one turn of the loop normalises one character in place, appends and moves the counters as specified, keeps them in range and never underflows |
| `StyleStripping.StripStyle` | Source/BrowserApp/extensions/addons.c:1083-1144 | the loop returns the stripped sheet and leaves the buffer with blanks for line breaks, double for single quotes and everything else as it was |
| `TestLine.ScanPieces` | Source/JavaScriptCore/testRegExp.cpp:239-303 | plain, escaped and four digit `\u` characters are scanned to their values up to the first terminator that is not part of one |
| `TestLine.ScanOnlyPieces` | Source/JavaScriptCore/testRegExp.cpp:239-303 | conversely, when other `\u` escapes are rejected, the scanner accepts nothing but such characters followed by the terminator |
| `TestLine.ScanString` | Source/JavaScriptCore/testRegExp.cpp:239-303 | the loop returns the position of the terminator, or -1, and what was appended |
| `TestLine.ReadPair` | Source/JavaScriptCore/testRegExp.cpp:368-381 | reads two numbers and finds the separator or parenthesis after them, or reports which way it fails |
| `TestLine.ReadVector` | Source/JavaScriptCore/testRegExp.cpp:367-389 | the loop collects the pairs up to the closing parenthesis |
| `TestLine.ReadField` | Source/JavaScriptCore/testRegExp.cpp:336-354 | reads a number and moves past the next space |
| `TestLine.ReadTestLine` | Source/JavaScriptCore/testRegExp.cpp:322-392 | the function returns the parsed record, rejects the line, or would look behind its end, as specified |
| `TestLine.LineRoundTrip` | Source/JavaScriptCore/testRegExp.cpp:322-392 | every printed test line parses to what was printed, however the characters of the subject are encoded |
| `TestLine.RecordRoundTrip` | Source/JavaScriptCore/testRegExp.cpp:322-392 | for every subject of 16-bit units, offset, result and even-length vector, printing and parsing gives the record back |
| `TestEscapes.EscapeScans` | Source/JavaScriptCore/testRegExp.cpp:239-290 | a backslash and a byte other than u are scanned to a character if and only if they stand for it: the letters abtnvfr for 7 to 13 in this order, 0 for 0, every other byte for itself as a signed char |
| `TestEscapes.PlainScans` | Source/JavaScriptCore/testRegExp.cpp:244-299 | other characters are scanned to themselves, bytes from 0x80 on as negative chars widened to 16 bits |
| `TestEscapes.HexValueIs` | Source/JavaScriptCore/testRegExp.cpp:278-286 | four hexadecimal digits, upper or lower case, and their value |
| `TestEscapes.HexScans` | Source/JavaScriptCore/testRegExp.cpp:278-289 | a backslash, u and four digits are scanned to that value |
| `TestEscapes.EscapedRoundTrip` | Source/JavaScriptCore/testRegExp.cpp:239-392 | every record, printed with letters for control characters, bytes as they are and upper-case digits, comes back |
| `LineShapes.PastEndExactly` | Source/JavaScriptCore/testRegExp.cpp:322-392 | the parser looks behind the end of its line if and only if the subject is accepted and the offset, or the result behind the first space, is a number that no space follows |
| `LineShapes.ShortLineLooksBehind` | Source/JavaScriptCore/testRegExp.cpp:338-354 | on every line that ends after its offset it does |
| `LineShapes.AcceptedExactly` | Source/JavaScriptCore/testRegExp.cpp:334-391 | behind an accepted subject a line is accepted if and only if it goes on with two numbers up to spaces, a parenthesis and pairs of numbers up to separators |
| `LineShapes.LineTextParses` | Source/JavaScriptCore/testRegExp.cpp:322-392 | every such line with a terminated subject is parsed to the characters and numbers it holds |
| `LineShapes.BareTextParses` | Source/JavaScriptCore/testRegExp.cpp:329-334 | a line whose subject never ends is accepted when the fields follow the opening quote: that quote is taken for the closing one |
| `LineShapes.LineParsesOnly` | Source/JavaScriptCore/testRegExp.cpp:322-392 | every accepted line, when odd escapes are rejected, is of one of these two kinds |
| `LineShapes.UnterminatedLineParses` | Source/JavaScriptCore/testRegExp.cpp:329-332 | every printed line is still accepted when its subject and its closing quote are left out |
| `Command.SplitJoin` | Tools/DumpRenderTree/DumpRenderTreeCommon.cpp:30-40 | splitting joined quote-free pieces gives the pieces back |
| `Command.JoinSplit` | Tools/DumpRenderTree/DumpRenderTreeCommon.cpp:30-40 | every line is its quote-free pieces joined |
| `Command.Find` | Tools/DumpRenderTree/DumpRenderTreeCommon.cpp:37 | the first separator from a position on |
| `Command.CommandTokenizer.constructor` | Tools/DumpRenderTree/DumpRenderTreeCommon.cpp:12-17 | a new tokenizer has all pieces of the line ahead; only a line that starts with a quote is stuck at an empty piece |
| `Command.CommandTokenizer.Pump` | Tools/DumpRenderTree/DumpRenderTreeCommon.cpp:30-40 | moves on to the next piece; at the end the piece is empty |
| `Command.CommandTokenizer.Next` | Tools/DumpRenderTree/DumpRenderTreeCommon.cpp:42-49 | returns the first piece ahead and drops it |
| `Command.CommandTokenizer.HasNext` | Tools/DumpRenderTree/DumpRenderTreeCommon.cpp:51-54 | true exactly when the next piece is not empty |
| `Command.LeadingIsLongest` | Tools/DumpRenderTree/DumpRenderTreeCommon.cpp:42-54 | the leading pieces are the longest run of non-empty pieces at the start |
| `Command.DrawAll` | Tools/DumpRenderTree/DumpRenderTreeCommon.cpp:42-54 | the tokens drawn while `hasNext` holds are exactly the leading non-empty pieces of the line split on quotes |
| `Command.ParseInputLine` | Tools/DumpRenderTree/DumpRenderTreeCommon.cpp:62-85 | the parser returns the command, dies, or fails the tokenizer's assertion, as the pieces of the line say |
| `Command.LineParses` | Tools/DumpRenderTree/DumpRenderTreeCommon.cpp:62-85 | a path followed by any arguments is parsed to their meaning: the last timeout and the last hash count, and pixels are dumped when any argument asks for it |
| `Command.LineParsesOnly` | Tools/DumpRenderTree/DumpRenderTreeCommon.cpp:62-85 | conversely every line that is parsed is such a line |
| `Command.CommandRoundTrip` | Tools/DumpRenderTree/DumpRenderTreeCommon.cpp:62-85 | printing a command with a non-empty quote-free path and a quote-free hash, timeout first, and parsing it gives the command back |
| `Command.TimeoutBehindFlagDies` | Tools/DumpRenderTree/DumpRenderTreeCommon.cpp:71-82 | a timeout behind a pixel flag without hash is never accepted: its name is taken for the hash |
| `Command.PathAlone` | Tools/DumpRenderTree/DumpRenderTree.h:64-71 | a line of one plain path gives that path, no pixels, no hash and a timeout of 30000 |
| `Command.PixelFlags` | Tools/DumpRenderTree/DumpRenderTreeCommon.cpp:76-80 | -p and --pixel-test give the same command for every path and hash |
| `Command.TimeoutOption` | Tools/DumpRenderTree/DumpRenderTreeCommon.cpp:73-75 | --timeout sets the timeout to the number behind it and nothing else |
| `WorkQueue.EnqueueAllKeepsStart` | Tools/DumpRenderTree/WorkQueue.cpp:52-63 | queueing does not move the start of the queue and appends in order, or drops when frozen |
| `WorkQueue.AcceptsExactly` | Tools/DumpRenderTree/WorkQueue.cpp:52-63 | a list of items is accepted if and only if there are slots for all of it, or the queue is frozen and one is free |
| `WorkQueue.ClearMakesRoom` | Tools/DumpRenderTree/WorkQueue.cpp:80-89 | behind a clear of a queue that is not frozen exactly the lists of at most 1024 items are accepted, and they are what is waiting |
| `WorkQueue.ProcessConserves` | Tools/DumpRenderTree/WorkQueue.cpp:91-104 | processing loses no item and deletes none twice |
| `WorkQueue.ProcessLaw` | Tools/DumpRenderTree/WorkQueue.cpp:91-104 | processing returns true only with an empty queue; otherwise its last invoked item, and no other, started a load |
| `WorkQueue.ProcessIsFifo` | Tools/DumpRenderTree/WorkQueue.cpp:91-104 | items are invoked in the order of arrival, including those queued by invoked items; what is left are the last arrivals |
| `WorkQueue.RunsConserve` | Tools/DumpRenderTree/WorkQueue.cpp:52-104 | over every run of queue, dequeue, clear, freeze and process, every item passed in is waiting, deleted or handed out, as often as it came in |
| `WorkQueue.ReleasedOnce` | Tools/DumpRenderTree/WorkQueue.cpp:52-104 | distinct items are each released at most once, never while waiting or handed out, and all of them are released or handed out once the queue is empty |
| `SharedWorkQueue.SharedWorkQueue.constructor` | Tools/DumpRenderTree/WorkQueue.cpp:35-50 | the empty array stands for the empty queue |
| `SharedWorkQueue.SharedWorkQueue.Enqueue` | Tools/DumpRenderTree/WorkQueue.cpp:52-63 | the array window refines the abstract queue; failing only when the capacity assertion does |
| `SharedWorkQueue.SharedWorkQueue.Dequeue` | Tools/DumpRenderTree/WorkQueue.cpp:65-73 | refines the abstract dequeue, nothing at the end |
| `SharedWorkQueue.SharedWorkQueue.Count` | Tools/DumpRenderTree/WorkQueue.cpp:75-78 | the number of waiting items |
| `SharedWorkQueue.SharedWorkQueue.SetFrozen` | Tools/DumpRenderTree/WorkQueue.h:43 | changes the frozen flag and nothing else |
| `SharedWorkQueue.SharedWorkQueue.Clear` | Tools/DumpRenderTree/WorkQueue.cpp:80-89 | deletes exactly the waiting items and starts over at the front of the array |
| `SharedWorkQueue.SharedWorkQueue.ProcessWork` | Tools/DumpRenderTree/WorkQueue.cpp:91-104 | the loop terminates although invoked items may queue more, and refines the abstract processing |
| `WorkQueueManager.TurnsConserve` | Tools/WebKitTestRunner/WorkQueueManager.cpp:117-126 | processing loses no item and destroys none twice |
| `WorkQueueManager.TurnsLaw` | Tools/WebKitTestRunner/WorkQueueManager.cpp:117-126 | a load is outstanding exactly when the last invoked item started it, and no other item did |
| `WorkQueueManager.TurnsAreFifo` | Tools/WebKitTestRunner/WorkQueueManager.cpp:117-126 | items are invoked in the order in which they were accepted |
| `WorkQueueManager.RunsConserveItems` | Tools/WebKitTestRunner/WorkQueueManager.cpp:111-225 | over every run every item passed in is waiting or destroyed, as often as it came in |
| `WorkQueueManager.WorkQueueObject.constructor` | Tools/WebKitTestRunner/WorkQueueManager.cpp:102-105 | a new manager is idle |
| `WorkQueueManager.WorkQueueObject.Enqueue` | Tools/WebKitTestRunner/WorkQueueManager.cpp:215-225 | appends the item, or destroys it while a load is outstanding |
| `WorkQueueManager.WorkQueueObject.ClearWorkQueue` | Tools/WebKitTestRunner/WorkQueueManager.cpp:111-115 | destroys the waiting items and forgets an outstanding load |
| `WorkQueueManager.WorkQueueObject.ProcessWorkQueue` | Tools/WebKitTestRunner/WorkQueueManager.cpp:117-126 | whenever the loop stops after some number of turns, it ends with the invoked items and the queue after that many, with a load outstanding or nothing left, and says which |
| `WorkQueueManager.StoppedStays` | Tools/WebKitTestRunner/WorkQueueManager.cpp:119-123 | once stopped, more turns change nothing |
| `WorkQueueManager.RequeueingNeverStops` | Tools/WebKitTestRunner/WorkQueueManager.cpp:119-123 | the loop does not stop when every item queues itself again and starts no load |
| `WorkQueueManager.OfferedAfterDrop` | Tools/WebKitTestRunner/WorkQueueManager.cpp:111-115 | items offered behind a clear are waiting, whether or not a load was outstanding |
| `LineSplitter.LinesCover` | Tools/gtk/common.py:143-150 | the lines of a text are non-empty, each but possibly the last ends in its only newline, and together they are the text |
| `LineSplitter.LinesUnique` | Tools/gtk/common.py:143-150 | there is no other way of cutting a text into such lines |
| `LineSplitter.CompleteAppend` | Tools/gtk/common.py:142-146 | cutting the text so far and going on with the remainder and the next chunk delivers the same lines as cutting all at once |
| `LineSplitter.DeliverLines` | Tools/gtk/common.py:143-146 | the inner loop hands over the complete lines and keeps the rest |
| `LineSplitter.ParseOutputLines` | Tools/gtk/common.py:119-150 | for every sequence of reads up to end of file the callback gets exactly the lines of the stream |
| `LineSplitter.ChunkIndependence` | Tools/gtk/common.py:119-150 | however a stream is cut into non-empty reads, the callback gets the same lines, which make up the stream |

## Left out

- The text of the generated C file: code is kept as a list of statements, so the layout, the `internalShift` and `propertyNames` spelling and the two copies for LChar and UChar are not modelled; the buffer, the character type and `isIdentPart` are parameters.
- Reading the keyword file (KeywordLookupGenerator.py, lines 63-87) and output redirection: easy string splitting.
- Floating point weights: weights are natural numbers, in hundredths, and the weight table is a parameter.
- Dictionary order before Python 3.7: children are kept in insertion order. What the code does is proved for that order; which sibling of equal weight comes first depends on it.
- Keywords with characters that are not ASCII, for which the packed macros on LChar are not meant, in the theorems about running the code.
- The big-endian `UCHARQUAD_TOUINT64` macro (lines 243-244), which refers to itself and is never used.
- KeywordNode.TrieNode.PrintSubTreeAsC: requires a filled out node, which is what the script prints.
- Machine words in CyclicRedundancyCheck and Png are sequences of bits; `size_t` overflow of lengths is not modelled.
- Png.PrintPng: requires at least 33 bytes of data and a checksum of at least 32 characters, which the C++ code reads unconditionally; the header lines it prints with `printf` are only the returned length.
- Thread creation failure, JavaScript contexts and their group; `createThread` hands out identifiers that were never used before.
- The regular expression engine beyond literals, escaped characters and `.*`; line ends are newline and carriage return.
- Loading and parsing addon files, the user script branch and the metadata wrapping of `addons_get_element_content`.
- StyleSheet.StripMeaning: speaks of sheets whose comments hold no character with a meaning for the wrapper counter; the pass looks for those in comments as well. Nor do the openings of its at-rules hold comments.
- `sscanf` with "%04x" on text that does not start with four hexadecimal digits is a parameter; `sscanf` and `atoi` on decimal numbers are modelled without overflow of `int`.
- `parseRegExpLine`, whose handling of unterminated patterns is accidental.
- Invoked work items that clear or freeze the queue, and dequeue it themselves.
- `select` errors and read errors other than end of file in `parse_output_lines`.
- JavaScript bindings, test controllers, platform code and user interface: calls into code outside the model.
- The copies of the CRC, PNG and command code under Tools/WebKitTestRunner: the same algorithms.
