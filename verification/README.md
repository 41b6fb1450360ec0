# Verification of the assignment programs

This project models four programs of the repository in Dafny and proves what they are for:

* **The file compressor** (`Asst2`). A file is split into tokens, tokens are counted, a Huffman
  tree is built with an array heap, codes are exported by a prefix traversal, written to a textual
  codebook and used to encode the file; later the codebook is read back, a trie is rebuilt from the
  codes in whatever order the library sort leaves them, and the file is decoded. Main results: the
  compressed text is the shortest any prefix code for the same tokens can give
  (`Shortest.HuffmanIsOptimal`, and `Pipeline.CompressDirectory` for the whole program, over one
  file or all files of a directory), wherever codes branch the lighter half of the tokens gets the 0
  (`CodeWeights.BookZeroIsLighter`), and the whole way there and back returns the original bytes of
  every file if and only if the files together have at least two distinct tokens
  (`RoundTrip.CompressAndDecompressAll`); with a code book that exists already, if and only if the
  book has an entry for every token as well (`RoundTrip.ReuseBook`).
* **The 4096-byte allocator** (`Asst1`), on the bytes of its heap with their packed headers. Main
  results: every run keeps the heap tiled by well-formed blocks (`HeapRuns.RunsKeepSound`), no
  operation disturbs a buffer it is not about (`Allocator.Heap.MyMalloc`,
  `Allocator.Heap.MyFree`, `HeapRuns.Run`), and freeing everything in any order leaves one block
  (`HeapRuns.FreeingAllRestores`).
* **The version-control server** (`Asst3/server`), with every handler as a sequence of single reads
  and writes and any number of concurrent requests. Main results: every interleaving is equivalent
  to carrying the requests out one at a time on an abstract project
  (`Server.EveryRunIsAtomic`), and what follows for stored versions, concurrent pushes and
  rollbacks (`ProjectSafety`) and for the answers clients see: which archive, manifest, history and
  files a push leaves for the requests behind it (`ProjectAnswers`).
* **Manifests** (`Asst3/common`): Base64 names, the manifest text, the merge of two sorted
  manifests and the update before a push. Main results: reading undoes writing
  (`ManifestText.WriteAndRead`, `Base64.DecodeEncode`), and a commit followed by a push is accepted
  by the server's project and leaves nothing to commit (`ManifestPush.PushConverges`,
  `PushCycle.Cycle`).

Code that changes things in place is modelled by classes, arrays and loops (the heap array, the
growable buffers, the trie nodes, the code buffers of the traversal, the 4096 bytes, manifest items
and the two-cursor merge); each method is proved against a specification function or relation whose
own properties are separate lemmas. The server is a state machine over file-system steps.

## How the files fit together

| part | files, from the bottom up |
|---|---|
| shared | `CTypes`, `Decimal` |
| compressor | `Tokens`, `Expandables`, `Tokenizer`; `Optimality`, `KraftSums`, `HuffmanTree`, `MinHeaps`, `MergeLoop`; `Export`, `Codebook`, `Tries`, `Codec`, `Decoding`, `Compressor`; `Shortest`, `CodeWeights`, `Pipeline`, `TwoTokenFiles`, `RoundTrip` |
| allocator | `Layout` (blocks), `HeapBytes` (their encoding), `Allocator` (the C functions), `HeapRuns` (whole runs) |
| server | `ProjectObject` (the atomic object), `HistoryText`, `Handlers` (the steps), `HandlerRefinement`, `Server` (interleavings), `ProjectSafety`, `ProjectAnswers` (what answers say about earlier requests) |
| manifests | `Base64`, `ManifestItems`, `ManifestText`, `ManifestCompare`, `ManifestPush`, `PushCycle` |

## Where the code differs from what it seems to promise

* With exactly one distinct token the code of that token is empty. The codebook can be written, but
  reading it back fails: the blank that `sscanf` skips after the number of lines includes the tab
  that ends the empty code. An empty file has no tree at all. Round trips therefore need two
  distinct tokens, and `RoundTrip.CompressAndDecompress` says that this is exact.
* `undoShits` hands its search tree to `decompress`, which ignores that argument and uses the global
  tree; the model decodes with the tree.
* A live block of 65 bytes would lose a byte when freed (`Allocator.AdjustsBySum`); the allocator
  never makes one.
* Creating a project means to make a directory for version 0, but appends only one character of its
  name, so the manifest ends up in the project's own directory. Version directories are exactly 1 to
  n (`ProjectSafety.StoredVersions`).
* Rolling back means to empty the working files, but names a directory `curr` instead of `Curr`.
  Stale files stay; `ProjectSafety.RollbackLeavesFiles` says exactly when, and
  `ProjectSafety.RollbackManifestIff` when the manifest among the working files is the right one.
* A push whose manifest carries no number compares an uninitialised variable; it is the parameter
  `junk` of the request. Such a manifest can be stored as version k although it declares nothing
  (`ProjectSafety.NumberlessIsStored`); every manifest that carries a number declares the version
  it is stored as (`ProjectSafety.EveryStateSound`).
* Clearing the working files spares names with a dot. A push without a commit record therefore
  stores the one of an earlier push, if that is still there (`ProjectSafety.StoredCommitIff`).
* As long as some version has no commit record, a history request ends the server process
  (`ProjectSafety.ExitIff`, and `ProjectSafety.HistoryCanExit` for a case); after a rollback below
  that version, or a destroy, history answers again.
* A push applies the change list that the commit saved, and only compares its length with that of a
  fresh comparison. `ManifestPush.SavedListDecides` says when the versions that move are the right
  ones, and `ManifestPush.SavedListCanBeStale` gives a case in which they are not.

## Model

| member | source | states |
|---|---|---|
| Tokens.TokensCharacterised | Asst2/huffman.c:348-366 | a list of byte strings is the tokenisation of a file iff it concatenates to the file, each piece is one delimiter or a run without delimiters, and no two runs are neighbours |
| Tokens.TokenisationIsUnique | Asst2/huffman.c:348-366 | cutting a concatenation of proper pieces gives these pieces back |
| Tokens.DelimsAre | Asst2/huffman.c:225-227 | delimiters are exactly the bytes that are no visible ASCII character |
| Tokenizer.NextToken | Asst2/huffman.c:348-366 | appends the next token to the buffer, moves the cursor behind it, and tells apart end of file, a delimiter, a run that stops at a delimiter, and a run that ends the file |
| Tokenizer.IncrementTokenFrequency | Asst2/huffman.c:330-340 | counts one more occurrence of the token, from zero if it is new, and leaves all other counts alone |
| Tokenizer.Counting | Asst2/huffman.c:369-387 | the count of each token grows by its number of occurrences in the file |
| Tokenizer.CountingAll | Asst2/huffman.c:634-640 | counting the files of a directory one after the other counts all their tokens |
| Tokenizer.CountedComposes | Asst2/huffman.c:369-387 | counting one file after another counts all of them |
| Expandables.Expandable.constructor | Asst2/ds.c:6-11 | a new buffer is empty, with room behind its contents |
| Expandables.Expandable.Expand | Asst2/ds.c:22-30 | growing keeps the contents and adds the room asked for |
| Expandables.Expandable.Append | Asst2/ds.c:32-41 | appends one byte; room for the final zero remains |
| Expandables.Expandable.AppendSequence | Asst2/ds.c:43-57 | appends a sequence, growing first when it does not fit |
| MinHeaps.SortedIsHeap | Asst2/ds.c:132-137 | an array sorted by count is already a heap |
| MinHeaps.MinHeap.constructor | Asst2/ds.c:132-137 | the heap takes the sorted node array over as it is |
| MinHeaps.MinHeap.Heapify | Asst2/ds.c:92-111 | when only the given index may violate the order, order is restored, also when both children are descended into, and the nodes stay the same |
| MinHeaps.RootIsLeast | Asst2/ds.c:113-119 | the root of a heap has the least count of all nodes below it |
| MinHeaps.MinHeap.GetMinNode | Asst2/ds.c:113-119 | takes a node of least count out and leaves a heap of the others |
| MinHeaps.MinHeap.SiftUp | Asst2/ds.c:122-126 | the loop leaves open the slot in which the new node is in order |
| MinHeaps.MinHeap.InsertNode | Asst2/ds.c:121-130 | adds the node, keeps the order, and never grows beyond the array |
| HuffmanTree.MergeTwoLeast | Asst2/huffman.c:53-60 | joining two least trees keeps the leaves and costs what one step of greedy merging costs |
| HuffmanTree.MergedLighterLeft | Asst2/huffman.c:53-58 | the tree taken out first becomes the left child, and counts no more than the other |
| MergeLoop.BuildHuffmanTreeFromNodesArray | Asst2/huffman.c:47-66 | the result is a full tree over exactly the given leaves, counts add up, the lighter of two children is always the left one, and the inner counts sum to the cost of greedy merging |
| HuffmanTree.HeightBound | Asst2/huffman.c:50-61 | no path is longer than the number of merges |
| Optimality.GreedyIsOptimal | Asst2/huffman.c:50-61 | greedy merging costs no more than any assignment of code lengths that satisfies Kraft's inequality |
| KraftSums.KraftInequality | Asst2/ds.c:139-182 | the code lengths of every prefix code satisfy Kraft's inequality |
| Export.ExportIsPrefixCode | Asst2/ds.c:139-182 | no exported code is a prefix of another, and none is longer than the number of leaves less one, so the scratch buffer of size + 1 suffices |
| Export.ExportedComplete | Asst2/ds.c:139-182 | the exported codes use up the Kraft sum exactly |
| Export.ExportedWords | Asst2/ds.c:139-182 | the words exported are the tokens of the leaves, in order |
| Export.Exporter.Descend | Asst2/ds.c:159-175 | writes one bit to the shared code buffer |
| Export.Exporter.Ascend | Asst2/ds.c:166-179 | takes the last bit of the shared code buffer back |
| Export.Exporter.Emit | Asst2/ds.c:143-158 | stores the code in the buffer and the token of the leaf, within the arrays |
| Export.Exporter.TraverseTreePrefix | Asst2/ds.c:139-182 | appends the exported entries of the subtree and leaves the code buffer as it was |
| Shortest.EncodedLength | Asst2/huffman.c:404-421 | encoding a token list takes, summed over distinct tokens, count times code length |
| Shortest.TreeCost | Asst2/huffman.c:59 | count times code length, summed over the leaves, is the sum of the inner counts plus the root count times the length of the prefix |
| Shortest.CompressedLength | Asst2/huffman.c:404-421 | the file a book was counted from compresses to exactly the sum of the inner counts |
| Shortest.NoBookIsCheaper | Asst2/huffman.c:404-421 | no prefix code encodes the tokens in fewer bits than greedy merging costs |
| Shortest.HuffmanIsOptimal | Asst2/huffman.c:47-66 | encoding with the exported codes is at most as long as with any other prefix code for the same tokens |
| CodeWeights.BranchIsNode | Asst2/ds.c:139-182 | where an exported code goes on behind a prefix, that prefix leads to an inner node |
| CodeWeights.WeightBelow | Asst2/ds.c:139-182 | the leaves whose codes start with a path count as much as the subtree the path leads to |
| CodeWeights.BookZeroIsLighter | Asst2/huffman.c:53-58 | wherever codes branch, at most as many tokens of the text go on with 0 as with 1 |
| TwoTokenFiles.RarerIsZero | Asst2/huffman.c:53-58 | of two tokens the rarer one gets code 0 and the first line, the other one code 1 |
| TwoTokenFiles.BlankBetweenTwo | Asst2/huffman.c:229-274 | for the file of x, a blank and x the code book and the output are spelled out byte by byte |
| Shortest.TallyPermuted | Asst2/huffman.c:539-551 | a tally of the tokens stays one in any order of its leaves |
| Codebook.HexRoundTrip | Asst2/huffman.c:254-321 | a delimiter written as two hexadecimal digits is read back as itself |
| Codebook.HexDigitIs | Asst2/huffman.c:258 | hexadecimal digits are written with capital letters |
| Codebook.HexValueIff | Asst2/huffman.c:317-319 | capital and small hexadecimal digits are read, and no other byte |
| Codebook.DumpToken | Asst2/huffman.c:252-267 | appends the text of one token, delimiters in hexadecimal |
| Codebook.DumpLine | Asst2/huffman.c:249-269 | appends one line: code, tab, token, line feed |
| Codebook.DumpCodeBook | Asst2/huffman.c:239-274 | the buffer holds the text of the whole book |
| Codebook.BookRoundTrip | Asst2/huffman.c:239-326 | reading the text of a book with non-empty codes gives its entries back in order, whatever stands behind its last line |
| Codebook.ReadHexToken | Asst2/huffman.c:306-322 | a token that does not start with 1 is the byte of two hexadecimal digits, and the next character is skipped |
| Codebook.LoneTokenIsUnreadable | Asst2/huffman.c:282-326 | the book of a single token, whose code is empty, cannot be read back |
| Codebook.ReadUntil | Asst2/huffman.c:297-312 | reads up to the next occurrence of a byte |
| Codebook.LoadToken | Asst2/huffman.c:306-322 | reads one token and its line feed exactly where the grammar allows it |
| Codebook.LoadLine | Asst2/huffman.c:292-323 | reads one line exactly where the grammar allows it |
| Codebook.LoadLines | Asst2/huffman.c:292-324 | the loop reads as many lines as announced |
| Codebook.ScanCount | Asst2/huffman.c:290 | scans the number of lines and skips all blanks behind it |
| Codebook.LoadCodeBook | Asst2/huffman.c:282-326 | the loop reads exactly the book the text stands for |
| Decimal.ScanPrinted | Asst2/huffman.c:246-290 | scanning a printed number gives the number and stops right behind it |
| Decimal.PrintedIsDecimal | Asst3/common/util.c:439 | the digits printed, weighted with powers of ten, sum to the number, a minus stands in front of negative ones, and only zero starts with a zero |
| Decimal.ScanWhole | Asst2/huffman.c:290 | blanks, an optional sign and all digits are scanned as the decimal number they stand for; without a digit nothing is |
| Tries.StepDown | Asst2/huffman.c:89-104 | follows one bit, with a new node where there is none |
| Tries.Walk | Asst2/huffman.c:85-106 | follows a code from the root; only the missing nodes on the way are new |
| Tries.PutLeaf | Asst2/huffman.c:107-114 | the token's node takes the place of the last node on the way |
| Tries.Insert | Asst2/huffman.c:85-114 | the node is reached by its code, and everything reached before is still reached |
| Tries.BuildHuffmanTreeFromCodes | Asst2/huffman.c:77-118 | for a prefix code in any order, each node is the leaf reached by its code |
| RoundTrip.TrieMirrorsTree | Asst2/huffman.c:77-118 | a trie that spells the exported codes has the shape of the tree they came from, with its tokens at the leaves |
| RoundTrip.AnyOrder | Asst2/huffman.c:539-543 | the library's walk and sort hand the nodes over in some order, each once |
| RoundTrip.RebuildTrie | Asst2/huffman.c:539-551 | whatever the order, the trie rebuilt from the codebook is the tree that was exported |
| Codec.DecodeCode | Asst2/huffman.c:425-443 | from the root, the code of a leaf leads to that leaf, emits its token and starts again |
| Codec.DecodeEncode | Asst2/huffman.c:404-443 | decoding the encoding of a token list gives the concatenation of the tokens |
| Decoding.DecodeFailsIff | Asst2/huffman.c:429-436 | decoding fails iff some character is neither 0 nor 1 |
| Decoding.DecodesIff | Asst2/huffman.c:425-443 | any text decodes to out iff it consists of codes of the book whose tokens make up out, and possibly the beginning of one more code |
| Codec.TryEncodeNext | Asst2/huffman.c:410-419 | whether a text can be encoded, and how, is decided one token at a time |
| Compressor.CompressNext | Asst2/huffman.c:410-419 | one round appends the code of the next token, or finds that it has none |
| Compressor.Compress | Asst2/huffman.c:404-421 | appends the encoding of all tokens of the file; fails exactly when a token is not in the book |
| Compressor.DecompressNext | Asst2/huffman.c:428-441 | one step down the tree and, at a leaf, its token and back to the root |
| Compressor.Decompress | Asst2/huffman.c:425-443 | appends what the text decodes to; fails exactly on text that does not decode |
| Pipeline.SortByCount | Asst2/huffman.c:391-400 | an ascending order of all counted nodes, ties in any order |
| Pipeline.CountedIsTally | Asst2/huffman.c:369-387 | the sorted nodes are one leaf for each distinct token with its number of occurrences |
| Pipeline.BuildTree | Asst2/huffman.c:539-551 | the files of a run get a Huffman tree over the tally of all their tokens, unless there are none |
| Pipeline.ExportBook | Asst2/huffman.c:458-462 | the codebook text and the book are those of the export of the tree |
| Pipeline.CompressFile | Asst2/huffman.c:482-497 | the output for a file is its encoding, and the shared buffer is empty again |
| Pipeline.TotalIsLengthOfAll | Asst2/huffman.c:672-678 | the outputs of all files together are as long as the encoding of all tokens |
| Pipeline.CompressDirectory | Asst2/huffman.c:611-683 | one book for all files, every output the encoding under it, no prefix code for their tokens makes the outputs together shorter, and wherever codes branch the lighter half goes on with 0 |
| Pipeline.CompressSingle | Asst2/huffman.c:686-729 | the same for one file |
| Pipeline.KeepEntries | Asst2/huffman.c:277-279 | of the entries of a loaded book the search tree keeps the first for each token |
| Pipeline.KeptIsFirst | Asst2/huffman.c:277-279 | the code kept for a token is that of the first entry with it; tokens without entry have none |
| Pipeline.KeptAll | Asst2/huffman.c:277-279 | with distinct tokens it keeps all of them |
| Pipeline.CompressWithBook | Asst2/huffman.c:711-716 | with an existing book the output is the encoding under it; there is none when the book cannot be read or has no entry for a token |
| RoundTrip.LoadTrie | Asst2/huffman.c:597-598 | the book of a tree can be loaded, and its trie rebuilt, iff the tree is not a single leaf |
| RoundTrip.DecompressWith | Asst2/huffman.c:501-517 | the output is what the tree decodes |
| RoundTrip.DecompressFile | Asst2/huffman.c:590-608 | reading the codebook, rebuilding the trie and decoding give what the tree decodes, and fail for a tree of one leaf |
| RoundTrip.DecompressDirectory | Asst2/huffman.c:554-587 | the same for every file, with one loaded book |
| RoundTrip.LoneLeaf | Asst2/huffman.c:50-61 | the tree has an inner node iff there are at least two distinct tokens |
| RoundTrip.CompressAndDecompressAll | Asst2/huffman.c:554-683 | the original bytes of every file come back if and only if the files together have at least two distinct tokens |
| RoundTrip.CompressAndDecompress | Asst2/huffman.c:590-729 | the same for one file |
| RoundTrip.ReuseBook | Asst2/huffman.c:590-729 | any file compressed and decompressed with the existing book of a tree comes back iff the tree has two leaves and one for every token of the file |
| HeapBytes.SpliceTiles | Asst1/mymalloc.c:71-115 | overwriting a stretch of blocks with headers of blocks of the same total size replaces these blocks in the decoded heap |
| HeapBytes.HeaderSpelledOut | Asst1/mymalloc.c:20-42 | bytes are the header of a block iff the first holds the used flag, the size flag and the six lowest bits of the payload size, and the second of a large one the next six |
| HeapBytes.BuffersDisjoint | Asst1/mymalloc.c:57-62 | a live buffer ends before the header of the next live block |
| HeapBytes.BufferInHeap | Asst1/mymalloc.c:57-62 | every live buffer lies inside the array |
| HeapBytes.MallocAddressIsNew | Asst1/mymalloc.c:171-177 | the address handed out was no live address before |
| HeapBytes.MallocLiveNew | Asst1/mymalloc.c:171-177 | the block handed out has exactly the payload asked for |
| HeapBytes.MallocLiveOther | Asst1/mymalloc.c:171-177 | every other live buffer keeps its address and its bytes |
| HeapBytes.FreeLive | Asst1/mymalloc.c:219-234 | freeing takes away the freed buffer and no other, also when a header widens |
| HeapBytes.WriteTiles | Asst1/mymalloc.c:71-115 | a write inside a payload leaves all headers in place |
| Layout.DataIncreases | Asst1/mymalloc.c:57-62 | payload addresses strictly increase with the blocks |
| Layout.FirstFit | Asst1/mymalloc.c:157-170 | the index of the first free block with room, or the number of blocks when there is none |
| Layout.MallocKeepsWellFormed | Asst1/mymalloc.c:140-178 | an allocation keeps the invariant: blocks tile the heap, no two free neighbours, no live block of 65 bytes |
| Layout.FreeKeepsWellFormed | Asst1/mymalloc.c:219-234 | freeing with merging on both sides keeps the invariant |
| Layout.FreeUndoesMalloc | Asst1/mymalloc.c:140-235 | freeing what was just allocated restores exactly the previous blocks |
| Layout.NothingLiveIsOneBlock | Asst1/mymalloc.c:219-234 | without live blocks the heap is one free block with a payload of 4094 |
| Allocator.AdjustsBySum | Asst1/mymalloc.c:71-97 | growing a block by what is merged in gives exactly the sum, unless a block of 65 bytes is freed alone |
| Allocator.Heap.constructor | Asst1/mymalloc.c:13 | the zeroed array is a valid heap that was never touched |
| Allocator.Heap.ReadHeader | Asst1/mymalloc.c:44-55 | reads the two flags and the size field of either header |
| Allocator.Heap.GetDataPointer | Asst1/mymalloc.c:57-62 | the payload starts behind one or two bytes of header |
| Allocator.Heap.GetBlkSize | Asst1/mymalloc.c:64-69 | header and payload together |
| Allocator.Heap.GetNextHeaderPosition | Asst1/mymalloc.c:125-138 | the next header, or none at the end of the array |
| Allocator.Heap.WriteSize | Asst1/mymalloc.c:88-96 | the size field of a small or large header, nothing else in the array |
| Allocator.Heap.AdjustHeaderSize | Asst1/mymalloc.c:71-97 | the new header describes the adjusted total, the result is what is left over, and only header bytes change |
| Allocator.Heap.WriteNewHeader | Asst1/mymalloc.c:99-115 | writes the header of a block of the given total, or nothing for zero |
| Allocator.Heap.FindFit | Asst1/mymalloc.c:157-170 | the walk stops at the lowest free block with room, or at none |
| Allocator.Heap.Shrink | Asst1/mymalloc.c:171-177 | the block gets the size asked for and the rest becomes a free block behind it |
| Allocator.Heap.Carve | Asst1/mymalloc.c:171-177 | handing out a block turns the decoded heap into the one with that block split |
| Allocator.Heap.LooksUntouched | Asst1/mymalloc.c:148-149 | the freshness test holds exactly on the never initialised heap |
| Allocator.Heap.Prepare | Asst1/mymalloc.c:147-156 | initialises a fresh heap unless the request is over 4095 bytes; no buffer appears |
| Allocator.Heap.MyMalloc | Asst1/mymalloc.c:140-178 | result, new layout, new buffer of the size asked for, and no other buffer changed |
| Allocator.Heap.FindLive | Asst1/mymalloc.c:196-215 | finds the live block whose payload starts at the pointer, if there is one |
| Allocator.Heap.SizeWithNext | Asst1/mymalloc.c:219-224 | the payload of the block, with a free successor added |
| Allocator.Heap.MergeNext | Asst1/mymalloc.c:219-225 | the block is free and has taken in a free successor |
| Allocator.Heap.GetPreviousHeader | Asst1/mymalloc.c:117-123 | the walk ends at the block before, or at none for the first |
| Allocator.Heap.MergePrevious | Asst1/mymalloc.c:226-234 | a free predecessor has taken the block in |
| Allocator.Heap.MyFree | Asst1/mymalloc.c:180-235 | frees a live pointer and merges; any other pointer changes nothing; other buffers stay |
| Allocator.FreeChangesLayout | Asst1/mymalloc.c:180-235 | freeing a live block always changes the layout, so state changes iff the pointer is live |
| Allocator.AddressInHeap | Asst1/mymalloc.c:190-194 | no pointer outside the array is live, so the range check loses nothing |
| Allocator.Heap.UserWrite | Asst1/mymalloc.c:57-62 | a write by the owner changes its own buffer only |
| HeapRuns.RunsKeepSound | Asst1/mymalloc.c:140-235 | any run of allocations, frees of any pointer and writes inside live buffers keeps the invariant |
| HeapRuns.MallocFailsIff | Asst1/mymalloc.c:157-170 | a request fails iff no free block has room for it |
| HeapRuns.FreeRestores | Asst1/mymalloc.c:140-235 | freeing the result of an allocation restores the layout the allocation worked on |
| HeapRuns.FreeTakesOne | Asst1/mymalloc.c:180-235 | freeing removes exactly the freed pointer from the live ones |
| HeapRuns.FreeingAllRestores | Asst1/mymalloc.c:180-235 | freeing all live pointers, in any order and even repeatedly, leaves one free block |
| HeapRuns.Step | Asst1/mymalloc.c:140-235 | one operation on the bytes follows the layout and spares the buffers it is not about |
| HeapRuns.Run | Asst1/mymalloc.c:140-235 | over a whole run, a buffer keeps its bytes until it is freed or its owner writes to it |
| Handlers.ReadersKeepFiles | Asst3/server/logic.c:139-577 | a handler that holds the read lock writes nothing |
| Handlers.StepProgress | Asst3/server/logic.c:581-704 | every handler terminates |
| HistoryText.CommitsAre | Asst3/server/logic.c:159-170 | the text of a history is the concatenation of the records of all versions in order, each with an empty line, and there is none iff one is missing |
| HandlerRefinement.HistoryLoop | Asst3/server/logic.c:159-170 | the loop answers with the records of versions 1 to n in order, each followed by an empty line, or ends the process iff one is missing |
| HandlerRefinement.UpgradeAgrees | Asst3/server/logic.c:495-533 | upgrade answers with the stored version, or rejects the number |
| HandlerRefinement.LatestAgrees | Asst3/server/logic.c:195-445 | currentversion answers with the manifest and checkout with the archive of version n, the latest, or with their refusals when there is none |
| HandlerRefinement.WorkAgrees | Asst3/server/logic.c:448-577 | update and commit answer with the manifest among the working files |
| HandlerRefinement.CreateAgrees | Asst3/server/logic.c:13-80 | creating ends with an empty history and version 0 |
| HandlerRefinement.RollbackAgrees | Asst3/server/logic.c:364-405 | deleting, unpacking and writing the number step by step is the rollback of the project |
| HandlerRefinement.PushRejected | Asst3/server/logic.c:259-270 | a push that is too short or out of sync leaves the files alone |
| HandlerRefinement.PushAccepted | Asst3/server/logic.c:264-322 | the separate writes of an accepted push together add one version directory with manifest, archive and commit record, and leave among the working files the archive, the manifest, and of the files before only those with a dot |
| HandlerRefinement.HandlerIsAtomic | Asst3/server/logic.c:581-704 | every handler, run alone, has the response and the effect of the request on the abstract project |
| Server.StepKeepsInv | Asst3/server/logic.c:581-704 | locking, single steps and unlocking in any thread keep the invariant |
| Server.EveryRunIsAtomic | Asst3/server/logic.c:581-704 | in every interleaving, responses are those of the requests carried out one by one, and without a writer at work the files are those of that project |
| Server.LogOnlyGrows | Asst3/server/logic.c:581-704 | the order of the requests respects real time: what is answered stays before what comes later |
| Server.WritersAreAlone | Asst3/server/logic.c:589-703 | a writing handler never runs beside another one |
| Server.LockIff | Asst3/server/logic.c:589-703 | a waiting request can take the lock iff no running one conflicts with it, so readers run side by side |
| Server.SomeThreadCanGoOn | Asst3/server/logic.c:589-703 | there is no deadlock |
| ProjectSafety.EveryStateSound | Asst3/server/logic.c:264-318 | after any requests, the manifest stored as version k declares k if and only if it carries a number |
| ProjectSafety.NumberlessIsStored | Asst3/server/logic.c:265-270 | a manifest without a number can be accepted and stored as version 1 |
| ProjectSafety.EveryStateUpToDate | Asst3/server/logic.c:297-318 | with clients that pack the manifest they send into the archive, the manifest among the working files is the latest one |
| ProjectSafety.StoredCommitIff | Asst3/server/logic.c:293-307 | the commit record stored is that of the pushed archive, unless that has none and the working files still hold an earlier one |
| ProjectSafety.CommitsKeepServerUp | Asst3/server/logic.c:162-165 | with clients that pack a commit record into the archive no request ends the process |
| ProjectSafety.ExitIff | Asst3/server/logic.c:162-165 | the process ends iff history is asked for while a version has no commit record |
| ProjectSafety.HistoryCanExit | Asst3/server/logic.c:162-165 | that happens after a single push without a commit record |
| ProjectSafety.RollbackUndoesPush | Asst3/server/logic.c:364-393 | rolling back a push restores the history before it |
| ProjectSafety.RollbackLeavesFiles | Asst3/server/logic.c:378-389 | the working files become those of the version iff there were no others before |
| ProjectSafety.RollbackCanLeaveFiles | Asst3/server/logic.c:378-389 | that others stay behind happens after two pushes and a rollback |
| ProjectSafety.RollbackManifestIff | Asst3/server/logic.c:378-393 | the manifest among the working files becomes that of the version iff its archive holds it |
| ProjectSafety.VersionStays | Asst3/server/logic.c:370-377 | a stored version stays as it is until a rollback below it or a destroy |
| ProjectSafety.OnePushPerVersion | Asst3/server/logic.c:264-270 | of pushes for the same version at most one is accepted, unless a rollback below it or a destroy comes between |
| ProjectSafety.UpgradeReturnsPush | Asst3/server/logic.c:495-533 | an upgrade returns exactly the manifest and archive that were pushed |
| ProjectSafety.ConcurrentPushes | Asst3/server/logic.c:690-703 | the same for concurrent pushes under every interleaving |
| ProjectSafety.StoredVersions | Asst3/server/logic.c:264-393 | in every interleaving, whenever no writer is at work, version directories are exactly 1 to the current version, each with archive and a manifest that declares its number iff it carries one, and with clients that pack their manifests Curr holds the latest |
| ProjectSafety.ServerNeverExits | Asst3/server/logic.c:581-704 | with clients that pack a commit record the server never goes down, under every interleaving |
| ProjectAnswers.HistoryInOrder | Asst3/server/logic.c:151-170 | history is answered with a text iff there is a version, each has a record, and the text is all of them in order |
| ProjectAnswers.PushAppendsRecord | Asst3/server/logic.c:159-170 | the history after an accepted push is the one before it with the stored record and an empty line behind it, or ends the process iff no record was stored |
| ProjectAnswers.HistoriesAroundPush | Asst3/server/logic.c:159-170 | two history answers around an accepted push differ by exactly its record, whatever else is asked in between |
| ProjectAnswers.RollbackCutsHistory | Asst3/server/logic.c:364-393 | after a rollback the history is the records up to that version, the front of what it was |
| ProjectAnswers.PushReplacesFiles | Asst3/server/logic.c:293-318 | after an accepted push each name holds the pushed manifest, the file of the archive, for other names with a dot what was there before, and else nothing |
| ProjectAnswers.NoStaleFiles | Asst3/server/logic.c:293-300 | a name without a dot holds exactly what the pushed archive has |
| ProjectAnswers.CurrHoldsPush | Asst3/server/logic.c:293-318 | the same for the directory Curr in every interleaving, until the next accepted push, rollback or destroy |
| ProjectAnswers.LatestIsPush | Asst3/server/logic.c:195-445 | until the next accepted push, rollback or destroy, checkout returns the archive of the last accepted push, and currentversion, update and commit its manifest |
| ProjectAnswers.RollbackMakesLatest | Asst3/server/logic.c:364-405 | after a rollback to v checkout and currentversion answer with version v; a rollback to the current version changes nothing |
| ProjectAnswers.RollbackReturnsPush | Asst3/server/logic.c:364-445 | after a rollback to v checkout returns the archive that was pushed as v, and currentversion its manifest |
| ProjectAnswers.RollbackOverlays | Asst3/server/logic.c:378-389 | each name holds what the archive of the version has, or else what was there before |
| ProjectAnswers.QuietStays | Asst3/server/logic.c:581-704 | only accepted pushes, rollbacks that are carried out and destroys change a project |
| ProjectAnswers.RefusedIffMisses | Asst3/server/logic.c:581-704 | in every state a request is refused iff what it asks for does not exist or a push does not fit, and then nothing changes |
| ProjectAnswers.NoProjectRefuses | Asst3/server/logic.c:581-704 | without a project everything but creating it is answered with 999 |
| ProjectAnswers.NewProjectAnswers | Asst3/server/logic.c:13-80 | the answer of a project just created to every kind of request |
| ProjectAnswers.DestroyForgets | Asst3/server/logic.c:581-704 | a project destroyed and created again is new, whatever it held |
| Base64.EncodeGroups | Asst3/common/util.c:87-99 | the loop writes four letters for every three bytes, zeros standing in for missing ones |
| Base64.Base64Encode | Asst3/common/util.c:78-105 | each letter is the entry of the 64 letters written out for the next six bits of the data, highest first and zeros behind the end, and padding fills up to a multiple of four |
| Base64.LetterIsWrittenOut | Asst3/common/util.c:23-30 | the letter for a value is the entry of the alphabet written out |
| Base64.EncodedSpellsBits | Asst3/common/util.c:78-105 | a text is the Base64 text of the data iff it spells out its bits, six by six |
| Base64.BuildDecodingTable | Asst3/common/util.c:70-76 | the table maps each of the 64 letters written out to its position |
| Base64.Base64Decode | Asst3/common/util.c:108-141 | fails iff the length is not a multiple of four, and else gives what the text stands for |
| Base64.DecodeEncode | Asst3/common/util.c:78-141 | what the text of a non-empty byte string stands for is that string and no other |
| Base64.EncodedInjective | Asst3/common/util.c:78-105 | different names have different texts |
| ManifestItems.CmpIsOrder | Asst3/common/util.c:456-464 | the comparison is antisymmetric and zero exactly for equal names |
| ManifestItems.CmpTransitive | Asst3/common/util.c:456-464 | the comparison is transitive |
| ManifestItems.BeforeIff | Asst3/common/util.c:456-464 | a shorter name comes first; names of the same length are in the order of the first byte in which they differ |
| ManifestText.WriteManifest | Asst3/common/util.c:434-454 | the text of the manifest, with stored or new hashes |
| ManifestText.ReadWritten | Asst3/common/util.c:372-454 | reading the text of a manifest gives its version and its lines in order |
| ManifestText.LinesAsWords | Asst3/common/util.c:443-452 | behind the version the words of a manifest are name, version and hash of one file after the other |
| ManifestText.TakeWord | Asst3/common/util.c:389-421 | each word becomes the name, the version or the hash of an item |
| ManifestText.ReadItems | Asst3/common/util.c:387-429 | the loop makes one item for every three words, and fails iff a line is not complete |
| ManifestText.ReadManifest | Asst3/common/util.c:372-430 | version and items stand for the lines of the text |
| ManifestText.WriteAndRead | Asst3/common/util.c:372-454 | writing and reading back gives the same version and items, with their decoded names |
| ManifestCompare.ChangesExact | Asst3/common/util.c:516-664 | code 1 is reported exactly for files that are new or changed at the client, code 3 exactly for files only the server has, and nothing else |
| ManifestCompare.MergeSorted | Asst3/common/util.c:516-664 | what is reported is in the order of names |
| ManifestCompare.UpdateExact | Asst3/common/util.c:520-534 | outside a commit, at equal versions, uploads are exactly the new or changed files and conflicts exactly the files only the server has |
| ManifestCompare.CommitLogsAll | Asst3/common/util.c:520-534 | for a commit everything is logged and nothing is a conflict |
| ManifestCompare.Mark | Asst3/common/util.c:520-534 | the item goes to the change list or to the conflicts with its code, and no earlier entry changes |
| ManifestCompare.CompareNext | Asst3/common/util.c:516-591 | one turn of the merge reports what belongs next and moves one or both cursors |
| ManifestCompare.RestOfClient | Asst3/common/util.c:615-638 | what the client has left is reported as to be stored |
| ManifestCompare.RestOfServer | Asst3/common/util.c:639-663 | what the server has left is reported as gone or as a conflict |
| ManifestCompare.CompareManifest | Asst3/common/util.c:508-672 | the two lists are those of the merge, the result tells whether there are conflicts, and nothing but change codes is written |
| ManifestCompare.CompareForCommit | Asst3/common/util.c:508-672 | for a commit the change list is the whole merge |
| ManifestPush.TakeItem | Asst3/common/util.c:696-703 | the next item gets the new hash and, if uploaded, the next version |
| ManifestPush.TakeItemsBefore | Asst3/common/util.c:686-694 | all items before the next change are taken over |
| ManifestPush.TakeUpload | Asst3/common/util.c:686-720 | one entry of the change list is applied |
| ManifestPush.ProjectManifest.ProcessPush | Asst3/common/util.c:678-733 | project version up by one, the same items in the same order, every hash the working hash, versions up exactly where the list has code 1 |
| ManifestPush.CodesOfChanges | Asst3/common/util.c:678-733 | the change list of a comparison never makes the update read behind the manifest |
| ManifestPush.NothingToCommitIff | Asst3/common/util.c:507-672 | a comparison reports nothing iff both manifests list the same files and each working hash is the stored one |
| ManifestPush.PushConverges | Asst3/common/util.c:678-733 | after a push the manifest is sorted, exactly the new or changed files moved to the next version, and comparing it with itself reports nothing |
| ManifestPush.SavedListDecides | Asst3/client/client.c:560-575 | the versions that move are those of the saved list; they are the right ones iff its uploads are the files new or changed now; in any case nothing is left to commit |
| ManifestPush.SavedListCanBeStale | Asst3/client/client.c:567-575 | a saved list of the right length whose upload is no longer the changed file |
| ManifestPush.SaveChanges | Asst3/client/client.c:511-513 | the push works with new items of the same names and codes |
| ManifestPush.CheckAndProcess | Asst3/client/client.c:564-581 | compares again, stops when the number of changes differs, applies the saved list, and stops when it is empty |
| ManifestPush.CommitAndPush | Asst3/client/client.c:455-581 | commit and push in place: something is pushed iff there are changes, the update is that of the fresh list, and nothing is left to commit |
| PushCycle.TextDeclares | Asst3/common/util.c:434-441 | the text of a manifest declares its version to the server |
| PushCycle.NewManifestIsEmpty | Asst3/server/logic.c:33-44 | the manifest the server writes for a new project is that of version 0 without files |
| PushCycle.AcceptedIffNext | Asst3/server/logic.c:264-270 | the server accepts the text of version v iff the project is at v - 1 |
| PushCycle.PushIsAnswered | Asst3/server/logic.c:297-577 | after an accepted push, commit, update and currentversion are answered with its manifest |
| PushCycle.Cycle | Asst3/client/client.c:455-610 | without changes nothing is sent; otherwise the push to the project at the client's version is accepted, the next commit is answered with the text sent, and in both cases nothing is left to commit |

## Left out

- Reading and writing of files in the compressor and the client, directory walking, `find`, sockets, polling, threads, packet building and parsing: I/O or foreign code; contents are sequences of bytes.
- The library's search tree, `qsort` and `twalk`: a map keyed by token, and any order, ascending where it is a sort.
- Integer widths: counts, sizes, versions and file lengths are mathematical integers.
- `isDelim` is the predicate of the C locale, in which the program runs since it never sets another.
- Memory release and failing allocation.
- Codebook.LoadLine: a code made of other characters than 0 and 1 is a failure, because no program writes one; the original keeps it, and skips these characters when it builds its tree.
- Codebook.LoadLines: the same for all lines.
- Codebook.LoadCodeBook: the same for the whole book.
- Compressor.Compress: a token without an entry makes the result false; the original reads through a null pointer there, before the check that was meant for the case.
- RoundTrip.DecompressFile: only code books written for a tree are covered, because a trie built from other codes need not be a tree that decodes anything.
- The 50-byte scratch buffer for the number of lines of a codebook is a plain append.
- Allocator.Heap.MyMalloc: a negative size is excluded, because the original then writes truncated sizes into headers; messages are left out.
- The server's lock table is one lock per project name; one project is modelled, the lock's preference for writers is not needed, and unknown operation codes, which return without the lock, do not occur.
- HandlerRefinement.HandlerIsAtomic: rolling back to a negative version, whose loop goes on below version 1, is no request of the model.
- Removing a directory, unpacking an archive and copying a file are single steps of a handler; they happen under the write lock, where nobody can look.
- Failing file-system calls in the server, C string termination and the framing of replies.
- Archives are maps from names to contents; unpacking lays them over the directory.
- Server.EveryRunIsAtomic: a handler that ends the process is given the response Exit when it finishes, and the other threads may still take steps between its last read and that point.
- ManifestCompare.CompareManifest: different versions and the mode for one manifest are not modelled; for different versions the original indexes the server's list with the client's cursor, and after a conflict moves only one cursor.
- ManifestCompare.CompareNext: the branches for different versions are not modelled, for the same reason.
- ManifestCompare.RestOfClient: the branch for different versions is not modelled, for the same reason.
- ManifestCompare.RestOfServer: the branch for different versions is not modelled, for the same reason.
- `proecessManifest_ByChangelist_Update`, since upgrade writes the server's manifest instead.
- ManifestPush.SavedListDecides: a saved list that names a file behind the last one of the manifest is left to `ManifestPush.WithinReach`, because the original then reads behind its list.
- ManifestPush.ProjectManifest.ProcessPush: change codes other than 1 and 3 are excluded, because a commit writes no others; a code-1 name behind the last item is excluded, because the original then reads behind its list.
- The text form of the change list, `make_new_manifest`, SHA-256 and the contents of files in the client: hashes are opaque.
- ManifestText.ReadItems: names that are not Base64 texts are excluded, for the reason given next.
- ManifestText.ReadManifest: names that are not Base64 texts are excluded, because decoding them reads memory that was never written.
- Base64.Base64Decode: an empty text and characters outside the alphabet are excluded, because the original then reads outside its buffers or an unset table entry.
- Buffer helpers of `Asst3/common/util.c` on their own, command-line parsing, the benchmark `memgrind.c`, the playground and the pointer sorter.
