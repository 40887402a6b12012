# Models of an operating-systems course repository

Six programs are modelled in the form they have in C: loops over arrays and linked cells,
fields changed in place, a cursor over a buffer. Each method is proved against functions on
values, and what the programs promise is proved about those functions, over all inputs and
over whole runs.

**Red-black tree** (`schproj/rbt.c`; RbTreeModel, RbTreeCells, RbTreeClimb,
RbTreeUnlink, RbTree, RbTreeRuns). `RedBlackTree` has a root pointer and cells with `link[2]` and a colour. A ghost
tree and a zipper path say what the cells and the `stack`/`dir` arrays hold. The mirrored
branches of the source are one method each with a side `d`. The code computes
`data - ptr->data` in int, so the methods ask that these differences fit.

**Allocator** (`memorylab/kr_malloc.c`, `memorylab/umalloc.c`; FreeList, FreeChain, HeapState,
KrMalloc, KrRuns). Memory is a map from unit addresses to headers, and the free list is
threaded through it. The answer of `sbrk` is a parameter: failure, or a region with arbitrary
contents that is new, does not touch `base`, and keeps the total below 2^32 units
(`FreshRegion`). A heap carries the run of states its calls made, so what is proved of runs holds
of the program. `nalloc` is 1024 for kr_malloc.c and 4096 for umalloc.c.

**Shell parser** (`shellproj/sh.c`; ShGrammar, ShGrammarProofs, ShLexer, ShMeaning, ShParser). The parser
moves a cursor over a NUL-terminated buffer, fills `argv` and `eargv` while redirections are
already wrapped around the command, and finally writes NULs into the buffer. `panic` is a
failure result. An independent grammar over tokens and a printer say what it should do. Chars
other than NUL, white space and `<|>&;()` are word characters.

**Paging** (`memorylab/paging.c`; PagingModel, Paging, PagingRuns). Page tables are bytes of the memory
they map. A plain `char` is signed, as in the source's own arithmetic. A ghost map gives every
marked frame its one use. `AllPages` is the map of all pages of all processes that the bytes
stand for. The page table register is null, an address in the memory, or a table outside it.

**Process queue** (`firstlab/proc.c`; ProcQueue) and **process table** (`schproj/proc.c`;
ProcTableModel, ProcEffects, ProcTable). A doubly linked list changed link by link, and 64 reusable slots
changed by loops.

## Where the code differs from what is said about it

- `deletion` (`schproj/rbt.c:204-207`) stops one entry early and takes the side from the entry
  above the parent's, so it is not red-black deletion in general. `Deletion` says, over the whole
  function, exactly when the result is a red-black tree: when `Fate` of the old tree is `Restored`
  and not `AtRoot` or `WrongSide`. Order and the absence of red-red edges survive every ending, so
  insertion and deletion are stated for all such trees; on one of unequal black counts a later
  deletion can dereference null at line 232, and `Fate` says when.
- A parent in `schproj/proc.c` is a slot, and Wait frees a slot that may still be the parent of a
  process (lines 208-214); a later Fork can then close a circle. `StepTree` says exactly which
  calls keep the processes a tree, `ParentsCanCycle` gives the circle.
- `>>` opens its file in the same mode as `>` (`shellproj/sh.c:432-434`); `AppendIsOutput` says that nothing else differs either.
- The note at `memorylab/paging.c:218-219` speaks of updating the TLB with one translation and evicting entry 0; the
  loop at 244-250 puts the translation into every invalid entry, and evicts only when there is none.
- `kill` (`firstlab/proc.c:153`) is described as removing a process by pid, but never the last one.
- `dispatcher` leaves the TLB as it is, although the note at `memorylab/paging.c:200-203` says that it
  is invalidated in a context switch; `Dispatcher` says exactly when it is still right, and
  `SwitchThenAccess` what is read when it is not.
- `memaccess` returns no byte in the upper half of a page or from frames 128 up, because page
  numbers and offsets pass through a signed `char` (`memorylab/paging.c:222-256`).

## Model

| member | source | states |
|---|---|---|
| RbTree.RedBlackTree.constructor | schproj/rbt.c:17 | The empty tree is valid. |
| RbTree.CreateNode | schproj/rbt.c:20-27 | A new cell, red, without children; all other cells are as they were. |
| RbTree.RedBlackTree.Insertion | schproj/rbt.c:30-112 | From any search tree without red-red edges, whatever deletion left of its black counts, that fits into the path arrays: again such a tree, with `data` put in at its place; a duplicate changes neither tree nor root. The black counts are equal afterwards if and only if they were before, so a red-black tree stays one. |
| RbTree.RedBlackTree.CreateRoot | schproj/rbt.c:34-37 | The first node is red and is a valid tree, because the code returns before painting it. |
| RbTree.RedBlackTree.Walk | schproj/rbt.c:39-50 | Finds the key exactly when it is in the tree; otherwise stack and dir hold the path to the empty place, root pushed twice, in at most height + 1 entries. |
| RbTree.RedBlackTree.Attach | schproj/rbt.c:51 | The new red leaf keeps search order and the equality of black counts; only a red parent may be wrong. |
| RbTree.RedBlackTree.Recolour | schproj/rbt.c:54-58 | The cells now hold the recoloured subtree below the path two levels shorter. |
| RbTree.RedBlackTree.Straighten | schproj/rbt.c:63-67 | The inner grandchild and its parent change places, on either side. |
| RbTree.RedBlackTree.RotateOuter | schproj/rbt.c:69-78 | The rotation, its colours and the relink of the parent (or of root) give the cells of the rotated tree. |
| RbTree.RedBlackTree.RepairRound | schproj/rbt.c:53-109 | A round either moves the red-red defect two levels up or ends with none; keys, order and the equality of black counts are those before the round. |
| RbTree.RedBlackTree.Repair | schproj/rbt.c:52-111 | From one red-red defect to a tree with none, a black root, and the same keys and cells; its black counts are equal if and only if they were. |
| RbTreeCells.RecolourStep | schproj/rbt.c:54-58 | Recolouring keeps contents and the equality of black counts, both ways, and leaves at most one defect two levels up. |
| RbTreeCells.StraightStep | schproj/rbt.c:63-67 | Straightening keeps contents, black counts and the defect, now on the outer side. |
| RbTreeCells.RotateStep | schproj/rbt.c:69-78 | After the outer rotation the whole tree has no red-red edge, the same contents, and equal black counts if and only if it had. |
| RbTreeCells.AttachOrder | schproj/rbt.c:51 | The in-order keys gain the new key at its sorted place, and it was not there before. |
| RbTreeModel.PlugBalanced | schproj/rbt.c:52-110 | Black counts of a whole tree split exactly into those of the path and of the subtree. |
| RbTreeModel.PlugNoRedRed | schproj/rbt.c:52-110 | Red-red freedom of a whole tree splits exactly into path and subtree. |
| RbTreeModel.LogarithmicHeight | schproj/rbt.c:31-50 | The height of a red-black tree is at most 2 log2(n + 1). |
| RbTreeModel.HeightAtMost64 | schproj/rbt.c:31-50 | With distinct 32-bit keys no path of a red-black tree has more than 64 nodes, so the 98-entry arrays cannot overflow. |
| RbTreeRuns.InsertAll | schproj/rbt.c:30-112 | Inserting any keys one after another into the empty tree: red-black, exactly the inserted keys, height at most 2 log2(n + 1), at most 65 path entries. |
| RbTree.RedBlackTree.Find | schproj/rbt.c:126-134 | Reaches the node with the key and records the path to it, pushed once. |
| RbTree.RedBlackTree.LiftLeft | schproj/rbt.c:136-145 | Without a right child the left one takes the place of the node, at the root or below. |
| RbTree.RedBlackTree.TakeOverNear | schproj/rbt.c:148-158 | The right child without a left child takes over place, colour and left subtree; ptr carries its old colour away. |
| RbTree.RedBlackTree.WalkSpine | schproj/rbt.c:163-171 | Walks to the in-order successor and records the spine above it. |
| RbTree.RecordTakeover | schproj/rbt.c:173-174 | The slot left open in the middle of the path is back-patched with the successor. |
| RbTree.RedBlackTree.TakeOverFar | schproj/rbt.c:175-189 | The successor takes over from the far end of the spine; ptr carries its old colour away. |
| RbTree.RedBlackTree.Unlink | schproj/rbt.c:136-191 | Every splice shape, on any search tree without red-red edges that fits into the arrays: the cells hold the old tree without the key, and the path on the stack, which is the one read off the old tree, ends exactly where one black may be missing. |
| RbTreeUnlink.SpliceOrder | schproj/rbt.c:147-191 | The in-order sequence loses exactly the deleted key, whichever successor takes over. |
| RbTreeUnlink.SpliceColors | schproj/rbt.c:147-191 | The only red-red edge the splice can make is below the last path entry, and only if the colour carried out is black. |
| RbTreeUnlink.SpliceCounts | schproj/rbt.c:147-191 | In a red-black tree all black counts stay equal but for that open end, one short exactly if the colour carried out is black. |
| RbTree.RedBlackTree.Settle | schproj/rbt.c:193-306 | From the spliced tree to the end of deletion: the cells hold `Deleted`, and the exit taken is `Fate`, both read off the old tree. |
| RbTree.RedBlackTree.ClimbLoop | schproj/rbt.c:197-305 | The loop over stack and dir, within the 98 entries and for any colours: the cells hold `Climbed`, and the exit taken is the one `Climb` foretells. |
| RbTree.RedBlackTree.ClimbRound | schproj/rbt.c:207-304 | One round on either side: it stops with the tree and the exit foretold, or goes on one entry up with both unchanged. It stops with a null sibling exactly where line 232 dereferences it. |
| RbTreeClimb.ClimbRounds | schproj/rbt.c:207-304 | `Climb`, which looks at turns and colours only, foretells what each round does, on either side. |
| RbTree.RedBlackTree.RaiseSibling | schproj/rbt.c:208-230 | A red sibling comes above the parent, in the cells and in both arrays; the sibling is then its near child, or null. |
| RbTree.RedBlackTree.TurnSibling | schproj/rbt.c:213-223 | The cells of that rotation, at the root or below. |
| RbTree.RedBlackTree.FixNephews | schproj/rbt.c:232-254 | Without red nephews the sibling turns red; otherwise the cells hold the finished rotation. Keys and cells are kept. |
| RbTree.RedBlackTree.TurnNephew | schproj/rbt.c:237-242 | The near nephew takes the place of the sibling. |
| RbTree.RedBlackTree.FinishTurn | schproj/rbt.c:244-253 | The sibling takes place and colour of the parent, at the root or below. |
| RbTreeClimb.RepairsHere | schproj/rbt.c:232-254 | When the loop has taken the right side, a red nephew makes the whole tree red-black. |
| RbTreeClimb.WrongSideStaysShort | schproj/rbt.c:207-254 | When it takes the left sibling for the right one or the other way round, turning it can never give equal black counts. |
| RbTreeClimb.MovesUp | schproj/rbt.c:232-234 | Reddening a black sibling without red children moves the missing black one entry up. |
| RbTreeClimb.SiblingAboveLacks | schproj/rbt.c:213-227 | Raising a red sibling keeps the missing black where it was, below a red parent. |
| RbTreeClimb.FinishedSmooth | schproj/rbt.c:232-254 | A finished round leaves no red-red edge and the same keys, whichever the side and whatever the black counts. |
| RbTreeClimb.RaisedSmooth | schproj/rbt.c:213-227 | Nor does raising a sibling, which brings a black one. |
| RbTreeClimb.ClimbedLoose | schproj/rbt.c:197-305 | Over the whole loop, however it ends and whatever the black counts: the same keys and cells in the same order, and no red-red edge. |
| RbTreeClimb.ClimbedCounts | schproj/rbt.c:197-305 | Where only one black node is missing: the loop always finds its siblings, and gives a red-black tree if and only if `Climb` is `Restored`, else unequal black counts. |
| RbTreeClimb.FarNephewTurns | schproj/rbt.c:244-254 | The tree left behind where the far nephew is red, drawn out: it is blackened and stays outside, whatever the near one is. |
| RbTreeClimb.NearNephewTurns | schproj/rbt.c:236-254 | The tree left behind where only the near nephew is red: it comes to the top between parent and sibling. |
| RbTreeClimb.RedParentSwaps | schproj/rbt.c:199-234 | Without red nephews, a red parent turns black and the sibling red. |
| RbTreeClimb.RedSiblingTurns | schproj/rbt.c:213-234 | A red sibling comes above the parent, its near child turns red. |
| RbTreeUnlink.DeletedIs | schproj/rbt.c:115-306 | What `Deleted` is: the keys and cells of the spliced tree, no red-red edge, and of a red-black tree a red-black one if and only if `Fate` is `Restored`. |
| RbTree.RedBlackTree.Deletion | schproj/rbt.c:115-306 | For a present key of any search tree without red-red edges: again such a tree, the keys lose exactly that one, and the tree is exactly `Deleted` of the old one. Of a red-black tree the result is red-black, and its black counts equal, if and only if `Fate`, a walk up the old path over turns and colours that a caller could do before the call, is `Restored`. The program fails at line 232 if and only if `Fate` is `NullSibling`, which no red-black tree has. |
| RbTreeUnlink.SplicedFrom | schproj/rbt.c:147-191 | Path, colour carried out and child moved up are those read off the old tree. |
| RbTreeRuns.DeletionCanStopShort | schproj/rbt.c:204-205 | From a four-node red-black tree the method leaves at line 205 and the remaining three nodes have unequal black counts. |
| RbTreeRuns.DeletionFromSeven | schproj/rbt.c:204-211 | From seven black nodes, deleting either outer leaf stops short of the root and deleting either inner one takes the wrong side; black counts differ each time. |
| RbTreeRuns.DeletionCanRepair | schproj/rbt.c:207-254 | From an eight-node tree a black leaf goes, the loop runs on, and the tree is red-black again. |
| RbTreeRuns.DeletionCanFail | schproj/rbt.c:208-232 | Two deletions from a red-black tree of ten nodes: the first ends on the wrong side, the second dereferences null. |
| RbTreeRuns.InsertThenDelete | schproj/rbt.c:30-306 | Insertion of a new key and then deletion of it, on any valid tree: the in-order keys are those from before, and the tree is valid if and only if the deletion was foretold to repair. |
| RbTree.RedBlackTree.InorderTraversal | schproj/rbt.c:310-317 | Prints the in-order keys, which increase in a search tree. |
| RbTree.RedBlackTree.LeftMostNode | schproj/rbt.c:320-328 | Finds the least key. |
| KrMalloc.UnitsFor | memorylab/kr_malloc.c:65 | The payload of the units computed holds the bytes asked for, and one unit less would not. |
| KrMalloc.KrHeap.KrMalloc | memorylab/kr_malloc.c:45-156 | Terminates on every list; asks for more at most once and only when no free block is big enough; returns NULL exactly when that was refused, with the state unchanged and freep where the search started. Otherwise the new block is disjoint from all live ones, is the tail of the first fitting block after the starting point, freep is at the block before that one, and free, live and obtained units still balance. |
| KrMalloc.KrHeap.KrFree | memorylab/kr_malloc.c:209-292 | A live block returns to the free list; the list is again ordered, coalesced and circular in memory, and freep is the predecessor of the freed block. |
| KrMalloc.KrHeap.Write | memorylab/kr_malloc.c:133-136 | The program may write any unit of a live payload: no header of the allocator is there. |
| KrMalloc.KrHeap.constructor | memorylab/kr_malloc.c:39-40 | The heap before the first call: nothing obtained, freep null. |
| KrMalloc.SearchFit | memorylab/kr_malloc.c:81-155 | The search loop with its one growth and freep at the block before the one served; it needs no second growth, even when the new region was merged into the block at freep. |
| KrMalloc.EndLap | memorylab/kr_malloc.c:144-151 | Coming round to freep without success happens only before growing, and then every free block is too small. |
| KrMalloc.TakeBlock | memorylab/kr_malloc.c:97-136 | Exact fit unlinks the block; otherwise its tail is cut off. Chain and headers in memory follow the abstract list. |
| KrMalloc.MoreCore | memorylab/kr_malloc.c:161-204 | The new region joins the list, and a block at least as big as the request lies on the way back to freep. |
| KrMalloc.Max | memorylab/kr_malloc.c:166-171 | The units asked for: at least the request, at least nalloc, and no more than one of them. |
| KrMalloc.Search | memorylab/kr_malloc.c:228-242 | The position search stops, from any start, at the cyclic predecessor of the freed block. |
| KrMalloc.StopsAtPredecessor | memorylab/kr_malloc.c:228-242 | The two exit conditions hold at the predecessor and nowhere else. |
| KrMalloc.LinkNext | memorylab/kr_malloc.c:254-264 | The upper link or merge, as a change of the header map. |
| KrMalloc.LinkPrev | memorylab/kr_malloc.c:271-281 | The lower link or merge, as a change of the header map. |
| KrMalloc.FreeBlock | memorylab/kr_malloc.c:209-292 | kr_free over memory: chain, headers and free list together. |
| FreeChain.JoinNextChain | memorylab/kr_malloc.c:254-264 | Linking or merging with the upper neighbour leaves the two half chains of the new list. |
| FreeChain.JoinPrevChain | memorylab/kr_malloc.c:271-281 | Linking or merging with the lower neighbour closes them into one circle over the new list. |
| FreeChain.TakeUnitsChain | memorylab/kr_malloc.c:97-124 | Unlinking or splitting a block keeps the circular chain. |
| FreeList.InsertOrdered | memorylab/kr_malloc.c:244-281 | Insertion with merging keeps the list address-ordered, disjoint and without adjacent blocks, with base in it at size 0. |
| FreeList.InsertUnits | memorylab/kr_malloc.c:244-281 | Insertion adds exactly the units of the block. |
| FreeList.AllocateOrdered | memorylab/kr_malloc.c:97-124 | Taking the tail of a block keeps the list ordered and coalesced. |
| FreeList.AllocateUnits | memorylab/kr_malloc.c:97-124 | Taking a block removes exactly its units, which were free. |
| FreeList.Canonical | memorylab/kr_malloc.c:209-292 | Two ordered, coalesced lists over the same free units are the same list. |
| FreeList.BlockIsMaximalRun | memorylab/kr_malloc.c:249-281 | No block of the list can be extended by another free unit. |
| FreeList.MaximalRunIsBlock | memorylab/kr_malloc.c:249-281 | Every maximal run of free units is a block of the list. |
| FreeList.FreeUndoesAllocate | memorylab/kr_malloc.c:97-281 | Freeing the block just taken, exact fit or tail, restores the list block by block. |
| HeapState.AllocStepKeeps | memorylab/kr_malloc.c:97-136 | Taking a block from the list keeps the state consistent: live blocks apart, free and live units making up those obtained. |
| HeapState.FreeStepKeeps | memorylab/kr_malloc.c:209-292 | So does a release. |
| HeapState.GrowStepKeeps | memorylab/kr_malloc.c:181-196 | So does a new region, adjacent to earlier ones or not. |
| KrRuns.RunConsistent | memorylab/kr_malloc.c:45-292 | By induction over any run of allocations, growths and releases from the empty heap, steps being defined by what they do and nothing more, the state stays consistent. |
| KrMalloc.MallocTrace | memorylab/kr_malloc.c:45-156 | What a call of kr_malloc did, growth included, extends the run of its heap, so the heaps of the program are those runs. |
| KrRuns.HeapList | memorylab/kr_malloc.c:39-292 | After any calls on a heap, a block is in its list if and only if it is base or a maximal run of free units. |
| KrRuns.ListIsMaximalRuns | memorylab/kr_malloc.c:209-292 | At any point of any run a block is in the list if and only if it is base or a maximal run of units obtained and not live. |
| KrRuns.HistoryDoesNotMatter | memorylab/kr_malloc.c:209-292 | Two histories with the same units obtained and live end with the same free list. |
| KrRuns.AllReleased | memorylab/kr_malloc.c:209-292 | When all is released, in any order, the list is base and exactly the maximal runs of the regions obtained. |
| KrRuns.Conservation | memorylab/kr_malloc.c:45-292 | At any point of any run, free plus live units number the units obtained, and live blocks do not overlap. |
| KrRuns.RoundTrip | memorylab/kr_malloc.c:97-292 | Malloc followed by free of the block restores the whole state. |
| KrRuns.OwnedGrows | memorylab/kr_malloc.c:161-204 | Over a run, units obtained stay obtained. |
| KrRuns.PoolOnlyOnce | memorylab/umalloc.c:170-196 | No two growths of one run obtain regions with a common unit, so a run can grow by the one pool once only. |
| KrRuns.UmallocGrowsOnce | memorylab/umalloc.c:170-269 | After a call that had to grow by the pool, the pool is not a new region for any later request, whatever its size. |
| KrRuns.NextServedBelow | memorylab/kr_malloc.c:97-131 | A block with room left after serving a request is the first that the next one looks at: if it has the units, that request is served directly below, and freep stays. |
| KrRuns.TwoRequests | memorylab/kr_malloc.c:45-156 | Over two calls on any heap: when the block that serves the first holds both, the second block lies directly below the first, without asking the system. |
| ShParser.ParseCmd | shellproj/sh.c:368-383 | For every NUL-terminated buffer: the same panic as the token parser, with the buffer untouched, or its tree, as the shell reads it off the structs: C strings at argv up to its null, C strings for files, and descriptor and open flags 0 and O_RDONLY or 1 and O_WRONLY|O_CREAT. The buffer changes exactly at the word ends, none past the old terminator. |
| ShParser.Parser.SkipSpaces | shellproj/sh.c:310-311 | Moves over white space only; the tokens ahead are the same. |
| ShParser.Parser.Peek | shellproj/sh.c:351-361 | Consumes no token and answers whether the next character is in the set. |
| ShParser.Parser.SkipWord | shellproj/sh.c:333-337 | A word is a maximal run of word characters. |
| ShParser.Parser.GetToken | shellproj/sh.c:303-346 | Takes exactly the first token of what is left, with its place; 0 if and only if nothing is left; otherwise the cursor moves forward. |
| ShParser.Parser.TakeToken | shellproj/sh.c:314-338 | The switch: the cursor passes the token it stands at, >> as one. |
| ShParser.Parser.ParseRedirs | shellproj/sh.c:415-438 | Wraps the command in one redirection per operator and file, outermost last, or panics where a file is missing. |
| ShParser.RedirCmd | shellproj/sh.c:425-435 | `<` opens for reading as descriptor 0, `>` and `>>` for writing as descriptor 1. |
| ShParser.SeenIs | shellproj/sh.c:233-296 | What is read off the structs is the tree they represent, every redirection with matching descriptor and flags. |
| ShParser.Parser.ParseSimple | shellproj/sh.c:467-486 | The command with all words and redirections, or the panic, as the token parser decides. |
| ShParser.Parser.ParseArgs | shellproj/sh.c:470-486 | The in-place argv loop: words reach the execcmd inside all redirections, argv and eargv hold them with nulls after, and no index leaves the arrays. |
| ShParser.Parser.AddWord | shellproj/sh.c:473-481 | One round: the next word is stored, the panic for the tenth word, redirections after it wrapped around. |
| ShParser.Parser.ParseExec | shellproj/sh.c:456-487 | A block or a simple command, as the token parser decides. |
| ShParser.Parser.ParseBlock | shellproj/sh.c:440-454 | A line in parentheses and its redirections, or the panic for a missing parenthesis. |
| ShParser.Parser.ParsePipe | shellproj/sh.c:402-413 | Right-nested pipes. |
| ShParser.Parser.ParseLine | shellproj/sh.c:385-400 | Backgrounds, then right-nested lists. Terminates: each call is after a consumed symbol or at a lower level. |
| ShParser.Nulterminate | shellproj/sh.c:490-534 | The buffer afterwards is the old one with NULs exactly at the ends of all words and files of the tree. |
| ShParser.ExecCmd | shellproj/sh.c:233-242 | A fresh execcmd with all pointers null. |
| ShParser.StoreArg | shellproj/sh.c:477-478 | One more word in argv and eargv. |
| ShParser.StrLen | shellproj/sh.c:374 | The first NUL. |
| ShLexer.NulterminateKeepsWords | shellproj/sh.c:415-534 | No word end lies inside another word, so after all writes every word reads back as its original slice. |
| ShLexer.EndsBetweenWords | shellproj/sh.c:489-534 | Every place nulterminate writes is at a separator or the terminator. |
| ShLexer.LexRender | shellproj/sh.c:303-346 | Tokens written out with spaces are read back unchanged. |
| ShLexer.LexMakesTokens | shellproj/sh.c:303-346 | Words read are never empty and hold no separator. |
| ShLexer.TextRoundTrip | shellproj/sh.c:368-487 | Printing a tree, with parentheses where its level needs them, and parsing the text returns that tree if and only if its words are runs of word characters and no command has more than 9. |
| ShLexer.ReprintedParsesAlike | shellproj/sh.c:368-487 | What was parsed from any text can be printed and parsed again to the same tree. |
| ShGrammarProofs.ParserDecidesGrammar | shellproj/sh.c:368-487 | The parser returns a tree if and only if the line/back/pipe/block/simple grammar derives the input with that tree and no command has more than 9 words. |
| ShGrammarProofs.PanicsExactlyOutsideGrammar | shellproj/sh.c:368-487 | It panics if and only if there is no such tree. |
| ShGrammarProofs.Unambiguous | shellproj/sh.c:385-487 | No input has two trees, however long its commands are. |
| ShGrammarProofs.LineSound | shellproj/sh.c:385-400 | What parseline consumed derives the tree it returned. |
| ShGrammarProofs.LineComplete | shellproj/sh.c:385-400 | A derivable line is parsed to its tree, whatever can follow it. |
| ShGrammarProofs.WordsSound | shellproj/sh.c:470-486 | What the argument loop consumed is a simple command with that tree. |
| ShGrammarProofs.SimpleComplete | shellproj/sh.c:470-486 | Words and redirections in any order are all consumed. |
| ShGrammarProofs.BlockComplete | shellproj/sh.c:440-454 | A block is parsed up to its redirections, whatever follows. |
| ShGrammarProofs.PrintDerives | shellproj/sh.c:385-487 | The printed form is in the grammar at the level it was printed for. |
| ShGrammarProofs.ParsePrinted | shellproj/sh.c:368-487 | Over tokens, parsing undoes printing exactly for trees whose commands fit in argv. |
| ShMeaning.TreeSaysInput | shellproj/sh.c:385-487 | Of any accepted input, the tree has exactly the redirections, each with its file and direction, `<` in, `>` and `>>` out, and exactly the other words as arguments, all in the order they are written. |
| ShMeaning.AppendIsOutput | shellproj/sh.c:432-434 | Any input has the answer, tree or panic, that it has with > for every >>. |
| ShMeaning.PanicsBlameTheirCause | shellproj/sh.c:415-487 | "missing file" is raised only if some operator has no word after it, "syntax" only if a parenthesis follows a word. |
| ShMeaning.OpenedOnly | shellproj/sh.c:449-450 | Any accepted line opened with a parenthesis and not closed raises "missing )". |
| ShMeaning.ClosedOnly | shellproj/sh.c:377-380 | Any accepted line closed with a parenthesis and not opened raises "leftovers", whatever follows. |
| ShMeaning.TooManyArgsIsTheLimit | shellproj/sh.c:480-481 | "too many args" is raised if and only if an argv as long as the input would have given another answer. |
| ShMeaning.NineWords | shellproj/sh.c:480-481 | Nine words make a command, ten the panic. |
| ShMeaning.LexCut | shellproj/sh.c:303-346 | Two texts of which neither a word nor a >> crosses the cut have their tokens one after the other. |
| ShMeaning.LexPieces | shellproj/sh.c:300-301 | Each separator by itself has no token, each symbol its own, >> one, and a run of other characters is one word. |
| ShMeaning.SeparatorsAlike | shellproj/sh.c:300 | Any text has the tokens it has with a blank for each tab, carriage return, newline and vertical tab. |
| Paging.Machine.constructor | memorylab/paging.c:75-120 | Nothing marked, no pages. |
| Paging.Machine.PageAlloc | memorylab/paging.c:127-140 | Marks and zeroes the first free frame and touches no other; panics if and only if all 256 are marked. |
| Paging.Machine.PageFree | memorylab/paging.c:146-151 | Unmarks one frame; panics if and only if it was free. |
| PagingModel.MarkedBit | memorylab/paging.c:95-120 | Frame f is bit f mod 32, from the lowest, of word f / 32. |
| Paging.Machine.AllocateProc | memorylab/paging.c:338-351 | For any name, the empty one too: the first unused slot gets the first free frame, all zeroes, as its table, and no page of any process changes; -1 if and only if no slot is unused; panics if and only if one is and all frames are marked. |
| Paging.Machine.LoadProcPage | memorylab/paging.c:364-377 | The page goes to the first free frame. The map of all pages of all processes changes at exactly one place although the table entry is written into the same memory, one entry of one table changes, and a TLB that was right stays right if and only if the page is not cached for the table in use. Panics if and only if the process exists and all frames are marked. |
| Paging.Machine.LoadIntoSlot | memorylab/paging.c:367-373 | The same for the slot found. |
| Paging.Machine.Dispatcher | memorylab/paging.c:428-442 | The first slot of that name runs, the one that ran is ready, no other field changes; for the empty name that is slot 0 with its null table. Sets ptbr; pages, tables and TLB stay. A TLB that was right is right afterwards if and only if it is empty or the process was running already. |
| Paging.Machine.UseTable | memorylab/paging.c:446-447 | A table outside the memory is put into the register. |
| Paging.Machine.InvalidateTlb | memorylab/paging.c:204-207 | All entries invalid, nothing else changed, so the TLB is right for any table. |
| Paging.Machine.FillTlb | memorylab/paging.c:243-255 | The translation goes into every invalid entry and into no other, unless all are valid: then it evicts the first. |
| PagingModel.FilledIs | memorylab/paging.c:243-255 | The same of the specification function. |
| Paging.Machine.Va2pa | memorylab/paging.c:221-264 | For a dispatched process and for a table outside the memory: answer and TLB for hit and miss. On a miss, with an offset below 128, -1 if and only if the entry is not valid, -3 if and only if it is valid and not present, -2 if and only if it is both and the access differs. The TLB changes only on a miss that is granted, and a TLB that agrees with the table still does. |
| Paging.Machine.WalkTable | memorylab/paging.c:232-263 | The part after a miss. |
| PagingModel.MissAnswers | memorylab/paging.c:232-263 | What each answer to a miss means, for any offset; a negative offset is answered as itself. |
| Paging.Machine.MemAccess | memorylab/paging.c:266-275 | The byte at the translated address, or a panic, and the TLB afterwards. With an agreeing TLB that is the byte last loaded at that address if and only if the entry is valid and present, allowed or cached, and frame and offset are below 128. |
| PagingModel.FramesDistinct | memorylab/paging.c:338-375 | No frame is both a table and a page, or two pages, and every frame in use is marked. |
| PagingModel.NewFrameUnseen | memorylab/paging.c:131-134 | Whatever is written to an unmarked frame, no table entry and no page changes. |
| PagingModel.NewTableIsolated | memorylab/paging.c:340-347 | After a new table every frame still has one use, and the pages are the same. |
| PagingModel.NewPageIsolated | memorylab/paging.c:364-375 | After a load every frame still has one use. |
| PagingModel.NewPageOnly | memorylab/paging.c:364-375 | A load changes exactly one page. |
| PagingModel.EntryThenFrame | memorylab/paging.c:367-372 | The entry written before the copy is not overwritten by it. |
| PagingModel.EntryBytes | memorylab/paging.c:169-174 | The four bytes of an entry are frame, valid, present and access, in this order. |
| PagingModel.AgreeKept | memorylab/paging.c:221-264 | One translation keeps every TLB entry equal to a valid, present table entry. |
| PagingModel.RunAgrees | memorylab/paging.c:221-264 | So does any run of translations. |
| PagingModel.TranslationIs | memorylab/paging.c:221-264 | With an agreeing TLB, an answer is an address exactly under the stated condition, and is then the one in the table. |
| PagingModel.TranslationAfterRun | memorylab/paging.c:204-264 | So it is after any run of translations from an invalidated TLB. |
| PagingModel.TablesAfterLoad | memorylab/paging.c:364-375 | A load changes one entry of one table. |
| PagingModel.LoadAgrees | memorylab/paging.c:364-375 | A load keeps the TLB right if and only if the page loaded was not cached. |
| PagingModel.SwitchAgrees | memorylab/paging.c:428-442 | A TLB that is right for one process is right for another if and only if it is empty, since no frame serves both. |
| PagingRuns.LoadThenAccess | memorylab/paging.c:364-375 | A byte just loaded for the running process into an uncached page is what memaccess returns, if and only if the frame taken and the offset are below 128. |
| PagingRuns.SwitchThenAccess | memorylab/paging.c:502-504 | Without invalidatetlb: memaccess of a page the earlier process had cached returns that process's byte. |
| PagingRuns.MainReads | memorylab/paging.c:446-504 | The calls of main from the start to its first read in each of the two processes: both reads return the first one's byte, whatever was loaded for the second. |
| PagingRuns.MainTranslations | memorylab/paging.c:446-454 | main's four translations before any dispatch answer 0x105, 0x20a, 0x10a and -3. |
| PagingModel.FilledHits | memorylab/paging.c:243-255 | The translation just filled in is the one hit next. |
| PagingRuns.SwitchInvalidateAccess | memorylab/paging.c:204-275 | With invalidatetlb: the new process's own byte, if and only if it may read it and it can be addressed. |
| ProcQueue.Queue.constructor | firstlab/proc.c:142-146 | The kernel process alone, runnable and its own parent. |
| ProcQueue.Queue.Forq | firstlab/proc.c:183-192 | A positive priority enqueues a new process with the next pid, that name and priority, state EMBRYO, and for its parent the process of the queue with pid ppid, or null if and only if there is none; the others are who they were. Otherwise nothing changes. next and prev stay inverse. |
| ProcQueue.Queue.EnqueueProc | firstlab/proc.c:119-137 | The links form the old queue with p put in before the first process of larger priority. |
| ProcQueue.Queue.Kill | firstlab/proc.c:151-162 | The links form the old queue without the process found; who stays is exactly who has another pid or is the last, the kernel process alone included. |
| ProcQueue.Queue.FindProc | firstlab/proc.c:49-59 | The process with the pid, or null if and only if there is none. |
| ProcQueue.Queue.NewProc | firstlab/proc.c:101-114 | Takes the next pid, name and priority; the parent is the process with ppid in the queue, if any. |
| ProcQueue.EnqueueOrdered | firstlab/proc.c:119-137 | The queue stays strictly increasing in (priority, pid), kernel first, pids different. |
| ProcQueue.EnqueueContents | firstlab/proc.c:119-137 | Exactly the new process is added. |
| ProcQueue.KillOrdered | firstlab/proc.c:151-162 | kill keeps the order if and only if the victim is not the kernel process or that one is alone. |
| ProcQueue.KillRemoves | firstlab/proc.c:151-162 | A process leaves if and only if its pid matches and it is not the tail, which the loop never examines. |
| ProcQueue.RunOrdered | firstlab/proc.c:101-192 | Every run of forq and kill that never takes out the kernel process in front of others keeps the order. |
| ProcTable.Table.constructor | schproj/proc.c:53-57 | All slots empty. |
| ProcTable.Table.UserInit | schproj/proc.c:100-114 | The first process in slot 0, pid 1, running, with its name, directory, size, priority and time; all other slots empty. |
| ProcTable.Table.FindProc | schproj/proc.c:62-71 | The first slot with the pid, or none. |
| ProcTable.Table.AllocProc | schproj/proc.c:77-97 | The first unused slot gets the next pid, or nothing changes. |
| ProcTable.Table.Fork | schproj/proc.c:119-144 | For any pid, 0 and negative ones included, table and answer are those of the specification function, and a valid table stays valid. |
| ProcTable.Table.Exit | schproj/proc.c:149-182 | The same for Exit, with its wake-up and its loop over children; the caller must not make it follow a null parent. |
| ProcTable.Table.Wait | schproj/proc.c:188-232 | Table and answer for any pid: reap, no children or killed, or sleep. A valid table stays valid if and only if no unused slot is put to sleep. |
| ProcTable.Table.Sleep | schproj/proc.c:236-247 | The same for Sleep. |
| ProcTable.Table.Wakeup | schproj/proc.c:251-268 | Exactly the sleepers on the channel become runnable. |
| ProcTable.Table.Kill | schproj/proc.c:275-292 | Table and answer for any pid; a valid table stays valid. |
| ProcTableModel.ForkKeeps | schproj/proc.c:119-144 | Succeeds if and only if a slot is unused and the pid exists or is 0; then exactly one new pid is in the table, one no process had. |
| ProcTableModel.ExitKeeps | schproj/proc.c:149-182 | The zombies afterwards are those before, the process, and the children of its slot; the first process is never one; no pid leaves the table. |
| ProcTableModel.WaitKeeps | schproj/proc.c:188-232 | On a pid other than 0: reaps if and only if the process has a zombie child; exactly that pid leaves the table, never the first process. |
| ProcTableModel.WaitOnPidZero | schproj/proc.c:188-232 | On pid 0 it acts for an unused slot: the table stays valid if and only if that one has a zombie child, no child, or is killed, or there is none. |
| ProcTableModel.StepKeeps | schproj/proc.c:119-292 | Any call on any pid keeps the table valid if and only if it puts no unused slot to sleep: a slot is unused exactly when its pid is 0, used pids differ and are below nextpid, all but the first process have a parent, the first is no zombie. Pids come and go with Fork and Wait only. |
| ProcTableModel.SleepOnPidZero | schproj/proc.c:236-247 | Sleep on pid 0 keeps the table valid if and only if no slot is unused. |
| ProcTableModel.OtherPidsBehave | schproj/proc.c:119-292 | Any run of calls on pids other than 0 is defined and puts no unused slot to sleep. |
| ProcTableModel.StepTree | schproj/proc.c:119-232 | If every process leads through used parents to the first one, a call keeps that if and only if it reaps no slot that is the parent of a process and forks no unused slot. |
| ProcTableModel.TreeFromBoot | schproj/proc.c:100-292 | So over any run of such calls from userinit on the processes are a tree. |
| ProcTableModel.ParentsCanCycle | schproj/proc.c:119-232 | Eight calls from userinit on, all on existing pids, after which two processes are each the ancestor of the other. |
| ProcTableModel.RunKeeps | schproj/proc.c:119-292 | So does every run, and the processes grow by successful Forks and shrink by successful Waits. |
| ProcTableModel.RunFromBoot | schproj/proc.c:100-292 | From userinit on, used slots number 1 + successful Forks - successful Waits. |
| ProcTableModel.ReapedOnce | schproj/proc.c:188-232 | No pid is returned by Wait twice, and the first process never is. |
| ProcEffects.ForkedChild | schproj/proc.c:119-144 | A child is in the first unused slot, with size, directory and name of its parent and time and priority as asked for; no other slot changes. |
| ProcEffects.ForkRefused | schproj/proc.c:126-131 | Without such a parent or slot: -1 and no change. |
| ProcEffects.SleepSets | schproj/proc.c:236-247 | The process sleeps on the channel; nothing else changes. |
| ProcEffects.NobodyThere | schproj/proc.c:154-281 | On a pid that is not there: -3, -3, -1 and -2, and no change. |
| ProcEffects.WakeupWakes | schproj/proc.c:251-268 | Sleepers on the channel are runnable; nothing else changes. |
| ProcEffects.KillMarks | schproj/proc.c:275-292 | The process is marked killed and, if asleep, runnable; nothing else changes. |
| ProcEffects.WaitReaps | schproj/proc.c:202-217 | The first zombie child goes, its slot is cleared, and its pid is the answer. |
| ProcEffects.WaitWithoutZombie | schproj/proc.c:220-229 | Without a zombie child: -1 and no change if there are no children or the process is killed, else -2 and it sleeps on its own pid. |
| ProcEffects.ExitEnds | schproj/proc.c:149-182 | Slot by slot: the process and its children are zombies, the children the first process's; others asleep on the parent's pid are runnable; no more changes. |
| ProcEffects.InitStays | schproj/proc.c:158-161 | The first process does not exit: -1 and no change. |
| ProcEffects.NobodyWaitsOn | schproj/proc.c:167 | After an Exit no process sleeps on the pid of the parent. |
| ProcEffects.WaitExitWait | schproj/proc.c:149-232 | Over three calls: a Wait that went to sleep, the Exit of a child, and the process no longer sleeps and its next Wait reaps. |

## Left out

- RbTree.RedBlackTree.Deletion: asks for the key to be present when the tree is not empty, because line 136 dereferences null otherwise, and a height that fits into the 98-entry arrays; after a null sibling at line 232 the program has ended. `free` of the node is not modelled.
- KrMalloc.KrHeap.KrMalloc: asks for an answer of `sbrk` that satisfies `FreshRegion`; alignment of payloads is not modelled beyond whole units.
- KrRuns.UmallocGrowsOnce: what umalloc.c does after its second morecore, which returns the same array, or with a request above the 4096 units of that array, is not modelled.
- ShParser.ParseCmd: `runcmd`, signals, `fork`, `open` and `exec` are not modelled.
- Paging.Machine.LoadProcPage: asks for a vpn of 0 to 63, 256 bytes and a non-empty name, as the notes at `memorylab/paging.c:359-362` ask; name buffer lengths are not modelled.
- Paging.Machine.AllocateProc: what the slot holds after a panic is not stated, as the program has ended.
- Paging.Machine.Va2pa: asks for a vpn of 0 to 63, as the note at `memorylab/paging.c:213-215` does, and for a register that is not null.
- `remove_proc` in paging.c, which walks 256 entries of a 64-entry table, and the printing functions.
- ProcQueue.Queue.Kill: asks that the victim is not the kernel process in front of others, whose `prev` is null.
- ProcQueue.Queue.Forq: the int `pid` counter is assumed not to reach its maximum; `malloc` does not fail.
- ProcTable.Table.Fork: the int `nextpid` is assumed not to reach its maximum; contexts, kernel stacks and locks are not modelled.
- ProcTable.Table.Exit: a null parent, which line 167 dereferences, is excluded; that is pid 0 while a slot is unused.
- `scheduler` in `schproj/proc.c`, which reads variables before they are set, and `schproj/rbtree.c`, an unfinished stub.
- The other labs (pipes, signals, argument printing, small tokenisers), which are input and output or easier forms of the shell's lexer.
