# memdump in Dafny

A model of the parts of memdump that compute something: the intrusive red-black tree, the multiset of page
hashes built on it, the duplication reports of `setcmp`, the page hash, the page-map walk and the page-flag
words.  Code that changes nodes, sets or page arrays in place is modelled by classes, arrays and loops; each
method is proved against functions on plain values, and the laws of those functions are proved as lemmas.

## Layout

| file | models |
|---|---|
| `RbTree.dfy` | `jni/rbtree.c`: nodes with parent pointers and colours, rotations, insertion and erasure with their fix-up loops |
| `RbWalk.dfy` | `rb_first`, `rb_last`, `rb_next`, `rb_prev`, and which tree edges a walk crosses |
| `RbShape.dfy` | what a valid tree is, by an independent recursive definition; its height |
| `RbAdopt.dfy` | the converse: every red-black tree in memory is a valid tree |
| `Simi.dfy` | `jni/simi.c`: search, stable insertion, `struct Set` |
| `SimiTheory.dfy` | `set_found_in` and `set_jaccard` as arithmetic on multisets |
| `SimiTest.dfy` | `jni/simi_test.c`: two arrays compared end to end |
| `PageHash.dfy` | `page_hash` and the zero-page test of `jni/mem.c` |
| `Pagemap.dfy` | `read_mem`, `walk_pfn`, `mr_parse_pagemap` |
| `PageFlags.dfy` | `kpageflags_flags`, `page_flag_name` |
| `SetCmp.dfy` | the set builders and reports of `jni/setcmp.c` |
| `SetCmpTheory.dfy` | how the numbers in those reports are related |
| `SetCmpPages.dfy` | what those numbers count, said of the pages themselves |

`dafny verify dfyconfig.toml` checks the project.

## How the tree is proved

Every node carries ghost fields: its index `pos` in the in-order sequence of its tree, the stretch `lo..hi` of that
sequence that its subtree holds, and its black height `bh`.  With them, being a red-black tree is a condition on
each node and its neighbours (`LinkedAt`, `RedBlackAt`).  A rotation changes the ghost fields of two nodes and
leaves the sequence alone; linking a node opens a gap in the sequence and erasing one closes it.  The fix-up loops
keep weaker conditions: `OneRedRed` allows one red node under a red parent, `Short` allows one subtree to lack a
black node.  That `gparent` in insertion and `other` in erasure are never null follows from these.
A ghost counter of the tree, which only the two rotation methods raise, bounds how often a fix-up rotates.

The pieces of code between two pointer updates are proved in two steps: a `twostate predicate` named `...At` says
what happened to one node, and a `twostate lemma` concludes that the invariant holds at that node again.  Left and
right versions mirror each other, as they do in the C code.

## Findings

- `set_jaccard` is documented as |A n B| / |A u B|.  On multisets that holds exactly when every key that both sets
  share occurs equally often in both (`SimiTheory.JaccardIsIntersectionOverUnion`); it is not symmetric in general
  (`SimiTheory.JaccardSymmetric` says when it is).  A counterexample to both is {1, 2, 2} and {2}.
- `walk_pfn` does not advance `voffset` between batches.  It leaves the right counts, in however many short reads
  it gets them, exactly if it is asked for at most one frame (`Pagemap.WalkExactIff`).  Its only caller asks for one.
- `print_total_dup` takes the first element of a set without asking whether there is one; it does so exactly when all
  pages of some process look zero or are shared (`SetCmp.TotalUndefinedIff`).
- `page_is_zero` accepts every zero page, but also some others.  It is exact on pages whose nonzero bytes lie within
  three consecutive bytes, and four are too many (`PageHash.ZeroTestExactIff`); `PageHash.MisjudgedIff` says which
  pages it misjudges.
- The "pages size too small" break in `read_mem` is taken exactly if the length of the region is no multiple of the
  page size and every page of it can be read (`Pagemap.ReadRegion`), so never for page-aligned regions.

## Model

| member | source | states |
|---|---|---|
| `RbTree.Tree.TurnLeft` | jni/rbtree.c:50-71 | what a left rotation does to every pointer of every node of the tree, and to nothing else |
| `RbTree.Tree.TurnRight` | jni/rbtree.c:73-94 | the same for a right rotation |
| `RbTree.Tree.RotateLeft` | jni/rbtree.c:50-71 | a left rotation keeps all links consistent and the in-order sequence unchanged; it counts as one rotation |
| `RbTree.Tree.RotateRight` | jni/rbtree.c:73-94 | a right rotation does, too |
| `RbTree.Tree.RedRedHasGrandparent` | jni/rbtree.c:100-102 | a red node with a red parent has a grandparent, which is black, so `gparent` is not null |
| `RbTree.Tree.PushDown` | jni/rbtree.c:108-115 | with a red uncle, recolouring moves the only violation to the grandparent |
| `RbTree.Tree.TurnedUnderLeft` | jni/rbtree.c:118-125 | rotating at a red parent moves the only violation from the node to its former parent, keeping the grandparent |
| `RbTree.Tree.TurnedUnderRight` | jni/rbtree.c:145-152 | the mirror image |
| `RbTree.Tree.PromoteLeft` | jni/rbtree.c:127-129 | recolouring and rotating at the grandparent removes the last violation |
| `RbTree.Tree.PromoteRight` | jni/rbtree.c:154-156 | the mirror image |
| `RbTree.Tree.BlackenRoot` | jni/rbtree.c:160 | blackening the root removes a violation at the root |
| `RbTree.Tree.InsertColor` | jni/rbtree.c:96-161 | from a tree with at most one red-red violation to a red-black tree, terminating, with at most two rotations |
| `RbTree.Tree.LinkNode` | jni/rbtree.c:426-433 | the new red leaf and the one link that now points to it |
| `RbTree.Tree.AddLeaf` | jni/rbtree.c:426-433 | the sequence gains the new node at the gap its link stands for; no other node changes its colour |
| `RbTree.Tree.Insert` | jni/simi.c:53-54 | linking and fixing up yields a red-black tree whose sequence is the old one with the node at that gap |
| `RbTree.Tree.HasSiblingRight` | jni/rbtree.c:170-173 | a left child lacking a black node has a sibling, so `other` is not null |
| `RbTree.Tree.HasSiblingLeft` | jni/rbtree.c:209-210 | the mirror image |
| `RbTree.Tree.LiftRight` | jni/rbtree.c:173-179 | case 1: the deficit stays where it is, the parent is red, the new sibling is black |
| `RbTree.Tree.LiftLeft` | jni/rbtree.c:210-216 | the mirror image |
| `RbTree.Tree.ShareRight` | jni/rbtree.c:180-186 | case 2: the deficit moves up to the parent |
| `RbTree.Tree.ShareLeft` | jni/rbtree.c:217-223 | the mirror image |
| `RbTree.Tree.LeanRight` | jni/rbtree.c:189-197 | case 3: the deficit stays, and the new sibling is black with a red outer child |
| `RbTree.Tree.LeanLeft` | jni/rbtree.c:226-234 | the mirror image |
| `RbTree.Tree.RepayRight` | jni/rbtree.c:198-203 | case 4: the tree is a red-black tree again |
| `RbTree.Tree.RepayLeft` | jni/rbtree.c:235-240 | the mirror image |
| `RbTree.Tree.MendRight` | jni/rbtree.c:170-206 | one round for a left child: either done with at most three rotations, or the deficit is at the parent after at most one |
| `RbTree.Tree.MendLeft` | jni/rbtree.c:207-243 | the mirror image |
| `RbTree.Tree.Blacken` | jni/rbtree.c:245-246 | blackening a red node that lacks a black node, or the root, completes the repair |
| `RbTree.Tree.EraseColor` | jni/rbtree.c:163-247 | from a tree with one short subtree to a red-black tree, terminating, with at most three rotations |
| `RbTree.Tree.Relink` | jni/rbtree.c:264-295 | every pointer that changes when the successor takes the erased node's place, also if it is its right child |
| `RbTree.Tree.SpliceOut` | jni/rbtree.c:302-312 | every pointer that changes when a node with at most one child is taken out |
| `RbTree.Tree.EraseSimple` | jni/rbtree.c:299-312 | afterwards the sequence lacks exactly the node, and one subtree is short by one if the node was black |
| `RbTree.Tree.EraseWithSuccessor` | jni/rbtree.c:258-297 | the same with the successor relinked; the colour that decides is the successor's |
| `RbTree.Tree.Erase` | jni/rbtree.c:249-317 | erasing any node leaves a red-black tree whose sequence is the old one without that node; at most three rotations |
| `RbShape.ValidIsRedBlack` | jni/rbtree.h:97-107 | a valid tree has parent pointers matching child pointers, a black root, no red node with a red child, equally many black nodes on every path, and the stated in-order sequence |
| `RbShape.EqualBlacks` | jni/rbtree.h:97-107 | from any two places where a child is missing, equally many black nodes lie on the way up to the root |
| `RbShape.LogarithmicHeight` | jni/rbtree.c:96-317 | a valid tree of n nodes has height at most 2 log2(n + 1), and no node lies deeper |
| `RbAdopt.Adopt` | jni/rbtree.h:97-107 | every red-black tree in memory is a valid tree once ghost fields are set, so insertion and erasure are right on all of them |
| `RbTree.Tree.DescendLeft` | jni/rbtree.c:329-330 | following left pointers ends at the first node of a subtree |
| `RbTree.Tree.DescendRight` | jni/rbtree.c:341-342 | following right pointers ends at the last node of a subtree |
| `RbWalk.StraightCrosses` | jni/rbtree.c:322-398 | a way straight up or down between two nodes crosses, once each, exactly the edges that separate their positions |
| `RbWalk.First` | jni/rbtree.c:322-332 | the first node in order, or NULL for an empty tree, and the edges on the way to it |
| `RbWalk.Last` | jni/rbtree.c:334-344 | the last node in order, or NULL, and the edges on the way to it |
| `RbWalk.Next` | jni/rbtree.c:346-373 | the node one place later in order, or NULL at the end or for a node in no tree; it goes straight up or down, across exactly the edges between the two positions |
| `RbWalk.Prev` | jni/rbtree.c:375-398 | the node one place earlier, so it inverts `Next`, across the same edges; otherwise the mirror image |
| `RbWalk.WholeWalk` | jni/rbtree.c:322-398 | a whole walk in either direction crosses each edge exactly twice, in the move to the first node below it and in the one after the last; 2(n - 1) crossings in all |
| `RbWalk.WalkBack` | jni/rbtree.c:334-398 | rb_last and rb_prev until NULL visit all nodes in reverse order, crossing each edge exactly twice |
| `Simi.SearchData` | jni/simi.c:21-36 | finds a node with the key exactly when there is one, although equal keys lie on both sides; the pointers it follows, at most 2 log2(n + 1) of them |
| `Simi.InsertData` | jni/simi.c:38-55 | the node goes directly after the last one whose key is not larger, whatever rotations do; the tree stays a red-black tree |
| `Simi.PlacedAfterEquals` | jni/simi.c:43-51 | all nodes before that place have keys at most the new one, all after it larger ones, so equal keys keep their order of insertion |
| `Simi.PlacedSorted` | jni/simi.c:43-51 | that place keeps the sequence weakly sorted and adds exactly the one key |
| `Simi.Set.constructor` | jni/simi.c:69-75 | a new set is empty |
| `Simi.Set.Add` | jni/simi.c:57-61 | the multiset gains the key, the size one, and the set stays valid |
| `Simi.Set.In` | jni/simi.c:63-67 | true exactly if the key occurs |
| `Simi.Set.Size` | jni/simi.c:77-80 | the number of nodes in the tree |
| `Simi.Set.FreeRoot` | jni/simi.c:84-89 | one turn of the loop leaves a valid tree without the released node, and no pointer to it |
| `Simi.Set.Free` | jni/simi.c:82-91 | releases every node exactly once and ends with an empty tree |
| `Simi.Set.Print` | jni/simi.c:93-104 | visits every node once in sorted order, and the walk crosses each edge exactly twice |
| `Simi.Set.FirstData` | jni/simi.c:154-157 | the first element; null stands for the address computed from NULL for an empty set |
| `Simi.Set.NextData` | jni/simi.c:159-167 | the next element, or null |
| `Simi.Set.FoundIn` | jni/simi.c:142-152 | the number of elements, duplicates included, whose key occurs in the other set |
| `Simi.Set.Jaccard` | jni/simi.c:117-138 | the quotient of that number and itself plus the elements that only one of the sets has |
| `SimiTheory.FoundInIsSum` | jni/simi.c:142-152 | set_found_in(a, b) is the sum over the keys of b of their multiplicities in a |
| `SimiTheory.FoundInLaws` | jni/simi.h:25-29 | it is additive in a, at most the size of a with equality exactly if a has only keys of b, and depends on b only through its keys |
| `SimiTheory.JaccardIs` | jni/simi.c:117-138 | the elements of a found in b, over all elements of a and those of b not found in a |
| `SimiTheory.JaccardRange` | jni/simi.c:106-138 | not a number exactly if both sets are empty, else within [0, 1], and 1 exactly if both have the same keys |
| `SimiTheory.JaccardSymmetric` | jni/simi.c:117-138 | symmetric exactly if equally many elements of each are found in the other or both have the same keys |
| `SimiTheory.JaccardIsIntersectionOverUnion` | jni/simi.h:36-43 | equals the size of the multiset intersection over that of the union exactly if shared keys have equal multiplicities |
| `SimiTheory.JaccardCounterexample` | jni/simi.h:36-43 | for {1, 2, 2} and {2} the code yields 2/3, the other way round 1/2, and the documented value is 1/3 |
| `SimiTest.FromArray` | jni/simi_test.c:9-12 | a set built from an array holds exactly its elements |
| `SimiTest.Compare` | jni/simi_test.c:4-30 | for all arrays, what is printed depends only on their contents, by the formulas above |
| `SimiTest.DocumentedExamples` | jni/simi.h:25-43 | the three examples in the header file hold |
| `PageHash.Hash` | jni/mem.c:227-241 | the loop computes the hash defined by recursion over the bytes |
| `PageHash.HashIs` | jni/mem.c:227-241 | which statements one more byte, and the end, put the state through |
| `PageHash.UnroundRound` | jni/mem.c:233-235 | a round can be undone, so for a given byte it permutes the 32-bit states |
| `PageHash.RoundSeparatesBytes` | jni/mem.c:233-235 | from one state, different bytes lead to different states |
| `PageHash.UnfinishFinish` | jni/mem.c:237-239 | the final statements can be undone |
| `PageHash.SuffixCancels` | jni/mem.c:227-241 | contents with a common ending collide exactly if they collide without it |
| `PageHash.OneByteApart` | jni/mem.c:227-241 | pages of equal length that differ in exactly one byte never collide |
| `PageHash.ZerosHashToZero` | jni/mem.c:227-241 | an all-zero buffer of any length hashes to 0 |
| `PageHash.LeadingZeros` | jni/mem.c:227-241 | leading zero bytes do not change a hash |
| `PageHash.ZeroPageHash` | jni/mem.c:286-292 | zero_page_hash is 0 |
| `PageHash.ZeroTestExactIff` | jni/mem.c:838-841 | page_is_zero is exact on all pages whose nonzero bytes lie within w consecutive bytes exactly if w is at most 3 |
| `PageHash.MisjudgedIff` | jni/mem.c:838-841 | a page is misjudged exactly if adding its last nonzero byte brings the state of the loop back to 0 |
| `PageHash.ZeroTestOnSparsePages` | jni/mem.c:838-841 | a page with exactly one nonzero byte is never misjudged |
| `PageHash.FalseZeroPage` | jni/mem.c:838-841 | nonzero pages that page_is_zero accepts: four bytes anywhere among zeros |
| `Pagemap.KeysTellHashesApart` | jni/mem.c:833-836 | keys are equal exactly if the hashes are |
| `Pagemap.ReadPage` | jni/mem.c:413-421 | one page is read into the buffer and hashed by page_hash, or the read fails |
| `Pagemap.FillHashes` | jni/mem.c:410-428 | the slots get the hashes of the pages read whole, in order; the break is taken exactly if they fill all slots |
| `Pagemap.ReadRegion` | jni/mem.c:405-428 | the same with the slots freshly allocated, one more than the region has pages; the break is taken exactly if the length is no multiple of the page size and all pages can be read; shares stay as allocated |
| `Pagemap.SlotIs` | jni/mem.c:410-428 | the hash of a page that could be read is in the slot that counts the readable pages before it |
| `Pagemap.AllReadsSucceed` | jni/mem.c:406-427 | if every read succeeds, slot k gets the hash of page k |
| `Pagemap.PfnReadsBack` | jni/mem.c:541-551 | a present entry gives back the 55 bits of its frame number whatever its flags are; any other gives 0 |
| `Pagemap.AsInt` | jni/mem.c:625 | the int congruent to the 64-bit count modulo 2^32 |
| `Pagemap.StoreBatch` | jni/mem.c:614-626 | a batch of counts goes to consecutive slots; hashes and other slots stay |
| `Pagemap.WalkPfn` | jni/mem.c:597-631 | the shares and the outcome, whatever the short reads deliver; hashes and all slots outside the range stay, and every index is within bounds |
| `Pagemap.SplitWalkMissesLast` | jni/mem.c:604-630 | unless one read delivers everything, the last slot keeps its old share |
| `Pagemap.RunExactIff` | jni/mem.c:604-630 | a run leaves the right shares for all counts exactly if its first read delivers everything, which beyond the batch size none does |
| `Pagemap.WalkExactIff` | jni/mem.c:604-630 | the walk is right for all tables and all ways of splitting the reads exactly if it is asked for at most one frame |
| `Pagemap.PassEntry` | jni/mem.c:655-662 | one entry: the slot gets the count of its frame, if it has one |
| `Pagemap.MrParsePagemap` | jni/mem.c:640-666 | slot k gets the count of its frame as an int, or keeps its share; the walk ends early exactly where a read delivers nothing or counts are missing; hashes stay |
| `Pagemap.ShareIs` | jni/mem.c:655-662 | the share of each slot after the walk: the count of the frame, or the old share for a page without a frame, or without flags, or beyond the end of the walk |
| `Pagemap.EndedIs` | jni/mem.c:646-663 | before all delivered entries the walk ends exactly at the first page whose frame has flags but no count |
| `Pagemap.LoadRegion` | jni/mem.c:668-722 | both passes: on a page-aligned region with every page read, slot k ends with the hash of page k and the break is not taken; if no table read is empty, with the count of its frame, or its old share if it has none, into whatever short reads the tables are split |
| `PageFlags.KpageflagsFlags` | jni/mem.c:559-586 | the origin of each of the 64 bits of the relocated word |
| `PageFlags.RelocationTable` | jni/mem.c:559-586 | which bit of a slab page, of a page under reclaim and of the entry goes where; all others stay |
| `PageFlags.BitNumbers` | jni/mem.c:44-105 | the number of each flag |
| `PageFlags.RelocateIdempotent` | jni/mem.c:559-586 | relocating twice changes nothing more |
| `PageFlags.PageFlagName` | jni/mem.c:468-487 | fails exactly on a word with an unnamed bit, reporting the lowest; otherwise 43 characters show every named bit in its place |
| `PageFlags.FlagLettersLow` | jni/mem.c:114-122 | the letters of the flags 0 to 8 |
| `PageFlags.FlagLettersMiddle` | jni/mem.c:123-132 | the letters of the flags 9 to 17 |
| `PageFlags.FlagLettersHigh` | jni/mem.c:133-141 | the letters of the flags 18 to 26 |
| `PageFlags.FlagLettersHackers` | jni/mem.c:143-151 | the letters of the flags 32 to 40 |
| `PageFlags.FlagLettersOverloaded` | jni/mem.c:153-160 | the letters of the flags from 48 on |
| `PageFlags.SlotCounts` | jni/mem.c:472-485 | the place of a named bit in the text is the number of named bits below it |
| `PageFlags.RenderingRoundTrip` | jni/mem.c:588-593 | for words of named bits below 48, the text gives back all bits but bit 40, and the file, swap and exclusive bits of the entry |
| `PageFlags.SoftDirtyMerges` | jni/mem.c:576-577 | bit 40 cannot be given back |
| `SetCmp.AddPage` | jni/setcmp.c:30-38 | a page that looks zero, or is shared if only candidates count, is skipped; any other adds its hash |
| `SetCmp.AddRegion` | jni/setcmp.c:17-39 | a region adds the hashes of its pages that count |
| `SetCmp.SetFromProc` | jni/setcmp.c:72-95 | the set of a process, or its candidate set, is the multiset of those hashes over all regions |
| `SetCmp.UniqSetFromRegion` | jni/setcmp.c:49-70 | each candidate hash of a region once |
| `SetCmp.UniqSetFromProc` | jni/setcmp.c:98-123 | each candidate hash of a process once |
| `SetCmp.UniqueIsStrict` | jni/setcmp.c:97-123 | such a set is strictly increasing in order |
| `SetCmp.FoundInOtherSets` | jni/setcmp.c:142-156 | 1 exactly if a set other than the named one holds the key |
| `SetCmp.IntraSimi` | jni/setcmp.c:125-138 | for each process, its nonzero pages less its distinct candidate hashes |
| `SetCmp.FreeAll` | jni/setcmp.c:191-192 | frees sets that share nothing, one after the other |
| `SetCmp.InterSimi` | jni/setcmp.c:160-193 | for each process, its candidate pages that occur in another process |
| `SetCmp.DupInRegion` | jni/setcmp.c:232-245 | the pages of a region that occur in another set |
| `SetCmp.SimiMatrix` | jni/setcmp.c:195-228 | for each pair, the candidate pages of one that occur in the other; 0 on the diagonal |
| `SetCmp.TotalDup` | jni/setcmp.c:283-308 | for each process before the first without candidates, the distinct candidates shared with another process and the number of nonzero pages; undefined from there on |
| `SetCmp.TotalUndefinedIff` | jni/setcmp.c:298-302 | it is undefined exactly if all pages of some process look zero or are shared |
| `SetCmp.IntraMrSimi` | jni/setcmp.c:310-320 | the same difference as IntraSimi for one region |
| `SetCmp.UnfilteredDup` | jni/setcmp.c:333-353 | the loop that does not skip zero pages counts what mr_dup_inter counts, because no set holds the zero-page hash |
| `SetCmp.IntraProcSimiMr` | jni/setcmp.c:322-367 | the lines for the regions with duplicates in other regions, in order |
| `SetCmpTheory.ZeroPageHashIs` | jni/mem.c:286-292 | the zero-page hash used by the reports is that of a zero page |
| `SetCmpTheory.InterBetweenMaxAndSum` | jni/setcmp.c:160-228 | each inter-process count lies between the maximum and the sum of its matrix row |
| `SetCmpTheory.TotalIsIntersection` | jni/setcmp.c:295-307 | the total count is the size of the intersection with the other processes' candidates |
| `SetCmpTheory.TotalBelowInter` | jni/setcmp.c:160-308 | it never exceeds the inter-process count |
| `SetCmpTheory.TotalOfTwo` | jni/setcmp.c:283-308 | for two processes the two total counts are equal |
| `SetCmpTheory.IntraIs` | jni/setcmp.c:125-138 | the intra-process number is the shared nonzero pages plus the repetitions among candidates, and never negative |
| `SetCmpTheory.OrderDoesNotMatter` | jni/setcmp.c:98-138 | it, and the unique set, do not depend on the order of regions or pages |
| `SetCmpPages.BagCountsPages` | jni/setcmp.c:17-39 | a key occurs in the set of a process once for each page that counts and has that hash |
| `SetCmpPages.IntraCountsPages` | jni/setcmp.c:125-138 | the nonzero pages of the process less the distinct hashes of its candidate pages |
| `SetCmpPages.InterCountsPages` | jni/setcmp.c:160-189 | the candidate pages of which some other process has a page with the same hash, each once |
| `SetCmpPages.MatrixCountsPages` | jni/setcmp.c:207-221 | the candidate pages of one process of which the other has a page with the same hash |
| `SetCmpPages.TotalCountsHashes` | jni/setcmp.c:295-307 | the distinct hashes of candidate pages that are hashes of candidate pages of another process, too |
| `SetCmpPages.NoCandidatePages` | jni/setcmp.c:298-302 | a process has no candidate exactly if all of its pages look zero or are shared |
| `SetCmpPages.RegionCountsPages` | jni/setcmp.c:310-353 | the two numbers in the line of a region, counted over its pages |
| `SetCmpPages.ReportLines` | jni/setcmp.c:333-362 | one line for exactly the regions with duplicates in another region, in order |

## Left out

- Opening and reading files under /proc, ptrace, timers and exits: system calls.  Pages and kernel tables are parameters, and so is what each read delivers; no walk reads a table twice at one place for the same page, so that covers every run.
- Parsing of /proc/pid/maps lines, and the doubling array of regions: library formatting and an easy filter.
- All printing: the reports return what the source prints.
- The packing of a parent pointer and a colour into one word: two fields here.
- `container_of`, `malloc` and `free`: a key is a field of its node, and released nodes are listed in a ghost result.
- `rb_replace_node`: nothing in the repository calls it.
- Overflow of the `int` counters (set sizes, report numbers, slot indices): they would need 2^31 pages; `Pagemap.ReadRegion` requires fewer.
- Simi.Set.Jaccard: divides real numbers instead of doubles.
- PageFlags.KpageflagsFlags: a 64-bit word is the set of its one bits, so that `|` is union and `^` symmetric difference.
- Pagemap.MrParsePagemap: what `walk_swap` prints is left out; it changes no state.
- SetCmp.SimiMatrix: frees all full sets before the candidate sets, where the source alternates between the two.
- Simi.Set.FirstData: returns null for the address that the source computes from NULL on an empty set.
- `read_mem`'s and `proc_parse_pagemap`'s outer loops over the regions of a process, which treat each region by itself.
- `jni/cmp.c`, `jni/sock.c`, `jni/memdump.c`, `jni/testnapp.c`: further reports of the same kind, and command-line entry points.
