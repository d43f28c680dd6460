# Verified models of the version-control core

This project models parts of the git library kept under depe/git and proves what those parts are for.
One command, `dafny verify dfyconfig.toml`, checks all of it.

- **Commit graphs** (CommitGraph, Painting, PaintDown, Marks, MergeBases, ReduceHeads, TopoSort). Commits
  are objects whose flags are set and cleared in place. The priority queue is a bag that may hand out any
  element, so no result depends on dates. The walk stops while stale commits are still queued; the main
  results say that the answers are exact all the same and that no flag is left behind.
- **Message repair** (Utf8). The checks on bytes are compared with an encoder for section 3 of RFC 3629.
- **Bisection** (Bisect). Cheap weight propagation is compared with counting what each commit reaches.
- **Cached trees** (CacheTree, CacheTreeUpdate, CacheTreeIndex, CacheTreeFormat). What is cached is compared
  with building the tree from the whole index, across edits, invalidations, failed and successful updates;
  the file format is read back. The hash is an arbitrary function and the object store a set.
- **Line ends and filters** (Convert, StreamFilter, Cascade, FilteredStream). A filter is a state and a step;
  the stream contract of convert.h is a predicate on both, and the cascade is proved for any two stages
  that meet it.
- **Combined diffs** (Coalesce, LostList, CombineDiff). The merged list is defined on values; linked nodes and
  tables in place are proved to compute it, and each of up to 32 parents is proved to be recoverable from the lines.
- **Configuration files** (Config, ConfigText, ConfigFile). The parser is defined on texts and refined by the
  character-by-character one; what the writer prints is read back, and files written by hand mean what their lines say.
- **Decorations and attributes** (Decorate, AttrStack, AttrFill, AttrOrder). A probing hash table as a map; a reused
  directory stack as a rebuilt one; macro expansion with a counter as a full scan, and that scan as a rule that says
  which setting wins.

Four promises hold only under a condition:

- The LF-to-CRLF filter must not be fed an empty chunk while it holds a byte other than CR: the byte is written
  but not counted. `StreamFilter.AccountKeptExactly` says when the account is kept,
  `StreamFilter.EmptyChunkLosesByte` shows the loss. The cascade and the filtered stream never do this.
- A configuration value with a CR is read back exactly when the writer quotes it (`Config.RoundTrip`).
- A bisection returns a best commit exactly when the loops weigh one (`Bisect.FindBisection`). Merges that leave
  their tree unchanged are counted although they are no choices, so the loop that fills in the other weights can
  end early. It weighs all choices when there is no such merge, and on lists with children before parents when the
  counter is not full before the loop begins (`Bisect.FindsBest`); when it is full, a root or a merge has to be
  best (`Bisect.FindsBestAtOnce`). `Bisect.TreesameMergesHideTheMiddle` is a history where it is not.
- Merging lost lines marks a match with an int shifted by the number of the parent, where every other mask is a
  long. Each parent can be put together exactly up to parent 31 (`Coalesce.KeepsAllBelowIntWidth`,
  `CombineDiff.MergesAllBelowIntWidth`); `Coalesce.SharedLineHarmed` is a failing input for each number from 32 to 63.

A ghost parameter G is the finite history a method works in; ghost parameters otherwise name values that occur
only in proofs. A table or function of numbers is sometimes passed as a ghost function value, so that a loop is
proved against its defining equations alone, and a proof that does not need a definition hides it.

## Model

| member | source | states |
|---|---|---|
| CommitGraph.InsertByDate | depe/git/commit.c:453-464 | inserting by date keeps a dated list in date order and adds exactly the one commit |
| Painting.PaintStep | depe/git/commit.c:803-822 | painting one parent keeps the whole-run invariant of the walk: flags tell the truth, STALE comes only with both colours, every unsettled commit is queued |
| Painting.Paint | depe/git/commit.c:794-824 | the walk stops although stale commits are still queued, for any pop order; it ends because each step uses up flag bits or queue entries |
| Painting.RecordStep | depe/git/commit.c:809-813 | recording a candidate once keeps the invariant |
| PaintDown.Spread | depe/git/commit.c:803-822 | when the walk has stopped, a colour has reached every ancestor except below stale commits |
| PaintDown.BelowStaleIsLow | depe/git/commit.c:769-776 | what the early stop leaves unpainted lies below a common ancestor |
| PaintDown.MergeBaseIsRecorded | depe/git/commit.c:769-824 | the early stop never misses a best common ancestor |
| PaintDown.PaintedGivesVerdict | depe/git/commit.c:778-825 | in any state where only stale commits are unsettled, flags and list answer the question exactly |
| PaintDown.FlagsAreTrue | depe/git/commit.c:763-767 | STALE implies PARENT1 and PARENT2 and excludes best common ancestors; PARENT1 and PARENT2 mean reachable from one and from a two |
| PaintDown.PaintDownToCommon | depe/git/commit.c:778-825 | for every acyclic graph and every choice of dates: PARENT2 on one exactly when a two reaches it, every best common ancestor is listed and not stale, and all flags hang off the starting points |
| Marks.ClearMarks1 | depe/git/commit.c:514-534 | clearing loses nothing but the mark and leaves no marked commit unreachable from what is still listed |
| Marks.ClearedEverywhere | depe/git/commit.c:514-551 | marks that hang off the starting points are all gone once the starting points are cleared |
| Marks.ClearMarksMany | depe/git/commit.c:536-546 | the commits given end clear, and so does all that a cleared commit leads to along commits that carried the mark; nothing but the mark is taken off |
| MergeBases.InMergeBasesMany | depe/git/commit.c:1025-1043 | true exactly when the commit is reachable from some reference, for all dates; no flag is left behind |
| MergeBases.IsDescendantOf | depe/git/commit.c:1007-1020 | true exactly when the list is empty or the commit reaches some member |
| MergeBases.IndependentAbove | depe/git/commit.c:888-942 | every redundant commit of the array lies below an independent one, so it is seen without the redundant ones |
| MergeBases.CandidatesSuffice | depe/git/commit.c:897-907 | leaving out commits already known to be redundant never changes the verdict on another |
| MergeBases.FindRedundant | depe/git/commit.c:895-927 | the marks are exactly the commits that are ancestors of another element |
| MergeBases.RemoveRedundant | depe/git/commit.c:888-942 | the independent commits move to the front, the others behind them, both in original order; their count is returned and no paint flag remains |
| MergeBases.SelectPartitions | depe/git/commit.c:929-938 | the rearranged array is a permutation of the original |
| MergeBases.SharedStart | depe/git/commit.c:833-839 | a one that is also a two is the only best common ancestor |
| MergeBases.IndependentCandidates | depe/git/commit.c:944-983 | a candidate survives the reduction exactly when it is a best common ancestor |
| MergeBases.MergeBasesMany | depe/git/commit.c:827-859 | the candidates are all common and include every best common ancestor |
| MergeBases.GetMergeBasesMany0 | depe/git/commit.c:944-983 | the answer is exactly the common ancestors that are not proper ancestors of another one, each once, newest first; with cleanup all flags are restored |
| MergeBases.GetMergeBasesMany | depe/git/commit.c:985-990 | the same answer with every flag restored |
| ReduceHeads.ReduceHeads | depe/git/commit.c:1053-1083 | of a list that may repeat heads exactly those remain that no other head reaches, once each, in order |
| ReduceHeads.CollectHeads | depe/git/commit.c:1068-1076 | using STALE as a seen mark takes the first occurrence of every head and leaves no mark |
| TopoSort.CountParents | depe/git/commit.c:661-696 | the indegree of a listed commit is one plus its listings as a parent within the list |
| TopoSort.MayEmit | depe/git/commit.c:719-749 | whatever eligible commit is popped, its parents can be released without a counter running out |
| TopoSort.NothingLeft | depe/git/commit.c:719-749 | an empty queue means that every listed commit was emitted |
| TopoSort.SortInTopologicalOrder | depe/git/commit.c:645-754 | a permutation of the list in which every commit stands before all its listed parents, whichever eligible commit is popped; in the two date orders each commit is one of the newest of those whose listed children are all emitted |
| Utf8.ChecksAreExact | depe/git/commit.c:1404-1475 | the byte checks accept exactly the buffers that start with the encoding of an allowed code point (section 3 of RFC 3629, without surrogates and noncharacters) |
| Utf8.ReadsEncoded | depe/git/commit.c:1440-1468 | decoding an encoded code point gives it back |
| Utf8.EncodedReads | depe/git/commit.c:1440-1468 | what decodes in range is the one encoding of its value, so overlong forms are rejected |
| Utf8.FrontIsUnique | depe/git/commit.c:1440-1468 | no two code points have encodings that start the same buffer |
| Utf8.FindInvalidUtf8 | depe/git/commit.c:1404-1480 | -1 exactly when the buffer is well formed, otherwise the position of the first byte at which no allowed character starts |
| Utf8.RepairKeeps | depe/git/commit.c:1488-1512 | characters that are well formed are kept by the repair |
| Utf8.RepairPieces | depe/git/commit.c:1488-1512 | every text falls into characters and stray bytes, stray only where no character starts; the repair encodes them in order, a stray byte as the code point of its value |
| Utf8.StrBuf.VerifyUtf8 | depe/git/commit.c:1488-1512 | the buffer ends well formed: it encodes the original read as characters and, where none starts, as Latin-1 bytes; the answer is true exactly when nothing changed |
| Bisect.CountDistance | depe/git/bisect.c:34-59 | marks exactly what is reached over interesting commits and counts the tree-changing ones among it, each once |
| Bisect.ClearDistance | depe/git/bisect.c:61-68 | takes every COUNTED mark of a sweep away again |
| Bisect.SweepIsReachSet | depe/git/bisect.c:34-59 | a complete sweep is the set of commits reached |
| Bisect.ReachesThroughOne | depe/git/bisect.c:323-343 | a commit with one interesting parent reaches one more than that parent, or as many when it changes no tree |
| Bisect.HalfwayIsOptimal | depe/git/bisect.c:95-114 | a commit that passes the halfway test splits the choices as evenly as any can |
| Bisect.NextToFill | depe/git/bisect.c:312-345 | a pass of the fill loop weighs another commit as long as one is open, so the loop ends |
| Bisect.StillUnsettled | depe/git/bisect.c:311-346 | while the counter is below nr some weight is open |
| Bisect.CounterIsExact | depe/git/bisect.c:294-346 | the counter that ends the fill loop is the number of settled tree-changing commits if and only if no merge on the list leaves its tree unchanged |
| Bisect.WeighsAll | depe/git/bisect.c:299-346 | every tree-changing commit gets its weight when no merge leaves its tree unchanged, or when parents come first and the roots and merges alone do not fill the counter |
| Bisect.WeighsNoMore | depe/git/bisect.c:311-346 | when they do fill it, the fill loop is skipped and only roots and merges have weights |
| Bisect.BestBisection | depe/git/bisect.c:157-179 | the first of the tree-changing commits with the largest distance, among those whose weight is known |
| Bisect.DoFindBisection | depe/git/bisect.c:246-356 | every settled weight is the true count; the commit returned, also by the early exits, is at least as good as every settled one, and it maximises min(weight, nr - weight) over all if and only if a commit that does is among those the loops weigh |
| Bisect.FindBisection | depe/git/bisect.c:358-401 | a settled count is true; the commit found splits the choices as evenly as any, with its true count, if and only if some commit that does gets a weight |
| Bisect.FindsBest | depe/git/bisect.c:358-401 | that is so on every list without a merge that leaves its tree unchanged, and on every list with children before parents whose roots and merges do not fill the counter |
| Bisect.FindsBestAtOnce | depe/git/bisect.c:311-346 | when they fill it, that is so if and only if a root or a merge is among the best |
| Bisect.TreesameMergesHideTheMiddle | depe/git/bisect.c:299-346 | three merges that leave the tree unchanged, on top of four commits in a row: the best commit is not found |
| CacheTree.MatchesIsUnique | depe/git/cache-tree.c:239-417 | a node that agrees with the index is the only one that does: same id, counts and subtrees as a build from nothing |
| CacheTreeUpdate.NextToEachOther | depe/git/cache-tree.c:262-300 | in a sorted index the entries below a directory are next to each other, although other names may sort between the directory and its contents |
| CacheTreeUpdate.SubtreePos | depe/git/cache-tree.c:45-64 | binary search finds the name, or the one place where it belongs |
| CacheTreeUpdate.FindOrCreate | depe/git/cache-tree.c:66-94 | creating a missing subtree keeps the order and makes nothing cached wrong |
| CacheTreeUpdate.DiscardUnused | depe/git/cache-tree.c:208-223 | exactly the used subtrees remain, in order |
| CacheTreeUpdate.UpdateSubs | depe/git/cache-tree.c:262-300 | after the first loop every directory of the level has an up-to-date used subtree; on failure nothing cached is wrong |
| CacheTreeUpdate.WriteLevel | depe/git/cache-tree.c:302-389 | the tree object lists what a build from nothing lists, although whole groups of entries are skipped by cached counts; it fails if and only if objects have to be there and that of a file or of a subtree is missing |
| CacheTreeUpdate.ItemsByPlace | depe/git/cache-tree.c:302-389 | the lines of a tree object cover the entries of the level in order and without gap: one line for each file, one for all there is in a directory, with the id of the tree built from that alone |
| CacheTreeUpdate.UpdateOne | depe/git/cache-tree.c:239-417 | success gives every node the id and count of a build from nothing and returns the entries under the base; failure leaves only true cached nodes. Success when objects have to be there means that every entry not below a node taken over is in the store or a link, and that the ids of the subtrees are; such entries, and in a dry run the trees of the directories, are enough for success. Only trees of the node are written, in a dry run none |
| CacheTreeUpdate.EmptyReusesNothing | depe/git/cache-tree.c:258-259 | with nothing cached no entry is left out of that |
| CacheTreeIndex.DoInvalidatePath | depe/git/cache-tree.c:102-147 | the tree with the path invalidated, in place |
| CacheTreeIndex.InvalidatesThePath | depe/git/cache-tree.c:102-147 | in it every node above the path has count -1 and its old id, the node in the place of the last name is gone with all below it, and every other node is as before |
| CacheTreeIndex.NotReused | depe/git/cache-tree.c:149-153 | no node on the way to an invalidated path can be taken over, so the next update looks for the object there |
| CacheTreeIndex.InvalidatedIsOk | depe/git/cache-tree.c:149-153 | after an edit and the invalidation of its path, no cached node is wrong |
| CacheTreeIndex.IndexState.InvalidatePath | depe/git/cache-tree.c:149-153 | invalidation alone makes nothing cached wrong |
| CacheTreeIndex.IndexState.Edit | depe/git/cache-tree.c:149-153 | any edit followed by invalidation keeps the index state valid, so any number of edits does |
| CacheTreeIndex.IndexState.VerifyCache | depe/git/cache-tree.c:155-206 | reports unmerged entries and neighbours where a file is also a directory |
| CacheTreeIndex.IndexState.Update | depe/git/cache-tree.c:419-433 | after any edits, an update that succeeds makes the whole tree equal to one built from nothing and marks the tree as changed; an unmerged or conflicting index, or a missing object that is not below a node taken over, makes it fail |
| CacheTreeFormat.WriteOne | depe/git/cache-tree.c:435-473 | appends exactly the bytes of the node and its subtrees |
| CacheTreeFormat.KnownBytes | depe/git/cache-tree.c:440-470 | the bytes of a small tree, written out, the shorter of two names first |
| CacheTreeFormat.ReadNumber | depe/git/cache-tree.c:497-504 | a printed count is read back, whatever follows it that is not a digit |
| CacheTreeFormat.CacheTreeSub | depe/git/cache-tree.c:96-100 | putting a subtree keeps the names sorted |
| CacheTreeFormat.ReadOne | depe/git/cache-tree.c:480-561 | the loops read what the recursive definition reads, on every buffer, malformed ones included |
| CacheTreeFormat.ReadWritten | depe/git/cache-tree.c:435-561 | reading a written node gives the same shape, names, counts and valid ids and stops right behind it |
| CacheTreeFormat.RoundTrip | depe/git/cache-tree.c:475-568 | cache_tree_read undoes cache_tree_write for every tree with sorted names free of NUL |
| Convert.GatherStats | depe/git/convert.c:33-74 | the counters are those of the whole buffer, a final end-of-file character forgiven |
| Convert.StatsForetell | depe/git/convert.c:268-274 | the counters foretell the length of the result; they are equal exactly when conversion changes nothing |
| Convert.PairsMissLoneCr | depe/git/convert.c:284-286 | CR and CRLF counts differ exactly when some CR stands alone |
| Convert.CrlfTwice | depe/git/convert.c:253-310 | converting twice is converting once |
| Convert.CrlfPlaces | depe/git/convert.c:292-306 | each byte of the text is moved by the number of LFs without CR up to it, and the CRs put in stand right before those |
| Convert.BinaryMeans | depe/git/convert.c:79-96 | text is taken for binary if and only if it holds a NUL or fewer than 128 other bytes for each control byte, a final end-of-file byte forgiven |
| Convert.CleanIsNotBinary | depe/git/convert.c:79-96 | a text of printable bytes and BS, HT, LF, FF, CR and ESC never is, however short |
| Convert.CrlfToWorktree | depe/git/convert.c:253-310 | returns the conversion if and only if the action and the settings want CR LF, some LF has no CR before it, and a guessing action finds neither a lone CR nor a NUL nor fewer than 128 other bytes for each control byte, nor, when it only guesses from the setting, any CR |
| StreamFilter.Streamed | depe/git/convert.h:66-76 | a filter that keeps the stream contract puts out exactly its whole conversion for every chunking and all positive capacities |
| StreamFilter.FeedKeepsAccount | depe/git/convert.c:952-1029 | a call with input loses and repeats nothing: what was put out and what is held are together the conversion of what was consumed, and the call makes progress |
| StreamFilter.CrlfKeepsPromise | depe/git/convert.c:952-1029 | the LF-to-CRLF filter keeps the stream contract |
| StreamFilter.StreamedInFull | depe/git/convert.h:66-76 | if it never fails, as many calls as there are bytes in and out use up the input, and one drain more than there are bytes out reaches the end: all of the conversion is put out |
| StreamFilter.CrlfStreamed | depe/git/convert.c:952-1029 | for every chunking and all capacities the drained filter has put out the bytes of the whole-buffer form; three calls for each byte and a drain for each byte out are enough |
| StreamFilter.AccountKeptExactly | depe/git/convert.c:965-978 | one call keeps the account if and only if the chunk is not empty, or nothing but a CR is held |
| StreamFilter.EmptyChunkLosesByte | depe/git/convert.c:965-978 | an empty chunk fed while a newline is held loses the newline |
| StreamFilter.LfToCrlfFilter.Filter | depe/git/convert.c:952-1029 | the loop over the caller's buffer gives the reply of the definition and touches nothing outside the room given |
| StreamFilter.NullKeepsPromise | depe/git/convert.c:903-920 | the null filter keeps the stream contract for the identity |
| Cascade.QueueFed | depe/git/convert.c:1076-1086 | feeding two from the buffer keeps the account of both stages |
| Cascade.UpstreamFed | depe/git/convert.c:1088-1102 | feeding one into the empty buffer keeps the account of both stages |
| Cascade.FirstDrained | depe/git/convert.c:1088-1106 | draining one: nothing comes only when two has been given all of it |
| Cascade.SecondDrained | depe/git/convert.c:1108-1119 | draining two: nothing comes only when everything is out |
| Cascade.CascadeFilter.Filter | depe/git/convert.c:1061-1122 | any two stages that keep the contract: after every call the bytes out are accounted for, each call with input makes progress and ends, and a drain that puts out nothing means that two(one(input)) is out |
| FilteredStream.Stream.Read | depe/git/streaming.c:192-249 | however the upstream cuts its reads and whatever sizes are asked for, a short read means that the upstream did not fail and exactly two(one(content)) was handed out; reading fails only when the upstream or a filter does |
| Coalesce.LcsIsLongest | depe/git/combine-diff.c:207-227 | no alignment of the two lists is longer than the table says |
| Coalesce.LcsIsReached | depe/git/combine-diff.c:207-227 | some alignment is as long |
| Coalesce.CoalescedLength | depe/git/combine-diff.c:164-285 | the merged list has length base plus new minus LCS, for any way of matching lines |
| Coalesce.MergeKeepsBoth | depe/git/combine-diff.c:234-270 | lines with the new bit match the new list line by line; taking the mask away gives the base list with its order and other bits |
| Coalesce.CoalescedKeepsAll | depe/git/combine-diff.c:164-285 | with exact matching the new parent, if its number is below 32, owns its lines and every earlier parent owns what it did |
| Coalesce.KeepsAllBelowIntWidth | depe/git/combine-diff.c:231 | merging keeps the lines of every parent, on all lists, if and only if the number of the new parent is below the width of an int, in which its mask is shifted |
| Coalesce.SharedLineHarmed | depe/git/combine-diff.c:231 | from 32 on, one line shared by the parents 0 and n is enough: n does not get it, or 31 does |
| LostList.FillTables | depe/git/combine-diff.c:196-227 | the table of directions is that of the definition, and both list ends are found |
| LostList.Unlink | depe/git/combine-diff.c:244-253 | taking a node out leaves a well-formed list of the others |
| LostList.Insert | depe/git/combine-diff.c:255-269 | putting a node in leaves a well-formed list; at the head only its back link is still old |
| LostList.CoalesceLines | depe/git/combine-diff.c:164-285 | the linked list returned is well formed, made of the given nodes, and holds the merged list, a match marked with whatever the shift gives |
| LostList.Bucket.AppendLost | depe/git/combine-diff.c:315-335 | appends the line without its newline, marked for the one parent, to a well-formed list |
| CombineDiff.ChompedEnded | depe/git/combine-diff.c:315-335 | the lines of a diff without their newline are the lines of the parent |
| CombineDiff.CombineDiffState.ConsumeLine | depe/git/combine-diff.c:347-390 | one line of the diff moves the reader and marks the lines as defined, and touches no other parent's numbers |
| CombineDiff.ScriptRead | depe/git/combine-diff.c:347-390 | reading any valid diff without context collects exactly the parent, and marks nothing of other parents |
| CombineDiff.ScriptPlaces | depe/git/combine-diff.c:347-390 | each line lost goes to the position of its hunk, and the flag to the lines the parent lacks, whatever was there before |
| CombineDiff.AssignNumbers | depe/git/combine-diff.c:433-457 | p_lno at each position is one plus the parent's lines before it, trailer included |
| CombineDiff.ParentMerged | depe/git/combine-diff.c:433-457 | after merging a parent below 32, it can be put together from lost and surviving lines, and every earlier parent as before at every position |
| CombineDiff.MergedTaken | depe/git/combine-diff.c:433-457 | the list of each position becomes as short as merging the lines read for it, by the match given, can make it, and no shorter |
| CombineDiff.MergedGiven | depe/git/combine-diff.c:433-457 | at each position the new parent, below 32, owns the lines read there and every earlier one what it did |
| CombineDiff.MergesAllBelowIntWidth | depe/git/combine-diff.c:231 | merging what was read does so, whatever was read, if and only if the number of the parent is below 32 |
| CombineDiff.CombineDiff | depe/git/combine-diff.c:392-458 | one parent read and merged: at each position the list is as short as any alignment by the match allows, the result lines the parent lacks are marked, and its numbers count its lines; below 32 it owns what it lost at each position and earlier ones are unchanged |
| CombineDiff.ReusedMeans | depe/git/combine-diff.c:847-872 | a parent marked like an earlier one is put together as that one |
| CombineDiff.CombineParents | depe/git/combine-diff.c:1139-1152 | after up to 32 parents every one of them can be put together and is numbered rightly; each step merges into lists as short as the match allows, or reuses an earlier parent without adding a line |
| Config.QuotedRead | depe/git/config.c:258-317 | a value printed inside quotes is read back whatever it holds |
| Config.PlainRead | depe/git/config.c:258-317 | a value printed without quotes and without CR is read back, inner spaces kept |
| Config.PlainLosesCr | depe/git/config.c:274-278 | outside quotes no CR survives |
| Config.ValueRead | depe/git/config.c:1754-1800 | a printed value reads back as itself if and only if it is quoted or holds no CR |
| Config.PairRead | depe/git/config.c:1754-1800 | the printed line calls back exactly once and parsing goes on right behind it, whatever follows |
| Config.SubsectionRead | depe/git/config.c:1735-1745 | an escaped subsection name is read back |
| Config.SectionRead | depe/git/config.c:1729-1752 | the printed header opens the section under its canonical name, whatever follows |
| Config.RoundTrip | depe/git/config.c:1729-1800 | for every accepted key and value the written file calls back once with the canonical key, and with the value if and only if it is quoted or holds no CR |
| Config.PairsRead | depe/git/config.c:1754-1800 | several values under one section are all called back, in order |
| ConfigText.FileRead | depe/git/config.c:414-477 | a whole file of comments, blank lines, headers with or without a subsection, names without a value and printed pairs makes exactly the calls it stands for, in order and until the callback refuses, with or without a byte order mark |
| ConfigText.CommentSkipped | depe/git/config.c:440-451 | a comment line changes nothing, whatever stands before and behind it |
| ConfigText.CommentEndsValue | depe/git/config.c:265-283 | a comment ends a value where it begins and does not belong to it |
| ConfigText.EscapeMeans | depe/git/config.c:287-308 | the five escapes, and that any other character behind a backslash is an error |
| ConfigText.LineContinued | depe/git/config.c:287-291 | a backslash before LF or CR LF goes on with the next line |
| ConfigText.OpenQuoteIsBad | depe/git/config.c:265-270 | a value whose quote is still open at the end of the line or file is bad |
| ConfigText.BareName | depe/git/config.c:330-345 | a name alone on its line is called back without a value |
| ConfigText.NameNeedsEquals | depe/git/config.c:340-346 | anything else than an equals sign behind a name is an error |
| ConfigText.DottedRead | depe/git/config.c:398-412 | a header without a subsection opens the section in lower case, dots included |
| ConfigText.HeaderRejects | depe/git/config.c:398-412 | another character in a header, or the end of the file, is an error |
| ConfigText.SubsectionEscape | depe/git/config.c:375-387 | in a subsection a backslash stands for the character behind it |
| ConfigText.SubsectionStaysOpen | depe/git/config.c:375-387 | a subsection that does not end on its line is an error |
| ConfigText.BadHeader | depe/git/config.c:452-460 | a bad or empty header ends the parsing without a call |
| ConfigText.StrayIsBad | depe/git/config.c:461-462 | a line that starts with another character does so too |
| ConfigText.MarkSkipped | depe/git/config.c:421-439 | a byte order mark at the beginning is skipped |
| ConfigText.PartOfMarkIsBad | depe/git/config.c:433-435 | a part of one is an error |
| ConfigFile.ParseKey | depe/git/config.c:1851-1907 | accepts exactly the keys whose characters are allowed where they stand, and stores the canonical form |
| ConfigFile.CanonicalIsStable | depe/git/config.c:1851-1907 | the canonical form is accepted and is its own canonical form |
| ConfigFile.CanonicalMeans | depe/git/config.c:1851-1907 | the canonical form has the upper-case letters of section and name in lower case and everything else of the key as it is |
| ConfigFile.ConfigSource.GetNextChar | depe/git/config.c:235-256 | CR LF and the end of file both read as a newline; a lone CR is kept |
| ConfigFile.ConfigSource.ParseValue | depe/git/config.c:258-317 | the loop gives the value of the definition, or fails where it does |
| ConfigFile.ConfigSource.GetValue | depe/git/config.c:324-360 | one line calls back once, or not at all when it is bad |
| ConfigFile.ConfigSource.GetBaseVar | depe/git/config.c:362-412 | a section header gives the name of the definition, or fails where it does |
| ConfigFile.ConfigSource.ParseSource | depe/git/config.c:414-477 | a whole file makes exactly the calls of the definition on texts, and stops where the callback or an error says so |
| ConfigFile.StoreWriteSection | depe/git/config.c:1729-1752 | prints the header of the definition |
| ConfigFile.StoreWritePair | depe/git/config.c:1754-1800 | prints the line of the definition, quotes included |
| Decorate.EmptyRemains | depe/git/decorate.c:20-28 | a table that is not full has an empty slot, so probing ends |
| Decorate.ProbeEnds | depe/git/decorate.c:68-85 | probing that meets an empty slot proves the object has none |
| Decorate.Placed | depe/git/decorate.c:14-33 | a decoration put where probing ended is found there, and every other lookup is as before |
| Decorate.Decoration.GrowDecoration | depe/git/decorate.c:35-54 | growing keeps every lookup and at most two thirds used |
| Decorate.Decoration.AddDecoration | depe/git/decorate.c:57-65 | a map update: the object gets the decoration, all others keep theirs, the old one is returned |
| Decorate.Decoration.LookupDecoration | depe/git/decorate.c:68-85 | a map lookup that defaults to NULL |
| AttrStack.OriginsAreAncestors | depe/git/attr.c:542-630 | the origins are the root and directories above the path, each deeper than the one below it on the stack |
| AttrStack.EveryAncestorHasOrigin | depe/git/attr.c:542-630 | every directory above the path is on the stack |
| AttrStack.SharedDirs | depe/git/attr.c:571-594 | where two paths have not branched off, their stacks agree |
| AttrStack.RebuiltIsLayered | depe/git/attr.c:542-630 | a stack built from nothing has info on top, the built-in files at the bottom, and between them the root and every directory above the path, deeper ones nearer the top |
| AttrStack.AttrStack.PrepareAttrStack | depe/git/attr.c:542-630 | whatever paths were looked up before, the stack equals one built from nothing and is layered as it has to be |
| AttrFill.FilledCloses | depe/git/attr.c:657-719 | filling one line decides all of it, and everything in the definition of each macro it sets, mutual recursion included |
| AttrFill.FilledJustified | depe/git/attr.c:657-719 | nothing is decided but by the line or by the definition of a macro that is set |
| AttrFill.CollectedMeans | depe/git/attr.c:726-768 | every attribute of an applying line or set macro is decided; each decided value stands in such a line or definition |
| AttrOrder.CollectedFirst | depe/git/attr.c:655-768 | each attribute has the value of the first setting met in reading files from the top, lines and settings from the last, and the definition of a macro right behind the setting that turns it on, when that setting won |
| AttrOrder.OneOutcome | depe/git/attr.c:655-768 | no other values follow that rule |
| AttrOrder.CollectedLast | depe/git/attr.c:679-694 | an attribute that no macro sets has the value of its last setting in the last applying line of the file nearest the top that has one |
| AttrFill.NothingOpenInAll | depe/git/attr.c:766-768 | once nothing is open, scanning on changes nothing |
| AttrFill.FillOne | depe/git/attr.c:657-677 | with the counter: the values of the full scan, and the counter is the number of open attributes; it ends although macros call each other |
| AttrFill.MacroexpandOne | depe/git/attr.c:696-719 | expands the definition found |
| AttrOrder.NearestMacro | depe/git/attr.c:706-713 | the definition found is the last of the file nearest the top that has one, and one is found if there is any |
| AttrFill.CollectAttrs | depe/git/attr.c:726-768 | stopping at zero gives the values of scanning the whole stack |

## Left out

- Commit parsing is taken to succeed, so the exits for commits that cannot be parsed are absent; flag bits of other
  code are shown to be kept and are not interpreted.
- Grafts, shallow boundaries and the octopus form of merge bases (commit.c:861-886).
- TopoSort.SortInTopologicalOrder: which of several commits of the same date comes first, and which queued commit is
  taken in graph order, is not stated; reading the dates of authors is absent.
- Bisect.FindBisection: find_all and the sorted variant are absent.
- CacheTreeUpdate.WriteLevel: entries marked for removal or added by intent only (cache-tree.c:366-381), which the
  tree object leaves out, are absent.
- CacheTreeUpdate.UpdateOne: cached trees are values, so sharing of nodes is not captured; the entries just named,
  the skip counts they cause, the repair flag and a failing object write are absent, and the index is taken to be
  sorted.
- CacheTreeIndex.IndexState.Update: the same entries and the repair flag are absent.
- StreamFilter.CrlfStreamed: empty chunks, for which one call can lose a byte, are not among the chunkings.
- FilteredStream.Stream.Read: the filter is always a cascade of two stages.
- CacheTreeIndex.IndexState.VerifyCache: compares neighbours as the code does; it is not claimed to find every conflict.
- Convert.CrlfToWorktree: the conversion towards the index, ident expansion and external programs are absent.
- Cascade.CascadeFilter.Filter: the two stages are states with a step function, so a cascade of cascades is not an
  instance; the function table and the freeing of filters are absent.
- The streaming ident filter, which differs from the whole-buffer form on some inputs.
- CombineDiff.CombineDiff: lists of lost lines are values at this level (LostList has the nodes), diff output is a
  stream of events rather than text, and lines are compared without their newline, so a missing final newline is
  not seen. More than 64 parents do not fit the long masks either and are not modelled.
- LostList.CoalesceLines: freeing of the matched nodes and of the tables.
- The choice of hunks to show and their printing (combine-diff.c:470-840).
- Config.RoundTrip: a char is a byte of a file; a buffer whose chars are signed, where byte 255 reads as the end of
  file, is not modelled, nor are line numbers in messages.
- Replacing or removing values in an existing file, locking and includes (config.c:1934-2157).
- Decorate.Decoration.AddDecoration: table sizes are unbounded numbers; the code's would overflow beyond about a
  billion slots.
- AttrStack.AttrStack.PrepareAttrStack: the files read are a function of their directory, that is, they do not change
  between lookups.
- AttrFill.CollectAttrs: only collecting all attributes; the shortcut for attributes that no line mentions
  (attr.c:751-763) and the matching of patterns against paths are absent.
- Attribute lines are given as parsed: that no line sets an attribute to unknown, and that every macro is flagged as
  one, are preconditions.
